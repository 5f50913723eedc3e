/** Properties that relate several operations of `CompositeDataSupport`:
  order independence of construction, the `get`/`containsKey` asymmetry,
  and the laws of `equals` and `hashCode`.
 */
module CompositeProperties {
  import opened Outcomes
  import opened JavaStrings
  import opened OpenValues
  import opened SortedContents
  import opened CompositeDataSupport

  // ---------------------------------------------------------------------
  // Looking items up
  // ---------------------------------------------------------------------

  /** The value stored for an item of the record. */
  function Item(cd: Record, k: string): Value
    requires k in cd.compositeType.KeySet()
  {
    Find(cd.contents, k).value
  }

  /** Every stored entry is what a lookup of its name finds. */
  lemma EntryIsItem(cd: Record, e: Entry)
    requires e in cd.contents
    ensures e.name in cd.compositeType.KeySet() && Item(cd, e.name) == e.value
  {
    FindAt(cd.contents, IndexOf(cd.contents, e));
  }

  /** For an item name as the type defines it (trimmed, not blank), `get`
      returns the stored value. */
  lemma GetItem(cd: Record, k: string)
    requires k in cd.compositeType.KeySet() && IsItemName(k)
    ensures Get(cd, Some(k)) == Success(Item(cd, k))
  {
    ItemNameIffTrimmed(k);
    var r := Get(cd, Some(k));
    EntryIsItem(cd, Entry(k, r.value));
  }

  /** After a successful construction from a type with trimmed names, `get`
      of each given name returns the value given with it. */
  lemma GetAfterConstruct(ct: CompositeType, names: seq<Option<string>>, values: seq<Value>, isValue: Validator)
    requires TrimmedNames(ct)
    requires Construct(Some(ct), Some(names), Some(values), isValue).Success?
    ensures forall i :: 0 <= i < |names| ==>
              Get(Construct(Some(ct), Some(names), Some(values), isValue).value, names[i]) == Success(values[i])
  {
    var cd := Construct(Some(ct), Some(names), Some(values), isValue).value;
    forall i | 0 <= i < |names|
      ensures Get(cd, names[i]) == Success(values[i])
    {
      var k := names[i].value;
      assert Find(cd.contents, k) == Some(values[i]);
      GetItem(cd, k);
    }
  }

  /** Whatever `containsKey` finds, `get` finds too. */
  lemma ContainsKeyThenGet(cd: Record, key: Option<string>)
    requires TrimmedNames(cd.compositeType)
    ensures ContainsKey(cd, key) ==> Get(cd, key).Success?
  {
    if ContainsKey(cd, key) {
      assert Trim(key.value) == key.value;
    }
  }

  /** The converse fails: a key with a leading space is found by `get`,
      which trims it, and not by `containsKey`, which does not. */
  lemma PaddedKeyOnlyGot(cd: Record, k: string)
    requires TrimmedNames(cd.compositeType)
    requires k in cd.compositeType.KeySet()
    ensures Get(cd, Some([' '] + k)) == Success(Item(cd, k))
    ensures !ContainsKey(cd, Some([' '] + k))
  {
    var padded := [' '] + k;
    LeadingSpaceTrimmedAway(k);
    assert Trim(padded) == k;
    GetItem(cd, k);
    assert padded !in cd.compositeType.KeySet() by {
      assert |Trim(padded)| < |padded|;
    }
  }

  // ---------------------------------------------------------------------
  // Order independence of construction
  // ---------------------------------------------------------------------

  /** The (name, value) pairs the parallel arrays encode. */
  function Pairs(ns: seq<Option<string>>, vs: seq<Value>): (r: seq<(Option<string>, Value)>)
    requires |ns| == |vs|
    ensures |r| == |ns|
    ensures forall i :: 0 <= i < |ns| ==> r[i] == (ns[i], vs[i])
  {
    seq(|ns|, i requires 0 <= i < |ns| => (ns[i], vs[i]))
  }

  /** Both arrays encode the same set of pairs. */
  ghost predicate SamePairs(ns: seq<Option<string>>, vs: seq<Value>, ns2: seq<Option<string>>, vs2: seq<Value>)
    requires |ns| == |vs| && |ns2| == |vs2|
  {
    |ns| == |ns2| && forall p :: p in Pairs(ns, vs) <==> p in Pairs(ns2, vs2)
  }

  /** Every pair of one encoding is at some position of the other. */
  lemma PairFound(ns: seq<Option<string>>, vs: seq<Value>, ns2: seq<Option<string>>, vs2: seq<Value>, i: nat)
    requires |ns| == |vs| && |ns2| == |vs2| && SamePairs(ns, vs, ns2, vs2) && i < |ns|
    ensures exists j :: 0 <= j < |ns2| && ns2[j] == ns[i] && vs2[j] == vs[i]
  {
    assert Pairs(ns, vs)[i] in Pairs(ns, vs);
  }

  lemma MalformedFollows(ct: Option<CompositeType>, ns: seq<Option<string>>, vs: seq<Value>,
                         ns2: seq<Option<string>>, vs2: seq<Value>)
    requires |ns| == |vs| && |ns2| == |vs2| && SamePairs(ns, vs, ns2, vs2)
    requires Malformed(ct, Some(ns), Some(vs))
    ensures Malformed(ct, Some(ns2), Some(vs2))
  {
    if HasNullName(ns) {
      var i :| 0 <= i < |ns| && ns[i].None?;
      PairFound(ns, vs, ns2, vs2, i);
    } else if HasBlankName(ns) {
      var i :| 0 <= i < |ns| && ns[i].Some? && IsBlank(ns[i].value);
      PairFound(ns, vs, ns2, vs2, i);
    }
  }

  lemma SchemaViolationFollows(ct: CompositeType, ns: seq<Option<string>>, vs: seq<Value>,
                               ns2: seq<Option<string>>, vs2: seq<Value>, isValue: Validator)
    requires |ns| == |vs| && |ns2| == |vs2| && SamePairs(ns, vs, ns2, vs2)
    requires !HasNullName(ns) && !HasNullName(ns2)
    requires SchemaViolation(ct, Unwrap(ns), vs, isValue)
    ensures SchemaViolation(ct, Unwrap(ns2), vs2, isValue)
  {
    var ss, ss2 := Unwrap(ns), Unwrap(ns2);
    assert forall x :: x in ss ==> x in ss2 by {
      forall x | x in ss ensures x in ss2 {
        var i :| 0 <= i < |ss| && ss[i] == x;
        PairFound(ns, vs, ns2, vs2, i);
        var j :| 0 <= j < |ns2| && ns2[j] == ns[i] && vs2[j] == vs[i];
        assert ss2[j] == x;
      }
    }
    assert forall x :: x in ss2 ==> x in ss by {
      forall x | x in ss2 ensures x in ss {
        var j :| 0 <= j < |ss2| && ss2[j] == x;
        PairFound(ns2, vs2, ns, vs, j);
        var i :| 0 <= i < |ns| && ns[i] == ns2[j] && vs[i] == vs2[j];
        assert ss[i] == x;
      }
    }
    if exists i :: 0 <= i < |ss| && vs[i] != Null && ss[i] in ct.itemTypes && !isValue(ct.itemTypes[ss[i]], vs[i]) {
      var i :| 0 <= i < |ss| && vs[i] != Null && ss[i] in ct.itemTypes && !isValue(ct.itemTypes[ss[i]], vs[i]);
      PairFound(ns, vs, ns2, vs2, i);
      var j :| 0 <= j < |ns2| && ns2[j] == ns[i] && vs2[j] == vs[i];
      assert ss2[j] == ss[i];
    }
  }

  /** A successful construction had well-formed arguments whose names list
      each item of the type exactly once. */
  lemma ConstructWellFormed(ct: CompositeType, ns: seq<Option<string>>, vs: seq<Value>, isValue: Validator)
    requires Construct(Some(ct), Some(ns), Some(vs), isValue).Success?
    ensures !HasNullName(ns) && |ns| == |vs|
    ensures Distinct(Unwrap(ns)) && (set x | x in Unwrap(ns)) == ct.KeySet()
  {
    assert !Malformed(Some(ct), Some(ns), Some(vs));
    assert !SchemaViolation(ct, Unwrap(ns), vs, isValue);
    CoverIsPermutation(Unwrap(ns), ct.KeySet());
  }

  /** Sorted contents holding exactly the distinct names `ss`, each with its
      paired value, are the map filled with those pairs. */
  lemma StoredIsBuild(contents: seq<Entry>, ss: seq<string>, vs: seq<Value>)
    requires Sorted(contents) && |ss| == |vs| && Distinct(ss)
    requires Names(contents) == set x | x in ss
    requires forall i :: 0 <= i < |ss| ==> Find(contents, ss[i]) == Some(vs[i])
    ensures contents == Build(ss, vs)
  {
    BuildSorted(ss, vs);
    forall k ensures Find(contents, k) == Find(Build(ss, vs), k) {
      if k in ss {
        var i :| 0 <= i < |ss| && ss[i] == k;
        BuildFind(ss, vs, i);
      }
    }
    SortedExtensional(contents, Build(ss, vs));
  }

  /** A successful construction holds the given pairs put in order, and the
      given names list each item of the type exactly once. */
  lemma ConstructIsBuild(ct: CompositeType, ns: seq<Option<string>>, vs: seq<Value>, isValue: Validator)
    requires Construct(Some(ct), Some(ns), Some(vs), isValue).Success?
    ensures !HasNullName(ns) && |ns| == |vs|
    ensures var ss := Unwrap(ns);
            && Distinct(ss) && (set x | x in ss) == ct.KeySet()
            && Construct(Some(ct), Some(ns), Some(vs), isValue).value == CompositeData(ct, Build(ss, vs))
  {
    ConstructWellFormed(ct, ns, vs, isValue);
    ConstructedNames(ct, ns, vs, isValue);
    StoredIsBuild(Construct(Some(ct), Some(ns), Some(vs), isValue).value.contents, Unwrap(ns), vs);
  }

  /** The names a successful construction stores, with their values, in
      terms of the unwrapped name array. */
  lemma ConstructedNames(ct: CompositeType, ns: seq<Option<string>>, vs: seq<Value>, isValue: Validator)
    requires Construct(Some(ct), Some(ns), Some(vs), isValue).Success?
    requires !HasNullName(ns) && |ns| == |vs|
    ensures var cd, ss := Construct(Some(ct), Some(ns), Some(vs), isValue).value, Unwrap(ns);
            && Names(cd.contents) == (set x | x in ss)
            && forall i :: 0 <= i < |ss| ==> Find(cd.contents, ss[i]) == Some(vs[i])
  {
    var cd := Construct(Some(ct), Some(ns), Some(vs), isValue).value;
    var ss := Unwrap(ns);
    forall k ensures k in Names(cd.contents) <==> k in ss {
      if Some(k) in ns {
        var i :| 0 <= i < |ns| && ns[i] == Some(k);
        assert ss[i] == k;
      }
    }
    forall i | 0 <= i < |ss| ensures Find(cd.contents, ss[i]) == Some(vs[i]) {
      assert ns[i].value == ss[i];
    }
  }

  /** A successful construction stores exactly the given names. */
  lemma ConstructedFind(ct: CompositeType, ns: seq<Option<string>>, vs: seq<Value>, isValue: Validator, k: string)
    requires Construct(Some(ct), Some(ns), Some(vs), isValue).Success?
    ensures var cd := Construct(Some(ct), Some(ns), Some(vs), isValue).value;
            Find(cd.contents, k).Some? <==> Some(k) in ns
  {
    var cd := Construct(Some(ct), Some(ns), Some(vs), isValue).value;
    assert k in Names(cd.contents) <==> Some(k) in ns;
  }

  /** Construction does not depend on the order of the (name, value) pairs:
      any permutation of the pairs raises the same kind of exception or
      builds the very same record. */
  lemma ConstructOrderIndependent(ct: Option<CompositeType>, ns: seq<Option<string>>, vs: seq<Value>,
                                  ns2: seq<Option<string>>, vs2: seq<Value>, isValue: Validator)
    requires |ns| == |vs| && |ns2| == |vs2|
    requires multiset(Pairs(ns, vs)) == multiset(Pairs(ns2, vs2))
    ensures var r1, r2 := Construct(ct, Some(ns), Some(vs), isValue), Construct(ct, Some(ns2), Some(vs2), isValue);
            && r1.Success? == r2.Success?
            && (r1.Failure? ==> r1.error.IllegalArgument? == r2.error.IllegalArgument?)
            && (r1.Success? ==> r1.value == r2.value)
  {
    var r1, r2 := Construct(ct, Some(ns), Some(vs), isValue), Construct(ct, Some(ns2), Some(vs2), isValue);
    assert |Pairs(ns, vs)| == |Pairs(ns2, vs2)| by {
      assert |multiset(Pairs(ns, vs))| == |multiset(Pairs(ns2, vs2))|;
    }
    assert SamePairs(ns, vs, ns2, vs2) && SamePairs(ns2, vs2, ns, vs) by {
      forall p ensures p in Pairs(ns, vs) <==> p in Pairs(ns2, vs2) {
        assert p in Pairs(ns, vs) <==> p in multiset(Pairs(ns, vs));
        assert p in Pairs(ns2, vs2) <==> p in multiset(Pairs(ns2, vs2));
      }
    }
    if Malformed(ct, Some(ns), Some(vs)) {
      MalformedFollows(ct, ns, vs, ns2, vs2);
    } else if Malformed(ct, Some(ns2), Some(vs2)) {
      MalformedFollows(ct, ns2, vs2, ns, vs);
    } else {
      if SchemaViolation(ct.value, Unwrap(ns), vs, isValue) {
        SchemaViolationFollows(ct.value, ns, vs, ns2, vs2, isValue);
      } else if SchemaViolation(ct.value, Unwrap(ns2), vs2, isValue) {
        SchemaViolationFollows(ct.value, ns2, vs2, ns, vs, isValue);
      } else {
        forall k ensures Find(r1.value.contents, k) == Find(r2.value.contents, k) {
          ConstructedFind(ct.value, ns, vs, isValue, k);
          ConstructedFind(ct.value, ns2, vs2, isValue, k);
          if exists i :: 0 <= i < |ns| && ns[i] == Some(k) {
            var i :| 0 <= i < |ns| && ns[i] == Some(k);
            PairFound(ns, vs, ns2, vs2, i);
            var j :| 0 <= j < |ns2| && ns2[j] == ns[i] && vs2[j] == vs[i];
            assert Find(r1.value.contents, k) == Some(vs[i]);
            assert Find(r2.value.contents, k) == Some(vs2[j]);
          }
        }
        SortedExtensional(r1.value.contents, r2.value.contents);
      }
    }
  }

  /** The map constructor does not depend on the map's iteration order. */
  lemma FromMapOrderIndependent(ct: Option<CompositeType>, items: map<Option<string>, Value>,
                                order: seq<Option<string>>, order2: seq<Option<string>>, isValue: Validator)
    requires Enumerates(order, items.Keys) && Enumerates(order2, items.Keys)
    ensures var r1, r2 := FromMap(ct, Some(items), order, isValue), FromMap(ct, Some(items), order2, isValue);
            && r1.Success? == r2.Success?
            && (r1.Failure? ==> r1.error.IllegalArgument? == r2.error.IllegalArgument?)
            && (r1.Success? ==> r1.value == r2.value)
  {
    var r1, r2 := FromMap(ct, Some(items), order, isValue), FromMap(ct, Some(items), order2, isValue);
    if r1.Success? && r2.Success? {
      SortedExtensional(r1.value.contents, r2.value.contents);
    }
  }

  // ---------------------------------------------------------------------
  // Hashing of a constructed record
  // ---------------------------------------------------------------------

  /** The hash of a constructed record is the type's hash plus the item
      hashes summed in the order the values were given: sorting the items
      does not change the sum. */
  lemma HashOfConstruct(ct: CompositeType, ns: seq<Option<string>>, vs: seq<Value>, isValue: Validator)
    requires Construct(Some(ct), Some(ns), Some(vs), isValue).Success?
    ensures HashCode(Construct(Some(ct), Some(ns), Some(vs), isValue).value) == TypeHash(ct) + InputHashSum(vs)
  {
    ConstructIsBuild(ct, ns, vs, isValue);
    var ss := Unwrap(ns);
    BuildHashSum(ss, vs);
  }

  // ---------------------------------------------------------------------
  // Equality and hashing
  // ---------------------------------------------------------------------

  /** What `equals` decides between two records: equal composite types and
      every item deeply equal. */
  ghost predicate Agree(a: Record, b: Record) {
    a.compositeType == b.compositeType &&
    forall k :: k in a.compositeType.KeySet() ==> DeepEquals(Item(a, k), Item(b, k))
  }

  /** The loop of `equals`, over entries whose names `other` holds as
      trimmed items, finds every value deeply equal or stops at the first
      that is not. */
  lemma ItemsEqualSpec(es: seq<Entry>, other: Record)
    requires forall i :: 0 <= i < |es| ==>
               es[i].name in other.compositeType.KeySet() && IsItemName(es[i].name)
    ensures ItemsEqual(es, AsView(other)) ==
              Success(forall i :: 0 <= i < |es| ==> DeepEquals(es[i].value, Item(other, es[i].name)))
  {
    var view := AsView(other);
    forall i | 0 <= i < |es|
      ensures view.get(Some(es[i].name)) == Success(Item(other, es[i].name))
    {
      GetItem(other, es[i].name);
    }
  }

  /** Between records of the same type, `Agree` is the loop's verdict. */
  lemma AgreeByPosition(a: Record, b: Record)
    requires a.compositeType == b.compositeType
    ensures Agree(a, b) <==>
              forall i :: 0 <= i < |a.contents| ==> DeepEquals(a.contents[i].value, Item(b, a.contents[i].name))
  {
    forall i | 0 <= i < |a.contents| ensures a.contents[i].name in a.compositeType.KeySet() && Item(a, a.contents[i].name) == a.contents[i].value {
      EntryIsItem(a, a.contents[i]);
    }
    if forall i :: 0 <= i < |a.contents| ==> DeepEquals(a.contents[i].value, Item(b, a.contents[i].name)) {
      forall k | k in a.compositeType.KeySet() ensures DeepEquals(Item(a, k), Item(b, k)) {
        var e :| e in a.contents && e.name == k;
        var i := IndexOf(a.contents, e);
      }
    }
  }

  /** `equals` between records whose type has trimmed names never fails and
      decides exactly `Agree`. */
  lemma EqualsCharacterized(a: Record, b: Record)
    requires TrimmedNames(a.compositeType)
    ensures Equals(a, Some(Support(b))) == Success(Agree(a, b))
  {
    if a != b && a.compositeType == b.compositeType {
      SortedNamesCount(a.contents);
      SortedNamesCount(b.contents);
      forall i | 0 <= i < |a.contents|
        ensures a.contents[i].name in b.compositeType.KeySet() && IsItemName(a.contents[i].name)
      {
        EntryIsItem(a, a.contents[i]);
      }
      ItemsEqualSpec(a.contents, b);
      AgreeByPosition(a, b);
    }
  }

  /** Any other `CompositeData` implementation that presents the same type,
      size and `get` as a record is equal to exactly the records that record
      is equal to, itself included. */
  lemma ForeignLikeSupport(a: Record, b: Record)
    requires TrimmedNames(a.compositeType)
    ensures Equals(a, Some(Foreign(AsView(b)))) == Equals(a, Some(Support(b)))
  {
    if a == b {
      SelfViewMatches(a);
    } else {
      assert ViewOf(Foreign(AsView(b))) == ViewOf(Support(b));
    }
  }

  /** A record with trimmed item names matches its own interface: same
      size, and `get` of each entry's name returns a deeply equal value. */
  lemma SelfViewMatches(a: Record)
    requires TrimmedNames(a.compositeType)
    ensures |a.contents| == AsView(a).size
    ensures forall i :: 0 <= i < |a.contents| ==> ItemMatches(a.contents[i], AsView(a))
  {
    SortedNamesCount(a.contents);
    forall i | 0 <= i < |a.contents| ensures ItemMatches(a.contents[i], AsView(a)) {
      var e := a.contents[i];
      EntryIsItem(a, e);
      GetItem(a, e.name);
      SameContentDeepEquals(e.value, e.value);
    }
  }

  /** `equals` is symmetric between records whose types have trimmed names. */
  lemma EqualsSymmetric(a: Record, b: Record)
    requires TrimmedNames(a.compositeType) && TrimmedNames(b.compositeType)
    ensures Equals(a, Some(Support(b))) == Equals(b, Some(Support(a)))
  {
    EqualsCharacterized(a, b);
    EqualsCharacterized(b, a);
    if a.compositeType == b.compositeType {
      forall k | k in a.compositeType.KeySet() ensures DeepEquals(Item(a, k), Item(b, k)) <==> DeepEquals(Item(b, k), Item(a, k)) {
        DeepEqualsSymmetric(Item(a, k), Item(b, k));
      }
    }
  }

  /** `equals` is transitive between records whose types have trimmed names. */
  lemma EqualsTransitive(a: Record, b: Record, c: Record)
    requires TrimmedNames(a.compositeType)
    requires Equals(a, Some(Support(b))) == Success(true) && Equals(b, Some(Support(c))) == Success(true)
    ensures Equals(a, Some(Support(c))) == Success(true)
  {
    EqualsCharacterized(a, b);
    EqualsCharacterized(b, c);
    EqualsCharacterized(a, c);
    forall k | k in a.compositeType.KeySet() ensures DeepEquals(Item(a, k), Item(c, k)) {
      DeepEqualsTransitive(Item(a, k), Item(b, k), Item(c, k));
    }
  }

  /** Equal records have equal hash codes. */
  lemma EqualsImpliesSameHash(a: Record, b: Record)
    requires TrimmedNames(a.compositeType)
    requires Equals(a, Some(Support(b))) == Success(true)
    ensures HashCode(a) == HashCode(b)
  {
    EqualsCharacterized(a, b);
    AgreeSameHash(a, b);
  }

  /** Records that agree item by item have equal hash codes. */
  lemma AgreeSameHash(a: Record, b: Record)
    requires Agree(a, b)
    ensures HashCode(a) == HashCode(b)
  {
    SortedSameNames(a.contents, b.contents);
    forall i | 0 <= i < |a.contents| ensures DeepEquals(a.contents[i].value, b.contents[i].value) {
      EntryIsItem(a, a.contents[i]);
      EntryIsItem(b, b.contents[i]);
    }
    HashSumAligned(a.contents, b.contents);
  }

  /** Records built from the same names and from values with equal content
      agree item by item. */
  lemma CopiesAgree(ct: CompositeType, ns: seq<Option<string>>, vs: seq<Value>, vs2: seq<Value>, isValue: Validator)
    requires |vs| == |vs2|
    requires forall i :: 0 <= i < |vs| ==> Erase(vs[i]) == Erase(vs2[i])
    requires Construct(Some(ct), Some(ns), Some(vs), isValue).Success?
    requires Construct(Some(ct), Some(ns), Some(vs2), isValue).Success?
    ensures Agree(Construct(Some(ct), Some(ns), Some(vs), isValue).value,
                  Construct(Some(ct), Some(ns), Some(vs2), isValue).value)
  {
    var a, b := Construct(Some(ct), Some(ns), Some(vs), isValue).value,
                Construct(Some(ct), Some(ns), Some(vs2), isValue).value;
    forall k | k in ct.KeySet() ensures DeepEquals(Item(a, k), Item(b, k)) {
      ConstructedFind(ct, ns, vs, isValue, k);
      var i :| 0 <= i < |ns| && ns[i] == Some(k);
      SameContentDeepEquals(vs[i], vs2[i]);
    }
  }

  /** Two records built from the same names and from values that differ only
      in object identity (an array and a distinct copy of it, say) are equal
      and hash alike. */
  lemma CopiesAreEqual(ct: CompositeType, ns: seq<Option<string>>, vs: seq<Value>, vs2: seq<Value>, isValue: Validator)
    requires TrimmedNames(ct)
    requires |vs| == |vs2|
    requires forall i :: 0 <= i < |vs| ==> Erase(vs[i]) == Erase(vs2[i])
    requires Construct(Some(ct), Some(ns), Some(vs), isValue).Success?
    requires Construct(Some(ct), Some(ns), Some(vs2), isValue).Success?
    ensures var a, b := Construct(Some(ct), Some(ns), Some(vs), isValue).value,
                        Construct(Some(ct), Some(ns), Some(vs2), isValue).value;
            Equals(a, Some(Support(b))) == Success(true) && HashCode(a) == HashCode(b)
  {
    var a, b := Construct(Some(ct), Some(ns), Some(vs), isValue).value,
                Construct(Some(ct), Some(ns), Some(vs2), isValue).value;
    CopiesAgree(ct, ns, vs, vs2, isValue);
    EqualsCharacterized(a, b);
    EqualsImpliesSameHash(a, b);
  }
}
