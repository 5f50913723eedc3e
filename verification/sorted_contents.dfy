/** The record's internal `TreeMap<String, Object>`: a list of entries kept
  strictly ascending by name under `String.compareTo`. `Put` is
  `TreeMap.put` (insert, or replace the value under an existing name) and
  `Find` is `TreeMap.get`/`containsKey`.
 */
module SortedContents {
  import opened Outcomes
  import opened JavaStrings
  import opened OpenValues

  datatype Entry = Entry(name: string, value: Value)

  /** Strictly ascending names; in particular no name occurs twice. */
  predicate Sorted(es: seq<Entry>) {
    forall i, j :: 0 <= i < j < |es| ==> Less(es[i].name, es[j].name)
  }

  function Names(es: seq<Entry>): set<string> {
    set e | e in es :: e.name
  }

  /** The value stored under `k`, if any. */
  function Find(es: seq<Entry>, k: string): (r: Option<Value>)
    ensures r.Some? <==> k in Names(es)
    ensures r.Some? ==> Entry(k, r.value) in es
  {
    if es == [] then None
    else if es[0].name == k then Some(es[0].value)
    else (assert es == [es[0]] + es[1..]; Find(es[1..], k))
  }

  /** The sum of the value hashes, in storage order. */
  function HashSum(es: seq<Entry>): int {
    if es == [] then 0 else ValueHash(es[0].value) + HashSum(es[1..])
  }

  /** The stored values, in storage order. */
  function ValuesOf(es: seq<Entry>): (r: seq<Value>)
    ensures |r| == |es|
    ensures forall i :: 0 <= i < |es| ==> r[i] == es[i].value
  {
    seq(|es|, i requires 0 <= i < |es| => es[i].value)
  }

  lemma {:induction false} SortedTail(es: seq<Entry>)
    requires Sorted(es) && es != []
    ensures Sorted(es[1..])
    ensures es[0].name !in Names(es[1..])
    ensures Names(es) == Names(es[1..]) + {es[0].name}
    ensures forall x :: x in Names(es[1..]) ==> Less(es[0].name, x)
  {
    assert es == [es[0]] + es[1..];
    forall x | x in Names(es[1..])
      ensures Less(es[0].name, x)
    {
      var j :| 0 <= j < |es[1..]| && es[1..][j].name == x;
      assert es[j + 1].name == x;
    }
    if es[0].name in Names(es[1..]) {
      LessIrreflexive(es[0].name);
    }
  }

  /** `TreeMap.put`: insert `k` before the first greater name, or replace
      the value already stored under `k`. */
  function Put(es: seq<Entry>, k: string, v: Value): seq<Entry>
    decreases |es|
  {
    if es == [] then [Entry(k, v)]
    else if es[0].name == k then [Entry(k, v)] + es[1..]
    else if Less(k, es[0].name) then [Entry(k, v)] + es
    else [es[0]] + Put(es[1..], k, v)
  }

  lemma FindCons(e: Entry, rest: seq<Entry>, k: string)
    ensures Find([e] + rest, k) == if e.name == k then Some(e.value) else Find(rest, k)
  {
    assert ([e] + rest)[1..] == rest;
  }

  lemma NamesCons(e: Entry, rest: seq<Entry>)
    ensures Names([e] + rest) == Names(rest) + {e.name}
  {
    assert forall x :: x in [e] + rest <==> x == e || x in rest;
  }

  /** After `Put`, `k` maps to `v` and every other name keeps what it mapped
      to; this holds whatever the order of the list. */
  lemma {:induction false} PutFind(es: seq<Entry>, k: string, v: Value, k': string)
    ensures Find(Put(es, k, v), k') == if k' == k then Some(v) else Find(es, k')
    decreases |es|
  {
    if es == [] {
    } else if es[0].name == k {
      FindCons(Entry(k, v), es[1..], k');
      FindCons(es[0], es[1..], k');
      assert es == [es[0]] + es[1..];
    } else if Less(k, es[0].name) {
      FindCons(Entry(k, v), es, k');
    } else {
      FindCons(es[0], Put(es[1..], k, v), k');
      FindCons(es[0], es[1..], k');
      assert es == [es[0]] + es[1..];
      PutFind(es[1..], k, v, k');
    }
  }

  /** A name below every name of a sorted list can be put in front of it. */
  lemma ConsSorted(e: Entry, rest: seq<Entry>)
    requires Sorted(rest)
    requires forall x :: x in Names(rest) ==> Less(e.name, x)
    ensures Sorted([e] + rest)
  {
    var r := [e] + rest;
    forall i, j | 0 <= i < j < |r| ensures Less(r[i].name, r[j].name) {
      assert r[j] == rest[j - 1];
      if i == 0 {
        assert rest[j - 1] in rest;
      } else {
        assert r[i] == rest[i - 1];
      }
    }
  }

  /** `Put` adds exactly `k` to the names. */
  lemma {:induction false} PutNames(es: seq<Entry>, k: string, v: Value)
    ensures Names(Put(es, k, v)) == Names(es) + {k}
    decreases |es|
  {
    if es == [] {
    } else if es[0].name == k {
      NamesCons(Entry(k, v), es[1..]);
      NamesCons(es[0], es[1..]);
      assert es == [es[0]] + es[1..];
    } else if Less(k, es[0].name) {
      NamesCons(Entry(k, v), es);
    } else {
      PutNames(es[1..], k, v);
      NamesCons(es[0], Put(es[1..], k, v));
      NamesCons(es[0], es[1..]);
      assert es == [es[0]] + es[1..];
    }
  }

  /** Putting into a sorted list keeps it sorted. */
  lemma {:induction false} PutSorted(es: seq<Entry>, k: string, v: Value)
    requires Sorted(es)
    ensures Sorted(Put(es, k, v))
    ensures Names(Put(es, k, v)) == Names(es) + {k}
    decreases |es|
  {
    PutNames(es, k, v);
    if es == [] {
    } else if es[0].name == k {
      SortedTail(es);
      ConsSorted(Entry(k, v), es[1..]);
    } else if Less(k, es[0].name) {
      SortedTail(es);
      forall x | x in Names(es) ensures Less(k, x) {
        if x != es[0].name { LessTransitive(k, es[0].name, x); }
      }
      ConsSorted(Entry(k, v), es);
    } else {
      SortedTail(es);
      LessTotal(k, es[0].name);
      PutSorted(es[1..], k, v);
      ConsSorted(es[0], Put(es[1..], k, v));
    }
  }

  /** The contents `this.contents.put(itemNames[i], itemValues[i])` leaves
      after visiting the pairs in order, starting from an empty map. */
  function Build(ns: seq<string>, vs: seq<Value>): seq<Entry>
    requires |ns| == |vs|
    decreases |ns|
  {
    if |ns| == 0 then []
    else Put(Build(ns[..|ns| - 1], vs[..|vs| - 1]), ns[|ns| - 1], vs[|vs| - 1])
  }

  /** Building yields a sorted list holding exactly the names visited. */
  lemma {:induction false} BuildSorted(ns: seq<string>, vs: seq<Value>)
    requires |ns| == |vs|
    ensures Sorted(Build(ns, vs))
    ensures Names(Build(ns, vs)) == set x | x in ns
    decreases |ns|
  {
    if |ns| != 0 {
      var n := |ns| - 1;
      BuildSorted(ns[..n], vs[..n]);
      PutSorted(Build(ns[..n], vs[..n]), ns[n], vs[n]);
      assert ns == ns[..n] + [ns[n]];
      assert (set x | x in ns) == (set x | x in ns[..n]) + {ns[n]};
    }
  }

  /** A name maps to the value paired with its last occurrence. */
  lemma {:induction false} BuildFind(ns: seq<string>, vs: seq<Value>, i: nat)
    requires |ns| == |vs| && i < |ns|
    requires forall j :: i < j < |ns| ==> ns[j] != ns[i]
    ensures Find(Build(ns, vs), ns[i]) == Some(vs[i])
    decreases |ns|
  {
    var n := |ns| - 1;
    PutFind(Build(ns[..n], vs[..n]), ns[n], vs[n], ns[i]);
    if i < n {
      BuildFind(ns[..n], vs[..n], i);
    }
  }

  /** A name that was never visited is absent. */
  lemma BuildMissing(ns: seq<string>, vs: seq<Value>, k: string)
    requires |ns| == |vs| && k !in ns
    ensures Find(Build(ns, vs), k) == None
  {
    BuildSorted(ns, vs);
  }

  /** In a sorted list the first entry's name is the least name. */
  lemma HeadIsLeast(es: seq<Entry>, x: string)
    requires Sorted(es) && es != [] && x in Names(es)
    ensures x == es[0].name || Less(es[0].name, x)
  {
    SortedTail(es);
  }

  /** Two sorted lists with the same set of names list the same names in
      the same positions. */
  lemma {:induction false} SortedSameNames(a: seq<Entry>, b: seq<Entry>)
    requires Sorted(a) && Sorted(b) && Names(a) == Names(b)
    ensures |a| == |b|
    ensures forall i :: 0 <= i < |a| ==> a[i].name == b[i].name
    decreases |a|
  {
    SortedNamesCount(a);
    SortedNamesCount(b);
    if a != [] {
      assert a[0].name in Names(a);
      assert b[0].name in Names(b);
      HeadIsLeast(a, b[0].name);
      HeadIsLeast(b, a[0].name);
      if a[0].name != b[0].name {
        LessAsymmetric(a[0].name, b[0].name);
      }
      SortedTail(a);
      SortedTail(b);
      SortedSameNames(a[1..], b[1..]);
      forall i | 0 <= i < |a| ensures a[i].name == b[i].name {
        if i > 0 { assert a[i] == a[1..][i - 1] && b[i] == b[1..][i - 1]; }
      }
    }
  }

  /** In a sorted list, looking an entry's name up finds that entry. */
  lemma {:induction false} FindAt(es: seq<Entry>, i: nat)
    requires Sorted(es) && i < |es|
    ensures Find(es, es[i].name) == Some(es[i].value)
    decreases i
  {
    if i > 0 {
      LessIrreflexive(es[0].name);
      assert es[0].name != es[i].name;
      SortedTail(es);
      assert es[1..][i - 1] == es[i];
      FindAt(es[1..], i - 1);
    }
  }

  /** A sorted list is determined by what it maps each name to: this is why
      the contents do not depend on the order items were put in. */
  lemma SortedExtensional(a: seq<Entry>, b: seq<Entry>)
    requires Sorted(a) && Sorted(b)
    requires forall k :: Find(a, k) == Find(b, k)
    ensures a == b
  {
    assert Names(a) == Names(b) by {
      forall x ensures x in Names(a) <==> x in Names(b) {
        assert Find(a, x) == Find(b, x);
      }
    }
    SortedSameNames(a, b);
    forall i | 0 <= i < |a| ensures a[i] == b[i] {
      FindAt(a, i);
      FindAt(b, i);
      assert Find(a, a[i].name) == Find(b, a[i].name);
    }
  }

  /** A sorted list has as many names as entries. */
  lemma {:induction false} SortedNamesCount(es: seq<Entry>)
    requires Sorted(es)
    ensures |Names(es)| == |es|
    decreases |es|
  {
    if es != [] {
      SortedTail(es);
      SortedNamesCount(es[1..]);
    }
  }

  /** Putting a fresh name adds its value's hash to the sum, whatever its
      position in the order. */
  lemma {:induction false} PutHashSum(es: seq<Entry>, k: string, v: Value)
    requires Sorted(es) && k !in Names(es)
    ensures HashSum(Put(es, k, v)) == HashSum(es) + ValueHash(v)
    decreases |es|
  {
    if es != [] {
      assert es[0] in es;
      SortedTail(es);
      if !Less(k, es[0].name) {
        LessTotal(k, es[0].name);
        var r := Put(es, k, v);
        assert r == [es[0]] + Put(es[1..], k, v);
        assert r[1..] == Put(es[1..], k, v);
        PutHashSum(es[1..], k, v);
      } else {
        assert Put(es, k, v)[1..] == es;
      }
    }
  }

  /** No element occurs twice. */
  predicate Distinct<T(==)>(s: seq<T>) {
    forall i, j :: 0 <= i < j < |s| ==> s[i] != s[j]
  }

  /** A sequence has at most as many distinct elements as positions, and
      exactly as many only when no element repeats. */
  lemma {:induction false} DistinctCount<T>(s: seq<T>)
    ensures |set x | x in s| <= |s|
    ensures |set x | x in s| == |s| ==> Distinct(s)
    decreases |s|
  {
    if s != [] {
      var n := |s| - 1;
      DistinctCount(s[..n]);
      assert s == s[..n] + [s[n]];
      var prefix := set x | x in s[..n];
      assert (set x | x in s) == prefix + {s[n]};
      if s[n] !in prefix {
        assert |set x | x in s| == |prefix| + 1;
        if |set x | x in s| == |s| {
          forall i, j | 0 <= i < j < |s| ensures s[i] != s[j] {
            if j < n {
              assert s[i] == s[..n][i] && s[j] == s[..n][j];
            } else {
              assert s[i] in s[..n];
            }
          }
        }
      } else {
        assert (set x | x in s) == prefix;
      }
    }
  }

  /** A distinct sequence has as many distinct elements as positions. */
  lemma {:induction false} DistinctSize<T>(s: seq<T>)
    requires Distinct(s)
    ensures |set x | x in s| == |s|
    decreases |s|
  {
    if s != [] {
      var n := |s| - 1;
      assert Distinct(s[..n]);
      DistinctSize(s[..n]);
      assert s == s[..n] + [s[n]];
      assert (set x | x in s) == (set x | x in s[..n]) + {s[n]};
      assert s[n] !in s[..n];
    }
  }

  /** `itemNames.length == keys.size()` together with
      `asList(itemNames).containsAll(keys)` makes the names a duplicate-free
      listing of exactly the keys. */
  lemma CoverIsPermutation<T>(ns: seq<T>, keys: set<T>)
    requires |ns| == |keys|
    requires keys <= set x | x in ns
    ensures Distinct(ns)
    ensures (set x | x in ns) == keys
  {
    var named := set x | x in ns;
    DistinctCount(ns);
    assert |keys| <= |named| by {
      assert named == keys + (named - keys);
    }
    assert |named - keys| == 0 by {
      assert named == keys + (named - keys);
    }
    assert named - keys == {};
  }

  /** The sum of the value hashes in the order the values were given. */
  function InputHashSum(vs: seq<Value>): int {
    if vs == [] then 0 else InputHashSum(vs[..|vs| - 1]) + ValueHash(vs[|vs| - 1])
  }

  /** Summing from the front and from the back agree. */
  lemma {:induction false} InputHashSumCons(v: Value, vs: seq<Value>)
    ensures InputHashSum([v] + vs) == ValueHash(v) + InputHashSum(vs)
    decreases |vs|
  {
    if vs != [] {
      var n := |vs| - 1;
      assert ([v] + vs)[..|vs|] == [v] + vs[..n];
      InputHashSumCons(v, vs[..n]);
    }
  }

  /** The hash sum of a list of entries is the sum over its values. */
  lemma {:induction false} HashSumValues(es: seq<Entry>)
    ensures HashSum(es) == InputHashSum(ValuesOf(es))
    decreases |es|
  {
    if es != [] {
      assert ValuesOf(es) == [es[0].value] + ValuesOf(es[1..]);
      InputHashSumCons(es[0].value, ValuesOf(es[1..]));
      HashSumValues(es[1..]);
    }
  }

  /** With distinct names, the stored hash sum is the sum over the input in
      input order: addition does not see the reordering. */
  lemma {:induction false} BuildHashSum(ns: seq<string>, vs: seq<Value>)
    requires |ns| == |vs| && Distinct(ns)
    ensures HashSum(Build(ns, vs)) == InputHashSum(vs)
    decreases |ns|
  {
    if |ns| != 0 {
      var n := |ns| - 1;
      assert Distinct(ns[..n]);
      BuildHashSum(ns[..n], vs[..n]);
      BuildSorted(ns[..n], vs[..n]);
      assert ns[n] !in ns[..n];
      PutHashSum(Build(ns[..n], vs[..n]), ns[n], vs[n]);
    }
  }

  /** Two lists whose names agree position by position and whose values are
      pairwise deeply equal have the same hash sum. */
  lemma {:induction false} HashSumAligned(a: seq<Entry>, b: seq<Entry>)
    requires |a| == |b|
    requires forall i :: 0 <= i < |a| ==> DeepEquals(a[i].value, b[i].value)
    ensures HashSum(a) == HashSum(b)
    decreases |a|
  {
    if a != [] {
      DeepEqualsSameHash(a[0].value, b[0].value);
      HashSumAligned(a[1..], b[1..]);
    }
  }

  /** How many names of `keys` sort before `k`. */
  function Rank(keys: set<string>, k: string): nat {
    |set x | x in keys && Less(x, k)|
  }

  /** In a sorted list, the entry at position `i` has exactly `i` smaller names. */
  lemma SortedRank(es: seq<Entry>, i: nat)
    requires Sorted(es) && i < |es|
    ensures Rank(Names(es), es[i].name) == i
  {
    var smaller := set x | x in Names(es) && Less(x, es[i].name);
    assert Sorted(es[..i]);
    forall x ensures x in smaller <==> x in Names(es[..i]) {
      if x in smaller {
        var j :| 0 <= j < |es| && es[j].name == x;
        if j >= i {
          if j == i { LessIrreflexive(x); } else { LessAsymmetric(es[i].name, es[j].name); }
        }
        assert es[..i][j] == es[j];
      }
      if x in Names(es[..i]) {
        var j :| 0 <= j < i && es[..i][j].name == x;
        assert es[j].name == x;
      }
    }
    assert smaller == Names(es[..i]);
    SortedNamesCount(es[..i]);
  }
}
