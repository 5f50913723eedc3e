/** `CompositeDataSupport`: an immutable record of named item values that
  conforms to a `CompositeType`.

  The `CompositeType` is a collaborator: the record only asks it for its
  key set, the open type of an item, `isValue` on that open type, and
  equality and hash. It is represented by its name and a map from item name
  to an opaque `OpenType`; `isValue` is passed to the constructors as a
  function, so every property below holds for any validity test.
 */
module CompositeDataSupport {
  import opened Outcomes
  import opened JavaStrings
  import opened OpenValues
  import opened SortedContents

  /** The open type of one item; only `isValue` and equality are used. */
  datatype OpenType = OpenType(typeName: string)

  datatype CompositeType = CompositeType(typeName: string, itemTypes: map<string, OpenType>) {
    /** `keySet()`: the item names the type defines. */
    function KeySet(): set<string> {
      itemTypes.Keys
    }
  }

  /** `getType(name).isValue(value)`, supplied by the collaborator. */
  type Validator = (OpenType, Value) -> bool

  /** The hash of a composite type; the model uses the hash of its name. */
  function TypeHash(ct: CompositeType): int {
    PolyHash(seq(|ct.typeName|, i requires 0 <= i < |ct.typeName| => ct.typeName[i] as int))
  }

  /** `CompositeType` trims its item names and rejects blank ones; properties
      that depend on `get` trimming its key assume this of the type. */
  predicate TrimmedNames(ct: CompositeType) {
    forall k :: k in ct.itemTypes ==> IsItemName(k)
  }

  datatype CompositeData = CompositeData(compositeType: CompositeType, contents: seq<Entry>)

  /** The storage invariant every instance keeps: the contents are sorted by
      name and hold exactly the items the type defines. */
  predicate Stored(cd: CompositeData) {
    Sorted(cd.contents) && Names(cd.contents) == cd.compositeType.KeySet()
  }

  type Record = cd: CompositeData | Stored(cd) witness CompositeData(CompositeType([], map[]), [])

  /** Every non-null item value is valid for its item's open type. */
  predicate Conforms(cd: CompositeData, isValue: Validator) {
    forall i :: 0 <= i < |cd.contents| && cd.contents[i].value != Null ==>
      var e := cd.contents[i];
      e.name in cd.compositeType.itemTypes && isValue(cd.compositeType.itemTypes[e.name], e.value)
  }

  // ---------------------------------------------------------------------
  // Construction
  // ---------------------------------------------------------------------

  predicate HasNullName(ns: seq<Option<string>>) {
    exists i :: 0 <= i < |ns| && ns[i].None?
  }

  predicate HasBlankName(ns: seq<Option<string>>) {
    exists i :: 0 <= i < |ns| && ns[i].Some? && IsBlank(ns[i].value)
  }

  /** Index of the first null name at or after `lo`: the loop of
      `checkForNullElement`. */
  function FirstNullName(ns: seq<Option<string>>, lo: nat): (r: Option<nat>)
    requires lo <= |ns|
    ensures r.None? <==> forall i :: lo <= i < |ns| ==> ns[i].Some?
    ensures r.Some? ==> lo <= r.value < |ns| && ns[r.value].None? && forall j :: lo <= j < r.value ==> ns[j].Some?
    decreases |ns| - lo
  {
    if lo == |ns| then None else if ns[lo].None? then Some(lo) else FirstNullName(ns, lo + 1)
  }

  /** Index of the first blank name at or after `lo`: the loop of
      `checkForEmptyString`. */
  function FirstBlankName(ss: seq<string>, lo: nat): (r: Option<nat>)
    requires lo <= |ss|
    ensures r.None? <==> forall i :: lo <= i < |ss| ==> !IsBlank(ss[i])
    ensures r.Some? ==> lo <= r.value < |ss| && IsBlank(ss[r.value]) && forall j :: lo <= j < r.value ==> !IsBlank(ss[j])
    decreases |ss| - lo
  {
    if lo == |ss| then None else if IsBlank(ss[lo]) then Some(lo) else FirstBlankName(ss, lo + 1)
  }

  /** A non-null value its item's open type rejects. */
  predicate Rejected(ct: CompositeType, n: string, v: Value, isValue: Validator)
    requires n in ct.itemTypes
  {
    v != Null && !isValue(ct.itemTypes[n], v)
  }

  /** Index of the first rejected value at or after `lo`: the validation
      loop of the constructor. */
  function FirstRejected(ct: CompositeType, ss: seq<string>, vs: seq<Value>, isValue: Validator, lo: nat): (r: Option<nat>)
    requires |ss| == |vs| && lo <= |ss|
    requires forall i :: 0 <= i < |ss| ==> ss[i] in ct.itemTypes
    ensures r.None? <==> forall i :: lo <= i < |ss| ==> !Rejected(ct, ss[i], vs[i], isValue)
    ensures r.Some? ==>
              && lo <= r.value < |ss| && Rejected(ct, ss[r.value], vs[r.value], isValue)
              && forall j :: lo <= j < r.value ==> !Rejected(ct, ss[j], vs[j], isValue)
    decreases |ss| - lo
  {
    if lo == |ss| then None
    else if Rejected(ct, ss[lo], vs[lo], isValue) then Some(lo)
    else FirstRejected(ct, ss, vs, isValue, lo + 1)
  }

  function Unwrap(ns: seq<Option<string>>): (r: seq<string>)
    requires !HasNullName(ns)
    ensures |r| == |ns|
    ensures forall i :: 0 <= i < |ns| ==> ns[i] == Some(r[i])
  {
    seq(|ns|, i requires 0 <= i < |ns| => ns[i].value)
  }

  /** The malformed-argument conditions, none of which looks inside the type. */
  predicate Malformed(ct: Option<CompositeType>, names: Option<seq<Option<string>>>, values: Option<seq<Value>>) {
    || ct.None?
    || names.None? || names.value == []
    || HasNullName(names.value) || HasBlankName(names.value)
    || values.None? || values.value == []
    || |names.value| != |values.value|
  }

  /** The schema-violation conditions, for well-formed arguments. */
  predicate SchemaViolation(ct: CompositeType, ns: seq<string>, vs: seq<Value>, isValue: Validator)
    requires |ns| == |vs|
  {
    || |ns| != |ct.KeySet()|
    || !(ct.KeySet() <= set x | x in ns)
    || exists i :: 0 <= i < |ns| && vs[i] != Null && ns[i] in ct.itemTypes && !isValue(ct.itemTypes[ns[i]], vs[i])
  }

  /** `checkForNullElement` followed by `checkForEmptyString` on the names:
      a null or empty array, then the first null element, then the first
      element that is blank after `trim()`. */
  function CheckNames(names: Option<seq<Option<string>>>): (r: Result<seq<string>>)
    ensures r.Failure? <==> names.None? || names.value == [] || HasNullName(names.value) || HasBlankName(names.value)
    ensures r.Failure? ==> r.error.IllegalArgument?
    ensures (names.None? || names.value == []) ==> r == Failure(IllegalArgument(NullOrEmptyNames))
    ensures names.Some? && names.value != [] && HasNullName(names.value) ==>
              r.Failure? && r.error.argument.NullName?
    ensures r.Failure? && r.error.argument.NullName? ==>
              var i := r.error.argument.index;
              names.Some? && i < |names.value| && names.value[i].None? &&
              forall j :: 0 <= j < i ==> names.value[j].Some?
    ensures names.Some? && names.value != [] && !HasNullName(names.value) && HasBlankName(names.value) ==>
              r.Failure? && r.error.argument.BlankName?
    ensures r.Failure? && r.error.argument.BlankName? ==>
              var i := r.error.argument.index;
              names.Some? && !HasNullName(names.value) && i < |names.value| && IsBlank(names.value[i].value) &&
              forall j :: 0 <= j < i ==> !IsBlank(names.value[j].value)
    ensures r.Success? ==>
              && names.Some? && |r.value| == |names.value|
              && forall i :: 0 <= i < |r.value| ==> names.value[i] == Some(r.value[i]) && !IsBlank(r.value[i])
  {
    if names.None? || names.value == [] then Failure(IllegalArgument(NullOrEmptyNames))
    else
      var ns := names.value;
      match FirstNullName(ns, 0)
      case Some(i) => Failure(IllegalArgument(NullName(i)))
      case None =>
        var ss := Unwrap(ns);
        match FirstBlankName(ss, 0)
        case Some(i) => Failure(IllegalArgument(BlankName(i)))
        case None =>
          assert !HasBlankName(ns) by {
            forall i | 0 <= i < |ns| && ns[i].Some? ensures !IsBlank(ns[i].value) {
              assert ss[i] == ns[i].value;
            }
          }
          Success(ss)
  }

  /** Filling the map with distinct names whose values their types accept
      gives sorted contents holding exactly those names, each with its
      paired value, every one valid for its item. */
  lemma BuildConforms(ct: CompositeType, ss: seq<string>, vs: seq<Value>, isValue: Validator)
    requires |ss| == |vs| && Distinct(ss)
    requires forall i :: 0 <= i < |ss| ==> ss[i] in ct.itemTypes && !Rejected(ct, ss[i], vs[i], isValue)
    ensures Sorted(Build(ss, vs)) && Names(Build(ss, vs)) == (set x | x in ss)
    ensures forall i :: 0 <= i < |ss| ==> Find(Build(ss, vs), ss[i]) == Some(vs[i])
    ensures Conforms(CompositeData(ct, Build(ss, vs)), isValue)
  {
    var contents := Build(ss, vs);
    BuildSorted(ss, vs);
    forall i | 0 <= i < |ss| ensures Find(contents, ss[i]) == Some(vs[i]) {
      BuildFind(ss, vs, i);
    }
    forall j | 0 <= j < |contents| && contents[j].value != Null
      ensures contents[j].name in ct.itemTypes && isValue(ct.itemTypes[contents[j].name], contents[j].value)
    {
      var e := contents[j];
      assert e.name in Names(contents);
      var i :| 0 <= i < |ss| && ss[i] == e.name;
      FindAt(contents, j);
    }
  }

  /** The `OpenDataException` checks on well-formed arguments, then storage:
      the item count, `containsAll` of the key set, the first non-null value
      its item's open type rejects; on success each pair is put in order. */
  function CheckSchema(ct: CompositeType, ss: seq<string>, vs: seq<Value>, isValue: Validator): (r: Result<Record>)
    requires |ss| == |vs|
    ensures r.Failure? <==> SchemaViolation(ct, ss, vs, isValue)
    ensures r.Failure? ==> r.error.OpenData?
    ensures |ss| != |ct.KeySet()| ==> r == Failure(OpenData(ItemCountMismatch(|ss|, |ct.KeySet()|)))
    ensures |ss| == |ct.KeySet()| && !(ct.KeySet() <= set x | x in ss) ==> r == Failure(OpenData(MissingItemNames))
    ensures |ss| == |ct.KeySet()| && ct.KeySet() <= (set x | x in ss) && r.Failure? ==> r.error.schema.InvalidItemValue?
    ensures r.Failure? && r.error.schema.InvalidItemValue? ==>
              var i := r.error.schema.index;
              && |ss| == |ct.KeySet()| && ct.KeySet() <= (set x | x in ss)
              && i < |ss| && ss[i] in ct.itemTypes && Rejected(ct, ss[i], vs[i], isValue)
              && forall j :: 0 <= j < i ==> ss[j] in ct.itemTypes && !Rejected(ct, ss[j], vs[j], isValue)
    ensures r.Success? ==>
              && r.value.compositeType == ct
              && Conforms(r.value, isValue)
              && Distinct(ss)
              && Names(r.value.contents) == (set x | x in ss)
              && forall i {:trigger Find(r.value.contents, ss[i])} :: 0 <= i < |ss| ==> Find(r.value.contents, ss[i]) == Some(vs[i])
  {
    var keys := ct.KeySet();
    if |ss| != |keys| then Failure(OpenData(ItemCountMismatch(|ss|, |keys|)))
    else if !(keys <= set x | x in ss) then Failure(OpenData(MissingItemNames))
    else
      CoverIsPermutation(ss, keys);
      assert forall i :: 0 <= i < |ss| ==> ss[i] in ct.itemTypes;
      match FirstRejected(ct, ss, vs, isValue, 0)
      case Some(i) => Failure(OpenData(InvalidItemValue(i)))
      case None =>
        BuildConforms(ct, ss, vs, isValue);
        var cd := CompositeData(ct, Build(ss, vs));
        Success(cd)
  }

  /** A position of an element of a sequence. */
  function IndexOf(es: seq<Entry>, e: Entry): (i: nat)
    requires e in es
    ensures i < |es| && es[i] == e
  {
    if es[0] == e then 0 else 1 + IndexOf(es[1..], e)
  }

  /** The parallel-array constructor: malformed arguments raise
      `IllegalArgumentException` before anything about the type is checked;
      a schema violation raises `OpenDataException`; otherwise the record
      holds exactly the type's items, each name with its paired value. */
  function Construct(ct: Option<CompositeType>, names: Option<seq<Option<string>>>, values: Option<seq<Value>>,
                     isValue: Validator): (r: Result<Record>)
    ensures (r.Failure? && r.error.IllegalArgument?) <==> Malformed(ct, names, values)
    ensures !Malformed(ct, names, values) ==>
              ((r.Failure? && r.error.OpenData?) <==>
               SchemaViolation(ct.value, Unwrap(names.value), values.value, isValue))
    ensures r.Failure? ==> r.error.IllegalArgument? || r.error.OpenData?
    ensures ct.None? ==> r == Failure(IllegalArgument(NullCompositeType))
    ensures r.Success? ==>
              && ct.Some? && names.Some? && values.Some?
              && r.value.compositeType == ct.value
              && Conforms(r.value, isValue)
              && (forall k :: k in Names(r.value.contents) <==> Some(k) in names.value)
              && forall i {:trigger Find(r.value.contents, names.value[i].value)} :: 0 <= i < |names.value| ==>
                   names.value[i].Some? && Find(r.value.contents, names.value[i].value) == Some(values.value[i])
  {
    if ct.None? then Failure(IllegalArgument(NullCompositeType))
    else
      var ss :- CheckNames(names);
      if values.None? || values.value == [] then Failure(IllegalArgument(NullOrEmptyValues))
      else if |ss| != |values.value| then Failure(IllegalArgument(LengthMismatch(|ss|, |values.value|)))
      else
        assert Unwrap(names.value) == ss;
        assert forall k :: k in ss <==> Some(k) in names.value by {
          forall k ensures k in ss <==> Some(k) in names.value {
            if Some(k) in names.value {
              var i :| 0 <= i < |names.value| && names.value[i] == Some(k);
              assert ss[i] == k;
            }
          }
        }
        CheckSchema(ct.value, ss, values.value, isValue)
  }

  /** The key set of a `Map<String, ?>` that may hold a null key. */
  predicate Enumerates(order: seq<Option<string>>, keys: set<Option<string>>) {
    Distinct(order) && (set x | x in order) == keys
  }

  /** The malformed-argument conditions, phrased on the map itself. */
  ghost predicate MalformedMap(ct: Option<CompositeType>, items: Option<map<Option<string>, Value>>) {
    || ct.None?
    || items.None? || items.value == map[]
    || None in items.value
    || exists k :: Some(k) in items.value && IsBlank(k)
  }

  /** The schema-violation conditions, phrased on the map itself. */
  ghost predicate SchemaViolationMap(ct: CompositeType, items: map<Option<string>, Value>, isValue: Validator) {
    || |items| != |ct.KeySet()|
    || !(forall k :: k in ct.itemTypes ==> Some(k) in items)
    || exists k :: Some(k) in items && items[Some(k)] != Null && k in ct.itemTypes &&
                   !isValue(ct.itemTypes[k], items[Some(k)])
  }

  /** The map constructor: the keys and values, read in the map's own
      iteration order `order`, handed to the parallel-array constructor.
      Which exception is raised and what is stored do not depend on that
      order. A null map is a malformed argument. */
  function FromMap(ct: Option<CompositeType>, items: Option<map<Option<string>, Value>>, order: seq<Option<string>>,
                   isValue: Validator): (r: Result<Record>)
    requires items.Some? ==> Enumerates(order, items.value.Keys)
    ensures (r.Failure? && r.error.IllegalArgument?) <==> MalformedMap(ct, items)
    ensures !MalformedMap(ct, items) ==>
              ((r.Failure? && r.error.OpenData?) <==> SchemaViolationMap(ct.value, items.value, isValue))
    ensures r.Failure? ==> r.error.IllegalArgument? || r.error.OpenData?
    ensures r.Success? ==>
              && ct.Some? && items.Some?
              && r.value.compositeType == ct.value
              && Conforms(r.value, isValue)
              && forall k :: Find(r.value.contents, k) ==
                   (if Some(k) in items.value then Some(items.value[Some(k)]) else None)
  {
    if items.None? then Construct(ct, None, None, isValue)
    else
      var m := items.value;
      var vs := seq(|order|, i requires 0 <= i < |order| => m[order[i]]);
      var r := Construct(ct, Some(order), Some(vs), isValue);
      MapAgrees(ct, m, order, vs, isValue, r);
      r
  }

  /** The map-side malformed-argument conditions are the array-side ones of
      the enumeration. */
  lemma MapMalformedAgrees(ct: Option<CompositeType>, m: map<Option<string>, Value>, order: seq<Option<string>>,
                           vs: seq<Value>)
    requires Enumerates(order, m.Keys) && |vs| == |order|
    ensures Malformed(ct, Some(order), Some(vs)) <==> MalformedMap(ct, Some(m))
  {
    assert order == [] <==> m == map[] by {
      if order != [] { assert order[0] in m.Keys; }
      if m != map[] { var k :| k in m; assert k in order; }
    }
    assert HasNullName(order) <==> None in m by {
      if None in m { assert None in order; }
    }
    assert HasBlankName(order) <==> exists k :: Some(k) in m && IsBlank(k) by {
      if exists k :: Some(k) in m && IsBlank(k) {
        var k :| Some(k) in m && IsBlank(k);
        assert Some(k) in order;
      }
    }
  }

  /** The map-side schema conditions are the array-side ones of the
      enumeration. */
  lemma MapSchemaAgrees(ct: CompositeType, m: map<Option<string>, Value>, order: seq<Option<string>>,
                        vs: seq<Value>, isValue: Validator)
    requires Enumerates(order, m.Keys) && !HasNullName(order)
    requires |vs| == |order| && forall i :: 0 <= i < |order| ==> vs[i] == m[order[i]]
    ensures SchemaViolation(ct, Unwrap(order), vs, isValue) <==> SchemaViolationMap(ct, m, isValue)
  {
    DistinctSize(order);
    var ss := Unwrap(order);
    assert forall x :: x in ss <==> Some(x) in m by {
      forall x ensures x in ss <==> Some(x) in m {
        if Some(x) in m {
          var i :| 0 <= i < |order| && order[i] == Some(x);
          assert ss[i] == x;
        }
      }
    }
    assert (ct.KeySet() <= set x | x in ss) <==> (forall k :: k in ct.itemTypes ==> Some(k) in m);
    if exists k :: Some(k) in m && m[Some(k)] != Null && k in ct.itemTypes && !isValue(ct.itemTypes[k], m[Some(k)]) {
      var k :| Some(k) in m && m[Some(k)] != Null && k in ct.itemTypes && !isValue(ct.itemTypes[k], m[Some(k)]);
      var i :| 0 <= i < |order| && order[i] == Some(k);
      assert ss[i] == k;
    }
  }

  /** The three agreements above, under their respective conditions. */
  lemma MapAgrees(ct: Option<CompositeType>, m: map<Option<string>, Value>, order: seq<Option<string>>,
                  vs: seq<Value>, isValue: Validator, r: Result<Record>)
    requires Enumerates(order, m.Keys)
    requires |vs| == |order| && forall i :: 0 <= i < |order| ==> vs[i] == m[order[i]]
    requires r == Construct(ct, Some(order), Some(vs), isValue)
    ensures Malformed(ct, Some(order), Some(vs)) <==> MalformedMap(ct, Some(m))
    ensures !MalformedMap(ct, Some(m)) ==>
              (SchemaViolation(ct.value, Unwrap(order), vs, isValue) <==> SchemaViolationMap(ct.value, m, isValue))
    ensures r.Success? ==>
              forall k :: Find(r.value.contents, k) == (if Some(k) in m then Some(m[Some(k)]) else None)
  {
    MapMalformedAgrees(ct, m, order, vs);
    if !MalformedMap(ct, Some(m)) {
      MapSchemaAgrees(ct.value, m, order, vs, isValue);
    }
    if r.Success? {
      MapContentsAgree(ct, m, order, vs, isValue, r);
    }
  }

  /** On success the record maps every non-null key of the map to its value. */
  lemma MapContentsAgree(ct: Option<CompositeType>, m: map<Option<string>, Value>, order: seq<Option<string>>,
                         vs: seq<Value>, isValue: Validator, r: Result<Record>)
    requires Enumerates(order, m.Keys)
    requires |vs| == |order| && forall i :: 0 <= i < |order| ==> vs[i] == m[order[i]]
    requires r == Construct(ct, Some(order), Some(vs), isValue) && r.Success?
    ensures forall k :: Find(r.value.contents, k) == (if Some(k) in m then Some(m[Some(k)]) else None)
  {
    forall k ensures Find(r.value.contents, k) == (if Some(k) in m then Some(m[Some(k)]) else None) {
      if Some(k) in m {
        var i :| 0 <= i < |order| && order[i] == Some(k);
        assert Find(r.value.contents, order[i].value) == Some(vs[i]);
      } else {
        assert Some(k) !in order;
        assert k !in Names(r.value.contents);
      }
    }
  }

  // ---------------------------------------------------------------------
  // Accessors
  // ---------------------------------------------------------------------

  /** `get(key)`: a null or blank key is a malformed argument; otherwise the
      trimmed key is looked up, and an absent name is an invalid key. */
  function Get(cd: Record, key: Option<string>): (r: Result<Value>)
    ensures (key.None? || IsBlank(key.value)) <==> r == Failure(IllegalArgument(NullOrBlankKey))
    ensures key.Some? && !IsBlank(key.value) ==>
              (r.Success? <==> Trim(key.value) in cd.compositeType.KeySet())
    ensures key.Some? && !IsBlank(key.value) && r.Failure? ==> r.error == InvalidKey(Trim(key.value))
    ensures r.Success? ==> Entry(Trim(key.value), r.value) in cd.contents
  {
    if key.None? || IsBlank(key.value) then Failure(IllegalArgument(NullOrBlankKey))
    else
      var k := Trim(key.value);
      match Find(cd.contents, k)
      case None => Failure(InvalidKey(k))
      case Some(v) => Success(v)
  }

  /** `getAll(keys)`: no keys give no values; otherwise `get` on each key in
      order, the first failure propagating. */
  method GetAll(cd: Record, keys: Option<seq<Option<string>>>) returns (r: Result<seq<Value>>)
    ensures (keys.None? || keys.value == []) ==> r == Success([])
    ensures r.Success? && keys.Some? ==>
              |r.value| == |keys.value| &&
              forall i :: 0 <= i < |keys.value| ==> Get(cd, keys.value[i]) == Success(r.value[i])
    ensures r.Failure? ==>
              keys.Some? &&
              exists i :: 0 <= i < |keys.value| && Get(cd, keys.value[i]) == Failure(r.error) &&
                          forall j :: 0 <= j < i ==> Get(cd, keys.value[j]).Success?
  {
    if keys.None? || keys.value == [] {
      return Success([]);
    }
    var ks := keys.value;
    var results: seq<Value> := [];
    var i := 0;
    while i < |ks|
      invariant 0 <= i <= |ks|
      invariant |results| == i
      invariant forall j :: 0 <= j < i ==> Get(cd, ks[j]) == Success(results[j])
    {
      var v := Get(cd, ks[i]);
      if v.Failure? {
        return Failure(v.error);
      }
      results := results + [v.value];
      i := i + 1;
    }
    return Success(results);
  }

  /** `containsKey(key)`: false for a null or blank key, otherwise whether
      the key, untrimmed, is an item name. Never fails. */
  function ContainsKey(cd: Record, key: Option<string>): (b: bool)
    ensures b <==> key.Some? && !IsBlank(key.value) && key.value in cd.compositeType.KeySet()
  {
    if key.None? || IsBlank(key.value) then false
    else Find(cd.contents, key.value).Some?
  }

  /** `containsValue(value)`: whether some stored value is equal to `value`
      under plain Java equality (`null` to `null`, arrays by identity). */
  method ContainsValue(cd: Record, value: Value) returns (b: bool)
    ensures b <==> exists e :: e in cd.contents && JavaEquals(value, e.value)
  {
    var es := cd.contents;
    var i := 0;
    while i < |es|
      invariant 0 <= i <= |es|
      invariant forall j :: 0 <= j < i ==> !JavaEquals(value, es[j].value)
    {
      if JavaEquals(value, es[i].value) {
        return true;
      }
      i := i + 1;
    }
    return false;
  }

  /** `values()`: the item values in ascending order of their names; the
      value of item `k` sits after exactly the values of the items whose
      names are smaller than `k`. */
  function Values(cd: Record): (r: seq<Value>)
    ensures |r| == |cd.compositeType.KeySet()|
    ensures forall k {:trigger Rank(cd.compositeType.KeySet(), k)} :: k in cd.compositeType.KeySet() ==>
              var pos := Rank(cd.compositeType.KeySet(), k);
              pos < |r| && Find(cd.contents, k) == Some(r[pos])
  {
    SortedNamesCount(cd.contents);
    var r := ValuesOf(cd.contents);
    assert forall k :: k in cd.compositeType.KeySet() ==>
             var pos := Rank(cd.compositeType.KeySet(), k);
             pos < |r| && Find(cd.contents, k) == Some(r[pos]) by {
      forall k | k in cd.compositeType.KeySet()
        ensures var pos := Rank(cd.compositeType.KeySet(), k);
                pos < |r| && Find(cd.contents, k) == Some(r[pos])
      {
        var e :| e in cd.contents && e.name == k;
        var i := IndexOf(cd.contents, e);
        SortedRank(cd.contents, i);
        FindAt(cd.contents, i);
      }
    }
    r
  }

  // ---------------------------------------------------------------------
  // Equality and hashing
  // ---------------------------------------------------------------------

  /** What `equals` can see of any `CompositeData`: its type
      (`getCompositeType()`), the size of `values()`, and `get(key)`. */
  datatype CompositeView = CompositeView(compositeType: CompositeType, size: nat, get: Option<string> -> Result<Value>)

  /** The interface as a `CompositeDataSupport` record presents it: its
      size is its number of items, and `get` of an item name as the type
      keeps it finds that item's stored value. */
  function AsView(cd: Record): (v: CompositeView)
    ensures v.compositeType == cd.compositeType
    ensures v.size == |cd.compositeType.KeySet()|
    ensures forall key :: v.get(key) == Get(cd, key)
    ensures forall k :: k in cd.compositeType.KeySet() && IsItemName(k) ==>
              v.get(Some(k)).Success? && Find(cd.contents, k) == Some(v.get(Some(k)).value)
  {
    forall k | k in cd.compositeType.KeySet() && IsItemName(k)
      ensures Get(cd, Some(k)).Success? && Find(cd.contents, k) == Some(Get(cd, Some(k)).value)
    {
      ItemNameIffTrimmed(k);
      var r := Get(cd, Some(k));
      FindAt(cd.contents, IndexOf(cd.contents, Entry(k, r.value)));
    }
    CompositeView(cd.compositeType, |Values(cd)|, key => Get(cd, key))
  }

  /** The argument of `equals` when it is a `CompositeData`: another
      `CompositeDataSupport`, whose identity `this == obj` can test, or any
      other implementation, known only through its interface. */
  datatype Operand = Support(record: Record) | Foreign(view: CompositeView)

  function ViewOf(o: Operand): CompositeView {
    match o
    case Support(cd) => AsView(cd)
    case Foreign(v) => v
  }

  /** One round of the loop of `equals`: `other.get(name)` succeeds with a
      value deeply equal to the entry's. */
  predicate ItemMatches(e: Entry, other: CompositeView) {
    other.get(Some(e.name)).Success? && DeepEquals(e.value, other.get(Some(e.name)).value)
  }

  /** The index at which the loop of `equals` stops early: the first entry
      from `lo` on that does not match `other`. */
  function FirstMismatch(es: seq<Entry>, other: CompositeView, lo: nat): (r: Option<nat>)
    requires lo <= |es|
    ensures r.None? <==> forall i :: lo <= i < |es| ==> ItemMatches(es[i], other)
    ensures r.Some? ==>
              && lo <= r.value < |es| && !ItemMatches(es[r.value], other)
              && forall j :: lo <= j < r.value ==> ItemMatches(es[j], other)
    decreases |es| - lo
  {
    if lo == |es| then None
    else if !ItemMatches(es[lo], other) then Some(lo)
    else FirstMismatch(es, other, lo + 1)
  }

  /** The loop of `equals` over this record's entries, in name order: each
      value is compared with `other.get(name)`, and the first entry that
      does not match ends the loop, with `false` when `get` returned an
      unequal value and with `get`'s exception when it threw one. */
  function ItemsEqual(es: seq<Entry>, other: CompositeView): (r: Result<bool>)
    ensures r == Success(true) <==> forall i :: 0 <= i < |es| ==> ItemMatches(es[i], other)
    ensures r != Success(true) ==>
              exists i :: 0 <= i < |es| && !ItemMatches(es[i], other) &&
                (forall j :: 0 <= j < i ==> ItemMatches(es[j], other)) &&
                r == (if other.get(Some(es[i].name)).Success? then Success(false)
                      else Failure(other.get(Some(es[i].name)).error))
  {
    match FirstMismatch(es, other, 0)
    case None => Success(true)
    case Some(i) =>
      match other.get(Some(es[i].name))
      case Success(_) => Success(false)
      case Failure(e) => Failure(e)
  }

  /** `equals(obj)`: the same instance is equal; `None` stands for `null` or
      an object that is not a `CompositeData`; otherwise the composite types
      and the sizes must be equal and every item deeply equal to what
      `obj.get` returns for its name. */
  function Equals(a: Record, obj: Option<Operand>): (r: Result<bool>)
    ensures obj.None? ==> r == Success(false)
    ensures obj.Some? && obj.value.Support? && obj.value.record == a ==> r == Success(true)
    ensures obj.Some? && !(obj.value.Support? && obj.value.record == a) ==>
              var other := ViewOf(obj.value);
              (r == Success(true) <==>
                 && a.compositeType == other.compositeType
                 && |a.contents| == other.size
                 && forall i :: 0 <= i < |a.contents| ==> ItemMatches(a.contents[i], other))
    ensures obj.Some? && !(obj.value.Support? && obj.value.record == a) &&
            (a.compositeType != ViewOf(obj.value).compositeType || |a.contents| != ViewOf(obj.value).size) ==>
              r == Success(false)
    ensures obj.Some? && !(obj.value.Support? && obj.value.record == a) &&
            a.compositeType == ViewOf(obj.value).compositeType && |a.contents| == ViewOf(obj.value).size ==>
              r == ItemsEqual(a.contents, ViewOf(obj.value))
    ensures r.Failure? ==>
              obj.Some? &&
              exists i :: 0 <= i < |a.contents| && ViewOf(obj.value).get(Some(a.contents[i].name)) == Failure(r.error)
  {
    if obj.Some? && obj.value.Support? && obj.value.record == a then Success(true)
    else if obj.None? then Success(false)
    else
      var other := ViewOf(obj.value);
      if a.compositeType != other.compositeType then Success(false)
      else if |a.contents| != other.size then Success(false)
      else ItemsEqual(a.contents, other)
  }

  /** `hashCode()`: the type's hash plus the hash of every item value,
      summed over `values()` in order. */
  function HashCode(cd: Record): (r: int)
    ensures r == TypeHash(cd.compositeType) + InputHashSum(Values(cd))
  {
    HashSumValues(cd.contents);
    TypeHash(cd.compositeType) + HashSum(cd.contents)
  }
}
