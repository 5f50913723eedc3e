/** Item values of a composite record.

  An item value is `null`, a scalar object, an array of one of Java's eight
  primitive kinds, or an `Object[]` whose elements are again item values.
  Every non-null value carries a `ref`, the identity of the Java object, so
  that reference equality (`==`) and content equality can differ: two array
  instances with the same elements are different values here, exactly as in
  Java, yet `DeepEquals` relates them.
 */
module OpenValues {

  /** The primitive element kinds `Arrays.equals` and `Arrays.hashCode` are overloaded on. */
  datatype Kind = Boolean | Char | Byte | Short | Int | Long | Float | Double

  /** A primitive element is held as an integer: the value itself for the
      integral kinds and `char`, 0 or 1 for `boolean`, and for `float` and
      `double` the bits `floatToIntBits` and `doubleToLongBits` give, with every
      NaN folded to one pattern, so that integer equality is the comparison
      `Arrays.equals` makes. A scalar object is abstracted as its class name and
      the state its `equals` compares. */
  datatype Value =
    | Null
    | Scalar(ref: nat, className: string, state: seq<int>)
    | PrimArray(ref: nat, kind: Kind, elems: seq<int>)
    | ObjArray(ref: nat, items: seq<Value>)

  predicate IsArray(v: Value) {
    v.PrimArray? || v.ObjArray?
  }

  /** The scalar's own `equals`: same class and same state. */
  predicate ScalarEquals(a: Value, b: Value)
    requires a.Scalar?
  {
    b.Scalar? && b.className == a.className && b.state == a.state
  }

  /** `value == null ? other == null : value.equals(other)`: plain Java
      equality, under which an array is equal only to itself. */
  predicate JavaEquals(a: Value, b: Value) {
    match a
    case Null => b.Null?
    case Scalar(_, _, _) => ScalarEquals(a, b)
    case _ => a == b
  }

  /** `Arrays.deepEquals` on one-element wrappers: identical values are equal;
      `null` equals only `null`; primitive arrays of the same kind compare
      element-wise, of different kinds never; `Object[]` compare element-wise,
      recursively; scalars use their own `equals`. */
  predicate DeepEquals(a: Value, b: Value)
    decreases a
  {
    a == b ||
    match a
    case Null => false
    case Scalar(_, _, _) => ScalarEquals(a, b)
    case PrimArray(_, k, xs) => b.PrimArray? && b.kind == k && b.elems == xs
    case ObjArray(_, xs) =>
      b.ObjArray? && |b.items| == |xs| &&
      forall i :: 0 <= i < |xs| ==> DeepEquals(xs[i], b.items[i])
  }

  /** The content of a value with every object identity forgotten: the
      reference definition deep equality is measured against. */
  function Erase(v: Value): Value
    decreases v
  {
    match v
    case Null => Null
    case Scalar(_, c, s) => Scalar(0, c, s)
    case PrimArray(_, k, xs) => PrimArray(0, k, xs)
    case ObjArray(_, xs) => ObjArray(0, seq(|xs|, i requires 0 <= i < |xs| => Erase(xs[i])))
  }

  /** Hash of one primitive element: `Boolean.hashCode` for `boolean`; for the
      other kinds the element itself (the bit pattern for `float`/`double`, the
      folded halves for `long` are not modelled). */
  function ElementHash(k: Kind, x: int): int {
    if k == Boolean then (if x != 0 then 1231 else 1237) else x
  }

  /** The loop shared by `Arrays.hashCode` and `Arrays.deepHashCode`:
      start at 1, then `31 * result + h` for each element hash in order. */
  function PolyHash(hs: seq<int>): int {
    if |hs| == 0 then 1 else 31 * PolyHash(hs[..|hs| - 1]) + hs[|hs| - 1]
  }

  /** The hash `CompositeDataSupport.hashCode` adds for one item value:
      0 for `null`; `deepHashCode` for an `Object[]`; the matching
      `Arrays.hashCode` overload for a primitive array; the scalar's own
      `hashCode` otherwise (modelled as the hash of its state). */
  function ValueHash(v: Value): int
    decreases v
  {
    match v
    case Null => 0
    case Scalar(_, _, s) => PolyHash(s)
    case PrimArray(_, k, xs) => PolyHash(seq(|xs|, i requires 0 <= i < |xs| => ElementHash(k, xs[i])))
    case ObjArray(_, xs) => PolyHash(seq(|xs|, i requires 0 <= i < |xs| => ValueHash(xs[i])))
  }

  /** Deep equality is exactly equality of contents: identities never matter. */
  lemma {:induction false} DeepEqualsIffSameContent(a: Value, b: Value)
    ensures DeepEquals(a, b) <==> Erase(a) == Erase(b)
    decreases a
  {
    match a
    case Null =>
    case Scalar(_, _, _) =>
    case PrimArray(_, _, _) =>
    case ObjArray(_, xs) =>
      if b.ObjArray? && |b.items| == |xs| {
        var ys := b.items;
        forall i | 0 <= i < |xs|
          ensures DeepEquals(xs[i], ys[i]) <==> Erase(xs[i]) == Erase(ys[i])
        {
          DeepEqualsIffSameContent(xs[i], ys[i]);
        }
        if Erase(a) == Erase(b) {
          forall i | 0 <= i < |xs|
            ensures Erase(xs[i]) == Erase(ys[i])
          {
            assert Erase(a).items[i] == Erase(xs[i]);
            assert Erase(b).items[i] == Erase(ys[i]);
          }
        }
        if forall i :: 0 <= i < |xs| ==> DeepEquals(xs[i], ys[i]) {
          assert Erase(a).items == Erase(b).items;
        }
      }
  }

  /** Two instances with the same contents (an array and a distinct copy of
      it, say) are deeply equal. */
  lemma SameContentDeepEquals(a: Value, b: Value)
    requires Erase(a) == Erase(b)
    ensures DeepEquals(a, b) && DeepEquals(b, a)
  {
    DeepEqualsIffSameContent(a, b);
    DeepEqualsIffSameContent(b, a);
  }

  lemma DeepEqualsSymmetric(a: Value, b: Value)
    ensures DeepEquals(a, b) <==> DeepEquals(b, a)
  {
    DeepEqualsIffSameContent(a, b);
    DeepEqualsIffSameContent(b, a);
  }

  lemma DeepEqualsTransitive(a: Value, b: Value, c: Value)
    requires DeepEquals(a, b) && DeepEquals(b, c)
    ensures DeepEquals(a, c)
  {
    DeepEqualsIffSameContent(a, b);
    DeepEqualsIffSameContent(b, c);
    DeepEqualsIffSameContent(a, c);
  }

  /** Plain Java equality is finer than deep equality. */
  lemma JavaEqualsIsDeepEquals(a: Value, b: Value)
    requires JavaEquals(a, b)
    ensures DeepEquals(a, b)
  {
  }

  /** Deeply equal values have equal hashes: the per-kind and deep hash
      functions are compatible with the per-kind and deep equality. */
  lemma {:induction false} DeepEqualsSameHash(a: Value, b: Value)
    requires DeepEquals(a, b)
    ensures ValueHash(a) == ValueHash(b)
    decreases a
  {
    if a != b {
      match a
      case Null =>
      case Scalar(_, _, _) =>
      case PrimArray(_, _, _) =>
      case ObjArray(_, xs) =>
        var ys := b.items;
        var hx := seq(|xs|, i requires 0 <= i < |xs| => ValueHash(xs[i]));
        var hy := seq(|ys|, i requires 0 <= i < |ys| => ValueHash(ys[i]));
        forall i | 0 <= i < |xs|
          ensures hx[i] == hy[i]
        {
          DeepEqualsSameHash(xs[i], ys[i]);
        }
        assert hx == hy;
    }
  }
}
