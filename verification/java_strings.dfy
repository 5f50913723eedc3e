/** The two `java.lang.String` operations the composite record relies on:
  `trim()`, which every name and key check goes through, and `compareTo`,
  the natural order a `TreeMap<String, _>` keeps its keys in.
 */
module JavaStrings {

  /** `trim()` treats every character at or below the space character as blank. */
  predicate IsSpace(c: char) {
    c <= ' '
  }

  /** The first loop of `trim()`: advance `st` over blanks. */
  function TrimStart(s: string, st: nat): (r: nat)
    requires st <= |s|
    ensures st <= r <= |s|
    ensures forall k :: st <= k < r ==> IsSpace(s[k])
    ensures r < |s| ==> !IsSpace(s[r])
    decreases |s| - st
  {
    if st == |s| || !IsSpace(s[st]) then st else TrimStart(s, st + 1)
  }

  /** The second loop of `trim()`: move `len` leftwards over blanks, never
      past `st`. */
  function TrimEnd(s: string, st: nat, len: nat): (r: nat)
    requires st <= len <= |s|
    ensures st <= r <= len
    ensures forall k :: r <= k < len ==> IsSpace(s[k])
    ensures st < r ==> !IsSpace(s[r - 1])
    decreases len
  {
    if len == st || !IsSpace(s[len - 1]) then len else TrimEnd(s, st, len - 1)
  }

  /** `String.trim()`: the string with leading and trailing blanks removed. */
  function Trim(s: string): (r: string)
    ensures exists st, len :: 0 <= st <= len <= |s| && r == s[st..len]
              && (forall k :: 0 <= k < st ==> IsSpace(s[k]))
              && (forall k :: len <= k < |s| ==> IsSpace(s[k]))
    ensures |r| <= |s|
    ensures r == [] <==> forall k :: 0 <= k < |s| ==> IsSpace(s[k])
    ensures r != [] ==> !IsSpace(r[0]) && !IsSpace(r[|r| - 1])
  {
    var st := TrimStart(s, 0);
    var len := TrimEnd(s, st, |s|);
    assert st < |s| ==> st < len;
    assert forall k :: len <= k < |s| ==> IsSpace(s[k]);
    s[st..len]
  }

  /** The test `s.trim().equals("")` used for names and keys. */
  predicate IsBlank(s: string) {
    Trim(s) == []
  }

  /** A string that `trim()` leaves unchanged. */
  predicate IsTrimmed(s: string) {
    Trim(s) == s
  }

  /** A name as `CompositeType` keeps it: non-empty, with a non-blank first
      and last character. */
  predicate IsItemName(s: string) {
    |s| > 0 && !IsSpace(s[0]) && !IsSpace(s[|s| - 1])
  }

  /** A string whose first and last characters are not blank is trimmed; with
      the contract of `Trim` this makes trimming idempotent. */
  lemma TrimmedWhenEndsNonBlank(s: string)
    requires s == [] || (!IsSpace(s[0]) && !IsSpace(s[|s| - 1]))
    ensures IsTrimmed(s)
  {
    if s != [] {
      assert TrimStart(s, 0) == 0;
      assert TrimEnd(s, 0, |s|) == |s|;
      assert s[0..|s|] == s;
    }
  }

  /** `trim()` is idempotent. */
  lemma TrimIdempotent(s: string)
    ensures Trim(Trim(s)) == Trim(s)
  {
    TrimmedWhenEndsNonBlank(Trim(s));
  }

  lemma {:induction false} TrimStartShift(k: string, st: nat)
    requires st <= |k|
    ensures TrimStart([' '] + k, st + 1) == TrimStart(k, st) + 1
    decreases |k| - st
  {
    var s := [' '] + k;
    if st < |k| {
      assert s[st + 1] == k[st];
      if IsSpace(k[st]) {
        TrimStartShift(k, st + 1);
      }
    }
  }

  lemma {:induction false} TrimEndShift(k: string, st: nat, len: nat)
    requires st <= len <= |k|
    ensures TrimEnd([' '] + k, st + 1, len + 1) == TrimEnd(k, st, len) + 1
    decreases len
  {
    var s := [' '] + k;
    if len > st {
      assert s[len] == k[len - 1];
      if IsSpace(k[len - 1]) {
        TrimEndShift(k, st, len - 1);
      }
    }
  }

  /** A leading space changes nothing once trimmed. */
  lemma LeadingSpaceTrimmedAway(k: string)
    ensures Trim([' '] + k) == Trim(k)
  {
    var s := [' '] + k;
    TrimStartShift(k, 0);
    var st := TrimStart(k, 0);
    assert TrimStart(s, 0) == st + 1;
    TrimEndShift(k, st, |k|);
    var len := TrimEnd(k, st, |k|);
    assert s[st + 1..len + 1] == k[st..len];
  }

  /** Item names are exactly the strings that are not blank and that
      `trim()` leaves unchanged. */
  lemma ItemNameIffTrimmed(s: string)
    ensures IsItemName(s) <==> !IsBlank(s) && IsTrimmed(s)
  {
    if IsItemName(s) {
      TrimmedWhenEndsNonBlank(s);
    }
  }

  /** `String.compareTo(a, b) < 0`: compare characters up to the shorter
      length, then the shorter string comes first. */
  predicate Less(a: string, b: string) {
    LessFrom(a, b, 0)
  }

  /** The comparison from position `i` on, the characters before `i`
      having matched. */
  predicate LessFrom(a: string, b: string, i: nat)
    decreases |a| - i
  {
    if i >= |a| then i < |b|
    else i < |b| && (if a[i] == b[i] then LessFrom(a, b, i + 1) else a[i] < b[i])
  }

  lemma {:induction false} LessFromIrreflexive(a: string, i: nat)
    ensures !LessFrom(a, a, i)
    decreases |a| - i
  {
    if i < |a| {
      LessFromIrreflexive(a, i + 1);
    }
  }

  lemma {:induction false} LessFromTransitive(a: string, b: string, c: string, i: nat)
    requires LessFrom(a, b, i) && LessFrom(b, c, i)
    ensures LessFrom(a, c, i)
    decreases |a| - i
  {
    if i < |a| && a[i] == b[i] && b[i] == c[i] {
      LessFromTransitive(a, b, c, i + 1);
    }
  }

  lemma {:induction false} LessFromTotal(a: string, b: string, i: nat)
    requires i <= |a| && i <= |b| && a[..i] == b[..i] && a != b
    ensures LessFrom(a, b, i) || LessFrom(b, a, i)
    decreases |a| - i
  {
    if i < |a| && i < |b| && a[i] == b[i] {
      assert a[..i + 1] == a[..i] + [a[i]] && b[..i + 1] == b[..i] + [b[i]];
      LessFromTotal(a, b, i + 1);
    }
  }

  lemma {:induction false} LessFromAsymmetric(a: string, b: string, i: nat)
    requires LessFrom(a, b, i)
    ensures !LessFrom(b, a, i)
    decreases |a| - i
  {
    if i < |a| && a[i] == b[i] {
      LessFromAsymmetric(a, b, i + 1);
    }
  }

  lemma LessIrreflexive(a: string)
    ensures !Less(a, a)
  {
    LessFromIrreflexive(a, 0);
  }

  lemma LessTransitive(a: string, b: string, c: string)
    requires Less(a, b) && Less(b, c)
    ensures Less(a, c)
  {
    LessFromTransitive(a, b, c, 0);
  }

  /** The order is total: distinct strings are comparable. */
  lemma LessTotal(a: string, b: string)
    requires a != b
    ensures Less(a, b) || Less(b, a)
  {
    LessFromTotal(a, b, 0);
  }

  lemma LessAsymmetric(a: string, b: string)
    requires Less(a, b)
    ensures !Less(b, a)
  {
    LessFromAsymmetric(a, b, 0);
  }
}
