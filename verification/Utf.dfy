/** Surrogates and UTF-8 lengths of UTF-16 texts. A lone surrogate counts as its three-byte replacement. */
module Utf {
  import opened Text

  predicate IsHigh(u: int) { 0xd800 <= u <= 0xdbff }

  predicate IsLow(u: int) { 0xdc00 <= u <= 0xdfff }

  /** A surrogate pair starts at `i`. */
  predicate PairAt(t: Text, i: nat) {
    i + 1 < |t| && IsHigh(t[i]) && IsLow(t[i + 1])
  }

  /** The offset falls between the two halves of a surrogate pair. */
  predicate SplitsPair(t: Text, o: nat) { o > 0 && PairAt(t, o - 1) }

  function UnitBytes(u: CodeUnit): (n: nat)
    ensures 1 <= n <= 3
  {
    if u <= 0x7f then 1 else if u <= 0x7ff then 2 else 3
  }

  /** `Buffer.byteLength(t, "utf8")`. */
  function ByteLength(t: Text): nat {
    if t == [] then 0
    else if PairAt(t, 0) then 4 + ByteLength(t[2..])
    else UnitBytes(t[0]) + ByteLength(t[1..])
  }

  lemma {:induction false} ByteLengthConcat(a: Text, b: Text)
    requires !(a != [] && b != [] && IsHigh(a[|a| - 1]) && IsLow(b[0]))
    ensures ByteLength(a + b) == ByteLength(a) + ByteLength(b)
    decreases |a|
  {
    if a == [] {
      assert a + b == b;
    } else {
      assert PairAt(a + b, 0) == PairAt(a, 0);
      var k := if PairAt(a, 0) then 2 else 1;
      assert (a + b)[k..] == a[k..] + b;
      ByteLengthConcat(a[k..], b);
    }
  }

  /** The bytes of a stretch are those of its parts when it is not cut inside a pair. */
  lemma ByteLengthCut(t: Text, a: nat, b: nat, c: nat)
    requires a <= b <= c <= |t| && !SplitsPair(t, b)
    ensures ByteLength(t[a..c]) == ByteLength(t[a..b]) + ByteLength(t[b..c])
  {
    hide ByteLength;
    var x, y := t[a..b], t[b..c];
    assert t[a..c] == x + y;
    if x != [] && y != [] {
      assert x[|x| - 1] == t[b - 1] && y[0] == t[b];
    }
    ByteLengthConcat(x, y);
  }

  /** No lone surrogate. */
  predicate WellFormed(t: Text)
    decreases |t|
  {
    t == [] || (if PairAt(t, 0) then WellFormed(t[2..]) else !IsHigh(t[0]) && !IsLow(t[0]) && WellFormed(t[1..]))
  }

  lemma {:induction false} WellFormedConcat(a: Text, b: Text)
    requires WellFormed(a)
    ensures WellFormed(a + b) == WellFormed(b)
    decreases |a|
  {
    if a == [] {
      assert a + b == b;
    } else {
      var k := if PairAt(a, 0) then 2 else 1;
      assert (a + b)[k..] == a[k..] + b;
      WellFormedConcat(a[k..], b);
    }
  }

  /** A stretch between scalars of a well-formed text is well-formed. */
  lemma Stretch(t: Text, a: nat, b: nat)
    requires WellFormed(t) && a <= b <= |t| && !SplitsPair(t, a) && !SplitsPair(t, b)
    ensures WellFormed(t[a..b])
  {
    hide WellFormed, SplitsPair;
    CutWellFormed(t, b);
    assert !SplitsPair(t, a) ==> !SplitsPair(t[..b], a) by {
      SplitsShorter(t, a, b);
    }
    CutWellFormed(t[..b], a);
    assert t[..b][a..] == t[a..b];
  }

  lemma SplitsShorter(t: Text, a: nat, b: nat)
    requires a <= b <= |t| && !SplitsPair(t, a)
    ensures !SplitsPair(t[..b], a)
  {
  }

  lemma {:induction false} CutWellFormed(t: Text, a: nat)
    requires WellFormed(t) && a <= |t| && !SplitsPair(t, a)
    ensures WellFormed(t[..a]) && WellFormed(t[a..])
    decreases |t|
  {
    if a == 0 {
      assert t[..0] == [] && t[0..] == t;
    } else {
      var k := if PairAt(t, 0) then 2 else 1;
      assert k <= a;
      assert t[k..][..a - k] == t[k..a] && t[k..][a - k..] == t[a..] && t[..a][k..] == t[k..a];
      CutWellFormed(t[k..], a - k);
      assert PairAt(t[..a], 0) == PairAt(t, 0);
    }
  }
}
