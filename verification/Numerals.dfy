/** Decimal numerals without leading zeros, of any length, and their order. */
module Numerals {
  import opened Text

  predicate IsDigit(u: int) { 0x30 <= u <= 0x39 }

  /** `0`, or digits that do not start with `0`. */
  predicate IsNumeral(t: Text) {
    && |t| > 0 && (forall i | 0 <= i < |t| :: IsDigit(t[i]))
    && (t[0] == 0x30 ==> |t| == 1)
  }

  predicate AllDigits(t: Text) { forall i | 0 <= i < |t| :: IsDigit(t[i]) }

  function Decimal(t: Text): nat
    requires AllDigits(t)
  {
    if t == [] then 0 else 10 * Decimal(t[..|t| - 1]) + (t[|t| - 1] - 0x30)
  }

  function Pow10(k: nat): (p: nat)
    ensures p >= 1
  {
    if k == 0 then 1 else 10 * Pow10(k - 1)
  }

  /** `String(n)` for a natural number. */
  function Show(n: nat): (t: Text)
    ensures IsNumeral(t) && Decimal(t) == n
    ensures |t| > 1 ==> n >= 10
    decreases n
  {
    if n < 10 then [0x30 + n]
    else
      var t := Show(n / 10) + [0x30 + n % 10];
      assert t[..|t| - 1] == Show(n / 10);
      t
  }

  lemma {:induction false} ValueBound(t: Text)
    requires AllDigits(t)
    ensures Decimal(t) < Pow10(|t|)
  {
    if t != [] {
      ValueBound(t[..|t| - 1]);
    }
  }

  /** A numeral of `k + 1` digits without a leading zero is at least `10^k`. */
  lemma {:induction false} ValueAtLeast(t: Text)
    requires AllDigits(t) && |t| > 0 && t[0] != 0x30
    ensures Decimal(t) >= Pow10(|t| - 1)
  {
    if |t| > 1 {
      ValueAtLeast(t[..|t| - 1]);
    } else {
      assert t[..0] == [];
    }
  }

  lemma {:induction false} PowGrows(j: nat, k: nat)
    requires j <= k
    ensures Pow10(j) <= Pow10(k)
    decreases k
  {
    if j < k {
      PowGrows(j, k - 1);
    }
  }

  /** A longer numeral is larger. */
  lemma LongerIsLarger(a: Text, b: Text)
    requires IsNumeral(a) && IsNumeral(b) && |a| < |b|
    ensures Decimal(a) < Decimal(b)
  {
    ValueBound(a);
    ValueAtLeast(b);
    PowGrows(|a|, |b| - 1);
  }

  lemma Shift(d: nat, p: nat, v: nat)
    ensures 10 * (d * p + v) == d * (10 * p) + 10 * v
  {
  }

  /** Splitting off the first digit. */
  lemma {:induction false} ValueFront(t: Text)
    requires AllDigits(t) && |t| > 0
    ensures Decimal(t) == (t[0] - 0x30) * Pow10(|t| - 1) + Decimal(t[1..])
  {
    if |t| > 1 {
      var init := t[..|t| - 1];
      ValueFront(init);
      assert t[1..][..|t[1..]| - 1] == init[1..];
      assert Decimal(t[1..]) == 10 * Decimal(init[1..]) + (t[|t| - 1] - 0x30);
      Shift(t[0] - 0x30, Pow10(|t| - 2), Decimal(init[1..]));
    } else {
      assert t[..0] == [] && t[1..] == [];
    }
  }

  lemma LeadingDigitDecides(x: nat, y: nat, p: nat, v: nat, w: nat)
    requires x < y && v < p
    ensures x * p + v < y * p + w
  {
    var k := y - x - 1;
    assert y * p == (x + 1 + k) * p == x * p + p + k * p;
    NotNegative(k, p);
  }

  lemma NotNegative(k: nat, p: nat)
    ensures k * p >= 0
  {
  }

  /** Among numerals of the same length the order of the texts is the order of the values. */
  lemma {:induction false} SameLengthOrder(a: Text, b: Text)
    requires AllDigits(a) && AllDigits(b) && |a| == |b|
    ensures Less(a, b) <==> Decimal(a) < Decimal(b)
    ensures a == b <==> Decimal(a) == Decimal(b)
  {
    if a != [] {
      hide Decimal, Pow10;
      var x, y, p, v, w := a[0] - 0x30, b[0] - 0x30, Pow10(|a| - 1), Decimal(a[1..]), Decimal(b[1..]);
      ValueFront(a);
      ValueFront(b);
      ValueBound(a[1..]);
      ValueBound(b[1..]);
      SameLengthOrder(a[1..], b[1..]);
      if x < y {
        LeadingDigitDecides(x, y, p, v, w);
      } else if y < x {
        LeadingDigitDecides(y, x, p, w, v);
      } else {
        assert a == [a[0]] + a[1..] && b == [b[0]] + b[1..];
      }
    }
  }

  /** `compareNumericText`: by length, then by code units. */
  function CompareNumericText(a: Text, b: Text): int {
    if |a| == |b| then Compare(a, b) else |a| - |b|
  }

  /** On numerals of any size the comparison of the texts agrees with the order of the integers. */
  lemma CompareNumericTextIsIntegerOrder(a: Text, b: Text)
    requires IsNumeral(a) && IsNumeral(b)
    ensures CompareNumericText(a, b) < 0 <==> Decimal(a) < Decimal(b)
    ensures CompareNumericText(a, b) == 0 <==> Decimal(a) == Decimal(b)
    ensures CompareNumericText(a, b) == 0 <==> a == b
  {
    if |a| == |b| {
      SameLengthOrder(a, b);
    } else if |a| < |b| {
      LongerIsLarger(a, b);
    } else {
      LongerIsLarger(b, a);
    }
  }

  /** A number has one numeral. */
  lemma NumeralUnique(a: Text, b: Text)
    requires IsNumeral(a) && IsNumeral(b) && Decimal(a) == Decimal(b)
    ensures a == b
  {
    CompareNumericTextIsIntegerOrder(a, b);
  }

  /** The digits of a number stand for its decimal expansion, most significant first. */
  lemma {:induction false} ShowDigits(n: nat)
    ensures n < 10 ==> Show(n) == ["0123456789"[n] as int]
    ensures n >= 10 ==> |Show(n)| >= 2 && Show(n) == Show(n / 10) + ["0123456789"[n % 10] as int]
  {
    assert forall d: nat | d < 10 :: "0123456789"[d] as int == 0x30 + d;
  }
}
