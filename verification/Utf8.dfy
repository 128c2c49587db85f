/** UTF-8 as section 3 of RFC 3629 defines it, over UTF-16 texts. */
module Utf8 {
  import opened Text
  import opened Utf

  type Byte = b: int | 0 <= b < 0x100

  type Bytes = seq<Byte>

  predicate IsScalar(c: int) {
    0 <= c <= 0x10_ffff && !(0xd800 <= c <= 0xdfff)
  }

  type Scalar = c: int | 0 <= c <= 0x10_ffff && !(0xd800 <= c <= 0xdfff)

  /** The scalar at the start of a text; a lone surrogate reads as the replacement character. */
  function FirstScalar(t: Text): Scalar
    requires t != []
  {
    if PairAt(t, 0) then 0x1_0000 + (t[0] as int - 0xd800) * 0x400 + (t[1] as int - 0xdc00)
    else if IsHigh(t[0]) || IsLow(t[0]) then 0xfffd
    else t[0]
  }

  function FirstWidth(t: Text): (w: nat)
    requires t != []
    ensures 1 <= w <= |t|
  {
    if PairAt(t, 0) then 2 else 1
  }

  function HighOf(c: Scalar): CodeUnit
    requires c >= 0x1_0000
  {
    0xd800 + (c as int - 0x1_0000) / 0x400
  }

  function LowOf(c: Scalar): CodeUnit
    requires c >= 0x1_0000
  {
    0xdc00 + (c as int - 0x1_0000) % 0x400
  }

  function Units(c: Scalar): (t: Text)
    ensures WellFormed(t) && t != [] && FirstScalar(t) == c && FirstWidth(t) == |t|
  {
    if c < 0x1_0000 then [c as CodeUnit]
    else [HighOf(c), LowOf(c)]
  }

  /** The head byte of a scalar whose bits above the tails are `bits`, and the tail byte of the lowest six bits
      of `n`. */
  function HeadByte(mark: nat, bits: nat): Byte
    requires mark + bits < 0x100
  {
    mark + bits
  }

  function TailByte(n: nat): (t: Byte)
    ensures 0x80 <= t <= 0xbf && t == 0x80 + n % 0x40
  {
    0x80 + n % 0x40
  }

  function EncodeScalar(c: Scalar): (b: Bytes)
    ensures 1 <= |b| <= 4
  {
    if c < 0x80 then [HeadByte(0, c)]
    else
      var c6 := c as int / 0x40;
      if c < 0x800 then [HeadByte(0xc0, c6), TailByte(c)]
      else
        var c12 := c6 / 0x40;
        if c < 0x1_0000 then [HeadByte(0xe0, c12), TailByte(c6), TailByte(c)]
        else [HeadByte(0xf0, c12 / 0x40), TailByte(c12), TailByte(c6), TailByte(c)]
  }

  /** `Buffer.from(t, "utf8")`. */
  function Encode(t: Text): Bytes {
    if t == [] then [] else EncodeScalar(FirstScalar(t)) + Encode(t[FirstWidth(t)..])
  }

  predicate IsTail(b: Byte) { 0x80 <= b <= 0xbf }

  function AddTail(bits: nat, b: Byte): (n: nat)
    requires IsTail(b)
    ensures n == bits * 0x40 + (b as int - 0x80)
  {
    bits * 0x40 + (b as int - 0x80)
  }

  /** Strict decoding of one scalar: no overlong form, no surrogate, nothing above the last scalar, no missing tail. */
  function DecodeScalar(b: Bytes): (r: Option<(Scalar, nat)>)
    requires b != []
    ensures r.Some? ==> 1 <= r.value.1 <= |b|
  {
    var head := b[0] as int;
    if head < 0x80 then Some((head, 1))
    else if 0xc2 <= head <= 0xdf && |b| > 1 && IsTail(b[1]) then Some((AddTail(head - 0xc0, b[1]), 2))
    else if 0xe0 <= head <= 0xef && |b| > 2 && IsTail(b[1]) && IsTail(b[2]) then
      var c := AddTail(AddTail(head - 0xe0, b[1]), b[2]);
      if c >= 0x800 && IsScalar(c) then Some((c, 3)) else None
    else if 0xf0 <= head <= 0xf4 && |b| > 3 && IsTail(b[1]) && IsTail(b[2]) && IsTail(b[3]) then
      var c := AddTail(AddTail(AddTail(head - 0xf0, b[1]), b[2]), b[3]);
      if c >= 0x1_0000 && IsScalar(c) then Some((c, 4)) else None
    else None
  }

  function Decode(b: Bytes): Option<Text>
    decreases |b|
  {
    if b == [] then Some([])
    else
      match DecodeScalar(b)
      case None => None
      case Some((c, n)) =>
        match Decode(b[n..])
        case None => None
        case Some(rest) => Some(Units(c) + rest)
  }

  /** A literal as a text. */
  function TextOf(s: string): (t: Text)
    ensures WellFormed(t)
  {
    if s == [] then []
    else
      var c, rest := Units(s[0] as int), TextOf(s[1..]);
      WellFormedConcat(c, rest);
      c + rest
  }

  /** An ASCII literal has a code unit for every character. */
  lemma {:induction false} AsciiAt(s: string, i: nat)
    requires i < |s| && forall j | 0 <= j < |s| :: s[j] < '\U{80}'
    ensures |TextOf(s)| == |s| && TextOf(s)[i] == s[i] as int
  {
    if |s| > 1 {
      AsciiAt(s[1..], if i > 0 then i - 1 else 0);
    } else {
      assert s[1..] == [];
    }
  }

  // ---------- round trips ----------

  lemma AddTailByte(n: nat)
    ensures AddTail(n / 0x40, TailByte(n)) == n
  {
  }

  lemma TailByteAdded(bits: nat, b: Byte)
    requires IsTail(b)
    ensures AddTail(bits, b) / 0x40 == bits && TailByte(AddTail(bits, b)) == b
  {
  }

  lemma DecodeEncodedScalar(c: Scalar, rest: Bytes)
    ensures DecodeScalar(EncodeScalar(c) + rest) == Some((c, |EncodeScalar(c)|))
  {
    hide AddTail, TailByte;
    var b := EncodeScalar(c) + rest;
    var c6 := c as int / 0x40;
    var c12 := c6 / 0x40;
    AddTailByte(c);
    AddTailByte(c6);
    AddTailByte(c12);
    if c < 0x80 {
      assert b[0] == c;
    } else if c < 0x800 {
      assert b[0] == 0xc0 + c6 && b[1] == TailByte(c);
    } else if c < 0x1_0000 {
      assert b[0] == 0xe0 + c12 && b[1] == TailByte(c6) && b[2] == TailByte(c);
    } else {
      assert b[0] == 0xf0 + c12 / 0x40 && b[1] == TailByte(c12) && b[2] == TailByte(c6) && b[3] == TailByte(c);
    }
  }

  lemma EncodeDecodedScalar(b: Bytes)
    requires b != [] && DecodeScalar(b).Some?
    ensures var (c, n) := DecodeScalar(b).value; EncodeScalar(c) == b[..n]
  {
    hide AddTail, TailByte;
    var head := b[0] as int;
    if head < 0x80 {
    } else if head <= 0xdf {
      TailByteAdded(head - 0xc0, b[1]);
    } else if head <= 0xef {
      TailByteAdded(head - 0xe0, b[1]);
      TailByteAdded(AddTail(head - 0xe0, b[1]), b[2]);
    } else {
      TailByteAdded(head - 0xf0, b[1]);
      TailByteAdded(AddTail(head - 0xf0, b[1]), b[2]);
      TailByteAdded(AddTail(AddTail(head - 0xf0, b[1]), b[2]), b[3]);
    }
  }

  lemma FirstOfUnits(c: Scalar, rest: Text)
    ensures var t := Units(c) + rest; FirstScalar(t) == c && FirstWidth(t) == |Units(c)| && t[FirstWidth(t)..] == rest
  {
  }

  lemma UnitsOfFirst(t: Text)
    requires t != [] && WellFormed(t)
    ensures t == Units(FirstScalar(t)) + t[FirstWidth(t)..] && WellFormed(t[FirstWidth(t)..])
  {
  }

  /** Decoding undoes encoding on text without lone surrogates. */
  lemma {:induction false} DecodeEncode(t: Text)
    requires WellFormed(t)
    ensures Decode(Encode(t)) == Some(t)
    decreases |t|
  {
    hide DecodeScalar, EncodeScalar, Units, WellFormed, FirstScalar, FirstWidth;
    if t != [] {
      UnitsOfFirst(t);
      var c, rest := FirstScalar(t), t[FirstWidth(t)..];
      DecodeEncode(rest);
      DecodeEncodedScalar(c, Encode(rest));
      assert Encode(t)[|EncodeScalar(c)|..] == Encode(rest);
    }
  }

  /** What decodes is the encoding of the text that comes out, which has no lone surrogates. */
  lemma {:induction false} EncodeDecode(b: Bytes)
    requires Decode(b).Some?
    ensures WellFormed(Decode(b).value) && Encode(Decode(b).value) == b
    decreases |b|
  {
    hide DecodeScalar, EncodeScalar, Units, WellFormed, FirstScalar, FirstWidth;
    if b == [] {
      EmptyWellFormed();
    } else {
      var (c, n) := DecodeScalar(b).value;
      var rest := Decode(b[n..]).value;
      EncodeDecode(b[n..]);
      EncodeDecodedScalar(b);
      FirstOfUnits(c, rest);
      WellFormedConcat(Units(c), rest);
      assert b == b[..n] + b[n..];
    }
  }

  lemma EmptyWellFormed()
    ensures WellFormed([])
  {
  }

  /** Different texts have different encodings. */
  lemma EncodeInjective(a: Text, b: Text)
    requires WellFormed(a) && WellFormed(b) && Encode(a) == Encode(b)
    ensures a == b
  {
    DecodeEncode(a);
    DecodeEncode(b);
  }

  lemma SameFirst(a: Text, b: Text)
    requires WellFormed(a) && a != []
    ensures FirstScalar(a + b) == FirstScalar(a) && FirstWidth(a + b) == FirstWidth(a) && WellFormed(a[FirstWidth(a)..])
  {
  }

  lemma {:induction false} EncodeConcat(a: Text, b: Text)
    requires WellFormed(a)
    ensures Encode(a + b) == Encode(a) + Encode(b)
    decreases |a|
  {
    if a == [] {
      assert a + b == b;
    } else {
      hide EncodeScalar, FirstScalar;
      SameFirst(a, b);
      var k := FirstWidth(a);
      assert (a + b)[k..] == a[k..] + b;
      EncodeConcat(a[k..], b);
    }
  }

  /** The number of bytes is what `Buffer.byteLength` says. */
  lemma {:induction false} EncodedLength(t: Text)
    ensures |Encode(t)| == ByteLength(t)
    decreases |t|
  {
    if t != [] {
      EncodedLength(t[FirstWidth(t)..]);
    }
  }

  /** On ASCII the bytes are the code units. */
  lemma {:induction false} EncodeAscii(t: Text)
    requires forall u | u in t :: u < 0x80
    ensures WellFormed(t) && Encode(t) == t
    decreases |t|
  {
    if t != [] {
      hide WellFormed, EncodeScalar;
      AsciiStart(t);
      forall u | u in t[1..]
        ensures u in t
      {
      }
      EncodeAscii(t[1..]);
      assert t == [t[0]] + t[1..];
    }
  }

  lemma AsciiStart(t: Text)
    requires t != [] && forall u | u in t :: u < 0x80
    ensures FirstWidth(t) == 1 && EncodeScalar(FirstScalar(t)) == [t[0]] && WellFormed(t) == WellFormed(t[1..])
  {
    assert t[0] in t;
  }

  /** The bits of a scalar, six to a tail byte, the rest in the head, in the shortest form (section 3 of RFC 3629). */
  lemma ScalarBits(c: Scalar)
    ensures var b: seq<int> := EncodeScalar(c);
      && (c < 0x80 ==> b == [c as int])
      && (0x80 <= c < 0x800 ==> |b| == 2 && c == (b[0] - 0xc0) * 64 + (b[1] - 0x80))
      && (0x800 <= c < 0x1_0000 ==> |b| == 3 && c == ((b[0] - 0xe0) * 64 + (b[1] - 0x80)) * 64 + (b[2] - 0x80))
      && (0x1_0000 <= c ==>
            |b| == 4 && c == (((b[0] - 0xf0) * 64 + (b[1] - 0x80)) * 64 + (b[2] - 0x80)) * 64 + (b[3] - 0x80))
      && forall i | 0 < i < |b| :: 0x80 <= b[i] <= 0xbf
  {
  }

  /** A pair of surrogates is one scalar from U+10000 on, ten bits from each (section 2.1 of RFC 2781). */
  lemma PairBits(high: CodeUnit, low: CodeUnit)
    requires 0xd800 <= high <= 0xdbff && 0xdc00 <= low <= 0xdfff
    ensures Encode([high, low]) == EncodeScalar(0x1_0000 + (high - 0xd800) * 1024 + (low - 0xdc00))
  {
    OneScalar([high, low]);
  }

  lemma OneScalar(t: Text)
    requires t != [] && FirstWidth(t) == |t|
    ensures Encode(t) == EncodeScalar(FirstScalar(t))
  {
    assert t[|t|..] == [];
  }
}
