/** The codec between canonical repository paths and relative SARIF artifact URIs. */
module SarifUri {
  import opened Text
  import opened Utf
  import opened Utf8
  import opened Separated
  import opened RepositoryPath

  const PERCENT: CodeUnit := 0x25

  /** Section 2.3 of RFC 3986. */
  predicate IsUnreserved(u: int) {
    IsLetter(u) || 0x30 <= u <= 0x39 || u == 0x2d || u == 0x2e || u == 0x5f || u == 0x7e
  }

  /** The characters that the encoder escapes over and above `encodeURIComponent`: `!'()*`. */
  predicate IsMark(u: int) { u == 0x21 || 0x27 <= u <= 0x2a }

  function HexDigit(n: nat): (u: CodeUnit)
    requires n < 16
    ensures IsUpperHex(u) && HexValue(u) == n && IsUnreserved(u)
  {
    if n < 10 then 0x30 + n else 0x41 + (n - 10)
  }

  predicate IsUpperHex(u: int) { 0x30 <= u <= 0x39 || 0x41 <= u <= 0x46 }

  function HexValue(u: CodeUnit): (n: nat)
    requires IsUpperHex(u)
    ensures n < 16
  {
    if u <= 0x39 then u as int - 0x30 else u as int - 0x41 + 10
  }

  function Escape(b: Byte): (t: Text)
    ensures |t| == 3
  {
    [PERCENT, HexDigit(b as int / 16), HexDigit(b as int % 16)]
  }

  function EscapeAll(b: Bytes): Text {
    if b == [] then [] else Escape(b[0]) + EscapeAll(b[1..])
  }

  // ---------- encoding ----------

  /** `encodeURIComponent`; it throws on a lone surrogate. */
  function EncodeUriComponent(t: Text): Text
    requires WellFormed(t)
    decreases |t|
  {
    if t == [] then []
    else
      var c := FirstScalar(t);
      UnitsOfFirst(t);
      (if IsUnreserved(c) || IsMark(c) then [c as CodeUnit] else EscapeAll(EncodeScalar(c)))
      + EncodeUriComponent(t[FirstWidth(t)..])
  }

  function EscapeMark(u: CodeUnit): Text {
    if IsMark(u) then Escape(u as int) else [u]
  }

  function EscapeMarks(t: Text): Text {
    if t == [] then []
    else EscapeMark(t[0]) + EscapeMarks(t[1..])
  }

  function EncodeSegment(s: Text): Text
    requires WellFormed(s)
  {
    EscapeMarks(EncodeUriComponent(s))
  }

  function EncodeSegments(ss: seq<Text>): (r: seq<Text>)
    requires AllWellFormed(ss)
    ensures |r| == |ss| && forall i | 0 <= i < |ss| :: r[i] == EncodeSegment(ss[i])
  {
    seq(|ss|, i requires 0 <= i < |ss| => EncodeSegment(ss[i]))
  }

  predicate AllWellFormed(ss: seq<Text>) { forall i | 0 <= i < |ss| :: WellFormed(ss[i]) }

  function EncodeSarifArtifactUri(path: Text): Option<Text> {
    if !IsRepositoryRelativePath(path) then None
    else
      PathPieces(path);
      Some(Join(EncodeSegments(Split(path))))
  }

  lemma PathPieces(path: Text)
    requires IsRepositoryRelativePath(path)
    ensures WellFormed(path) && AllWellFormed(Split(path)) && NoSlash(Split(path))
    ensures forall i | 0 <= i < |Split(path)| :: Split(path)[i] != []
  {
    hide TextError, WellFormed, Split;
    CanonicalExactly(path);
    CleanText(path);
    SplitClean(path);
    SplitNoSlash(path);
    RootSplit();
    assert path != ROOT ==> forall i | 0 <= i < |Split(path)| :: GoodSegment(Split(path)[i]);
  }

  // ---------- decoding ----------

  /** A run of unreserved characters and upper-case escapes. */
  predicate IsEscaped(t: Text) {
    t == [] || (if t[0] == PERCENT then |t| >= 3 && IsUpperHex(t[1]) && IsUpperHex(t[2]) && IsEscaped(t[3..])
                else IsUnreserved(t[0]) && IsEscaped(t[1..]))
  }

  /** The pattern that a URI must match before it is decoded. */
  predicate MatchesPattern(uri: Text) {
    var ss := Split(uri);
    forall i | 0 <= i < |ss| :: ss[i] != [] && IsEscaped(ss[i])
  }

  /** The bytes that a text spells, an escape standing for one byte. */
  function Unescape(t: Text): (r: Option<Bytes>)
  {
    if t == [] then Some([])
    else if t[0] == PERCENT then
      if |t| < 3 || !IsUpperHex(t[1]) || !IsUpperHex(t[2]) then None
      else
        match Unescape(t[3..])
        case None => None
        case Some(rest) => Some([16 * HexValue(t[1]) + HexValue(t[2])] + rest)
    else if t[0] as int >= 0x80 then None
    else
      match Unescape(t[1..])
      case None => None
      case Some(rest) => Some([t[0] as int] + rest)
  }

  /**
    `decodeURIComponent` on a text that matches the pattern, where everything but escapes is ASCII, so that
    no unescaped character can stand for a part of a longer UTF-8 sequence.
   */
  function DecodeUriComponent(uri: Text): Option<Text> {
    match Unescape(uri)
    case None => None
    case Some(bytes) => Decode(bytes)
  }

  function DecodeSarifArtifactUri(uri: Text): Option<Text> {
    if uri == [] || 0x3f in uri || 0x23 in uri || !MatchesPattern(uri) then None
    else
      match DecodeUriComponent(uri)
      case None => None
      case Some(decoded) => if EncodeSarifArtifactUri(decoded) == Some(uri) then Some(decoded) else None
  }

  // ---------- percent-encoding as RFC 3986 defines it ----------

  /** Sections 2.1 and 2.3 of RFC 3986: all bytes but unreserved characters are escaped. */
  function PercentEncode(b: Bytes): Text {
    if b == [] then []
    else EncodeByte(b[0]) + PercentEncode(b[1..])
  }

  function EncodeByte(b: Byte): (t: Text)
    ensures |t| > 0
  {
    if IsUnreserved(b) then [b as CodeUnit] else Escape(b)
  }

  lemma PercentEncodeStep(x: Byte, rest: Bytes)
    ensures PercentEncode([x] + rest) == EncodeByte(x) + PercentEncode(rest)
  {
    assert ([x] + rest)[1..] == rest;
  }

  lemma {:induction false} PercentEncodeConcat(a: Bytes, b: Bytes)
    ensures PercentEncode(a + b) == PercentEncode(a) + PercentEncode(b)
  {
    hide PercentEncode, EncodeByte;
    if a == [] {
      NothingToEncode();
      assert a + b == b;
    } else {
      PercentEncodeConcat(a[1..], b);
      PercentEncodeStep(a[0], a[1..]);
      PercentEncodeStep(a[0], a[1..] + b);
      assert a == [a[0]] + a[1..];
      Associative([a[0]], a[1..], b);
      Associative(EncodeByte(a[0]), PercentEncode(a[1..]), PercentEncode(b));
    }
  }

  lemma EscapeMarksStep(u: CodeUnit, rest: Text)
    ensures EscapeMarks([u] + rest) == EscapeMark(u) + EscapeMarks(rest)
  {
    assert ([u] + rest)[1..] == rest;
  }

  lemma {:induction false} EscapeMarksConcat(a: Text, b: Text)
    ensures EscapeMarks(a + b) == EscapeMarks(a) + EscapeMarks(b)
  {
    hide EscapeMarks, EscapeMark;
    if a == [] {
      NothingToEncode();
      assert a + b == b;
    } else {
      EscapeMarksConcat(a[1..], b);
      EscapeMarksStep(a[0], a[1..]);
      EscapeMarksStep(a[0], a[1..] + b);
      assert a == [a[0]] + a[1..];
      Associative([a[0]], a[1..], b);
      Associative(EscapeMark(a[0]), EscapeMarks(a[1..]), EscapeMarks(b));
    }
  }

  lemma EscapeHasNoMarks(b: Byte)
    ensures EscapeMarks(Escape(b)) == Escape(b)
  {
    var e := Escape(b);
    assert e[1..] == [e[1], e[2]] && e[1..][1..] == [e[2]] && e[1..][1..][1..] == [];
    assert EscapeMarks(e[1..][1..]) == [e[2]];
    assert EscapeMarks(e[1..]) == [e[1], e[2]];
  }

  lemma {:induction false} EscapeAllHasNoMarks(b: Bytes)
    ensures EscapeMarks(EscapeAll(b)) == EscapeAll(b)
  {
    if b != [] {
      EscapeHasNoMarks(b[0]);
      EscapeAllHasNoMarks(b[1..]);
      EscapeMarksConcat(Escape(b[0]), EscapeAll(b[1..]));
    }
  }

  lemma {:induction false} EscapeAllIsPercentEncode(b: Bytes)
    requires forall i | 0 <= i < |b| :: !IsUnreserved(b[i])
    ensures EscapeAll(b) == PercentEncode(b)
  {
    if b != [] {
      EscapeAllIsPercentEncode(b[1..]);
    }
  }

  lemma ScalarBytes(c: Scalar)
    ensures c < 0x80 ==> EncodeScalar(c) == [c]
    ensures c >= 0x80 ==> forall i | 0 <= i < |EncodeScalar(c)| :: EncodeScalar(c)[i] >= 0x80
  {
  }

  lemma ScalarSegment(c: Scalar)
    ensures EscapeMarks(if IsUnreserved(c) || IsMark(c) then [c as CodeUnit] else EscapeAll(EncodeScalar(c)))
            == PercentEncode(EncodeScalar(c))
  {
    ScalarBytes(c);
    if IsUnreserved(c) || IsMark(c) {
      var one: Text := [c as CodeUnit];
      assert one[1..] == [];
      assert EncodeScalar(c)[1..] == [];
    } else {
      EscapeAllHasNoMarks(EncodeScalar(c));
      EscapeAllIsPercentEncode(EncodeScalar(c));
    }
  }

  /** The two-step encoder of a segment is percent-encoding of its UTF-8 bytes. */
  lemma {:induction false} EncodeSegmentIsPercentEncode(s: Text)
    requires WellFormed(s)
    ensures EncodeSegment(s) == PercentEncode(Encode(s))
    decreases |s|
  {
    hide EncodeScalar, FirstScalar, FirstWidth, EscapeMarks, PercentEncode, EscapeAll, WellFormed;
    if s != [] {
      UnitsOfFirst(s);
      var c, rest := FirstScalar(s), s[FirstWidth(s)..];
      var head := if IsUnreserved(c) || IsMark(c) then [c as CodeUnit] else EscapeAll(EncodeScalar(c));
      EscapeMarksConcat(head, EncodeUriComponent(rest));
      ScalarSegment(c);
      PercentEncodeConcat(EncodeScalar(c), Encode(rest));
      EncodeSegmentIsPercentEncode(rest);
    } else {
      NothingToEncode();
    }
  }

  lemma NothingToEncode()
    ensures EscapeMarks([]) == [] && PercentEncode([]) == []
  {
  }

  // ---------- round trips ----------

  lemma EscapeValue(b: Byte)
    ensures 16 * HexValue(Escape(b)[1]) + HexValue(Escape(b)[2]) == b
  {
  }

  lemma UnescapeByte(b: Byte, rest: Text)
    requires Unescape(rest).Some?
    ensures Unescape(EncodeByte(b) + rest) == Some([b] + Unescape(rest).value)
  {
    hide IsUnreserved;
    var t := EncodeByte(b) + rest;
    assert t[|EncodeByte(b)|..] == rest;
    if IsUnreserved(b) {
      UnreservedIsPlain(b);
      assert t == [b as CodeUnit] + rest;
    } else {
      EscapeValue(b);
      assert t[0] == PERCENT && t[1] == Escape(b)[1] && t[2] == Escape(b)[2];
    }
  }

  lemma UnreservedIsPlain(u: int)
    requires IsUnreserved(u)
    ensures 0 <= u < 0x80 && u != PERCENT
  {
  }

  lemma {:induction false} UnescapePercentEncode(b: Bytes, rest: Text)
    requires Unescape(rest).Some?
    ensures Unescape(PercentEncode(b) + rest) == Some(b + Unescape(rest).value)
  {
    hide Unescape, EncodeByte, PercentEncode;
    if b == [] {
      NothingToEncode();
      assert PercentEncode(b) + rest == rest;
      assert b + Unescape(rest).value == Unescape(rest).value;
    } else {
      UnescapePercentEncode(b[1..], rest);
      PercentEncodeStep(b[0], b[1..]);
      assert b == [b[0]] + b[1..];
      Associative(EncodeByte(b[0]), PercentEncode(b[1..]), rest);
      UnescapeByte(b[0], PercentEncode(b[1..]) + rest);
      Associative([b[0]], b[1..], Unescape(rest).value);
    }
  }

  lemma {:induction false} PercentEncodedIsEscaped(b: Bytes)
    ensures IsEscaped(PercentEncode(b))
  {
    if b != [] {
      PercentEncodedIsEscaped(b[1..]);
      assert PercentEncode(b)[|EncodeByte(b[0])|..] == PercentEncode(b[1..]);
    }
  }

  lemma {:induction false} EscapedUnits(t: Text, i: nat)
    requires IsEscaped(t) && i < |t|
    ensures IsUnreserved(t[i]) || t[i] == PERCENT
  {
    var k := if t[0] == PERCENT then 3 else 1;
    if i >= k {
      EscapedUnits(t[k..], i - k);
    } else if t[0] == PERCENT {
      HexIsUnreserved(t);
    }
  }

  lemma HexIsUnreserved(t: Text)
    requires IsEscaped(t) && t != [] && t[0] == PERCENT
    ensures IsUnreserved(t[1]) && IsUnreserved(t[2])
  {
  }

  lemma EncodedSegment(s: Text)
    requires WellFormed(s) && s != []
    ensures IsEscaped(EncodeSegment(s)) && EncodeSegment(s) != [] && SLASH !in EncodeSegment(s)
    ensures 0x3f !in EncodeSegment(s) && 0x23 !in EncodeSegment(s)
  {
    hide IsEscaped, EncodeSegment;
    var e := EncodeSegment(s);
    EncodeSegmentIsPercentEncode(s);
    PercentEncodedIsEscaped(Encode(s));
    SomethingEncoded(s);
    forall i | 0 <= i < |e|
      ensures IsUnreserved(e[i]) || e[i] == PERCENT
    {
      EscapedUnits(e, i);
    }
  }

  lemma SomethingEncoded(s: Text)
    requires s != []
    ensures PercentEncode(Encode(s)) != []
  {
    assert Encode(s) != [];
  }

  /** Unescaping the joined segments yields the UTF-8 bytes of the joined path. */
  lemma {:induction false} UnescapeJoined(ss: seq<Text>)
    requires |ss| > 0 && AllWellFormed(ss)
    ensures Unescape(Join(EncodeSegments(ss))) == Some(Encode(Join(ss)))
    decreases |ss|
  {
    hide EncodeSegment, Encode, WellFormed, Unescape, JoinWith, PercentEncode;
    EncodeSegmentIsPercentEncode(ss[0]);
    var first, bytes := EncodeSegment(ss[0]), Encode(ss[0]);
    JoinEncoded(ss);
    if |ss| == 1 {
      UnescapeNothing();
      UnescapePercentEncode(bytes, []);
      assert first + [] == first && bytes + [] == bytes;
    } else {
      var rest := Join(EncodeSegments(ss[1..]));
      UnescapeJoined(ss[1..]);
      UnescapeSlash(rest);
      UnescapePercentEncode(bytes, [SLASH] + rest);
      EncodeJoined(ss);
    }
  }

  lemma JoinEncoded(ss: seq<Text>)
    requires |ss| > 0 && AllWellFormed(ss)
    ensures Join(EncodeSegments(ss))
            == EncodeSegment(ss[0]) + if |ss| == 1 then [] else [SLASH] + Join(EncodeSegments(ss[1..]))
    ensures |ss| == 1 ==> Join(ss) == ss[0]
  {
    hide EncodeSegment;
    assert EncodeSegments(ss)[1..] == EncodeSegments(ss[1..]);
  }

  lemma UnescapeNothing()
    ensures Unescape([]) == Some([])
  {
  }

  lemma UnescapeSlash(t: Text)
    requires Unescape(t).Some?
    ensures Unescape([SLASH] + t) == Some([SLASH as int] + Unescape(t).value)
  {
    assert ([SLASH] + t)[1..] == t;
  }

  lemma EncodeJoined(ss: seq<Text>)
    requires |ss| > 1 && AllWellFormed(ss)
    ensures Encode(Join(ss)) == Encode(ss[0]) + ([SLASH as int] + Encode(Join(ss[1..])))
  {
    var tail := [SLASH] + Join(ss[1..]);
    assert Join(ss) == ss[0] + tail;
    EncodeConcat(ss[0], tail);
    EncodeConcat([SLASH], Join(ss[1..]));
    OneByte();
  }

  lemma OneByte()
    ensures Encode([SLASH]) == [SLASH as int] && WellFormed([SLASH])
  {
    var one: Text := [SLASH];
    assert one[1..] == [];
  }

  /** The URI of a path matches the pattern. */
  lemma EncodedMatches(path: Text)
    requires IsRepositoryRelativePath(path)
    ensures var uri := EncodeSarifArtifactUri(path).value;
      uri != [] && 0x3f !in uri && 0x23 !in uri && MatchesPattern(uri)
  {
    hide IsRepositoryRelativePath, IsEscaped, EncodeSegment, Split, WellFormed;
    PathPieces(path);
    var ss := Split(path);
    var es := EncodeSegments(ss);
    forall i | 0 <= i < |es|
      ensures es[i] != [] && IsEscaped(es[i]) && SLASH !in es[i] && 0x3f !in es[i] && 0x23 !in es[i]
    {
      EncodedSegment(ss[i]);
    }
    SplitJoin(es);
    JoinAvoids(SLASH, es, 0x3f);
    JoinAvoids(SLASH, es, 0x23);
    assert Join(es) != [];
  }

  /** Decoding undoes encoding, on every canonical path. */
  lemma DecodeEncodedPath(path: Text)
    requires IsRepositoryRelativePath(path)
    ensures EncodeSarifArtifactUri(path).Some?
    ensures DecodeSarifArtifactUri(EncodeSarifArtifactUri(path).value) == Some(path)
  {
    hide IsRepositoryRelativePath, MatchesPattern, Split, WellFormed, Unescape, Decode;
    PathPieces(path);
    EncodedMatches(path);
    UnescapeJoined(Split(path));
    JoinSplit(path);
    DecodeEncode(path);
  }

  /** Encoding undoes decoding, and only canonical paths come out. */
  lemma EncodeDecodedUri(uri: Text)
    requires DecodeSarifArtifactUri(uri).Some?
    ensures IsRepositoryRelativePath(DecodeSarifArtifactUri(uri).value)
    ensures EncodeSarifArtifactUri(DecodeSarifArtifactUri(uri).value) == Some(uri)
  {
  }

  /** The codec is a bijection: a URI is accepted exactly when it is the encoding of a canonical path,
      and of one only. */
  lemma CodecIsBijection(path: Text, uri: Text)
    ensures EncodeSarifArtifactUri(path) == Some(uri) <==> DecodeSarifArtifactUri(uri) == Some(path)
  {
    hide IsRepositoryRelativePath, DecodeSarifArtifactUri;
    if EncodeSarifArtifactUri(path) == Some(uri) {
      DecodeEncodedPath(path);
    } else if DecodeSarifArtifactUri(uri) == Some(path) {
      EncodeDecodedUri(uri);
    }
  }

  // ---------- percent-encoding, spelled out ----------

  /** An unreserved byte stands for itself; any other is a percent sign and two upper-case hexadecimal digits. */
  lemma ByteSpelled(b: Byte)
    ensures EncodeByte(b)
            == if 0x41 <= b <= 0x5a || 0x61 <= b <= 0x7a || 0x30 <= b <= 0x39 || b in {0x2d, 0x2e, 0x5f, 0x7e}
               then [b as CodeUnit]
               else [0x25, "0123456789ABCDEF"[b / 16] as int, "0123456789ABCDEF"[b % 16] as int]
  {
    assert forall n: nat | n < 16 :: "0123456789ABCDEF"[n] as int == HexDigit(n);
  }
}
