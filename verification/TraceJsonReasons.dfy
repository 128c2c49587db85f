/** Why a JSON text is rejected, and what the escapes in its keys spell. */
module TraceJsonReasons {
  import opened Text
  import opened JsonGrammar
  import opened TraceJsonSpec
  import opened TraceJsonProof

  // ---------- the letters of the grammar ----------

  const LOWER_HEX := "0123456789abcdef"
  const UPPER_HEX := "0123456789ABCDEF"

  lemma HexDigit(a: nat)
    requires a < 16
    ensures IsHex(LOWER_HEX[a] as int) && HexValue(LOWER_HEX[a] as int) == a
    ensures IsHex(UPPER_HEX[a] as int) && HexValue(UPPER_HEX[a] as int) == a
  {
    assert a == 0 || a == 1 || a == 2 || a == 3 || a == 4 || a == 5 || a == 6 || a == 7
           || a == 8 || a == 9 || a == 10 || a == 11 || a == 12 || a == 13 || a == 14 || a == 15;
  }

  /** Four digits spell a code unit with the first digit as the most significant one, in either case of letters. */
  lemma HexSpells(p: string, q: string, r: string, s: string, a: nat, b: nat, c: nat, d: nat)
    requires {p, q, r, s} <= {LOWER_HEX, UPPER_HEX} && a < 16 && b < 16 && c < 16 && d < 16
    ensures IsHex(p[a] as int) && IsHex(q[b] as int) && IsHex(r[c] as int) && IsHex(s[d] as int)
    ensures HexUnit(p[a] as int, q[b] as int, r[c] as int, s[d] as int) == ((a * 16 + b) * 16 + c) * 16 + d
  {
    hide HexValue, IsHex;
    assert p in {p, q, r, s} && q in {p, q, r, s} && r in {p, q, r, s} && s in {p, q, r, s};
    HexDigit(a);
    HexDigit(b);
    HexDigit(c);
    HexDigit(d);
  }

  /** The letters after a reverse solidus and what they stand for; the white space; the three words. */
  lemma LettersSpelled()
    ensures forall i | 0 <= i < 8 ::
              && IsSimpleEscape("\"\\/bfnrt"[i] as int)
              && EscapeValue("\"\\/bfnrt"[i] as int) == [0x22, 0x5c, 0x2f, 0x08, 0x0c, 0x0a, 0x0d, 0x09][i]
    ensures forall c | IsSimpleEscape(c) :: exists i :: 0 <= i < 8 && "\"\\/bfnrt"[i] as int == c
    ensures forall c :: IsWs(c) <==> exists i :: 0 <= i < 4 && " \t\n\r"[i] as int == c
    ensures |TRUE| == 4 && |FALSE| == 5 && |NULL| == 4
    ensures forall i | 0 <= i < 4 :: TRUE[i] == "true"[i] as int && NULL[i] == "null"[i] as int
    ensures forall i | 0 <= i < 5 :: FALSE[i] == "false"[i] as int
  {
    forall c | IsSimpleEscape(c)
      ensures exists i :: 0 <= i < 8 && "\"\\/bfnrt"[i] as int == c
    {
      var i := if c == 0x22 then 0 else if c == 0x5c then 1 else if c == 0x2f then 2 else if c == 0x62 then 3
               else if c == 0x66 then 4 else if c == 0x6e then 5 else if c == 0x72 then 6 else 7;
      assert "\"\\/bfnrt"[i] as int == c;
    }
    forall c | IsWs(c)
      ensures exists i :: 0 <= i < 4 && " \t\n\r"[i] as int == c
    {
      var i := if c == 0x20 then 0 else if c == 0x09 then 1 else if c == 0x0a then 2 else 3;
      assert " \t\n\r"[i] as int == c;
    }
  }

  /** The punctuation, the digits and the letters of numbers. */
  lemma SignsSpelled()
    ensures [LBRACE, RBRACE, LBRACKET, RBRACKET] == ['{' as int, '}' as int, '[' as int, ']' as int]
    ensures [COLON, COMMA, QUOTE, BACKSLASH, LOWER_U] == [':' as int, ',' as int, '"' as int, '\\' as int, 'u' as int]
    ensures [MINUS, PLUS, POINT, ZERO] == ['-' as int, '+' as int, '.' as int, '0' as int]
    ensures forall c :: IsDigit(c) <==> '0' as int <= c <= '9' as int
    ensures forall c :: IsE(c) <==> c == 'e' as int || c == 'E' as int
    ensures forall c :: IsHex(c) <==> || '0' as int <= c <= '9' as int || 'a' as int <= c <= 'f' as int
                                      || 'A' as int <= c <= 'F' as int
  {
  }

  // ---------- the reason for a rejection ----------

  /** Success with the end and the count, or a repeated key, or a limit, each only where there is one. */
  ghost predicate Told(r: Scan, end: nat, m: nat, distinct: bool, within: bool) {
    match r
    case Success((j, c)) => j == end && c == m && distinct && within
    case Failure(why) => (why == DuplicateKey && !distinct) || (why == Limits && !within)
  }

  lemma {:induction false} ValueTold(t: Text, i: nat, j: nat, w: Text, v: Value, n: nat, depth: nat, end: nat)
    requires WellFormed(v) && AllWs(w) && Has(t, i, w) && j == i + |w|
    requires Has(t, j, Render(v)) && end == j + |Render(v)| && Follow(At(t, end))
    ensures i <= |t|
    ensures Told(ScanValue(t, i, n, depth), end, n + Count(v), DistinctKeys(v),
                 n + Count(v) <= MAX_NODES && NestedWithin(v, depth, MAX_DEPTH))
    decreases v, 2
  {
    hide Has, SkipWs, Render, Follow;
    FirstOf(v);
    HasAt(t, j, Render(v), 0);
    WsComplete(t, i, w);
    Inside(t, i, w);
    if n + 1 <= MAX_NODES && depth <= MAX_DEPTH {
      ValueStep(t, i, j, n, depth, ScanValue(t, i, n, depth));
      KindTold(t, j, v, n, depth, end);
    } else {
      OverLimit(t, i, n, depth, v);
    }
  }

  lemma Inside(t: Text, i: nat, w: Text)
    requires Has(t, i, w)
    ensures i <= |t|
  {
  }

  lemma OverLimit(t: Text, i: nat, n: nat, depth: nat, v: Value)
    requires i <= |t| && !(n + 1 <= MAX_NODES && depth <= MAX_DEPTH)
    ensures ScanValue(t, i, n, depth) == Failure(Limits)
    ensures !(n + Count(v) <= MAX_NODES && NestedWithin(v, depth, MAX_DEPTH))
  {
  }

  lemma {:induction false} KindTold(t: Text, j: nat, v: Value, n: nat, depth: nat, end: nat)
    requires WellFormed(v) && n + 1 <= MAX_NODES && depth <= MAX_DEPTH
    requires j < |t| && Has(t, j, Render(v)) && end == j + |Render(v)| && Follow(At(t, end))
    ensures Told(ScanKind(t, j, n, depth), end, n + Count(v), DistinctKeys(v),
                 n + Count(v) <= MAX_NODES && NestedWithin(v, depth, MAX_DEPTH))
    decreases v, 1
  {
    hide ScanObject, ScanArray, ScanString, ScanNumber, SkipWs, Has;
    FirstOf(v);
    HasAt(t, j, Render(v), 0);
    match v {
      case Object(_, _) => ObjectTold(t, j, v, n + 1, depth + 1, end);
      case Array(_, _) => ArrayTold(t, j, v, n + 1, depth + 1, end);
      case String(chars) => StringComplete(t, j, chars, end);
      case Numeral(x) => NumberComplete(t, j, x, end);
      case _ => WordsComplete(t, j, v, n, depth, end);
    }
  }

  lemma {:induction false} ObjectTold(t: Text, i: nat, v: Value, n: nat, depth: nat, end: nat)
    requires v.Object? && WellFormed(v) && n <= MAX_NODES
    requires Has(t, i, Render(v)) && end == i + |Render(v)| && i < |t|
    ensures Told(ScanObject(t, i, n, depth), end, n + CountMembers(v.members), MembersDistinct(v.members, {}),
                 n + CountMembers(v.members) <= MAX_NODES && MembersNested(v.members, depth, MAX_DEPTH))
    decreases v, 0
  {
    hide ScanMembers, SkipWs, Has, RenderMembers;
    var ms := v.members;
    HasConcat(t, i, [LBRACE], v.pad + RenderMembers(ms));
    if ms.NoMembers? {
      assert RenderMembers(ms) == [RBRACE] by {
        NoneLeft();
      }
      PadComplete(t, i + 1, v.pad, RBRACE);
    } else {
      assert v.pad + RenderMembers(ms) == RenderMembers(ms);
      MembersTold(t, i + 1, ms, n, depth, {}, end);
    }
  }

  lemma NoneLeft()
    ensures RenderMembers(NoMembers) == [RBRACE] && RenderElements(NoElements) == [RBRACKET]
  {
  }

  /** The key of a rendered member, new or not. */
  lemma KeyTold(t: Text, i: nat, p1: nat, p2: nat, p3: nat, ms: Members, keys: set<Text>)
    requires ms.Member? && MembersWellFormed(ms)
    requires Has(t, i, ms.before) && p1 == i + |ms.before|
    requires Has(t, p1, RenderString(ms.key)) && p2 == p1 + |RenderString(ms.key)|
    requires Has(t, p2, ms.afterKey) && p3 == p2 + |ms.afterKey| && Has(t, p3, [COLON])
    ensures p1 < |t| && SkipWs(t, i) == p1 && t[p1] == QUOTE && i <= |t|
    ensures ScanKey(t, i, keys) == ScanKey(t, p1, keys)
            == if ms.key.Decode() in keys then Failure(DuplicateKey) else Success((p3 + 1, ms.key.Decode()))
  {
    hide RenderString, SkipWs, ScanString, Unescape, Has;
    Inside(t, i, ms.before);
    StringComplete(t, p1, ms.key, p2);
    HasAt(t, p3, [COLON], 0);
    WsComplete(t, p1, []) by {
      NothingThere(t, p1);
    }
    WsComplete(t, i, ms.before);
    WsComplete(t, p2, ms.afterKey);
  }

  lemma NothingThere(t: Text, i: nat)
    requires At(t, i) != NAN
    ensures Has(t, i, [])
  {
  }

  /** The member list, read from `i` or from the end of the white space there. */
  lemma {:induction false} MembersTold(t: Text, i: nat, ms: Members, n: nat, depth: nat, keys: set<Text>, end: nat)
    requires ms.Member? && MembersWellFormed(ms) && n <= MAX_NODES
    requires Has(t, i, RenderMembers(ms)) && end == i + |RenderMembers(ms)|
    ensures i <= |t| && At(t, SkipWs(t, i)) == QUOTE
    ensures ScanMembers(t, i, n, depth, keys) == ScanMembers(t, SkipWs(t, i), n, depth, keys)
    ensures Told(ScanMembers(t, i, n, depth, keys), end, n + CountMembers(ms), MembersDistinct(ms, keys),
                 n + CountMembers(ms) <= MAX_NODES && MembersNested(ms, depth, MAX_DEPTH))
    decreases ms
  {
    hide ScanElements, ScanValue, ScanKey, ScanString, SkipWs, Has, Render, RenderString;
    var p1 := i + |ms.before|;
    var p2 := p1 + |RenderString(ms.key)|;
    var p3 := p2 + |ms.afterKey|;
    var p5 := p3 + 1 + |ms.beforeValue|;
    var p6 := p5 + |Render(ms.value)|;
    var p7 := p6 + |ms.after|;
    var m := n + Count(ms.value);
    var key := ms.key.Decode();
    MemberParts(t, i, p1, p2, p3, p3 + 1, p5, p6, p7, ms);
    KeyTold(t, i, p1, p2, p3, ms, keys);
    if key !in keys {
      MemberTail(t, p6, p7, ms);
      ValueTold(t, p3 + 1, p5, ms.beforeValue, ms.value, n, depth, p6);
      if ScanValue(t, p3 + 1, n, depth).Success? && ms.rest.Member? {
        HasConcat(t, p7, [COMMA], RenderMembers(ms.rest));
        MembersTold(t, p7 + 1, ms.rest, m, depth, keys + {key}, end);
      }
    }
  }

  lemma {:induction false} ArrayTold(t: Text, i: nat, v: Value, n: nat, depth: nat, end: nat)
    requires v.Array? && WellFormed(v) && n <= MAX_NODES
    requires Has(t, i, Render(v)) && end == i + |Render(v)| && i < |t|
    ensures Told(ScanArray(t, i, n, depth), end, n + CountElements(v.elements), ElementsDistinct(v.elements),
                 n + CountElements(v.elements) <= MAX_NODES && ElementsNested(v.elements, depth, MAX_DEPTH))
    decreases v, 0
  {
    hide ScanElements, SkipWs, Has, RenderElements;
    var es := v.elements;
    HasConcat(t, i, [LBRACKET], v.pad + RenderElements(es));
    if es.NoElements? {
      assert RenderElements(es) == [RBRACKET] by {
        NoneLeft();
      }
      PadComplete(t, i + 1, v.pad, RBRACKET);
    } else {
      assert v.pad + RenderElements(es) == RenderElements(es);
      ElementsTold(t, i + 1, es, n, depth, end);
    }
  }

  /** The element list, read from `i` or from the end of the white space there. */
  lemma {:induction false} ElementsTold(t: Text, i: nat, es: Elements, n: nat, depth: nat, end: nat)
    requires es.Element? && ElementsWellFormed(es) && n <= MAX_NODES
    requires Has(t, i, RenderElements(es)) && end == i + |RenderElements(es)|
    ensures i <= |t| && SkipWs(t, i) <= |t| && At(t, SkipWs(t, i)) != RBRACKET
    ensures ScanElements(t, i, n, depth) == ScanElements(t, SkipWs(t, i), n, depth)
    ensures Told(ScanElements(t, i, n, depth), end, n + CountElements(es), ElementsDistinct(es),
                 n + CountElements(es) <= MAX_NODES && ElementsNested(es, depth, MAX_DEPTH))
    decreases es
  {
    hide ScanMembers, ScanValue, SkipWs, Has, Render, RenderString;
    var p1 := i + |es.before|;
    var p2 := p1 + |Render(es.value)|;
    var p3 := p2 + |es.after|;
    var m := n + Count(es.value);
    ElementParts(t, i, p1, p2, p3, es);
    ElementTail(t, p2, p3, es);
    ElementHead(t, i, p1, es);
    Inside(t, i, es.before);
    ValueTold(t, i, p1, es.before, es.value, n, depth, p2);
    ReadFrom(t, i, n, depth);
    if ScanValue(t, i, n, depth).Success? && es.rest.Element? {
      HasConcat(t, p3, [COMMA], RenderElements(es.rest));
      ElementsTold(t, p3 + 1, es.rest, m, depth, end);
    }
  }

  /** White space before a value makes no difference. */
  lemma ReadFrom(t: Text, i: nat, n: nat, depth: nat)
    requires i <= |t|
    ensures SkipWs(t, i) <= |t| && SkipWs(t, SkipWs(t, i)) == SkipWs(t, i)
    ensures ScanValue(t, i, n, depth) == ScanValue(t, SkipWs(t, i), n, depth)
  {
  }

  /**
    A JSON text is never rejected as malformed: it is accepted, or one of its objects repeats a decoded key, or it has
    too many values or nests too deep, and the reason given is one that applies.
   */
  lemma ReasonsOfJson(t: Text, doc: Document)
    requires IsJson(t, doc)
    ensures Preflight(t) == None || Preflight(t) == Some(DuplicateKey) || Preflight(t) == Some(Limits)
    ensures Preflight(t) == Some(DuplicateKey) ==> !DistinctKeys(doc.value)
    ensures Preflight(t) == Some(Limits) ==> !(Count(doc.value) <= MAX_NODES && NestedWithin(doc.value, 0, MAX_DEPTH))
    ensures Preflight(t) == None ==>
              DistinctKeys(doc.value) && Count(doc.value) <= MAX_NODES && NestedWithin(doc.value, 0, MAX_DEPTH)
  {
    hide ScanValue, Render, WellFormed, DistinctKeys, NestedWithin, Count, SkipWs;
    var j := |doc.before|;
    var end := j + |Render(doc.value)|;
    HasConcat(t, 0, doc.before, Render(doc.value) + doc.after);
    HasConcat(t, j, Render(doc.value), doc.after);
    if doc.after != [] {
      HasAt(t, end, doc.after, 0);
    }
    WsComplete(t, end, doc.after);
    ValueTold(t, 0, j, doc.before, doc.value, 0, 0, end);
  }

  // ---------- two spellings of one key ----------

  /** An object of two members with one-character keys, the second key spelled as an escape. */
  function TwoMembers(u: CodeUnit, h0: CodeUnit, h1: CodeUnit, h2: CodeUnit, h3: CodeUnit): Text {
    [0x7b, 0x22, u, 0x22, 0x3a, 0x31, 0x2c, 0x22, 0x5c, 0x75, h0, h1, h2, h3, 0x22, 0x3a, 0x32, 0x7d]
  }

  function OneDigit(u: CodeUnit): Value { Numeral(Number(false, [u], None, None)) }

  function OneMember(c: Char, u: CodeUnit, rest: Members): Members {
    Member([], Cons(c, Empty), [], [], OneDigit(u), [], rest)
  }

  lemma DigitRendered(u: CodeUnit)
    requires 0x30 <= u <= 0x39
    ensures Render(OneDigit(u)) == [u] && WellFormed(OneDigit(u))
  {
    var x := Number(false, [u], None, None);
    assert x.Render() == [u];
  }

  lemma CharRendered(c: Char)
    requires c.WellFormed()
    ensures RenderString(Cons(c, Empty)) == [0x22] + c.Render() + [0x22]
    ensures Cons(c, Empty).WellFormed() && Cons(c, Empty).Decode() == [c.Decode()]
  {
    hide Char.WellFormed, Char.Render, Char.Decode;
    assert Empty.Render() == [] && Empty.WellFormed() && Empty.Decode() == [];
    assert Cons(c, Empty).Render() == c.Render();
  }

  lemma MemberRendered(c: Char, u: CodeUnit, rest: Members)
    requires c.WellFormed() && 0x30 <= u <= 0x39 && MembersWellFormed(rest)
    ensures MembersWellFormed(OneMember(c, u, rest))
    ensures RenderMembers(OneMember(c, u, rest)) == [0x22] + c.Render() + [0x22, 0x3a, u] + RenderMoreMembers(rest)
    ensures CountMembers(OneMember(c, u, rest)) == 1 + CountMembers(rest)
    ensures forall d: nat :: MembersNested(OneMember(c, u, rest), d, MAX_DEPTH) <==>
                        d <= MAX_DEPTH && MembersNested(rest, d, MAX_DEPTH)
    ensures forall keys :: MembersDistinct(OneMember(c, u, rest), keys) <==>
              [c.Decode()] !in keys && MembersDistinct(rest, keys + {[c.Decode()]})
  {
    hide Char.WellFormed, Char.Render, Char.Decode, Render, RenderString, Chars.WellFormed, Chars.Decode;
    CharRendered(c);
    DigitRendered(u);
    assert Count(OneDigit(u)) == 1 && DistinctKeys(OneDigit(u));
  }

  lemma NoMembersRendered()
    ensures RenderMoreMembers(NoMembers) == [0x7d] && MembersWellFormed(NoMembers) && CountMembers(NoMembers) == 0
    ensures forall d: nat :: MembersNested(NoMembers, d, MAX_DEPTH)
    ensures forall keys :: MembersDistinct(NoMembers, keys)
  {
  }

  /** A key and an escape that spells it are the same key, whatever the case of the digits. */
  lemma EscapedKeyRepeats(u: CodeUnit, p: string, q: string, r: string, s: string, a: nat, b: nat, c: nat, d: nat)
    requires {p, q, r, s} <= {LOWER_HEX, UPPER_HEX} && a < 16 && b < 16 && c < 16 && d < 16
    requires u >= 0x20 && u != 0x22 && u != 0x5c
    ensures IsHex(p[a] as int) && IsHex(q[b] as int) && IsHex(r[c] as int) && IsHex(s[d] as int)
    ensures Preflight(TwoMembers(u, p[a] as int, q[b] as int, r[c] as int, s[d] as int))
            == if u == ((a * 16 + b) * 16 + c) * 16 + d then Some(DuplicateKey) else None
  {
    hide Preflight, HexUnit, HexValue, IsHex;
    HexSpells(p, q, r, s, a, b, c, d);
    TwoKeys(u, p[a] as int, q[b] as int, r[c] as int, s[d] as int);
  }

  lemma TwoKeys(u: CodeUnit, h0: CodeUnit, h1: CodeUnit, h2: CodeUnit, h3: CodeUnit)
    requires u >= 0x20 && u != 0x22 && u != 0x5c && IsHex(h0) && IsHex(h1) && IsHex(h2) && IsHex(h3)
    ensures Preflight(TwoMembers(u, h0, h1, h2, h3))
            == if u == HexUnit(h0, h1, h2, h3) then Some(DuplicateKey) else None
  {
    hide Preflight, HexUnit, IsHex, MembersWellFormed, RenderMembers, RenderMoreMembers, MembersDistinct, MembersNested,
         CountMembers, OneMember;
    var x, y := Unescaped(u), Hex(h0, h1, h2, h3);
    assert x.Decode() == u && y.Decode() == HexUnit(h0, h1, h2, h3);
    NoMembersRendered();
    var rest := OneMember(y, 0x32, NoMembers);
    MemberRendered(y, 0x32, NoMembers);
    MoreRendered(y, 0x32, NoMembers);
    var ms := OneMember(x, 0x31, rest);
    MemberRendered(x, 0x31, rest);
    MoreRendered(x, 0x31, rest);
    var doc := Document([], Object([], ms), []);
    assert Render(doc.value) == TwoMembers(u, h0, h1, h2, h3);
    assert DistinctKeys(doc.value) <==> u != HexUnit(h0, h1, h2, h3);
    ReasonsOfJson(TwoMembers(u, h0, h1, h2, h3), doc);
  }

  lemma MoreRendered(c: Char, u: CodeUnit, rest: Members)
    ensures OneMember(c, u, rest).Member?
    ensures RenderMoreMembers(OneMember(c, u, rest)) == [0x2c] + RenderMembers(OneMember(c, u, rest))
  {
  }

  // ---------- nested arrays ----------

  function Repeat(u: CodeUnit, n: nat): (t: Text)
    ensures |t| == n && forall i | 0 <= i < n :: t[i] == u
  {
    seq(n, i => u)
  }

  function Nest(n: nat): Elements {
    if n == 0 then NoElements else Element([], Array([], Nest(n - 1)), [], NoElements)
  }

  lemma {:induction false} NestRendered(n: nat, d: nat)
    ensures ElementsWellFormed(Nest(n)) && ElementsDistinct(Nest(n)) && CountElements(Nest(n)) == n
    ensures RenderElements(Nest(n)) == Repeat(0x5b, n) + Repeat(0x5d, n + 1)
    ensures ElementsNested(Nest(n), d, MAX_DEPTH) <==> n == 0 || d + n - 1 <= MAX_DEPTH
  {
    if n > 0 {
      NestRendered(n - 1, d + 1);
      assert RenderMoreElements(NoElements) == [0x5d];
      assert Render(Array([], Nest(n - 1))) == [0x5b] + RenderElements(Nest(n - 1));
    }
  }

  /** Arrays nest up to 257 deep: with 256 containers around it a value is still read. */
  lemma NestingLimit(n: nat)
    requires n >= 1
    ensures Preflight(Repeat(0x5b, n) + Repeat(0x5d, n)) == if n <= 257 then None else Some(Limits)
  {
    hide Preflight;
    var doc := Document([], Array([], Nest(n - 1)), []);
    hide RenderElements, Nest, ElementsNested, CountElements, ElementsDistinct, ElementsWellFormed;
    NestRendered(n - 1, 1);
    assert Render(doc.value) == Repeat(0x5b, n) + Repeat(0x5d, n);
    assert NestedWithin(doc.value, 0, MAX_DEPTH) <==> n <= 257;
    assert Count(doc.value) == n && DistinctKeys(doc.value);
    ReasonsOfJson(Repeat(0x5b, n) + Repeat(0x5d, n), doc);
  }
}
