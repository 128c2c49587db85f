/**
  The concrete syntax of JSON texts (RFC 8259, sections 2 to 7) over UTF-16 code units, as trees
  that keep every byte of white space and every escape, so that rendering a tree is exact.
*/
module JsonGrammar {
  import opened Text

  const QUOTE := 0x22
  const BACKSLASH := 0x5c
  const MINUS := 0x2d
  const PLUS := 0x2b
  const POINT := 0x2e
  const ZERO := 0x30
  const COLON := 0x3a
  const COMMA := 0x2c
  const LBRACE := 0x7b
  const RBRACE := 0x7d
  const LBRACKET := 0x5b
  const RBRACKET := 0x5d
  const LOWER_U := 0x75
  const TRUE: Text := [0x74, 0x72, 0x75, 0x65]
  const FALSE: Text := [0x66, 0x61, 0x6c, 0x73, 0x65]
  const NULL: Text := [0x6e, 0x75, 0x6c, 0x6c]

  predicate IsWs(c: int) { c == 0x20 || c == 0x09 || c == 0x0a || c == 0x0d }

  predicate IsDigit(c: int) { 0x30 <= c <= 0x39 }

  predicate IsE(c: int) { c == 0x65 || c == 0x45 }

  predicate IsHex(c: int) { IsDigit(c) || 0x41 <= c <= 0x46 || 0x61 <= c <= 0x66 }

  /** The characters that may follow a reverse solidus, other than `u`: `"\/bfnrt`. */
  predicate IsSimpleEscape(c: int) {
    c == 0x22 || c == 0x5c || c == 0x2f || c == 0x62 || c == 0x66 || c == 0x6e || c == 0x72 || c == 0x74
  }

  function HexValue(c: CodeUnit): (v: nat)
    requires IsHex(c)
    ensures v < 16
  {
    if c <= 0x39 then c - 0x30 else if c <= 0x46 then c - 0x37 else c - 0x57
  }

  function HexUnit(a: CodeUnit, b: CodeUnit, c: CodeUnit, d: CodeUnit): CodeUnit
    requires IsHex(a) && IsHex(b) && IsHex(c) && IsHex(d)
  {
    HexValue(a) * 4096 + HexValue(b) * 256 + HexValue(c) * 16 + HexValue(d)
  }

  function EscapeValue(c: CodeUnit): CodeUnit {
    if c == 0x62 then 0x08
    else if c == 0x66 then 0x0c
    else if c == 0x6e then 0x0a
    else if c == 0x72 then 0x0d
    else if c == 0x74 then 0x09
    else c
  }

  datatype Char =
    | Unescaped(unit: CodeUnit)
    | Escaped(letter: CodeUnit)
    | Hex(h0: CodeUnit, h1: CodeUnit, h2: CodeUnit, h3: CodeUnit)
  {
    predicate WellFormed() {
      match this
      case Unescaped(u) => u >= 0x20 && u != QUOTE && u != BACKSLASH
      case Escaped(c) => IsSimpleEscape(c)
      case Hex(a, b, c, d) => IsHex(a) && IsHex(b) && IsHex(c) && IsHex(d)
    }

    function Render(): (t: Text)
      ensures |t| > 0
    {
      match this
      case Unescaped(u) => [u]
      case Escaped(c) => [BACKSLASH, c]
      case Hex(a, b, c, d) => [BACKSLASH, LOWER_U, a, b, c, d]
    }

    function Decode(): CodeUnit
      requires WellFormed()
    {
      match this
      case Unescaped(u) => u
      case Escaped(c) => EscapeValue(c)
      case Hex(a, b, c, d) => HexUnit(a, b, c, d)
    }
  }

  datatype Chars = Empty | Cons(head: Char, tail: Chars) {
    predicate WellFormed() { Cons? ==> head.WellFormed() && tail.WellFormed() }

    function Render(): Text {
      if Empty? then [] else head.Render() + tail.Render()
    }

    /** The string that the token stands for. */
    function Decode(): Text
      requires WellFormed()
    {
      if Empty? then [] else [head.Decode()] + tail.Decode()
    }
  }

  predicate AllWs(t: Text) { forall i | 0 <= i < |t| :: IsWs(t[i]) }

  predicate AllDigits(t: Text) { forall i | 0 <= i < |t| :: IsDigit(t[i]) }

  datatype Exponent = Exponent(e: CodeUnit, sign: Option<CodeUnit>, digits: Text) {
    predicate WellFormed() {
      IsE(e) && (sign.Some? ==> sign.value == PLUS || sign.value == MINUS) && |digits| > 0 && AllDigits(digits)
    }

    function Render(): Text {
      [e] + (if sign.Some? then [sign.value] else []) + digits
    }
  }

  datatype Number = Number(negative: bool, whole: Text, fraction: Option<Text>, exponent: Option<Exponent>) {
    predicate WellFormed() {
      && |whole| > 0 && AllDigits(whole) && (whole[0] == ZERO ==> |whole| == 1)
      && (fraction.Some? ==> |fraction.value| > 0 && AllDigits(fraction.value))
      && (exponent.Some? ==> exponent.value.WellFormed())
    }

    function Sign(): Text { if negative then [MINUS] else [] }

    function Fraction(): Text { if fraction.Some? then [POINT] + fraction.value else [] }

    function Power(): Text { if exponent.Some? then exponent.value.Render() else [] }

    function Render(): Text { Sign() + (whole + (Fraction() + Power())) }
  }

  datatype Value =
    | Object(pad: Text, members: Members)
    | Array(pad: Text, elements: Elements)
    | String(chars: Chars)
    | Numeral(number: Number)
    | True
    | False
    | Null

  datatype Members =
    | NoMembers
    | Member(before: Text, key: Chars, afterKey: Text, beforeValue: Text, value: Value, after: Text, rest: Members)

  datatype Elements =
    | NoElements
    | Element(before: Text, value: Value, after: Text, rest: Elements)

  ghost predicate WellFormed(v: Value)
    decreases v
  {
    match v
    case Object(pad, members) => AllWs(pad) && (members.Member? ==> pad == []) && MembersWellFormed(members)
    case Array(pad, elements) => AllWs(pad) && (elements.Element? ==> pad == []) && ElementsWellFormed(elements)
    case String(chars) => chars.WellFormed()
    case Numeral(number) => number.WellFormed()
    case _ => true
  }

  ghost predicate MembersWellFormed(ms: Members)
    decreases ms
  {
    ms.Member? ==>
      && AllWs(ms.before) && AllWs(ms.afterKey) && AllWs(ms.beforeValue) && AllWs(ms.after)
      && ms.key.WellFormed() && WellFormed(ms.value) && MembersWellFormed(ms.rest)
  }

  ghost predicate ElementsWellFormed(es: Elements)
    decreases es
  {
    es.Element? ==> AllWs(es.before) && AllWs(es.after) && WellFormed(es.value) && ElementsWellFormed(es.rest)
  }

  function RenderString(chars: Chars): Text { [QUOTE] + (chars.Render() + [QUOTE]) }

  ghost function Render(v: Value): Text
    decreases v
  {
    match v
    case Object(pad, members) => [LBRACE] + (pad + RenderMembers(members))
    case Array(pad, elements) => [LBRACKET] + (pad + RenderElements(elements))
    case String(chars) => RenderString(chars)
    case Numeral(number) => number.Render()
    case True => TRUE
    case False => FALSE
    case Null => NULL
  }

  /** The members up to and including the closing brace. */
  ghost function RenderMembers(ms: Members): Text
    decreases ms, 0
  {
    if ms.NoMembers? then [RBRACE]
    else
      ms.before + (RenderString(ms.key) + (ms.afterKey + ([COLON] + (ms.beforeValue + (Render(ms.value) +
      (ms.after + RenderMoreMembers(ms.rest)))))))
  }

  ghost function RenderMoreMembers(ms: Members): Text
    decreases ms, 1
  {
    if ms.NoMembers? then [RBRACE] else [COMMA] + RenderMembers(ms)
  }

  /** The elements up to and including the closing bracket. */
  ghost function RenderElements(es: Elements): Text
    decreases es, 0
  {
    if es.NoElements? then [RBRACKET]
    else es.before + (Render(es.value) + (es.after + RenderMoreElements(es.rest)))
  }

  ghost function RenderMoreElements(es: Elements): Text
    decreases es, 1
  {
    if es.NoElements? then [RBRACKET] else [COMMA] + RenderElements(es)
  }

  /** No object spells the same key twice, whatever escapes the two spellings use. */
  ghost predicate DistinctKeys(v: Value)
    requires WellFormed(v)
    decreases v
  {
    match v
    case Object(_, members) => MembersDistinct(members, {})
    case Array(_, elements) => ElementsDistinct(elements)
    case _ => true
  }

  ghost predicate MembersDistinct(ms: Members, earlier: set<Text>)
    requires MembersWellFormed(ms)
    decreases ms
  {
    ms.Member? ==>
      && ms.key.Decode() !in earlier
      && DistinctKeys(ms.value)
      && MembersDistinct(ms.rest, earlier + {ms.key.Decode()})
  }

  ghost predicate ElementsDistinct(es: Elements)
    requires ElementsWellFormed(es)
    decreases es
  {
    es.Element? ==> DistinctKeys(es.value) && ElementsDistinct(es.rest)
  }

  /** How many values the tree holds, itself included. */
  ghost function Count(v: Value): (n: nat)
    ensures n >= 1
    decreases v
  {
    match v
    case Object(_, members) => 1 + CountMembers(members)
    case Array(_, elements) => 1 + CountElements(elements)
    case _ => 1
  }

  ghost function CountMembers(ms: Members): nat
    decreases ms
  {
    if ms.NoMembers? then 0 else Count(ms.value) + CountMembers(ms.rest)
  }

  ghost function CountElements(es: Elements): nat
    decreases es
  {
    if es.NoElements? then 0 else Count(es.value) + CountElements(es.rest)
  }

  /** Every value below `v`, and `v` itself at depth `d`, has at most `limit` containers around it. */
  ghost predicate NestedWithin(v: Value, d: nat, limit: nat)
    decreases v
  {
    && d <= limit
    && match v
       case Object(_, members) => MembersNested(members, d + 1, limit)
       case Array(_, elements) => ElementsNested(elements, d + 1, limit)
       case _ => true
  }

  ghost predicate MembersNested(ms: Members, d: nat, limit: nat)
    decreases ms
  {
    ms.Member? ==> NestedWithin(ms.value, d, limit) && MembersNested(ms.rest, d, limit)
  }

  ghost predicate ElementsNested(es: Elements, d: nat, limit: nat)
    decreases es
  {
    es.Element? ==> NestedWithin(es.value, d, limit) && ElementsNested(es.rest, d, limit)
  }

  /** `s` stands in `t` at position `i`. */
  ghost predicate Has(t: Text, i: nat, s: Text) {
    i + |s| <= |t| && t[i..i + |s|] == s
  }

  lemma HasConcat(t: Text, i: nat, a: Text, b: Text)
    ensures Has(t, i, a + b) <==> Has(t, i, a) && Has(t, i + |a|, b)
  {
    if Has(t, i, a + b) {
      assert t[i..i + |a|] == (a + b)[..|a|] == a;
      assert t[i + |a|..i + |a| + |b|] == (a + b)[|a|..] == b;
    }
    if Has(t, i, a) && Has(t, i + |a|, b) {
      assert t[i..i + |a + b|] == t[i..i + |a|] + t[i + |a|..i + |a| + |b|];
    }
  }

  lemma HasAt(t: Text, i: nat, s: Text, k: nat)
    requires Has(t, i, s) && k < |s|
    ensures i + k < |t| && t[i + k] == s[k]
  {
    assert t[i..i + |s|][k] == t[i + k];
  }

  lemma HasConcatLeft(t: Text, i: nat, a: Text, b: Text, c: Text)
    ensures Has(t, i, (a + b) + c) <==> Has(t, i, a) && Has(t, i + |a|, b + c)
  {
    assert (a + b) + c == a + (b + c);
    HasConcat(t, i, a, b + c);
  }

  lemma HasConcat4(t: Text, i: nat, a: Text, b: Text, c: Text, d: Text)
    ensures Has(t, i, a + (b + (c + d))) <==>
            Has(t, i, a) && Has(t, i + |a|, b) && Has(t, i + |a| + |b|, c) && Has(t, i + |a| + |b| + |c|, d)
  {
    HasConcat(t, i, a, b + (c + d));
    HasConcat(t, i + |a|, b, c + d);
    HasConcat(t, i + |a| + |b|, c, d);
  }

  /** The pieces of a member in place: `p` up to `p7`, then whatever follows the member. */
  ghost predicate MemberAt(t: Text, p: nat, p1: nat, p2: nat, p3: nat, p4: nat, p5: nat, p6: nat, p7: nat, ms: Members)
    requires ms.Member?
  {
    && Has(t, p, ms.before) && p1 == p + |ms.before|
    && Has(t, p1, RenderString(ms.key)) && p2 == p1 + |RenderString(ms.key)|
    && Has(t, p2, ms.afterKey) && p3 == p2 + |ms.afterKey|
    && Has(t, p3, [COLON]) && p4 == p3 + 1
    && Has(t, p4, ms.beforeValue) && p5 == p4 + |ms.beforeValue|
    && Has(t, p5, Render(ms.value)) && p6 == p5 + |Render(ms.value)|
    && Has(t, p6, ms.after) && p7 == p6 + |ms.after|
  }

  lemma HasConcat8(t: Text, p: nat, a: Text, b: Text, c: Text, d: Text, e: Text, f: Text, g: Text, h: Text)
    ensures Has(t, p, a + (b + (c + (d + (e + (f + (g + h))))))) <==>
            && Has(t, p, a) && Has(t, p + |a|, b) && Has(t, p + |a| + |b|, c) && Has(t, p + |a| + |b| + |c|, d)
            && Has(t, p + |a| + |b| + |c| + |d|, e) && Has(t, p + |a| + |b| + |c| + |d| + |e|, f)
            && Has(t, p + |a| + |b| + |c| + |d| + |e| + |f|, g)
            && Has(t, p + |a| + |b| + |c| + |d| + |e| + |f| + |g|, h)
  {
    HasConcat4(t, p, a, b, c, d + (e + (f + (g + h))));
    var q := p + |a| + |b| + |c|;
    HasConcat(t, q, d, e + (f + (g + h)));
    HasConcat4(t, q + |d|, e, f, g, h);
  }

  lemma MemberParts(t: Text, p: nat, p1: nat, p2: nat, p3: nat, p4: nat, p5: nat, p6: nat, p7: nat, ms: Members)
    requires ms.Member?
    requires p1 == p + |ms.before| && p2 == p1 + |RenderString(ms.key)| && p3 == p2 + |ms.afterKey| && p4 == p3 + 1
    requires p5 == p4 + |ms.beforeValue| && p6 == p5 + |Render(ms.value)| && p7 == p6 + |ms.after|
    ensures Has(t, p, RenderMembers(ms)) <==>
            MemberAt(t, p, p1, p2, p3, p4, p5, p6, p7, ms) && Has(t, p7, RenderMoreMembers(ms.rest))
    ensures p + |RenderMembers(ms)| == p7 + |RenderMoreMembers(ms.rest)|
  {
    hide Has, Render, RenderString;
    HasConcat8(t, p, ms.before, RenderString(ms.key), ms.afterKey, [COLON], ms.beforeValue, Render(ms.value), ms.after,
               RenderMoreMembers(ms.rest));
  }
}
