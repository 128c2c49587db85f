/** The recogniser accepts exactly the JSON texts of the grammar with distinct keys, within the limits. */
module TraceJsonProof {
  import opened Text
  import opened JsonGrammar
  import opened TraceJsonSpec

  // ---------- strings ----------

  lemma UnescapeStep(t: Text, i: nat, end: nat, c: Char)
    requires c.WellFormed() && Has(t, i, c.Render()) && i + |c.Render()| <= end <= |t|
    ensures Unescape(t, i, end) == [c.Decode()] + Unescape(t, i + |c.Render()|, end)
  {
    var h := c.Render();
    HasAt(t, i, h, 0);
    if !c.Unescaped? {
      HasAt(t, i, h, 1);
    }
    if c.Hex? {
      HasAt(t, i, h, 2);
      HasAt(t, i, h, 3);
      HasAt(t, i, h, 4);
      HasAt(t, i, h, 5);
    }
  }

  lemma UnescapeEnd(t: Text, i: nat)
    requires i <= |t|
    ensures Unescape(t, i, i) == []
  {
  }

  lemma {:induction false} UnescapeRendered(t: Text, i: nat, cs: Chars, end: nat)
    requires cs.WellFormed() && Has(t, i, cs.Render()) && end == i + |cs.Render()|
    ensures Unescape(t, i, end) == cs.Decode()
    decreases cs
  {
    hide Unescape;
    if cs.Cons? {
      HasConcat(t, i, cs.head.Render(), cs.tail.Render());
      UnescapeRendered(t, i + |cs.head.Render()|, cs.tail, end);
      UnescapeStep(t, i, end, cs.head);
    } else {
      UnescapeEnd(t, i);
    }
  }

  /** One character of a string token, scanned. */
  lemma CharStep(t: Text, i: nat, c: Char)
    requires c.WellFormed() && Has(t, i, c.Render())
    ensures ScanChars(t, i) == ScanChars(t, i + |c.Render()|)
  {
    var h := c.Render();
    HasAt(t, i, h, 0);
    if !c.Unescaped? {
      HasAt(t, i, h, 1);
    }
    if c.Hex? {
      HasAt(t, i, h, 2);
      HasAt(t, i, h, 3);
      HasAt(t, i, h, 4);
      HasAt(t, i, h, 5);
    }
  }

  lemma {:induction false} CharsComplete(t: Text, i: nat, cs: Chars)
    requires cs.WellFormed() && Has(t, i, cs.Render() + [QUOTE])
    ensures ScanChars(t, i) == Some(i + |cs.Render()| + 1)
    decreases cs
  {
    hide ScanChars;
    if cs.Cons? {
      var h := cs.head.Render();
      HasConcatLeft(t, i, h, cs.tail.Render(), [QUOTE]);
      CharsComplete(t, i + |h|, cs.tail);
      CharStep(t, i, cs.head);
    } else {
      HasAt(t, i, [QUOTE], 0);
      CharsEnd(t, i);
    }
  }

  lemma CharsEnd(t: Text, i: nat)
    requires At(t, i) == QUOTE
    ensures ScanChars(t, i) == Some(i + 1)
  {
  }

  function FirstChar(t: Text, i: nat): (c: Char)
    requires ScanChars(t, i).Some? && t[i] != QUOTE
    ensures c.WellFormed() && i + |c.Render()| <= |t| && t[i..i + |c.Render()|] == c.Render()
  {
    if t[i] != BACKSLASH then Unescaped(t[i])
    else if t[i + 1] == LOWER_U then Hex(t[i + 2], t[i + 3], t[i + 4], t[i + 5])
    else Escaped(t[i + 1])
  }

  lemma SplitChar(t: Text, i: nat) returns (c: Char, j: nat)
    requires ScanChars(t, i).Some? && t[i] != QUOTE
    ensures c.WellFormed() && Has(t, i, c.Render()) && j == i + |c.Render()|
    ensures ScanChars(t, i) == ScanChars(t, j)
  {
    c := FirstChar(t, i);
    j := i + |c.Render()|;
    CharStep(t, i, c);
  }

  lemma ConsChars(t: Text, i: nat, c: Char, tail: Chars)
    requires Has(t, i, c.Render()) && Has(t, i + |c.Render()|, tail.Render() + [QUOTE])
    ensures Has(t, i, Cons(c, tail).Render() + [QUOTE])
    ensures |Cons(c, tail).Render()| == |c.Render()| + |tail.Render()|
  {
    var h, r := c.Render(), tail.Render();
    HasConcatLeft(t, i, h, r, [QUOTE]);
    assert Cons(c, tail).Render() == h + r;
  }

  lemma {:induction false} CharsSound(t: Text, i: nat, end: nat) returns (cs: Chars)
    requires ScanChars(t, i) == Some(end)
    ensures cs.WellFormed() && Has(t, i, cs.Render() + [QUOTE])
    ensures end == i + |cs.Render()| + 1
    decreases |t| - i
  {
    if t[i] == QUOTE {
      cs := Empty;
    } else {
      var c, j := SplitChar(t, i);
      var tail := CharsSound(t, j, end);
      ConsChars(t, i, c, tail);
      cs := Cons(c, tail);
    }
  }

  lemma StringComplete(t: Text, i: nat, cs: Chars, end: nat)
    requires cs.WellFormed() && Has(t, i, RenderString(cs)) && end == i + |RenderString(cs)|
    ensures At(t, i) == QUOTE && ScanString(t, i) == Some(end)
    ensures Unescape(t, i + 1, end - 1) == cs.Decode()
  {
    hide ScanChars, Unescape;
    HasConcat(t, i, [QUOTE], cs.Render() + [QUOTE]);
    HasAt(t, i, [QUOTE], 0);
    CharsComplete(t, i + 1, cs);
    HasConcat(t, i + 1, cs.Render(), [QUOTE]);
    UnescapeRendered(t, i + 1, cs, end - 1);
  }

  lemma StringSound(t: Text, i: nat, end: nat) returns (cs: Chars)
    requires ScanString(t, i) == Some(end)
    ensures cs.WellFormed() && Has(t, i, RenderString(cs))
    ensures end == i + |RenderString(cs)|
  {
    cs := CharsSound(t, i + 1, end);
    HasConcat(t, i, [QUOTE], cs.Render() + [QUOTE]);
  }

  // ---------- white space, digits, words ----------

  lemma {:induction false} WsComplete(t: Text, i: nat, w: Text)
    requires AllWs(w) && Has(t, i, w) && !IsWs(At(t, i + |w|))
    ensures SkipWs(t, i) == i + |w|
    decreases |w|
  {
    if w != [] {
      HasConcat(t, i, w[..1], w[1..]);
      assert w == w[..1] + w[1..];
      assert t[i] == t[i..i + 1][0] == w[0];
      WsComplete(t, i + 1, w[1..]);
    }
  }

  lemma {:induction false} WsSound(t: Text, i: nat)
    requires i <= |t|
    ensures AllWs(t[i..SkipWs(t, i)]) && Has(t, i, t[i..SkipWs(t, i)])
    decreases |t| - i
  {
    if IsWs(At(t, i)) {
      WsSound(t, i + 1);
      assert t[i..SkipWs(t, i)] == [t[i]] + t[i + 1..SkipWs(t, i)];
    }
  }

  lemma {:induction false} DigitsComplete(t: Text, i: nat, w: Text)
    requires AllDigits(w) && Has(t, i, w) && !IsDigit(At(t, i + |w|))
    ensures SkipDigits(t, i) == i + |w|
    decreases |w|
  {
    if w != [] {
      HasConcat(t, i, w[..1], w[1..]);
      assert w == w[..1] + w[1..];
      assert t[i] == t[i..i + 1][0] == w[0];
      DigitsComplete(t, i + 1, w[1..]);
    }
  }

  lemma {:induction false} DigitsSound(t: Text, i: nat)
    requires i <= |t|
    ensures AllDigits(t[i..SkipDigits(t, i)]) && Has(t, i, t[i..SkipDigits(t, i)])
    decreases |t| - i
  {
    if IsDigit(At(t, i)) {
      DigitsSound(t, i + 1);
      assert t[i..SkipDigits(t, i)] == [t[i]] + t[i + 1..SkipDigits(t, i)];
    }
  }

  /** What may come after a value: the end of the text, white space, or a structural character. */
  predicate Follow(c: int) {
    c == NAN || IsWs(c) || c == COMMA || c == RBRACE || c == RBRACKET
  }

  // ---------- numbers ----------

  lemma ExponentPieces(t: Text, i: nat, p: Exponent, k: nat, end: nat)
    requires p.WellFormed() && Has(t, i, p.Render())
    requires k == (if p.sign.Some? then i + 2 else i + 1) && end == i + |p.Render()|
    ensures At(t, i) == p.e && Has(t, k, p.digits) && end == k + |p.digits|
    ensures p.sign.Some? ==> At(t, i + 1) == p.sign.value
  {
    var sign := if p.sign.Some? then [p.sign.value] else [];
    HasConcatLeft(t, i, [p.e], sign, p.digits);
    HasConcat(t, i + 1, sign, p.digits);
    HasAt(t, i, [p.e], 0);
    if p.sign.Some? {
      HasAt(t, i + 1, sign, 0);
    }
  }

  lemma ExponentComplete(t: Text, i: nat, x: Number, end: nat)
    requires x.WellFormed() && Has(t, i, x.Power()) && end == i + |x.Power()| && Follow(At(t, end))
    ensures ScanExponent(t, i) == Some(end)
    ensures !IsDigit(At(t, i)) && At(t, i) != POINT
  {
    if x.exponent.Some? {
      var p := x.exponent.value;
      var k := if p.sign.Some? then i + 2 else i + 1;
      ExponentPieces(t, i, p, k, end);
      HasAt(t, k, p.digits, 0);
      DigitsComplete(t, k, p.digits);
    }
  }

  lemma FractionComplete(t: Text, i: nat, x: Number, end: nat)
    requires x.WellFormed() && Has(t, i, x.Fraction()) && end == i + |x.Fraction()|
    requires !IsDigit(At(t, end)) && At(t, end) != POINT
    ensures ScanFraction(t, i) == Some(end)
    ensures !IsDigit(At(t, i))
  {
    if x.fraction.Some? {
      var f := x.fraction.value;
      HasConcat(t, i, [POINT], f);
      HasAt(t, i, [POINT], 0);
      DigitsComplete(t, i + 1, f);
    }
  }

  lemma WholeComplete(t: Text, i: nat, x: Number, end: nat)
    requires x.WellFormed() && Has(t, i, x.whole) && end == i + |x.whole| && !IsDigit(At(t, end))
    ensures ScanWhole(t, i) == Some(end)
    ensures IsDigit(At(t, i))
  {
    HasAt(t, i, x.whole, 0);
    if x.whole[0] != ZERO {
      HasConcat(t, i, x.whole[..1], x.whole[1..]);
      assert x.whole == x.whole[..1] + x.whole[1..];
      DigitsComplete(t, i + 1, x.whole[1..]);
    }
  }

  /** The parts of a numeral in place, from `i`, `j`, `k` and `f` up to `end`. */
  ghost predicate NumberAt(t: Text, i: nat, j: nat, k: nat, f: nat, end: nat, x: Number) {
    && Has(t, i, x.Sign()) && j == i + |x.Sign()|
    && Has(t, j, x.whole) && k == j + |x.whole|
    && Has(t, k, x.Fraction()) && f == k + |x.Fraction()|
    && Has(t, f, x.Power()) && end == f + |x.Power()|
  }

  lemma NumberParts(t: Text, i: nat, j: nat, k: nat, f: nat, end: nat, x: Number)
    requires j == i + |x.Sign()| && k == j + |x.whole| && f == k + |x.Fraction()| && end == f + |x.Power()|
    ensures Has(t, i, x.Render()) <==> NumberAt(t, i, j, k, f, end, x)
    ensures end == i + |x.Render()|
  {
    hide Has;
    HasConcat4(t, i, x.Sign(), x.whole, x.Fraction(), x.Power());
  }

  lemma NumberStart(t: Text, i: nat, j: nat, x: Number)
    requires x.WellFormed() && Has(t, i, x.Sign()) && j == i + |x.Sign()| && IsDigit(At(t, j))
    ensures i < |t| && (t[i] == MINUS <==> x.negative) && (!x.negative ==> IsDigit(t[i]))
  {
    if x.negative {
      HasAt(t, i, x.Sign(), 0);
    }
  }

  lemma NumberComplete(t: Text, i: nat, x: Number, end: nat)
    requires x.WellFormed() && Has(t, i, x.Render()) && end == i + |x.Render()| && Follow(At(t, end))
    ensures i < |t| && (t[i] == MINUS || IsDigit(t[i]))
    ensures ScanNumber(t, i) == Some(end)
  {
    hide Has;
    var j := i + |x.Sign()|;
    var k := j + |x.whole|;
    var f := k + |x.Fraction()|;
    NumberParts(t, i, j, k, f, f + |x.Power()|, x);
    ExponentComplete(t, f, x, end);
    FractionComplete(t, k, x, f);
    WholeComplete(t, j, x, k);
    NumberStart(t, i, j, x);
  }

  lemma ExponentSound(t: Text, i: nat, end: nat) returns (x: Option<Exponent>)
    requires i <= |t| && ScanExponent(t, i) == Some(end)
    ensures x.Some? ==> x.value.WellFormed()
    ensures Has(t, i, if x.Some? then x.value.Render() else [])
    ensures end == i + |if x.Some? then x.value.Render() else []|
  {
    if !IsE(At(t, i)) {
      x := None;
    } else {
      var sign := if At(t, i + 1) == PLUS || At(t, i + 1) == MINUS then Some(t[i + 1]) else None;
      var k := if sign.Some? then i + 2 else i + 1;
      DigitsSound(t, k);
      var p := Exponent(t[i], sign, t[k..end]);
      assert t[i..end] == p.Render();
      x := Some(p);
    }
  }

  lemma FractionSound(t: Text, i: nat, end: nat) returns (x: Option<Text>)
    requires i <= |t| && ScanFraction(t, i) == Some(end)
    ensures x.Some? ==> |x.value| > 0 && AllDigits(x.value)
    ensures Has(t, i, if x.Some? then [POINT] + x.value else [])
    ensures end == i + |if x.Some? then [POINT] + x.value else []|
  {
    if At(t, i) != POINT {
      x := None;
    } else {
      DigitsSound(t, i + 1);
      x := Some(t[i + 1..end]);
    }
  }

  lemma WholeSound(t: Text, i: nat, end: nat) returns (w: Text)
    requires i <= |t| && ScanWhole(t, i) == Some(end) && end <= |t|
    ensures |w| > 0 && AllDigits(w) && (w[0] == ZERO ==> |w| == 1)
    ensures Has(t, i, w) && end == i + |w|
  {
    DigitsSound(t, i + 1);
    w := t[i..end];
    assert w == [t[i]] + t[i + 1..end];
  }

  lemma NumberPieces(t: Text, i: nat, j: nat, end: nat) returns (x: Number, k: nat, f: nat)
    requires i < |t| && ScanNumber(t, i) == Some(end) && end <= |t|
    requires j == if t[i] == MINUS then i + 1 else i
    ensures x.WellFormed() && Has(t, i, x.Sign()) && j == i + |x.Sign()|
    ensures Has(t, j, x.whole) && k == j + |x.whole|
    ensures Has(t, k, x.Fraction()) && f == k + |x.Fraction()|
    ensures Has(t, f, x.Power()) && end == f + |x.Power()|
  {
    k := ScanWhole(t, j).value;
    f := ScanFraction(t, k).value;
    var whole := WholeSound(t, j, k);
    var fraction := FractionSound(t, k, f);
    var exponent := ExponentSound(t, f, end);
    x := Number(t[i] == MINUS, whole, fraction, exponent);
  }

  lemma NumberSound(t: Text, i: nat, end: nat) returns (x: Number)
    requires i < |t| && ScanNumber(t, i) == Some(end) && end <= |t|
    ensures x.WellFormed() && Has(t, i, x.Render())
    ensures end == i + |x.Render()|
  {
    hide Has;
    var j := if t[i] == MINUS then i + 1 else i;
    var k, f;
    x, k, f := NumberPieces(t, i, j, end);
    NumberParts(t, i, j, k, f, end, x);
  }

  // ---------- completeness: every text of the grammar within the limits is accepted ----------

  /** The first character decides which kind of value it is; it is never white space. */
  lemma FirstOf(v: Value)
    requires WellFormed(v)
    ensures |Render(v)| > 0 && !IsWs(Render(v)[0])
    ensures v.Object? ==> Render(v)[0] == LBRACE
    ensures v.Array? ==> Render(v)[0] == LBRACKET
    ensures v.String? ==> Render(v)[0] == QUOTE
    ensures v.Numeral? ==> Render(v)[0] == MINUS || IsDigit(Render(v)[0])
  {
    if v.Numeral? {
      var x := v.number;
      assert x.Render()[0] == if x.negative then MINUS else x.whole[0];
    }
  }

  lemma WordComplete(t: Text, i: nat, word: Text)
    requires Has(t, i, word)
    ensures StartsWith(t, i, word)
  {
    assert t[i..i + |word|] == word;
  }

  lemma MoreMembersStart(ms: Members)
    ensures |RenderMoreMembers(ms)| > 0
    ensures RenderMoreMembers(ms)[0] == if ms.NoMembers? then RBRACE else COMMA
  {
  }

  lemma MoreElementsStart(es: Elements)
    ensures |RenderMoreElements(es)| > 0
    ensures RenderMoreElements(es)[0] == if es.NoElements? then RBRACKET else COMMA
  {
  }

  /** What the value at `j` is read as, by its first character. */
  function ScanKind(t: Text, j: nat, n: nat, depth: nat): Scan
    requires j < |t|
  {
    var c := t[j];
    if c == LBRACE then ScanObject(t, j, n + 1, depth + 1)
    else if c == LBRACKET then ScanArray(t, j, n + 1, depth + 1)
    else if c == QUOTE then Lift(ScanString(t, j), n + 1)
    else if c == MINUS || IsDigit(c) then Lift(ScanNumber(t, j), n + 1)
    else if StartsWith(t, j, TRUE) then Success((j + 4, n + 1))
    else if StartsWith(t, j, FALSE) then Success((j + 5, n + 1))
    else if StartsWith(t, j, NULL) then Success((j + 4, n + 1))
    else Failure(Syntax)
  }

  lemma ValueStep(t: Text, i: nat, j: nat, n: nat, depth: nat, r: Scan)
    requires i <= |t| && SkipWs(t, i) == j && j < |t| && r == ScanValue(t, i, n, depth)
    requires n + 1 <= MAX_NODES && depth <= MAX_DEPTH
    ensures r == ScanKind(t, j, n, depth)
  {
  }

  lemma WordsComplete(t: Text, j: nat, v: Value, n: nat, depth: nat, end: nat)
    requires v.True? || v.False? || v.Null?
    requires Has(t, j, Render(v)) && end == j + |Render(v)|
    ensures j < |t| && ScanKind(t, j, n, depth) == Success((end, n + 1))
  {
    WordComplete(t, j, Render(v));
    HasAt(t, j, Render(v), 0);
  }

  lemma {:induction false} ValueComplete(t: Text, i: nat, j: nat, w: Text, v: Value, n: nat, depth: nat, end: nat,
                                         r: Scan)
    requires WellFormed(v) && DistinctKeys(v) && NestedWithin(v, depth, MAX_DEPTH) && n + Count(v) <= MAX_NODES
    requires AllWs(w) && Has(t, i, w) && j == i + |w| && Has(t, j, Render(v)) && end == j + |Render(v)|
    requires Follow(At(t, end)) && r == ScanValue(t, i, n, depth)
    ensures r == Success((end, n + Count(v)))
    decreases v, 2
  {
    FirstOf(v);
    HasAt(t, j, Render(v), 0);
    WsComplete(t, i, w);
    ValueStep(t, i, j, n, depth, r);
    KindComplete(t, j, v, n, depth, end);
  }

  lemma {:induction false} KindComplete(t: Text, j: nat, v: Value, n: nat, depth: nat, end: nat)
    requires WellFormed(v) && DistinctKeys(v) && NestedWithin(v, depth, MAX_DEPTH) && n + Count(v) <= MAX_NODES
    requires j < |t| && Has(t, j, Render(v)) && end == j + |Render(v)| && Follow(At(t, end))
    ensures ScanKind(t, j, n, depth) == Success((end, n + Count(v)))
    decreases v, 1
  {
    hide ScanObject, ScanArray, ScanString, ScanNumber, SkipWs, Has;
    FirstOf(v);
    HasAt(t, j, Render(v), 0);
    match v {
      case Object(_, _) => ObjectComplete(t, j, v, n + 1, depth + 1, end, ScanObject(t, j, n + 1, depth + 1));
      case Array(_, _) => ArrayComplete(t, j, v, n + 1, depth + 1, end, ScanArray(t, j, n + 1, depth + 1));
      case String(chars) => StringComplete(t, j, chars, end);
      case Numeral(x) => NumberComplete(t, j, x, end);
      case _ => WordsComplete(t, j, v, n, depth, end);
    }
  }

  lemma PadComplete(t: Text, i: nat, pad: Text, c: CodeUnit)
    requires AllWs(pad) && Has(t, i, pad + [c]) && !IsWs(c)
    ensures SkipWs(t, i) == i + |pad| && At(t, i + |pad|) == c
  {
    HasConcat(t, i, pad, [c]);
    HasAt(t, i + |pad|, [c], 0);
    WsComplete(t, i, pad);
  }

  lemma {:induction false} ObjectComplete(t: Text, i: nat, v: Value, n: nat, depth: nat, end: nat, r: Scan)
    requires v.Object? && WellFormed(v) && MembersDistinct(v.members, {})
    requires MembersNested(v.members, depth, MAX_DEPTH) && n + CountMembers(v.members) <= MAX_NODES
    requires Has(t, i, Render(v)) && end == i + |Render(v)| && i < |t| && r == ScanObject(t, i, n, depth)
    ensures r == Success((end, n + CountMembers(v.members)))
    decreases v, 0
  {
    hide ScanMembers, SkipWs;
    var ms := v.members;
    HasConcat(t, i, [LBRACE], v.pad + RenderMembers(ms));
    if ms.NoMembers? {
      PadComplete(t, i + 1, v.pad, RBRACE);
    } else {
      assert v.pad + RenderMembers(ms) == RenderMembers(ms);
      var j := SkipWs(t, i + 1);
      MembersComplete(t, i + 1, ms, n, depth, {}, end,
                      ScanMembers(t, i + 1, n, depth, {}), ScanMembers(t, j, n, depth, {}));
    }
  }

  /** One turn of the member loop, with every intermediate position named. */
  lemma MembersStep(t: Text, i: nat, k: nat, v: nat, w: nat,
                    n: nat, m: nat, depth: nat, keys: set<Text>, key: Text, r: Scan)
    requires i <= |t| && ScanKey(t, i, keys) == Success((k, key))
    requires ScanValue(t, k, n, depth) == Success((v, m)) && SkipWs(t, v) == w < |t|
    requires r == ScanMembers(t, i, n, depth, keys)
    ensures At(t, w) == RBRACE ==> r == Success((w + 1, m))
    ensures At(t, w) == COMMA ==> r == ScanMembers(t, w + 1, m, depth, keys + {key})
  {
  }

  /** The member list reads the same from `i` and from the end of the white space at `i`. */
  lemma {:induction false} MembersComplete(t: Text, i: nat, ms: Members, n: nat, depth: nat, keys: set<Text>, end: nat,
                                           r: Scan, r': Scan)
    requires ms.Member? && MembersWellFormed(ms) && MembersDistinct(ms, keys)
    requires MembersNested(ms, depth, MAX_DEPTH) && n + CountMembers(ms) <= MAX_NODES
    requires Has(t, i, RenderMembers(ms)) && end == i + |RenderMembers(ms)|
    requires r == ScanMembers(t, i, n, depth, keys) && r' == ScanMembers(t, SkipWs(t, i), n, depth, keys)
    ensures r == r' == Success((end, n + CountMembers(ms))) && At(t, SkipWs(t, i)) == QUOTE
    decreases ms
  {
    hide ScanMembers, ScanElements, ScanValue, ScanKey, ScanString, SkipWs, Has, Render, RenderString;
    var p1 := i + |ms.before|;
    var p2 := p1 + |RenderString(ms.key)|;
    var p3 := p2 + |ms.afterKey|;
    var p5 := p3 + 1 + |ms.beforeValue|;
    var p6 := p5 + |Render(ms.value)|;
    var p7 := p6 + |ms.after|;
    var m := n + Count(ms.value);
    var key := ms.key.Decode();
    MemberParts(t, i, p1, p2, p3, p3 + 1, p5, p6, p7, ms);
    KeyComplete(t, i, p1, p2, p3, ms, keys);
    MemberTail(t, p6, p7, ms);
    ValueComplete(t, p3 + 1, p5, ms.beforeValue, ms.value, n, depth, p6, ScanValue(t, p3 + 1, n, depth));
    MembersStep(t, i, p3 + 1, p6, p7, n, m, depth, keys, key, r);
    MembersStep(t, p1, p3 + 1, p6, p7, n, m, depth, keys, key, r');
    if ms.rest.Member? {
      HasConcat(t, p7, [COMMA], RenderMembers(ms.rest));
      MembersComplete(t, p7 + 1, ms.rest, m, depth, keys + {key}, end, r,
                      ScanMembers(t, SkipWs(t, p7 + 1), m, depth, keys + {key}));
    }
  }

  lemma KeyComplete(t: Text, i: nat, p1: nat, p2: nat, p3: nat, ms: Members, keys: set<Text>)
    requires ms.Member? && MembersWellFormed(ms) && ms.key.Decode() !in keys
    requires Has(t, i, ms.before) && p1 == i + |ms.before|
    requires Has(t, p1, RenderString(ms.key)) && p2 == p1 + |RenderString(ms.key)|
    requires Has(t, p2, ms.afterKey) && p3 == p2 + |ms.afterKey| && Has(t, p3, [COLON])
    ensures p1 < |t| && SkipWs(t, i) == p1 && t[p1] == QUOTE
    ensures ScanKey(t, i, keys) == ScanKey(t, p1, keys) == Success((p3 + 1, ms.key.Decode()))
  {
    hide RenderString, SkipWs, ScanString, Unescape, Has;
    StringComplete(t, p1, ms.key, p2);
    HasAt(t, p3, [COLON], 0);
    WsComplete(t, p1, []);
    WsComplete(t, i, ms.before);
    WsComplete(t, p2, ms.afterKey);
  }

  lemma MemberTail(t: Text, p6: nat, p7: nat, ms: Members)
    requires ms.Member? && MembersWellFormed(ms)
    requires Has(t, p6, ms.after) && p7 == p6 + |ms.after| && Has(t, p7, RenderMoreMembers(ms.rest))
    ensures Follow(At(t, p6)) && SkipWs(t, p6) == p7
    ensures At(t, p7) == if ms.rest.NoMembers? then RBRACE else COMMA
    ensures |RenderMoreMembers(ms.rest)| == if ms.rest.NoMembers? then 1 else 1 + |RenderMembers(ms.rest)|
  {
    MoreMembersStart(ms.rest);
    HasAt(t, p7, RenderMoreMembers(ms.rest), 0);
    WsComplete(t, p6, ms.after);
    if ms.after != [] {
      HasAt(t, p6, ms.after, 0);
    }
  }

  lemma {:induction false} ArrayComplete(t: Text, i: nat, v: Value, n: nat, depth: nat, end: nat, r: Scan)
    requires v.Array? && WellFormed(v) && ElementsDistinct(v.elements)
    requires ElementsNested(v.elements, depth, MAX_DEPTH) && n + CountElements(v.elements) <= MAX_NODES
    requires Has(t, i, Render(v)) && end == i + |Render(v)| && i < |t| && r == ScanArray(t, i, n, depth)
    ensures r == Success((end, n + CountElements(v.elements)))
    decreases v, 0
  {
    hide ScanElements, SkipWs;
    var es := v.elements;
    HasConcat(t, i, [LBRACKET], v.pad + RenderElements(es));
    if es.NoElements? {
      PadComplete(t, i + 1, v.pad, RBRACKET);
    } else {
      assert v.pad + RenderElements(es) == RenderElements(es);
      var j := SkipWs(t, i + 1);
      ElementsComplete(t, i + 1, es, n, depth, end, ScanElements(t, i + 1, n, depth), ScanElements(t, j, n, depth));
    }
  }

  /** One turn of the element loop. */
  lemma ElementsStep(t: Text, i: nat, v: nat, w: nat, n: nat, m: nat, depth: nat, r: Scan)
    requires i <= |t| && ScanValue(t, i, n, depth) == Success((v, m)) && SkipWs(t, v) == w < |t|
    requires r == ScanElements(t, i, n, depth)
    ensures At(t, w) == RBRACKET ==> r == Success((w + 1, m))
    ensures At(t, w) == COMMA ==> r == ScanElements(t, w + 1, m, depth)
  {
  }

  lemma ElementParts(t: Text, p: nat, p1: nat, p2: nat, p3: nat, es: Elements)
    requires es.Element? && p1 == p + |es.before| && p2 == p1 + |Render(es.value)| && p3 == p2 + |es.after|
    ensures Has(t, p, RenderElements(es)) <==>
            Has(t, p, es.before) && Has(t, p1, Render(es.value)) && Has(t, p2, es.after) &&
            Has(t, p3, RenderMoreElements(es.rest))
    ensures p + |RenderElements(es)| == p3 + |RenderMoreElements(es.rest)|
  {
    HasConcat4(t, p, es.before, Render(es.value), es.after, RenderMoreElements(es.rest));
  }

  /** The element list reads the same from `i` and from the end of the white space at `i`. */
  lemma {:induction false} ElementsComplete(t: Text, i: nat, es: Elements, n: nat, depth: nat, end: nat, r: Scan,
                                            r': Scan)
    requires es.Element? && ElementsWellFormed(es) && ElementsDistinct(es)
    requires ElementsNested(es, depth, MAX_DEPTH) && n + CountElements(es) <= MAX_NODES
    requires Has(t, i, RenderElements(es)) && end == i + |RenderElements(es)|
    requires r == ScanElements(t, i, n, depth) && r' == ScanElements(t, SkipWs(t, i), n, depth)
    ensures r == r' == Success((end, n + CountElements(es))) && At(t, SkipWs(t, i)) != RBRACKET
    decreases es
  {
    hide ScanMembers, ScanElements, ScanValue, ScanKey, ScanString, SkipWs, Has, Render, RenderString;
    var p1 := i + |es.before|;
    var p2 := p1 + |Render(es.value)|;
    var p3 := p2 + |es.after|;
    var m := n + Count(es.value);
    ElementParts(t, i, p1, p2, p3, es);
    ElementTail(t, p2, p3, es);
    ElementHead(t, i, p1, es);
    ValueComplete(t, i, p1, es.before, es.value, n, depth, p2, ScanValue(t, i, n, depth));
    ValueComplete(t, p1, p1, [], es.value, n, depth, p2, ScanValue(t, p1, n, depth));
    ElementsStep(t, i, p2, p3, n, m, depth, r);
    ElementsStep(t, p1, p2, p3, n, m, depth, r');
    if es.rest.Element? {
      HasConcat(t, p3, [COMMA], RenderElements(es.rest));
      ElementsComplete(t, p3 + 1, es.rest, m, depth, end, r, ScanElements(t, SkipWs(t, p3 + 1), m, depth));
    }
  }

  lemma ElementHead(t: Text, i: nat, p1: nat, es: Elements)
    requires es.Element? && ElementsWellFormed(es)
    requires Has(t, i, es.before) && p1 == i + |es.before| && Has(t, p1, Render(es.value))
    ensures SkipWs(t, i) == p1 && At(t, p1) != RBRACKET
  {
    FirstOf(es.value);
    HasAt(t, p1, Render(es.value), 0);
    WsComplete(t, i, es.before);
  }

  lemma ElementTail(t: Text, p6: nat, p7: nat, es: Elements)
    requires es.Element? && ElementsWellFormed(es)
    requires Has(t, p6, es.after) && p7 == p6 + |es.after| && Has(t, p7, RenderMoreElements(es.rest))
    ensures Follow(At(t, p6)) && SkipWs(t, p6) == p7
    ensures At(t, p7) == if es.rest.NoElements? then RBRACKET else COMMA
    ensures |RenderMoreElements(es.rest)| == if es.rest.NoElements? then 1 else 1 + |RenderElements(es.rest)|
  {
    MoreElementsStart(es.rest);
    HasAt(t, p7, RenderMoreElements(es.rest), 0);
    WsComplete(t, p6, es.after);
    if es.after != [] {
      HasAt(t, p6, es.after, 0);
    }
  }

  // ---------- soundness: every accepted text has a tree ----------

  /** A value in place, after white space, with the bounds that the scan checked. */
  ghost predicate ValueAt(t: Text, i: nat, j: nat, w: Text, v: Value, n: nat, depth: nat, end: nat, m: nat) {
    && AllWs(w) && Has(t, i, w) && j == i + |w|
    && KindAt(t, j, v, n, depth, end, m)
  }

  ghost predicate KindAt(t: Text, j: nat, v: Value, n: nat, depth: nat, end: nat, m: nat) {
    && WellFormed(v) && Has(t, j, Render(v)) && end == j + |Render(v)|
    && DistinctKeys(v) && NestedWithin(v, depth, MAX_DEPTH) && m == n + Count(v) <= MAX_NODES
  }

  ghost predicate MembersAt(t: Text, i: nat, ms: Members, n: nat, depth: nat, keys: set<Text>, end: nat, m: nat) {
    && ms.Member? && MembersWellFormed(ms) && Has(t, i, RenderMembers(ms)) && end == i + |RenderMembers(ms)|
    && MembersDistinct(ms, keys) && MembersNested(ms, depth, MAX_DEPTH) && m == n + CountMembers(ms) <= MAX_NODES
  }

  ghost predicate ElementsAt(t: Text, i: nat, es: Elements, n: nat, depth: nat, end: nat, m: nat) {
    && es.Element? && ElementsWellFormed(es) && Has(t, i, RenderElements(es)) && end == i + |RenderElements(es)|
    && ElementsDistinct(es) && ElementsNested(es, depth, MAX_DEPTH) && m == n + CountElements(es) <= MAX_NODES
  }

  lemma WsAt(t: Text, i: nat, j: nat) returns (w: Text)
    requires i <= |t| && SkipWs(t, i) == j
    ensures AllWs(w) && Has(t, i, w) && j == i + |w| && j <= |t|
  {
    WsSound(t, i);
    w := t[i..j];
  }

  lemma ValueUnstep(t: Text, i: nat, j: nat, n: nat, depth: nat, r: Scan)
    requires i <= |t| && SkipWs(t, i) == j && r == ScanValue(t, i, n, depth) && r.Success?
    ensures j < |t| && n + 1 <= MAX_NODES && depth <= MAX_DEPTH && r == ScanKind(t, j, n, depth)
  {
  }

  lemma {:induction false} ValueSound(t: Text, i: nat, n: nat, depth: nat, end: nat, m: nat)
    returns (j: nat, w: Text, v: Value)
    requires i <= |t| && ScanValue(t, i, n, depth) == Success((end, m)) && end <= |t|
    ensures ValueAt(t, i, j, w, v, n, depth, end, m)
    decreases |t| - i, 5
  {
    hide ScanKind, KindAt;
    j := SkipWs(t, i);
    w := WsAt(t, i, j);
    ValueUnstep(t, i, j, n, depth, ScanValue(t, i, n, depth));
    v := KindSound(t, j, n, depth, end, m);
  }

  lemma WordsSound(t: Text, j: nat, n: nat, depth: nat, end: nat, m: nat) returns (v: Value)
    requires j < |t| && n + 1 <= MAX_NODES && depth <= MAX_DEPTH && ScanKind(t, j, n, depth) == Success((end, m))
    requires t[j] != LBRACE && t[j] != LBRACKET && t[j] != QUOTE && t[j] != MINUS && !IsDigit(t[j])
    ensures KindAt(t, j, v, n, depth, end, m)
  {
    v := if StartsWith(t, j, TRUE) then True else if StartsWith(t, j, FALSE) then False else Null;
    forall k | 0 <= k < |Render(v)|
      ensures Render(v)[k] == t[j + k]
    {
      assert t[j..j + |Render(v)|][k] == t[j + k];
    }
  }

  lemma {:induction false} KindSound(t: Text, j: nat, n: nat, depth: nat, end: nat, m: nat) returns (v: Value)
    requires j < |t| && n + 1 <= MAX_NODES && depth <= MAX_DEPTH
    requires ScanKind(t, j, n, depth) == Success((end, m)) && end <= |t|
    ensures KindAt(t, j, v, n, depth, end, m)
    decreases |t| - j, 4
  {
    hide ScanObject, ScanArray, ScanString, ScanNumber, Has;
    if t[j] == LBRACE {
      v := ObjectSound(t, j, n, depth, end, m);
    } else if t[j] == LBRACKET {
      v := ArraySound(t, j, n, depth, end, m);
    } else if t[j] == QUOTE {
      var chars := StringSound(t, j, end);
      v := String(chars);
    } else if t[j] == MINUS || IsDigit(t[j]) {
      var x := NumberSound(t, j, end);
      v := Numeral(x);
    } else {
      v := WordsSound(t, j, n, depth, end, m);
    }
  }

  lemma {:induction false} ObjectSound(t: Text, i: nat, n: nat, depth: nat, end: nat, m: nat) returns (v: Value)
    requires i < |t| && t[i] == LBRACE && n + 1 <= MAX_NODES && depth <= MAX_DEPTH
    requires ScanObject(t, i, n + 1, depth + 1) == Success((end, m))
    ensures KindAt(t, i, v, n, depth, end, m)
    decreases |t| - i, 3
  {
    var j := SkipWs(t, i + 1);
    if At(t, j) == RBRACE {
      var pad := WsAt(t, i + 1, j);
      v := EmptyObject(t, i, j, pad, n, depth);
    } else {
      hide MembersAt;
      MembersSkip(t, i + 1, j, n + 1, depth + 1, {}, ScanMembers(t, j, n + 1, depth + 1, {}));
      var ms := MembersSound(t, i + 1, n + 1, depth + 1, {}, end, m);
      v := WrapMembers(t, i, ms, n, depth, end, m);
    }
  }

  lemma EmptyObject(t: Text, i: nat, j: nat, pad: Text, n: nat, depth: nat) returns (v: Value)
    requires i < |t| && t[i] == LBRACE && n + 1 <= MAX_NODES && depth <= MAX_DEPTH
    requires AllWs(pad) && Has(t, i + 1, pad) && j == i + 1 + |pad| && At(t, j) == RBRACE
    ensures KindAt(t, i, v, n, depth, j + 1, n + 1)
  {
    v := Object(pad, NoMembers);
    HasConcat(t, i + 1, pad, [RBRACE]);
    HasConcat(t, i, [LBRACE], pad + [RBRACE]);
  }

  lemma WrapMembers(t: Text, i: nat, ms: Members, n: nat, depth: nat, end: nat, m: nat) returns (v: Value)
    requires i < |t| && t[i] == LBRACE && depth <= MAX_DEPTH && MembersAt(t, i + 1, ms, n + 1, depth + 1, {}, end, m)
    ensures KindAt(t, i, v, n, depth, end, m)
  {
    hide Has, RenderMembers, MembersWellFormed, MembersDistinct, MembersNested;
    v := Object([], ms);
    OneChar(t, i, LBRACE);
    HasConcat(t, i, [LBRACE], RenderMembers(ms));
    assert [] + RenderMembers(ms) == RenderMembers(ms);
  }

  lemma MembersSkip(t: Text, i: nat, j: nat, n: nat, depth: nat, keys: set<Text>, r: Scan)
    requires i <= |t| && SkipWs(t, i) == j && r == ScanMembers(t, j, n, depth, keys)
    ensures r == ScanMembers(t, i, n, depth, keys)
  {
    hide ScanString, ScanValue;
    assert ScanKey(t, j, keys) == ScanKey(t, i, keys);
  }

  /** What a successful turn of the member loop has read. */
  lemma MembersUnstep(t: Text, i: nat, n: nat, depth: nat, keys: set<Text>, end: nat, m: nat)
    returns (k: nat, key: Text, v: nat, m1: nat, w: nat)
    requires i <= |t| && ScanMembers(t, i, n, depth, keys) == Success((end, m))
    ensures ScanKey(t, i, keys) == Success((k, key)) && i < k <= |t|
    ensures ScanValue(t, k, n, depth) == Success((v, m1)) && SkipWs(t, v) == w && k < v <= w < |t|
    ensures (t[w] == RBRACE && end == w + 1 && m == m1) ||
            (t[w] == COMMA && ScanMembers(t, w + 1, m1, depth, keys + {key}) == Success((end, m)))
  {
    hide ScanKey, SkipWs;
    k, key := ScanKey(t, i, keys).value.0, ScanKey(t, i, keys).value.1;
    v, m1 := ScanValue(t, k, n, depth).value.0, ScanValue(t, k, n, depth).value.1;
    w := SkipWs(t, v);
  }

  lemma KeySound(t: Text, i: nat, keys: set<Text>, k: nat, key: Text)
    returns (p1: nat, p2: nat, p3: nat, before: Text, chars: Chars, afterKey: Text)
    requires i <= |t| && ScanKey(t, i, keys) == Success((k, key))
    ensures AllWs(before) && Has(t, i, before) && p1 == i + |before|
    ensures chars.WellFormed() && Has(t, p1, RenderString(chars)) && p2 == p1 + |RenderString(chars)|
    ensures chars.Decode() == key && key !in keys
    ensures AllWs(afterKey) && Has(t, p2, afterKey) && p3 == p2 + |afterKey|
    ensures Has(t, p3, [COLON]) && k == p3 + 1
  {
    hide Has, SkipWs, RenderString;
    p1 := SkipWs(t, i);
    p2 := ScanString(t, p1).value;
    p3 := SkipWs(t, p2);
    before := WsAt(t, i, p1);
    chars := StringSound(t, p1, p2);
    afterKey := WsAt(t, p2, p3);
    StringComplete(t, p1, chars, p2);
    OneChar(t, p3, COLON);
  }

  lemma {:induction false} MembersSound(t: Text, i: nat, n: nat, depth: nat, keys: set<Text>, end: nat, m: nat)
    returns (ms: Members)
    requires i <= |t| && ScanMembers(t, i, n, depth, keys) == Success((end, m))
    ensures MembersAt(t, i, ms, n, depth, keys, end, m)
    decreases |t| - i, 2
  {
    hide ScanMembers, ScanValue, ScanKey, SkipWs, Has, RenderMembers, Render, RenderString;
    var k, key, p6, m1, p7 := MembersUnstep(t, i, n, depth, keys, end, m);
    var p1, p2, p3, before, chars, afterKey := KeySound(t, i, keys, k, key);
    var p5, beforeValue, v := ValueSound(t, k, n, depth, p6, m1);
    var after := WsAt(t, p6, p7);
    var rest := NoMembers;
    if t[p7] == RBRACE {
      OneChar(t, p7, RBRACE);
    } else {
      rest := MembersSound(t, p7 + 1, m1, depth, keys + {key}, end, m);
      OneChar(t, p7, COMMA);
      HasConcat(t, p7, [COMMA], RenderMembers(rest));
    }
    ms := Member(before, chars, afterKey, beforeValue, v, after, rest);
    MemberParts(t, i, p1, p2, p3, k, p5, p6, p7, ms);
    assert Has(t, i, RenderMembers(ms));
    assert end == i + |RenderMembers(ms)|;
    assert m == n + CountMembers(ms);
    assert MembersWellFormed(ms);
    assert MembersDistinct(ms, keys);
    assert MembersNested(ms, depth, MAX_DEPTH);
  }

  lemma OneChar(t: Text, i: nat, c: CodeUnit)
    requires i < |t| && t[i] == c
    ensures Has(t, i, [c])
  {
  }

  lemma {:induction false} ArraySound(t: Text, i: nat, n: nat, depth: nat, end: nat, m: nat) returns (v: Value)
    requires i < |t| && t[i] == LBRACKET && n + 1 <= MAX_NODES && depth <= MAX_DEPTH
    requires ScanArray(t, i, n + 1, depth + 1) == Success((end, m))
    ensures KindAt(t, i, v, n, depth, end, m)
    decreases |t| - i, 3
  {
    var j := SkipWs(t, i + 1);
    if At(t, j) == RBRACKET {
      var pad := WsAt(t, i + 1, j);
      v := EmptyArray(t, i, j, pad, n, depth);
    } else {
      hide ElementsAt;
      ElementsSkip(t, i + 1, j, n + 1, depth + 1, ScanElements(t, j, n + 1, depth + 1));
      var es := ElementsSound(t, i + 1, n + 1, depth + 1, end, m);
      v := WrapElements(t, i, es, n, depth, end, m);
    }
  }

  lemma EmptyArray(t: Text, i: nat, j: nat, pad: Text, n: nat, depth: nat) returns (v: Value)
    requires i < |t| && t[i] == LBRACKET && n + 1 <= MAX_NODES && depth <= MAX_DEPTH
    requires AllWs(pad) && Has(t, i + 1, pad) && j == i + 1 + |pad| && At(t, j) == RBRACKET
    ensures KindAt(t, i, v, n, depth, j + 1, n + 1)
  {
    v := Array(pad, NoElements);
    HasConcat(t, i + 1, pad, [RBRACKET]);
    HasConcat(t, i, [LBRACKET], pad + [RBRACKET]);
  }

  lemma WrapElements(t: Text, i: nat, es: Elements, n: nat, depth: nat, end: nat, m: nat) returns (v: Value)
    requires i < |t| && t[i] == LBRACKET && depth <= MAX_DEPTH && ElementsAt(t, i + 1, es, n + 1, depth + 1, end, m)
    ensures KindAt(t, i, v, n, depth, end, m)
  {
    hide Has, RenderElements, ElementsWellFormed, ElementsDistinct, ElementsNested;
    v := Array([], es);
    OneChar(t, i, LBRACKET);
    HasConcat(t, i, [LBRACKET], RenderElements(es));
    assert [] + RenderElements(es) == RenderElements(es);
  }

  lemma ElementsSkip(t: Text, i: nat, j: nat, n: nat, depth: nat, r: Scan)
    requires i <= |t| && SkipWs(t, i) == j && r == ScanElements(t, j, n, depth)
    ensures r == ScanElements(t, i, n, depth)
  {
    hide ScanString, ScanNumber, ScanObject, ScanArray, ScanMembers;
    assert ScanValue(t, j, n, depth) == ScanValue(t, i, n, depth);
  }

  /** What a successful turn of the element loop has read. */
  lemma ElementsUnstep(t: Text, i: nat, n: nat, depth: nat, end: nat, m: nat) returns (v: nat, m1: nat, w: nat)
    requires i <= |t| && ScanElements(t, i, n, depth) == Success((end, m))
    ensures ScanValue(t, i, n, depth) == Success((v, m1)) && SkipWs(t, v) == w && i < v <= w < |t|
    ensures (t[w] == RBRACKET && end == w + 1 && m == m1) ||
            (t[w] == COMMA && ScanElements(t, w + 1, m1, depth) == Success((end, m)))
  {
    hide SkipWs;
    v, m1 := ScanValue(t, i, n, depth).value.0, ScanValue(t, i, n, depth).value.1;
    w := SkipWs(t, v);
  }

  lemma {:induction false} ElementsSound(t: Text, i: nat, n: nat, depth: nat, end: nat, m: nat) returns (es: Elements)
    requires i <= |t| && ScanElements(t, i, n, depth) == Success((end, m))
    ensures ElementsAt(t, i, es, n, depth, end, m)
    decreases |t| - i, 6
  {
    hide ScanElements, ScanValue, SkipWs, Has, RenderElements, Render;
    var p2, m1, p3 := ElementsUnstep(t, i, n, depth, end, m);
    var p1, before, v := ValueSound(t, i, n, depth, p2, m1);
    var after := WsAt(t, p2, p3);
    var rest := NoElements;
    if t[p3] == RBRACKET {
      OneChar(t, p3, RBRACKET);
    } else {
      rest := ElementsSound(t, p3 + 1, m1, depth, end, m);
      OneChar(t, p3, COMMA);
      HasConcat(t, p3, [COMMA], RenderElements(rest));
    }
    es := Element(before, v, after, rest);
    ElementParts(t, i, p1, p2, p3, es);
    assert Has(t, i, RenderElements(es));
    assert end == i + |RenderElements(es)|;
    assert m == n + CountElements(es);
    assert ElementsWellFormed(es);
    assert ElementsDistinct(es);
    assert ElementsNested(es, depth, MAX_DEPTH);
  }

  // ---------- the theorem ----------

  /** A JSON text: white space, one value, white space. */
  datatype Document = Document(before: Text, value: Value, after: Text)

  /** `doc` spells `t`, without regard to repeated keys and limits. */
  ghost predicate IsJson(t: Text, doc: Document) {
    && AllWs(doc.before) && AllWs(doc.after) && WellFormed(doc.value)
    && t == doc.before + (Render(doc.value) + doc.after)
  }

  /** `t` is a JSON text without repeated keys and within the structural limits, as `doc` shows. */
  ghost predicate IsTraceJson(t: Text, doc: Document) {
    && IsJson(t, doc)
    && DistinctKeys(doc.value)
    && Count(doc.value) <= MAX_NODES
    && NestedWithin(doc.value, 0, MAX_DEPTH)
  }

  lemma AcceptedIsJson(t: Text) returns (doc: Document)
    requires Preflight(t) == None
    ensures IsTraceJson(t, doc)
  {
    hide ScanValue, Render, WellFormed, DistinctKeys, NestedWithin, Count;
    var end, m := ScanValue(t, 0, 0, 0).value.0, ScanValue(t, 0, 0, 0).value.1;
    var j, w, v := ValueSound(t, 0, 0, 0, end, m);
    var after := WsAt(t, end, |t|);
    doc := Document(w, v, after);
    Cover(t, w, Render(v), after);
  }

  /** Three adjacent pieces that span the text are the text. */
  lemma Cover(t: Text, a: Text, b: Text, c: Text)
    requires Has(t, 0, a) && Has(t, |a|, b) && Has(t, |a| + |b|, c) && |a| + |b| + |c| == |t|
    ensures t == a + (b + c)
  {
    HasConcat(t, |a|, b, c);
    HasConcat(t, 0, a, b + c);
    assert forall k | 0 <= k < |t| :: t[k] == t[0 + k] == (a + (b + c))[k];
  }

  lemma JsonIsAccepted(t: Text, doc: Document)
    requires IsTraceJson(t, doc)
    ensures Preflight(t) == None
  {
    hide ScanValue, Render, WellFormed, DistinctKeys, NestedWithin, Count;
    var j := |doc.before|;
    var end := j + |Render(doc.value)|;
    HasConcat(t, 0, doc.before, Render(doc.value) + doc.after);
    HasConcat(t, j, Render(doc.value), doc.after);
    if doc.after != [] {
      HasAt(t, end, doc.after, 0);
    }
    WsComplete(t, end, doc.after);
    ValueComplete(t, 0, j, doc.before, doc.value, 0, 0, end, ScanValue(t, 0, 0, 0));
  }

  /** The recogniser accepts a text exactly when it is a duplicate-free JSON text within the limits. */
  lemma AcceptsExactlyTraceJson(t: Text)
    ensures Preflight(t) == None <==> exists doc :: IsTraceJson(t, doc)
  {
    if Preflight(t) == None {
      var doc := AcceptedIsJson(t);
    }
    if doc :| IsTraceJson(t, doc) {
      JsonIsAccepted(t, doc);
    }
  }

  /**
    Reading the value at cursor `i`, count `n` and depth `depth` comes, at once or inside its containers, to reading a
    value at cursor `k`, count `m` and depth `d`.
   */
  ghost predicate Reads(t: Text, i: nat, n: nat, depth: nat, k: nat, m: nat, d: nat)
    requires i <= |t|
    decreases |t| - i, 1
  {
    || (i == k && n == m && depth == d)
    || (n + 1 <= MAX_NODES && depth <= MAX_DEPTH && ReadsInside(t, SkipWs(t, i), n + 1, depth + 1, k, m, d))
  }

  ghost predicate ReadsInside(t: Text, i: nat, n: nat, depth: nat, k: nat, m: nat, d: nat)
    requires i <= |t|
    decreases |t| - i, 0
  {
    || (At(t, i) == LBRACE && At(t, SkipWs(t, i + 1)) != RBRACE
        && ReadsMembers(t, SkipWs(t, i + 1), n, depth, {}, k, m, d))
    || (At(t, i) == LBRACKET && At(t, SkipWs(t, i + 1)) != RBRACKET
        && ReadsElements(t, SkipWs(t, i + 1), n, depth, k, m, d))
  }

  ghost predicate ReadsMembers(t: Text, i: nat, n: nat, depth: nat, keys: set<Text>, k: nat, m: nat, d: nat)
    requires i <= |t|
    decreases |t| - i, 2
  {
    ScanKey(t, i, keys).Success? &&
    var (v, key) := ScanKey(t, i, keys).value;
    || Reads(t, v, n, depth, k, m, d)
    || (ScanValue(t, v, n, depth).Success? &&
        var (e, c) := ScanValue(t, v, n, depth).value;
        At(t, SkipWs(t, e)) == COMMA && ReadsMembers(t, SkipWs(t, e) + 1, c, depth, keys + {key}, k, m, d))
  }

  ghost predicate ReadsElements(t: Text, i: nat, n: nat, depth: nat, k: nat, m: nat, d: nat)
    requires i <= |t|
    decreases |t| - i, 2
  {
    || Reads(t, i, n, depth, k, m, d)
    || (ScanValue(t, i, n, depth).Success? &&
        var (e, c) := ScanValue(t, i, n, depth).value;
        At(t, SkipWs(t, e)) == COMMA && ReadsElements(t, SkipWs(t, e) + 1, c, depth, k, m, d))
  }

  /** The scan of the value ends past the end of the text. */
  ghost predicate Overshoots(t: Text, k: nat, m: nat, d: nat) {
    k <= |t| && ScanValue(t, k, m, d).Success? && ScanValue(t, k, m, d).value.0 > |t|
  }

  lemma {:induction false} OvershootInside(t: Text, i: nat, n: nat, depth: nat, k: nat, m: nat, d: nat)
    requires i <= |t| && Reads(t, i, n, depth, k, m, d) && Overshoots(t, k, m, d)
    ensures Overshoots(t, i, n, depth) || ScanValue(t, i, n, depth) == Failure(Syntax)
    decreases |t| - i, 1
  {
    hide ReadsMembers, ReadsElements, ScanMembers, ScanElements, ScanNumber, ScanString, Overshoots;
    if !(i == k && n == m && depth == d) {
      var j := SkipWs(t, i);
      if At(t, j) == LBRACE {
        OvershootInMembers(t, SkipWs(t, j + 1), n + 1, depth + 1, {}, k, m, d);
      } else {
        OvershootInElements(t, SkipWs(t, j + 1), n + 1, depth + 1, k, m, d);
      }
    }
  }

  lemma {:induction false} OvershootInMembers(t: Text, i: nat, n: nat, depth: nat, keys: set<Text>, k: nat, m: nat,
                                              d: nat)
    requires i <= |t| && ReadsMembers(t, i, n, depth, keys, k, m, d) && Overshoots(t, k, m, d)
    ensures ScanMembers(t, i, n, depth, keys) == Failure(Syntax)
    decreases |t| - i, 2
  {
    hide Reads, ScanKey, ScanValue;
    var (v, key) := ScanKey(t, i, keys).value;
    if Reads(t, v, n, depth, k, m, d) {
      OvershootInside(t, v, n, depth, k, m, d);
    } else {
      var (e, c) := ScanValue(t, v, n, depth).value;
      OvershootInMembers(t, SkipWs(t, e) + 1, c, depth, keys + {key}, k, m, d);
    }
  }

  lemma {:induction false} OvershootInElements(t: Text, i: nat, n: nat, depth: nat, k: nat, m: nat, d: nat)
    requires i <= |t| && ReadsElements(t, i, n, depth, k, m, d) && Overshoots(t, k, m, d)
    ensures ScanElements(t, i, n, depth) == Failure(Syntax)
    decreases |t| - i, 2
  {
    hide Reads, ScanValue;
    if Reads(t, i, n, depth, k, m, d) {
      OvershootInside(t, i, n, depth, k, m, d);
    } else {
      var (e, c) := ScanValue(t, i, n, depth).value;
      OvershootInElements(t, SkipWs(t, e) + 1, c, depth, k, m, d);
    }
  }

  /** Wherever in the text a value is read past its end, the text is rejected as a syntax error. */
  lemma OvershootRejects(t: Text, k: nat, m: nat, d: nat)
    requires Reads(t, 0, 0, 0, k, m, d) && Overshoots(t, k, m, d)
    ensures Preflight(t) == Some(Syntax)
  {
    hide ScanValue, Reads;
    OvershootInside(t, 0, 0, 0, k, m, d);
  }

  lemma NumberOvershoots(t: Text, i: nat)
    requires i < |t| && ScanNumber(t, i).Some?
    ensures ScanNumber(t, i).value > |t| <==> i + 1 == |t| && t[i] == MINUS
  {
    hide SkipDigits;
  }

  /** The scan of a value passes the end exactly at a minus sign that is the last unit of the text. */
  lemma OvershootsExactly(t: Text, k: nat, m: nat, d: nat)
    requires k <= |t|
    ensures Overshoots(t, k, m, d) <==>
            m + 1 <= MAX_NODES && d <= MAX_DEPTH && SkipWs(t, k) + 1 == |t| && t[|t| - 1] == MINUS
  {
    hide SkipWs, ScanNumber, ScanString, ScanObject, ScanArray;
    var j := SkipWs(t, k);
    if j < |t| && (t[j] == MINUS || IsDigit(t[j])) {
      if ScanNumber(t, j).Some? {
        NumberOvershoots(t, j);
      } else if j + 1 == |t| && t[j] == MINUS {
        LastMinus(t);
      }
    }
  }

  lemma LastMinus(t: Text)
    requires t != [] && t[|t| - 1] == MINUS
    ensures ScanNumber(t, |t| - 1).Some?
  {
    assert ScanWhole(t, |t|) == Some(|t| + 1);
  }

  /** The overshoot happens: a lone minus sign moves the cursor past the end. */
  lemma LoneMinusOvershoots()
    ensures ScanValue([MINUS], 0, 0, 0) == Success((2, 1))
  {
    var t: Text := [MINUS];
    assert SkipWs(t, 0) == 0;
    assert ScanWhole(t, 1) == Some(2) by {
      assert SkipDigits(t, 2) == 2;
    }
    assert ScanNumber(t, 0) == Some(2);
  }
}
