/** The grammar of JSON texts is unambiguous: no text has two derivations. */
module TraceJsonUnique {
  import opened Text
  import opened JsonGrammar
  import opened TraceJsonSpec
  import opened TraceJsonProof

  // ---------- white space, strings and numbers ----------

  lemma SameSlice(t: Text, i: nat, a: Text, b: Text)
    requires Has(t, i, a) && Has(t, i, b) && |a| == |b|
    ensures a == b
  {
  }

  /** White space that other text follows is delimited by it. */
  lemma WsUnique(t: Text, i: nat, a: Text, b: Text)
    requires AllWs(a) && Has(t, i, a) && !IsWs(At(t, i + |a|))
    requires AllWs(b) && Has(t, i, b) && !IsWs(At(t, i + |b|))
    ensures a == b
  {
    WsComplete(t, i, a);
    WsComplete(t, i, b);
    SameSlice(t, i, a, b);
  }

  lemma CharUnits(t: Text, i: nat, c: Char)
    requires c.WellFormed() && Has(t, i, c.Render())
    ensures At(t, i) != QUOTE
    ensures match c
            case Unescaped(u) => At(t, i) == u != BACKSLASH
            case Escaped(e) => At(t, i) == BACKSLASH && At(t, i + 1) == e != LOWER_U
            case Hex(h0, h1, h2, h3) =>
              At(t, i) == BACKSLASH && At(t, i + 1) == LOWER_U && At(t, i + 2) == h0 && At(t, i + 3) == h1
              && At(t, i + 4) == h2 && At(t, i + 5) == h3
  {
    var h := c.Render();
    HasAt(t, i, h, 0);
    if !c.Unescaped? {
      HasAt(t, i, h, 1);
    }
    if c.Hex? {
      HasAt(t, i, h, 2);
      HasAt(t, i, h, 3);
      HasAt(t, i, h, 4);
      HasAt(t, i, h, 5);
    }
  }

  lemma CharUnique(t: Text, i: nat, c: Char, d: Char)
    requires c.WellFormed() && d.WellFormed() && Has(t, i, c.Render()) && Has(t, i, d.Render())
    ensures c == d
  {
    hide Has;
    CharUnits(t, i, c);
    CharUnits(t, i, d);
  }

  /** A list of characters before a quote: the quote is next, or the first character is. */
  lemma CharsHead(t: Text, i: nat, a: Chars)
    requires a.WellFormed() && Has(t, i, a.Render() + [QUOTE])
    ensures a.Empty? <==> At(t, i) == QUOTE
    ensures a.Cons? ==> Has(t, i, a.head.Render()) && Has(t, i + |a.head.Render()|, a.tail.Render() + [QUOTE])
  {
    hide Has;
    if a.Cons? {
      HasConcatLeft(t, i, a.head.Render(), a.tail.Render(), [QUOTE]);
      CharUnits(t, i, a.head);
    } else {
      assert a.Render() + [QUOTE] == [QUOTE];
      HasAt(t, i, [QUOTE], 0);
    }
  }

  lemma {:induction false} CharsUnique(t: Text, i: nat, a: Chars, b: Chars)
    requires a.WellFormed() && Has(t, i, a.Render() + [QUOTE])
    requires b.WellFormed() && Has(t, i, b.Render() + [QUOTE])
    ensures a == b
    decreases a
  {
    hide Has, Char.WellFormed, Char.Render;
    CharsHead(t, i, a);
    CharsHead(t, i, b);
    if a.Cons? {
      CharUnique(t, i, a.head, b.head);
      CharsUnique(t, i + |a.head.Render()|, a.tail, b.tail);
    }
  }

  lemma StringUnique(t: Text, i: nat, a: Chars, b: Chars)
    requires a.WellFormed() && b.WellFormed() && Has(t, i, RenderString(a)) && Has(t, i, RenderString(b))
    ensures a == b
  {
    HasConcat(t, i, [QUOTE], a.Render() + [QUOTE]);
    HasConcat(t, i, [QUOTE], b.Render() + [QUOTE]);
    CharsUnique(t, i + 1, a, b);
  }

  /** The parts of a numeral in place, each ending where the scan of that part ends. */
  lemma NumberScanned(t: Text, i: nat, x: Number) returns (j: nat, k: nat, f: nat, end: nat)
    requires x.WellFormed() && Has(t, i, x.Render()) && Follow(At(t, i + |x.Render()|))
    ensures NumberAt(t, i, j, k, f, end, x)
    ensures i < |t| && (x.negative <==> t[i] == MINUS)
    ensures ScanWhole(t, j) == Some(k) && ScanFraction(t, k) == Some(f) && ScanExponent(t, f) == Some(end)
  {
    hide Has, ScanWhole, ScanFraction, ScanExponent;
    j := i + |x.Sign()|;
    k := j + |x.whole|;
    f := k + |x.Fraction()|;
    end := f + |x.Power()|;
    NumberParts(t, i, j, k, f, end, x);
    ExponentComplete(t, f, x, end);
    FractionComplete(t, k, x, f);
    WholeComplete(t, j, x, k);
    NumberStart(t, i, j, x);
  }

  lemma NumberUnique(t: Text, i: nat, x: Number, y: Number)
    requires x.WellFormed() && Has(t, i, x.Render()) && Follow(At(t, i + |x.Render()|))
    requires y.WellFormed() && Has(t, i, y.Render()) && Follow(At(t, i + |y.Render()|))
    ensures x == y
  {
    hide Has, ScanWhole, ScanFraction, ScanExponent;
    var j, k, f, end := NumberScanned(t, i, x);
    var j', k', f', end' := NumberScanned(t, i, y);
    SameSlice(t, j, x.whole, y.whole);
    SameSlice(t, k, x.Fraction(), y.Fraction());
    SameSlice(t, f, x.Power(), y.Power());
    FractionRead(x, y);
    PowerRead(x, y);
  }

  lemma FractionRead(x: Number, y: Number)
    requires x.Fraction() == y.Fraction()
    ensures x.fraction == y.fraction
  {
    if x.fraction.Some? && y.fraction.Some? {
      assert x.Fraction()[1..] == x.fraction.value && y.Fraction()[1..] == y.fraction.value;
    }
  }

  lemma PowerRead(x: Number, y: Number)
    requires x.WellFormed() && y.WellFormed() && x.Power() == y.Power()
    ensures x.exponent == y.exponent
  {
    if x.exponent.Some? && y.exponent.Some? {
      var p, q := x.exponent.value, y.exponent.value;
      ExponentUnits(p);
      ExponentUnits(q);
    }
  }

  lemma ExponentUnits(p: Exponent)
    requires p.WellFormed()
    ensures var r := p.Render();
      && |r| >= 2 && r[0] == p.e && (p.sign.Some? <==> r[1] == PLUS || r[1] == MINUS)
      && (p.sign.Some? ==> r[1] == p.sign.value)
      && r[if p.sign.Some? then 2 else 1..] == p.digits
  {
    var sign := if p.sign.Some? then [p.sign.value] else [];
    assert p.Render() == [p.e] + (sign + p.digits);
  }

  // ---------- values ----------

  lemma FirstUnit(t: Text, i: nat, v: Value)
    requires WellFormed(v) && Has(t, i, Render(v))
    ensures i < |t| && At(t, i) == Render(v)[0] && !IsWs(At(t, i)) && Render(v) != []
  {
    hide Has, Render;
    FirstOf(v);
    HasAt(t, i, Render(v), 0);
  }

  /** The first unit of a value tells its kind. */
  lemma KindsDiffer(v: Value, w: Value)
    requires WellFormed(v) && WellFormed(w) && Render(v) != [] && Render(w) != [] && Render(v)[0] == Render(w)[0]
    ensures (v.Object? <==> w.Object?) && (v.Array? <==> w.Array?) && (v.String? <==> w.String?)
    ensures (v.Numeral? <==> w.Numeral?) && (v.True? <==> w.True?) && (v.False? <==> w.False?)
  {
    hide Number.WellFormed;
    FirstOf(v);
    FirstOf(w);
  }

  /** Two values that stand at the same place, each before an end, white space or a separator, are the same value. */
  lemma {:induction false} ValueUnique(t: Text, i: nat, v: Value, w: Value)
    requires WellFormed(v) && Has(t, i, Render(v)) && Follow(At(t, i + |Render(v)|))
    requires WellFormed(w) && Has(t, i, Render(w)) && Follow(At(t, i + |Render(w)|))
    ensures v == w
    decreases v, 1
  {
    hide Has, Follow, Number.WellFormed, Chars.WellFormed, RenderString, Number.Render;
    FirstUnit(t, i, v);
    FirstUnit(t, i, w);
    KindsDiffer(v, w);
    match v {
      case Object(pad, ms) => ObjectUnique(t, i, v, w);
      case Array(pad, es) => ArrayUnique(t, i, v, w);
      case String(a) => StringUnique(t, i, a, w.chars);
      case Numeral(x) => NumberUnique(t, i, x, w.number);
      case _ =>
    }
  }

  /** What stands after an opening brace: white space, then the closing brace or the first key. */
  lemma ObjectStart(t: Text, i: nat, v: Value) returns (w: Text)
    requires v.Object? && WellFormed(v) && Has(t, i, Render(v))
    ensures w == if v.members.NoMembers? then v.pad else v.members.before
    ensures AllWs(w) && Has(t, i + 1, w)
    ensures At(t, i + 1 + |w|) == if v.members.NoMembers? then RBRACE else QUOTE
    ensures v.members.Member? ==> Has(t, i + 1, RenderMembers(v.members))
  {
    hide Has, RenderString;
    var ms := v.members;
    HasConcat(t, i, [LBRACE], v.pad + RenderMembers(ms));
    if ms.NoMembers? {
      w := v.pad;
      HasConcat(t, i + 1, v.pad, [RBRACE]);
      HasAt(t, i + 1 + |w|, [RBRACE], 0);
    } else {
      w := ms.before;
      assert v.pad + RenderMembers(ms) == RenderMembers(ms);
      var p1, p2, p3, p4, p5, p6, p7 := MemberInPlace(t, i + 1, ms);
    }
  }

  lemma {:induction false} ObjectUnique(t: Text, i: nat, v: Value, w: Value)
    requires v.Object? && WellFormed(v) && Has(t, i, Render(v))
    requires w.Object? && WellFormed(w) && Has(t, i, Render(w))
    ensures v == w
    decreases v, 0
  {
    hide Has, Render, RenderMembers;
    var a := ObjectStart(t, i, v);
    var b := ObjectStart(t, i, w);
    WsUnique(t, i + 1, a, b);
    if v.members.Member? {
      MembersUnique(t, i + 1, v.members, w.members);
    }
  }

  /** The pieces of a member in place, and the units that delimit its white space. */
  lemma MemberInPlace(t: Text, p: nat, ms: Members)
    returns (p1: nat, p2: nat, p3: nat, p4: nat, p5: nat, p6: nat, p7: nat)
    requires ms.Member? && MembersWellFormed(ms) && Has(t, p, RenderMembers(ms))
    ensures MemberAt(t, p, p1, p2, p3, p4, p5, p6, p7, ms)
    ensures At(t, p1) == QUOTE && At(t, p3) == COLON && !IsWs(At(t, p5)) && Follow(At(t, p6))
    ensures At(t, p7) == if ms.rest.NoMembers? then RBRACE else COMMA
    ensures ms.rest.Member? ==> Has(t, p7 + 1, RenderMembers(ms.rest))
  {
    hide Has, Render, RenderString, SkipWs, Follow;
    p1 := p + |ms.before|;
    p2 := p1 + |RenderString(ms.key)|;
    p3 := p2 + |ms.afterKey|;
    p4 := p3 + 1;
    p5 := p4 + |ms.beforeValue|;
    p6 := p5 + |Render(ms.value)|;
    p7 := p6 + |ms.after|;
    MemberParts(t, p, p1, p2, p3, p4, p5, p6, p7, ms);
    StringComplete(t, p1, ms.key, p2);
    HasAt(t, p3, [COLON], 0);
    FirstUnit(t, p5, ms.value);
    MemberTail(t, p6, p7, ms);
    if ms.rest.Member? {
      HasConcat(t, p7, [COMMA], RenderMembers(ms.rest));
    }
  }

  lemma {:induction false} MembersUnique(t: Text, p: nat, ms: Members, ns: Members)
    requires ms.Member? && MembersWellFormed(ms) && Has(t, p, RenderMembers(ms))
    requires ns.Member? && MembersWellFormed(ns) && Has(t, p, RenderMembers(ns))
    ensures ms == ns
    decreases ms
  {
    hide Has, Render, RenderString, RenderMembers, Follow, Chars.WellFormed;
    var p1, p2, p3, p4, p5, p6, p7 := MemberInPlace(t, p, ms);
    var q1, q2, q3, q4, q5, q6, q7 := MemberInPlace(t, p, ns);
    WsUnique(t, p, ms.before, ns.before);
    StringUnique(t, p1, ms.key, ns.key);
    WsUnique(t, p2, ms.afterKey, ns.afterKey);
    WsUnique(t, p4, ms.beforeValue, ns.beforeValue);
    ValueUnique(t, p5, ms.value, ns.value);
    WsUnique(t, p6, ms.after, ns.after);
    if ms.rest.Member? {
      MembersUnique(t, p7 + 1, ms.rest, ns.rest);
    }
  }

  /** What stands after an opening bracket: white space, then the closing bracket or the first value. */
  lemma ArrayStart(t: Text, i: nat, v: Value) returns (w: Text)
    requires v.Array? && WellFormed(v) && Has(t, i, Render(v))
    ensures w == if v.elements.NoElements? then v.pad else v.elements.before
    ensures AllWs(w) && Has(t, i + 1, w) && !IsWs(At(t, i + 1 + |w|))
    ensures v.elements.NoElements? <==> At(t, i + 1 + |w|) == RBRACKET
    ensures v.elements.Element? ==> Has(t, i + 1, RenderElements(v.elements))
  {
    hide Has;
    var es := v.elements;
    HasConcat(t, i, [LBRACKET], v.pad + RenderElements(es));
    if es.NoElements? {
      w := v.pad;
      HasConcat(t, i + 1, v.pad, [RBRACKET]);
      HasAt(t, i + 1 + |w|, [RBRACKET], 0);
    } else {
      w := es.before;
      assert v.pad + RenderElements(es) == RenderElements(es);
      var p1, p2, p3 := ElementInPlace(t, i + 1, es);
    }
  }

  lemma {:induction false} ArrayUnique(t: Text, i: nat, v: Value, w: Value)
    requires v.Array? && WellFormed(v) && Has(t, i, Render(v))
    requires w.Array? && WellFormed(w) && Has(t, i, Render(w))
    ensures v == w
    decreases v, 0
  {
    hide Has, Render, RenderElements;
    var a := ArrayStart(t, i, v);
    var b := ArrayStart(t, i, w);
    WsUnique(t, i + 1, a, b);
    if v.elements.Element? {
      ElementsUnique(t, i + 1, v.elements, w.elements);
    }
  }

  /** The pieces of an element in place, and the units that delimit its white space. */
  lemma ElementInPlace(t: Text, p: nat, es: Elements) returns (p1: nat, p2: nat, p3: nat)
    requires es.Element? && ElementsWellFormed(es) && Has(t, p, RenderElements(es))
    ensures Has(t, p, es.before) && p1 == p + |es.before| && Has(t, p1, Render(es.value))
    ensures p2 == p1 + |Render(es.value)| && Has(t, p2, es.after) && p3 == p2 + |es.after|
    ensures !IsWs(At(t, p1)) && At(t, p1) != RBRACKET && Follow(At(t, p2))
    ensures At(t, p3) == if es.rest.NoElements? then RBRACKET else COMMA
    ensures es.rest.Element? ==> Has(t, p3 + 1, RenderElements(es.rest))
  {
    hide Has, Render, SkipWs, Follow;
    p1 := p + |es.before|;
    p2 := p1 + |Render(es.value)|;
    p3 := p2 + |es.after|;
    ElementParts(t, p, p1, p2, p3, es);
    FirstUnit(t, p1, es.value);
    ElementHead(t, p, p1, es);
    ElementTail(t, p2, p3, es);
    if es.rest.Element? {
      HasConcat(t, p3, [COMMA], RenderElements(es.rest));
    }
  }

  lemma {:induction false} ElementsUnique(t: Text, p: nat, es: Elements, fs: Elements)
    requires es.Element? && ElementsWellFormed(es) && Has(t, p, RenderElements(es))
    requires fs.Element? && ElementsWellFormed(fs) && Has(t, p, RenderElements(fs))
    ensures es == fs
    decreases es
  {
    hide Has, Render, RenderElements, Follow;
    var p1, p2, p3 := ElementInPlace(t, p, es);
    var q1, q2, q3 := ElementInPlace(t, p, fs);
    WsUnique(t, p, es.before, fs.before);
    ValueUnique(t, p1, es.value, fs.value);
    WsUnique(t, p2, es.after, fs.after);
    if es.rest.Element? {
      ElementsUnique(t, p3 + 1, es.rest, fs.rest);
    }
  }

  // ---------- texts ----------

  lemma DocumentInPlace(t: Text, doc: Document)
    requires IsJson(t, doc)
    ensures var i, j := |doc.before|, |doc.before| + |Render(doc.value)|;
      && Has(t, 0, doc.before) && !IsWs(At(t, i)) && Has(t, i, Render(doc.value)) && Follow(At(t, j))
      && Has(t, j, doc.after) && j + |doc.after| == |t|
  {
    hide Has, Render, WellFormed;
    var i, j := |doc.before|, |doc.before| + |Render(doc.value)|;
    assert Has(t, 0, t) by {
      WholeText(t);
    }
    HasConcat(t, 0, doc.before, Render(doc.value) + doc.after);
    HasConcat(t, i, Render(doc.value), doc.after);
    FirstUnit(t, i, doc.value);
    if doc.after != [] {
      HasAt(t, j, doc.after, 0);
    }
  }

  lemma WholeText(t: Text)
    ensures Has(t, 0, t)
  {
  }

  /** A text has one derivation at most, so that what is said of its keys, values and nesting is said of the text. */
  lemma Unambiguous(t: Text, d: Document, e: Document)
    requires IsJson(t, d) && IsJson(t, e)
    ensures d == e
  {
    hide Has, Render, WellFormed, Follow;
    DocumentInPlace(t, d);
    DocumentInPlace(t, e);
    WsUnique(t, 0, d.before, e.before);
    ValueUnique(t, |d.before|, d.value, e.value);
    SameSlice(t, |d.before| + |Render(d.value)|, d.after, e.after);
  }

  /** A JSON text is accepted exactly when its one reading repeats no key and keeps the limits. */
  lemma AcceptedByItsReading(t: Text, doc: Document)
    requires IsJson(t, doc)
    ensures Preflight(t) == None <==>
            && DistinctKeys(doc.value) && Count(doc.value) <= MAX_NODES && NestedWithin(doc.value, 0, MAX_DEPTH)
  {
    hide Render, WellFormed, Count, NestedWithin, DistinctKeys, ScanValue;
    if Preflight(t) == None {
      var e := AcceptedIsJson(t);
      Unambiguous(t, doc, e);
    } else if DistinctKeys(doc.value) && Count(doc.value) <= MAX_NODES && NestedWithin(doc.value, 0, MAX_DEPTH) {
      JsonIsAccepted(t, doc);
    }
  }
}
