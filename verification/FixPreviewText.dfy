/** Where the texts of the edits stand in a previewed text, and what stands between them. */
module FixPreviewText {
  import opened Text
  import opened Sorting
  import opened FixPlan
  import opened FixPlanProof
  import opened FixPreview
  import Occurrences

  // ---------- growth ----------

  /** By how much an operation that edits the source before `p` lengthens the text. */
  function GrowthBy(op: Operation, sourceId: Text, p: nat): int {
    if op.TextEdit? && op.sourceId == sourceId && op.start < p then |op.newText| - (op.end - op.start) else 0
  }

  /** By how much the operations that edit the source before `p` lengthen the text together. */
  function Growth(ops: seq<Operation>, sourceId: Text, p: nat): int {
    if ops == [] then 0 else GrowthBy(ops[0], sourceId, p) + Growth(ops[1..], sourceId, p)
  }

  function Lengthens(x: Edit, p: nat): int { if x.start < p then |x.newText| - (x.end - x.start) else 0 }

  function EditGrowth(edits: seq<Edit>, p: nat): int {
    if edits == [] then 0 else Lengthens(edits[0], p) + EditGrowth(edits[1..], p)
  }

  lemma {:induction false} GrowthConcat(a: seq<Edit>, b: seq<Edit>, p: nat)
    ensures EditGrowth(a + b, p) == EditGrowth(a, p) + EditGrowth(b, p)
  {
    if a == [] {
      assert a + b == b;
    } else {
      assert (a + b)[0] == a[0] && (a + b)[1..] == a[1..] + b;
      GrowthConcat(a[1..], b, p);
    }
  }

  lemma {:induction false} GrowthPermuted(a: seq<Edit>, b: seq<Edit>, p: nat)
    requires multiset(a) == multiset(b)
    ensures EditGrowth(a, p) == EditGrowth(b, p)
    decreases |a|
  {
    hide Lengthens;
    Occurrences.PermutedLength(a, b);
    if a != [] {
      var j, rest := Occurrences.TakeOut(a, b);
      GrowthPermuted(a[1..], rest, p);
      assert b == b[..j] + ([a[0]] + b[j + 1..]);
      GrowthConcat(b[..j], [a[0]] + b[j + 1..], p);
      GrowthConcat(b[..j], b[j + 1..], p);
      assert ([a[0]] + b[j + 1..])[1..] == b[j + 1..];
    }
  }

  lemma {:induction false} GrowthOfEdits(ops: seq<Operation>, sourceId: Text, p: nat)
    ensures Growth(ops, sourceId, p) == EditGrowth(EditsOf(ops, sourceId), p)
  {
    if ops != [] {
      GrowthOfEdits(ops[1..], sourceId, p);
      var first := if ops[0].TextEdit? && ops[0].sourceId == sourceId then [EditOf(ops[0])] else [];
      GrowthConcat(first, EditsOf(ops[1..], sourceId), p);
      if first != [] {
        assert first[1..] == [];
        assert EditGrowth(first, p) == Lengthens(first[0], p) + EditGrowth([], p);
      }
    }
  }

  lemma GrowthSorted(ops: seq<Operation>, sourceId: Text, p: nat)
    ensures EditGrowth(SourceEdits(ops, sourceId), p) == Growth(ops, sourceId, p)
  {
    hide SortBy, EditsOf, EditGrowth, Growth;
    SortPermutes(RangeKey, EditsOf(ops, sourceId));
    GrowthPermuted(SourceEdits(ops, sourceId), EditsOf(ops, sourceId), p);
    GrowthOfEdits(ops, sourceId, p);
  }

  // ---------- places in the assembled text ----------

  lemma {:induction false} NoGrowth(edits: seq<Edit>, p: nat)
    requires forall i | 0 <= i < |edits| :: edits[i].start >= p
    ensures EditGrowth(edits, p) == 0
  {
    if edits != [] {
      NoGrowth(edits[1..], p);
    }
  }

  lemma {:induction false} LengthAssembled(text: Text, edits: seq<Edit>, from: nat)
    requires InOrder(edits, |text|) && from <= |text| && (edits != [] ==> from <= edits[0].start)
    ensures |Simultaneous(text, edits, from)| == |text| - from + EditGrowth(edits, |text| + 1)
    decreases |edits|
  {
    if edits != [] {
      Bounds(text, edits);
      LengthAssembled(text, edits[1..], edits[0].end);
    }
  }

  lemma Unfolded(text: Text, edits: seq<Edit>, from: nat) returns (e: Edit, rest: seq<Edit>, head: Text, tail: Text)
    requires InOrder(edits, |text|) && edits != [] && from <= edits[0].start
    ensures e == edits[0] && rest == edits[1..] && e.start <= e.end <= |text|
    ensures InOrder(rest, |text|) && (rest != [] ==> e.end <= rest[0].start)
    ensures head == text[from..e.start] + e.newText && tail == Simultaneous(text, rest, e.end)
    ensures Simultaneous(text, edits, from) == head + tail
    ensures |head| == e.start - from + |e.newText|
    ensures forall p: nat :: EditGrowth(edits, p) == Lengthens(e, p) + EditGrowth(rest, p)
  {
    hide InOrder;
    Bounds(text, edits);
    e, rest := edits[0], edits[1..];
    head, tail := text[from..e.start] + e.newText, Simultaneous(text, rest, e.end);
  }

  lemma Behind(head: Text, tail: Text, at: nat, n: nat)
    requires at + n <= |tail|
    ensures (head + tail)[|head| + at..|head| + at + n] == tail[at..at + n]
  {
  }

  lemma Starts(text: Text, edits: seq<Edit>, k: nat)
    requires InOrder(edits, |text|) && k < |edits|
    ensures edits[0].start <= edits[k].start && (k > 0 ==> edits[0].start < edits[k].start)
    ensures forall i | 0 <= i < |edits| :: edits[i].start >= edits[0].start
  {
  }

  /** The text of the `k`-th edit stands at its start, moved by the edits before it. */
  lemma {:induction false} EditAssembled(text: Text, edits: seq<Edit>, from: nat, k: nat)
    requires InOrder(edits, |text|) && from <= |text| && (edits != [] ==> from <= edits[0].start) && k < |edits|
    ensures var r, at := Simultaneous(text, edits, from), edits[k].start - from + EditGrowth(edits, edits[k].start);
      0 <= at <= at + |edits[k].newText| <= |r| && r[at..at + |edits[k].newText|] == edits[k].newText
    decreases |edits|
  {
    hide InOrder, Simultaneous, EditGrowth;
    var e, rest, head, tail := Unfolded(text, edits, from);
    Starts(text, edits, k);
    if k == 0 {
      NoGrowth(edits, e.start);
      Middle(text[from..e.start], e.newText, tail);
    } else {
      var x := edits[k];
      assert x == rest[k - 1];
      EditAssembled(text, rest, e.end, k - 1);
      Behind(head, tail, x.start - e.end + EditGrowth(rest, x.start), |x.newText|);
    }
  }

  lemma Middle(a: Text, b: Text, c: Text)
    ensures ((a + b) + c)[|a|..|a| + |b|] == b
  {
  }

  /** A unit that no edit replaces stands where it was, moved by the edits before it. */
  lemma {:induction false} UnitAssembled(text: Text, edits: seq<Edit>, from: nat, p: nat)
    requires InOrder(edits, |text|) && (edits != [] ==> from <= edits[0].start) && from <= p < |text|
    requires forall i | 0 <= i < |edits| :: p < edits[i].start || edits[i].end <= p
    ensures var r, at := Simultaneous(text, edits, from), p - from + EditGrowth(edits, p + 1);
      0 <= at < |r| && r[at] == text[p]
    decreases |edits|
  {
    hide InOrder;
    if edits != [] {
      hide Simultaneous, EditGrowth;
      var e, rest, head, tail := Unfolded(text, edits, from);
      Starts(text, edits, 0);
      if p < e.start {
        NoGrowth(edits, p + 1);
      } else {
        forall i | 0 <= i < |rest|
          ensures p < rest[i].start || rest[i].end <= p
        {
          assert rest[i] == edits[i + 1];
        }
        UnitAssembled(text, rest, e.end, p);
      }
    }
  }

  // ---------- the previewed texts ----------

  lemma PreviewedInOrder(texts: map<Text, Text>, ops: seq<Operation>, sources: Sources, s: Text)
    requires Previews(texts, ops, sources) && s in texts
    ensures s in sources && InOrder(SourceEdits(ops, s), |sources[s].text|)
    ensures texts[s] == Simultaneous(sources[s].text, SourceEdits(ops, s), 0)
    ensures SourceEdits(ops, s) != [] ==> 0 <= SourceEdits(ops, s)[0].start
  {
  }

  lemma EditAmong(ops: seq<Operation>, s: Text, op: Operation) returns (k: nat)
    requires op in ops && op.TextEdit? && op.sourceId == s
    ensures k < |SourceEdits(ops, s)| && SourceEdits(ops, s)[k] == Edit(op.start, op.end, op.newText)
  {
    hide SortBy, EditsOf;
    EditListed(ops, s, op);
    SortPermutes(RangeKey, EditsOf(ops, s));
    SameElements(SourceEdits(ops, s), EditsOf(ops, s));
    k :| 0 <= k < |SourceEdits(ops, s)| && SourceEdits(ops, s)[k] == Edit(op.start, op.end, op.newText);
  }

  lemma {:induction false} EditListed(ops: seq<Operation>, s: Text, op: Operation)
    requires op in ops && op.TextEdit? && op.sourceId == s
    ensures Edit(op.start, op.end, op.newText) in EditsOf(ops, s)
  {
    if op != ops[0] {
      EditListed(ops[1..], s, op);
    }
  }

  /** The new text of an edit stands in the previewed text at the start of its range, moved by the earlier edits. */
  lemma NewTextStands(texts: map<Text, Text>, ops: seq<Operation>, sources: Sources, op: Operation)
    requires Previews(texts, ops, sources) && op in ops && op.TextEdit?
    ensures op.sourceId in texts
    ensures var r, at := texts[op.sourceId], op.start + Growth(ops, op.sourceId, op.start);
      0 <= at <= at + |op.newText| <= |r| && r[at..at + |op.newText|] == op.newText
  {
    hide SourceEdits, Simultaneous, InOrder, Growth, EditGrowth, RightToLeft;
    PreviewedInOrder(texts, ops, sources, op.sourceId);
    var k := EditAmong(ops, op.sourceId, op);
    EditAssembled(sources[op.sourceId].text, SourceEdits(ops, op.sourceId), 0, k);
    GrowthSorted(ops, op.sourceId, op.start);
  }

  /** A unit of the old text outside all ranges stands in the previewed text, moved by the edits before it. */
  lemma OldTextStands(texts: map<Text, Text>, ops: seq<Operation>, sources: Sources, s: Text, p: nat)
    requires Previews(texts, ops, sources) && s in texts && s in sources && p < |sources[s].text|
    requires forall op | op in ops && op.TextEdit? && op.sourceId == s :: p < op.start || op.end <= p
    ensures var at := p + Growth(ops, s, p + 1); 0 <= at < |texts[s]| && texts[s][at] == sources[s].text[p]
  {
    hide SortBy, EditsOf, Simultaneous, InOrder, Growth, EditGrowth, RightToLeft;
    var edits := SourceEdits(ops, s);
    PreviewedInOrder(texts, ops, sources, s);
    forall i | 0 <= i < |edits|
      ensures p < edits[i].start || edits[i].end <= p
    {
      OfOperation(ops, s, edits[i]);
    }
    UnitAssembled(sources[s].text, edits, 0, p);
    GrowthSorted(ops, s, p + 1);
  }

  lemma OfOperation(ops: seq<Operation>, s: Text, x: Edit)
    requires x in SourceEdits(ops, s)
    ensures exists op :: op in ops && op.TextEdit? && op.sourceId == s && op.start == x.start && op.end == x.end
                         && op.newText == x.newText
  {
    hide SortBy, EditsOf;
    SortPermutes(RangeKey, EditsOf(ops, s));
    SameElements(SourceEdits(ops, s), EditsOf(ops, s));
    var k :| 0 <= k < |EditsOf(ops, s)| && EditsOf(ops, s)[k] == x;
    assert ops[0..] == ops;
    var i := EditAt(ops, s, k, 0);
    assert ops[i] in ops;
  }

  /** Nothing else stands there: the length of the previewed text is that of the old text and all growth. */
  lemma PreviewLength(texts: map<Text, Text>, ops: seq<Operation>, sources: Sources, s: Text)
    requires Previews(texts, ops, sources) && s in texts && s in sources
    ensures |texts[s]| == |sources[s].text| + Growth(ops, s, |sources[s].text| + 1)
  {
    hide SourceEdits, Simultaneous, InOrder, Growth, EditGrowth, RightToLeft;
    PreviewedInOrder(texts, ops, sources, s);
    LengthAssembled(sources[s].text, SourceEdits(ops, s), 0);
    GrowthSorted(ops, s, |sources[s].text| + 1);
  }

  /** One edit replaces its range by its text. */
  lemma OneEdit(texts: map<Text, Text>, op: Operation, sources: Sources)
    requires Previews(texts, [op], sources) && op.TextEdit?
    ensures op.sourceId in texts && op.sourceId in sources
    ensures var t := sources[op.sourceId].text;
      op.start <= op.end <= |t| && texts[op.sourceId] == t[..op.start] + op.newText + t[op.end..]
  {
    hide RightToLeft, SortBy, Simultaneous, InOrder, SourceEdits;
    var s, x := op.sourceId, Edit(op.start, op.end, op.newText);
    assert op in [op];
    OnlyEdit(op);
    PreviewedInOrder(texts, [op], sources, s);
    var e, rest, head, tail := Unfolded(sources[s].text, [x], 0);
    NothingLeft(sources[s].text, x.end);
  }

  lemma OnlyEdit(op: Operation)
    requires op.TextEdit?
    ensures SourceEdits([op], op.sourceId) == [Edit(op.start, op.end, op.newText)]
  {
    hide SortBy;
    assert [op][1..] == [] && EditsOf([], op.sourceId) == [];
    assert EditsOf([op], op.sourceId) == [Edit(op.start, op.end, op.newText)];
    SortOne(Edit(op.start, op.end, op.newText));
  }

  lemma SortOne(x: Edit)
    ensures SortBy(RangeKey, [x]) == [x]
  {
    assert [x][1..] == [];
  }

  /** Two edits of a source overlap exactly when they start at one place or neither ends before the other starts. */
  lemma OverlapSpelled(a: Operation, b: Operation)
    requires a.TextEdit? && b.TextEdit? && a.sourceId == b.sourceId && a.start <= a.end && b.start <= b.end
    ensures !RangesOverlap(a, b) <==> a.start != b.start && (a.end <= b.start || b.end <= a.start)
  {
  }
}
