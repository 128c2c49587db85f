/** Previewing several fix plans together: their conflicts, and the texts that their edits yield. */
module FixPreview {
  import opened Text
  import Utf
  import opened Utf8
  import opened Sorting
  import opened FixPlan
  import opened FixPlanProof
  import Occurrences
  import RepositoryPath

  const SAFE_FIX_MAXIMUM_OPERATIONS := 4_096

  datatype Plan = Plan(id: Text, operations: seq<Operation>)

  datatype Selected = Selected(operation: Operation, planId: Text)

  datatype PreparedEdit = PreparedEdit(sourceId: Text, planId: Text, edit: Edit)

  // ---------- applying the edits of one source ----------

  function RangeKey(e: Edit): seq<int> { [e.start, e.end] }

  /** `applyEdits`: the edits sorted, and the text assembled from left to right. */
  method ApplyEdits(text: Text, edits: seq<Edit>) returns (r: Text)
    requires InOrder(SortBy(RangeKey, edits), |text|)
    ensures r == Simultaneous(text, SortBy(RangeKey, edits), 0)
    ensures r == RightToLeft(text, SortBy(RangeKey, edits))
  {
    hide SortBy, RightToLeft, Simultaneous, InOrder;
    var ordered := SortBy(RangeKey, edits);
    ghost var whole := Simultaneous(text, ordered, 0);
    var cursor: nat := 0;
    r := [];
    assert ordered[0..] == ordered;
    Bounds(text, ordered);
    for i := 0 to |ordered|
      invariant cursor <= |text| && (i < |ordered| ==> cursor <= ordered[i].start)
      invariant InOrder(ordered[i..], |text|) && r + Simultaneous(text, ordered[i..], cursor) == whole
    {
      Bounds(text, ordered[i..]);
      assert ordered[i..][1..] == ordered[i + 1..];
      AssembleStep(text, ordered[i..], cursor, r);
      r := r + text[cursor..ordered[i].start] + ordered[i].newText;
      cursor := ordered[i].end;
    }
    NothingLeft(text, cursor);
    r := r + text[cursor..];
    DropFront(text, ordered, 0);
    assert RightToLeft(text, ordered)[0..] == RightToLeft(text, ordered);
  }

  lemma Bounds(text: Text, edits: seq<Edit>)
    requires InOrder(edits, |text|)
    ensures edits != [] ==> edits[0].start <= edits[0].end <= |text| && InOrder(edits[1..], |text|)
    ensures |edits| > 1 ==> edits[0].end <= edits[1].start
  {
  }

  lemma AssembleStep(text: Text, edits: seq<Edit>, cursor: nat, r: Text)
    requires InOrder(edits, |text|) && edits != [] && cursor <= edits[0].start
    ensures r + text[cursor..edits[0].start] + edits[0].newText + Simultaneous(text, edits[1..], edits[0].end)
            == r + Simultaneous(text, edits, cursor)
  {
    hide InOrder;
    Bounds(text, edits);
  }

  lemma NothingLeft(text: Text, cursor: nat)
    requires cursor <= |text|
    ensures Simultaneous(text, [], cursor) == text[cursor..]
  {
  }

  /** Two edits of one source collide. */
  predicate Collide(a: Edit, b: Edit) {
    a.start == b.start || (a.start < b.end && b.start < a.end)
  }

  ghost predicate Separate(xs: seq<Edit>) {
    forall i, j | 0 <= i < j < |xs| :: !Collide(xs[i], xs[j])
  }

  ghost predicate Within(xs: seq<Edit>, length: nat) {
    forall x | x in xs :: x.start <= x.end <= length
  }

  lemma SeparateKeys(xs: seq<Edit>)
    requires Separate(xs)
    ensures DistinctKeys(RangeKey, xs)
  {
    forall i, j | 0 <= i < j < |xs|
      ensures RangeKey(xs[i]) != RangeKey(xs[j])
    {
      assert RangeKey(xs[i])[0] == xs[i].start && RangeKey(xs[j])[0] == xs[j].start;
    }
  }

  lemma RangeLess(a: Edit, b: Edit)
    requires Less(RangeKey(a), RangeKey(b))
    ensures a.start <= b.start
  {
  }

  /** Edits of which no two collide are in order once they are sorted. */
  lemma SortedInOrder(xs: seq<Edit>, length: nat)
    requires Separate(xs) && Within(xs, length)
    ensures InOrder(SortBy(RangeKey, xs), length)
  {
    hide SortBy, RangeKey, Less;
    var r := SortBy(RangeKey, xs);
    SeparateKeys(xs);
    SortOrdersStrictly(RangeKey, xs);
    SortPermutes(RangeKey, xs);
    SameElements(r, xs);
    forall i | 0 <= i < |r|
      ensures r[i].start <= r[i].end <= length
    {
      assert r[i] in xs;
    }
    forall i, j | 0 <= i < j < |r|
      ensures r[i].start < r[j].start && r[i].end <= r[j].start
    {
      LessTotal(RangeKey(r[i]), RangeKey(r[j]));
      assert r[i] in xs && r[j] in xs;
      var a :| 0 <= a < |xs| && xs[a] == r[i];
      var b :| 0 <= b < |xs| && xs[b] == r[j];
      assert a != b;
      assert !Collide(xs[if a < b then a else b], xs[if a < b then b else a]);
      RangeLess(r[i], r[j]);
    }
  }

  /** Sorting leaves edits in order as they are. */
  lemma SortKeepsOrder(xs: seq<Edit>, length: nat)
    requires InOrder(xs, length)
    ensures SortBy(RangeKey, xs) == xs
  {
    hide SortBy;
    SeparateKeys(xs);
    SortOrdersStrictly(RangeKey, xs);
    SortPermutes(RangeKey, xs);
    SameElements(SortBy(RangeKey, xs), xs);
    StrictlyOrderedUnique(RangeKey, SortBy(RangeKey, xs), xs);
  }

  /**
    For an accepted plan sorting changes nothing, and assembling the text from left to right comes to the same as
    applying the edits one by one from the last to the first.
   */
  lemma ApplyingIsSubstitution(ops: seq<Operation>, sources: Sources, sourceId: Text)
    requires AcceptedPlan(ops, sources) && Storable(sources) && sourceId in sources
    ensures var text, edits := sources[sourceId].text, EditsOf(ops, sourceId);
      && SortBy(RangeKey, edits) == edits && InOrder(edits, |text|)
      && RightToLeft(text, edits) == Simultaneous(text, edits, 0)
  {
    hide AcceptedPlan, RightToLeft, Simultaneous, SortBy;
    AcceptedInOrder(ops, sources, sourceId);
    var text, edits := sources[sourceId].text, EditsOf(ops, sourceId);
    SortKeepsOrder(edits, |text|);
    DropFront(text, edits, 0);
    assert RightToLeft(text, edits)[0..] == RightToLeft(text, edits);
  }

  // ---------- the edits of several plans ----------

  /** The order of the edits: source, start, end, plan. */
  function EditKey(e: PreparedEdit): seq<int> {
    Encode(e.sourceId) + [-1] + ([e.edit.start, e.edit.end] + Encode(e.planId))
  }

  predicate Overlap(a: PreparedEdit, b: PreparedEdit) { a.sourceId == b.sourceId && Collide(a.edit, b.edit) }

  ghost predicate NeighboursApart(es: seq<PreparedEdit>) {
    forall i | 0 < i < |es| :: !Overlap(es[i - 1], es[i])
  }

  ghost predicate AllApart(es: seq<PreparedEdit>) {
    forall i, j | 0 <= i < j < |es| :: !Overlap(es[i], es[j])
  }

  /** Ranges have their ends in order, and sources have well-formed identifiers. */
  ghost predicate Proper(es: seq<PreparedEdit>) {
    forall e | e in es :: e.edit.start <= e.edit.end && Utf.WellFormed(e.sourceId)
  }

  /** Sources compare first, and within a source the starts. */
  lemma EditOrder(a: PreparedEdit, b: PreparedEdit)
    requires !Less(EditKey(b), EditKey(a))
    ensures !Less(Encode(b.sourceId), Encode(a.sourceId))
    ensures a.sourceId == b.sourceId ==> a.edit.start <= b.edit.start
  {
    hide Encode;
    SeparatorOrder(-1, Encode(b.sourceId), [b.edit.start, b.edit.end] + Encode(b.planId),
                   Encode(a.sourceId), [a.edit.start, a.edit.end] + Encode(a.planId));
  }

  /** What stands between two edits of a source in the sorted list is an edit of that source. */
  lemma Between(es: seq<PreparedEdit>, i: nat, m: nat, j: nat)
    requires Ordered(EditKey, es) && Proper(es) && i < m < j < |es| && es[i].sourceId == es[j].sourceId
    ensures es[m].sourceId == es[i].sourceId
  {
    hide Encode, EditKey, Less, Utf.WellFormed;
    EditOrder(es[i], es[m]);
    EditOrder(es[m], es[j]);
    LessTotal(Encode(es[i].sourceId), Encode(es[m].sourceId));
    assert es[i] in es && es[m] in es;
    EncodeInjective(es[i].sourceId, es[m].sourceId);
  }

  lemma {:induction false} Chain(es: seq<PreparedEdit>, i: nat, j: nat)
    requires Ordered(EditKey, es) && Proper(es) && NeighboursApart(es)
    requires i < j < |es| && es[i].sourceId == es[j].sourceId
    ensures es[i].edit.start < es[j].edit.start && es[i].edit.end <= es[j].edit.start
    decreases j - i
  {
    hide EditKey, Less, Utf.WellFormed;
    var m := j - 1;
    if i < m {
      Between(es, i, m, j);
      Chain(es, i, m);
    }
    EditOrder(es[m], es[j]);
    assert !Overlap(es[j - 1], es[j]);
    assert es[m] in es && es[j] in es;
  }

  /** In the sorted list it is enough to compare neighbours. */
  lemma NeighboursSuffice(es: seq<PreparedEdit>)
    requires Ordered(EditKey, es) && Proper(es)
    ensures NeighboursApart(es) <==> AllApart(es)
  {
    hide Ordered, Proper;
    if NeighboursApart(es) {
      forall i, j | 0 <= i < j < |es|
        ensures !Overlap(es[i], es[j])
      {
        if es[i].sourceId == es[j].sourceId {
          Chain(es, i, j);
        }
      }
    }
  }

  lemma ApartPermuted(xs: seq<PreparedEdit>, ys: seq<PreparedEdit>)
    requires multiset(xs) == multiset(ys)
    ensures AllApart(xs) <==> AllApart(ys)
  {
    if AllApart(xs) {
      PairwisePermuted((x, y) => !Overlap(x, y), xs, ys);
    }
    if AllApart(ys) {
      PairwisePermuted((x, y) => !Overlap(x, y), ys, xs);
    }
  }

  // ---------- the operations of the selected plans ----------

  function OperationOf(x: Selected): Operation { x.operation }

  function Operations(chosen: seq<Selected>): (ops: seq<Operation>)
    ensures |ops| == |chosen| && forall i | 0 <= i < |chosen| :: ops[i] == chosen[i].operation
  {
    Occurrences.Map(OperationOf, chosen)
  }

  function OfPlan(p: Plan): seq<Selected> {
    seq(|p.operations|, i requires 0 <= i < |p.operations| => Selected(p.operations[i], p.id))
  }

  /** All operations of the plans, in their order. */
  function Chosen(plans: seq<Plan>): seq<Selected> {
    if plans == [] then [] else Chosen(plans[..|plans| - 1]) + OfPlan(plans[|plans| - 1])
  }

  /** The operations are collected as long as the total stays within the limit. */
  method Collect(plans: seq<Plan>) returns (chosen: Option<seq<Selected>>)
    ensures chosen == if |Chosen(plans)| <= SAFE_FIX_MAXIMUM_OPERATIONS then Some(Chosen(plans)) else None
  {
    var operations: seq<Selected> := [];
    for i := 0 to |plans|
      invariant operations == Chosen(plans[..i]) && |operations| <= SAFE_FIX_MAXIMUM_OPERATIONS
    {
      var p := plans[i];
      assert plans[..i + 1][..i] == plans[..i];
      for j := 0 to |p.operations|
        invariant operations == Chosen(plans[..i]) + OfPlan(p)[..j] && |operations| <= SAFE_FIX_MAXIMUM_OPERATIONS
      {
        if |operations| >= SAFE_FIX_MAXIMUM_OPERATIONS {
          ChosenGrows(plans, i + 1);
          return None;
        }
        operations := operations + [Selected(p.operations[j], p.id)];
      }
      assert OfPlan(p)[..|p.operations|] == OfPlan(p);
    }
    assert plans[..|plans|] == plans;
    chosen := Some(operations);
  }

  lemma {:induction false} ChosenGrows(plans: seq<Plan>, n: nat)
    requires n <= |plans|
    ensures |Chosen(plans[..n])| <= |Chosen(plans)|
    decreases |plans|
  {
    if n < |plans| {
      var shorter := plans[..|plans| - 1];
      assert shorter[..n] == plans[..n];
      ChosenGrows(shorter, n);
    } else {
      assert plans[..n] == plans;
    }
  }

  function Prepare(x: Selected): PreparedEdit
    requires x.operation.TextEdit?
  {
    PreparedEdit(x.operation.sourceId, x.planId, EditOf(x.operation))
  }

  /** The edits among the operations. */
  function Prepared(chosen: seq<Selected>): seq<PreparedEdit> {
    if chosen == [] then []
    else
      var last := chosen[|chosen| - 1];
      Prepared(chosen[..|chosen| - 1]) + if last.operation.TextEdit? then [Prepare(last)] else []
  }

  lemma {:induction false} PreparedExactly(chosen: seq<Selected>, e: PreparedEdit)
    ensures e in Prepared(chosen) <==> exists x :: x in chosen && x.operation.TextEdit? && Prepare(x) == e
  {
    if chosen != [] {
      var before, last := chosen[..|chosen| - 1], chosen[|chosen| - 1];
      PreparedExactly(before, e);
      assert forall x :: x in chosen <==> x in before || x == last;
    }
  }

  /** What the first loop has collected. */
  ghost predicate Registered(ops: seq<Operation>, destinations: set<Text>, moved: set<Text>, edited: set<Text>) {
    && destinations == (set op | op in ops && HasDestination(op) :: Destination(op))
    && moved == (set op | op in ops && op.MoveDocument? :: op.sourceId)
    && edited == (set op | op in ops && op.TextEdit? :: op.sourceId)
  }

  ghost predicate Placed(ops: seq<Operation>, sources: Sources) { DestinationsFree(ops, sources) && MovesDistinct(ops) }

  lemma RegisteredStep(ops: seq<Operation>, op: Operation, destinations: set<Text>, moved: set<Text>, edited: set<Text>)
    requires Registered(ops, destinations, moved, edited)
    ensures Registered(ops + [op],
                       if HasDestination(op) then destinations + {Destination(op)} else destinations,
                       if op.MoveDocument? then moved + {op.sourceId} else moved,
                       if op.TextEdit? then edited + {op.sourceId} else edited)
  {
    assert forall p :: p in ops + [op] <==> p in ops || p == op;
  }

  lemma PlacedStep(ops: seq<Operation>, op: Operation, sources: Sources, destinations: set<Text>, moved: set<Text>,
                   edited: set<Text>)
    requires Registered(ops, destinations, moved, edited) && Placed(ops, sources)
    ensures Placed(ops + [op], sources) <==>
            && (HasDestination(op) ==> Destination(op) !in destinations)
            && (HasDestination(op) ==> forall s | s in sources :: sources[s].path != Destination(op))
            && (op.MoveDocument? ==> op.sourceId !in moved)
  {
    var more := ops + [op];
    assert more[|ops|] == op && forall i | 0 <= i < |ops| :: more[i] == ops[i] && ops[i] in ops;
    if Placed(more, sources) {
      forall p | p in ops
        ensures HasDestination(p) && HasDestination(op) ==> Destination(p) != Destination(op)
        ensures p.MoveDocument? && op.MoveDocument? ==> p.sourceId != op.sourceId
      {
        var i := InOps(ops, p);
        assert more[i] == p && more[|ops|] == op;
      }
    }
  }

  lemma PlacedPrefix(ops: seq<Operation>, n: nat, sources: Sources)
    requires n <= |ops| && Placed(ops, sources)
    ensures Placed(ops[..n], sources)
  {
  }

  /** The loop over the operations: destinations and moves are checked, edits are collected. */
  method Register(chosen: seq<Selected>, sources: Sources)
    returns (ok: bool, edits: seq<PreparedEdit>, moved: set<Text>, edited: set<Text>)
    ensures ok <==> Placed(Operations(chosen), sources)
    ensures ok ==> edits == Prepared(chosen)
    ensures ok ==> moved == set op | op in Operations(chosen) && op.MoveDocument? :: op.sourceId
    ensures ok ==> edited == set op | op in Operations(chosen) && op.TextEdit? :: op.sourceId
  {
    hide Placed, Registered;
    ghost var ops := Operations(chosen);
    var destinations: set<Text> := {};
    ok, edits, moved, edited := true, [], {}, {};
    NothingRegistered(sources);
    for i := 0 to |chosen|
      invariant ok && edits == Prepared(chosen[..i])
      invariant Registered(ops[..i], destinations, moved, edited) && Placed(ops[..i], sources)
    {
      var x := chosen[i];
      var op := x.operation;
      assert chosen[..i + 1][..i] == chosen[..i] && ops[..i + 1] == ops[..i] + [op];
      PlacedStep(ops[..i], op, sources, destinations, moved, edited);
      RegisteredStep(ops[..i], op, destinations, moved, edited);
      if op.TextEdit? {
        edits := edits + [Prepare(x)];
        edited := edited + {op.sourceId};
      } else {
        var destination := Destination(op);
        var existingPaths := set s | s in sources :: sources[s].path;
        if destination in destinations || destination in existingPaths || (op.MoveDocument? && op.sourceId in moved) {
          ok := false;
          if Placed(ops, sources) {
            PlacedPrefix(ops, i + 1, sources);
          }
          return;
        }
        destinations := destinations + {destination};
        if op.MoveDocument? {
          moved := moved + {op.sourceId};
        }
      }
    }
    assert ops[..|chosen|] == ops && chosen[..|chosen|] == chosen;
    RegisteredSets(ops, destinations, moved, edited);
  }

  lemma RegisteredSets(ops: seq<Operation>, destinations: set<Text>, moved: set<Text>, edited: set<Text>)
    requires Registered(ops, destinations, moved, edited)
    ensures moved == set op | op in ops && op.MoveDocument? :: op.sourceId
    ensures edited == set op | op in ops && op.TextEdit? :: op.sourceId
  {
  }

  lemma NothingRegistered(sources: Sources)
    ensures Registered([], {}, {}, {}) && Placed([], sources)
  {
  }

  /** No two edits of the operations overlap: the same for the prepared edits and for the operations. */
  lemma {:induction false} ApartMeansDisjoint(chosen: seq<Selected>)
    ensures AllApart(Prepared(chosen)) <==> EditsDisjoint(Operations(chosen))
  {
    if chosen != [] {
      var before, last := chosen[..|chosen| - 1], chosen[|chosen| - 1];
      ApartMeansDisjoint(before);
      assert Operations(chosen) == Operations(before) + [last.operation];
      DisjointStep(Operations(before), last.operation);
      if last.operation.TextEdit? {
        ApartStep(Prepared(before), Prepare(last));
        forall x | x in before && x.operation.TextEdit?
          ensures Prepare(x) in Prepared(before)
        {
          PreparedExactly(before, Prepare(x));
        }
        forall e | e in Prepared(before)
          ensures exists x :: x in before && x.operation.TextEdit? && Prepare(x) == e
        {
          PreparedExactly(before, e);
        }
        SameNeighbours(before, last);
      } else {
        assert Prepared(chosen) == Prepared(before);
      }
    }
  }

  lemma SameNeighbours(before: seq<Selected>, last: Selected)
    requires last.operation.TextEdit?
    requires forall x | x in before && x.operation.TextEdit? :: Prepare(x) in Prepared(before)
    requires forall e | e in Prepared(before) :: exists x :: x in before && x.operation.TextEdit? && Prepare(x) == e
    ensures (forall e | e in Prepared(before) :: !Overlap(e, Prepare(last))) <==>
            forall p | p in Operations(before) && p.TextEdit? :: !RangesOverlap(p, last.operation)
  {
    hide Prepared, Overlap, RangesOverlap;
    forall x: Selected | x.operation.TextEdit?
      ensures Overlap(Prepare(x), Prepare(last)) == RangesOverlap(x.operation, last.operation)
    {
      SameOverlap(x, last);
    }
    forall i | 0 <= i < |before| && before[i].operation.TextEdit?
      ensures before[i] in before && Prepare(before[i]) in Prepared(before)
    {
    }
    forall p | p in Operations(before)
      ensures exists i :: 0 <= i < |before| && before[i].operation == p
    {
      var i := InOps(Operations(before), p);
    }
    forall x | x in before
      ensures x.operation in Operations(before)
    {
      var i :| 0 <= i < |before| && before[i] == x;
      assert Operations(before)[i] == x.operation;
    }
  }

  lemma SameOverlap(x: Selected, y: Selected)
    requires x.operation.TextEdit? && y.operation.TextEdit?
    ensures Overlap(Prepare(x), Prepare(y)) == RangesOverlap(x.operation, y.operation)
  {
  }

  lemma DisjointStep(ops: seq<Operation>, op: Operation)
    ensures EditsDisjoint(ops + [op]) <==>
            && EditsDisjoint(ops)
            && (op.TextEdit? ==> forall p | p in ops && p.TextEdit? :: !RangesOverlap(p, op))
  {
    var more := ops + [op];
    assert more[|ops|] == op && forall i | 0 <= i < |ops| :: more[i] == ops[i] && ops[i] in ops;
    if EditsDisjoint(more) && op.TextEdit? {
      forall p | p in ops && p.TextEdit?
        ensures !RangesOverlap(p, op)
      {
        var i := InOps(ops, p);
        assert !RangesOverlap(more[i], more[|ops|]);
      }
    }
  }

  lemma ApartStep(es: seq<PreparedEdit>, e: PreparedEdit)
    ensures AllApart(es + [e]) <==> AllApart(es) && forall x | x in es :: !Overlap(x, e)
  {
    var more := es + [e];
    assert more[|es|] == e && forall i | 0 <= i < |es| :: more[i] == es[i] && es[i] in es;
    if AllApart(more) {
      forall x | x in es
        ensures !Overlap(x, e)
      {
        var i :| 0 <= i < |es| && es[i] == x;
        assert !Overlap(more[i], more[|es|]);
      }
    }
  }

  // ---------- conflicts ----------

  /** The loop over neighbours in the sorted list. */
  method CheckNeighbours(edits: seq<PreparedEdit>) returns (ok: bool)
    ensures ok <==> NeighboursApart(edits)
  {
    var index := 1;
    while index < |edits|
      invariant 1 <= index && forall i | 0 < i < index && i < |edits| :: !Overlap(edits[i - 1], edits[i])
    {
      if Overlap(edits[index - 1], edits[index]) {
        return false;
      }
      index := index + 1;
    }
    ok := true;
  }

  ghost predicate AllValid(ops: seq<Operation>, sources: Sources) {
    forall op | op in ops :: ValidOperation(op, sources)
  }

  ghost predicate WellNamed(sources: Sources) {
    forall s | s in sources :: Utf.WellFormed(s)
  }

  lemma PreparedProper(chosen: seq<Selected>, sources: Sources)
    requires AllValid(Operations(chosen), sources) && WellNamed(sources)
    ensures Proper(Prepared(chosen))
  {
    hide Prepared, FixText, RepositoryPath.IsRepositoryRelativePath, Utf.WellFormed;
    forall e | e in Prepared(chosen)
      ensures e.edit.start <= e.edit.end && Utf.WellFormed(e.sourceId)
    {
      PreparedExactly(chosen, e);
      var x :| x in chosen && x.operation.TextEdit? && Prepare(x) == e;
      var i :| 0 <= i < |chosen| && chosen[i] == x;
      assert Operations(chosen)[i] == x.operation;
      assert ValidOperation(x.operation, sources);
    }
  }

  /** Comparing neighbours in the sorted list finds a conflict exactly when two edits of the plans overlap. */
  lemma ConflictsFound(chosen: seq<Selected>, sources: Sources)
    requires AllValid(Operations(chosen), sources) && WellNamed(sources)
    ensures NeighboursApart(SortBy(EditKey, Prepared(chosen))) <==> EditsDisjoint(Operations(chosen))
  {
    hide SortBy, Prepared, Proper, AllValid, WellNamed, AllApart, NeighboursApart, EditsDisjoint;
    var edits := Prepared(chosen);
    var sorted := SortBy(EditKey, edits);
    PreparedProper(chosen, sources);
    SortOrders(EditKey, edits);
    SortPermutes(EditKey, edits);
    ProperPermuted(edits, sorted);
    NeighboursSuffice(sorted);
    ApartPermuted(edits, sorted);
    ApartMeansDisjoint(chosen);
  }

  lemma ProperPermuted(xs: seq<PreparedEdit>, ys: seq<PreparedEdit>)
    requires multiset(xs) == multiset(ys) && Proper(xs)
    ensures Proper(ys)
  {
    hide Utf.WellFormed;
    SameElements(xs, ys);
  }

  // ---------- the edits by source ----------

  function EditsFor(edits: seq<PreparedEdit>, sourceId: Text): seq<Edit> {
    if edits == [] then []
    else
      var last := edits[|edits| - 1];
      EditsFor(edits[..|edits| - 1], sourceId) + if last.sourceId == sourceId then [last.edit] else []
  }

  lemma {:induction false} EditsForExactly(edits: seq<PreparedEdit>, sourceId: Text, x: Edit)
    ensures x in EditsFor(edits, sourceId) <==> exists e :: e in edits && e.sourceId == sourceId && e.edit == x
  {
    if edits != [] {
      var before, last := edits[..|edits| - 1], edits[|edits| - 1];
      EditsForExactly(before, sourceId, x);
      assert forall e :: e in edits <==> e in before || e == last;
    }
  }

  lemma {:induction false} ApartSeparates(edits: seq<PreparedEdit>, sourceId: Text)
    requires AllApart(edits)
    ensures Separate(EditsFor(edits, sourceId))
  {
    if edits != [] {
      var before, last := edits[..|edits| - 1], edits[|edits| - 1];
      assert edits == before + [last];
      ApartStep(before, last);
      ApartSeparates(before, sourceId);
      forall x | x in EditsFor(before, sourceId) && last.sourceId == sourceId
        ensures !Collide(x, last.edit)
      {
        EditsForExactly(before, sourceId, x);
        var e :| e in before && e.sourceId == sourceId && e.edit == x;
        assert !Overlap(e, last);
      }
      SeparateStep(EditsFor(before, sourceId), last.edit);
    }
  }

  lemma SeparateStep(xs: seq<Edit>, x: Edit)
    ensures Separate(xs) && (forall y | y in xs :: !Collide(y, x)) ==> Separate(xs + [x])
  {
  }

  /** The edits that the loop over sources gets, before they are sorted once more. */
  lemma SameEdits(chosen: seq<Selected>, sorted: seq<PreparedEdit>, sourceId: Text)
    requires multiset(sorted) == multiset(Prepared(chosen)) && AllApart(Prepared(chosen))
    ensures Separate(EditsFor(sorted, sourceId)) && Separate(EditsOf(Operations(chosen), sourceId))
    ensures SortBy(RangeKey, EditsFor(sorted, sourceId)) == SourceEdits(Operations(chosen), sourceId)
  {
    hide SortBy, Prepared, AllApart, EditsFor, EditsOf, Separate;
    var edits := Prepared(chosen);
    ApartPermuted(edits, sorted);
    ApartSeparates(sorted, sourceId);
    ApartSeparates(edits, sourceId);
    PlanOrder(chosen, sourceId);
    SeparateKeys(EditsFor(sorted, sourceId));
    SeparateKeys(EditsFor(edits, sourceId));
    SameElements(edits, sorted);
    forall x
      ensures x in EditsFor(sorted, sourceId) <==> x in EditsFor(edits, sourceId)
    {
      EditsForExactly(sorted, sourceId, x);
      EditsForExactly(edits, sourceId, x);
    }
    SortDependsOnElements(RangeKey, EditsFor(sorted, sourceId), EditsFor(edits, sourceId));
  }

  /** The edits of a source among all operations, sorted by their ranges. */
  function SourceEdits(ops: seq<Operation>, sourceId: Text): seq<Edit> { SortBy(RangeKey, EditsOf(ops, sourceId)) }

  lemma {:induction false} EditsOfAppend(ops: seq<Operation>, op: Operation, sourceId: Text)
    ensures EditsOf(ops + [op], sourceId)
            == EditsOf(ops, sourceId) + if op.TextEdit? && op.sourceId == sourceId then [EditOf(op)] else []
  {
    if ops == [] {
      assert [op][1..] == [];
    } else {
      assert (ops + [op])[1..] == ops[1..] + [op];
      EditsOfAppend(ops[1..], op, sourceId);
    }
  }

  lemma {:induction false} PlanOrder(chosen: seq<Selected>, sourceId: Text)
    ensures EditsFor(Prepared(chosen), sourceId) == EditsOf(Operations(chosen), sourceId)
  {
    if chosen != [] {
      var before, last := chosen[..|chosen| - 1], chosen[|chosen| - 1];
      PlanOrder(before, sourceId);
      assert Operations(chosen) == Operations(before) + [last.operation];
      EditsOfAppend(Operations(before), last.operation, sourceId);
      if last.operation.TextEdit? {
        assert Prepared(chosen)[..|Prepared(chosen)| - 1] == Prepared(before);
      } else {
        assert Prepared(chosen) == Prepared(before);
      }
    } else {
      assert Operations(chosen) == [];
    }
  }

  /** The map holds for each source that is edited its edits, in their order. */
  ghost predicate Grouped(edits: seq<PreparedEdit>, editsBySource: map<Text, seq<Edit>>) {
    forall s :: && (s in editsBySource <==> EditsFor(edits, s) != [])
                && (s in editsBySource ==> editsBySource[s] == EditsFor(edits, s))
  }

  lemma GroupedStep(edits: seq<PreparedEdit>, edit: PreparedEdit, editsBySource: map<Text, seq<Edit>>)
    requires Grouped(edits, editsBySource)
    ensures var selected := if edit.sourceId in editsBySource then editsBySource[edit.sourceId] else [];
      Grouped(edits + [edit], editsBySource[edit.sourceId := selected + [edit.edit]])
  {
    var more := edits + [edit];
    assert more[..|more| - 1] == edits;
    var selected := if edit.sourceId in editsBySource then editsBySource[edit.sourceId] else [];
    forall s
      ensures EditsFor(more, s) == if s == edit.sourceId then selected + [edit.edit] else EditsFor(edits, s)
    {
      assert s !in editsBySource ==> EditsFor(edits, s) == [];
    }
  }

  /** The map from sources to their edits, and its keys in the order of insertion. */
  method GroupBySource(edits: seq<PreparedEdit>) returns (keys: seq<Text>, editsBySource: map<Text, seq<Edit>>)
    ensures forall s :: s in keys <==> s in editsBySource
    ensures Grouped(edits, editsBySource)
  {
    hide EditsFor;
    keys, editsBySource := [], map[];
    NothingGrouped();
    for i := 0 to |edits|
      invariant forall s :: s in keys <==> s in editsBySource
      invariant Grouped(edits[..i], editsBySource)
    {
      hide Grouped;
      var edit := edits[i];
      assert edits[..i + 1] == edits[..i] + [edit];
      GroupedStep(edits[..i], edit, editsBySource);
      var selected := if edit.sourceId in editsBySource then editsBySource[edit.sourceId] else [];
      if edit.sourceId !in editsBySource {
        keys := keys + [edit.sourceId];
      }
      editsBySource := editsBySource[edit.sourceId := selected + [edit.edit]];
    }
    assert edits[..|edits|] == edits;
  }

  lemma NothingGrouped()
    ensures Grouped([], map[])
  {
  }

  // ---------- the preview ----------

  /** The conditions of a single plan, apart from the order of its keys. */
  ghost predicate Compatible(ops: seq<Operation>, sources: Sources) {
    DestinationsFree(ops, sources) && MovesDistinct(ops) && EditsDisjoint(ops) && NoneEditedAndMoved(ops)
  }

  /** The text of an edited source after all edits. */
  ghost function After(text: Text, edits: seq<Edit>): Text
    requires InOrder(edits, |text|)
  {
    Simultaneous(text, edits, 0)
  }

  /** The new text differs from the old one and keeps the limit of one write. */
  ghost predicate Writable(text: Text, edits: seq<Edit>, maximumBytes: nat) {
    InOrder(edits, |text|) && |Encode(After(text, edits))| <= maximumBytes && Encode(After(text, edits)) != Encode(text)
  }

  lemma SourceInOrder(chosen: seq<Selected>, sources: Sources, s: Text)
    requires AllValid(Operations(chosen), sources) && EditsDisjoint(Operations(chosen)) && s in sources
    ensures InOrder(SourceEdits(Operations(chosen), s), |sources[s].text|)
  {
    hide SortBy, Prepared, AllApart, EditsOf, EditsDisjoint, InOrder, Separate;
    var ops := Operations(chosen);
    ApartMeansDisjoint(chosen);
    SameEdits(chosen, Prepared(chosen), s);
    assert ops[0..] == ops;
    forall x | x in EditsOf(ops, s)
      ensures x.start <= x.end <= |sources[s].text|
    {
      var k :| 0 <= k < |EditsOf(ops, s)| && EditsOf(ops, s)[k] == x;
      var i := EditAt(ops, s, k, 0);
      assert ValidOperation(ops[i], sources);
    }
    SortedInOrder(EditsOf(ops, s), |sources[s].text|);
  }

  lemma {:induction false} EditedExactly(ops: seq<Operation>, s: Text)
    ensures EditsOf(ops, s) != [] <==> exists op :: op in ops && op.TextEdit? && op.sourceId == s
  {
    if ops != [] {
      EditedExactly(ops[1..], s);
      assert forall op :: op in ops <==> op == ops[0] || op in ops[1..];
    }
  }

  /** What a preview accepts. */
  ghost predicate Previewable(plans: seq<Plan>, sources: Sources, maximumBytes: nat) {
    var ops := Operations(Chosen(plans));
    && (forall p | p in plans :: AcceptedPlan(p.operations, sources))
    && |ops| <= SAFE_FIX_MAXIMUM_OPERATIONS
    && Compatible(ops, sources)
    && forall op | op in ops && op.TextEdit? ::
         op.sourceId in sources && Writable(sources[op.sourceId].text, SourceEdits(ops, op.sourceId), maximumBytes)
  }

  /** What it yields: the texts of exactly the edited sources, after all edits. */
  ghost predicate Previews(texts: map<Text, Text>, ops: seq<Operation>, sources: Sources) {
    && texts.Keys == (set op | op in ops && op.TextEdit? :: op.sourceId)
    && forall s | s in texts ::
         && s in sources && InOrder(SourceEdits(ops, s), |sources[s].text|)
         && texts[s] == After(sources[s].text, SourceEdits(ops, s))
         && texts[s] == RightToLeft(sources[s].text, SourceEdits(ops, s))
  }

  /** The loop over the edited sources. */
  method ApplyAll(chosen: seq<Selected>, sorted: seq<PreparedEdit>, sources: Sources, maximumBytes: nat)
    returns (r: Option<map<Text, Text>>)
    requires AllValid(Operations(chosen), sources) && EditsDisjoint(Operations(chosen))
    requires multiset(sorted) == multiset(Prepared(chosen))
    ensures r.Some? <==> forall op | op in Operations(chosen) && op.TextEdit? ::
              && op.sourceId in sources
              && Writable(sources[op.sourceId].text, SourceEdits(Operations(chosen), op.sourceId), maximumBytes)
    ensures r.Some? ==> Previews(r.value, Operations(chosen), sources)
  {
    hide AllValid, EditsDisjoint, Prepared, EditsFor, EditsOf, SourceEdits, Simultaneous, RightToLeft, Encode, Grouped,
         InOrder, SortBy;
    var keys, editsBySource := GroupBySource(sorted);
    ghost var ops := Operations(chosen);
    EditedSources(chosen, sorted, sources, editsBySource);
    var texts: map<Text, Text> := map[];
    for i := 0 to |keys|
      invariant texts.Keys == set s | s in keys[..i]
      invariant forall s | s in keys[..i] :: Writable(sources[s].text, SourceEdits(ops, s), maximumBytes)
      invariant forall s | s in texts :: texts[s] == After(sources[s].text, SourceEdits(ops, s))
                                         == RightToLeft(sources[s].text, SourceEdits(ops, s))
    {
      var s := keys[i];
      assert keys[..i + 1] == keys[..i] + [s];
      var text := sources[s].text;
      var applied := ApplyEdits(text, editsBySource[s]);
      var bytes := Encode(applied);
      if |bytes| > maximumBytes || bytes == Encode(text) {
        return None;
      }
      texts := texts[s := applied];
    }
    assert keys[..|keys|] == keys;
    r := Some(texts);
  }

  /** The keys of the map are the edited sources, and their edits sort to the edits of the operations. */
  lemma EditedSources(chosen: seq<Selected>, sorted: seq<PreparedEdit>, sources: Sources,
                      editsBySource: map<Text, seq<Edit>>)
    requires AllValid(Operations(chosen), sources) && EditsDisjoint(Operations(chosen))
    requires multiset(sorted) == multiset(Prepared(chosen)) && Grouped(sorted, editsBySource)
    ensures forall s ::
              s in editsBySource <==> exists op :: op in Operations(chosen) && op.TextEdit? && op.sourceId == s
    ensures forall s | s in editsBySource ::
              && s in sources && InOrder(SourceEdits(Operations(chosen), s), |sources[s].text|)
              && SortBy(RangeKey, editsBySource[s]) == SourceEdits(Operations(chosen), s)
  {
    hide AllValid, EditsDisjoint, Prepared, EditsFor, EditsOf, SourceEdits, InOrder, SortBy;
    var ops := Operations(chosen);
    ApartMeansDisjoint(chosen);
    forall s
      ensures s in editsBySource <==> exists op :: op in ops && op.TextEdit? && op.sourceId == s
      ensures s in editsBySource ==>
                && s in sources && InOrder(SourceEdits(ops, s), |sources[s].text|)
                && SortBy(RangeKey, editsBySource[s]) == SourceEdits(ops, s)
    {
      EditedExactly(ops, s);
      SameLength(chosen, sorted, s);
      SameEdits(chosen, sorted, s);
      if s in editsBySource {
        KnownSource(ops, sources, s);
        SourceInOrder(chosen, sources, s);
      }
    }
  }

  lemma KnownSource(ops: seq<Operation>, sources: Sources, s: Text)
    requires AllValid(ops, sources) && exists op :: op in ops && op.TextEdit? && op.sourceId == s
    ensures s in sources
  {
    var op :| op in ops && op.TextEdit? && op.sourceId == s;
    assert ValidOperation(op, sources);
  }

  lemma SameLength(chosen: seq<Selected>, sorted: seq<PreparedEdit>, s: Text)
    requires multiset(sorted) == multiset(Prepared(chosen))
    ensures EditsFor(sorted, s) != [] <==> EditsOf(Operations(chosen), s) != []
  {
    hide Prepared, EditsFor, EditsOf;
    var edits := Prepared(chosen);
    SameElements(edits, sorted);
    PlanOrder(chosen, s);
    if EditsFor(sorted, s) != [] {
      EditsForExactly(sorted, s, EditsFor(sorted, s)[0]);
      EditsForExactly(edits, s, EditsFor(sorted, s)[0]);
    }
    if EditsFor(edits, s) != [] {
      EditsForExactly(edits, s, EditsFor(edits, s)[0]);
      EditsForExactly(sorted, s, EditsFor(edits, s)[0]);
    }
  }

  /**
    The preview of the selected plans. It succeeds exactly when each plan is accepted, all their operations together
    satisfy the conditions of one plan, and each edited source changes within the limit; then it yields the new texts.
   */
  method Preview(plans: seq<Plan>, sources: Sources, maximumBytes: nat) returns (r: Option<map<Text, Text>>)
    requires WellNamed(sources)
    ensures r.Some? <==> Previewable(plans, sources, maximumBytes)
    ensures r.Some? ==> Previews(r.value, Operations(Chosen(plans)), sources)
  {
    hide AcceptedPlan, Chosen, Prepared, DestinationsFree, MovesDistinct, EditsDisjoint, NoneEditedAndMoved, Writable,
         Previews, SortBy, NeighboursApart, AllValid;
    for i := 0 to |plans|
      invariant forall p | p in plans[..i] :: AcceptedPlan(p.operations, sources)
    {
      var ok := ValidateFixPlan(plans[i].operations, sources);
      if !ok {
        return None;
      }
    }
    assert plans[..|plans|] == plans;
    var chosen := Collect(plans);
    if chosen.None? {
      return None;
    }
    AcceptedAreValid(plans, sources);
    var ok, edits, moved, edited := Register(chosen.value, sources);
    if !ok {
      return None;
    }
    var sorted := SortBy(EditKey, edits);
    ConflictsFound(chosen.value, sources);
    ok := CheckNeighbours(sorted);
    if !ok {
      return None;
    }
    MovedAndEdited(Operations(chosen.value), moved, edited);
    if moved * edited != {} {
      return None;
    }
    SortPermutes(EditKey, edits);
    r := ApplyAll(chosen.value, sorted, sources, maximumBytes);
  }

  lemma {:induction false} AcceptedAreValid(plans: seq<Plan>, sources: Sources)
    requires forall p | p in plans :: AcceptedPlan(p.operations, sources)
    ensures AllValid(Operations(Chosen(plans)), sources)
  {
    hide ValidOperation;
    if plans != [] {
      var before, last := plans[..|plans| - 1], plans[|plans| - 1];
      AcceptedAreValid(before, sources);
      assert last in plans;
      assert Operations(Chosen(plans)) == Operations(Chosen(before)) + last.operations;
    }
  }

  // ---------- the new texts are well-formed ----------

  /** Edits with well-formed texts, whose ranges cut no surrogate pair. */
  ghost predicate Clean(edits: seq<Edit>, text: Text) {
    forall x | x in edits :: Utf.WellFormed(x.newText) && ValidRange(x.start, x.end, text)
  }

  lemma {:induction false} AssembledWellFormed(text: Text, edits: seq<Edit>, from: nat)
    requires InOrder(edits, |text|) && from <= |text| && (edits != [] ==> from <= edits[0].start)
    requires Clean(edits, text) && Utf.WellFormed(text) && !Utf.SplitsPair(text, from)
    ensures Utf.WellFormed(Simultaneous(text, edits, from))
    decreases |edits|
  {
    hide Utf.WellFormed, Utf.SplitsPair, InOrder;
    if edits == [] {
      Utf.CutWellFormed(text, from);
    } else {
      var e := edits[0];
      assert e in edits;
      Bounds(text, edits);
      Utf.Stretch(text, from, e.start);
      AssembledWellFormed(text, edits[1..], e.end);
      Utf.WellFormedConcat(text[from..e.start], e.newText);
      Utf.WellFormedConcat(text[from..e.start] + e.newText, Simultaneous(text, edits[1..], e.end));
    }
  }

  lemma SourceClean(ops: seq<Operation>, sources: Sources, s: Text)
    requires AllValid(ops, sources) && s in sources
    ensures Clean(SourceEdits(ops, s), sources[s].text)
  {
    hide SortBy, EditsOf, Utf.WellFormed, ValidRange;
    SortPermutes(RangeKey, EditsOf(ops, s));
    SameElements(SourceEdits(ops, s), EditsOf(ops, s));
    assert ops[0..] == ops;
    forall x | x in EditsOf(ops, s)
      ensures Utf.WellFormed(x.newText) && ValidRange(x.start, x.end, sources[s].text)
    {
      var k :| 0 <= k < |EditsOf(ops, s)| && EditsOf(ops, s)[k] == x;
      var i := EditAt(ops, s, k, 0);
      assert ValidOperation(ops[i], sources);
    }
  }

  /** The new text of a well-formed source is well-formed: its bytes decode to it, and it is not the old text. */
  lemma PreviewWellFormed(plans: seq<Plan>, sources: Sources, maximumBytes: nat, texts: map<Text, Text>, s: Text)
    requires Previewable(plans, sources, maximumBytes) && Previews(texts, Operations(Chosen(plans)), sources)
    requires s in texts && Utf.WellFormed(sources[s].text)
    ensures Utf.WellFormed(texts[s]) && Decode(Encode(texts[s])) == Some(texts[s]) && texts[s] != sources[s].text
  {
    hide Chosen, AcceptedPlan, Compatible, InOrder, SourceEdits, Simultaneous, RightToLeft, Encode, Decode,
         Utf.WellFormed, AllValid;
    var ops := Operations(Chosen(plans));
    AcceptedAreValid(plans, sources);
    SourceClean(ops, sources, s);
    FirstInOrder(sources[s].text, SourceEdits(ops, s));
    AssembledWellFormed(sources[s].text, SourceEdits(ops, s), 0);
    DecodeEncode(texts[s]);
    var op :| op in ops && op.TextEdit? && op.sourceId == s;
    assert Writable(sources[s].text, SourceEdits(ops, s), maximumBytes);
  }

  lemma FirstInOrder(text: Text, edits: seq<Edit>)
    requires InOrder(edits, |text|)
    ensures !Utf.SplitsPair(text, 0) && (edits != [] ==> 0 <= edits[0].start)
  {
  }

  // ---------- the order of the plans does not matter ----------

  lemma {:induction false} ChosenConcat(a: seq<Plan>, b: seq<Plan>)
    ensures Chosen(a + b) == Chosen(a) + Chosen(b)
    decreases |b|
  {
    if b == [] {
      assert a + b == a;
    } else {
      assert (a + b)[..|a + b| - 1] == a + b[..|b| - 1];
      ChosenConcat(a, b[..|b| - 1]);
    }
  }

  lemma ChosenWithout(plans: seq<Plan>, i: nat)
    requires i < |plans|
    ensures multiset(Chosen(plans)) == multiset(Chosen(plans[..i] + plans[i + 1..])) + multiset(OfPlan(plans[i]))
  {
    hide Chosen, OfPlan;
    var before, p, after := plans[..i], plans[i], plans[i + 1..];
    ChosenConcat(before, after);
    ChosenConcat(before, [p] + after);
    ChosenConcat([p], after);
    ChosenOne(p);
    assert plans == before + ([p] + after);
  }

  lemma ChosenOne(p: Plan)
    ensures Chosen([p]) == OfPlan(p)
  {
    assert [p][..0] == [];
  }

  lemma {:induction false} ChosenPermuted(a: seq<Plan>, b: seq<Plan>)
    requires multiset(a) == multiset(b)
    ensures multiset(Chosen(a)) == multiset(Chosen(b))
    decreases |a|
  {
    hide Chosen, OfPlan;
    SameElements(a, b);
    if a != [] {
      var i, rest := Occurrences.TakeOut(a, b);
      ChosenPermuted(a[1..], rest);
      assert a[..0] + a[1..] == a[1..];
      ChosenWithout(a, 0);
      ChosenWithout(b, i);
    } else {
      assert a == b;
    }
  }

  lemma OperationsPermuted(a: seq<Selected>, b: seq<Selected>)
    requires multiset(a) == multiset(b)
    ensures multiset(Operations(a)) == multiset(Operations(b))
  {
    Occurrences.MapPermuted(OperationOf, a, b);
  }

  lemma CompatiblePermuted(a: seq<Operation>, b: seq<Operation>, sources: Sources)
    requires multiset(a) == multiset(b) && Compatible(a, sources)
    ensures Compatible(b, sources)
  {
    SameElements(a, b);
    PairwisePermuted((x: Operation, y: Operation) =>
                       HasDestination(x) && HasDestination(y) ==> Destination(x) != Destination(y), a, b);
    PairwisePermuted((x: Operation, y: Operation) =>
                       x.MoveDocument? && y.MoveDocument? ==> x.sourceId != y.sourceId, a, b);
    PairwisePermuted((x: Operation, y: Operation) => x.TextEdit? && y.TextEdit? ==> !RangesOverlap(x, y), a, b);
    forall i | 0 <= i < |b|
      ensures exists j :: 0 <= j < |a| && a[j] == b[i]
    {
      assert b[i] in a;
    }
  }

  lemma SourceEditsPermuted(a: seq<Selected>, b: seq<Selected>, s: Text)
    requires multiset(a) == multiset(b) && EditsDisjoint(Operations(a)) && EditsDisjoint(Operations(b))
    ensures SourceEdits(Operations(a), s) == SourceEdits(Operations(b), s)
  {
    hide SortBy, Prepared, EditsOf, EditsDisjoint, AllApart, Separate;
    ApartMeansDisjoint(a);
    ApartMeansDisjoint(b);
    SameEdits(a, Prepared(a), s);
    SameEdits(b, Prepared(b), s);
    SeparateKeys(EditsOf(Operations(a), s));
    SeparateKeys(EditsOf(Operations(b), s));
    SameElements(a, b);
    forall x
      ensures x in EditsOf(Operations(a), s) <==> x in EditsOf(Operations(b), s)
    {
      EditChosen(a, s, x);
      EditChosen(b, s, x);
    }
    SortDependsOnElements(RangeKey, EditsOf(Operations(a), s), EditsOf(Operations(b), s));
  }

  lemma EditChosen(chosen: seq<Selected>, s: Text, x: Edit)
    ensures x in EditsOf(Operations(chosen), s) <==>
            exists y :: y in chosen && y.operation.TextEdit? && y.operation.sourceId == s && EditOf(y.operation) == x
  {
    hide Prepared, EditsFor, EditsOf;
    PlanOrder(chosen, s);
    EditsForExactly(Prepared(chosen), s, x);
    if x in EditsOf(Operations(chosen), s) {
      var e :| e in Prepared(chosen) && e.sourceId == s && e.edit == x;
      PreparedExactly(chosen, e);
    }
    if y :| y in chosen && y.operation.TextEdit? && y.operation.sourceId == s && EditOf(y.operation) == x {
      PreparedExactly(chosen, Prepare(y));
    }
  }

  /** Whichever order the plans are selected in, the preview accepts the same and yields the same texts. */
  lemma OrderIndependent(a: seq<Plan>, b: seq<Plan>, sources: Sources, maximumBytes: nat)
    requires multiset(a) == multiset(b)
    ensures Previewable(a, sources, maximumBytes) ==> Previewable(b, sources, maximumBytes)
    ensures Previewable(a, sources, maximumBytes) ==>
              forall texts :: Previews(texts, Operations(Chosen(a)), sources)
                              <==> Previews(texts, Operations(Chosen(b)), sources)
  {
    hide Chosen, AcceptedPlan, Compatible, SourceEdits, Writable, Simultaneous, RightToLeft, InOrder;
    if Previewable(a, sources, maximumBytes) {
      var x, y := Chosen(a), Chosen(b);
      SameElements(a, b);
      ChosenPermuted(a, b);
      OperationsPermuted(x, y);
      SameElements(x, y);
      SameElements(Operations(x), Operations(y));
      CompatiblePermuted(Operations(x), Operations(y), sources);
      forall s
        ensures SourceEdits(Operations(x), s) == SourceEdits(Operations(y), s)
      {
        CompatibleDisjoint(Operations(x), sources);
        CompatibleDisjoint(Operations(y), sources);
        SourceEditsPermuted(x, y, s);
      }
    }
  }

  lemma CompatibleDisjoint(ops: seq<Operation>, sources: Sources)
    requires Compatible(ops, sources)
    ensures EditsDisjoint(ops)
  {
  }
}
