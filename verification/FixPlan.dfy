/** Atomic fix plans: the canonical order of their operations, and what their text edits do. */
module FixPlan {
  import opened Text
  import Utf
  import opened Utf8
  import opened Numerals
  import RepositoryPath

  datatype Operation =
    | CreateDocument(path: Text, content: Text)
    | MoveDocument(path: Text, sourceId: Text, destinationPath: Text)
    | TextEdit(path: Text, sourceId: Text, start: nat, end: nat, newText: Text)

  datatype SourceDocument = SourceDocument(path: Text, text: Text)

  type Sources = map<Text, SourceDocument>

  const MAX_FIX_OPERATIONS_PER_PLAN := 1_024
  const MAX_FIX_TEXT_BYTES := 1_048_576
  const NUL: CodeUnit := 0
  const ZERO: CodeUnit := 0x30
  const CREATE := "create-document"
  const MOVE := "move-document"
  const EDIT := "text-edit"

  function Zeros(n: nat): (t: Text)
    ensures |t| == n && forall i | 0 <= i < n :: t[i] == ZERO
  {
    seq(n, i => ZERO)
  }

  /** `padStart(16, "0")`. */
  function Padded(n: nat): Text {
    var t := Show(n);
    if |t| >= 16 then t else Zeros(16 - |t|) + t
  }

  function OperationSortKey(op: Operation): Text {
    match op
    case CreateDocument(path, _) => path + [NUL] + TextOf(CREATE)
    case MoveDocument(path, _, destination) => path + [NUL] + (TextOf(MOVE) + [NUL] + destination)
    case TextEdit(path, _, start, _, _) => path + [NUL] + (TextOf(EDIT) + [NUL] + Padded(start))
  }

  predicate CompareUtf8Below(a: Text, b: Text) { Less(Encode(a), Encode(b)) }

  predicate RangesOverlap(a: Operation, b: Operation)
    requires a.TextEdit? && b.TextEdit?
  {
    a.sourceId == b.sourceId && (a.start == b.start || (a.start < b.end && b.start < a.end))
  }

  /** The texts that an operation may write. */
  predicate FixText(t: Text) { Utf.WellFormed(t) && Utf.ByteLength(t) <= MAX_FIX_TEXT_BYTES }

  /** A range of the source that lies within its text and does not cut a surrogate pair. */
  predicate ValidRange(start: nat, end: nat, text: Text) {
    start <= end <= |text| && !Utf.SplitsPair(text, start) && !Utf.SplitsPair(text, end)
  }

  /** What the check of a single operation has established. */
  predicate ValidOperation(op: Operation, sources: Sources) {
    && RepositoryPath.IsRepositoryRelativePath(op.path)
    && (op.MoveDocument? ==> (&& RepositoryPath.IsRepositoryRelativePath(op.destinationPath)
                              && op.destinationPath != op.path))
    && (!op.CreateDocument? ==> op.sourceId in sources && sources[op.sourceId].path == op.path)
    && (op.CreateDocument? ==> FixText(op.content))
    && (op.TextEdit? ==> FixText(op.newText) && ValidRange(op.start, op.end, sources[op.sourceId].text))
  }

  predicate HasDestination(op: Operation) { !op.TextEdit? }

  function Destination(op: Operation): Text
    requires HasDestination(op)
  {
    if op.CreateDocument? then op.path else op.destinationPath
  }

  // ---------- the checks on the whole plan ----------

  predicate KeysAscend(ops: seq<Operation>) {
    forall i | 0 < i < |ops| :: CompareUtf8Below(OperationSortKey(ops[i - 1]), OperationSortKey(ops[i]))
  }

  predicate DestinationsFree(ops: seq<Operation>, sources: Sources) {
    && (forall i | 0 <= i < |ops| && HasDestination(ops[i]) ::
          forall s | s in sources :: sources[s].path != Destination(ops[i]))
    && (forall i, j | 0 <= i < j < |ops| && HasDestination(ops[i]) && HasDestination(ops[j]) ::
          Destination(ops[i]) != Destination(ops[j]))
  }

  predicate MovesDistinct(ops: seq<Operation>) {
    forall i, j | 0 <= i < j < |ops| && ops[i].MoveDocument? && ops[j].MoveDocument? ::
      ops[i].sourceId != ops[j].sourceId
  }

  predicate EditsDisjoint(ops: seq<Operation>) {
    forall i, j | 0 <= i < j < |ops| && ops[i].TextEdit? && ops[j].TextEdit? :: !RangesOverlap(ops[i], ops[j])
  }

  predicate NoneEditedAndMoved(ops: seq<Operation>) {
    forall i, j | 0 <= i < |ops| && 0 <= j < |ops| && ops[i].MoveDocument? && ops[j].TextEdit? ::
      ops[i].sourceId != ops[j].sourceId
  }

  predicate AcceptedPlan(ops: seq<Operation>, sources: Sources) {
    && 1 <= |ops| <= MAX_FIX_OPERATIONS_PER_PLAN
    && (forall i | 0 <= i < |ops| :: ValidOperation(ops[i], sources))
    && KeysAscend(ops) && DestinationsFree(ops, sources) && MovesDistinct(ops) && EditsDisjoint(ops)
    && NoneEditedAndMoved(ops)
  }

  /** What the loop has collected from the operations so far. */
  ghost predicate Collected(ops: seq<Operation>, destinations: set<Text>, moved: set<Text>,
                            edits: map<Text, seq<Operation>>) {
    && destinations == (set op | op in ops && HasDestination(op) :: Destination(op))
    && moved == (set op | op in ops && op.MoveDocument? :: op.sourceId)
    && edits.Keys == (set op | op in ops && op.TextEdit? :: op.sourceId)
    && (forall s | s in edits :: forall op :: op in edits[s] <==> op in ops && op.TextEdit? && op.sourceId == s)
  }

  /** The checks made for one operation, given what was collected before it. */
  ghost predicate Fits(op: Operation, sources: Sources, destinations: set<Text>, moved: set<Text>,
                       edits: map<Text, seq<Operation>>) {
    && (HasDestination(op) ==> Destination(op) !in destinations)
    && (HasDestination(op) ==> forall s | s in sources :: sources[s].path != Destination(op))
    && (op.MoveDocument? ==> op.sourceId !in moved)
    && (op.TextEdit? && op.sourceId in edits ==>
          forall p | p in edits[op.sourceId] :: p.TextEdit? && !RangesOverlap(p, op))
  }

  ghost predicate PairwiseFine(ops: seq<Operation>, sources: Sources) {
    DestinationsFree(ops, sources) && MovesDistinct(ops) && EditsDisjoint(ops)
  }

  lemma InOps(ops: seq<Operation>, op: Operation) returns (i: nat)
    requires op in ops
    ensures i < |ops| && ops[i] == op
  {
    i :| 0 <= i < |ops| && ops[i] == op;
  }

  lemma FitsExactly(ops: seq<Operation>, op: Operation, sources: Sources, destinations: set<Text>, moved: set<Text>,
                    edits: map<Text, seq<Operation>>)
    requires Collected(ops, destinations, moved, edits) && PairwiseFine(ops, sources)
    ensures PairwiseFine(ops + [op], sources) <==> Fits(op, sources, destinations, moved, edits)
  {
    var more := ops + [op];
    assert forall i | 0 <= i < |ops| :: more[i] == ops[i] && ops[i] in ops;
    if PairwiseFine(more, sources) {
      FineFits(ops, op, sources, destinations, moved, edits);
    }
  }

  lemma FineFits(ops: seq<Operation>, op: Operation, sources: Sources, destinations: set<Text>, moved: set<Text>,
                 edits: map<Text, seq<Operation>>)
    requires Collected(ops, destinations, moved, edits) && PairwiseFine(ops + [op], sources)
    ensures Fits(op, sources, destinations, moved, edits)
  {
    var more := ops + [op];
    assert more[|ops|] == op;
    forall p | p in ops
      ensures HasDestination(p) && HasDestination(op) ==> Destination(p) != Destination(op)
      ensures p.MoveDocument? && op.MoveDocument? ==> p.sourceId != op.sourceId
      ensures p.TextEdit? && op.TextEdit? ==> !RangesOverlap(p, op)
    {
      var i := InOps(ops, p);
      assert more[i] == p && more[|ops|] == op;
    }
  }

  lemma CollectedStep(ops: seq<Operation>, op: Operation, destinations: set<Text>, moved: set<Text>,
                      edits: map<Text, seq<Operation>>)
    requires Collected(ops, destinations, moved, edits)
    ensures Collected(ops + [op],
                      if HasDestination(op) then destinations + {Destination(op)} else destinations,
                      if op.MoveDocument? then moved + {op.sourceId} else moved,
                      if op.TextEdit? then
                        edits[op.sourceId := (if op.sourceId in edits then edits[op.sourceId] else []) + [op]]
                      else edits)
  {
    assert forall p :: p in ops + [op] <==> p in ops || p == op;
  }

  /** The relationship checks of the loop: keys, destinations, moves and edits. */
  method CheckOperations(ops: seq<Operation>, sources: Sources) returns (ok: bool, moved: set<Text>, edited: set<Text>)
    ensures ok <==> KeysAscend(ops) && PairwiseFine(ops, sources)
    ensures moved == (set op | op in ops && op.MoveDocument? :: op.sourceId)
    ensures edited == (set op | op in ops && op.TextEdit? :: op.sourceId)
  {
    hide OperationSortKey, CompareUtf8Below, PairwiseFine, Fits, RangesOverlap;
    var destinations: set<Text> := {};
    var edits: map<Text, seq<Operation>> := map[];
    var previousKey: Option<Text> := None;
    ok, moved := true, {};
    NoOperations(sources);
    for i := 0 to |ops|
      invariant Collected(ops[..i], destinations, moved, edits)
      invariant previousKey == if i == 0 then None else Some(OperationSortKey(ops[i - 1]))
      invariant ok <==> KeysAscend(ops[..i]) && PairwiseFine(ops[..i], sources)
    {
      var op := ops[i];
      var key := OperationSortKey(op);
      var ascends := previousKey.None? || CompareUtf8Below(previousKey.value, key);
      assert ops[..i + 1] == ops[..i] + [op];
      AscendStep(ops, i);
      PrefixFine(ops[..i], op, sources);
      if ok {
        FitsExactly(ops[..i], op, sources, destinations, moved, edits);
      }
      CollectedStep(ops[..i], op, destinations, moved, edits);
      var fits := CheckOne(op, sources, destinations, moved, edits);
      ok := ok && ascends && fits;
      previousKey := Some(key);
      if HasDestination(op) {
        destinations := destinations + {Destination(op)};
      }
      if op.MoveDocument? {
        moved := moved + {op.sourceId};
      }
      if op.TextEdit? {
        edits := edits[op.sourceId := (if op.sourceId in edits then edits[op.sourceId] else []) + [op]];
      }
    }
    assert ops[..|ops|] == ops;
    edited := edits.Keys;
  }

  method CheckOne(op: Operation, sources: Sources, destinations: set<Text>, moved: set<Text>,
                  edits: map<Text, seq<Operation>>)
    returns (fits: bool)
    requires forall s | s in edits :: forall p | p in edits[s] :: p.TextEdit?
    ensures fits <==> Fits(op, sources, destinations, moved, edits)
  {
    fits := true;
    if HasDestination(op) {
      var destination := Destination(op);
      var knownSourcePaths := set s | s in sources :: sources[s].path;
      if destination in knownSourcePaths || destination in destinations {
        fits := false;
      }
    }
    if op.MoveDocument? && op.sourceId in moved {
      fits := false;
    }
    if op.TextEdit? && op.sourceId in edits {
      var prior := edits[op.sourceId];
      var disjoint := true;
      assert forall j | 0 <= j < |prior| :: prior[j] in prior;
      for j := 0 to |prior|
        invariant disjoint <==> forall k | 0 <= k < j :: !RangesOverlap(prior[k], op)
      {
        if RangesOverlap(prior[j], op) {
          disjoint := false;
        }
      }
      fits := fits && disjoint;
    }
  }

  lemma NoOperations(sources: Sources)
    ensures KeysAscend([]) && PairwiseFine([], sources) && Collected([], {}, {}, map[])
  {
  }

  lemma AscendStep(ops: seq<Operation>, i: nat)
    requires i < |ops|
    ensures KeysAscend(ops[..i + 1]) <==>
            KeysAscend(ops[..i]) && (i == 0 || CompareUtf8Below(OperationSortKey(ops[i - 1]), OperationSortKey(ops[i])))
  {
    hide OperationSortKey, CompareUtf8Below;
    var more := ops[..i + 1];
    assert forall j | 0 <= j <= i :: more[j] == ops[j];
    if KeysAscend(more) && i > 0 {
      assert CompareUtf8Below(OperationSortKey(more[i - 1]), OperationSortKey(more[i]));
    }
    if KeysAscend(more) {
      forall j | 0 < j < i
        ensures CompareUtf8Below(OperationSortKey(ops[..i][j - 1]), OperationSortKey(ops[..i][j]))
      {
        assert CompareUtf8Below(OperationSortKey(more[j - 1]), OperationSortKey(more[j]));
      }
    }
  }

  lemma PrefixFine(ops: seq<Operation>, op: Operation, sources: Sources)
    ensures PairwiseFine(ops + [op], sources) ==> PairwiseFine(ops, sources)
  {
    var more := ops + [op];
    assert forall i | 0 <= i < |ops| :: more[i] == ops[i];
  }

  /** `validateFixPlan`: no issue is reported exactly for accepted plans. */
  method ValidateFixPlan(ops: seq<Operation>, sources: Sources) returns (ok: bool)
    ensures ok <==> AcceptedPlan(ops, sources)
  {
    hide OperationSortKey, CompareUtf8Below, ValidOperation, KeysAscend, PairwiseFine, RangesOverlap;
    var valid := 1 <= |ops| <= MAX_FIX_OPERATIONS_PER_PLAN;
    for i := 0 to |ops|
      invariant valid <==> (&& 1 <= |ops| <= MAX_FIX_OPERATIONS_PER_PLAN
                            && forall j | 0 <= j < i :: ValidOperation(ops[j], sources))
    {
      if !ValidOperation(ops[i], sources) {
        valid := false;
      }
    }
    var fine, moved, edited := CheckOperations(ops, sources);
    FineMeans(ops, sources);
    MovedAndEdited(ops, moved, edited);
    ok := valid && fine && moved * edited == {};
  }

  lemma FineMeans(ops: seq<Operation>, sources: Sources)
    ensures PairwiseFine(ops, sources) <==> DestinationsFree(ops, sources) && MovesDistinct(ops) && EditsDisjoint(ops)
  {
    hide RangesOverlap;
  }

  lemma MovedAndEdited(ops: seq<Operation>, moved: set<Text>, edited: set<Text>)
    requires moved == (set op | op in ops && op.MoveDocument? :: op.sourceId)
    requires edited == (set op | op in ops && op.TextEdit? :: op.sourceId)
    ensures moved * edited == {} <==> NoneEditedAndMoved(ops)
  {
    if !NoneEditedAndMoved(ops) {
      var i, j :| 0 <= i < |ops| && 0 <= j < |ops| && ops[i].MoveDocument? && ops[j].TextEdit?
                  && ops[i].sourceId == ops[j].sourceId;
      assert ops[i] in ops && ops[j] in ops;
      assert ops[i].sourceId in moved * edited;
    }
    if s :| s in moved * edited {
      var p :| p in ops && p.MoveDocument? && p.sourceId == s;
      var q :| q in ops && q.TextEdit? && q.sourceId == s;
      var i := InOps(ops, p);
      var j := InOps(ops, q);
      assert ops[i].sourceId == ops[j].sourceId;
    }
  }
}
