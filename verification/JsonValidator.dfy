/** The explicit-stack validator of JSON-like values, a recursive reading of it, and what it accepts. */
module JsonValidator {
  import opened Text
  import Utf
  import opened JsonGraph

  /** The counters and the flag; `stopped` when the validator has returned early. */
  datatype State = State(values: nat, bytes: nat, valid: bool, stopped: bool) {
    predicate Accepted() { valid && !stopped }

    function Invalid(): State { this.(valid := false) }

    function Stop(): State { this.(valid := false, stopped := true) }
  }

  function InspectString(s: Text, maximumBytes: nat, limits: Limits, st: State): State {
    if |s| > maximumBytes || !Utf.WellFormed(s) || Utf.ByteLength(s) > maximumBytes then st.Stop()
    else
      var total := st.bytes + Utf.ByteLength(s);
      if total > limits.totalStringBytes then st.(bytes := total).Stop() else st.(bytes := total)
  }

  function InspectKey(key: Text, limits: Option<Limits>, st: State): State {
    if limits.None? then st else InspectString(key, limits.value.keyBytes, limits.value, st)
  }

  // ---------- the recursive reading ----------

  function Visit(heap: Heap, limits: Option<Limits>, v: Value, depth: nat, ancestors: set<Ref>, st: State): State
    requires depth <= MAX_JSON_NESTING_DEPTH
    decreases MAX_JSON_NESTING_DEPTH - depth, 1, 0
  {
    var s := st.(values := st.values + 1);
    if limits.Some? && s.values > limits.value.values then s.(stopped := true)
    else
      match v
      case Null => s
      case Boolean(_) => s
      case String(text) => if limits.None? then s else InspectString(text, limits.value.stringBytes, limits.value, s)
      case Number(finite, negativeZero, _) => if finite && !negativeZero then s else s.Invalid()
      case NotJson => s.Invalid()
      case Object(r) =>
        if depth >= MAX_JSON_NESTING_DEPTH || r in ancestors || r !in heap then s.Invalid()
        else
          match heap[r]
          case Array(length, entries) =>
            if limits.Some? && length > limits.value.containerEntries then s.Invalid()
            else VisitArray(heap, limits, entries, 0, 0, length, depth, ancestors + {r}, s)
          case Record(entries) =>
            if limits.Some? && |entries| > limits.value.containerEntries then s.Invalid()
            else VisitRecord(heap, limits, entries, 0, depth, ancestors + {r}, s)
  }

  function VisitArray(heap: Heap, limits: Option<Limits>, entries: seq<Entry>, i: nat, expected: nat, length: nat,
                      depth: nat, ancestors: set<Ref>, st: State): State
    requires i <= |entries| && depth < MAX_JSON_NESTING_DEPTH
    decreases MAX_JSON_NESTING_DEPTH - depth, 0, |entries| - i
  {
    if i == |entries| then (if expected != length then st.Invalid() else st)
    else
      var key := entries[i].key;
      var s := InspectKey(key, limits, st);
      if s.stopped then s
      else
        match CanonicalArrayIndex(key)
        case None => VisitArray(heap, limits, entries, i + 1, expected, length, depth, ancestors, s.Invalid())
        case Some(k) =>
          if k >= length then VisitArray(heap, limits, entries, i + 1, expected, length, depth, ancestors, s.Invalid())
          else
            var s' := Visit(heap, limits, entries[i].value, depth + 1, ancestors,
                             if k != expected then s.Invalid() else s);
            if s'.stopped then s'
            else VisitArray(heap, limits, entries, i + 1, k + 1, length, depth, ancestors, s')
  }

  function VisitRecord(heap: Heap, limits: Option<Limits>, entries: seq<Entry>, i: nat, depth: nat,
                       ancestors: set<Ref>, st: State): State
    requires i <= |entries| && depth < MAX_JSON_NESTING_DEPTH
    decreases MAX_JSON_NESTING_DEPTH - depth, 0, |entries| - i
  {
    if i == |entries| then st
    else
      var s := InspectKey(entries[i].key, limits, st);
      if s.stopped then s
      else
        var s' := Visit(heap, limits, entries[i].value, depth + 1, ancestors, s);
        if s'.stopped then s' else VisitRecord(heap, limits, entries, i + 1, depth, ancestors, s')
  }

  const START := State(0, 0, true, false)

  /** The verdict on a value. */
  predicate Accepts(heap: Heap, limits: Option<Limits>, v: Value) {
    Visit(heap, limits, v, 0, {}, START).Accepted()
  }

  // ---------- the iterative validator ----------

  datatype Frame =
    | Enter(depth: nat, value: Value)
    | ArrayFrame(depth: nat, expectedIndex: nat, index: nat, entries: seq<Entry>, length: nat)
    | RecordFrame(depth: nat, index: nat, entries: seq<Entry>)
    | Leave(ref: Ref)
  {
    predicate Ok() {
      match this
      case Enter(d, _) => d <= MAX_JSON_NESTING_DEPTH
      case ArrayFrame(d, _, i, entries, _) => d < MAX_JSON_NESTING_DEPTH && i <= |entries|
      case RecordFrame(d, i, entries) => d < MAX_JSON_NESTING_DEPTH && i <= |entries|
      case Leave(_) => true
    }
  }

  /** The stack as a list, top first. */
  datatype Stack = Bottom | Push(top: Frame, rest: Stack) {
    predicate Ok() { Push? ==> top.Ok() && rest.Ok() }

    /** The containers that the stack has still to leave: those on the open path. */
    ghost function Open(): set<Ref> {
      if Bottom? then {} else if top.Leave? then rest.Open() + {top.ref} else rest.Open()
    }

    /** Every container is left once. */
    ghost predicate LeavesOnce() {
      Push? ==> rest.LeavesOnce() && (top.Leave? ==> top.ref !in rest.Open())
    }
  }

  /** What the rest of the run makes of a state: the frames, one after another from the top. */
  ghost function Resume(heap: Heap, limits: Option<Limits>, stack: Stack, st: State): State
    requires stack.Ok()
    decreases stack
  {
    if stack.Bottom? || st.stopped then st
    else
      var open := stack.rest.Open();
      match stack.top
      case Enter(d, v) => Resume(heap, limits, stack.rest, Visit(heap, limits, v, d, open, st))
      case ArrayFrame(d, expected, i, entries, length) =>
        Resume(heap, limits, stack.rest, VisitArray(heap, limits, entries, i, expected, length, d, open, st))
      case RecordFrame(d, i, entries) =>
        Resume(heap, limits, stack.rest, VisitRecord(heap, limits, entries, i, d, open, st))
      case Leave(_) => Resume(heap, limits, stack.rest, st)
  }

  // ---------- termination ----------

  /** A bound on the turns that a value takes, with no limit but the nesting depth. */
  ghost function Cost(heap: Heap, v: Value, depth: nat): nat
    requires depth <= MAX_JSON_NESTING_DEPTH
    decreases MAX_JSON_NESTING_DEPTH - depth, 1, 0
  {
    if v.Object? && depth < MAX_JSON_NESTING_DEPTH && v.ref in heap
    then 3 + CostEntries(heap, heap[v.ref].entries, 0, depth)
    else 1
  }

  ghost function CostEntries(heap: Heap, entries: seq<Entry>, i: nat, depth: nat): nat
    requires i <= |entries| && depth < MAX_JSON_NESTING_DEPTH
    decreases MAX_JSON_NESTING_DEPTH - depth, 0, |entries| - i
  {
    if i == |entries| then 0 else 1 + Cost(heap, entries[i].value, depth + 1) + CostEntries(heap, entries, i + 1, depth)
  }

  ghost function FrameCost(heap: Heap, frame: Frame): nat
    requires frame.Ok()
  {
    match frame
    case Enter(d, v) => Cost(heap, v, d)
    case ArrayFrame(d, _, i, entries, _) => 1 + CostEntries(heap, entries, i, d)
    case RecordFrame(d, i, entries) => 1 + CostEntries(heap, entries, i, d)
    case Leave(_) => 1
  }

  ghost function StackCost(heap: Heap, stack: Stack): nat
    requires stack.Ok()
  {
    if stack.Bottom? then 0 else StackCost(heap, stack.rest) + FrameCost(heap, stack.top)
  }

  lemma PushedCost(heap: Heap, a: Frame, b: Frame, rest: Stack)
    requires a.Ok() && b.Ok() && rest.Ok()
    ensures StackCost(heap, Push(a, Push(b, rest))) == StackCost(heap, rest) + FrameCost(heap, a) + FrameCost(heap, b)
  {
    assert StackCost(heap, Push(b, rest)) == StackCost(heap, rest) + FrameCost(heap, b);
  }

  lemma ResumeStopped(heap: Heap, limits: Option<Limits>, stack: Stack, st: State)
    requires stack.Ok() && st.stopped
    ensures Resume(heap, limits, stack, st) == st
  {
  }

  /** A value on top of a frame is visited first; the frame goes on unless the visit has stopped the run. */
  lemma ResumeEnter(heap: Heap, limits: Option<Limits>, d: nat, v: Value, stack: Stack, st: State)
    requires d <= MAX_JSON_NESTING_DEPTH && stack.Ok() && !st.stopped
    ensures Resume(heap, limits, Push(Enter(d, v), stack), st) ==
            Resume(heap, limits, stack, Visit(heap, limits, v, d, stack.Open(), st))
  {
  }

  lemma ResumeArray(heap: Heap, limits: Option<Limits>, d: nat, expected: nat, i: nat, entries: seq<Entry>, length: nat,
                    rest: Stack, st: State)
    requires d < MAX_JSON_NESTING_DEPTH && i <= |entries| && rest.Ok()
    ensures Resume(heap, limits, Push(ArrayFrame(d, expected, i, entries, length), rest), st) ==
            Resume(heap, limits, rest, if st.stopped then st
                                       else VisitArray(heap, limits, entries, i, expected, length, d, rest.Open(), st))
  {
    ResumeStopped(heap, limits, rest, if st.stopped then st else st.Stop());
  }

  lemma ResumeLeave(heap: Heap, limits: Option<Limits>, r: Ref, rest: Stack, st: State)
    requires rest.Ok()
    ensures Resume(heap, limits, Push(Leave(r), rest), st) == Resume(heap, limits, rest, st)
  {
    ResumeStopped(heap, limits, rest, st.Stop());
  }

  lemma ResumeRecord(heap: Heap, limits: Option<Limits>, d: nat, i: nat, entries: seq<Entry>, rest: Stack, st: State)
    requires d < MAX_JSON_NESTING_DEPTH && i <= |entries| && rest.Ok()
    ensures Resume(heap, limits, Push(RecordFrame(d, i, entries), rest), st) ==
            Resume(heap, limits, rest, if st.stopped then st
                                       else VisitRecord(heap, limits, entries, i, d, rest.Open(), st))
  {
    ResumeStopped(heap, limits, rest, if st.stopped then st else st.Stop());
  }

  /** One turn on an array: it keeps the outcome of the run, and shortens it. */
  method ArrayTurn(heap: Heap, limits: Option<Limits>, frame: Frame, rest: Stack, st0: State)
    returns (stack: Stack, st: State)
    requires frame.ArrayFrame? && Push(frame, rest).Ok() && Push(frame, rest).LeavesOnce() && !st0.stopped
    ensures st.stopped ==> Resume(heap, limits, Push(frame, rest), st0).stopped
    ensures !st.stopped ==> stack.Ok() && stack.LeavesOnce()
    ensures !st.stopped ==> StackCost(heap, stack) < StackCost(heap, Push(frame, rest))
    ensures !st.stopped ==> Resume(heap, limits, stack, st) == Resume(heap, limits, Push(frame, rest), st0)
    ensures !st.stopped ==> stack.Open() == rest.Open()
  {
    hide Visit, Cost, VisitRecord, InspectKey, CanonicalArrayIndex;
    st := st0;
    if frame.index >= |frame.entries| {
      if frame.expectedIndex != frame.length {
        st := st.Invalid();
      }
      stack := rest;
      return;
    }
    var depth, expected, index := frame.depth, frame.expectedIndex, frame.index;
    var entries, length := frame.entries, frame.length;
    var key := entries[index].key;
    stack := Push(ArrayFrame(depth, expected, index + 1, entries, length), rest);
    st := InspectKey(key, limits, st);
    if st.stopped {
      ResumeStopped(heap, limits, rest, st);
      return;
    }
    var arrayIndex := CanonicalArrayIndex(key);
    if arrayIndex.None? || arrayIndex.value >= length {
      st := st.Invalid();
      return;
    }
    if arrayIndex.value != expected {
      st := st.Invalid();
    }
    stack := Push(ArrayFrame(depth, arrayIndex.value + 1, index + 1, entries, length), rest);
    ghost var visited := Visit(heap, limits, entries[index].value, depth + 1, rest.Open(), st);
    ResumeEnter(heap, limits, depth + 1, entries[index].value, stack, st);
    ResumeArray(heap, limits, depth, arrayIndex.value + 1, index + 1, entries, length, rest, visited);
    PushedCost(heap, Enter(depth + 1, entries[index].value), stack.top, rest);
    stack := Push(Enter(depth + 1, entries[index].value), stack);
  }

  method RecordTurn(heap: Heap, limits: Option<Limits>, frame: Frame, rest: Stack, st0: State)
    returns (stack: Stack, st: State)
    requires frame.RecordFrame? && Push(frame, rest).Ok() && Push(frame, rest).LeavesOnce() && !st0.stopped
    ensures st.stopped ==> Resume(heap, limits, Push(frame, rest), st0).stopped
    ensures !st.stopped ==> stack.Ok() && stack.LeavesOnce()
    ensures !st.stopped ==> StackCost(heap, stack) < StackCost(heap, Push(frame, rest))
    ensures !st.stopped ==> Resume(heap, limits, stack, st) == Resume(heap, limits, Push(frame, rest), st0)
    ensures !st.stopped ==> stack.Open() == rest.Open()
  {
    hide Visit, Cost, VisitArray, InspectKey;
    st := st0;
    if frame.index >= |frame.entries| {
      stack := rest;
      return;
    }
    var depth, index, entries := frame.depth, frame.index, frame.entries;
    stack := Push(RecordFrame(depth, index + 1, entries), rest);
    st := InspectKey(entries[index].key, limits, st);
    if st.stopped {
      ResumeStopped(heap, limits, rest, st);
      return;
    }
    ghost var visited := Visit(heap, limits, entries[index].value, depth + 1, rest.Open(), st);
    ResumeEnter(heap, limits, depth + 1, entries[index].value, stack, st);
    ResumeRecord(heap, limits, depth, index + 1, entries, rest, visited);
    PushedCost(heap, Enter(depth + 1, entries[index].value), stack.top, rest);
    stack := Push(Enter(depth + 1, entries[index].value), stack);
  }

  method EnterTurn(heap: Heap, limits: Option<Limits>, frame: Frame, rest: Stack, st0: State, ancestors0: set<Ref>)
    returns (stack: Stack, st: State, ancestors: set<Ref>)
    requires frame.Enter? && Push(frame, rest).Ok() && rest.LeavesOnce() && !st0.stopped && ancestors0 == rest.Open()
    ensures st.stopped ==> Resume(heap, limits, Push(frame, rest), st0).stopped
    ensures !st.stopped ==> stack.Ok() && stack.LeavesOnce()
    ensures !st.stopped ==> StackCost(heap, stack) < StackCost(heap, Push(frame, rest))
    ensures !st.stopped ==> Resume(heap, limits, stack, st) == Resume(heap, limits, Push(frame, rest), st0)
    ensures !st.stopped ==> ancestors == stack.Open()
  {
    hide VisitArray, VisitRecord, CostEntries;
    ancestors, stack := ancestors0, rest;
    st := st0.(values := st0.values + 1);
    if limits.Some? && st.values > limits.value.values {
      st := st.(stopped := true);
      ResumeStopped(heap, limits, rest, st);
      return;
    }
    match frame.value {
      case Null =>
      case Boolean(_) =>
      case String(text) =>
        if limits.Some? {
          st := InspectString(text, limits.value.stringBytes, limits.value, st);
          if st.stopped {
            ResumeStopped(heap, limits, rest, st);
          }
        }
      case Number(finite, negativeZero, _) =>
        if !finite || negativeZero {
          st := st.Invalid();
        }
      case NotJson =>
        st := st.Invalid();
      case Object(r) =>
        if frame.depth >= MAX_JSON_NESTING_DEPTH || r in ancestors || r !in heap {
          st := st.Invalid();
          return;
        }
        ancestors := ancestors + {r};
        stack := Push(Leave(r), rest);
        match heap[r] {
          case Array(length, entries) =>
            if limits.Some? && length > limits.value.containerEntries {
              st := st.Invalid();
              return;
            }
            PushedCost(heap, ArrayFrame(frame.depth, 0, 0, entries, length), Leave(r), rest);
            ghost var left := VisitArray(heap, limits, entries, 0, 0, length, frame.depth, ancestors, st);
            ResumeArray(heap, limits, frame.depth, 0, 0, entries, length, stack, st);
            ResumeLeave(heap, limits, r, rest, left);
            stack := Push(ArrayFrame(frame.depth, 0, 0, entries, length), stack);
          case Record(entries) =>
            if limits.Some? && |entries| > limits.value.containerEntries {
              st := st.Invalid();
              return;
            }
            PushedCost(heap, RecordFrame(frame.depth, 0, entries), Leave(r), rest);
            ghost var left := VisitRecord(heap, limits, entries, 0, frame.depth, ancestors, st);
            ResumeRecord(heap, limits, frame.depth, 0, entries, stack, st);
            ResumeLeave(heap, limits, r, rest, left);
            stack := Push(RecordFrame(frame.depth, 0, entries), stack);
        }
    }
  }

  /** The loop over the stack: on every heap it ends, with the verdict of the recursive reading. */
  method ValidateJsonValue(heap: Heap, limits: Option<Limits>, value: Value) returns (ok: bool)
    ensures ok == Accepts(heap, limits, value)
  {
    hide Visit, VisitArray, VisitRecord, Cost, CostEntries;
    var ancestors: set<Ref> := {};
    var stack := Push(Enter(0, value), Bottom);
    var st := START;
    while stack.Push?
      invariant stack.Ok() && stack.LeavesOnce() && ancestors == stack.Open() && !st.stopped
      invariant Resume(heap, limits, stack, st) == Visit(heap, limits, value, 0, {}, START)
      decreases StackCost(heap, stack)
    {
      var frame, rest := stack.top, stack.rest;
      match frame {
        case Leave(r) =>
          ancestors := ancestors - {r};
          stack := rest;
        case ArrayFrame(_, _, _, _, _) =>
          stack, st := ArrayTurn(heap, limits, frame, rest, st);
        case RecordFrame(_, _, _) =>
          stack, st := RecordTurn(heap, limits, frame, rest, st);
        case Enter(_, _) =>
          stack, st, ancestors := EnterTurn(heap, limits, frame, rest, st, ancestors);
      }
      if st.stopped {
        return false;
      }
    }
    return st.valid;
  }
}
