/** The memoised clone that admits a graph into a snapshot, as a function from state to state. */
module SnapshotClone {
  import opened Text
  import Utf
  import Numerals
  import opened JsonGraph

  const LIMITS := Limits(100_000, 1_024, 1_048_576, 67_108_864, 4_000_000)

  datatype Usage = Usage(values: nat, bytes: nat)

  /** `usage` is set once the copy is complete. */
  datatype MemoizedClone = MemoizedClone(copy: Ref, usage: Option<Usage>)

  /** `out` holds the complete copies; `next` is the reference of the next object to allocate. */
  datatype State = State(usage: Usage, memo: map<Ref, MemoizedClone>, out: Heap, next: Ref)

  predicate InBounds(s: State) {
    s.usage.values <= LIMITS.values && s.usage.bytes <= LIMITS.totalStringBytes
  }

  function AddUsage(s: State, values: nat, bytes: nat): Option<State> {
    var u := Usage(s.usage.values + values, s.usage.bytes + bytes);
    if u.values > LIMITS.values || u.bytes > LIMITS.totalStringBytes then None else Some(s.(usage := u))
  }

  function InspectString(s: State, t: Text, maximumBytes: nat): Option<State> {
    if |t| > maximumBytes || !Utf.WellFormed(t) || Utf.ByteLength(t) > maximumBytes then None
    else AddUsage(s, 0, Utf.ByteLength(t))
  }

  predicate IsDone(s: State, r: Ref) { r in s.memo && s.memo[r].usage.Some? }

  /** An array key must be a canonical index below the length; any key of an object will do. */
  predicate KeyOk(key: Text, length: Option<nat>) {
    length.Some? ==> Numerals.IsNumeral(key) && Numerals.Decimal(key) < length.value
  }

  function Visit(heap: Heap, v: Value, depth: nat, ancestors: set<Ref>, s: State): (r: Option<(Value, State)>)
    requires depth <= MAX_JSON_NESTING_DEPTH
    ensures r.Some? ==> r.value.1.usage.values >= s.usage.values && r.value.1.usage.bytes >= s.usage.bytes
    ensures r.Some? && InBounds(s) ==> InBounds(r.value.1)
    decreases MAX_JSON_NESTING_DEPTH - depth, 1, 0
  {
    if v.Object? && v.ref in ancestors then None
    else if v.Object? && IsDone(s, v.ref) then
      var prior := s.memo[v.ref];
      match AddUsage(s, prior.usage.value.values, prior.usage.value.bytes)
      case None => None
      case Some(s') => Some((Object(prior.copy), s'))
    else
      match AddUsage(s, 1, 0)
      case None => None
      case Some(s1) =>
        match v
        case Null => Some((v, s1))
        case Boolean(_) => Some((v, s1))
        case String(t) =>
          (match InspectString(s1, t, LIMITS.stringBytes)
           case None => None
           case Some(s2) => Some((v, s2)))
        case Number(finite, negativeZero, _) => if finite && !negativeZero then Some((v, s1)) else None
        case NotJson => None
        case Object(r) =>
          if depth >= MAX_JSON_NESTING_DEPTH || r !in heap then None
          else
            var length := if heap[r].Array? then Some(heap[r].length) else None;
            var entries := heap[r].entries;
            if (if length.Some? then length.value else |entries|) > LIMITS.containerEntries then None
            else if length.Some? && |entries| != length.value then None
            else
              var copy := s1.next;
              var s2 := s1.(next := s1.next + 1, memo := s1.memo[r := MemoizedClone(copy, None)]);
              match VisitEntries(heap, entries, 0, length, depth, ancestors + {r}, s2, [])
              case None => None
              case Some((copies, s3)) =>
                var output := if length.Some? then Array(length.value, copies) else Record(copies);
                var used := Usage(s3.usage.values - s.usage.values, s3.usage.bytes - s.usage.bytes);
                Some((Object(copy), s3.(memo := s3.memo[r := MemoizedClone(copy, Some(used))],
                                        out := s3.out[copy := output])))
  }

  function VisitEntries(heap: Heap, entries: seq<Entry>, i: nat, length: Option<nat>, depth: nat, ancestors: set<Ref>,
                        s: State, copies: seq<Entry>): (r: Option<(seq<Entry>, State)>)
    requires i <= |entries| && depth < MAX_JSON_NESTING_DEPTH
    ensures r.Some? ==> r.value.1.usage.values >= s.usage.values && r.value.1.usage.bytes >= s.usage.bytes
    ensures r.Some? && InBounds(s) ==> InBounds(r.value.1)
    decreases MAX_JSON_NESTING_DEPTH - depth, 0, |entries| - i
  {
    if i == |entries| then Some((copies, s))
    else if !KeyOk(entries[i].key, length) then None
    else
      match InspectString(s, entries[i].key, LIMITS.keyBytes)
      case None => None
      case Some(s1) =>
        match Visit(heap, entries[i].value, depth + 1, ancestors, s1)
        case None => None
        case Some((w, s2)) =>
          VisitEntries(heap, entries, i + 1, length, depth, ancestors, s2, copies + [Entry(entries[i].key, w)])
  }

  // ---------- the class ----------

  class Cloner {
    const heap: Heap
    var state: State
    var ancestors: set<Ref>

    constructor (heap: Heap, next: Ref)
      ensures this.heap == heap && state == State(Usage(0, 0), map[], map[], next) && ancestors == {}
    {
      this.heap := heap;
      state, ancestors := State(Usage(0, 0), map[], map[], next), {};
    }

    method Charge(values: nat, bytes: nat) returns (ok: bool)
      modifies `state
      ensures match AddUsage(old(state), values, bytes)
              case None => !ok
              case Some(s) => ok && state == s
    {
      state := state.(usage := Usage(state.usage.values + values, state.usage.bytes + bytes));
      ok := state.usage.values <= LIMITS.values && state.usage.bytes <= LIMITS.totalStringBytes;
    }

    method Inspect(t: Text, maximumBytes: nat) returns (ok: bool)
      modifies `state
      ensures match InspectString(old(state), t, maximumBytes)
              case None => !ok
              case Some(s) => ok && state == s
    {
      if |t| > maximumBytes || !Utf.WellFormed(t) || Utf.ByteLength(t) > maximumBytes {
        return false;
      }
      ok := Charge(0, Utf.ByteLength(t));
    }

    method Clone(v: Value, depth: nat) returns (r: Option<Value>)
      requires depth <= MAX_JSON_NESTING_DEPTH
      modifies this
      ensures match Visit(heap, v, depth, old(ancestors), old(state))
              case None => r == None
              case Some((w, s)) => r == Some(w) && state == s && ancestors == old(ancestors)
      decreases MAX_JSON_NESTING_DEPTH - depth
    {
      hide VisitEntries, InspectString;
      if v.Object? {
        if v.ref in ancestors {
          return None;
        }
        if IsDone(state, v.ref) {
          var prior := state.memo[v.ref];
          var charged := Charge(prior.usage.value.values, prior.usage.value.bytes);
          return if charged then Some(Object(prior.copy)) else None;
        }
      }
      var start := state.usage;
      var ok := Charge(1, 0);
      if !ok {
        return None;
      }
      match v {
        case Null => return Some(v);
        case Boolean(_) => return Some(v);
        case String(t) =>
          ok := Inspect(t, LIMITS.stringBytes);
          return if ok then Some(v) else None;
        case Number(finite, negativeZero, _) =>
          return if finite && !negativeZero then Some(v) else None;
        case NotJson => return None;
        case Object(ref) =>
          if depth >= MAX_JSON_NESTING_DEPTH || ref !in heap {
            return None;
          }
          var length := if heap[ref].Array? then Some(heap[ref].length) else None;
          var entries := heap[ref].entries;
          if (if length.Some? then length.value else |entries|) > LIMITS.containerEntries {
            return None;
          }
          if length.Some? && |entries| != length.value {
            return None;
          }
          ghost var outer := ancestors;
          ancestors := ancestors + {ref};
          var copy := state.next;
          state := state.(next := copy + 1, memo := state.memo[ref := MemoizedClone(copy, None)]);
          var copies := CloneEntries(entries, length, depth);
          if copies.None? {
            return None;
          }
          var output := if length.Some? then Array(length.value, copies.value) else Record(copies.value);
          var used := Usage(state.usage.values - start.values, state.usage.bytes - start.bytes);
          state := state.(memo := state.memo[ref := MemoizedClone(copy, Some(used))], out := state.out[copy := output]);
          ancestors := ancestors - {ref};
          assert ancestors == outer;
          return Some(Object(copy));
      }
    }

    method CloneEntries(entries: seq<Entry>, length: Option<nat>, depth: nat) returns (r: Option<seq<Entry>>)
      requires depth < MAX_JSON_NESTING_DEPTH
      modifies this
      ensures match VisitEntries(heap, entries, 0, length, depth, old(ancestors), old(state), [])
              case None => r == None
              case Some((copies, s)) => r == Some(copies) && state == s && ancestors == old(ancestors)
      decreases MAX_JSON_NESTING_DEPTH - depth, 0
    {
      hide Visit, InspectString;
      var copies: seq<Entry> := [];
      for i := 0 to |entries|
        invariant ancestors == old(ancestors)
        invariant VisitEntries(heap, entries, i, length, depth, ancestors, state, copies) ==
                  VisitEntries(heap, entries, 0, length, depth, old(ancestors), old(state), [])
      {
        if !KeyOk(entries[i].key, length) {
          return None;
        }
        var ok := Inspect(entries[i].key, LIMITS.keyBytes);
        if !ok {
          return None;
        }
        var w := Clone(entries[i].value, depth + 1);
        if w.None? {
          return None;
        }
        copies := copies + [Entry(entries[i].key, w.value)];
      }
      return Some(copies);
    }
  }
}
