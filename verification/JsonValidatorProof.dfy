/**
  What the validator accepts: the values that unfold, within the nesting limit, to a JSON tree that
  keeps the limits. Sharing is no reason to reject, and every cycle is.
*/
module JsonValidatorProof {
  import opened Text
  import Utf
  import opened JsonGraph
  import opened JsonValidator

  // ---------- a flag that is down stays down ----------

  lemma {:induction false} InvalidStays(heap: Heap, limits: Option<Limits>, v: Value, depth: nat, ancestors: set<Ref>,
                                        st: State)
    requires depth <= MAX_JSON_NESTING_DEPTH && !st.valid
    ensures !Visit(heap, limits, v, depth, ancestors, st).valid
    decreases MAX_JSON_NESTING_DEPTH - depth, 1, 0
  {
    if v.Object? && v.ref in heap && depth < MAX_JSON_NESTING_DEPTH {
      var s := st.(values := st.values + 1);
      match heap[v.ref] {
        case Array(length, entries) =>
          ArrayInvalidStays(heap, limits, entries, 0, 0, length, depth, ancestors + {v.ref}, s);
        case Record(entries) =>
          RecordInvalidStays(heap, limits, entries, 0, depth, ancestors + {v.ref}, s);
      }
    }
  }

  lemma {:induction false} ArrayInvalidStays(heap: Heap, limits: Option<Limits>, entries: seq<Entry>, i: nat,
                                             expected: nat,
                                             length: nat, depth: nat, ancestors: set<Ref>, st: State)
    requires i <= |entries| && depth < MAX_JSON_NESTING_DEPTH && !st.valid
    ensures !VisitArray(heap, limits, entries, i, expected, length, depth, ancestors, st).valid
    decreases MAX_JSON_NESTING_DEPTH - depth, 0, |entries| - i
  {
    if i < |entries| {
      var s := InspectKey(entries[i].key, limits, st);
      var k := CanonicalArrayIndex(entries[i].key);
      if k.None? || k.value >= length {
        ArrayInvalidStays(heap, limits, entries, i + 1, expected, length, depth, ancestors, s.Invalid());
      } else {
        var s1 := if k.value != expected then s.Invalid() else s;
        var s2 := Visit(heap, limits, entries[i].value, depth + 1, ancestors, s1);
        InvalidStays(heap, limits, entries[i].value, depth + 1, ancestors, s1);
        ArrayInvalidStays(heap, limits, entries, i + 1, k.value + 1, length, depth, ancestors, s2);
      }
    }
  }

  lemma {:induction false} RecordInvalidStays(heap: Heap, limits: Option<Limits>, entries: seq<Entry>, i: nat,
                                              depth: nat,
                                              ancestors: set<Ref>, st: State)
    requires i <= |entries| && depth < MAX_JSON_NESTING_DEPTH && !st.valid
    ensures !VisitRecord(heap, limits, entries, i, depth, ancestors, st).valid
    decreases MAX_JSON_NESTING_DEPTH - depth, 0, |entries| - i
  {
    if i < |entries| {
      var s := InspectKey(entries[i].key, limits, st);
      var s2 := Visit(heap, limits, entries[i].value, depth + 1, ancestors, s);
      InvalidStays(heap, limits, entries[i].value, depth + 1, ancestors, s);
      RecordInvalidStays(heap, limits, entries, i + 1, depth, ancestors, s2);
    }
  }

  // ---------- what does not unfold is rejected ----------

  lemma {:induction false} NoTree(heap: Heap, limits: Option<Limits>, v: Value, depth: nat, ancestors: set<Ref>,
                                  st: State)
    requires depth <= MAX_JSON_NESTING_DEPTH && Unfold(heap, v, MAX_JSON_NESTING_DEPTH - depth).None?
    ensures !Visit(heap, limits, v, depth, ancestors, st).Accepted()
    decreases MAX_JSON_NESTING_DEPTH - depth, 1, 0
  {
    if v.Object? && v.ref in heap && depth < MAX_JSON_NESTING_DEPTH {
      var s := st.(values := st.values + 1);
      match heap[v.ref] {
        case Array(length, entries) =>
          NoArray(heap, limits, entries, 0, length, depth, ancestors + {v.ref}, s);
        case Record(entries) =>
          NoRecord(heap, limits, entries, 0, depth, ancestors + {v.ref}, s);
      }
    }
  }

  lemma {:induction false} NoArray(heap: Heap, limits: Option<Limits>, entries: seq<Entry>, i: nat, length: nat,
                                   depth: nat,
                                   ancestors: set<Ref>, st: State)
    requires i <= |entries| && depth < MAX_JSON_NESTING_DEPTH
    requires |entries| != length || UnfoldEntries(heap, entries, i, MAX_JSON_NESTING_DEPTH - depth - 1, true).None?
    ensures !VisitArray(heap, limits, entries, i, i, length, depth, ancestors, st).Accepted()
    decreases MAX_JSON_NESTING_DEPTH - depth, 0, |entries| - i
  {
    if i < |entries| {
      var s := InspectKey(entries[i].key, limits, st);
      var k := CanonicalArrayIndex(entries[i].key);
      if k.None? || k.value >= length {
        ArrayInvalidStays(heap, limits, entries, i + 1, i, length, depth, ancestors, s.Invalid());
      } else {
        var s1 := if k.value != i then s.Invalid() else s;
        var s2 := Visit(heap, limits, entries[i].value, depth + 1, ancestors, s1);
        if k.value != i {
          InvalidStays(heap, limits, entries[i].value, depth + 1, ancestors, s1);
          ArrayInvalidStays(heap, limits, entries, i + 1, k.value + 1, length, depth, ancestors, s2);
        } else if Unfold(heap, entries[i].value, MAX_JSON_NESTING_DEPTH - depth - 1).None? {
          NoTree(heap, limits, entries[i].value, depth + 1, ancestors, s1);
          if !s2.stopped {
            ArrayInvalidStays(heap, limits, entries, i + 1, i + 1, length, depth, ancestors, s2);
          }
        } else {
          NoArray(heap, limits, entries, i + 1, length, depth, ancestors, s2);
        }
      }
    }
  }

  lemma {:induction false} NoRecord(heap: Heap, limits: Option<Limits>, entries: seq<Entry>, i: nat, depth: nat,
                                    ancestors: set<Ref>, st: State)
    requires i <= |entries| && depth < MAX_JSON_NESTING_DEPTH
    requires UnfoldEntries(heap, entries, i, MAX_JSON_NESTING_DEPTH - depth - 1, false).None?
    ensures !VisitRecord(heap, limits, entries, i, depth, ancestors, st).Accepted()
    decreases MAX_JSON_NESTING_DEPTH - depth, 0, |entries| - i
  {
    if i < |entries| {
      var s := InspectKey(entries[i].key, limits, st);
      var s2 := Visit(heap, limits, entries[i].value, depth + 1, ancestors, s);
      if Unfold(heap, entries[i].value, MAX_JSON_NESTING_DEPTH - depth - 1).None? {
        NoTree(heap, limits, entries[i].value, depth + 1, ancestors, s);
        if !s2.stopped {
          RecordInvalidStays(heap, limits, entries, i + 1, depth, ancestors, s2);
        }
      } else {
        NoRecord(heap, limits, entries, i + 1, depth, ancestors, s2);
      }
    }
  }

  // ---------- what unfolds is accepted within the limits ----------

  predicate Fits(t: Tree, limits: Option<Limits>) { limits.Some? ==> Within(t, limits.value) }

  predicate FieldsFit(fs: Fields, limits: Option<Limits>) { limits.Some? ==> FieldsWithin(fs, limits.value) }

  predicate Room(limits: Option<Limits>, values: nat, bytes: nat) {
    limits.Some? ==> values <= limits.value.values && bytes <= limits.value.totalStringBytes
  }

  /** The run goes on, and neither counter has passed its limit. */
  predicate Sound(limits: Option<Limits>, st: State) {
    !st.stopped && Room(limits, st.values, st.bytes)
  }

  /** The state `r` after content with `values` values and `bytes` bytes, when the content `fits`. */
  predicate Charged(limits: Option<Limits>, st: State, r: State, fits: bool, values: nat, bytes: nat) {
    && (r.Accepted() <==> st.Accepted() && fits && Room(limits, st.values + values, st.bytes + bytes))
    && (r.Accepted() && limits.Some? ==> r.values == st.values + values && r.bytes == st.bytes + bytes)
    && (!r.stopped ==> Sound(limits, r))
  }

  lemma {:induction false} UnitsAtMostBytes(s: Text)
    ensures |s| <= Utf.ByteLength(s)
    decreases |s|
  {
    if s != [] {
      UnitsAtMostBytes(s[if Utf.PairAt(s, 0) then 2 else 1..]);
    }
  }

  lemma StringCharged(s: Text, maximumBytes: nat, limits: Limits, st: State)
    requires Sound(Some(limits), st)
    ensures var r := InspectString(s, maximumBytes, limits, st);
      && (r.Accepted() <==> st.Accepted() && StringWithin(s, maximumBytes) &&
                            st.bytes + Utf.ByteLength(s) <= limits.totalStringBytes)
      && (!r.stopped ==> Sound(Some(limits), r) && StringWithin(s, maximumBytes) && r.valid == st.valid
                         && r.values == st.values && r.bytes == st.bytes + Utf.ByteLength(s))
  {
    UnitsAtMostBytes(s);
  }

  lemma {:induction false} TreeCharged(heap: Heap, limits: Option<Limits>, v: Value, depth: nat, ancestors: set<Ref>,
                                       st: State, t: Tree, r: State)
    requires depth <= MAX_JSON_NESTING_DEPTH && Unfold(heap, v, MAX_JSON_NESTING_DEPTH - depth) == Some(t)
    requires Refs(heap, v, MAX_JSON_NESTING_DEPTH - depth) !! ancestors && Sound(limits, st)
    requires r == Visit(heap, limits, v, depth, ancestors, st)
    ensures Charged(limits, st, r, Fits(t, limits), Count(t), Bytes(t))
    decreases MAX_JSON_NESTING_DEPTH - depth, 1, 0
  {
    hide Utf.ByteLength, Utf.WellFormed, VisitArray, VisitRecord, InspectString, RefsEntries;
    var s := st.(values := st.values + 1);
    var d := MAX_JSON_NESTING_DEPTH - depth;
    if limits.Some? && s.values > limits.value.values {
    } else if v.String? && limits.Some? {
      StringCharged(v.text, limits.value.stringBytes, limits.value, s);
    } else if v.Object? {
      NoSelfReference(heap, v.ref, d);
      var entries := heap[v.ref].entries;
      var open := ancestors + {v.ref};
      var dense := heap[v.ref].Array?;
      UnfoldedLength(heap, entries, 0, d - 1, dense);
      match heap[v.ref] {
        case Array(length, _) =>
          ArrayCharged(heap, limits, entries, 0, depth, open, s, t.fields,
                       VisitArray(heap, limits, entries, 0, 0, |entries|, depth, open, s));
        case Record(_) =>
          RecordCharged(heap, limits, entries, 0, depth, open, s, t.fields,
                        VisitRecord(heap, limits, entries, 0, depth, open, s));
      }
    }
  }

  lemma {:induction false} ArrayCharged(heap: Heap, limits: Option<Limits>, entries: seq<Entry>, i: nat, depth: nat,
                                        ancestors: set<Ref>, st: State, fs: Fields, r: State)
    requires i <= |entries| && depth < MAX_JSON_NESTING_DEPTH
    requires UnfoldEntries(heap, entries, i, MAX_JSON_NESTING_DEPTH - depth - 1, true) == Some(fs)
    requires RefsEntries(heap, entries, i, MAX_JSON_NESTING_DEPTH - depth - 1) !! ancestors && Sound(limits, st)
    requires r == VisitArray(heap, limits, entries, i, i, |entries|, depth, ancestors, st)
    ensures Charged(limits, st, r, FieldsFit(fs, limits), CountFields(fs), BytesFields(fs))
    decreases MAX_JSON_NESTING_DEPTH - depth, 0, |entries| - i
  {
    hide Visit, Utf.ByteLength, Utf.WellFormed, Within;
    if i < |entries| {
      var s := InspectKey(entries[i].key, limits, st);
      if limits.Some? {
        StringCharged(entries[i].key, limits.value.keyBytes, limits.value, st);
      }
      if !s.stopped {
        var s2 := Visit(heap, limits, entries[i].value, depth + 1, ancestors, s);
        TreeCharged(heap, limits, entries[i].value, depth + 1, ancestors, s, fs.value, s2);
        assert CountFields(fs) == Count(fs.value) + CountFields(fs.rest);
        assert BytesFields(fs) == Utf.ByteLength(fs.key) + Bytes(fs.value) + BytesFields(fs.rest);
        if !s2.stopped {
          ArrayCharged(heap, limits, entries, i + 1, depth, ancestors, s2, fs.rest, r);
        }
      }
    }
  }

  lemma {:induction false} RecordCharged(heap: Heap, limits: Option<Limits>, entries: seq<Entry>, i: nat, depth: nat,
                                         ancestors: set<Ref>, st: State, fs: Fields, r: State)
    requires i <= |entries| && depth < MAX_JSON_NESTING_DEPTH
    requires UnfoldEntries(heap, entries, i, MAX_JSON_NESTING_DEPTH - depth - 1, false) == Some(fs)
    requires RefsEntries(heap, entries, i, MAX_JSON_NESTING_DEPTH - depth - 1) !! ancestors && Sound(limits, st)
    requires r == VisitRecord(heap, limits, entries, i, depth, ancestors, st)
    ensures Charged(limits, st, r, FieldsFit(fs, limits), CountFields(fs), BytesFields(fs))
    decreases MAX_JSON_NESTING_DEPTH - depth, 0, |entries| - i
  {
    hide Visit, Utf.ByteLength, Utf.WellFormed, Within;
    if i < |entries| {
      var s := InspectKey(entries[i].key, limits, st);
      if limits.Some? {
        StringCharged(entries[i].key, limits.value.keyBytes, limits.value, st);
      }
      if !s.stopped {
        var s2 := Visit(heap, limits, entries[i].value, depth + 1, ancestors, s);
        TreeCharged(heap, limits, entries[i].value, depth + 1, ancestors, s, fs.value, s2);
        assert CountFields(fs) == Count(fs.value) + CountFields(fs.rest);
        assert BytesFields(fs) == Utf.ByteLength(fs.key) + Bytes(fs.value) + BytesFields(fs.rest);
        if !s2.stopped {
          RecordCharged(heap, limits, entries, i + 1, depth, ancestors, s2, fs.rest, r);
        }
      }
    }
  }

  // ---------- the theorem ----------

  /**
    A value is accepted exactly when it unfolds, with at most 256 nested containers, to a JSON tree whose
    strings, keys and containers keep their limits and whose value and byte totals keep theirs.
   */
  lemma AcceptsExactlyTrees(heap: Heap, limits: Option<Limits>, v: Value)
    ensures Accepts(heap, limits, v) <==>
            var u := Unfold(heap, v, MAX_JSON_NESTING_DEPTH);
            u.Some? && Fits(u.value, limits) && Room(limits, Count(u.value), Bytes(u.value))
  {
    var u := Unfold(heap, v, MAX_JSON_NESTING_DEPTH);
    if u.None? {
      NoTree(heap, limits, v, 0, {}, START);
    } else {
      TreeCharged(heap, limits, v, 0, {}, START, u.value, Visit(heap, limits, v, 0, {}, START));
    }
  }

  lemma {:induction false} UnfoldMore(heap: Heap, v: Value, d: nat, e: nat)
    requires Unfold(heap, v, d).Some? && d <= e
    ensures Unfold(heap, v, e).Some?
    decreases d, 1, 0
  {
    if v.Object? {
      UnfoldEntriesMore(heap, heap[v.ref].entries, 0, d - 1, e - 1, heap[v.ref].Array?);
    }
  }

  lemma {:induction false} UnfoldEntriesMore(heap: Heap, entries: seq<Entry>, i: nat, d: nat, e: nat, dense: bool)
    requires i <= |entries| && UnfoldEntries(heap, entries, i, d, dense).Some? && d <= e
    ensures UnfoldEntries(heap, entries, i, e, dense).Some?
    decreases d, 2, |entries| - i
  {
    if i < |entries| {
      UnfoldMore(heap, entries[i].value, d, e);
      UnfoldEntriesMore(heap, entries, i + 1, d, e, dense);
    }
  }

  lemma {:induction false} RefsMore(heap: Heap, v: Value, d: nat, e: nat)
    requires d <= e
    ensures Refs(heap, v, d) <= Refs(heap, v, e)
    decreases d, 1, 0
  {
    if v.Object? && d > 0 && v.ref in heap {
      RefsEntriesMore(heap, heap[v.ref].entries, 0, d - 1, e - 1);
    }
  }

  lemma {:induction false} RefsEntriesMore(heap: Heap, entries: seq<Entry>, i: nat, d: nat, e: nat)
    requires i <= |entries| && d <= e
    ensures RefsEntries(heap, entries, i, d) <= RefsEntries(heap, entries, i, e)
    decreases d, 2, |entries| - i
  {
    if i < |entries| {
      RefsMore(heap, entries[i].value, d, e);
      RefsEntriesMore(heap, entries, i + 1, d, e);
    }
  }

  /** A value that contains an object which contains itself, at whatever depths, is rejected under all limits. */
  lemma CyclesAreRejected(heap: Heap, limits: Option<Limits>, v: Value, r: Ref, e: nat, d: nat)
    requires r in heap && r in Refs(heap, v, e) && r in RefsEntries(heap, heap[r].entries, 0, d)
    ensures !Accepts(heap, limits, v)
  {
    hide UnfoldEntries, RefsEntries, Accepts;
    var top := MAX_JSON_NESTING_DEPTH;
    AcceptsExactlyTrees(heap, limits, v);
    if Unfold(heap, v, top).Some? {
      if e <= top {
        RefsMore(heap, v, e, top);
      } else {
        UnfoldMore(heap, v, top, e);
        UnfoldStable(heap, v, top, e);
      }
      var k := RefUnfolds(heap, v, top, r);
      var m := if k <= d + 1 then d + 1 else k;
      UnfoldMore(heap, Object(r), k, m);
      RefsEntriesMore(heap, heap[r].entries, 0, d, m - 1);
      NoSelfReference(heap, r, m);
    }
  }
}
