/** What the memoised clone copies, what it charges for it, and exactly when it succeeds. */
module SnapshotCloneProof {
  import opened Text
  import Utf
  import Numerals
  import opened JsonGraph
  import opened SnapshotClone
  import JsonValidatorProof

  /** JavaScript enumerates the array indices among the keys in ascending order; larger numerals are ordinary keys. */
  ghost predicate Ascending(entries: seq<Entry>) {
    forall i, j | 0 <= i < j < |entries| ::
      CanonicalArrayIndex(entries[i].key).Some? && CanonicalArrayIndex(entries[j].key).Some? ==>
        CanonicalArrayIndex(entries[i].key).value < CanonicalArrayIndex(entries[j].key).value
  }

  ghost predicate HeapOk(heap: Heap) {
    forall r | r in heap && heap[r].Array? :: Ascending(heap[r].entries)
  }

  /** A completed copy unfolds to the tree of the original, and its usage is that of the tree. */
  ghost predicate Good(heap: Heap, out: Heap, r: Ref, m: MemoizedClone) {
    exists d :: GoodAt(heap, out, r, m, d)
  }

  ghost predicate GoodAt(heap: Heap, out: Heap, r: Ref, m: MemoizedClone, d: nat) {
    && m.usage.Some? && Unfold(heap, Object(r), d).Some?
    && var t := Unfold(heap, Object(r), d).value;
       && m.usage.value == Usage(Count(t), Bytes(t)) && Within(t, LIMITS)
       && Unfold(out, Object(m.copy), d) == Some(t)
  }

  ghost function Done(s: State): set<Ref> {
    set r | r in s.memo && s.memo[r].usage.Some?
  }

  ghost predicate Inv(heap: Heap, s: State, base: Ref) {
    && (forall r | r in Done(s) :: Good(heap, s.out, r, s.memo[r]))
    && (forall k | k in s.out :: base <= k < s.next) && base <= s.next
    && (forall k | k in heap :: k < base)
  }

  /** Later states keep the copies, and put new ones at new references only. */
  ghost predicate Extends(s: State, s': State) {
    && s.next <= s'.next
    && (forall k | k in s.out :: k in s'.out && s'.out[k] == s.out[k])
    && (forall k | k in s'.out :: k in s.out || k >= s.next)
  }

  // ---------- how deep the first visits go ----------

  /**
    A depth-first tour that passes over objects it has finished before. It succeeds when every object is
    first met below the nesting limit, however deep it may stand elsewhere; the result are the finished objects.
   */
  ghost function FirstVisits(heap: Heap, v: Value, fuel: nat, depth: nat, done: set<Ref>): Option<set<Ref>>
    decreases fuel, 1, 0
  {
    if !v.Object? || v.ref in done then Some(done)
    else if depth >= MAX_JSON_NESTING_DEPTH || fuel == 0 || v.ref !in heap then None
    else
      match FirstVisitsEntries(heap, heap[v.ref].entries, 0, fuel - 1, depth, done)
      case None => None
      case Some(after) => Some(after + {v.ref})
  }

  ghost function FirstVisitsEntries(heap: Heap, entries: seq<Entry>, i: nat, fuel: nat, depth: nat,
                                    done: set<Ref>): Option<set<Ref>>
    requires i <= |entries|
    decreases fuel, 2, |entries| - i
  {
    if i == |entries| then Some(done)
    else
      match FirstVisits(heap, entries[i].value, fuel, depth + 1, done)
      case None => None
      case Some(after) => FirstVisitsEntries(heap, entries, i + 1, fuel, depth, after)
  }

  lemma {:induction false} FirstVisitsLift(heap: Heap, v: Value, d: nat, e: nat, depth: nat, done: set<Ref>)
    requires d <= e && FirstVisits(heap, v, d, depth, done).Some?
    ensures FirstVisits(heap, v, e, depth, done) == FirstVisits(heap, v, d, depth, done)
    decreases d, 1, 0
  {
    if v.Object? && v.ref !in done {
      FirstVisitsEntriesLift(heap, heap[v.ref].entries, 0, d - 1, e - 1, depth, done);
    }
  }

  lemma {:induction false} FirstVisitsEntriesLift(heap: Heap, entries: seq<Entry>, i: nat, d: nat, e: nat, depth: nat,
                                                  done: set<Ref>)
    requires i <= |entries| && d <= e && FirstVisitsEntries(heap, entries, i, d, depth, done).Some?
    ensures FirstVisitsEntries(heap, entries, i, e, depth, done) == FirstVisitsEntries(heap, entries, i, d, depth, done)
    decreases d, 2, |entries| - i
  {
    if i < |entries| {
      FirstVisitsLift(heap, entries[i].value, d, e, depth + 1, done);
      FirstVisitsEntriesLift(heap, entries, i + 1, d, e, depth,
                             FirstVisits(heap, entries[i].value, d, depth + 1, done).value);
    }
  }

  /** A graph that unfolds within the nesting limit has no deep first visit. */
  lemma {:induction false} ShallowFirstVisits(heap: Heap, v: Value, d: nat, depth: nat, done: set<Ref>)
    requires Unfold(heap, v, d).Some? && depth + d <= MAX_JSON_NESTING_DEPTH
    ensures FirstVisits(heap, v, d, depth, done).Some?
    decreases d, 1, 0
  {
    if v.Object? {
      ShallowFirstVisitsEntries(heap, heap[v.ref].entries, 0, d - 1, depth, done, heap[v.ref].Array?);
    }
  }

  lemma {:induction false} ShallowFirstVisitsEntries(heap: Heap, entries: seq<Entry>, i: nat, d: nat, depth: nat,
                                                     done: set<Ref>, dense: bool)
    requires i <= |entries| && UnfoldEntries(heap, entries, i, d, dense).Some?
    requires depth + 1 + d <= MAX_JSON_NESTING_DEPTH
    ensures FirstVisitsEntries(heap, entries, i, d, depth, done).Some?
    decreases d, 2, |entries| - i
  {
    if i < |entries| {
      ShallowFirstVisits(heap, entries[i].value, d, depth + 1, done);
      ShallowFirstVisitsEntries(heap, entries, i + 1, d, depth,
                                FirstVisits(heap, entries[i].value, d, depth + 1, done).value, dense);
    }
  }

  // ---------- unfolding in growing heaps ----------

  lemma {:induction false} UnfoldExtends(out: Heap, out': Heap, v: Value, d: nat)
    requires Unfold(out, v, d).Some? && forall k | k in out :: k in out' && out'[k] == out[k]
    ensures Unfold(out', v, d) == Unfold(out, v, d)
    decreases d, 1, 0
  {
    if v.Object? {
      UnfoldEntriesExtends(out, out', out[v.ref].entries, 0, d - 1, out[v.ref].Array?);
    }
  }

  lemma {:induction false} UnfoldEntriesExtends(out: Heap, out': Heap, entries: seq<Entry>, i: nat, d: nat, dense: bool)
    requires i <= |entries| && UnfoldEntries(out, entries, i, d, dense).Some?
    requires forall k | k in out :: k in out' && out'[k] == out[k]
    ensures UnfoldEntries(out', entries, i, d, dense) == UnfoldEntries(out, entries, i, d, dense)
    decreases d, 2, |entries| - i
  {
    if i < |entries| {
      UnfoldExtends(out, out', entries[i].value, d);
      UnfoldEntriesExtends(out, out', entries, i + 1, d, dense);
    }
  }

  lemma UnfoldLift(heap: Heap, v: Value, d: nat, e: nat)
    requires Unfold(heap, v, d).Some? && d <= e
    ensures Unfold(heap, v, e) == Unfold(heap, v, d)
  {
    JsonValidatorProof.UnfoldMore(heap, v, d, e);
    UnfoldStable(heap, v, d, e);
  }

  lemma UnfoldEntriesLift(heap: Heap, entries: seq<Entry>, i: nat, d: nat, e: nat, dense: bool)
    requires i <= |entries| && UnfoldEntries(heap, entries, i, d, dense).Some? && d <= e
    ensures UnfoldEntries(heap, entries, i, e, dense) == UnfoldEntries(heap, entries, i, d, dense)
  {
    JsonValidatorProof.UnfoldEntriesMore(heap, entries, i, d, e, dense);
    UnfoldEntriesStable(heap, entries, i, d, e, dense);
  }

  lemma GoodExtends(heap: Heap, out: Heap, out': Heap, r: Ref, m: MemoizedClone)
    requires Good(heap, out, r, m) && forall k | k in out :: k in out' && out'[k] == out[k]
    ensures Good(heap, out', r, m)
  {
    hide Unfold;
    var d :| GoodAt(heap, out, r, m, d);
    UnfoldExtends(out, out', Object(m.copy), d);
    assert GoodAt(heap, out', r, m, d);
  }

  // ---------- dense arrays ----------

  lemma {:induction false} KeysOk(heap: Heap, entries: seq<Entry>, i: nat, length: Option<nat>, depth: nat,
                                  ancestors: set<Ref>,
                                  s: State, copies: seq<Entry>, k: nat)
    requires i <= k < |entries| && depth < MAX_JSON_NESTING_DEPTH
    requires VisitEntries(heap, entries, i, length, depth, ancestors, s, copies).Some?
    ensures KeyOk(entries[k].key, length)
    decreases |entries| - i
  {
    if i < k {
      var s1 := InspectString(s, entries[i].key, LIMITS.keyBytes).value;
      var (w, s2) := Visit(heap, entries[i].value, depth + 1, ancestors, s1).value;
      KeysOk(heap, entries, i + 1, length, depth, ancestors, s2, copies + [Entry(entries[i].key, w)], k);
    }
  }

  /** As many ascending indices as there are places: each key is the index of its place. */
  lemma AscendingIsDense(entries: seq<Entry>, i: nat)
    requires Ascending(entries) && i < |entries| <= LIMITS.containerEntries
    requires forall k | 0 <= k < |entries| :: KeyOk(entries[k].key, Some(|entries|))
    ensures Numerals.IsNumeral(entries[i].key) && Numerals.Decimal(entries[i].key) == i
  {
    assert KeyOk(entries[i].key, Some(|entries|));
    AtLeast(entries, i);
    AtMost(entries, i);
  }

  lemma {:induction false} AtLeast(entries: seq<Entry>, i: nat)
    requires Ascending(entries) && i < |entries| <= LIMITS.containerEntries
    requires forall k | 0 <= k < |entries| :: KeyOk(entries[k].key, Some(|entries|))
    ensures Numerals.IsNumeral(entries[i].key) && Numerals.Decimal(entries[i].key) >= i
  {
    assert KeyOk(entries[i].key, Some(|entries|));
    if i > 0 {
      AtLeast(entries, i - 1);
      assert Numerals.Decimal(entries[i - 1].key) < Numerals.Decimal(entries[i].key);
    }
  }

  lemma {:induction false} AtMost(entries: seq<Entry>, i: nat)
    requires Ascending(entries) && i < |entries| <= LIMITS.containerEntries
    requires forall k | 0 <= k < |entries| :: KeyOk(entries[k].key, Some(|entries|))
    ensures Numerals.IsNumeral(entries[i].key) && Numerals.Decimal(entries[i].key) <= i
    decreases |entries| - i
  {
    assert KeyOk(entries[i].key, Some(|entries|));
    if i + 1 < |entries| {
      AtMost(entries, i + 1);
      assert Numerals.Decimal(entries[i].key) < Numerals.Decimal(entries[i + 1].key);
    }
  }

  ghost predicate Dense(entries: seq<Entry>) {
    forall i | 0 <= i < |entries| :: CanonicalArrayIndex(entries[i].key) == Some(i)
  }

  lemma DenseKeys(entries: seq<Entry>)
    requires Ascending(entries) && |entries| <= LIMITS.containerEntries
    requires forall k | 0 <= k < |entries| :: KeyOk(entries[k].key, Some(|entries|))
    ensures Dense(entries)
  {
    forall i | 0 <= i < |entries|
      ensures CanonicalArrayIndex(entries[i].key) == Some(i)
    {
      AscendingIsDense(entries, i);
      assert KeyOk(entries[i].key, Some(|entries|));
    }
  }

  // ---------- a successful clone ----------

  /** What a successful visit has done: the same tree, charged in full, and the first visits all shallow. */
  ghost predicate Cloned(heap: Heap, v: Value, depth: nat, s: State, w: Value, s': State, base: Ref, d: nat, t: Tree) {
    && Inv(heap, s', base) && Extends(s, s')
    && Unfold(heap, v, d) == Some(t) && Unfold(s'.out, w, d) == Some(t) && Within(t, LIMITS)
    && s'.usage == Usage(s.usage.values + Count(t), s.usage.bytes + Bytes(t))
    && FirstVisits(heap, v, d, depth, Done(s)) == Some(Done(s'))
  }

  ghost predicate ClonedEntries(heap: Heap, entries: seq<Entry>, i: nat, depth: nat, s: State, copies: seq<Entry>,
                                s': State,
                                base: Ref, d: nat, fs: Fields, dense: bool)
  {
    && i <= |entries| == |copies|
    && Inv(heap, s', base) && Extends(s, s')
    && UnfoldEntries(heap, entries, i, d, dense) == Some(fs) && UnfoldEntries(s'.out, copies, i, d, dense) == Some(fs)
    && FieldsWithin(fs, LIMITS)
    && s'.usage == Usage(s.usage.values + CountFields(fs), s.usage.bytes + BytesFields(fs))
    && FirstVisitsEntries(heap, entries, i, d, depth, Done(s)) == Some(Done(s'))
  }

  lemma {:induction false} VisitSound(heap: Heap, v: Value, depth: nat, ancestors: set<Ref>, s: State, w: Value,
                                      s': State, base: Ref)
    returns (d: nat, t: Tree)
    requires depth <= MAX_JSON_NESTING_DEPTH && HeapOk(heap) && Inv(heap, s, base)
    requires Visit(heap, v, depth, ancestors, s) == Some((w, s'))
    ensures Cloned(heap, v, depth, s, w, s', base, d, t)
    decreases MAX_JSON_NESTING_DEPTH - depth, 2, 0
  {
    if v.Object? && IsDone(s, v.ref) {
      d, t := PriorSound(heap, v, depth, ancestors, s, w, s', base);
    } else if v.Object? {
      d, t := ObjectSound(heap, v, depth, ancestors, s, w, s', base);
    } else {
      d, t := ScalarSound(heap, v, depth, ancestors, s, w, s', base);
    }
  }

  lemma PriorSound(heap: Heap, v: Value, depth: nat, ancestors: set<Ref>, s: State, w: Value, s': State, base: Ref)
    returns (d: nat, t: Tree)
    requires depth <= MAX_JSON_NESTING_DEPTH && Inv(heap, s, base) && v.Object? && IsDone(s, v.ref)
    requires Visit(heap, v, depth, ancestors, s) == Some((w, s'))
    ensures Cloned(heap, v, depth, s, w, s', base, d, t)
  {
    hide Unfold, Within, Count, Bytes;
    assert v.ref in Done(s);
    d :| GoodAt(heap, s.out, v.ref, s.memo[v.ref], d);
    t := Unfold(heap, v, d).value;
    assert Done(s') == Done(s);
  }

  lemma ScalarSound(heap: Heap, v: Value, depth: nat, ancestors: set<Ref>, s: State, w: Value, s': State, base: Ref)
    returns (d: nat, t: Tree)
    requires depth <= MAX_JSON_NESTING_DEPTH && Inv(heap, s, base) && !v.Object?
    requires Visit(heap, v, depth, ancestors, s) == Some((w, s'))
    ensures Cloned(heap, v, depth, s, w, s', base, d, t)
  {
    d := 0;
    t := Unfold(heap, v, 0).value;
    assert Done(s') == Done(s);
  }

  /** The state in which the entries of object `r` are visited. */
  function Opened(s: State, r: Ref): State {
    var s1 := s.(usage := Usage(s.usage.values + 1, s.usage.bytes));
    s1.(next := s1.next + 1, memo := s1.memo[r := MemoizedClone(s1.next, None)])
  }

  /** The state after them. */
  function Closed(s: State, r: Ref, s3: State, output: Container): State
    requires s3.usage.values >= s.usage.values && s3.usage.bytes >= s.usage.bytes
  {
    var used := Usage(s3.usage.values - s.usage.values, s3.usage.bytes - s.usage.bytes);
    s3.(memo := s3.memo[r := MemoizedClone(s.next, Some(used))], out := s3.out[s.next := output])
  }

  function LengthOf(c: Container): Option<nat> { if c.Array? then Some(c.length) else None }

  function Output(c: Container, copies: seq<Entry>): Container {
    if c.Array? then Array(c.length, copies) else Record(copies)
  }

  /** A successful visit of an object not yet copied, taken apart. */
  lemma ObjectSteps(heap: Heap, r: Ref, depth: nat, ancestors: set<Ref>, s: State, w: Value, s': State)
    returns (copies: seq<Entry>, s3: State)
    requires depth <= MAX_JSON_NESTING_DEPTH && !IsDone(s, r)
    requires Visit(heap, Object(r), depth, ancestors, s) == Some((w, s'))
    ensures r !in ancestors && r in heap && depth < MAX_JSON_NESTING_DEPTH
    ensures |heap[r].entries| <= LIMITS.containerEntries
    ensures heap[r].Array? ==> |heap[r].entries| == heap[r].length
    ensures VisitEntries(heap, heap[r].entries, 0, LengthOf(heap[r]), depth, ancestors + {r}, Opened(s, r), [])
            == Some((copies, s3))
    ensures s3.usage.values >= s.usage.values && s3.usage.bytes >= s.usage.bytes
    ensures w == Object(s.next) && s' == Closed(s, r, s3, Output(heap[r], copies))
  {
    hide VisitEntries;
    copies := VisitEntries(heap, heap[r].entries, 0, LengthOf(heap[r]), depth, ancestors + {r},
                           Opened(s, r), []).value.0;
    s3 := VisitEntries(heap, heap[r].entries, 0, LengthOf(heap[r]), depth, ancestors + {r}, Opened(s, r), []).value.1;
  }

  lemma OpenedInv(heap: Heap, s: State, r: Ref, base: Ref)
    requires Inv(heap, s, base) && !IsDone(s, r)
    ensures Inv(heap, Opened(s, r), base) && Done(Opened(s, r)) == Done(s)
  {
    hide Good;
    var o := Opened(s, r);
    assert forall q | q in Done(o) :: q in Done(s) && o.memo[q] == s.memo[q];
    assert forall q | q in Done(s) :: q in Done(o);
  }

  lemma {:induction false} ObjectSound(heap: Heap, v: Value, depth: nat, ancestors: set<Ref>, s: State, w: Value,
                                       s': State, base: Ref)
    returns (d: nat, t: Tree)
    requires depth <= MAX_JSON_NESTING_DEPTH && HeapOk(heap) && Inv(heap, s, base) && v.Object? && !IsDone(s, v.ref)
    requires Visit(heap, v, depth, ancestors, s) == Some((w, s'))
    ensures Cloned(heap, v, depth, s, w, s', base, d, t)
    decreases MAX_JSON_NESTING_DEPTH - depth, 1, 0
  {
    hide Visit, VisitEntries, Unfold, UnfoldEntries, Inv, FirstVisits, FirstVisitsEntries;
    var r := v.ref;
    var copies, s3 := ObjectSteps(heap, r, depth, ancestors, s, w, s');
    var entries, dense := heap[r].entries, heap[r].Array?;
    OpenedInv(heap, s, r, base);
    if dense {
      forall k | 0 <= k < |entries|
        ensures KeyOk(entries[k].key, Some(|entries|))
      {
        KeysOk(heap, entries, 0, Some(|entries|), depth, ancestors + {r}, Opened(s, r), [], k);
      }
      DenseKeys(entries);
    }
    var e, fs := EntriesSound(heap, entries, 0, LengthOf(heap[r]), depth, ancestors + {r},
                              Opened(s, r), [], copies, s3, base, dense);
    d := e + 1;
    t := if dense then Items(fs) else Members(fs);
    CloseSound(heap, r, depth, s, copies, s3, base, e, fs, t);
  }

  /** Closing an object whose entries have been cloned. */
  lemma CloseSound(heap: Heap, r: Ref, depth: nat, s: State, copies: seq<Entry>, s3: State, base: Ref, e: nat,
                   fs: Fields, t: Tree)
    requires r in heap && depth < MAX_JSON_NESTING_DEPTH && |heap[r].entries| <= LIMITS.containerEntries
    requires heap[r].Array? ==> |heap[r].entries| == heap[r].length
    requires Inv(heap, s, base) && !IsDone(s, r)
    requires s3.usage.values >= s.usage.values && s3.usage.bytes >= s.usage.bytes
    requires ClonedEntries(heap, heap[r].entries, 0, depth, Opened(s, r), copies, s3, base, e, fs, heap[r].Array?)
    requires t == if heap[r].Array? then Items(fs) else Members(fs)
    ensures Cloned(heap, Object(r), depth, s, Object(s.next), Closed(s, r, s3, Output(heap[r], copies)), base, e + 1, t)
  {
    hide UnfoldEntries, FirstVisitsEntries, FieldsWithin, CountFields, BytesFields, Good;
    var s' := Closed(s, r, s3, Output(heap[r], copies));
    var dense := heap[r].Array?;
    OpenedInv(heap, s, r, base);
    assert s.next !in s3.out;
    UnfoldEntriesExtends(s3.out, s'.out, copies, 0, e, dense);
    assert Unfold(heap, Object(r), e + 1) == Some(t);
    assert Unfold(s'.out, Object(s.next), e + 1) == Some(t);
    UnfoldedLength(heap, heap[r].entries, 0, e, dense);
    assert GoodAt(heap, s'.out, r, s'.memo[r], e + 1);
    assert Done(s') == Done(s3) + {r};
    forall q | q in Done(s')
      ensures Good(heap, s'.out, q, s'.memo[q])
    {
      if q == r {
        GoodFrom(heap, s'.out, r, s'.memo[r], e + 1);
      } else {
        GoodExtends(heap, s3.out, s'.out, q, s3.memo[q]);
      }
    }
  }

  lemma GoodFrom(heap: Heap, out: Heap, r: Ref, m: MemoizedClone, d: nat)
    requires GoodAt(heap, out, r, m, d)
    ensures Good(heap, out, r, m)
  {
  }

  lemma {:induction false} EntriesSound(heap: Heap, entries: seq<Entry>, i: nat, length: Option<nat>, depth: nat,
                                        ancestors: set<Ref>, s: State, copies: seq<Entry>, copies': seq<Entry>,
                                        s': State, base: Ref, dense: bool)
    returns (d: nat, fs: Fields)
    requires i <= |entries| && |copies| == i && depth < MAX_JSON_NESTING_DEPTH && HeapOk(heap) && Inv(heap, s, base)
    requires VisitEntries(heap, entries, i, length, depth, ancestors, s, copies) == Some((copies', s'))
    requires dense ==> Dense(entries)
    ensures ClonedEntries(heap, entries, i, depth, s, copies', s', base, d, fs, dense)
    ensures copies <= copies'
    decreases MAX_JSON_NESTING_DEPTH - depth, 0, |entries| - i, 1
  {
    if i == |entries| {
      d, fs := 0, NoFields;
    } else {
      d, fs := EntrySound(heap, entries, i, length, depth, ancestors, s, copies, copies', s', base, dense);
    }
  }

  lemma {:induction false} EntrySound(heap: Heap, entries: seq<Entry>, i: nat, length: Option<nat>, depth: nat,
                                      ancestors: set<Ref>, s: State, copies: seq<Entry>, copies': seq<Entry>,
                                      s': State, base: Ref, dense: bool)
    returns (d: nat, fs: Fields)
    requires i < |entries| && |copies| == i && depth < MAX_JSON_NESTING_DEPTH && HeapOk(heap) && Inv(heap, s, base)
    requires VisitEntries(heap, entries, i, length, depth, ancestors, s, copies) == Some((copies', s'))
    requires dense ==> Dense(entries)
    ensures ClonedEntries(heap, entries, i, depth, s, copies', s', base, d, fs, dense)
    ensures copies <= copies'
    decreases MAX_JSON_NESTING_DEPTH - depth, 0, |entries| - i, 0
  {
    hide Visit, Unfold, UnfoldEntries, Inv, FirstVisits, FirstVisitsEntries, Dense, Within, FieldsWithin, Count, Bytes;
    var key := entries[i].key;
    var s1 := InspectString(s, key, LIMITS.keyBytes).value;
    var (w, s2) := Visit(heap, entries[i].value, depth + 1, ancestors, s1).value;
    InspectedInv(heap, s, key, s1, base);
    var d1, t := VisitSound(heap, entries[i].value, depth + 1, ancestors, s1, w, s2, base);
    var longer := copies + [Entry(key, w)];
    var d2, rest := EntriesSound(heap, entries, i + 1, length, depth, ancestors, s2, longer, copies', s', base, dense);
    d := if d1 < d2 then d2 else d1;
    fs := Field(key, t, rest);
    assert longer[i] == copies'[i];
    JoinEntries(heap, entries, i, depth, s, s1, w, s2, copies', s', base, d1, t, d2, rest, d, dense);
  }

  lemma InspectedInv(heap: Heap, s: State, key: Text, s1: State, base: Ref)
    requires Inv(heap, s, base) && InspectString(s, key, LIMITS.keyBytes) == Some(s1)
    ensures Inv(heap, s1, base) && Done(s1) == Done(s) && s1.out == s.out && s1.next == s.next
    ensures StringWithin(key, LIMITS.keyBytes)
    ensures s1.usage == Usage(s.usage.values, s.usage.bytes + Utf.ByteLength(key))
  {
    assert Done(s1) == Done(s);
  }

  lemma JoinEntries(heap: Heap, entries: seq<Entry>, i: nat, depth: nat, s: State, s1: State, w: Value, s2: State,
                    copies': seq<Entry>, s': State, base: Ref, d1: nat, t: Tree, d2: nat, rest: Fields, d: nat,
                    dense: bool)
    requires i < |entries| && |copies'| == |entries| && (dense ==> Dense(entries))
    requires InspectString(s, entries[i].key, LIMITS.keyBytes) == Some(s1) && Inv(heap, s, base)
    requires Cloned(heap, entries[i].value, depth + 1, s1, w, s2, base, d1, t)
    requires ClonedEntries(heap, entries, i + 1, depth, s2, copies', s', base, d2, rest, dense)
    requires copies'[i] == Entry(entries[i].key, w) && d1 <= d && d2 <= d
    ensures ClonedEntries(heap, entries, i, depth, s, copies', s', base, d, Field(entries[i].key, t, rest), dense)
  {
    hide Visit, Unfold, Inv, FirstVisits, Within, Count, Bytes;
    InspectedInv(heap, s, entries[i].key, s1, base);
    UnfoldLift(heap, entries[i].value, d1, d);
    UnfoldEntriesLift(heap, entries, i + 1, d2, d, dense);
    UnfoldExtends(s2.out, s'.out, w, d1);
    UnfoldLift(s'.out, w, d1, d);
    UnfoldEntriesLift(s'.out, copies', i + 1, d2, d, dense);
    FirstVisitsLift(heap, entries[i].value, d1, d, depth + 1, Done(s1));
    FirstVisitsEntriesLift(heap, entries, i + 1, d2, d, depth, Done(s2));
  }
}
