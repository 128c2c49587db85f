/** Exactly which graphs the memoised clone accepts. */
module SnapshotCloneExact {
  import opened Text
  import Utf
  import opened JsonGraph
  import opened SnapshotClone
  import opened SnapshotCloneProof
  import JsonValidatorProof

  /** The usage so far leaves room for that many more values and bytes. */
  predicate Room(s: State, values: nat, bytes: nat) {
    s.usage.values + values <= LIMITS.values && s.usage.bytes + bytes <= LIMITS.totalStringBytes
  }

  lemma InspectComplete(s: State, t: Text, maximumBytes: nat)
    requires StringWithin(t, maximumBytes) && Room(s, 0, Utf.ByteLength(t))
    ensures InspectString(s, t, maximumBytes).Some?
  {
    JsonValidatorProof.UnitsAtMostBytes(t);
  }

  lemma {:induction false} VisitComplete(heap: Heap, v: Value, depth: nat, ancestors: set<Ref>, s: State, base: Ref,
                                         d: nat, t: Tree)
    requires depth <= MAX_JSON_NESTING_DEPTH && HeapOk(heap) && Inv(heap, s, base)
    requires Unfold(heap, v, d) == Some(t) && Within(t, LIMITS) && Room(s, Count(t), Bytes(t))
    requires Refs(heap, v, d) !! ancestors && FirstVisits(heap, v, d, depth, Done(s)).Some?
    ensures Visit(heap, v, depth, ancestors, s).Some?
    decreases d, 1, 0
  {
    hide VisitEntries, Good;
    if v.Object? {
      if IsDone(s, v.ref) {
        PriorComplete(heap, v, depth, ancestors, s, base, d, t);
      } else {
        ObjectComplete(heap, v.ref, depth, ancestors, s, base, d, t);
      }
    } else if v.String? {
      InspectComplete(s.(usage := Usage(s.usage.values + 1, s.usage.bytes)), v.text, LIMITS.stringBytes);
    }
  }

  lemma PriorComplete(heap: Heap, v: Value, depth: nat, ancestors: set<Ref>, s: State, base: Ref, d: nat, t: Tree)
    requires depth <= MAX_JSON_NESTING_DEPTH && Inv(heap, s, base) && v.Object? && IsDone(s, v.ref)
    requires v.ref !in ancestors
    requires Unfold(heap, v, d) == Some(t) && Room(s, Count(t), Bytes(t))
    ensures Visit(heap, v, depth, ancestors, s).Some?
  {
    hide Unfold, Count, Bytes;
    assert v.ref in Done(s);
    var e :| GoodAt(heap, s.out, v.ref, s.memo[v.ref], e);
    UnfoldStable(heap, v, d, e);
  }

  lemma {:induction false} ObjectComplete(heap: Heap, r: Ref, depth: nat, ancestors: set<Ref>, s: State, base: Ref,
                                          d: nat, t: Tree)
    requires depth <= MAX_JSON_NESTING_DEPTH && HeapOk(heap) && Inv(heap, s, base) && !IsDone(s, r)
    requires Unfold(heap, Object(r), d) == Some(t) && Within(t, LIMITS) && Room(s, Count(t), Bytes(t))
    requires Refs(heap, Object(r), d) !! ancestors && FirstVisits(heap, Object(r), d, depth, Done(s)).Some?
    ensures Visit(heap, Object(r), depth, ancestors, s).Some?
    decreases d, 0, 0
  {
    hide VisitEntries, Inv, UnfoldEntries, RefsEntries, FirstVisitsEntries, FieldsWithin, CountFields, BytesFields;
    var entries, dense := heap[r].entries, heap[r].Array?;
    var fs := t.fields;
    NoSelfReference(heap, r, d);
    OpenedInv(heap, s, r, base);
    UnfoldedLength(heap, entries, 0, d - 1, dense);
    EntriesComplete(heap, entries, 0, LengthOf(heap[r]), depth, ancestors + {r}, Opened(s, r), [], base, d - 1, fs,
                    dense);
  }

  lemma {:induction false} EntriesComplete(heap: Heap, entries: seq<Entry>, i: nat, length: Option<nat>, depth: nat,
                                           ancestors: set<Ref>,
                                           s: State, copies: seq<Entry>, base: Ref, d: nat, fs: Fields, dense: bool)
    requires i <= |entries| && depth < MAX_JSON_NESTING_DEPTH && HeapOk(heap) && Inv(heap, s, base)
    requires dense == length.Some? && (dense ==> length.value == |entries|)
    requires UnfoldEntries(heap, entries, i, d, dense) == Some(fs) && FieldsWithin(fs, LIMITS)
    requires Room(s, CountFields(fs), BytesFields(fs))
    requires RefsEntries(heap, entries, i, d) !! ancestors
    requires FirstVisitsEntries(heap, entries, i, d, depth, Done(s)).Some?
    ensures VisitEntries(heap, entries, i, length, depth, ancestors, s, copies).Some?
    decreases d, 2, |entries| - i
  {
    hide Visit, Unfold, Inv, Refs, FirstVisits, Within, Count, Bytes, InspectString, StringWithin;
    if i < |entries| {
      var key := entries[i].key;
      InspectComplete(s, key, LIMITS.keyBytes);
      var s1 := InspectString(s, key, LIMITS.keyBytes).value;
      InspectedInv(heap, s, key, s1, base);
      VisitComplete(heap, entries[i].value, depth + 1, ancestors, s1, base, d, fs.value);
      var (w, s2) := Visit(heap, entries[i].value, depth + 1, ancestors, s1).value;
      Visited(heap, entries[i].value, depth + 1, ancestors, s1, w, s2, base, d, fs.value);
      EntriesComplete(heap, entries, i + 1, length, depth, ancestors, s2, copies + [Entry(key, w)], base, d, fs.rest,
                      dense);
    }
  }

  /** A successful visit, seen from the given depth. */
  lemma Visited(heap: Heap, v: Value, depth: nat, ancestors: set<Ref>, s: State, w: Value, s': State, base: Ref,
                d: nat, t: Tree)
    requires depth <= MAX_JSON_NESTING_DEPTH && HeapOk(heap) && Inv(heap, s, base)
    requires Visit(heap, v, depth, ancestors, s) == Some((w, s'))
    requires Unfold(heap, v, d) == Some(t) && FirstVisits(heap, v, d, depth, Done(s)).Some?
    ensures Inv(heap, s', base) && s'.usage == Usage(s.usage.values + Count(t), s.usage.bytes + Bytes(t))
    ensures FirstVisits(heap, v, d, depth, Done(s)) == Some(Done(s'))
  {
    hide Visit, Unfold, Inv, FirstVisits, Within, Count, Bytes;
    var e, u := VisitSound(heap, v, depth, ancestors, s, w, s', base);
    UnfoldStable(heap, v, d, e);
    if d <= e {
      FirstVisitsLift(heap, v, d, e, depth, Done(s));
    } else {
      FirstVisitsLift(heap, v, e, d, depth, Done(s));
    }
  }

  // ---------- the main results ----------

  function Start(base: Ref): State { State(Usage(0, 0), map[], map[], base) }

  /** `cloneJsonValue`: the copy, the heap of copies and the usage. */
  function CloneJsonValue(heap: Heap, v: Value, base: Ref): Option<(Value, Heap, Usage)> {
    match Visit(heap, v, 0, {}, Start(base))
    case None => None
    case Some((w, s)) => Some((w, s.out, s.usage))
  }

  ghost predicate Input(heap: Heap, base: Ref) {
    HeapOk(heap) && forall k | k in heap :: k < base
  }

  /** Some depth at which the graph unfolds to a tree within all limits, none of whose objects is first met too deep. */
  ghost predicate Admissible(heap: Heap, v: Value, d: nat) {
    && Unfold(heap, v, d).Some?
    && var t := Unfold(heap, v, d).value;
       && Within(t, LIMITS) && Count(t) <= LIMITS.values && Bytes(t) <= LIMITS.totalStringBytes
       && FirstVisits(heap, v, d, 0, {}).Some?
  }

  /** What comes out unfolds to the same tree, consists of new objects only and is charged like the whole tree. */
  lemma CloneFaithful(heap: Heap, v: Value, base: Ref) returns (d: nat)
    requires Input(heap, base) && CloneJsonValue(heap, v, base).Some?
    ensures var (w, out, usage) := CloneJsonValue(heap, v, base).value;
      && Admissible(heap, v, d) && Unfold(out, w, d) == Unfold(heap, v, d)
      && usage == Usage(Count(Unfold(heap, v, d).value), Bytes(Unfold(heap, v, d).value))
      && out.Keys !! heap.Keys
  {
    hide Visit, Unfold, FirstVisits, Within, Count, Bytes, Good;
    var (w, s) := Visit(heap, v, 0, {}, Start(base)).value;
    var t;
    d, t := VisitSound(heap, v, 0, {}, Start(base), w, s, base);
    assert Done(Start(base)) == {};
  }

  lemma CloneAdmits(heap: Heap, v: Value, base: Ref, d: nat)
    requires Input(heap, base) && Admissible(heap, v, d)
    ensures CloneJsonValue(heap, v, base).Some?
  {
    hide Visit, Unfold, FirstVisits, Within, Count, Bytes, Good, Refs;
    var t := Unfold(heap, v, d).value;
    assert Done(Start(base)) == {};
    VisitComplete(heap, v, 0, {}, Start(base), base, d, t);
  }

  lemma CloneExact(heap: Heap, v: Value, base: Ref)
    requires Input(heap, base)
    ensures CloneJsonValue(heap, v, base).Some? <==> exists d :: Admissible(heap, v, d)
  {
    hide *;
    if CloneJsonValue(heap, v, base).Some? {
      var d := CloneFaithful(heap, v, base);
    }
    if d :| Admissible(heap, v, d) {
      CloneAdmits(heap, v, base, d);
    }
  }

  /** A graph whose tree nests within the limit is copied exactly when its tree fits: sharing changes nothing. */
  lemma SharingDoesNotMatter(heap: Heap, v: Value, base: Ref)
    requires Input(heap, base) && Unfold(heap, v, MAX_JSON_NESTING_DEPTH).Some?
    ensures var t := Unfold(heap, v, MAX_JSON_NESTING_DEPTH).value;
      CloneJsonValue(heap, v, base).Some? <==>
      Within(t, LIMITS) && Count(t) <= LIMITS.values && Bytes(t) <= LIMITS.totalStringBytes
  {
    hide CloneJsonValue, Unfold, FirstVisits, Within, Count, Bytes, Good;
    ShallowFirstVisits(heap, v, MAX_JSON_NESTING_DEPTH, 0, {});
    if CloneJsonValue(heap, v, base).Some? {
      var d := CloneFaithful(heap, v, base);
      UnfoldStable(heap, v, d, MAX_JSON_NESTING_DEPTH);
    } else if Admissible(heap, v, MAX_JSON_NESTING_DEPTH) {
      CloneAdmits(heap, v, base, MAX_JSON_NESTING_DEPTH);
    }
  }

  /** A cycle never gets through: whatever contains an object that contains itself is rejected. */
  lemma CloneRejectsCycles(heap: Heap, v: Value, base: Ref, r: Ref, e: nat, d: nat)
    requires Input(heap, base) && r in heap && r in Refs(heap, v, e) && r in RefsEntries(heap, heap[r].entries, 0, d)
    ensures CloneJsonValue(heap, v, base).None?
  {
    hide CloneJsonValue, UnfoldEntries, RefsEntries;
    if CloneJsonValue(heap, v, base).Some? {
      var c := CloneFaithful(heap, v, base);
      var top := if c < e then e else c;
      UnfoldLift(heap, v, c, top);
      JsonValidatorProof.RefsMore(heap, v, e, top);
      var k := RefUnfolds(heap, v, top, r);
      var f := if k < d + 1 then d + 1 else k;
      UnfoldLift(heap, Object(r), k, f);
      NoSelfReference(heap, r, f);
      JsonValidatorProof.RefsEntriesMore(heap, heap[r].entries, 0, d, f - 1);
    }
  }

  /** The class computes the function. */
  method RunClone(heap: Heap, v: Value, base: Ref) returns (r: Option<(Value, Heap, Usage)>)
    ensures r == CloneJsonValue(heap, v, base)
  {
    hide Visit;
    var cloner := new Cloner(heap, base);
    var w := cloner.Clone(v, 0);
    r := if w.None? then None else Some((w.value, cloner.state.out, cloner.state.usage));
  }

  // ---------- sharing and the nesting limit ----------

  const X: Text := [0x78]
  const Y: Text := [0x79]

  function Rungs(k: nat): (rs: set<Ref>)
    ensures forall r :: r in rs <==> k <= r <= 300
    decreases 301 - k
  {
    if k > 300 then {} else {k} + Rungs(k + 1)
  }

  /**
    A chain of objects 1 to 300. Object 0 refers first to the middle of the chain and then to its start,
    so that the lower half is first met at depth 1 and passed over when the upper half arrives at it.
   */
  function Ladder(): Heap {
    map k | k in Rungs(0) ::
      if k == 0 then Record([Entry(X, Object(101)), Entry(Y, Object(1))])
      else if k == 300 then Record([])
      else Record([Entry(X, Object(k + 1))])
  }

  lemma LadderAt(k: nat)
    ensures k in Ladder() <==> k <= 300
    ensures 1 <= k < 300 ==> Ladder()[k] == Record([Entry(X, Object(k + 1))])
    ensures k == 300 ==> Ladder()[k] == Record([])
  {
  }

  lemma RungStep(k: nat, d: nat)
    requires 1 <= k < 300
    ensures Unfold(Ladder(), Object(k), d + 1) ==
            (match Unfold(Ladder(), Object(k + 1), d)
             case None => None
             case Some(t) => Some(Members(Field(X, t, NoFields))))
  {
    hide Ladder;
    LadderAt(k);
    var entries := Ladder()[k].entries;
    assert entries == [Entry(X, Object(k + 1))];
    assert UnfoldEntries(Ladder(), entries, 1, d, false) == Some(NoFields);
  }

  lemma AddX(t: Tree)
    requires Within(t, LIMITS)
    ensures var u := Members(Field(X, t, NoFields));
      Count(u) == Count(t) + 1 && Bytes(u) == Bytes(t) + 1 && Within(u, LIMITS)
  {
    assert Utf.ByteLength(X) == 1 && Utf.WellFormed(X);
    assert FieldsWithin(NoFields, LIMITS) && CountFields(NoFields) == 0 && BytesFields(NoFields) == 0;
    assert Length(Field(X, t, NoFields)) == 1;
  }

  lemma LastRung()
    ensures Unfold(Ladder(), Object(300), 1) == Some(Members(NoFields))
    ensures var t := Members(NoFields); Count(t) == 1 && Bytes(t) == 0 && Within(t, LIMITS)
  {
    hide Ladder;
    LadderAt(300);
    assert UnfoldEntries(Ladder(), [], 0, 0, false) == Some(NoFields);
    assert FieldsWithin(NoFields, LIMITS) && CountFields(NoFields) == 0 && BytesFields(NoFields) == 0;
    assert Length(NoFields) == 0;
  }

  lemma {:induction false} RungUnfolds(k: nat)
    requires 1 <= k <= 300
    ensures var t := Unfold(Ladder(), Object(k), 301 - k);
      t.Some? && Count(t.value) == 301 - k && Bytes(t.value) == 300 - k && Within(t.value, LIMITS)
    decreases 300 - k
  {
    if k < 300 {
      hide Unfold, Ladder, Count, Bytes, Within;
      RungUnfolds(k + 1);
      RungStep(k, 300 - k);
      AddX(Unfold(Ladder(), Object(k + 1), 300 - k).value);
    } else {
      LastRung();
    }
  }

  lemma {:induction false} RungTooDeep(k: nat, d: nat)
    requires 1 <= k <= 300 && d < 301 - k
    ensures Unfold(Ladder(), Object(k), d).None?
    decreases d
  {
    if d > 0 {
      RungTooDeep(k + 1, d - 1);
      RungStep(k, d - 1);
    }
  }

  /** From a rung down to the finished part of the chain, if that is near enough. */
  lemma {:induction false} RungVisits(k: nat, top: nat, fuel: nat, depth: nat)
    requires 1 <= k <= top <= 301 && depth + (top - k) <= MAX_JSON_NESTING_DEPTH && fuel >= top - k && k <= 300
    ensures FirstVisits(Ladder(), Object(k), fuel, depth, Rungs(top)) == Some(Rungs(k))
    decreases top - k
  {
    if k < top {
      var entries := Ladder()[k].entries;
      if k < 300 {
        RungVisits(k + 1, top, fuel - 1, depth + 1);
        assert FirstVisitsEntries(Ladder(), entries, 1, fuel - 1, depth, Rungs(k + 1)) == Some(Rungs(k + 1));
        assert FirstVisitsEntries(Ladder(), entries, 0, fuel - 1, depth, Rungs(top)) == Some(Rungs(k + 1));
      }
      assert Rungs(k) == Rungs(k + 1) + {k};
    }
  }

  /** Sharing lets a graph through whose tree nests deeper than the limit, here 301 containers. */
  lemma SharingDodgesTheNestingLimit()
    ensures Input(Ladder(), 301) && CloneJsonValue(Ladder(), Object(0), 301).Some?
    ensures Unfold(Ladder(), Object(0), MAX_JSON_NESTING_DEPTH).None?
  {
    hide CloneJsonValue, Unfold, FirstVisits, Within, Count, Bytes;
    TopUnfolds();
    TopVisits();
    CloneAdmits(Ladder(), Object(0), 301, 301);
    TopTooDeep();
  }

  lemma TopUnfolds()
    ensures var t := Unfold(Ladder(), Object(0), 301);
      t.Some? && Count(t.value) == 501 && Bytes(t.value) == 500 && Within(t.value, LIMITS)
  {
    hide Unfold, Count, Bytes, Within;
    RungUnfolds(101);
    RungUnfolds(1);
    UnfoldLift(Ladder(), Object(101), 200, 300);
    var low, high := Unfold(Ladder(), Object(101), 300).value, Unfold(Ladder(), Object(1), 300).value;
    JoinTop(low, high);
    AddXAndY(low, high);
  }

  lemma AddXAndY(low: Tree, high: Tree)
    requires Within(low, LIMITS) && Within(high, LIMITS)
    ensures var u := Members(Field(X, low, Field(Y, high, NoFields)));
      Count(u) == Count(low) + Count(high) + 1 && Bytes(u) == Bytes(low) + Bytes(high) + 2 && Within(u, LIMITS)
  {
    assert Utf.ByteLength(X) == 1 && Utf.WellFormed(X) && Utf.ByteLength(Y) == 1 && Utf.WellFormed(Y);
    var last := Field(Y, high, NoFields);
    assert FieldsWithin(NoFields, LIMITS) && CountFields(NoFields) == 0 && BytesFields(NoFields) == 0;
    assert FieldsWithin(last, LIMITS) && CountFields(last) == Count(high) && BytesFields(last) == 1 + Bytes(high);
    assert Length(last) == 1 && Length(Field(X, low, last)) == 2;
  }

  lemma JoinTop(low: Tree, high: Tree)
    requires Unfold(Ladder(), Object(101), 300) == Some(low) && Unfold(Ladder(), Object(1), 300) == Some(high)
    ensures Unfold(Ladder(), Object(0), 301) == Some(Members(Field(X, low, Field(Y, high, NoFields))))
  {
    var entries := Ladder()[0].entries;
    assert UnfoldEntries(Ladder(), entries, 2, 300, false) == Some(NoFields);
    assert UnfoldEntries(Ladder(), entries, 1, 300, false) == Some(Field(Y, high, NoFields));
  }

  lemma TopVisits()
    ensures FirstVisits(Ladder(), Object(0), 301, 0, {}).Some?
  {
    var entries := Ladder()[0].entries;
    RungVisits(101, 301, 300, 1);
    RungVisits(1, 101, 300, 1);
    assert FirstVisitsEntries(Ladder(), entries, 2, 300, 0, Rungs(1)) == Some(Rungs(1));
    assert FirstVisitsEntries(Ladder(), entries, 1, 300, 0, Rungs(101)) == Some(Rungs(1));
    assert Rungs(301) == {};
    assert FirstVisitsEntries(Ladder(), entries, 0, 300, 0, {}) == Some(Rungs(1));
  }

  lemma TopTooDeep()
    ensures Unfold(Ladder(), Object(0), MAX_JSON_NESTING_DEPTH).None?
  {
    RungTooDeep(1, 255);
    assert UnfoldEntries(Ladder(), Ladder()[0].entries, 1, 255, false).None?;
  }
}
