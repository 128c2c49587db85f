/** Freezing everything that a value refers to, with a worklist, on graphs that may be cyclic and shared. */
module DeepFreeze {
  import opened JsonGraph

  predicate Child(heap: Heap, r: Ref, c: Ref) {
    r in heap && exists i :: 0 <= i < |heap[r].entries| && heap[r].entries[i].value == Object(c)
  }

  /** Every object that is referred to exists. */
  ghost predicate Closed(heap: Heap) {
    forall r, c | Child(heap, r, c) :: c in heap
  }

  /** There is a path of `n` references. */
  ghost predicate Reaches(heap: Heap, a: Ref, b: Ref, n: nat)
    decreases n
  {
    if n == 0 then a == b else exists c :: Reaches(heap, a, c, n - 1) && Child(heap, c, b)
  }

  ghost predicate Reachable(heap: Heap, a: Ref, b: Ref) { exists n: nat :: Reaches(heap, a, b, n) }

  lemma ReachesChild(heap: Heap, a: Ref, b: Ref, c: Ref)
    requires Reachable(heap, a, b) && Child(heap, b, c)
    ensures Reachable(heap, a, c)
  {
    var n: nat :| Reaches(heap, a, b, n);
    assert Reaches(heap, a, c, n + 1);
  }

  ghost predicate ClosedUnder(heap: Heap, seen: set<Ref>) {
    forall r, c | r in seen && Child(heap, r, c) :: c in seen
  }

  lemma {:induction false} ReachedIsSeen(heap: Heap, a: Ref, b: Ref, n: nat, seen: set<Ref>)
    requires a in seen && ClosedUnder(heap, seen) && Reaches(heap, a, b, n)
    ensures b in seen
    decreases n
  {
    if n > 0 {
      var c :| Reaches(heap, a, c, n - 1) && Child(heap, c, b);
      ReachedIsSeen(heap, a, c, n - 1, seen);
    }
  }

  /** The objects among the properties, in their order. */
  function Children(entries: seq<Entry>): seq<Ref> {
    if entries == [] then []
    else
      Children(entries[..|entries| - 1])
      + (if entries[|entries| - 1].value.Object? then [entries[|entries| - 1].value.ref] else [])
  }

  lemma {:induction false} ChildrenExact(entries: seq<Entry>, c: Ref)
    ensures c in Children(entries) <==> exists i :: 0 <= i < |entries| && entries[i].value == Object(c)
  {
    if entries != [] {
      var n := |entries| - 1;
      ChildrenExact(entries[..n], c);
      if entries[n].value == Object(c) {
        assert c in Children(entries);
      }
      if i :| 0 <= i < n && entries[i].value == Object(c) {
        assert entries[..n][i].value == Object(c);
      }
    }
  }

  /** The work still to do leads nowhere but to reachable objects, and nothing is left behind. */
  ghost predicate Progress(heap: Heap, root: Ref, pending: seq<Ref>, seen: set<Ref>) {
    && (forall r | r in pending :: r in heap && Reachable(heap, root, r))
    && (forall r | r in seen :: r in heap && Reachable(heap, root, r))
    && (root in seen || root in pending)
    && (forall r, c | r in seen && Child(heap, r, c) :: c in seen || c in pending)
  }

  lemma Visited(heap: Heap, root: Ref, pending: seq<Ref>, seen: set<Ref>, r: Ref)
    requires Closed(heap) && Progress(heap, root, pending + [r], seen) && r in heap
    ensures Progress(heap, root, pending + Children(heap[r].entries), seen + {r})
  {
    hide Reachable, Children;
    assert r in pending + [r];
    forall c
      ensures c in Children(heap[r].entries) <==> Child(heap, r, c)
    {
      ChildrenExact(heap[r].entries, c);
    }
    forall c | c in Children(heap[r].entries)
      ensures c in heap && Reachable(heap, root, c)
    {
      ReachesChild(heap, root, r, c);
    }
    assert forall x | x in pending :: x in pending + [r];
  }

  lemma SkippedSeen(heap: Heap, root: Ref, pending: seq<Ref>, seen: set<Ref>, r: Ref)
    requires Progress(heap, root, pending + [r], seen) && r in seen
    ensures Progress(heap, root, pending, seen)
  {
    hide Reachable;
    assert forall x :: x in pending + [r] <==> x in pending || x == r;
  }

  lemma Done(heap: Heap, root: Ref, seen: set<Ref>)
    requires Progress(heap, root, [], seen)
    ensures forall r :: r in seen <==> Reachable(heap, root, r)
  {
    forall r | Reachable(heap, root, r)
      ensures r in seen
    {
      var n: nat :| Reaches(heap, root, r, n);
      ReachedIsSeen(heap, root, r, n, seen);
    }
  }

  /** `deepFreeze` ends on every graph, and has then frozen exactly the objects reachable from the value. */
  method Freeze(heap: Heap, value: Value) returns (frozen: set<Ref>)
    requires Closed(heap) && (value.Object? ==> value.ref in heap)
    ensures forall r :: r in frozen <==> value.Object? && Reachable(heap, value.ref, r)
  {
    hide Reachable, Children;
    frozen := {};
    if !value.Object? {
      return;
    }
    var pending := [value.ref];
    var seen: set<Ref> := {};
    Itself(heap, value.ref);
    while pending != []
      invariant Progress(heap, value.ref, pending, seen) && frozen == seen
      decreases heap.Keys - seen, |pending|
    {
      var current := pending[|pending| - 1];
      assert pending == pending[..|pending| - 1] + [current];
      pending := pending[..|pending| - 1];
      if current in seen {
        SkippedSeen(heap, value.ref, pending, seen, current);
      } else {
        assert current in heap.Keys - seen;
        Visited(heap, value.ref, pending, seen, current);
        seen := seen + {current};
        pending := pending + Children(heap[current].entries);
        frozen := frozen + {current};
      }
    }
    Done(heap, value.ref, seen);
  }

  lemma Itself(heap: Heap, r: Ref)
    ensures Reachable(heap, r, r)
  {
    assert Reaches(heap, r, r, 0);
  }
}
