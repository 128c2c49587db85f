/**
  The relationship checks on AST nodes: the pass that links children to parents, and the depth-first
  walk with an explicit stack, which terminates on every graph of known nodes.
*/
module AstWalk {
  import opened Text
  import opened IrTypes
  import opened AstForest

  // ---------- the linking pass ----------

  predicate ChildRule(nodes: Nodes, n: Id, i: nat)
    requires n in nodes && i < |nodes[n].childIds|
  {
    var c := nodes[n].childIds[i];
    && c in nodes
    && nodes[c].sourceId == nodes[n].sourceId
    && RangeContains(nodes[n].range, nodes[c].range)
  }

  predicate SiblingRule(nodes: Nodes, n: Id, i: nat, j: nat)
    requires n in nodes && i < j < |nodes[n].childIds|
  {
    var a, b := nodes[n].childIds[i], nodes[n].childIds[j];
    a in nodes && b in nodes ==> nodes[a].range.end.utf16Offset <= nodes[b].range.start.utf16Offset
  }

  /** Everything that is checked about one node's child list by itself. */
  ghost predicate ListRules(nodes: Nodes, n: Id)
    requires n in nodes
  {
    && (forall i | 0 <= i < |nodes[n].childIds| :: ChildRule(nodes, n, i))
    && (forall i, j | 0 <= i < j < |nodes[n].childIds| && j == i + 1 :: SiblingRule(nodes, n, i, j))
  }

  /** What the linking pass checks: every list by itself, and that no two nodes list the same child. */
  ghost predicate LinkRules(nodes: Nodes) {
    && (forall n | n in nodes :: ListRules(nodes, n))
    && (forall p, q, c | ListsChild(nodes, p, c) && ListsChild(nodes, q, c) :: p == q)
  }

  ghost predicate IsParentMap(parents: map<Id, Id>, nodes: Nodes) {
    && (forall c | c in parents :: ListsChild(nodes, parents[c], c))
    && (forall p, c | ListsChild(nodes, p, c) :: c in parents)
  }

  /** The state of the pass after the lists of the first `k` keys and `m` children of the next one. */
  ghost predicate Linked(parents: map<Id, Id>, ok: bool, table: Table<Node>, k: nat, m: nat)
    requires k <= |table.keys|
  {
    && (forall c | c in parents :: Seen(table, k, m, parents[c], c))
    && (ok ==> forall p, c | Seen(table, k, m, p, c) :: c in parents && parents[c] == p)
  }

  /** `p` lists `c` among the child references that were already visited. */
  ghost predicate Seen(table: Table<Node>, k: nat, m: nat, p: Id, c: Id)
    requires k <= |table.keys|
  {
    && p in table.items
    && (|| (exists i :: 0 <= i < k && table.keys[i] == p && c in table.items[p].childIds)
        || (k < |table.keys| && table.keys[k] == p
            && m <= |table.items[p].childIds| && c in table.items[p].childIds[..m]))
  }

  lemma LinkedAll(parents: map<Id, Id>, ok: bool, table: Table<Node>)
    requires table.Valid() && Linked(parents, ok, table, |table.keys|, 0)
    ensures forall c | c in parents :: ListsChild(table.items, parents[c], c)
    ensures ok ==> forall p, c | ListsChild(table.items, p, c) :: c in parents && parents[c] == p
  {
    forall p, c | ListsChild(table.items, p, c)
      ensures Seen(table, |table.keys|, 0, p, c)
    {
      assert p in table.keys;
    }
  }

  // ---------- cycles and finish orders ----------

  /** A closed walk along child references. */
  ghost predicate IsCycle(nodes: Nodes, path: seq<Id>) {
    && |path| >= 2 && path[0] == path[|path| - 1]
    && forall i, j | 0 <= i < j < |path| && j == i + 1 :: ListsChild(nodes, path[i], path[j])
  }

  /** A finish order: all known children of a node come before it, and nothing comes twice. */
  ghost predicate IsFinishOrder(nodes: Nodes, order: seq<Id>) {
    && DuplicateFree(order)
    && forall i, c | 0 <= i < |order| && ListsChild(nodes, order[i], c) && c in nodes :: c in order[..i]
  }

  /** `s` is closed under known children. */
  ghost predicate Closed(nodes: Nodes, s: set<Id>) {
    forall n, c | n in s && ListsChild(nodes, n, c) && c in nodes :: c in s
  }

  // ---------- the walk ----------

  datatype Frame = Frame(entered: bool, id: Id, nextChild: nat)

  function Weight(nodes: Nodes, f: Frame): nat {
    if !f.entered then 2
    else if f.id in nodes && f.nextChild <= |nodes[f.id].childIds| then 1 + 3 * (|nodes[f.id].childIds| - f.nextChild)
    else 1
  }

  function StackWeight(nodes: Nodes, stack: seq<Frame>): nat {
    if stack == [] then 0
    else StackWeight(nodes, stack[..|stack| - 1]) + Weight(nodes, stack[|stack| - 1])
  }

  lemma StackWeightPush(nodes: Nodes, stack: seq<Frame>, f: Frame)
    ensures StackWeight(nodes, stack + [f]) == StackWeight(nodes, stack) + Weight(nodes, f)
  {
    assert (stack + [f])[..|stack|] == stack;
  }

  // ---------- the stack, seen from the top ----------

  function Init(stack: seq<Frame>): seq<Frame>
    requires stack != []
  {
    stack[..|stack| - 1]
  }

  function Top(stack: seq<Frame>): Frame
    requires stack != []
  {
    stack[|stack| - 1]
  }

  lemma PushTop(below: seq<Frame>, f: Frame)
    ensures Init(below + [f]) == below && Top(below + [f]) == f
  {
  }

  ghost function FrameIds(stack: seq<Frame>): set<Id> {
    if stack == [] then {} else FrameIds(Init(stack)) + {Top(stack).id}
  }

  /** The known children before position `k` are all visited. */
  ghost predicate VisitedUpTo(nodes: Nodes, n: Id, k: nat, visited: set<Id>)
    requires n in nodes && k <= |nodes[n].childIds|
  {
    forall i | 0 <= i < k :: nodes[n].childIds[i] in nodes ==> nodes[n].childIds[i] in visited
  }

  ghost predicate FrameOk(nodes: Nodes, f: Frame) {
    f.id in nodes && f.nextChild <= |nodes[f.id].childIds|
  }

  /**
    The frames are entered, stand for different nodes, and lead down to `next`: each has gone past
    visited children only (while `good`), but for the child that stands right above it.
   */
  ghost predicate LeadsTo(nodes: Nodes, stack: seq<Frame>, next: Id, visited: set<Id>, good: bool) {
    stack == [] ||
    var f := Top(stack);
    && f.entered && FrameOk(nodes, f) && f.nextChild > 0
    && nodes[f.id].childIds[f.nextChild - 1] == next
    && (good ==> VisitedUpTo(nodes, f.id, f.nextChild - 1, visited))
    && f.id !in FrameIds(Init(stack)) && f.id !in visited
    && LeadsTo(nodes, Init(stack), f.id, visited, good)
  }

  lemma {:induction false} LeadsToMore(nodes: Nodes, stack: seq<Frame>, next: Id, visited: set<Id>, n: Id, good: bool)
    requires LeadsTo(nodes, stack, next, visited, good) && n !in FrameIds(stack)
    ensures LeadsTo(nodes, stack, next, visited + {n}, good)
  {
    if stack != [] {
      LeadsToMore(nodes, Init(stack), Top(stack).id, visited, n, good);
    }
  }

  lemma {:induction false} LeadsToBad(nodes: Nodes, stack: seq<Frame>, next: Id, visited: set<Id>, good: bool)
    requires LeadsTo(nodes, stack, next, visited, good)
    ensures LeadsTo(nodes, stack, next, visited, false)
  {
    if stack != [] {
      LeadsToBad(nodes, Init(stack), Top(stack).id, visited, good);
    }
  }

  /** A path from a node on the stack down to `next`. */
  lemma {:induction false} PathDown(nodes: Nodes, stack: seq<Frame>, next: Id, visited: set<Id>, good: bool, from: Id)
    returns (path: seq<Id>)
    requires LeadsTo(nodes, stack, next, visited, good) && from in FrameIds(stack)
    ensures |path| >= 2 && path[0] == from && path[|path| - 1] == next
    ensures forall i, j | 0 <= i < j < |path| && j == i + 1 :: ListsChild(nodes, path[i], path[j])
    decreases |stack|
  {
    var f := Top(stack);
    if f.id == from {
      path := [from, next];
    } else {
      var upper := PathDown(nodes, Init(stack), f.id, visited, good, from);
      path := upper + [next];
      assert upper[|upper| - 1] == f.id;
    }
  }

  /** What holds of a frame on top: an entered one has gone past visited children only. */
  ghost predicate TopOk(nodes: Nodes, f: Frame, below: seq<Frame>, visited: set<Id>, good: bool) {
    && FrameOk(nodes, f)
    && (if f.entered then
          && f.id !in FrameIds(below) && f.id !in visited
          && (good ==> VisitedUpTo(nodes, f.id, f.nextChild, visited))
        else f.nextChild == 0)
  }

  ghost function EnteredIds(stack: seq<Frame>): set<Id> {
    if stack == [] then {}
    else if Top(stack).entered then FrameIds(stack)
    else FrameIds(Init(stack))
  }

  /** Where a walk starts, and what earlier walks have visited. */
  datatype Start = Start(rootId: Id, visited: set<Id>)

  /** What holds before every turn; `good` while no cycle has been reported. */
  ghost predicate Invariant(w: Start, nodes: Nodes, stack: seq<Frame>, visiting: set<Id>, visited: set<Id>,
                            order: seq<Id>, good: bool) {
    && w.visited <= visited <= nodes.Keys
    && (w.rootId in visited || w.rootId in FrameIds(stack))
    && (forall t | Closed(nodes, t) && w.rootId in t :: visited <= w.visited + t && FrameIds(stack) <= t)
    && (stack != [] ==>
          && TopOk(nodes, Top(stack), Init(stack), visited, good)
          && LeadsTo(nodes, Init(stack), Top(stack).id, visited, good))
    && visiting == EnteredIds(stack)
    && (good ==> IsFinishOrder(nodes, order) && forall n :: n in order <==> n in visited)
  }

  /** A frame whose node is already visited is dropped; so is one that closes a reported cycle. */
  lemma Drop(w: Start, nodes: Nodes, stack: seq<Frame>, visiting: set<Id>, visited: set<Id>, order: seq<Id>,
             good: bool, good': bool)
    requires stack != [] && Invariant(w, nodes, stack, visiting, visited, order, good) && !Top(stack).entered
    requires Top(stack).id in visited || (!good' && Top(stack).id in visiting)
    requires good' ==> good
    ensures Invariant(w, nodes, Init(stack), visiting, visited, order, good')
  {
    var below := Init(stack);
    assert FrameIds(below) <= FrameIds(stack);
    if below != [] && !good' {
      LeadsToBad(nodes, Init(below), Top(below).id, visited, good);
    }
  }

  lemma Enter(w: Start, nodes: Nodes, below: seq<Frame>, f: Frame, visiting: set<Id>, visited: set<Id>, order: seq<Id>,
              good: bool)
    requires Invariant(w, nodes, below + [f], visiting, visited, order, good)
    requires !f.entered && f.id !in visited && f.id !in visiting
    ensures Invariant(w, nodes, below + [f.(entered := true)], visiting + {f.id}, visited, order, good)
  {
    PushTop(below, f);
    PushTop(below, f.(entered := true));
  }

  /** A child reference to an unknown node is passed over. */
  lemma PassOver(w: Start, nodes: Nodes, below: seq<Frame>, f: Frame, visiting: set<Id>, visited: set<Id>,
                 order: seq<Id>, good: bool)
    requires Invariant(w, nodes, below + [f], visiting, visited, order, good) && f.entered && FrameOk(nodes, f)
    requires f.nextChild < |nodes[f.id].childIds| && nodes[f.id].childIds[f.nextChild] !in nodes
    ensures Invariant(w, nodes, below + [f.(nextChild := f.nextChild + 1)], visiting, visited, order, good)
  {
    PushTop(below, f);
    PushTop(below, f.(nextChild := f.nextChild + 1));
  }

  /** A child reference to a known node is pushed, to be entered next. */
  lemma Push(w: Start, nodes: Nodes, below: seq<Frame>, f: Frame, visiting: set<Id>, visited: set<Id>, order: seq<Id>,
             good: bool)
    requires Invariant(w, nodes, below + [f], visiting, visited, order, good) && f.entered && FrameOk(nodes, f)
    requires f.nextChild < |nodes[f.id].childIds| && nodes[f.id].childIds[f.nextChild] in nodes
    ensures var g, c := f.(nextChild := f.nextChild + 1), Frame(false, nodes[f.id].childIds[f.nextChild], 0);
            Invariant(w, nodes, below + [g] + [c], visiting, visited, order, good)
  {
    var g, c := f.(nextChild := f.nextChild + 1), Frame(false, nodes[f.id].childIds[f.nextChild], 0);
    PushTop(below, f);
    PushTop(below, g);
    PushTop(below + [g], c);
    assert ListsChild(nodes, f.id, c.id);
  }

  /** A node whose children are all behind it is visited. */
  lemma Finish(w: Start, nodes: Nodes, below: seq<Frame>, f: Frame, visiting: set<Id>, visited: set<Id>,
               order: seq<Id>, good: bool)
    requires Invariant(w, nodes, below + [f], visiting, visited, order, good) && f.entered && FrameOk(nodes, f)
    requires f.nextChild == |nodes[f.id].childIds|
    ensures f.id in visiting && f.id !in visited
    ensures Invariant(w, nodes, below, visiting - {f.id}, visited + {f.id}, order + [f.id], good)
  {
    PushTop(below, f);
    if below != [] {
      LeadsToMore(nodes, below, f.id, visited, f.id, good);
    }
    if good {
      FinishOrder(nodes, f, visited, order);
    }
  }

  lemma FinishOrder(nodes: Nodes, f: Frame, visited: set<Id>, order: seq<Id>)
    requires IsFinishOrder(nodes, order) && (forall n :: n in order <==> n in visited)
    requires f.id in nodes && f.id !in visited
    requires forall k | 0 <= k < |nodes[f.id].childIds| :: var c := nodes[f.id].childIds[k]; c in nodes ==> c in visited
    ensures IsFinishOrder(nodes, order + [f.id]) && forall n :: n in order + [f.id] <==> n in visited + {f.id}
  {
    var after := order + [f.id];
    forall i, c | 0 <= i < |after| && ListsChild(nodes, after[i], c) && c in nodes
      ensures c in after[..i]
    {
      if i < |order| {
        assert after[..i] == order[..i];
      } else {
        assert after[..i] == order;
      }
    }
  }

  lemma CycleFound(w: Start, nodes: Nodes, stack: seq<Frame>, visiting: set<Id>, visited: set<Id>, order: seq<Id>,
                   good: bool)
    returns (path: seq<Id>)
    requires stack != [] && Invariant(w, nodes, stack, visiting, visited, order, good)
    requires !Top(stack).entered && Top(stack).id in visiting
    ensures IsCycle(nodes, path)
  {
    path := PathDown(nodes, Init(stack), Top(stack).id, visited, good, Top(stack).id);
  }

  lemma TopKnown(w: Start, nodes: Nodes, stack: seq<Frame>, visiting: set<Id>, visited: set<Id>, order: seq<Id>,
                 good: bool)
    requires stack != [] && Invariant(w, nodes, stack, visiting, visited, order, good)
    ensures FrameOk(nodes, Top(stack)) && (!Top(stack).entered ==> Top(stack).nextChild == 0)
    ensures visited <= nodes.Keys
  {
  }

  /** A walk begins with the unentered frame of its root. */
  lemma Begin(w: Start, nodes: Nodes, order: seq<Id>, good: bool)
    requires w.rootId in nodes && w.visited <= nodes.Keys
    requires good ==> IsFinishOrder(nodes, order) && forall n :: n in order <==> n in w.visited
    ensures Invariant(w, nodes, [Frame(false, w.rootId, 0)], {}, w.visited, order, good)
  {
    PushTop([], Frame(false, w.rootId, 0));
  }

  /** What a finished walk leaves behind. */
  lemma End(w: Start, nodes: Nodes, visiting: set<Id>, visited: set<Id>, order: seq<Id>, good: bool)
    requires Invariant(w, nodes, [], visiting, visited, order, good)
    ensures w.visited <= visited <= nodes.Keys && w.rootId in visited
    ensures good ==> IsFinishOrder(nodes, order) && forall n :: n in order <==> n in visited
    ensures forall t | Closed(nodes, t) && w.rootId in t :: visited <= w.visited + t
  {
  }

  /** The walk enters fewer and fewer nodes, and between two entries works off the references on the stack. */
  lemma Shrinks(nodes: Nodes, visiting: set<Id>, visited: set<Id>, n: Id)
    requires n in nodes && n !in visiting && n !in visited
    ensures |nodes.Keys - visited - (visiting + {n})| < |nodes.Keys - visited - visiting|
  {
    var s := nodes.Keys - visited - visiting;
    assert nodes.Keys - visited - (visiting + {n}) == s - {n};
  }

  lemma WeightDrop(nodes: Nodes, below: seq<Frame>, f: Frame)
    ensures StackWeight(nodes, below) < StackWeight(nodes, below + [f])
  {
    StackWeightPush(nodes, below, f);
  }

  /** Going past a child reference and pushing its frame both lighten the stack. */
  lemma WeightAdvance(nodes: Nodes, below: seq<Frame>, f: Frame, next: Frame, child: Frame)
    requires f.entered && FrameOk(nodes, f) && f.nextChild < |nodes[f.id].childIds|
    requires next == f.(nextChild := f.nextChild + 1) && !child.entered
    ensures StackWeight(nodes, below + [next]) < StackWeight(nodes, below + [f])
    ensures StackWeight(nodes, below + [next] + [child]) < StackWeight(nodes, below + [f])
  {
    StackWeightPush(nodes, below, f);
    StackWeightPush(nodes, below, next);
    StackWeightPush(nodes, below + [next], child);
  }

  method Walk(nodes: Nodes, rootId: Id, visited0: set<Id>, ghost clean: bool, ghost order0: seq<Id>)
    returns (visited: set<Id>, cyclic: bool, ghost order: seq<Id>)
    requires rootId in nodes && visited0 <= nodes.Keys
    requires clean ==> IsFinishOrder(nodes, order0) && forall n :: n in order0 <==> n in visited0
    ensures visited0 <= visited <= nodes.Keys && rootId in visited
    ensures cyclic ==> exists path :: IsCycle(nodes, path)
    ensures clean && !cyclic ==> IsFinishOrder(nodes, order) && forall n :: n in order <==> n in visited
    ensures forall t | Closed(nodes, t) && rootId in t :: visited <= visited0 + t
  {
    hide StackWeight, Invariant, IsFinishOrder, Weight;
    ghost var w := Start(rootId, visited0);
    var visiting: set<Id> := {};
    var stack := [Frame(false, rootId, 0)];
    visited, cyclic, order := visited0, false, order0;
    Begin(w, nodes, order0, clean);
    while stack != []
      invariant Invariant(w, nodes, stack, visiting, visited, order, clean && !cyclic)
      invariant cyclic ==> exists path :: IsCycle(nodes, path)
      decreases |nodes.Keys - visited - visiting|, StackWeight(nodes, stack)
    {
      ghost var good := clean && !cyclic;
      var frame, below := Top(stack), Init(stack);
      assert stack == below + [frame];
      TopKnown(w, nodes, stack, visiting, visited, order, good);
      WeightDrop(nodes, below, frame);
      if !frame.entered {
        if frame.id in visited {
          Drop(w, nodes, stack, visiting, visited, order, good, good);
          stack := below;
          continue;
        }
        if frame.id in visiting {
          ghost var path := CycleFound(w, nodes, stack, visiting, visited, order, good);
          Drop(w, nodes, stack, visiting, visited, order, good, false);
          cyclic := true;
          stack := below;
          continue;
        }
        Enter(w, nodes, below, frame, visiting, visited, order, good);
        Shrinks(nodes, visiting, visited, frame.id);
        frame := frame.(entered := true);
        visiting := visiting + {frame.id};
        stack := below + [frame];
      }
      ghost var limit := StackWeight(nodes, below + [frame]);
      var children := nodes[frame.id].childIds;
      if frame.nextChild < |children| {
        var childId := children[frame.nextChild];
        var next := frame.(nextChild := frame.nextChild + 1);
        WeightAdvance(nodes, below, frame, next, Frame(false, childId, 0));
        if childId in nodes {
          Push(w, nodes, below, frame, visiting, visited, order, good);
          stack := below + [next] + [Frame(false, childId, 0)];
        } else {
          PassOver(w, nodes, below, frame, visiting, visited, order, good);
          stack := below + [next];
        }
        continue;
      }
      Finish(w, nodes, below, frame, visiting, visited, order, good);
      WeightDrop(nodes, below, frame);
      assert nodes.Keys - (visited + {frame.id}) - (visiting - {frame.id}) == nodes.Keys - visited - visiting;
      visiting := visiting - {frame.id};
      visited := visited + {frame.id};
      order := order + [frame.id];
      stack := below;
    }
    End(w, nodes, visiting, visited, order, clean && !cyclic);
  }

  /** The child references visited so far keep the rules. */
  ghost predicate RulesUpTo(table: Table<Node>, k: nat, m: nat)
    requires table.Valid() && k <= |table.keys|
  {
    && (forall i | 0 <= i < k :: ListRules(table.items, table.keys[i]))
    && (k < |table.keys| ==>
          var n := table.keys[k];
          && m <= |table.items[n].childIds|
          && (forall i | 0 <= i < m :: ChildRule(table.items, n, i))
          && (forall i, j | 0 <= i < j < m && j == i + 1 :: SiblingRule(table.items, n, i, j)))
  }

  /** The parent map after the references visited so far: nothing but parents, and all of them while `ok`. */
  lemma LinkStep(table: Table<Node>, parents: map<Id, Id>, ok: bool, k: nat, m: nat, parents': map<Id, Id>, ok': bool)
    requires table.Valid() && k < |table.keys| && m < |table.items[table.keys[k]].childIds|
    requires Linked(parents, ok, table, k, m) && (ok' ==> ok)
    requires var n := table.keys[k]; var c := table.items[n].childIds[m];
      || (!ok' && parents' == parents)
      || ((c in parents ==> parents[c] == n) && parents' == parents[c := n])
    ensures Linked(parents', ok', table, k, m + 1)
  {
    hide Seen;
    var e := m + 1;
    forall c | c in parents'
      ensures Seen(table, k, e, parents'[c], c)
    {
      SeenStep(table, k, m, parents'[c], c);
    }
    if ok' {
      forall p, c | Seen(table, k, e, p, c)
        ensures c in parents' && parents'[c] == p
      {
        SeenStep(table, k, m, p, c);
      }
    }
  }

  lemma SeenStep(table: Table<Node>, k: nat, m: nat, p: Id, c: Id)
    requires table.Valid() && k < |table.keys| && m < |table.items[table.keys[k]].childIds|
    ensures Seen(table, k, m + 1, p, c) <==>
            Seen(table, k, m, p, c) || (p == table.keys[k] && c == table.items[table.keys[k]].childIds[m])
  {
    var n := table.keys[k];
    assert n in table.keys;
    var ids := table.items[n].childIds;
    assert ids[..m + 1] == ids[..m] + [ids[m]];
  }

  lemma LinkNext(table: Table<Node>, parents: map<Id, Id>, ok: bool, k: nat)
    requires table.Valid() && k < |table.keys|
    requires Linked(parents, ok, table, k, |table.items[table.keys[k]].childIds|)
    ensures Linked(parents, ok, table, k + 1, 0)
  {
    var m, next := |table.items[table.keys[k]].childIds|, k + 1;
    forall p, c
      ensures Seen(table, next, 0, p, c) <==> Seen(table, k, m, p, c)
    {
      SeenNext(table, k, m, p, c);
    }
  }

  lemma SeenNext(table: Table<Node>, k: nat, m: nat, p: Id, c: Id)
    requires table.Valid() && k < |table.keys| && m == |table.items[table.keys[k]].childIds|
    ensures Seen(table, k + 1, 0, p, c) <==> Seen(table, k, m, p, c)
  {
    var ids := table.items[table.keys[k]].childIds;
    assert ids[..m] == ids;
    if p in table.items {
      assert table.items[p].childIds[..0] == [];
    }
    if Seen(table, k, m, p, c) && !(exists i :: 0 <= i < k && table.keys[i] == p && c in table.items[p].childIds) {
      assert table.keys[k] == p && c in table.items[p].childIds;
    }
  }

  /** A child that another node already lists breaks the rules. */
  lemma Conflict(table: Table<Node>, parents: map<Id, Id>, ok: bool, k: nat, m: nat)
    requires table.Valid() && k < |table.keys| && m < |table.items[table.keys[k]].childIds|
    requires Linked(parents, ok, table, k, m)
    requires var n := table.keys[k]; var c := table.items[n].childIds[m]; c in parents && parents[c] != n
    ensures !LinkRules(table.items)
  {
    var n := table.keys[k];
    var c := table.items[n].childIds[m];
    assert Seen(table, k, m, parents[c], c);
    assert ListsChild(table.items, parents[c], c) && ListsChild(table.items, n, c);
  }

  lemma LinkDone(table: Table<Node>, parents: map<Id, Id>)
    requires table.Valid() && Linked(parents, true, table, |table.keys|, 0) && RulesUpTo(table, |table.keys|, 0)
    ensures LinkRules(table.items) && IsParentMap(parents, table.items)
  {
    LinkedAll(parents, true, table);
    forall n | n in table.items
      ensures ListRules(table.items, n)
    {
      assert n in table.keys;
    }
  }

  /**
    The pass over all child lists. No issue is recorded exactly when the rules hold, and then the map
    gives every listed child its one parent.
   */
  method LinkChildren(table: Table<Node>) returns (ok: bool, parents: map<Id, Id>)
    requires table.Valid() && forall k | k in table.items :: table.items[k].id == k
    ensures ok <==> LinkRules(table.items)
    ensures ok ==> IsParentMap(parents, table.items)
  {
    hide Linked, LinkRules;
    var nodes := table.items;
    ok, parents := true, map[];
    assert Linked(parents, ok, table, 0, 0) by { LinkStart(table); }
    for k := 0 to |table.keys|
      invariant !ok ==> !LinkRules(nodes)
      invariant ok ==> RulesUpTo(table, k, 0)
      invariant Linked(parents, ok, table, k, 0)
    {
      assert table.keys[k] in nodes;
      var node := nodes[table.keys[k]];
      var previous: Option<Node> := None;
      for m := 0 to |node.childIds|
        invariant !ok ==> !LinkRules(nodes)
        invariant ok ==> RulesUpTo(table, k, m)
        invariant ok ==> if m == 0 then previous == None
                         else node.childIds[m - 1] in nodes && previous == Some(nodes[node.childIds[m - 1]])
        invariant Linked(parents, ok, table, k, m)
      {
        var childId := node.childIds[m];
        ghost var wasOk := ok;
        if childId !in nodes {
          Broken(table, k, m, m);
          LinkStep(table, parents, ok, k, m, parents, false);
          ok := false;
          continue;
        }
        var child := nodes[childId];
        if child.sourceId != node.sourceId {
          Broken(table, k, m, m);
          ok := false;
        }
        if !RangeContains(node.range, child.range) {
          Broken(table, k, m, m);
          ok := false;
        }
        if previous.Some? && previous.value.range.end.utf16Offset > child.range.start.utf16Offset {
          if ok {
            Broken(table, k, m - 1, m);
          }
          ok := false;
        }
        if childId in parents && parents[childId] != node.id {
          Conflict(table, parents, wasOk, k, m);
          LinkStep(table, parents, wasOk, k, m, parents, false);
          ok := false;
        } else {
          LinkStep(table, parents, wasOk, k, m, parents[childId := node.id], ok);
          parents := parents[childId := node.id];
        }
        previous := Some(child);
      }
      LinkNext(table, parents, ok, k);
    }
    if ok {
      LinkDone(table, parents);
    }
  }

  /** A violated rule, of one child or of two neighbours, breaks the rules. */
  lemma Broken(table: Table<Node>, k: nat, i: nat, m: nat)
    requires table.Valid() && k < |table.keys| && m < |table.items[table.keys[k]].childIds|
    requires (i == m && !ChildRule(table.items, table.keys[k], m)) ||
             (i + 1 == m && !SiblingRule(table.items, table.keys[k], i, m))
    ensures !LinkRules(table.items)
  {
    assert table.keys[k] in table.items;
    assert !ListRules(table.items, table.keys[k]);
  }

  lemma LinkStart(table: Table<Node>)
    ensures Linked(map[], true, table, 0, 0)
  {
  }
}
