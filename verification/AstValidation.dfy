/** The relationship checks accept exactly the IRs whose nodes form one ordered tree for each source. */
module AstValidation {
  import opened IrTypes
  import opened AstForest
  import opened AstWalk

  // ---------- from a finish order to trees ----------

  ghost predicate Complete(nodes: Nodes, order: seq<Id>) {
    && IsFinishOrder(nodes, order) && (forall n :: n in order <==> n in nodes) && LinkRules(nodes)
    && (forall n | n in nodes :: DuplicateFree(nodes[n].childIds))
  }

  ghost function IndexIn(order: seq<Id>, n: Id): (i: nat)
    requires n in order
    ensures i < |order| && order[i] == n
  {
    var i :| 0 <= i < |order| && order[i] == n;
    i
  }

  lemma ChildEarlier(nodes: Nodes, order: seq<Id>, i: nat, k: nat)
    requires Complete(nodes, order) && i < |order| && order[i] in nodes && k < |nodes[order[i]].childIds|
    ensures nodes[order[i]].childIds[k] in order && IndexIn(order, nodes[order[i]].childIds[k]) < i
  {
    var c := nodes[order[i]].childIds[k];
    assert ChildRule(nodes, order[i], k);
    assert ListsChild(nodes, order[i], c);
    assert c in order[..i];
    var j :| 0 <= j < i && order[j] == c;
    var m := IndexIn(order, c);
    assert order[m] == order[j];
  }

  ghost function Build(nodes: Nodes, order: seq<Id>, i: nat): (t: Tree)
    requires Complete(nodes, order) && i < |order|
    ensures t.id == order[i] && t.id in nodes && |t.children| == |nodes[t.id].childIds|
    decreases i
  {
    assert order[i] in order;
    var cs := nodes[order[i]].childIds;
    Tree(order[i], seq(|cs|, k requires 0 <= k < |cs| =>
      ChildEarlier(nodes, order, i, k); Build(nodes, order, IndexIn(order, cs[k]))))
  }

  /** The tree built for a child reference. */
  lemma BuildChild(nodes: Nodes, order: seq<Id>, i: nat, k: nat) returns (j: nat)
    requires Complete(nodes, order) && i < |order| && k < |Build(nodes, order, i).children|
    ensures j < i && Build(nodes, order, i).children[k] == Build(nodes, order, j)
    ensures order[j] == nodes[order[i]].childIds[k]
  {
    ChildEarlier(nodes, order, i, k);
    j := IndexIn(order, nodes[order[i]].childIds[k]);
  }

  lemma {:induction false} BuildMatches(nodes: Nodes, order: seq<Id>, i: nat)
    requires Complete(nodes, order) && i < |order|
    ensures Matches(Build(nodes, order, i), nodes) && Nested(Build(nodes, order, i), nodes)
    decreases i
  {
    var t := Build(nodes, order, i);
    forall k | 0 <= k < |t.children|
      ensures t.children[k].id == nodes[t.id].childIds[k]
      ensures Matches(t.children[k], nodes) && Nested(t.children[k], nodes)
      ensures RangeContains(nodes[t.id].range, nodes[t.children[k].id].range)
    {
      var j := BuildChild(nodes, order, i, k);
      BuildMatches(nodes, order, j);
      assert ChildRule(nodes, t.id, k);
    }
    forall a, b | 0 <= a < b < |t.children| && b == a + 1
      ensures nodes[t.children[a].id].range.end.utf16Offset <= nodes[t.children[b].id].range.start.utf16Offset
    {
      assert SiblingRule(nodes, t.id, a, b);
    }
  }

  /** The tree at position `i` of the order holds nodes of positions up to `i` only. */
  lemma {:induction false} BuildBounded(nodes: Nodes, order: seq<Id>, i: nat, n: Id)
    requires Complete(nodes, order) && i < |order| && n in Ids(Build(nodes, order, i))
    ensures n in order && IndexIn(order, n) <= i && (n != order[i] ==> IndexIn(order, n) < i)
    decreases i
  {
    var t := Build(nodes, order, i);
    if n != t.id {
      var k := InChild(t, n);
      var j := BuildChild(nodes, order, i, k);
      BuildBounded(nodes, order, j, n);
    } else {
      var m := IndexIn(order, n);
      assert order[m] == order[i];
    }
  }

  /** Every node of a built tree but its root is listed by a node of the same tree. */
  lemma {:induction false} BuildParent(nodes: Nodes, order: seq<Id>, i: nat, n: Id) returns (p: Id)
    requires Complete(nodes, order) && i < |order| && n in Ids(Build(nodes, order, i)) && n != order[i]
    ensures p in Ids(Build(nodes, order, i)) && ListsChild(nodes, p, n)
    decreases i
  {
    var t := Build(nodes, order, i);
    var k := InChild(t, n);
    var j := BuildChild(nodes, order, i, k);
    if n == order[j] {
      p := t.id;
      assert nodes[p].childIds[k] == n;
    } else {
      p := BuildParent(nodes, order, j, n);
      ChildIds(t, k);
    }
  }

  /** The trees of two different child references of one node share nothing. */
  lemma {:induction false} BuildDisjoint(nodes: Nodes, order: seq<Id>, i: nat, a: nat, b: nat, n: Id)
    requires Complete(nodes, order) && i < |order| && a < |order| && b < |order| && order[a] != order[b]
    requires ListsChild(nodes, order[i], order[a]) && ListsChild(nodes, order[i], order[b])
    requires n in Ids(Build(nodes, order, a))
    ensures n !in Ids(Build(nodes, order, b))
    decreases if n in order then |order| - IndexIn(order, n) else 0
  {
    if n in Ids(Build(nodes, order, b)) {
      BuildBounded(nodes, order, a, n);
      if n == order[a] {
        OnlyBelow(nodes, order, i, a, b);
      } else if n == order[b] {
        OnlyBelow(nodes, order, i, b, a);
      } else {
        var p := BuildParent(nodes, order, a, n);
        var q := BuildParent(nodes, order, b, n);
        assert p == q;
        ParentLater(nodes, order, p, n);
        BuildDisjoint(nodes, order, i, a, b, p);
      }
    }
  }

  lemma ParentLater(nodes: Nodes, order: seq<Id>, p: Id, n: Id)
    requires Complete(nodes, order) && ListsChild(nodes, p, n) && n in order
    ensures p in order && IndexIn(order, n) < IndexIn(order, p)
  {
    var k :| 0 <= k < |nodes[p].childIds| && nodes[p].childIds[k] == n;
    ChildEarlier(nodes, order, IndexIn(order, p), k);
  }

  /** A child of node `i` is not below another child of node `i`. */
  lemma OnlyBelow(nodes: Nodes, order: seq<Id>, i: nat, a: nat, b: nat)
    requires Complete(nodes, order) && i < |order| && a < |order| && b < |order| && order[a] != order[b]
    requires ListsChild(nodes, order[i], order[a]) && ListsChild(nodes, order[i], order[b])
    ensures order[a] !in Ids(Build(nodes, order, b))
  {
    if order[a] in Ids(Build(nodes, order, b)) {
      var p := BuildParent(nodes, order, b, order[a]);
      assert p == order[i];
      BuildBounded(nodes, order, b, p);
      ParentLater(nodes, order, order[i], order[b]);
      SameIndex(nodes, order, b);
      SameIndex(nodes, order, i);
    }
  }

  lemma SameIndex(nodes: Nodes, order: seq<Id>, i: nat)
    requires Complete(nodes, order) && i < |order|
    ensures IndexIn(order, order[i]) == i
  {
    var m := IndexIn(order, order[i]);
    assert order[m] == order[i];
  }

  lemma {:induction false} BuildDistinct(nodes: Nodes, order: seq<Id>, i: nat)
    requires Complete(nodes, order) && i < |order|
    ensures Distinct(Build(nodes, order, i))
    decreases i
  {
    var t := Build(nodes, order, i);
    forall k | 0 <= k < |t.children|
      ensures Distinct(t.children[k]) && t.id !in Ids(t.children[k])
    {
      var j := BuildChild(nodes, order, i, k);
      BuildDistinct(nodes, order, j);
      if t.id in Ids(t.children[k]) {
        BuildBounded(nodes, order, j, t.id);
        SameIndex(nodes, order, i);
      }
    }
    forall k, m | 0 <= k < m < |t.children|
      ensures Ids(t.children[k]) !! Ids(t.children[m])
    {
      var a := BuildChild(nodes, order, i, k);
      var b := BuildChild(nodes, order, i, m);
      assert nodes[t.id].childIds[k] != nodes[t.id].childIds[m];
      forall n | n in Ids(t.children[k])
        ensures n !in Ids(t.children[m])
      {
        BuildDisjoint(nodes, order, i, a, b, n);
      }
    }
  }

  lemma {:induction false} BuildSource(nodes: Nodes, order: seq<Id>, i: nat, n: Id)
    requires Complete(nodes, order) && i < |order| && n in Ids(Build(nodes, order, i))
    ensures n in nodes && order[i] in nodes && nodes[n].sourceId == nodes[order[i]].sourceId
    decreases i
  {
    var t := Build(nodes, order, i);
    if n != t.id {
      var k := InChild(t, n);
      var j := BuildChild(nodes, order, i, k);
      BuildSource(nodes, order, j, n);
      assert ChildRule(nodes, t.id, k);
    }
  }

  // ---------- roots ----------

  predicate IsRootOf(table: Table<Node>, sourceId: Id, n: Id) {
    n in table.items && table.items[n].kind == ROOT && table.items[n].sourceId == sourceId
  }

  /** The root-kind nodes of a source among the first `k` nodes. */
  function RootsOf(table: Table<Node>, sourceId: Id, k: nat): (r: seq<Id>)
    requires k <= |table.keys|
    ensures forall n :: n in r <==> n in table.keys[..k] && IsRootOf(table, sourceId, n)
    ensures |r| <= k
  {
    if k == 0 then []
    else
      assert table.keys[..k] == table.keys[..k - 1] + [table.keys[k - 1]];
      RootsOf(table, sourceId, k - 1) +
      if IsRootOf(table, sourceId, table.keys[k - 1]) then [table.keys[k - 1]] else []
  }

  lemma {:induction false} RootsDuplicateFree(table: Table<Node>, sourceId: Id, k: nat)
    requires table.Valid() && k <= |table.keys|
    ensures DuplicateFree(RootsOf(table, sourceId, k))
  {
    if k > 0 {
      RootsDuplicateFree(table, sourceId, k - 1);
      assert table.keys[k - 1] !in table.keys[..k - 1];
    }
  }

  /** What is checked about the root of one source. */
  ghost predicate RootRules(table: Table<Node>, s: Source) {
    && RootsOf(table, s.id, |table.keys|) == [s.rootNodeId]
    && s.rootNodeId in table.items
    && var root := table.items[s.rootNodeId];
       && root.kind == ROOT && root.sourceId == s.id
       && root.range.start.utf16Offset == 0 && root.range.end.utf16Offset == |s.text|
  }

  ghost predicate ValidTables(table: Table<Node>, sources: Table<Source>) {
    && table.Valid() && sources.Valid()
    && (forall n | n in table.items :: table.items[n].id == n && DuplicateFree(table.items[n].childIds))
    && (forall s | s in sources.items :: sources.items[s].id == s)
  }

  // ---------- an accepted IR has a forest ----------

  /** `t` holds the roots of the first `k` sources and is closed under children. */
  ghost predicate HoldsRoots(table: Table<Node>, sources: Table<Source>, k: nat, t: set<Id>)
    requires k <= |sources.keys|
  {
    && Closed(table.items, t)
    && (forall i | 0 <= i < k ::
          sources.keys[i] in sources.items && sources.items[sources.keys[i]].rootNodeId in t)
  }

  ghost function BuildForest(nodes: Nodes, order: seq<Id>, sources: Sources): (forest: map<Id, Tree>)
    requires Complete(nodes, order) && forall s | s in sources :: sources[s].rootNodeId in nodes
    ensures forest.Keys == sources.Keys
    ensures forall s | s in sources :: forest[s] == Build(nodes, order, IndexIn(order, sources[s].rootNodeId))
  {
    map s | s in sources :: Build(nodes, order, IndexIn(order, sources[s].rootNodeId))
  }

  /** Everything the method has checked when it accepts. */
  ghost predicate Checked(table: Table<Node>, sources: Table<Source>, order: seq<Id>) {
    && ValidTables(table, sources)
    && Complete(table.items, order)
    && (forall s | s in sources.items :: sources.items[s].rootNodeId in table.items)
    && RootsOk(table, sources)
    && Reached(table, sources)
  }

  ghost predicate RootsOk(table: Table<Node>, sources: Table<Source>) {
    forall s | s in sources.items :: RootRules(table, sources.items[s])
  }

  /** Every node is in every set that holds the roots and is closed under children. */
  ghost predicate Reached(table: Table<Node>, sources: Table<Source>) {
    forall t | HoldsRoots(table, sources, |sources.keys|, t) :: table.items.Keys <= t
  }

  lemma RootsOkAt(table: Table<Node>, sources: Table<Source>, s: Id)
    requires RootsOk(table, sources) && s in sources.items
    ensures RootRules(table, sources.items[s])
  {
  }

  ghost function AllIds(forest: map<Id, Tree>): set<Id> {
    set s, x | s in forest && x in Ids(forest[s]) :: x
  }

  lemma AllIdsClosed(forest: map<Id, Tree>, nodes: Nodes)
    requires forall s | s in forest :: Matches(forest[s], nodes)
    ensures Closed(nodes, AllIds(forest))
  {
    forall m, c | m in AllIds(forest) && ListsChild(nodes, m, c) && c in nodes
      ensures c in AllIds(forest)
    {
      var s :| s in forest && m in Ids(forest[s]);
      var k :| 0 <= k < |nodes[m].childIds| && nodes[m].childIds[k] == c;
      ClosedIds(forest[s], nodes, m, k);
    }
  }

  /** A forest of matching trees, each with its source's root. */
  ghost predicate Rooted(forest: map<Id, Tree>, nodes: Nodes, sources: Sources) {
    && forest.Keys == sources.Keys
    && (forall s | s in forest :: Matches(forest[s], nodes) && forest[s].id == sources[s].rootNodeId)
  }

  lemma BuiltRooted(table: Table<Node>, sources: Table<Source>, order: seq<Id>, forest: map<Id, Tree>)
    requires Checked(table, sources, order) && forest == BuildForest(table.items, order, sources.items)
    ensures Rooted(forest, table.items, sources.items)
  {
    hide Build, RootsOk, Reached;
    forall s | s in forest
      ensures Matches(forest[s], table.items) && forest[s].id == sources.items[s].rootNodeId
    {
      BuildMatches(table.items, order, IndexIn(order, sources.items[s].rootNodeId));
    }
  }

  lemma RootedHolds(table: Table<Node>, sources: Table<Source>, forest: map<Id, Tree>)
    requires ValidTables(table, sources) && Rooted(forest, table.items, sources.items)
    ensures HoldsRoots(table, sources, |sources.keys|, AllIds(forest))
  {
    hide Matches, Ids;
    AllIdsClosed(forest, table.items);
    forall i | 0 <= i < |sources.keys|
      ensures sources.keys[i] in sources.items && sources.items[sources.keys[i]].rootNodeId in AllIds(forest)
    {
      assert sources.keys[i] in sources.keys;
      OwnId(forest[sources.keys[i]]);
    }
  }

  /** Every node is in the tree of some source. */
  lemma Covered(table: Table<Node>, sources: Table<Source>, order: seq<Id>, forest: map<Id, Tree>, n: Id)
    returns (s: Id)
    requires Checked(table, sources, order) && Rooted(forest, table.items, sources.items) && n in table.items
    ensures s in forest && n in Ids(forest[s])
  {
    hide Complete, RootsOk, Ids, HoldsRoots, Matches, ValidTables, Rooted;
    RootedHolds(table, sources, forest);
    assert n in AllIds(forest);
    s :| s in forest && n in Ids(forest[s]);
  }

  lemma CheckedIsForest(table: Table<Node>, sources: Table<Source>, order: seq<Id>) returns (forest: map<Id, Tree>)
    requires Checked(table, sources, order)
    ensures IsForest(forest, table.items, sources.items)
  {
    hide Checked, IsSourceTree, SourcesKnown, Rooted;
    forest := BuiltForest(table, sources, order);
    forall s | s in sources.items
      ensures IsSourceTree(forest[s], sources.items[s], table.items)
    {
      CheckedTree(table, sources, order, forest, s);
    }
    BuiltSourcesKnown(table, sources, order, forest);
  }

  lemma BuiltForest(table: Table<Node>, sources: Table<Source>, order: seq<Id>) returns (forest: map<Id, Tree>)
    requires Checked(table, sources, order)
    ensures forest == BuildForest(table.items, order, sources.items) && forest.Keys == sources.items.Keys
    ensures Rooted(forest, table.items, sources.items)
  {
    hide Complete, RootsOk, Reached, ValidTables, Rooted;
    forest := BuildForest(table.items, order, sources.items);
    BuiltRooted(table, sources, order, forest);
  }

  lemma BuiltSourcesKnown(table: Table<Node>, sources: Table<Source>, order: seq<Id>, forest: map<Id, Tree>)
    requires Checked(table, sources, order) && forest == BuildForest(table.items, order, sources.items)
    requires Rooted(forest, table.items, sources.items)
    ensures SourcesKnown(table.items, sources.items)
  {
    hide Complete, RootsOk, Reached, ValidTables, Rooted, Ids;
    forall n | n in table.items
      ensures table.items[n].sourceId in sources.items
    {
      var s := Covered(table, sources, order, forest, n);
      BuiltSource(table, sources, order, forest, s, n);
    }
  }

  lemma BuiltSource(table: Table<Node>, sources: Table<Source>, order: seq<Id>, forest: map<Id, Tree>, s: Id, n: Id)
    requires Checked(table, sources, order) && forest == BuildForest(table.items, order, sources.items)
    requires s in forest && n in Ids(forest[s])
    ensures n in table.items && table.items[n].sourceId == s
  {
    hide Build, RootsOf, Complete, RootsOk, Reached, Ids;
    RootsOkAt(table, sources, s);
    BuildSource(table.items, order, IndexIn(order, sources.items[s].rootNodeId), n);
  }

  lemma CheckedTree(table: Table<Node>, sources: Table<Source>, order: seq<Id>, forest: map<Id, Tree>, s: Id)
    requires Checked(table, sources, order) && forest == BuildForest(table.items, order, sources.items)
    requires Rooted(forest, table.items, sources.items) && s in sources.items
    ensures IsSourceTree(forest[s], sources.items[s], table.items)
  {
    hide Build, RootsOf, Complete, RootsOk, Reached, Rooted, Ids, Matches, Nested, Distinct, RootRules;
    var nodes := table.items;
    var source := sources.items[s];
    RootsOkAt(table, sources, s);
    var i := IndexIn(order, source.rootNodeId);
    BuildMatches(nodes, order, i);
    BuildDistinct(nodes, order, i);
    forall n
      ensures n in Ids(forest[s]) <==> n in NodesOf(nodes, s)
    {
      if n in Ids(forest[s]) {
        BuiltSource(table, sources, order, forest, s, n);
      }
      if n in nodes && nodes[n].sourceId == s {
        var s' := Covered(table, sources, order, forest, n);
        BuiltSource(table, sources, order, forest, s', n);
      }
    }
    forall n | n in Ids(forest[s])
      ensures nodes[n].kind == ROOT <==> n == source.rootNodeId
    {
      assert table.keys[..|table.keys|] == table.keys;
      assert n in table.keys;
      assert n in RootsOf(table, s, |table.keys|) <==> IsRootOf(table, s, n);
    }
  }

  // ---------- an IR with a forest is accepted ----------

  ghost predicate HasForest(nodes: Nodes, sources: Sources) {
    exists forest :: IsForest(forest, nodes, sources)
  }

  /** In a matching, nested tree every node keeps the rules of its child list. */
  lemma {:induction false} TreeKeepsRules(t: Tree, nodes: Nodes, n: Id, sourceId: Id)
    requires Matches(t, nodes) && Nested(t, nodes) && n in Ids(t)
    requires forall x | x in Ids(t) :: x in nodes && nodes[x].sourceId == sourceId
    ensures n in nodes && ListRules(nodes, n)
  {
    if n == t.id {
      forall i | 0 <= i < |nodes[n].childIds|
        ensures ChildRule(nodes, n, i)
      {
        ChildIds(t, i);
        assert Matches(t.children[i], nodes);
      }
      forall i, j | 0 <= i < j < |nodes[n].childIds| && j == i + 1
        ensures SiblingRule(nodes, n, i, j)
      {
        assert Matches(t.children[i], nodes) && Matches(t.children[j], nodes);
      }
    } else {
      var i := InChild(t, n);
      ChildIds(t, i);
      TreeKeepsRules(t.children[i], nodes, n, sourceId);
    }
  }

  lemma KnownSource(nodes: Nodes, sources: Sources, n: Id)
    requires SourcesKnown(nodes, sources) && n in nodes
    ensures nodes[n].sourceId in sources
  {
  }

  /** The tree of a node's source. */
  lemma TreeOf(forest: map<Id, Tree>, nodes: Nodes, sources: Sources, n: Id) returns (t: Tree)
    requires IsForest(forest, nodes, sources) && n in nodes && forall s | s in sources :: sources[s].id == s
    ensures nodes[n].sourceId in forest && t == forest[nodes[n].sourceId]
    ensures Matches(t, nodes) && Distinct(t) && Nested(t, nodes) && n in Ids(t)
    ensures Ids(t) == NodesOf(nodes, nodes[n].sourceId)
  {
    hide Distinct, Matches, Nested, Ids, SourcesKnown;
    KnownSource(nodes, sources, n);
    var s := nodes[n].sourceId;
    t := forest[s];
    assert IsSourceTree(t, sources[s], nodes);
  }

  lemma ForestKeepsRules(forest: map<Id, Tree>, nodes: Nodes, sources: Sources, n: Id)
    requires IsForest(forest, nodes, sources) && n in nodes && forall s | s in sources :: sources[s].id == s
    ensures ListRules(nodes, n)
  {
    hide IsForest, Distinct, Matches, Nested, Ids, ListRules;
    var t := TreeOf(forest, nodes, sources, n);
    TreeKeepsRules(t, nodes, n, nodes[n].sourceId);
  }

  lemma ForestUniqueParent(forest: map<Id, Tree>, nodes: Nodes, sources: Sources, p: Id, q: Id, c: Id)
    requires IsForest(forest, nodes, sources) && forall s | s in sources :: sources[s].id == s
    requires ListsChild(nodes, p, c) && ListsChild(nodes, q, c) && ListRules(nodes, p) && ListRules(nodes, q)
    ensures p == q
  {
    hide IsForest, Distinct, Matches, Nested, Ids;
    var t := TreeOf(forest, nodes, sources, p);
    var i :| 0 <= i < |nodes[p].childIds| && nodes[p].childIds[i] == c;
    var j :| 0 <= j < |nodes[q].childIds| && nodes[q].childIds[j] == c;
    assert ChildRule(nodes, p, i) && ChildRule(nodes, q, j);
    UniqueParent(t, nodes, p, q, c);
  }

  lemma ForestLinks(forest: map<Id, Tree>, nodes: Nodes, sources: Sources)
    requires IsForest(forest, nodes, sources) && forall s | s in sources :: sources[s].id == s
    ensures LinkRules(nodes)
  {
    hide IsForest, ListRules;
    forall n | n in nodes
      ensures ListRules(nodes, n)
    {
      ForestKeepsRules(forest, nodes, sources, n);
    }
    forall p, q, c | ListsChild(nodes, p, c) && ListsChild(nodes, q, c)
      ensures p == q
    {
      ForestUniqueParent(forest, nodes, sources, p, q, c);
    }
  }

  lemma Single(r: seq<Id>, x: Id)
    requires DuplicateFree(r) && |r| > 0 && forall i | 0 <= i < |r| :: r[i] == x
    ensures r == [x]
  {
    assert r[0] == r[|r| - 1];
  }

  /** A source with one root-kind node has that node as its list of roots. */
  lemma OnlyRoot(table: Table<Node>, s: Id, x: Id)
    requires table.Valid() && forall n :: IsRootOf(table, s, n) <==> n == x
    ensures RootsOf(table, s, |table.keys|) == [x]
  {
    hide RootsOf;
    var r := RootsOf(table, s, |table.keys|);
    RootsDuplicateFree(table, s, |table.keys|);
    assert table.keys[..|table.keys|] == table.keys;
    assert IsRootOf(table, s, x);
    assert x in r;
    forall i | 0 <= i < |r|
      ensures r[i] == x
    {
      var n := r[i];
      assert n in r;
      assert IsRootOf(table, s, n);
    }
    Single(r, x);
  }

  lemma TreeRoot(t: Tree, source: Source, table: Table<Node>, n: Id)
    requires IsSourceTree(t, source, table.items)
    ensures IsRootOf(table, source.id, n) <==> n == t.id
  {
    hide SourcesKnown, Matches, Distinct, Nested, Ids;
    OwnId(t);
    assert n in Ids(t) <==> n in NodesOf(table.items, source.id);
  }

  lemma TreeRootRules(t: Tree, source: Source, table: Table<Node>)
    requires table.Valid() && IsSourceTree(t, source, table.items)
    ensures RootRules(table, source)
  {
    hide RootsOf, Matches, Distinct, Nested, Ids, IsRootOf;
    forall n
      ensures IsRootOf(table, source.id, n) <==> n == t.id
    {
      TreeRoot(t, source, table, n);
    }
    OnlyRoot(table, source.id, t.id);
    RootFacts(t, source, table);
  }

  lemma RootFacts(t: Tree, source: Source, table: Table<Node>)
    requires IsSourceTree(t, source, table.items)
    ensures t.id in table.items && table.items[t.id].kind == ROOT && table.items[t.id].sourceId == source.id
  {
    hide SourcesKnown, Matches, Distinct, Nested, Ids;
    OwnId(t);
  }

  lemma ForestRoots(forest: map<Id, Tree>, table: Table<Node>, sources: Table<Source>, s: Id)
    requires ValidTables(table, sources) && IsForest(forest, table.items, sources.items) && s in sources.items
    ensures RootRules(table, sources.items[s])
  {
    hide SourcesKnown, IsSourceTree, RootRules;
    TreeRootRules(forest[s], sources.items[s], table);
  }

  /** A closed walk cannot pass through a tree with distinct ids. */
  lemma {:induction false} NoCycle(t: Tree, nodes: Nodes, path: seq<Id>)
    requires Matches(t, nodes) && Distinct(t) && IsCycle(nodes, path) && path[0] in Ids(t)
    ensures false
  {
    if path[0] == t.id {
      var last := path[|path| - 2];
      StaysIn(t, nodes, path, |path| - 2);
      assert ListsChild(nodes, last, path[|path| - 1]);
      RootHasNoParent(t, nodes, last);
    } else {
      var i := InChild(t, path[0]);
      NoCycle(t.children[i], nodes, path);
    }
  }

  lemma {:induction false} StaysIn(t: Tree, nodes: Nodes, path: seq<Id>, k: nat)
    requires Matches(t, nodes) && IsCycle(nodes, path) && path[0] in Ids(t) && k < |path|
    ensures path[k] in Ids(t)
  {
    if k > 0 {
      StaysIn(t, nodes, path, k - 1);
      assert ListsChild(nodes, path[k - 1], path[k]);
      var i :| 0 <= i < |nodes[path[k - 1]].childIds| && nodes[path[k - 1]].childIds[i] == path[k];
      ClosedIds(t, nodes, path[k - 1], i);
    }
  }

  lemma ForestNoCycle(forest: map<Id, Tree>, nodes: Nodes, sources: Sources, path: seq<Id>)
    requires IsForest(forest, nodes, sources) && forall s | s in sources :: sources[s].id == s
    ensures !IsCycle(nodes, path)
  {
    hide IsForest, Distinct, Matches, Nested, Ids;
    if IsCycle(nodes, path) {
      assert ListsChild(nodes, path[0], path[1]);
      var t := TreeOf(forest, nodes, sources, path[0]);
      NoCycle(t, nodes, path);
    }
  }

  /** A closed set that holds the root holds the whole tree. */
  lemma {:induction false} TreeInClosed(t: Tree, nodes: Nodes, visited: set<Id>)
    requires Matches(t, nodes) && Closed(nodes, visited) && t.id in visited
    ensures Ids(t) <= visited
  {
    forall i | 0 <= i < |t.children|
      ensures Ids(t.children[i]) <= visited
    {
      assert Matches(t.children[i], nodes);
      assert ListsChild(nodes, t.id, nodes[t.id].childIds[i]);
      TreeInClosed(t.children[i], nodes, visited);
    }
  }

  lemma OrderClosed(nodes: Nodes, order: seq<Id>, visited: set<Id>)
    requires IsFinishOrder(nodes, order) && forall n :: n in order <==> n in visited
    ensures Closed(nodes, visited)
  {
    forall n, c | n in visited && ListsChild(nodes, n, c) && c in nodes
      ensures c in visited
    {
      var i :| 0 <= i < |order| && order[i] == n;
      assert c in order[..i];
    }
  }

  // ---------- the method ----------

  lemma RootsStep(table: Table<Node>, s: Id, k: nat)
    requires table.Valid() && k < |table.keys| && forall n | n in table.items :: table.items[n].id == n
    ensures table.keys[k] in table.items
    ensures var node := table.items[table.keys[k]];
            RootsOf(table, s, k + 1) ==
            RootsOf(table, s, k) + if node.kind == ROOT && node.sourceId == s then [node.id] else []
  {
    assert table.keys[k] in table.keys;
  }

  method CollectRoots(table: Table<Node>) returns (rootsBySource: map<Id, seq<Id>>)
    requires table.Valid() && forall n | n in table.items :: table.items[n].id == n
    ensures forall s :: (if s in rootsBySource then rootsBySource[s] else []) == RootsOf(table, s, |table.keys|)
  {
    hide RootsOf;
    rootsBySource := map[];
    forall s
      ensures RootsOf(table, s, 0) == []
    {
      assert |RootsOf(table, s, 0)| == 0;
    }
    for k := 0 to |table.keys|
      invariant forall s :: (if s in rootsBySource then rootsBySource[s] else []) == RootsOf(table, s, k)
    {
      ghost var next := k + 1;
      forall s
        ensures table.keys[k] in table.items
        ensures var node := table.items[table.keys[k]];
                RootsOf(table, s, next) ==
                RootsOf(table, s, k) + if node.kind == ROOT && node.sourceId == s then [node.id] else []
      {
        RootsStep(table, s, k);
      }
      assert table.keys[k] in table.keys;
      var node := table.items[table.keys[k]];
      if node.kind == ROOT {
        var roots := if node.sourceId in rootsBySource then rootsBySource[node.sourceId] else [];
        rootsBySource := rootsBySource[node.sourceId := roots + [node.id]];
      }
    }
  }

  /** The checks on one source's root, without the walk. */
  method CheckRoot(table: Table<Node>, source: Source, rootsBySource: map<Id, seq<Id>>) returns (ok: bool)
    requires (if source.id in rootsBySource then rootsBySource[source.id] else []) ==
             RootsOf(table, source.id, |table.keys|)
    ensures ok <==> RootRules(table, source)
    ensures ok ==> source.rootNodeId in table.items
  {
    var sourceRoots := if source.id in rootsBySource then rootsBySource[source.id] else [];
    ok := true;
    if |sourceRoots| != 1 || sourceRoots[0] != source.rootNodeId {
      ok := false;
    }
    if source.rootNodeId !in table.items {
      return false;
    }
    var root := table.items[source.rootNodeId];
    if root.kind != ROOT || root.sourceId != source.id {
      ok := false;
    }
    if root.range.start.utf16Offset != 0 || root.range.end.utf16Offset != |source.text| {
      ok := false;
    }
  }

  /** What the loop over the sources has established after the first `k`. */
  ghost predicate Walked(table: Table<Node>, sources: Table<Source>, k: nat, visited: set<Id>, order: seq<Id>, ok: bool)
    requires k <= |sources.keys|
  {
    && visited <= table.items.Keys
    && (forall t | HoldsRoots(table, sources, k, t) :: visited <= t)
    && (ok ==>
          && IsFinishOrder(table.items, order) && (forall n :: n in order <==> n in visited)
          && (forall i | 0 <= i < k ::
                && sources.keys[i] in sources.items && RootRules(table, sources.items[sources.keys[i]])
                && sources.items[sources.keys[i]].rootNodeId in visited))
  }

  lemma WalkedStart(table: Table<Node>, sources: Table<Source>)
    ensures Walked(table, sources, 0, {}, [], true)
  {
  }

  /** A source whose root is unknown is passed over, without a walk. */
  lemma WalkedSkip(table: Table<Node>, sources: Table<Source>, k: nat, visited: set<Id>, order: seq<Id>, ok: bool)
    requires k < |sources.keys| && Walked(table, sources, k, visited, order, ok)
    ensures Walked(table, sources, k + 1, visited, order, false)
  {
    forall t | HoldsRoots(table, sources, k + 1, t)
      ensures visited <= t
    {
      assert HoldsRoots(table, sources, k, t);
    }
  }

  lemma WalkedNext(table: Table<Node>, sources: Table<Source>, k: nat, visited: set<Id>, order: seq<Id>, ok: bool,
                   visited': set<Id>, order': seq<Id>, ok': bool)
    requires k < |sources.keys| && Walked(table, sources, k, visited, order, ok) && (ok' ==> ok)
    requires sources.keys[k] in sources.items && visited <= visited' <= table.items.Keys
    requires forall t | Closed(table.items, t) && sources.items[sources.keys[k]].rootNodeId in t ::
               visited' <= visited + t
    requires ok' ==>
               && RootRules(table, sources.items[sources.keys[k]])
               && sources.items[sources.keys[k]].rootNodeId in visited'
               && IsFinishOrder(table.items, order') && (forall n :: n in order' <==> n in visited')
    ensures Walked(table, sources, k + 1, visited', order', ok')
  {
    hide RootRules, IsFinishOrder, Closed;
    forall t | HoldsRoots(table, sources, k + 1, t)
      ensures visited' <= t
    {
      assert HoldsRoots(table, sources, k, t);
      assert Closed(table.items, t);
    }
  }

  /** A forest leaves no room for any reported issue. */
  lemma NoForest(table: Table<Node>, sources: Table<Source>, k: nat, path: seq<Id>)
    requires ValidTables(table, sources) && k < |sources.keys|
    requires sources.keys[k] in sources.items
    requires IsCycle(table.items, path) || !RootRules(table, sources.items[sources.keys[k]])
    ensures !HasForest(table.items, sources.items)
  {
    hide IsForest, RootRules, IsCycle;
    if forest :| IsForest(forest, table.items, sources.items) {
      ForestNoCycle(forest, table.items, sources.items, path);
      ForestRoots(forest, table, sources, sources.keys[k]);
    }
  }

  lemma UnlinkedHasNoForest(table: Table<Node>, sources: Table<Source>)
    requires ValidTables(table, sources) && !LinkRules(table.items)
    ensures !HasForest(table.items, sources.items)
  {
    hide IsForest, LinkRules;
    if forest :| IsForest(forest, table.items, sources.items) {
      ForestLinks(forest, table.items, sources.items);
    }
  }

  lemma TreeRootId(forest: map<Id, Tree>, nodes: Nodes, sources: Sources, s: Id)
    requires IsForest(forest, nodes, sources) && s in forest
    ensures s in sources && forest[s].id == sources[s].rootNodeId
    ensures Matches(forest[s], nodes)
  {
    hide SourcesKnown, Matches, Distinct, Nested, Ids;
    assert IsSourceTree(forest[s], sources[s], nodes);
  }

  /** With a forest, the walks from all roots visit every node. */
  lemma UnvisitedHasNoForest(table: Table<Node>, sources: Table<Source>, visited: set<Id>, order: seq<Id>, n: Id)
    requires ValidTables(table, sources) && Walked(table, sources, |sources.keys|, visited, order, true)
    requires n in table.items && n !in visited
    ensures !HasForest(table.items, sources.items)
  {
    hide HoldsRoots, RootRules, IsFinishOrder, Closed, IsForest, Matches, Distinct, Nested, Ids;
    if forest :| IsForest(forest, table.items, sources.items) {
      var t := TreeOf(forest, table.items, sources.items, n);
      var s := table.items[n].sourceId;
      TreeRootId(forest, table.items, sources.items, s);
      var i :| 0 <= i < |sources.keys| && sources.keys[i] == s;
      OrderClosed(table.items, order, visited);
      TreeInClosed(t, table.items, visited);
    }
  }

  lemma WalkedIsChecked(table: Table<Node>, sources: Table<Source>, visited: set<Id>, order: seq<Id>)
    requires ValidTables(table, sources) && Walked(table, sources, |sources.keys|, visited, order, true)
    requires LinkRules(table.items) && table.items.Keys <= visited
    ensures Checked(table, sources, order)
  {
    hide HoldsRoots, RootRules, IsFinishOrder, LinkRules;
    forall s | s in sources.items
      ensures RootRules(table, sources.items[s])
    {
      var i :| 0 <= i < |sources.keys| && sources.keys[i] == s;
    }
  }

  /** In an accepted IR the parent map is the parent function of the trees. */
  lemma ParentsAreTreeParents(table: Table<Node>, sources: Table<Source>, forest: map<Id, Tree>, parents: map<Id, Id>)
    requires ValidTables(table, sources) && IsForest(forest, table.items, sources.items)
    requires LinkRules(table.items) && IsParentMap(parents, table.items)
    ensures forall p, c {:trigger IsTreeParent(forest, p, c)} ::
              (c in parents && parents[c] == p) <==> IsTreeParent(forest, p, c)
  {
    hide IsForest, Distinct, Matches, Nested, Ids, TreeParent, ListRules, IsTreeParent;
    forall p, c
      ensures (c in parents && parents[c] == p) <==> IsTreeParent(forest, p, c)
    {
      ListedIsTreeParent(table, sources, forest, p, c);
    }
  }

  ghost predicate IsTreeParent(forest: map<Id, Tree>, p: Id, c: Id) {
    exists s :: s in forest && TreeParent(forest[s], p, c)
  }

  lemma ListedIsTreeParent(table: Table<Node>, sources: Table<Source>, forest: map<Id, Tree>, p: Id, c: Id)
    requires ValidTables(table, sources) && IsForest(forest, table.items, sources.items)
    ensures ListsChild(table.items, p, c) <==> IsTreeParent(forest, p, c)
  {
    hide IsForest, Distinct, Matches, Nested, Ids, TreeParent;
    if s :| s in forest && TreeParent(forest[s], p, c) {
      TreeRootId(forest, table.items, sources.items, s);
      TreeParentIsListed(forest[s], table.items, p, c);
    }
    if ListsChild(table.items, p, c) {
      var t := TreeOf(forest, table.items, sources.items, p);
      TreeParentIsListed(t, table.items, p, c);
    }
  }

  /**
    The whole relationship check: no issue is recorded exactly when the nodes form one ordered, nested
    tree for each source, and then the parent map is the parent function of those trees.
   */
  method ValidateAstRelationships(table: Table<Node>, sources: Table<Source>)
    returns (ok: bool, parents: map<Id, Id>, ghost forest: map<Id, Tree>)
    requires ValidTables(table, sources)
    ensures ok <==> HasForest(table.items, sources.items)
    ensures ok ==> IsForest(forest, table.items, sources.items)
    ensures ok ==> forall p, c {:trigger IsTreeParent(forest, p, c)} ::
                     (c in parents && parents[c] == p) <==> IsTreeParent(forest, p, c)
  {
    hide Walked, HasForest, IsForest, RootRules, LinkRules, RootsOf, IsParentMap, TreeParent, Closed;
    var nodes := table.items;
    forest := map[];
    ok, parents := LinkChildren(table);
    var linked := ok;
    if !ok {
      UnlinkedHasNoForest(table, sources);
    }
    var rootsBySource := CollectRoots(table);
    var visited: set<Id> := {};
    ghost var order: seq<Id>, walked := [], true;
    WalkedStart(table, sources);
    for k := 0 to |sources.keys|
      invariant Walked(table, sources, k, visited, order, walked)
      invariant walked || !ok
      invariant !ok ==> !HasForest(nodes, sources.items)
      invariant ok ==> linked
    {
      WalkedKnown(table, sources, k, visited, order, walked);
      var source := sources.items[sources.keys[k]];
      var rootOk := CheckRoot(table, source, rootsBySource);
      if !rootOk {
        NoForest(table, sources, k, []);
        ok := false;
      }
      if source.rootNodeId !in nodes {
        WalkedSkip(table, sources, k, visited, order, walked);
        walked := false;
        continue;
      }
      ghost var before, orderBefore := visited, order;
      var cyclic;
      visited, cyclic, order := Walk(nodes, source.rootNodeId, visited, walked, order);
      if cyclic {
        ghost var path :| IsCycle(nodes, path);
        NoForest(table, sources, k, path);
        ok := false;
      }
      WalkedNext(table, sources, k, before, orderBefore, walked, visited, order, walked && rootOk && !cyclic);
      walked := walked && rootOk && !cyclic;
    }
    var complete := true;
    for k := 0 to |table.keys|
      invariant complete ==> forall i | 0 <= i < k :: table.keys[i] in visited
      invariant !complete ==> exists n :: n in nodes && n !in visited
    {
      if table.keys[k] !in visited {
        assert table.keys[k] in nodes;
        complete := false;
      }
    }
    if ok {
      if complete {
        forall n | n in nodes
          ensures n in visited
        {
          assert n in table.keys;
        }
        WalkedIsChecked(table, sources, visited, order);
        forest := CheckedIsForest(table, sources, order);
        ParentsAreTreeParents(table, sources, forest, parents);
        Witness(forest, nodes, sources.items);
      } else {
        ghost var n :| n in nodes && n !in visited;
        UnvisitedHasNoForest(table, sources, visited, order, n);
      }
    }
    ok := ok && complete;
  }

  lemma Witness(forest: map<Id, Tree>, nodes: Nodes, sources: Sources)
    requires IsForest(forest, nodes, sources)
    ensures HasForest(nodes, sources)
  {
  }

  lemma WalkedKnown(table: Table<Node>, sources: Table<Source>, k: nat, visited: set<Id>, order: seq<Id>, ok: bool)
    requires ValidTables(table, sources) && k < |sources.keys| && Walked(table, sources, k, visited, order, ok)
    ensures sources.keys[k] in sources.items && sources.items[sources.keys[k]].id == sources.keys[k]
    ensures visited <= table.items.Keys
    ensures ok ==> IsFinishOrder(table.items, order) && forall n :: n in order <==> n in visited
  {
    assert sources.keys[k] in sources.keys;
  }

  // ---------- the trees, spelled out ----------

  /** What a forest says of each child: its source, its range inside the parent's and behind its sibling's. */
  lemma ForestSpelled(forest: map<Id, Tree>, nodes: Nodes, sources: Sources, n: Id, i: nat)
    requires IsForest(forest, nodes, sources) && n in nodes && i < |nodes[n].childIds|
    requires forall s | s in sources :: sources[s].id == s
    ensures var p, c := nodes[n], nodes[n].childIds[i];
      && c in nodes && nodes[c].sourceId == p.sourceId && nodes[c].range.sourceId == p.range.sourceId
      && p.range.start.utf16Offset <= nodes[c].range.start.utf16Offset
      && nodes[c].range.end.utf16Offset <= p.range.end.utf16Offset
      && (i > 0 && p.childIds[i - 1] in nodes ==>
            nodes[p.childIds[i - 1]].range.end.utf16Offset <= nodes[c].range.start.utf16Offset)
  {
    hide Matches, Distinct, Nested, Ids, SourcesKnown, IsForest;
    ForestKeepsRules(forest, nodes, sources, n);
    assert ChildRule(nodes, n, i);
    if i > 0 {
      assert SiblingRule(nodes, n, i - 1, i);
    }
  }
}
