/** Ordered trees of node ids, and what it means that the nodes of an IR form one tree for each source. */
module AstForest {
  import opened IrTypes

  type Nodes = map<Id, Node>
  type Sources = map<Id, Source>

  datatype Tree = Tree(id: Id, children: seq<Tree>)

  /** All ids in the tree. */
  ghost function Ids(t: Tree): set<Id> {
    {t.id} + set i, x | 0 <= i < |t.children| && x in Ids(t.children[i]) :: x
  }

  /** No id stands at two places of the tree. */
  ghost predicate Distinct(t: Tree) {
    && (forall i | 0 <= i < |t.children| :: Distinct(t.children[i]) && t.id !in Ids(t.children[i]))
    && (forall i, j | 0 <= i < j < |t.children| :: Ids(t.children[i]) !! Ids(t.children[j]))
  }

  /** Each node of the tree has exactly the children that its record lists, in that order. */
  ghost predicate Matches(t: Tree, nodes: Nodes)
    ensures Matches(t, nodes) ==> t.id in nodes
  {
    && t.id in nodes
    && |t.children| == |nodes[t.id].childIds|
    && (forall i | 0 <= i < |t.children| ::
          t.children[i].id == nodes[t.id].childIds[i] && Matches(t.children[i], nodes))
  }

  /** Children lie inside their parent, and siblings follow one another without overlap. */
  ghost predicate Nested(t: Tree, nodes: Nodes)
    requires Matches(t, nodes)
  {
    && (forall i | 0 <= i < |t.children| ::
          && Nested(t.children[i], nodes)
          && RangeContains(nodes[t.id].range, nodes[t.children[i].id].range))
    && (forall i, j | 0 <= i < j < |t.children| && j == i + 1 ::
          nodes[t.children[i].id].range.end.utf16Offset <= nodes[t.children[j].id].range.start.utf16Offset)
  }

  ghost function NodesOf(nodes: Nodes, sourceId: Id): set<Id> {
    set n | n in nodes && nodes[n].sourceId == sourceId
  }

  /** One tree for one source: all its nodes, nested, under its only root-kind node, which spans the text. */
  ghost predicate IsSourceTree(t: Tree, s: Source, nodes: Nodes) {
    && t.id == s.rootNodeId
    && Matches(t, nodes) && Distinct(t) && Nested(t, nodes)
    && Ids(t) == NodesOf(nodes, s.id)
    && (forall n | n in Ids(t) :: nodes[n].kind == ROOT <==> n == t.id)
    && nodes[t.id].range.start.utf16Offset == 0 && nodes[t.id].range.end.utf16Offset == |s.text|
  }

  ghost predicate IsForest(forest: map<Id, Tree>, nodes: Nodes, sources: Sources) {
    && forest.Keys == sources.Keys
    && (forall s | s in sources :: IsSourceTree(forest[s], sources[s], nodes))
    && SourcesKnown(nodes, sources)
  }

  ghost predicate SourcesKnown(nodes: Nodes, sources: Sources) {
    forall n | n in nodes :: nodes[n].sourceId in sources
  }

  /** `c` is listed right below `p` somewhere in the tree. */
  ghost predicate TreeParent(t: Tree, p: Id, c: Id) {
    || (t.id == p && exists i :: 0 <= i < |t.children| && t.children[i].id == c)
    || (exists i :: 0 <= i < |t.children| && TreeParent(t.children[i], p, c))
  }

  /** `b` stands strictly below `a`. */
  ghost predicate Below(t: Tree, a: Id, b: Id) {
    || (t.id == a && exists i :: 0 <= i < |t.children| && b in Ids(t.children[i]))
    || (exists i :: 0 <= i < |t.children| && Below(t.children[i], a, b))
  }

  ghost predicate ListsChild(nodes: Nodes, p: Id, c: Id) {
    p in nodes && c in nodes[p].childIds
  }

  // ---------- trees ----------

  lemma ChildIds(t: Tree, i: nat)
    requires i < |t.children|
    ensures Ids(t.children[i]) <= Ids(t) && t.children[i].id in Ids(t)
  {
    assert t.children[i].id in Ids(t.children[i]);
  }

  lemma OwnId(t: Tree)
    ensures t.id in Ids(t)
  {
  }

  lemma InChild(t: Tree, n: Id) returns (i: nat)
    requires n in Ids(t) && n != t.id
    ensures i < |t.children| && n in Ids(t.children[i])
  {
    i :| 0 <= i < |t.children| && n in Ids(t.children[i]);
  }

  /** The ids of a matching tree are closed under listed children. */
  lemma {:induction false} ClosedIds(t: Tree, nodes: Nodes, n: Id, k: nat)
    requires Matches(t, nodes) && n in Ids(t) && n in nodes && k < |nodes[n].childIds|
    ensures nodes[n].childIds[k] in Ids(t)
  {
    if n == t.id {
      ChildIds(t, k);
    } else {
      var i := InChild(t, n);
      ClosedIds(t.children[i], nodes, n, k);
      ChildIds(t, i);
    }
  }

  /** Nothing in a tree with distinct ids lists the tree's own root as a child. */
  lemma RootHasNoParent(t: Tree, nodes: Nodes, n: Id)
    requires Matches(t, nodes) && Distinct(t) && n in Ids(t) && n in nodes
    ensures t.id !in nodes[n].childIds
  {
    if t.id in nodes[n].childIds {
      var k :| 0 <= k < |nodes[n].childIds| && nodes[n].childIds[k] == t.id;
      if n == t.id {
        OwnId(t.children[k]);
      } else {
        var i := InChild(t, n);
        ClosedIds(t.children[i], nodes, n, k);
      }
    }
  }

  /** In a tree with distinct ids a node is listed by one parent only. */
  lemma {:induction false} UniqueParent(t: Tree, nodes: Nodes, p: Id, q: Id, c: Id)
    requires Matches(t, nodes) && Distinct(t) && p in Ids(t) && q in Ids(t)
    requires ListsChild(nodes, p, c) && ListsChild(nodes, q, c)
    ensures p == q
  {
    if p == t.id && q != t.id {
      RootChildOnly(t, nodes, q, c);
    } else if q == t.id && p != t.id {
      RootChildOnly(t, nodes, p, c);
    } else if p != t.id {
      var i := InChild(t, p);
      var j := InChild(t, q);
      var k :| 0 <= k < |nodes[p].childIds| && nodes[p].childIds[k] == c;
      var m :| 0 <= m < |nodes[q].childIds| && nodes[q].childIds[m] == c;
      ClosedIds(t.children[i], nodes, p, k);
      ClosedIds(t.children[j], nodes, q, m);
      assert i == j;
      UniqueParent(t.children[i], nodes, p, q, c);
    }
  }

  /** A child of the root is listed by nothing below the root. */
  lemma RootChildOnly(t: Tree, nodes: Nodes, q: Id, c: Id)
    requires Matches(t, nodes) && Distinct(t) && q in Ids(t) && q != t.id
    requires ListsChild(nodes, t.id, c)
    ensures !ListsChild(nodes, q, c)
  {
    if ListsChild(nodes, q, c) {
      var j := InChild(t, q);
      var m :| 0 <= m < |nodes[q].childIds| && nodes[q].childIds[m] == c;
      ClosedIds(t.children[j], nodes, q, m);
      var k :| 0 <= k < |nodes[t.id].childIds| && nodes[t.id].childIds[k] == c;
      assert t.children[k].id in Ids(t.children[k]);
      assert j == k;
      RootHasNoParent(t.children[j], nodes, q);
    }
  }

  /** Parenthood in the tree is what the records list. */
  lemma {:induction false} TreeParentIsListed(t: Tree, nodes: Nodes, p: Id, c: Id)
    requires Matches(t, nodes)
    ensures TreeParent(t, p, c) <==> p in Ids(t) && ListsChild(nodes, p, c)
  {
    forall i | 0 <= i < |t.children|
      ensures TreeParent(t.children[i], p, c) <==> p in Ids(t.children[i]) && ListsChild(nodes, p, c)
    {
      TreeParentIsListed(t.children[i], nodes, p, c);
    }
    if p in Ids(t) && ListsChild(nodes, p, c) {
      if p == t.id {
        var k :| 0 <= k < |nodes[p].childIds| && nodes[p].childIds[k] == c;
        assert t.children[k].id == c;
      } else {
        var i := InChild(t, p);
        assert TreeParent(t.children[i], p, c);
      }
    }
    if i :| 0 <= i < |t.children| && TreeParent(t.children[i], p, c) {
      ChildIds(t, i);
    }
    if t.id == p {
      if i :| 0 <= i < |t.children| && t.children[i].id == c {
        assert nodes[p].childIds[i] == c;
      }
    }
  }

  // ---------- laminar ranges ----------

  predicate Ordered(r: Range) { r.start.utf16Offset <= r.end.utf16Offset }

  lemma {:induction false} RootContains(t: Tree, nodes: Nodes, n: Id)
    requires Matches(t, nodes) && Nested(t, nodes) && n in Ids(t) && n in nodes
    ensures RangeContains(nodes[t.id].range, nodes[n].range)
  {
    if n != t.id {
      var i := InChild(t, n);
      RootContains(t.children[i], nodes, n);
    }
  }

  lemma {:induction false} SiblingsBefore(t: Tree, nodes: Nodes, i: nat, j: nat)
    requires Matches(t, nodes) && Nested(t, nodes) && i < j < |t.children|
    requires forall n | n in nodes :: Ordered(nodes[n].range)
    ensures t.children[i].id in nodes && t.children[j].id in nodes
    ensures nodes[t.children[i].id].range.end.utf16Offset <= nodes[t.children[j].id].range.start.utf16Offset
    decreases j
  {
    assert Matches(t.children[i], nodes) && Matches(t.children[j], nodes);
    if i + 1 < j {
      SiblingsBefore(t, nodes, i, j - 1);
      assert Ordered(nodes[t.children[j - 1].id].range);
    }
  }

  /** Two nodes of a nested tree are ancestor and descendant, one inside the other, or disjoint. */
  lemma {:induction false} Laminar(t: Tree, nodes: Nodes, a: Id, b: Id)
    requires Matches(t, nodes) && Nested(t, nodes)
    requires forall n | n in nodes :: Ordered(nodes[n].range)
    requires a in Ids(t) && b in Ids(t) && a != b && a in nodes && b in nodes
    ensures || (Below(t, a, b) && RangeContains(nodes[a].range, nodes[b].range))
            || (Below(t, b, a) && RangeContains(nodes[b].range, nodes[a].range))
            || nodes[a].range.end.utf16Offset <= nodes[b].range.start.utf16Offset
            || nodes[b].range.end.utf16Offset <= nodes[a].range.start.utf16Offset
  {
    if a == t.id {
      var i := InChild(t, b);
      RootContains(t, nodes, b);
    } else if b == t.id {
      var i := InChild(t, a);
      RootContains(t, nodes, a);
    } else {
      var i := InChild(t, a);
      var j := InChild(t, b);
      if i == j {
        Laminar(t.children[i], nodes, a, b);
      } else {
        RootContains(t.children[i], nodes, a);
        RootContains(t.children[j], nodes, b);
        SiblingsBefore(t, nodes, if i < j then i else j, if i < j then j else i);
      }
    }
  }
}
