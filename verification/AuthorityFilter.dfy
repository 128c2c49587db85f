/** Filtering a parsed repository by authority, and why the filtered IR is valid again. */
module AuthorityFilter {
  import opened Text
  import opened PositionIndex
  import opened IrTypes
  import opened AstForest
  import AstWalk
  import opened AstValidation

  datatype Document = Document(id: Id, sourceId: Id, rootNodeId: Id, importIds: seq<Id>, statementIds: seq<Id>,
                               activationRuleIds: seq<Id>)
  datatype Import = Import(id: Id, documentId: Id, nodeId: Id, range: Range, specifierRange: Range, rawSpecifier: Text)
  datatype Statement = Statement(id: Id, documentId: Id, nodeIds: seq<Id>, range: Range, text: Text)
  /** `selectorRanges` are the source ranges that the include and exclude selectors carry. */
  datatype Activation = Activation(id: Id, documentId: Id, selectorRanges: seq<Range>)
  /** `ruleIds` are the activation rules that a mention or a selection refers to. */
  datatype Event = Event(id: Id, sequence: nat, targetId: Option<Id>, ruleIds: seq<Id>)

  datatype Ir = Ir(sources: seq<Source>, documents: seq<Document>, nodes: seq<Node>, imports: seq<Import>,
                   statements: seq<Statement>, activationRules: seq<Activation>, targetIds: seq<Id>, events: seq<Event>)

  // ---------- what the validator checks across records ----------

  ghost function NodeMap(ns: seq<Node>): map<Id, Node> {
    if ns == [] then map[] else NodeMap(ns[..|ns| - 1])[ns[|ns| - 1].id := ns[|ns| - 1]]
  }

  ghost function SourceMap(ss: seq<Source>): map<Id, Source> {
    if ss == [] then map[] else SourceMap(ss[..|ss| - 1])[ss[|ss| - 1].id := ss[|ss| - 1]]
  }

  ghost predicate RangeOk(r: Range, sources: seq<Source>) {
    && r.start.utf16Offset <= r.end.utf16Offset && r.start.byteOffset <= r.end.byteOffset
    && exists s :: s in sources && s.id == r.sourceId
         && NaivePosition(s.text, r.start.utf16Offset) == Some(r.start)
         && NaivePosition(s.text, r.end.utf16Offset) == Some(r.end)
  }

  ghost predicate SliceIs(r: Range, sources: seq<Source>, slice: Text) {
    exists s :: s in sources && s.id == r.sourceId
      && r.start.utf16Offset <= r.end.utf16Offset <= |s.text|
      && s.text[r.start.utf16Offset..r.end.utf16Offset] == slice
  }

  ghost predicate SourcesOk(ss: seq<Source>) {
    forall i, j | 0 <= i < j < |ss| :: ss[i].id != ss[j].id && ss[i].path != ss[j].path
  }

  ghost predicate NodesOk(ir: Ir) {
    && (forall i, j | 0 <= i < j < |ir.nodes| :: ir.nodes[i].id != ir.nodes[j].id)
    && (forall n | n in ir.nodes ::
          RangeOk(n.range, ir.sources) && n.range.sourceId == n.sourceId && DuplicateFree(n.childIds))
    && HasForest(NodeMap(ir.nodes), SourceMap(ir.sources))
  }

  ghost predicate DocumentOk(d: Document, ir: Ir) {
    && (exists s :: s in ir.sources && s.id == d.sourceId && s.rootNodeId == d.rootNodeId)
    && (exists n :: n in ir.nodes && n.id == d.rootNodeId)
    && DuplicateFree(d.importIds) && DuplicateFree(d.statementIds) && DuplicateFree(d.activationRuleIds)
    && (forall k | k in d.importIds :: exists x :: x in ir.imports && x.id == k && x.documentId == d.id)
    && (forall k | k in d.statementIds :: exists x :: x in ir.statements && x.id == k && x.documentId == d.id)
    && (forall k | k in d.activationRuleIds :: exists x :: x in ir.activationRules && x.id == k && x.documentId == d.id)
  }

  ghost predicate ImportOk(x: Import, ir: Ir) {
    && RangeOk(x.range, ir.sources) && RangeOk(x.specifierRange, ir.sources)
    && RangeContains(x.range, x.specifierRange)
    && SliceIs(x.specifierRange, ir.sources, x.rawSpecifier)
    && (exists n :: n in ir.nodes && n.id == x.nodeId && RangeContains(n.range, x.range))
    && (exists d :: d in ir.documents && d.id == x.documentId && d.sourceId == x.range.sourceId && x.id in d.importIds)
  }

  /** Two nodes have the same parent. */
  ghost predicate Siblings(ns: seq<Node>, a: Id, b: Id) {
    exists p :: p in ns && a in p.childIds && b in p.childIds
  }

  ghost predicate StatementOk(x: Statement, ir: Ir) {
    && RangeOk(x.range, ir.sources) && SliceIs(x.range, ir.sources, x.text)
    && |x.nodeIds| >= 1 && DuplicateFree(x.nodeIds)
    && (forall k | k in x.nodeIds :: exists n :: n in ir.nodes && n.id == k && RangeContains(x.range, n.range))
    && (forall i | 0 < i < |x.nodeIds| :: Siblings(ir.nodes, x.nodeIds[0], x.nodeIds[i]))
    && (forall i, j, m, n | 0 <= i < j < |x.nodeIds| && j == i + 1 && m in ir.nodes && n in ir.nodes
                            && m.id == x.nodeIds[i] && n.id == x.nodeIds[j] ::
          m.range.end.utf16Offset <= n.range.start.utf16Offset)
    && (exists d :: d in ir.documents && d.id == x.documentId && d.sourceId == x.range.sourceId
                    && x.id in d.statementIds)
  }

  ghost predicate ActivationOk(x: Activation, ir: Ir) {
    exists d :: d in ir.documents && d.id == x.documentId && x.id in d.activationRuleIds
      && forall r | r in x.selectorRanges :: RangeOk(r, ir.sources) && r.sourceId == d.sourceId
  }

  ghost predicate RuleKnown(rules: seq<Activation>, k: Id) {
    exists x :: x in rules && x.id == k
  }

  ghost predicate EventOk(e: Event, ir: Ir) {
    && (e.targetId.Some? ==> e.targetId.value in ir.targetIds)
    && (forall k | k in e.ruleIds :: RuleKnown(ir.activationRules, k))
  }

  ghost predicate RecordsOk(ir: Ir) {
    && (forall i, j | 0 <= i < j < |ir.documents| :: ir.documents[i].id != ir.documents[j].id)
    && (forall i, j | 0 <= i < j < |ir.imports| :: ir.imports[i].id != ir.imports[j].id)
    && (forall i, j | 0 <= i < j < |ir.statements| :: ir.statements[i].id != ir.statements[j].id)
    && (forall i, j | 0 <= i < j < |ir.activationRules| :: ir.activationRules[i].id != ir.activationRules[j].id)
    && (forall d | d in ir.documents :: DocumentOk(d, ir))
    && (forall x | x in ir.imports :: ImportOk(x, ir))
    && (forall x | x in ir.statements :: StatementOk(x, ir))
    && (forall x | x in ir.activationRules :: ActivationOk(x, ir))
  }

  ghost predicate EventsOk(ir: Ir) {
    && DuplicateFree(ir.targetIds)
    && (forall i, j | 0 <= i < j < |ir.events| :: ir.events[i].id != ir.events[j].id)
    && (forall i | 0 <= i < |ir.events| :: ir.events[i].sequence == i && EventOk(ir.events[i], ir))
  }

  ghost predicate Valid(ir: Ir) {
    SourcesOk(ir.sources) && NodesOk(ir) && RecordsOk(ir) && EventsOk(ir)
  }

  // ---------- the filter ----------

  datatype Authority = Authority(profiles: seq<string>, surfaces: seq<string>)
  datatype Context = Context(profileId: string, surfaceId: string)
  datatype Parsed = Parsed(ir: Ir, documentAuthorities: map<Id, Authority>, importAuthorities: map<Id, Authority>)

  predicate AuthorityApplies(a: Authority, c: Context) {
    c.profileId in a.profiles && c.surfaceId in a.surfaces
  }

  predicate Applies(authorities: map<Id, Authority>, k: Id, contexts: seq<Context>) {
    k in authorities && exists c | c in contexts :: AuthorityApplies(authorities[k], c)
  }

  function Filter<T(!new)>(keep: T -> bool, s: seq<T>): (r: seq<T>)
    ensures forall x :: x in r <==> x in s && keep(x)
    ensures |r| <= |s|
  {
    if s == [] then []
    else
      assert s == [s[0]] + s[1..];
      if keep(s[0]) then [s[0]] + Filter(keep, s[1..]) else Filter(keep, s[1..])
  }

  function SelectedDocuments(p: Parsed, contexts: seq<Context>): set<Id> {
    set d | d in p.ir.documents && Applies(p.documentAuthorities, d.id, contexts) :: d.id
  }

  function SelectedSources(p: Parsed, contexts: seq<Context>): set<Id> {
    set d | d in p.ir.documents && d.id in SelectedDocuments(p, contexts) :: d.sourceId
  }

  function SelectedImports(p: Parsed, contexts: seq<Context>): seq<Import> {
    var ds := SelectedDocuments(p, contexts);
    Filter((x: Import) => x.documentId in ds && Applies(p.importAuthorities, x.id, contexts), p.ir.imports)
  }

  function WithImports(d: Document, importIds: set<Id>): Document {
    d.(importIds := Filter((k: Id) => k in importIds, d.importIds))
  }

  function FilterIr(p: Parsed, contexts: seq<Context>): Ir {
    var ds := SelectedDocuments(p, contexts);
    var ss := SelectedSources(p, contexts);
    var imports := SelectedImports(p, contexts);
    var importIds := set x | x in imports :: x.id;
    var documents := Filter((d: Document) => d.id in ds, p.ir.documents);
    p.ir.(
      activationRules := Filter((x: Activation) => x.documentId in ds, p.ir.activationRules),
      documents := seq(|documents|, i requires 0 <= i < |documents| => WithImports(documents[i], importIds)),
      imports := imports,
      nodes := Filter((n: Node) => n.sourceId in ss, p.ir.nodes),
      sources := Filter((s: Source) => s.id in ss, p.ir.sources),
      statements := Filter((x: Statement) => x.documentId in ds, p.ir.statements))
  }

  // ---------- filters keep order and identity ----------

  lemma {:induction false} FilterPair<T(!new)>(keep: T -> bool, s: seq<T>, i: nat, j: nat) returns (a: nat, b: nat)
    requires i < j < |Filter(keep, s)|
    ensures a < b < |s| && s[a] == Filter(keep, s)[i] && s[b] == Filter(keep, s)[j]
  {
    var r := Filter(keep, s[1..]);
    if keep(s[0]) {
      if i == 0 {
        assert r[j - 1] in r;
        a := 0;
        b :| 0 <= b < |s[1..]| && s[1..][b] == r[j - 1];
        b := b + 1;
      } else {
        a, b := FilterPair(keep, s[1..], i - 1, j - 1);
        a, b := a + 1, b + 1;
      }
    } else {
      a, b := FilterPair(keep, s[1..], i, j);
      a, b := a + 1, b + 1;
    }
  }

  lemma FilterDuplicateFree(keep: Id -> bool, s: seq<Id>)
    requires DuplicateFree(s)
    ensures DuplicateFree(Filter(keep, s))
  {
    var r := Filter(keep, s);
    forall i, j | 0 <= i < j < |r|
      ensures r[i] != r[j]
    {
      var a, b := FilterPair(keep, s, i, j);
    }
  }

  ghost predicate UniqueNodes(ns: seq<Node>) { forall i, j | 0 <= i < j < |ns| :: ns[i].id != ns[j].id }

  lemma {:induction false} NodeMapFacts(ns: seq<Node>)
    requires UniqueNodes(ns)
    ensures forall k :: k in NodeMap(ns) <==> exists n :: n in ns && n.id == k
    ensures forall k | k in NodeMap(ns) :: NodeMap(ns)[k] in ns && NodeMap(ns)[k].id == k
  {
    if ns != [] {
      var init, last := ns[..|ns| - 1], ns[|ns| - 1];
      NodeMapFacts(init);
      assert forall n :: n in ns <==> n in init || n == last;
    }
  }

  lemma {:induction false} SourceMapFacts(ss: seq<Source>)
    requires SourcesOk(ss)
    ensures forall k :: k in SourceMap(ss) <==> exists s :: s in ss && s.id == k
    ensures forall k | k in SourceMap(ss) :: SourceMap(ss)[k] in ss && SourceMap(ss)[k].id == k
  {
    if ss != [] {
      var init, last := ss[..|ss| - 1], ss[|ss| - 1];
      SourceMapFacts(init);
      assert forall s :: s in ss <==> s in init || s == last;
    }
  }

  lemma UniqueNode(ns: seq<Node>, a: Node, b: Node)
    requires UniqueNodes(ns) && a in ns && b in ns && a.id == b.id
    ensures a == b
  {
    var i :| 0 <= i < |ns| && ns[i] == a;
    var j :| 0 <= j < |ns| && ns[j] == b;
  }

  lemma UniqueSource(ss: seq<Source>, a: Source, b: Source)
    requires SourcesOk(ss) && a in ss && b in ss && a.id == b.id
    ensures a == b
  {
    var i :| 0 <= i < |ss| && ss[i] == a;
    var j :| 0 <= j < |ss| && ss[j] == b;
  }

  // ---------- forests survive the restriction to whole sources ----------

  /** `part` agrees with `nodes` on the ids of the tree. */
  lemma {:induction false} TreeRestricts(t: Tree, nodes: Nodes, part: Nodes)
    requires Matches(t, nodes) && Nested(t, nodes)
    requires forall n | n in Ids(t) :: n in part && n in nodes && part[n] == nodes[n]
    ensures Matches(t, part) && Nested(t, part)
  {
    OwnId(t);
    forall i | 0 <= i < |t.children|
      ensures Matches(t.children[i], part) && Nested(t.children[i], part)
      ensures t.children[i].id in part && part[t.children[i].id] == nodes[t.children[i].id]
    {
      ChildIds(t, i);
      TreeRestricts(t.children[i], nodes, part);
    }
  }

  /** The part of the nodes and sources that belongs to the kept sources. */
  ghost predicate IsPart(nodes: Nodes, sources: Sources, kept: set<Id>, part: Nodes, sourcePart: Sources) {
    && (forall n :: n in part <==> n in nodes && nodes[n].sourceId in kept)
    && (forall n | n in part :: part[n] == nodes[n])
    && (forall s :: s in sourcePart <==> s in sources && s in kept)
    && (forall s | s in sourcePart :: sourcePart[s] == sources[s])
  }

  lemma SourceTreeRestricts(t: Tree, source: Source, nodes: Nodes, sources: Sources, kept: set<Id>, part: Nodes,
                            sourcePart: Sources)
    requires IsSourceTree(t, source, nodes) && IsPart(nodes, sources, kept, part, sourcePart) && source.id in kept
    ensures IsSourceTree(t, source, part)
  {
    hide Matches, Nested, Distinct, Ids;
    OwnId(t);
    forall n | n in Ids(t)
      ensures n in part && n in nodes && part[n] == nodes[n]
    {
      assert n in NodesOf(nodes, source.id);
    }
    TreeRestricts(t, nodes, part);
    assert NodesOf(part, source.id) == NodesOf(nodes, source.id);
  }

  lemma PartKnown(nodes: Nodes, sources: Sources, kept: set<Id>, part: Nodes, sourcePart: Sources)
    requires SourcesKnown(nodes, sources) && IsPart(nodes, sources, kept, part, sourcePart)
    ensures SourcesKnown(part, sourcePart)
  {
  }

  lemma ForestRestricts(nodes: Nodes, sources: Sources, kept: set<Id>, part: Nodes, sourcePart: Sources)
    requires HasForest(nodes, sources) && IsPart(nodes, sources, kept, part, sourcePart)
    requires forall s | s in sources :: sources[s].id == s
    ensures HasForest(part, sourcePart)
  {
    hide IsSourceTree, SourcesKnown;
    var forest :| IsForest(forest, nodes, sources);
    var restricted := map s | s in forest && s in kept :: forest[s];
    forall s | s in sourcePart
      ensures IsSourceTree(restricted[s], sourcePart[s], part)
    {
      SourceTreeRestricts(forest[s], sources[s], nodes, sources, kept, part, sourcePart);
    }
    PartKnown(nodes, sources, kept, part, sourcePart);
    assert IsForest(restricted, part, sourcePart);
  }

  // ---------- the filtered records ----------

  /** How the filtered IR relates to the IR, without the functions that compute it. */
  ghost predicate IsFiltered(f: Ir, ir: Ir, ds: set<Id>, ss: set<Id>, importIds: set<Id>) {
    && (forall s :: s in f.sources <==> s in ir.sources && s.id in ss)
    && (forall n :: n in f.nodes <==> n in ir.nodes && n.sourceId in ss)
    && (forall d | d in f.documents ::
          exists d0 :: d0 in ir.documents && d0.id in ds && d == WithImports(d0, importIds))
    && (forall d0 | d0 in ir.documents && d0.id in ds :: WithImports(d0, importIds) in f.documents)
    && (forall x :: x in f.imports <==> x in ir.imports && x.documentId in ds && x.id in importIds)
    && (forall x :: x in f.statements <==> x in ir.statements && x.documentId in ds)
    && (forall x :: x in f.activationRules <==> x in ir.activationRules && x.documentId in ds)
    && f.events == ir.events && f.targetIds == ir.targetIds
    && (forall d | d in ir.documents && d.id in ds :: d.sourceId in ss)
    && (forall k | k in importIds :: exists x :: x in f.imports && x.id == k)
  }

  lemma RangeKept(r: Range, f: Ir, ir: Ir, ds: set<Id>, ss: set<Id>, importIds: set<Id>)
    requires IsFiltered(f, ir, ds, ss, importIds) && RangeOk(r, ir.sources) && r.sourceId in ss
    ensures RangeOk(r, f.sources)
  {
    hide NaivePosition, WithImports;
    var s :| s in ir.sources && s.id == r.sourceId
      && NaivePosition(s.text, r.start.utf16Offset) == Some(r.start)
      && NaivePosition(s.text, r.end.utf16Offset) == Some(r.end);
    assert s in f.sources;
  }

  lemma SliceKept(r: Range, slice: Text, f: Ir, ir: Ir, ds: set<Id>, ss: set<Id>, importIds: set<Id>)
    requires IsFiltered(f, ir, ds, ss, importIds) && SliceIs(r, ir.sources, slice) && r.sourceId in ss
    ensures SliceIs(r, f.sources, slice)
  {
    hide WithImports;
    var s :| s in ir.sources && s.id == r.sourceId
      && r.start.utf16Offset <= r.end.utf16Offset <= |s.text|
      && s.text[r.start.utf16Offset..r.end.utf16Offset] == slice;
    assert s in f.sources;
  }

  ghost predicate UniqueImports(xs: seq<Import>) { forall i, j | 0 <= i < j < |xs| :: xs[i].id != xs[j].id }

  lemma UniqueImport(xs: seq<Import>, a: Import, b: Import)
    requires UniqueImports(xs) && a in xs && b in xs && a.id == b.id
    ensures a == b
  {
    var i :| 0 <= i < |xs| && xs[i] == a;
    var j :| 0 <= j < |xs| && xs[j] == b;
  }

  lemma DocumentKept(d0: Document, f: Ir, ir: Ir, ds: set<Id>, ss: set<Id>, importIds: set<Id>)
    requires IsFiltered(f, ir, ds, ss, importIds) && UniqueNodes(ir.nodes) && UniqueImports(ir.imports)
    requires d0 in ir.documents && d0.id in ds && DocumentOk(d0, ir)
    requires forall n, s | n in ir.nodes && s in ir.sources && n.id == s.rootNodeId :: n.sourceId == s.id
    ensures DocumentOk(WithImports(d0, importIds), f)
  {
    var d := WithImports(d0, importIds);
    FilterDuplicateFree((k: Id) => k in importIds, d0.importIds);
    var s :| s in ir.sources && s.id == d0.sourceId && s.rootNodeId == d0.rootNodeId;
    var n :| n in ir.nodes && n.id == d0.rootNodeId;
    assert s in f.sources && n in f.nodes;
    forall k | k in d.importIds
      ensures exists x :: x in f.imports && x.id == k && x.documentId == d.id
    {
      var x :| x in ir.imports && x.id == k && x.documentId == d0.id;
      var y :| y in f.imports && y.id == k;
      UniqueImport(ir.imports, x, y);
    }
    forall k | k in d.statementIds
      ensures exists x :: x in f.statements && x.id == k && x.documentId == d.id
    {
      var x :| x in ir.statements && x.id == k && x.documentId == d0.id;
      assert x in f.statements;
    }
    forall k | k in d.activationRuleIds
      ensures exists x :: x in f.activationRules && x.id == k && x.documentId == d.id
    {
      var x :| x in ir.activationRules && x.id == k && x.documentId == d0.id;
      assert x in f.activationRules;
    }
  }

  lemma ImportKept(x: Import, f: Ir, ir: Ir, ds: set<Id>, ss: set<Id>, importIds: set<Id>)
    requires IsFiltered(f, ir, ds, ss, importIds) && x in f.imports && ImportOk(x, ir)
    requires forall n | n in ir.nodes :: n.range.sourceId == n.sourceId
    ensures ImportOk(x, f)
  {
    var d0 :| d0 in ir.documents && d0.id == x.documentId && d0.sourceId == x.range.sourceId && x.id in d0.importIds;
    var d := WithImports(d0, importIds);
    assert d in f.documents && x.id in d.importIds;
    var n :| n in ir.nodes && n.id == x.nodeId && RangeContains(n.range, x.range);
    assert n in f.nodes;
    RangeKept(x.range, f, ir, ds, ss, importIds);
    RangeKept(x.specifierRange, f, ir, ds, ss, importIds);
    SliceKept(x.specifierRange, x.rawSpecifier, f, ir, ds, ss, importIds);
  }

  lemma StatementKept(x: Statement, f: Ir, ir: Ir, ds: set<Id>, ss: set<Id>, importIds: set<Id>)
    requires IsFiltered(f, ir, ds, ss, importIds) && x in f.statements && StatementOk(x, ir)
    requires UniqueNodes(ir.nodes) && forall n | n in ir.nodes :: n.range.sourceId == n.sourceId
    requires forall p, n | p in ir.nodes && n in ir.nodes && n.id in p.childIds :: p.sourceId == n.sourceId
    ensures StatementOk(x, f)
  {
    hide RangeOk, SliceIs;
    var d0 :| d0 in ir.documents && d0.id == x.documentId && d0.sourceId == x.range.sourceId && x.id in d0.statementIds;
    assert WithImports(d0, importIds) in f.documents;
    RangeKept(x.range, f, ir, ds, ss, importIds);
    SliceKept(x.range, x.text, f, ir, ds, ss, importIds);
    forall k | k in x.nodeIds
      ensures exists n :: n in f.nodes && n.id == k && RangeContains(x.range, n.range)
    {
      var n :| n in ir.nodes && n.id == k && RangeContains(x.range, n.range);
      assert n in f.nodes;
    }
    forall i | 0 < i < |x.nodeIds|
      ensures Siblings(f.nodes, x.nodeIds[0], x.nodeIds[i])
    {
      assert Siblings(ir.nodes, x.nodeIds[0], x.nodeIds[i]);
      var p :| p in ir.nodes && x.nodeIds[0] in p.childIds && x.nodeIds[i] in p.childIds;
      assert x.nodeIds[0] in x.nodeIds;
      var n :| n in f.nodes && n.id == x.nodeIds[0] && RangeContains(x.range, n.range);
      assert p in f.nodes;
    }
  }

  lemma ActivationKept(x: Activation, f: Ir, ir: Ir, ds: set<Id>, ss: set<Id>, importIds: set<Id>)
    requires IsFiltered(f, ir, ds, ss, importIds) && x in f.activationRules && ActivationOk(x, ir)
    ensures ActivationOk(x, f)
  {
    hide RangeOk;
    var d0 :| d0 in ir.documents && d0.id == x.documentId && x.id in d0.activationRuleIds
      && forall r | r in x.selectorRanges :: RangeOk(r, ir.sources) && r.sourceId == d0.sourceId;
    assert WithImports(d0, importIds) in f.documents;
    forall r | r in x.selectorRanges
      ensures RangeOk(r, f.sources)
    {
      RangeKept(r, f, ir, ds, ss, importIds);
    }
  }

  // ---------- the theorem ----------

  function ImportIds(p: Parsed, contexts: seq<Context>): set<Id> {
    set x | x in SelectedImports(p, contexts) :: x.id
  }

  /** The filter keeps exactly the records of the selected documents, and the sources and nodes below them. */
  lemma FilterKeeps(p: Parsed, contexts: seq<Context>)
    requires UniqueImports(p.ir.imports)
    ensures IsFiltered(FilterIr(p, contexts), p.ir, SelectedDocuments(p, contexts), SelectedSources(p, contexts),
                       ImportIds(p, contexts))
  {
    hide Filter, Applies, AuthorityApplies;
    var f := FilterIr(p, contexts);
    var ds, ss, importIds := SelectedDocuments(p, contexts), SelectedSources(p, contexts), ImportIds(p, contexts);
    var documents := Filter((d: Document) => d.id in ds, p.ir.documents);
    assert |f.documents| == |documents|;
    assert forall i | 0 <= i < |documents| :: f.documents[i] == WithImports(documents[i], importIds);
    forall d0 | d0 in p.ir.documents && d0.id in ds
      ensures WithImports(d0, importIds) in f.documents
    {
      assert d0 in documents;
      var i :| 0 <= i < |documents| && documents[i] == d0;
      assert f.documents[i] == WithImports(d0, importIds);
    }
    forall d | d in f.documents
      ensures exists d0 :: d0 in p.ir.documents && d0.id in ds && d == WithImports(d0, importIds)
    {
      var i :| 0 <= i < |f.documents| && f.documents[i] == d;
      assert documents[i] in documents;
    }
    forall x
      ensures x in f.imports <==> x in p.ir.imports && x.documentId in ds && x.id in importIds
    {
      if x in p.ir.imports && x.id in importIds {
        var y :| y in f.imports && y.id == x.id;
        UniqueImport(p.ir.imports, x, y);
      }
    }
  }

  /** An authority that names the profile and the surface of some context. */
  ghost predicate NamesContext(a: Authority, contexts: seq<Context>) {
    exists c :: c in contexts && c.profileId in a.profiles && c.surfaceId in a.surfaces
  }

  /** A document of the repository with an authority that names one of the contexts. */
  ghost predicate InForce(p: Parsed, contexts: seq<Context>, d: Document) {
    && d in p.ir.documents && d.id in p.documentAuthorities
    && NamesContext(p.documentAuthorities[d.id], contexts)
  }

  /**
    What is kept, read off the records and the two tables of authorities: the documents in force; their rules,
    statements, sources and nodes; and those of their imports whose own authority names one of the contexts.
   */
  lemma KeptExactly(p: Parsed, contexts: seq<Context>)
    ensures var f := FilterIr(p, contexts);
      && (forall x :: x in f.imports <==>
            && x in p.ir.imports && (exists d :: InForce(p, contexts, d) && d.id == x.documentId)
            && x.id in p.importAuthorities && NamesContext(p.importAuthorities[x.id], contexts))
      && (forall x :: x in f.statements <==>
            x in p.ir.statements && exists d :: InForce(p, contexts, d) && d.id == x.documentId)
      && (forall x :: x in f.activationRules <==>
            x in p.ir.activationRules && exists d :: InForce(p, contexts, d) && d.id == x.documentId)
      && (forall s :: s in f.sources <==>
            s in p.ir.sources && exists d :: InForce(p, contexts, d) && d.sourceId == s.id)
      && (forall n :: n in f.nodes <==>
            n in p.ir.nodes && exists d :: InForce(p, contexts, d) && d.sourceId == n.sourceId)
      && f.targetIds == p.ir.targetIds && f.events == p.ir.events
  {
  }

  /** `x` stands before `y` somewhere in the list. */
  ghost predicate StandsBefore(s: seq<Id>, x: Id, y: Id) {
    exists a, b :: 0 <= a < b < |s| && s[a] == x && s[b] == y
  }

  /** What stands in one order in `part` stands in that order in `whole`. */
  ghost predicate KeepsOrder(part: seq<Id>, whole: seq<Id>) {
    forall i, j | 0 <= i < j < |part| :: StandsBefore(whole, part[i], part[j])
  }

  /** `e` is `d` with the references to imports that are not among the given ones left out. */
  ghost predicate Trimmed(e: Document, d: Document, imports: seq<Import>) {
    && e == d.(importIds := e.importIds) && KeepsOrder(e.importIds, d.importIds)
    && forall k :: k in e.importIds <==> k in d.importIds && exists x :: x in imports && x.id == k
  }

  lemma FilterKeepsOrder(keep: Id -> bool, s: seq<Id>, part: seq<Id>)
    requires part == Filter(keep, s)
    ensures KeepsOrder(part, s)
  {
    hide Filter;
    forall i, j | 0 <= i < j < |part|
      ensures StandsBefore(s, part[i], part[j])
    {
      var a, b := FilterPair(keep, s, i, j);
    }
  }

  lemma TrimmedExactly(d: Document, importIds: set<Id>, imports: seq<Import>)
    requires forall k :: k in importIds <==> exists x :: x in imports && x.id == k
    ensures Trimmed(WithImports(d, importIds), d, imports)
  {
    hide Filter, KeepsOrder;
    var keep := (k: Id) => k in importIds;
    var e := WithImports(d, importIds);
    assert e.importIds == Filter(keep, d.importIds);
    FilterKeepsOrder(keep, d.importIds, e.importIds);
    forall k
      ensures k in e.importIds <==> k in d.importIds && exists x :: x in imports && x.id == k
    {
      assert k in e.importIds <==> k in d.importIds && keep(k);
    }
  }

  /** The kept documents are those in force, each with the references to imports that are not kept left out. */
  lemma DocumentsExactly(p: Parsed, contexts: seq<Context>)
    ensures var f := FilterIr(p, contexts);
      && (forall d :: InForce(p, contexts, d) ==> exists e :: e in f.documents && Trimmed(e, d, f.imports))
      && (forall e | e in f.documents :: exists d :: InForce(p, contexts, d) && Trimmed(e, d, f.imports))
  {
    hide Filter, Applies, Trimmed, InForce, SelectedDocuments, SelectedImports, WithImports;
    var f := FilterIr(p, contexts);
    var ds := SelectedDocuments(p, contexts);
    var importIds := set x | x in f.imports :: x.id;
    var documents := Filter((d: Document) => d.id in ds, p.ir.documents);
    SelectedExactly(p, contexts);
    forall d | InForce(p, contexts, d)
      ensures exists e :: e in f.documents && Trimmed(e, d, f.imports)
    {
      KnownDocument(p, contexts, d);
      assert d in documents;
      var i :| 0 <= i < |documents| && documents[i] == d;
      assert f.documents[i] == WithImports(d, importIds);
      TrimmedExactly(d, importIds, f.imports);
    }
    forall e | e in f.documents
      ensures exists d :: InForce(p, contexts, d) && Trimmed(e, d, f.imports)
    {
      var i :| 0 <= i < |f.documents| && f.documents[i] == e;
      assert documents[i] in documents && e == WithImports(documents[i], importIds);
      TrimmedExactly(documents[i], importIds, f.imports);
    }
  }

  lemma KnownDocument(p: Parsed, contexts: seq<Context>, d: Document)
    requires InForce(p, contexts, d)
    ensures d in p.ir.documents
  {
  }

  lemma SelectedExactly(p: Parsed, contexts: seq<Context>)
    ensures forall d | d in p.ir.documents :: d.id in SelectedDocuments(p, contexts) <==> InForce(p, contexts, d)
  {
  }

  lemma FilteredUnique(p: Parsed, contexts: seq<Context>)
    requires SourcesOk(p.ir.sources) && UniqueNodes(p.ir.nodes) && RecordsOk(p.ir)
    ensures var f := FilterIr(p, contexts);
      && SourcesOk(f.sources) && UniqueNodes(f.nodes)
      && (forall i, j | 0 <= i < j < |f.documents| :: f.documents[i].id != f.documents[j].id)
      && (forall i, j | 0 <= i < j < |f.imports| :: f.imports[i].id != f.imports[j].id)
      && (forall i, j | 0 <= i < j < |f.statements| :: f.statements[i].id != f.statements[j].id)
      && (forall i, j | 0 <= i < j < |f.activationRules| :: f.activationRules[i].id != f.activationRules[j].id)
  {
    hide Filter, DocumentOk, ImportOk, StatementOk, ActivationOk;
    var f := FilterIr(p, contexts);
    var ds, ss := SelectedDocuments(p, contexts), SelectedSources(p, contexts);
    forall i, j | 0 <= i < j < |f.sources|
      ensures f.sources[i].id != f.sources[j].id && f.sources[i].path != f.sources[j].path
    {
      var a, b := FilterPair((s: Source) => s.id in ss, p.ir.sources, i, j);
    }
    forall i, j | 0 <= i < j < |f.nodes|
      ensures f.nodes[i].id != f.nodes[j].id
    {
      var a, b := FilterPair((n: Node) => n.sourceId in ss, p.ir.nodes, i, j);
    }
    forall i, j | 0 <= i < j < |f.documents|
      ensures f.documents[i].id != f.documents[j].id
    {
      var a, b := FilterPair((d: Document) => d.id in ds, p.ir.documents, i, j);
    }
    forall i, j | 0 <= i < j < |f.imports|
      ensures f.imports[i].id != f.imports[j].id
    {
      var a, b := FilterPair((x: Import) => x.documentId in ds && Applies(p.importAuthorities, x.id, contexts),
                             p.ir.imports, i, j);
    }
    forall i, j | 0 <= i < j < |f.statements|
      ensures f.statements[i].id != f.statements[j].id
    {
      var a, b := FilterPair((x: Statement) => x.documentId in ds, p.ir.statements, i, j);
    }
    forall i, j | 0 <= i < j < |f.activationRules|
      ensures f.activationRules[i].id != f.activationRules[j].id
    {
      var a, b := FilterPair((x: Activation) => x.documentId in ds, p.ir.activationRules, i, j);
    }
  }

  /** A child reference stays within its source, and a source's root belongs to it. */
  lemma SameSource(ir: Ir)
    requires SourcesOk(ir.sources) && NodesOk(ir)
    ensures forall p, n | p in ir.nodes && n in ir.nodes && n.id in p.childIds :: p.sourceId == n.sourceId
    ensures forall n, s | n in ir.nodes && s in ir.sources && n.id == s.rootNodeId :: n.sourceId == s.id
  {
    hide IsForest, RangeOk;
    var nodes, sources := NodeMap(ir.nodes), SourceMap(ir.sources);
    NodeMapFacts(ir.nodes);
    SourceMapFacts(ir.sources);
    var forest :| IsForest(forest, nodes, sources);
    forall p, n | p in ir.nodes && n in ir.nodes && n.id in p.childIds
      ensures p.sourceId == n.sourceId
    {
      UniqueNode(ir.nodes, nodes[p.id], p);
      UniqueNode(ir.nodes, nodes[n.id], n);
      var k :| 0 <= k < |p.childIds| && p.childIds[k] == n.id;
      ForestKeepsRules(forest, nodes, sources, p.id);
      assert AstWalk.ChildRule(nodes, p.id, k);
    }
    forall n, s | n in ir.nodes && s in ir.sources && n.id == s.rootNodeId
      ensures n.sourceId == s.id
    {
      UniqueNode(ir.nodes, nodes[n.id], n);
      UniqueSource(ir.sources, sources[s.id], s);
      RootOwned(forest, nodes, sources, s.id);
    }
  }

  lemma RootOwned(forest: map<Id, Tree>, nodes: Nodes, sources: Sources, s: Id)
    requires IsForest(forest, nodes, sources) && s in sources && sources[s].id == s
    ensures sources[s].rootNodeId in nodes && nodes[sources[s].rootNodeId].sourceId == s
  {
    hide Matches, Distinct, Nested, Ids, SourcesKnown;
    assert IsSourceTree(forest[s], sources[s], nodes);
    OwnId(forest[s]);
    assert forest[s].id in NodesOf(nodes, s);
  }

  lemma NodePart(all: seq<Node>, some: seq<Node>, ss: set<Id>, k: Id)
    requires UniqueNodes(all) && UniqueNodes(some) && forall n :: n in some <==> n in all && n.sourceId in ss
    ensures k in NodeMap(some) <==> k in NodeMap(all) && NodeMap(all)[k].sourceId in ss
    ensures k in NodeMap(some) ==> NodeMap(some)[k] == NodeMap(all)[k]
  {
    NodeMapFacts(all);
    NodeMapFacts(some);
    if k in NodeMap(some) {
      UniqueNode(all, NodeMap(some)[k], NodeMap(all)[k]);
    }
  }

  lemma SourcePart(all: seq<Source>, some: seq<Source>, ss: set<Id>, k: Id)
    requires SourcesOk(all) && SourcesOk(some) && forall s :: s in some <==> s in all && s.id in ss
    ensures k in SourceMap(some) <==> k in SourceMap(all) && k in ss
    ensures k in SourceMap(some) ==> SourceMap(some)[k] == SourceMap(all)[k]
    ensures k in SourceMap(all) ==> SourceMap(all)[k].id == k
  {
    SourceMapFacts(all);
    SourceMapFacts(some);
    if k in SourceMap(some) {
      UniqueSource(all, SourceMap(some)[k], SourceMap(all)[k]);
    }
  }

  lemma NodesKept(f: Ir, ir: Ir, ds: set<Id>, ss: set<Id>, importIds: set<Id>)
    requires IsFiltered(f, ir, ds, ss, importIds) && SourcesOk(ir.sources) && NodesOk(ir)
    requires SourcesOk(f.sources) && UniqueNodes(f.nodes)
    ensures NodesOk(f)
  {
    hide RangeOk, HasForest, WithImports, NodeMap, SourceMap;
    forall k
      ensures k in NodeMap(f.nodes) <==> k in NodeMap(ir.nodes) && NodeMap(ir.nodes)[k].sourceId in ss
      ensures k in NodeMap(f.nodes) ==> NodeMap(f.nodes)[k] == NodeMap(ir.nodes)[k]
    {
      NodePart(ir.nodes, f.nodes, ss, k);
    }
    forall k
      ensures k in SourceMap(f.sources) <==> k in SourceMap(ir.sources) && k in ss
      ensures k in SourceMap(f.sources) ==> SourceMap(f.sources)[k] == SourceMap(ir.sources)[k]
      ensures k in SourceMap(ir.sources) ==> SourceMap(ir.sources)[k].id == k
    {
      SourcePart(ir.sources, f.sources, ss, k);
    }
    ForestRestricts(NodeMap(ir.nodes), SourceMap(ir.sources), ss, NodeMap(f.nodes), SourceMap(f.sources));
    forall n | n in f.nodes
      ensures RangeOk(n.range, f.sources)
    {
      RangeKept(n.range, f, ir, ds, ss, importIds);
    }
  }

  /** Every rule that an event refers to belongs to a document whose authority applies in one of the contexts. */
  ghost predicate EventRulesApply(p: Parsed, contexts: seq<Context>) {
    forall e, x | e in p.ir.events && x in p.ir.activationRules && x.id in e.ruleIds ::
      Applies(p.documentAuthorities, x.documentId, contexts)
  }

  /**
    Filtering a valid IR keeps every source, node, document, import, statement and activation rule valid,
    whatever the authorities and contexts; the result is a valid IR exactly when the rules that its events refer to
    belong to documents whose authorities apply.
   */
  lemma FilterPreservesValidity(p: Parsed, contexts: seq<Context>)
    requires Valid(p.ir)
    ensures var f := FilterIr(p, contexts);
      && SourcesOk(f.sources) && NodesOk(f) && RecordsOk(f)
      && (Valid(f) <==> EventRulesApply(p, contexts))
  {
    hide FilterIr, DocumentOk, ImportOk, StatementOk, ActivationOk, NodesOk, IsFiltered, SelectedDocuments,
         SelectedSources, ImportIds, EventRulesApply;
    var f := FilterIr(p, contexts);
    NodesUnique(p.ir);
    FilterKeeps(p, contexts);
    FilteredUnique(p, contexts);
    NodesKept(f, p.ir, SelectedDocuments(p, contexts), SelectedSources(p, contexts), ImportIds(p, contexts));
    RecordsKept(f, p.ir, SelectedDocuments(p, contexts), SelectedSources(p, contexts), ImportIds(p, contexts));
    EventsKept(f, p.ir, SelectedDocuments(p, contexts), SelectedSources(p, contexts), ImportIds(p, contexts));
    RulesOfSelected(p, contexts);
  }

  /** The document of a valid rule is selected exactly when its authority applies. */
  lemma RulesOfSelected(p: Parsed, contexts: seq<Context>)
    requires RecordsOk(p.ir)
    ensures EventRulesApply(p, contexts) <==> EventRulesIn(p.ir, SelectedDocuments(p, contexts))
  {
    hide Applies, DocumentOk, ImportOk, StatementOk;
    forall x | x in p.ir.activationRules
      ensures x.documentId in SelectedDocuments(p, contexts) <==> Applies(p.documentAuthorities, x.documentId, contexts)
    {
      assert ActivationOk(x, p.ir);
      var d :| d in p.ir.documents && d.id == x.documentId;
    }
  }

  ghost predicate EventRulesIn(ir: Ir, ds: set<Id>) {
    forall e, x | e in ir.events && x in ir.activationRules && x.id in e.ruleIds :: x.documentId in ds
  }

  lemma NodesUnique(ir: Ir)
    requires NodesOk(ir)
    ensures UniqueNodes(ir.nodes)
  {
  }

  lemma RecordsKept(f: Ir, ir: Ir, ds: set<Id>, ss: set<Id>, importIds: set<Id>)
    requires IsFiltered(f, ir, ds, ss, importIds) && SourcesOk(ir.sources) && NodesOk(ir) && RecordsOk(ir)
    ensures forall d | d in f.documents :: DocumentOk(d, f)
    ensures forall x | x in f.imports :: ImportOk(x, f)
    ensures forall x | x in f.statements :: StatementOk(x, f)
    ensures forall x | x in f.activationRules :: ActivationOk(x, f)
  {
    hide DocumentOk, ImportOk, StatementOk, ActivationOk, RangeOk, HasForest, WithImports;
    SameSource(ir);
    forall d | d in f.documents
      ensures DocumentOk(d, f)
    {
      var d0 :| d0 in ir.documents && d0.id in ds && d == WithImports(d0, importIds);
      DocumentKept(d0, f, ir, ds, ss, importIds);
    }
    forall x | x in f.imports
      ensures ImportOk(x, f)
    {
      ImportKept(x, f, ir, ds, ss, importIds);
    }
    forall x | x in f.statements
      ensures StatementOk(x, f)
    {
      StatementKept(x, f, ir, ds, ss, importIds);
    }
    forall x | x in f.activationRules
      ensures ActivationOk(x, f)
    {
      ActivationKept(x, f, ir, ds, ss, importIds);
    }
  }

  /** The events stay valid exactly when the rules they refer to belong to selected documents. */
  lemma EventsKept(f: Ir, ir: Ir, ds: set<Id>, ss: set<Id>, importIds: set<Id>)
    requires IsFiltered(f, ir, ds, ss, importIds) && EventsOk(ir) && UniqueRules(ir.activationRules)
    ensures EventsOk(f) <==> EventRulesIn(ir, ds)
  {
    hide RuleKnown, WithImports;
    forall e, x | EventsOk(f) && e in ir.events && x in ir.activationRules && x.id in e.ruleIds
      ensures x.documentId in ds
    {
      var i :| 0 <= i < |ir.events| && ir.events[i] == e;
      assert EventOk(f.events[i], f);
      KnownIsKept(f.activationRules, ir.activationRules, ds, x);
    }
    if EventRulesIn(ir, ds) {
      forall i | 0 <= i < |f.events|
        ensures EventOk(f.events[i], f)
      {
        assert EventOk(ir.events[i], ir);
        forall k | k in ir.events[i].ruleIds
          ensures RuleKnown(f.activationRules, k)
        {
          KeptIsKnown(f.activationRules, ir, ds, ir.events[i], k);
        }
      }
    }
  }

  ghost predicate UniqueRules(xs: seq<Activation>) { forall i, j | 0 <= i < j < |xs| :: xs[i].id != xs[j].id }

  lemma KnownIsKept(some: seq<Activation>, all: seq<Activation>, ds: set<Id>, x: Activation)
    requires UniqueRules(all) && (forall y :: y in some <==> y in all && y.documentId in ds)
    requires x in all && RuleKnown(some, x.id)
    ensures x.documentId in ds
  {
    var y :| y in some && y.id == x.id;
    var i :| 0 <= i < |all| && all[i] == x;
    var j :| 0 <= j < |all| && all[j] == y;
    assert i == j;
  }

  lemma KeptIsKnown(some: seq<Activation>, ir: Ir, ds: set<Id>, e: Event, k: Id)
    requires forall y :: y in some <==> y in ir.activationRules && y.documentId in ds
    requires EventRulesIn(ir, ds) && e in ir.events && k in e.ruleIds && RuleKnown(ir.activationRules, k)
    ensures RuleKnown(some, k)
  {
    var x :| x in ir.activationRules && x.id == k;
    assert x in some;
  }

  /** Without events, as in every static scan, the filtered IR is always valid. */
  lemma FilterWithoutEvents(p: Parsed, contexts: seq<Context>)
    requires Valid(p.ir) && p.ir.events == []
    ensures Valid(FilterIr(p, contexts))
  {
    FilterPreservesValidity(p, contexts);
  }

  // ---------- an event that outlives its rule ----------

  const SOURCE := Source(Id("source"), [0x61], [], Id("node"))
  const ORIGIN := Position(0, 0, 0, 0)
  const NODE := Node(Id("node"), Id("source"), ROOT, Range(Id("source"), ORIGIN, ORIGIN), [])
  const DOCUMENT := Document(Id("document"), Id("source"), Id("node"), [], [], [Id("rule")])
  const RULE := Activation(Id("rule"), Id("document"), [])
  const MENTION := Event(Id("event"), 0, None, [Id("rule")])

  /** One empty file with one rule, which an event mentions; its authority covers one profile on one surface. */
  const MENTIONED := Parsed(
    Ir([SOURCE], [DOCUMENT], [NODE], [], [], [RULE], [], [MENTION]),
    map[Id("document") := Authority(["claude-code"], ["cli"])], map[])

  /** The IR is valid, the context is another profile's, and what is left after filtering is not valid. */
  lemma FilterCanInvalidate()
    ensures Valid(MENTIONED.ir) && !Valid(FilterIr(MENTIONED, [Context("gemini-cli", "cli")]))
  {
    hide FilterIr, NodesOk, RecordsOk, EventsOk, SourcesOk, EventRulesApply;
    MentionedRecords();
    MentionedNodes();
    MentionDropped();
    FilterPreservesValidity(MENTIONED, [Context("gemini-cli", "cli")]);
  }

  lemma MentionDropped()
    ensures !EventRulesApply(MENTIONED, [Context("gemini-cli", "cli")])
  {
    assert MENTION in MENTIONED.ir.events && RULE in MENTIONED.ir.activationRules && RULE.id in MENTION.ruleIds;
    assert !AuthorityApplies(MENTIONED.documentAuthorities[RULE.documentId], Context("gemini-cli", "cli"));
  }

  lemma MentionedRecords()
    ensures SourcesOk(MENTIONED.ir.sources) && RecordsOk(MENTIONED.ir) && EventsOk(MENTIONED.ir)
  {
    assert RULE in MENTIONED.ir.activationRules && DOCUMENT in MENTIONED.ir.documents;
    assert SOURCE in MENTIONED.ir.sources && NODE in MENTIONED.ir.nodes;
  }

  lemma MentionedNodes()
    ensures NodesOk(MENTIONED.ir)
  {
    var ir := MENTIONED.ir;
    assert ir.nodes[..0] == [] && ir.sources[..0] == [];
    assert NodeMap([]) == map[] && SourceMap([]) == map[];
    assert NodeMap(ir.nodes) == map[NODE.id := NODE] && SourceMap(ir.sources) == map[SOURCE.id := SOURCE];
    assert SOURCE in ir.sources && NaivePosition(SOURCE.text, 0) == Some(ORIGIN);
    MentionedForest(map[SOURCE.id := Tree(NODE.id, [])], map[NODE.id := NODE], map[SOURCE.id := SOURCE]);
  }

  lemma MentionedForest(forest: map<Id, Tree>, nodes: Nodes, sources: Sources)
    requires forest == map[SOURCE.id := Tree(NODE.id, [])]
    requires nodes == map[NODE.id := NODE] && sources == map[SOURCE.id := SOURCE]
    ensures HasForest(nodes, sources)
  {
    var t := Tree(NODE.id, []);
    assert Ids(t) == {NODE.id} && NodesOf(nodes, SOURCE.id) == {NODE.id};
    assert IsSourceTree(t, SOURCE, nodes);
    assert IsForest(forest, nodes, sources);
  }

  // ---------- laminar ranges ----------

  /**
    In a valid IR two nodes of one source are ancestor and descendant in the tree of that source, one range inside the
    other, or their ranges are disjoint.
   */
  lemma ValidIsLaminar(ir: Ir, a: Node, b: Node) returns (t: Tree, s: Source)
    requires Valid(ir) && a in ir.nodes && b in ir.nodes && a.id != b.id && a.sourceId == b.sourceId
    ensures s in ir.sources && s.id == a.sourceId && IsSourceTree(t, s, NodeMap(ir.nodes))
    ensures || (Below(t, a.id, b.id) && RangeContains(a.range, b.range))
            || (Below(t, b.id, a.id) && RangeContains(b.range, a.range))
            || a.range.end.utf16Offset <= b.range.start.utf16Offset
            || b.range.end.utf16Offset <= a.range.start.utf16Offset
  {
    hide RecordsOk, EventsOk, Matches, Distinct, Nested, Ids, Below, RangeContains;
    var nodes, sources := NodeMap(ir.nodes), SourceMap(ir.sources);
    NodeMapFacts(ir.nodes);
    SourceMapFacts(ir.sources);
    UniqueNode(ir.nodes, nodes[a.id], a);
    UniqueNode(ir.nodes, nodes[b.id], b);
    var forest :| IsForest(forest, nodes, sources);
    t := TreeOf(forest, nodes, sources, a.id);
    s := sources[a.sourceId];
    assert IsSourceTree(forest[a.sourceId], s, nodes);
    assert b.id in NodesOf(nodes, a.sourceId);
    Laminar(t, nodes, a.id, b.id);
  }
}
