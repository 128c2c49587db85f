/** Resolving an organization's policies against repository and command-line overrides. */
module OrganizationPolicy {
  import opened Text
  import opened Utf8
  import opened Sorting
  import DiagnosticFingerprint

  const MAXIMUM_POLICIES := 512
  const COLON: CodeUnit := 0x3a

  datatype Target =
    | Profile(profileId: Text)
    | Surface(surfaceProfileId: Text, surfaceId: Text)
    | Rule(ruleId: Text)
    | Setting(settingId: Text)

  datatype Value =
    | Switch(on: bool)
    | Word(word: Text)
    | Quantity(number: int)
    | RuleValue(maxTokens: Option<int>, severity: Text)

  datatype Authority = Enforced | Default

  datatype Source =
    | Organization(authority: Authority, location: Option<Text>, policyId: Text)
    | Repository(place: Text)
    | Cli(argument: Text)

  datatype Policy = Policy(id: Text, authority: Authority, location: Option<Text>, target: Target, value: Value)

  datatype Override = Override(id: Text, source: Source, target: Target, value: Value)

  datatype Assignment = Assignment(source: Source, target: Target, targetKey: Text, value: Value)

  datatype Action = Confirmed | Overridden | Selected

  datatype Event = Event(action: Action, previousSource: Option<Source>, source: Source, targetKey: Text)

  datatype Resolution = Resolution(assignments: seq<Assignment>, events: seq<Event>)

  function TargetKey(t: Target): Text {
    match t
    case Profile(p) => TextOf("profile:") + p
    case Rule(r) => TextOf("rule:") + r
    case Setting(s) => TextOf("setting:") + s
    case Surface(p, s) => TextOf("surface:") + p + [COLON] + s
  }

  function PolicySource(p: Policy): Source { Organization(p.authority, p.location, p.id) }

  function PolicyAssignment(p: Policy): Assignment
  { Assignment(PolicySource(p), p.target, TargetKey(p.target), p.value) }

  function OverrideAssignment(o: Override): Assignment { Assignment(o.source, o.target, TargetKey(o.target), o.value) }

  // ---------- what the layers say about one target ----------

  function PolicyAt(ps: seq<Policy>, k: Text): Option<Policy> {
    if ps == [] then None
    else if TargetKey(ps[|ps| - 1].target) == k then Some(ps[|ps| - 1])
    else PolicyAt(ps[..|ps| - 1], k)
  }

  function OverrideAt(layer: seq<Override>, k: Text): Option<Override> {
    if layer == [] then None
    else if TargetKey(layer[|layer| - 1].target) == k then Some(layer[|layer| - 1])
    else OverrideAt(layer[..|layer| - 1], k)
  }

  /** The three layers of one resolution. */
  datatype Layers = Layers(policies: seq<Policy>, repository: seq<Override>, cli: seq<Override>) {
    /** The enforced policy of a target, if it has one. */
    function EnforcedAt(k: Text): Option<Policy> {
      var p := PolicyAt(policies, k);
      if p.Some? && p.value.authority.Enforced? then p else None
    }

    /** Enforced policy, else command line, else repository, else default policy. */
    function Final(k: Text): Option<Assignment> {
      if EnforcedAt(k).Some? then Some(PolicyAssignment(EnforcedAt(k).value))
      else if OverrideAt(cli, k).Some? then Some(OverrideAssignment(OverrideAt(cli, k).value))
      else if OverrideAt(repository, k).Some? then Some(OverrideAssignment(OverrideAt(repository, k).value))
      else if PolicyAt(policies, k).Some? then Some(PolicyAssignment(PolicyAt(policies, k).value))
      else None
    }

    function PolicySourceAt(k: Text): Option<Source> {
      if PolicyAt(policies, k).Some? then Some(PolicySource(PolicyAt(policies, k).value)) else None
    }

    /** What an override of the target does, if the given source was in effect before it. */
    function OverrideEvent(k: Text, before: Option<Source>, source: Source): Event {
      if EnforcedAt(k).Some? then Event(Confirmed, Some(PolicySource(EnforcedAt(k).value)), source, k)
      else Event(if before.None? then Selected else Overridden, before, source, k)
    }

    /** The story of one target, in the order of the layers. */
    function Log(k: Text): seq<Event> {
      var p, r, c := PolicySourceAt(k), OverrideAt(repository, k), OverrideAt(cli, k);
      (if p.Some? then [Event(Selected, None, p.value, k)] else [])
      + (if r.Some? then [OverrideEvent(k, p, r.value.source)] else [])
      + (if c.Some? then [OverrideEvent(k, if r.Some? then Some(r.value.source) else p, c.value.source)] else [])
    }

    /** An override that differs from an enforced value. */
    ghost predicate IsConflict(o: Override) {
      var p := EnforcedAt(TargetKey(o.target));
      p.Some? && p.value.value != o.value
    }

    ghost predicate Conflicting() {
      (exists o :: o in repository && IsConflict(o)) || (exists o :: o in cli && IsConflict(o))
    }

    /** Distinct targets within each layer, and sources of the right kind. */
    ghost predicate Valid() {
      && (forall i, j | 0 <= i < j < |policies| :: TargetKey(policies[i].target) != TargetKey(policies[j].target))
      && ValidLayer(repository) && (forall o | o in repository :: o.source.Repository?)
      && ValidLayer(cli) && (forall o | o in cli :: o.source.Cli?)
    }
  }

  ghost predicate ValidLayer(layer: seq<Override>) {
    forall i, j | 0 <= i < j < |layer| :: TargetKey(layer[i].target) != TargetKey(layer[j].target)
  }

  // ---------- sorting keys ----------

  function AssignmentKey(a: Assignment): seq<int> { a.targetKey }

  function SourceRank(s: Source): nat {
    match s
    case Organization(_, _, _) => 0
    case Repository(_) => 1
    case Cli(_) => 2
  }

  function ActionRank(a: Action): nat {
    match a
    case Confirmed => 0
    case Overridden => 1
    case Selected => 2
  }

  /** Comparing these keys compares targets first, then ranks, then actions: -1 is below every code unit. */
  function EventKey(e: Event): seq<int> {
    var k: seq<int> := e.targetKey;
    k + [-1 as int, SourceRank(e.source), ActionRank(e.action)]
  }

  /** Likewise target first, then identifier. */
  function OverrideKey(o: Override): seq<int> {
    var k: seq<int> := TargetKey(o.target);
    k + [-1 as int] + o.id
  }

  // ---------- the resolution ----------

  /** What a resolution of the layers is. */
  ghost predicate Resolves(l: Layers, r: Option<Resolution>) {
    && (r.None? <==> l.Conflicting())
    && (r.Some? ==>
          && StrictlyOrdered(AssignmentKey, r.value.assignments)
          && (forall a :: a in r.value.assignments <==> l.Final(a.targetKey) == Some(a))
          && StrictlyOrdered(EventKey, r.value.events)
          && (forall e :: e in r.value.events <==> e in l.Log(e.targetKey)))
  }

  /** The state of the loops agrees with the layers read so far. */
  ghost predicate Progress(l: Layers, keys: seq<Text>, assignments: map<Text, Assignment>,
                           enforced: map<Text, Assignment>) {
    && (forall k :: k in keys <==> k in assignments)
    && (forall i, j | 0 <= i < j < |keys| :: keys[i] != keys[j])
    && (forall k :: l.Final(k) == if k in assignments then Some(assignments[k]) else None)
    && (forall k :: k in enforced <==> l.EnforcedAt(k).Some?)
    && (forall k | k in enforced :: enforced[k] == PolicyAssignment(l.EnforcedAt(k).value))
  }

  ghost predicate Logged(l: Layers, events: seq<Event>) {
    (forall e :: e in events <==> e in l.Log(e.targetKey)) && DistinctKeys(EventKey, events)
  }

  lemma EventKeyInjective(e: Event, f: Event)
    requires EventKey(e) == EventKey(f)
    ensures e.targetKey == f.targetKey && SourceRank(e.source) == SourceRank(f.source)
  {
    var x: seq<int> := e.targetKey;
    var y: seq<int> := f.targetKey;
    assert EventKey(e)[..|x|] == x && EventKey(f)[..|y|] == y;
    assert EventKey(e)[|x| + 1] == SourceRank(e.source) && EventKey(f)[|y| + 1] == SourceRank(f.source);
  }

  lemma {:induction false} PolicyAtKey(ps: seq<Policy>, k: Text)
    ensures PolicyAt(ps, k).Some? ==> PolicyAt(ps, k).value in ps && TargetKey(PolicyAt(ps, k).value.target) == k
    ensures PolicyAt(ps, k).None? <==> forall p | p in ps :: TargetKey(p.target) != k
  {
    hide TargetKey;
    if ps != [] {
      PolicyAtKey(ps[..|ps| - 1], k);
      assert ps == ps[..|ps| - 1] + [ps[|ps| - 1]];
    }
  }

  lemma {:induction false} OverrideAtKey(layer: seq<Override>, k: Text)
    ensures OverrideAt(layer, k).Some? ==> (&& OverrideAt(layer, k).value in layer
                                            && TargetKey(OverrideAt(layer, k).value.target) == k)
    ensures OverrideAt(layer, k).None? <==> forall o | o in layer :: TargetKey(o.target) != k
  {
    hide TargetKey;
    if layer != [] {
      OverrideAtKey(layer[..|layer| - 1], k);
      assert layer == layer[..|layer| - 1] + [layer[|layer| - 1]];
    }
  }

  lemma FinalKey(l: Layers, k: Text)
    ensures l.Final(k).Some? ==> l.Final(k).value.targetKey == k
    ensures forall e | e in l.Log(k) :: e.targetKey == k
  {
    hide TargetKey, PolicyAt, OverrideAt;
    PolicyAtKey(l.policies, k);
    OverrideAtKey(l.repository, k);
    OverrideAtKey(l.cli, k);
  }

  lemma LogAppended(l: Layers, l': Layers, events: seq<Event>, e: Event)
    requires Logged(l, events) && (forall k | k != e.targetKey :: l'.Log(k) == l.Log(k))
    requires l'.Log(e.targetKey) == l.Log(e.targetKey) + [e]
    requires forall f | f in l.Log(e.targetKey) :: SourceRank(f.source) < SourceRank(e.source)
    ensures Logged(l', events + [e])
  {
    forall f
      ensures f in events + [e] <==> f in l'.Log(f.targetKey)
    {
      if f.targetKey == e.targetKey {
        assert f in l'.Log(e.targetKey) <==> f in l.Log(e.targetKey) || f == e;
      }
    }
    forall i | 0 <= i < |events|
      ensures EventKey(events[i]) != EventKey(e)
    {
      assert events[i] in events;
      if EventKey(events[i]) == EventKey(e) {
        EventKeyInjective(events[i], e);
      }
    }
  }

  // ---------- policies ----------

  lemma PolicyAdded(l: Layers, l': Layers, p: Policy)
    requires l.repository == [] && l.cli == [] && l' == l.(policies := l.policies + [p])
    requires forall q | q in l.policies :: TargetKey(q.target) != TargetKey(p.target)
    ensures var k := TargetKey(p.target);
      && l.Final(k).None? && l.Log(k) == [] && l'.Final(k) == Some(PolicyAssignment(p))
      && l'.EnforcedAt(k) == (if p.authority.Enforced? then Some(p) else None)
      && l'.Log(k) == [Event(Selected, None, PolicySource(p), k)]
    ensures forall k | k != TargetKey(p.target) ::
              l'.Final(k) == l.Final(k) && l'.EnforcedAt(k) == l.EnforcedAt(k) && l'.Log(k) == l.Log(k)
  {
    hide TargetKey;
    PolicyAtKey(l.policies, TargetKey(p.target));
    assert l'.policies[..|l'.policies| - 1] == l.policies;
  }

  // ---------- overrides ----------

  /** How the layers change when an override is added at the end of one of them. */
  ghost predicate Changed(l: Layers, l': Layers, o: Override) {
    ChangedFinal(l, l', o) && ChangedLog(l, l', o) && (l'.Conflicting() <==> l.Conflicting() || l.IsConflict(o))
  }

  ghost predicate ChangedFinal(l: Layers, l': Layers, o: Override) {
    var k := TargetKey(o.target);
    && (forall j | j != k :: l'.Final(j) == l.Final(j))
    && (forall j :: l'.EnforcedAt(j) == l.EnforcedAt(j))
    && l'.Final(k) == (if l.EnforcedAt(k).Some? then l.Final(k) else Some(OverrideAssignment(o)))
  }

  ghost predicate ChangedLog(l: Layers, l': Layers, o: Override) {
    var k := TargetKey(o.target);
    && (forall j | j != k :: l'.Log(j) == l.Log(j))
    && l'.Log(k) == l.Log(k) + [l.OverrideEvent(k, if l.Final(k).Some? then Some(l.Final(k).value.source) else None,
                                                o.source)]
    && (forall e | e in l.Log(k) :: SourceRank(e.source) < SourceRank(o.source))
  }

  ghost predicate Fresh(layer: seq<Override>, o: Override) {
    forall q | q in layer :: TargetKey(q.target) != TargetKey(o.target)
  }

  lemma OverrideAppended(layer: seq<Override>, o: Override, k: Text)
    ensures OverrideAt(layer + [o], k) == if TargetKey(o.target) == k then Some(o) else OverrideAt(layer, k)
  {
    assert (layer + [o])[..|layer|] == layer;
  }

  lemma ConflictAdded(l: Layers, l': Layers, o: Override)
    requires l'.policies == l.policies
    requires l' == l.(repository := l.repository + [o]) || l' == l.(cli := l.cli + [o])
    ensures l'.Conflicting() <==> l.Conflicting() || l.IsConflict(o)
  {
    hide TargetKey, PolicyAt;
    assert forall q :: l'.IsConflict(q) == l.IsConflict(q);
    if l.IsConflict(o) {
      assert o in l'.repository || o in l'.cli;
    }
  }

  lemma RepositoryAdded(l: Layers, o: Override)
    requires l.cli == [] && Fresh(l.repository, o) && o.source.Repository?
    ensures Changed(l, l.(repository := l.repository + [o]), o)
  {
    hide TargetKey, PolicyAt, OverrideAt, Layers.Conflicting;
    var l' := l.(repository := l.repository + [o]);
    forall k
      ensures OverrideAt(l'.repository, k) == if TargetKey(o.target) == k then Some(o) else OverrideAt(l.repository, k)
    {
      OverrideAppended(l.repository, o, k);
    }
    OverrideAtKey(l.repository, TargetKey(o.target));
    OverrideAtKey(l.cli, TargetKey(o.target));
    ConflictAdded(l, l', o);
  }

  lemma CliAdded(l: Layers, o: Override)
    requires Fresh(l.cli, o) && o.source.Cli? && forall q | q in l.repository :: q.source.Repository?
    ensures Changed(l, l.(cli := l.cli + [o]), o)
  {
    hide TargetKey, PolicyAt, OverrideAt, ChangedFinal, ChangedLog, Layers.Conflicting;
    var l' := l.(cli := l.cli + [o]);
    forall k
      ensures OverrideAt(l'.cli, k) == if TargetKey(o.target) == k then Some(o) else OverrideAt(l.cli, k)
    {
      OverrideAppended(l.cli, o, k);
    }
    OverrideAtKey(l.cli, TargetKey(o.target));
    OverrideAtKey(l.repository, TargetKey(o.target));
    CliFinal(l, l', o);
    CliLog(l, l', o);
    ConflictAdded(l, l', o);
  }

  /** The command-line layer gains one override. */
  ghost predicate CliGains(l: Layers, l': Layers, o: Override) {
    && l'.policies == l.policies && l'.repository == l.repository && OverrideAt(l.cli, TargetKey(o.target)).None?
    && forall k :: OverrideAt(l'.cli, k) == if TargetKey(o.target) == k then Some(o) else OverrideAt(l.cli, k)
  }

  lemma CliFinal(l: Layers, l': Layers, o: Override)
    requires CliGains(l, l', o)
    ensures ChangedFinal(l, l', o)
  {
    hide TargetKey, PolicyAt, OverrideAt;
  }

  lemma CliLog(l: Layers, l': Layers, o: Override)
    requires CliGains(l, l', o) && o.source.Cli?
    requires var r := OverrideAt(l.repository, TargetKey(o.target)); r.Some? ==> r.value.source.Repository?
    ensures ChangedLog(l, l', o)
  {
    hide TargetKey, PolicyAt, OverrideAt;
  }

  /** One turn of the loop over the overrides. */
  method ApplyOverride(ghost l: Layers, ghost l': Layers, o: Override, keys: seq<Text>,
                       assignments: map<Text, Assignment>, enforced: map<Text, Assignment>, events: seq<Event>,
                       conflict: bool)
    returns (keys': seq<Text>, assignments': map<Text, Assignment>, events': seq<Event>, conflict': bool)
    requires Changed(l, l', o) && Progress(l, keys, assignments, enforced)
    requires conflict == l.Conflicting() && (!conflict ==> Logged(l, events))
    ensures Progress(l', keys', assignments', enforced)
    ensures conflict' == l'.Conflicting() && (!conflict' ==> Logged(l', events'))
  {
    hide TargetKey, Logged, PolicyAt, OverrideAt, Layers.Log, Layers.Conflicting, Layers.Final, Layers.EnforcedAt;
    keys', assignments', events', conflict' := keys, assignments, events, conflict;
    var k := TargetKey(o.target);
    if k in enforced {
      var constraint := enforced[k];
      if constraint.value != o.value {
        conflict' := true;
      } else {
        events' := events + [Event(Confirmed, Some(constraint.source), o.source, k)];
        if !conflict {
          LogAppended(l, l', events, Event(Confirmed, Some(constraint.source), o.source, k));
        }
      }
      return;
    }
    var previous := if k in assignments then Some(assignments[k].source) else None;
    if k !in assignments {
      keys' := keys + [k];
    }
    assignments' := assignments[k := Assignment(o.source, o.target, k, o.value)];
    var event := Event(if previous.None? then Selected else Overridden, previous, o.source, k);
    events' := events + [event];
    if !conflict {
      LogAppended(l, l', events, event);
    }
  }

  lemma PrefixesValid(l: Layers, i: nat)
    requires l.Valid()
    ensures i < |l.policies| ==> forall q | q in l.policies[..i] ::
              TargetKey(q.target) != TargetKey(l.policies[i].target)
    ensures i < |l.repository| ==> Fresh(l.repository[..i], l.repository[i]) && l.repository[i].source.Repository?
    ensures i < |l.cli| ==> Fresh(l.cli[..i], l.cli[i]) && l.cli[i].source.Cli?
  {
    hide TargetKey;
    if i < |l.repository| {
      assert l.repository[i] in l.repository;
    }
    if i < |l.cli| {
      assert l.cli[i] in l.cli;
    }
  }

  lemma NothingRead()
    ensures Progress(Layers([], [], []), [], map[], map[]) && Logged(Layers([], [], []), [])
  {
    forall e: Event
      ensures e !in Layers([], [], []).Log(e.targetKey)
    {
    }
  }

  lemma NoOverrides(l: Layers)
    requires l.repository == [] && l.cli == []
    ensures !l.Conflicting()
  {
  }

  lemma PolicyProgress(l: Layers, l': Layers, p: Policy, keys: seq<Text>, assignments: map<Text, Assignment>,
                       enforced: map<Text, Assignment>)
    requires Progress(l, keys, assignments, enforced) && l.Final(TargetKey(p.target)).None?
    requires l'.Final(TargetKey(p.target)) == Some(PolicyAssignment(p))
    requires l'.EnforcedAt(TargetKey(p.target)) == if p.authority.Enforced? then Some(p) else None
    requires forall k | k != TargetKey(p.target) :: l'.Final(k) == l.Final(k) && l'.EnforcedAt(k) == l.EnforcedAt(k)
    ensures var k := TargetKey(p.target);
      Progress(l', keys + [k], assignments[k := PolicyAssignment(p)],
               if p.authority.Enforced? then enforced[k := PolicyAssignment(p)] else enforced)
  {
    hide TargetKey, Layers.Final;
    var k := TargetKey(p.target);
    assert k !in assignments && k !in keys;
    assert k in enforced ==> l.EnforcedAt(k).Some?;
    NotEnforced(l, k);
  }

  lemma NotEnforced(l: Layers, k: Text)
    requires l.Final(k).None?
    ensures l.EnforcedAt(k).None?
  {
  }

  method ReadPolicies(policies: seq<Policy>)
    returns (keys: seq<Text>, assignments: map<Text, Assignment>, enforced: map<Text, Assignment>, events: seq<Event>)
    requires Layers(policies, [], []).Valid()
    ensures Progress(Layers(policies, [], []), keys, assignments, enforced) && Logged(Layers(policies, [], []), events)
  {
    hide TargetKey, PolicyAt, Logged, Progress, Layers.Valid, Layers.Log, Layers.Final, Layers.EnforcedAt;
    keys, assignments, enforced, events := [], map[], map[], [];
    NothingRead();
    for i := 0 to |policies|
      invariant Progress(Layers(policies[..i], [], []), keys, assignments, enforced)
      invariant Logged(Layers(policies[..i], [], []), events)
    {
      var p := policies[i];
      ghost var l := Layers(policies[..i], [], []);
      assert policies[..i + 1] == policies[..i] + [p];
      PrefixesValid(Layers(policies, [], []), i);
      PolicyAdded(l, Layers(policies[..i + 1], [], []), p);
      LogAppended(l, Layers(policies[..i + 1], [], []), events,
                  Event(Selected, None, PolicySource(p), TargetKey(p.target)));
      var k := TargetKey(p.target);
      var assignment := PolicyAssignment(p);
      PolicyProgress(l, Layers(policies[..i + 1], [], []), p, keys, assignments, enforced);
      keys := keys + [k];
      assignments := assignments[k := assignment];
      events := events + [Event(Selected, None, PolicySource(p), k)];
      if p.authority.Enforced? {
        enforced := enforced[k := assignment];
      }
    }
    assert policies[..|policies|] == policies;
  }

  /** The resolution proper, on layers with distinct targets. */
  method ResolveLayers(l: Layers) returns (r: Option<Resolution>)
    requires l.Valid()
    ensures Resolves(l, r)
  {
    hide TargetKey, Progress, Logged, Changed, PolicyAt, Layers.Conflicting, Layers.Valid, Resolves;
    LayersValid(l);
    var keys, assignments, enforced, events := ReadPolicies(l.policies);
    var conflict := false;
    NoOverrides(Layers(l.policies, [], []));
    assert l.repository[..0] == [];
    for i := 0 to |l.repository|
      invariant Progress(Layers(l.policies, l.repository[..i], []), keys, assignments, enforced)
      invariant conflict == Layers(l.policies, l.repository[..i], []).Conflicting()
      invariant !conflict ==> Logged(Layers(l.policies, l.repository[..i], []), events)
    {
      ghost var before := Layers(l.policies, l.repository[..i], []);
      PrefixesValid(l, i);
      RepositoryAdded(before, l.repository[i]);
      assert l.repository[..i + 1] == l.repository[..i] + [l.repository[i]];
      keys, assignments, events, conflict :=
        ApplyOverride(before, before.(repository := l.repository[..i + 1]), l.repository[i],
                      keys, assignments, enforced, events, conflict);
    }
    assert l.repository[..|l.repository|] == l.repository;
    assert l.cli[..0] == [];
    for i := 0 to |l.cli|
      invariant Progress(Layers(l.policies, l.repository, l.cli[..i]), keys, assignments, enforced)
      invariant conflict == Layers(l.policies, l.repository, l.cli[..i]).Conflicting()
      invariant !conflict ==> Logged(Layers(l.policies, l.repository, l.cli[..i]), events)
    {
      ghost var before := Layers(l.policies, l.repository, l.cli[..i]);
      PrefixesValid(l, i);
      RepositorySources(l);
      CliAdded(before, l.cli[i]);
      assert l.cli[..i + 1] == l.cli[..i] + [l.cli[i]];
      keys, assignments, events, conflict := ApplyOverride(before, before.(cli := l.cli[..i + 1]), l.cli[i],
                                                           keys, assignments, enforced, events, conflict);
    }
    assert l.cli[..|l.cli|] == l.cli;
    if conflict {
      ConflictResolves(l);
      return None;
    }
    SortedResolves(l, keys, assignments, enforced, events);
    return Some(Resolution(SortBy(AssignmentKey, ValuesOf(keys, assignments)), SortBy(EventKey, events)));
  }

  lemma LayersValid(l: Layers)
    requires l.Valid()
    ensures Layers(l.policies, [], []).Valid()
  {
    hide TargetKey;
  }

  lemma RepositorySources(l: Layers)
    requires l.Valid()
    ensures forall o | o in l.repository :: o.source.Repository?
  {
    hide TargetKey;
  }

  lemma ConflictResolves(l: Layers)
    requires l.Conflicting()
    ensures Resolves(l, None)
  {
    hide Layers.Conflicting;
  }

  /** The values of the map, in the order in which their keys were inserted. */
  function ValuesOf(keys: seq<Text>, assignments: map<Text, Assignment>): (r: seq<Assignment>)
    requires forall i | 0 <= i < |keys| :: keys[i] in assignments
    ensures |r| == |keys| && forall i | 0 <= i < |keys| :: r[i] == assignments[keys[i]]
  {
    seq(|keys|, i requires 0 <= i < |keys| => assignments[keys[i]])
  }

  lemma ProgressKeys(l: Layers, keys: seq<Text>, assignments: map<Text, Assignment>, enforced: map<Text, Assignment>)
    requires Progress(l, keys, assignments, enforced)
    ensures forall i | 0 <= i < |keys| :: keys[i] in assignments
  {
    hide Layers.Final, Layers.EnforcedAt;
    forall i | 0 <= i < |keys|
      ensures keys[i] in assignments
    {
      assert keys[i] in keys;
    }
  }

  lemma ValuesExact(l: Layers, keys: seq<Text>, assignments: map<Text, Assignment>, enforced: map<Text, Assignment>)
    requires Progress(l, keys, assignments, enforced) && forall i | 0 <= i < |keys| :: keys[i] in assignments
    ensures var r := ValuesOf(keys, assignments);
      DistinctKeys(AssignmentKey, r) && forall a: Assignment :: a in r <==> l.Final(a.targetKey) == Some(a)
  {
    hide Layers.Final, Layers.EnforcedAt;
    var r := ValuesOf(keys, assignments);
    forall i | 0 <= i < |keys|
      ensures r[i].targetKey == keys[i]
    {
      FinalKey(l, keys[i]);
    }
    forall a: Assignment | l.Final(a.targetKey) == Some(a)
      ensures a in r
    {
      assert a.targetKey in keys;
      var i :| 0 <= i < |keys| && keys[i] == a.targetKey;
      assert r[i] == a;
    }
    forall i, j | 0 <= i < j < |r|
      ensures AssignmentKey(r[i]) != AssignmentKey(r[j])
    {
      assert keys[i] != keys[j];
    }
  }

  lemma SortedResolves(l: Layers, keys: seq<Text>, assignments: map<Text, Assignment>, enforced: map<Text, Assignment>,
                       events: seq<Event>)
    requires Progress(l, keys, assignments, enforced) && Logged(l, events) && !l.Conflicting()
    ensures forall i | 0 <= i < |keys| :: keys[i] in assignments
    ensures Resolves(l, Some(Resolution(SortBy(AssignmentKey, ValuesOf(keys, assignments)), SortBy(EventKey, events))))
  {
    hide Progress, Layers.Final, Layers.Log, Layers.Conflicting, SortBy, DistinctKeys;
    ProgressKeys(l, keys, assignments, enforced);
    ValuesExact(l, keys, assignments, enforced);
    var values := ValuesOf(keys, assignments);
    SortOrdersStrictly(AssignmentKey, values);
    SortPermutes(AssignmentKey, values);
    SameElements(SortBy(AssignmentKey, values), values);
    SortOrdersStrictly(EventKey, events);
    SortPermutes(EventKey, events);
    SameElements(SortBy(EventKey, events), events);
  }

  // ---------- override layers as they come in ----------

  /** An override with what its checks made of its parts: `None` where one is malformed or not registered. */
  datatype RawOverride = RawOverride(id: Text, source: Option<Source>, target: Option<Target>, value: Option<Value>)

  datatype LayerName = RepositoryLayer | CliLayer

  predicate SourceFits(s: Source, name: LayerName) {
    match name
    case RepositoryLayer => s.Repository?
    case CliLayer => s.Cli?
  }

  predicate ValidId(id: Text) { DiagnosticFingerprint.IsIdentifier(id) && |id| <= 256 }

  predicate ValidRaw(o: RawOverride, name: LayerName) {
    ValidId(o.id) && o.source.Some? && SourceFits(o.source.value, name) && o.target.Some? && o.value.Some?
  }

  predicate AcceptableLayer(layer: seq<RawOverride>, name: LayerName) {
    && (forall i | 0 <= i < |layer| :: ValidRaw(layer[i], name))
    && (forall i, j | 0 <= i < j < |layer| :: layer[i].id != layer[j].id)
    && (forall i, j | 0 <= i < j < |layer| :: TargetKey(layer[i].target.value) != TargetKey(layer[j].target.value))
  }

  function Cooked(o: RawOverride): Override
    requires o.source.Some? && o.target.Some? && o.value.Some?
  {
    Override(o.id, o.source.value, o.target.value, o.value.value)
  }

  function CookedLayer(layer: seq<RawOverride>, name: LayerName): (r: seq<Override>)
    requires AcceptableLayer(layer, name)
    ensures |r| == |layer| && forall i | 0 <= i < |layer| :: r[i] == Cooked(layer[i])
  {
    seq(|layer|, i requires 0 <= i < |layer| => Cooked(layer[i]))
  }

  /** The accepted overrides by target and identifier. */
  function ValidatedLayer(layer: seq<RawOverride>, name: LayerName): Option<seq<Override>> {
    if |layer| <= MAXIMUM_POLICIES && AcceptableLayer(layer, name) then
      Some(SortBy(OverrideKey, CookedLayer(layer, name)))
    else None
  }

  /** The identifiers and targets met so far. */
  ghost predicate Seen(layer: seq<RawOverride>, ids: set<Text>, targets: set<Text>, classified: seq<Override>) {
    && |classified| == |layer|
    && (forall i | 0 <= i < |layer| :: layer[i].source.Some? && layer[i].target.Some? && layer[i].value.Some?
                                       && classified[i] == Cooked(layer[i]))
    && ids == (set o | o in layer :: o.id)
    && targets == (set o | o in layer && o.target.Some? :: TargetKey(o.target.value))
  }

  /** Whether one more override keeps the layer acceptable can be read off the two sets. */
  lemma AcceptableStep(layer: seq<RawOverride>, o: RawOverride, name: LayerName, ids: set<Text>, targets: set<Text>,
                       classified: seq<Override>)
    requires AcceptableLayer(layer, name) && Seen(layer, ids, targets, classified) && ValidRaw(o, name)
    ensures AcceptableLayer(layer + [o], name) <==> o.id !in ids && TargetKey(o.target.value) !in targets
  {
    hide TargetKey, ValidId;
    var more := layer + [o];
    assert forall i | 0 <= i < |layer| :: more[i] == layer[i] && layer[i] in layer;
    if o.id in ids {
      var x :| x in layer && x.id == o.id;
      var i :| 0 <= i < |layer| && layer[i] == x;
      assert more[i].id == more[|layer|].id;
    } else if TargetKey(o.target.value) in targets {
      var x :| x in layer && x.target.Some? && TargetKey(x.target.value) == TargetKey(o.target.value);
      var i :| 0 <= i < |layer| && layer[i] == x;
      assert TargetKey(more[i].target.value) == TargetKey(more[|layer|].target.value);
    }
  }

  lemma SeenStep(layer: seq<RawOverride>, o: RawOverride, name: LayerName, ids: set<Text>, targets: set<Text>,
                 classified: seq<Override>)
    requires Seen(layer, ids, targets, classified) && ValidRaw(o, name)
    ensures Seen(layer + [o], ids + {o.id}, targets + {TargetKey(o.target.value)}, classified + [Cooked(o)])
  {
    hide TargetKey, ValidId;
    assert forall x :: x in layer + [o] <==> x in layer || x == o;
  }

  lemma AcceptablePrefix(layer: seq<RawOverride>, name: LayerName, i: nat)
    requires i <= |layer| && AcceptableLayer(layer, name)
    ensures AcceptableLayer(layer[..i], name)
  {
    hide TargetKey, ValidRaw;
    assert forall j | 0 <= j < i :: layer[..i][j] == layer[j];
  }

  method ValidateOverrideLayer(layer: seq<RawOverride>, name: LayerName) returns (r: Option<seq<Override>>)
    ensures r == ValidatedLayer(layer, name)
  {
    hide TargetKey, ValidId, Seen, SourceFits;
    if |layer| > MAXIMUM_POLICIES {
      return None;
    }
    var seenIds: set<Text>, seenTargets: set<Text>, classified: seq<Override> := {}, {}, [];
    var acceptable := true;
    NothingSeen();
    for i := 0 to |layer|
      invariant acceptable == AcceptableLayer(layer[..i], name)
      invariant acceptable ==> Seen(layer[..i], seenIds, seenTargets, classified)
    {
      var o := layer[i];
      assert layer[..i + 1] == layer[..i] + [o];
      if !ValidRaw(o, name) {
        assert layer[..i + 1][i] == o;
        acceptable := false;
      } else {
        if acceptable {
          AcceptableStep(layer[..i], o, name, seenIds, seenTargets, classified);
          SeenStep(layer[..i], o, name, seenIds, seenTargets, classified);
        } else {
          assert layer[..i + 1][..i] == layer[..i];
          if AcceptableLayer(layer[..i + 1], name) {
            AcceptablePrefix(layer[..i + 1], name, i);
          }
        }
        if o.id in seenIds || TargetKey(o.target.value) in seenTargets {
          acceptable := false;
        }
        seenIds := seenIds + {o.id};
        seenTargets := seenTargets + {TargetKey(o.target.value)};
        classified := classified + [Cooked(o)];
      }
    }
    assert layer[..|layer|] == layer;
    if acceptable {
      SeenAll(layer, name, seenIds, seenTargets, classified);
      r := Some(SortBy(OverrideKey, classified));
    } else {
      r := None;
    }
  }

  lemma NothingSeen()
    ensures Seen([], {}, {}, [])
  {
  }

  lemma SeenAll(layer: seq<RawOverride>, name: LayerName, ids: set<Text>, targets: set<Text>, classified: seq<Override>)
    requires AcceptableLayer(layer, name) && Seen(layer, ids, targets, classified)
    ensures classified == CookedLayer(layer, name)
  {
    hide TargetKey;
  }
}
