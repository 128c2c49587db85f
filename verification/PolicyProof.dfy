/** What a resolution of organization policies promises. */
module PolicyProof {
  import opened Text
  import opened Utf8
  import opened Sorting
  import opened Separated
  import opened OrganizationPolicy
  import Semver
  import DiagnosticFingerprint

  // ---------- target keys ----------

  /** The identifiers of profiles come from a fixed list in which no identifier has a colon. */
  predicate Registered(t: Target) {
    match t
    case Profile(p) => COLON !in p
    case Surface(p, _) => COLON !in p
    case _ => true
  }

  /** The first two code units of a key tell the kinds of targets apart. */
  function Tag(t: Target): (int, int) {
    match t
    case Profile(_) => (0x70, 0x72)
    case Rule(_) => (0x72, 0x75)
    case Setting(_) => (0x73, 0x65)
    case Surface(_, _) => (0x73, 0x75)
  }

  lemma KeyTag(t: Target)
    ensures |TargetKey(t)| > 2 && (TargetKey(t)[0] as int, TargetKey(t)[1] as int) == Tag(t)
  {
    hide TextOf;
    AsciiAt("profile:", 0);
    AsciiAt("profile:", 1);
    AsciiAt("rule:", 0);
    AsciiAt("rule:", 1);
    AsciiAt("setting:", 0);
    AsciiAt("setting:", 1);
    AsciiAt("surface:", 0);
    AsciiAt("surface:", 1);
  }

  lemma AfterPrefix(a: Text, b: Text, prefix: Text)
    requires prefix + a == prefix + b
    ensures a == b
  {
    assert a == (prefix + a)[|prefix|..] && b == (prefix + b)[|prefix|..];
  }

  /** Different registered targets have different keys. */
  lemma TargetKeyInjective(s: Target, t: Target)
    requires Registered(s) && Registered(t) && TargetKey(s) == TargetKey(t)
    ensures s == t
  {
    hide TextOf;
    KeyTag(s);
    KeyTag(t);
    match s {
      case Profile(p) => AfterPrefix(p, t.profileId, TextOf("profile:"));
      case Rule(r) => AfterPrefix(r, t.ruleId, TextOf("rule:"));
      case Setting(x) => AfterPrefix(x, t.settingId, TextOf("setting:"));
      case Surface(p, x) =>
        var q, y := t.surfaceProfileId, t.surfaceId;
        assert TargetKey(s) == TextOf("surface:") + (p + [COLON] + x);
        assert TargetKey(t) == TextOf("surface:") + (q + [COLON] + y);
        AfterPrefix(p + [COLON] + x, q + [COLON] + y, TextOf("surface:"));
        FirstAtEnd(COLON, p, x);
        FirstAtEnd(COLON, q, y);
        assert p == (p + [COLON] + x)[..|p|] && q == (q + [COLON] + y)[..|q|];
        AfterPrefix(x, y, p + [COLON]);
    }
  }

  // ---------- one resolution, whatever the order ----------

  /** The layers determine the resolution. */
  lemma ResolutionUnique(l: Layers, r: Option<Resolution>, r': Option<Resolution>)
    requires Resolves(l, r) && Resolves(l, r')
    ensures r == r'
  {
    hide Layers.Final, Layers.Log, Layers.Conflicting;
    if r.Some? {
      StrictlyOrderedUnique(AssignmentKey, r.value.assignments, r'.value.assignments);
      StrictlyOrderedUnique(EventKey, r.value.events, r'.value.events);
    }
  }

  lemma PolicyAtUnique(ps: seq<Policy>, p: Policy)
    requires forall i, j | 0 <= i < j < |ps| :: TargetKey(ps[i].target) != TargetKey(ps[j].target)
    ensures p in ps <==> PolicyAt(ps, TargetKey(p.target)) == Some(p)
  {
    hide TargetKey;
    var k := TargetKey(p.target);
    PolicyAtKey(ps, k);
    if p in ps {
      var q := PolicyAt(ps, k).value;
      var i :| 0 <= i < |ps| && ps[i] == p;
      var j :| 0 <= j < |ps| && ps[j] == q;
      assert i == j;
    }
  }

  lemma OverrideAtUnique(layer: seq<Override>, o: Override)
    requires ValidLayer(layer)
    ensures o in layer <==> OverrideAt(layer, TargetKey(o.target)) == Some(o)
  {
    hide TargetKey;
    var k := TargetKey(o.target);
    OverrideAtKey(layer, k);
    if o in layer {
      var q := OverrideAt(layer, k).value;
      var i :| 0 <= i < |layer| && layer[i] == o;
      var j :| 0 <= j < |layer| && layer[j] == q;
      assert i == j;
    }
  }

  lemma PolicyAtPermuted(ps: seq<Policy>, qs: seq<Policy>, k: Text)
    requires forall p :: p in ps <==> p in qs
    requires forall i, j | 0 <= i < j < |ps| :: TargetKey(ps[i].target) != TargetKey(ps[j].target)
    requires forall i, j | 0 <= i < j < |qs| :: TargetKey(qs[i].target) != TargetKey(qs[j].target)
    ensures PolicyAt(ps, k) == PolicyAt(qs, k)
  {
    hide TargetKey, PolicyAt;
    PolicyAtKey(ps, k);
    PolicyAtKey(qs, k);
    if PolicyAt(ps, k).Some? {
      PolicyAtUnique(qs, PolicyAt(ps, k).value);
    } else if PolicyAt(qs, k).Some? {
      PolicyAtUnique(ps, PolicyAt(qs, k).value);
    }
  }

  lemma OverrideAtPermuted(a: seq<Override>, b: seq<Override>, k: Text)
    requires ValidLayer(a) && ValidLayer(b) && forall o :: o in a <==> o in b
    ensures OverrideAt(a, k) == OverrideAt(b, k)
  {
    hide TargetKey, OverrideAt, ValidLayer;
    OverrideAtKey(a, k);
    OverrideAtKey(b, k);
    if OverrideAt(a, k).Some? {
      OverrideAtUnique(b, OverrideAt(a, k).value);
    } else if OverrideAt(b, k).Some? {
      OverrideAtUnique(a, OverrideAt(b, k).value);
    }
  }

  ghost predicate Permuted(l: Layers, l': Layers) {
    && multiset(l.policies) == multiset(l'.policies)
    && multiset(l.repository) == multiset(l'.repository) && multiset(l.cli) == multiset(l'.cli)
  }

  lemma PermutedAt(l: Layers, l': Layers, k: Text)
    requires l.Valid() && l'.Valid() && Permuted(l, l')
    ensures PolicyAt(l.policies, k) == PolicyAt(l'.policies, k)
    ensures OverrideAt(l.repository, k) == OverrideAt(l'.repository, k) && OverrideAt(l.cli, k) == OverrideAt(l'.cli, k)
  {
    hide TargetKey, PolicyAt, OverrideAt, ValidLayer;
    SameElements(l.policies, l'.policies);
    SameElements(l.repository, l'.repository);
    SameElements(l.cli, l'.cli);
    PolicyAtPermuted(l.policies, l'.policies, k);
    OverrideAtPermuted(l.repository, l'.repository, k);
    OverrideAtPermuted(l.cli, l'.cli, k);
  }

  lemma PermutedSame(l: Layers, l': Layers, k: Text)
    requires l.Valid() && l'.Valid() && Permuted(l, l')
    ensures l.Final(k) == l'.Final(k) && l.Log(k) == l'.Log(k) && l.EnforcedAt(k) == l'.EnforcedAt(k)
  {
    hide TargetKey, PolicyAt, OverrideAt, ValidLayer, Layers.Valid;
    PermutedAt(l, l', k);
  }

  lemma PermutedConflicting(l: Layers, l': Layers)
    requires l.Valid() && l'.Valid() && Permuted(l, l') && l.Conflicting()
    ensures l'.Conflicting()
  {
    hide TargetKey, PolicyAt, Layers.Valid;
    SameElements(l.repository, l'.repository);
    SameElements(l.cli, l'.cli);
    var o :| (o in l.repository || o in l.cli) && l.IsConflict(o);
    PermutedSame(l, l', TargetKey(o.target));
    ConflictMeans(l, o);
    ConflictMeans(l', o);
  }

  lemma ConflictMeans(l: Layers, o: Override)
    ensures l.IsConflict(o) <==>
            var p := PolicyAt(l.policies, TargetKey(o.target));
            p.Some? && p.value.authority.Enforced? && p.value.value != o.value
    ensures l.IsConflict(o) <==>
            var p := l.EnforcedAt(TargetKey(o.target));
            p.Some? && p.value.value != o.value
  {
  }

  /** The order within each layer makes no difference. */
  lemma OrderIndependent(l: Layers, r: Option<Resolution>, l': Layers, r': Option<Resolution>)
    requires l.Valid() && l'.Valid() && Permuted(l, l') && Resolves(l, r) && Resolves(l', r')
    ensures r == r'
  {
    hide TargetKey, PolicyAt, Layers.Valid, Layers.Final, Layers.Log, Layers.EnforcedAt, Layers.Conflicting, Permuted;
    if l.Conflicting() {
      PermutedConflicting(l, l');
    } else if l'.Conflicting() {
      PermutedBack(l, l');
      PermutedConflicting(l', l);
    } else {
      forall k
        ensures l.Final(k) == l'.Final(k) && l.Log(k) == l'.Log(k)
      {
        PermutedSame(l, l', k);
      }
      assert Resolves(l, r');
      ResolutionUnique(l, r, r');
    }
  }

  lemma PermutedBack(l: Layers, l': Layers)
    requires Permuted(l, l')
    ensures Permuted(l', l)
  {
  }

  // ---------- replaying the log ----------

  /** The events of one target, in the order in which they stand. */
  function EventsAt(events: seq<Event>, k: Text): seq<Event> {
    if events == [] then []
    else (if events[0].targetKey == k then [events[0]] else []) + EventsAt(events[1..], k)
  }

  lemma {:induction false} EventsAtExact(events: seq<Event>, k: Text)
    ensures forall e :: e in EventsAt(events, k) <==> e in events && e.targetKey == k
    ensures StrictlyOrdered(EventKey, events) ==> StrictlyOrdered(EventKey, EventsAt(events, k))
  {
    hide EventKey;
    if events != [] {
      EventsAtExact(events[1..], k);
      assert events == [events[0]] + events[1..];
      if StrictlyOrdered(EventKey, events) {
        forall i | 0 <= i < |EventsAt(events[1..], k)|
          ensures Less(EventKey(events[0]), EventKey(EventsAt(events[1..], k)[i]))
        {
          var e := EventsAt(events[1..], k)[i];
          assert e in events[1..];
          var j :| 0 <= j < |events[1..]| && events[1..][j] == e;
          assert events[j + 1] == e;
        }
      }
    }
  }

  lemma {:induction false} LaterRank(a: seq<int>, x: int, y: int, b: seq<int>, c: seq<int>)
    requires x < y
    ensures Less(a + [x] + b, a + [y] + c)
  {
    if a != [] {
      LaterRank(a[1..], x, y, b, c);
      assert (a + [x] + b)[1..] == a[1..] + [x] + b && (a + [y] + c)[1..] == a[1..] + [y] + c;
    }
  }

  lemma RankOrders(e: Event, f: Event)
    requires e.targetKey == f.targetKey && SourceRank(e.source) < SourceRank(f.source)
    ensures Less(EventKey(e), EventKey(f))
  {
    var k: seq<int> := e.targetKey;
    LaterRank(k + [-1 as int], SourceRank(e.source), SourceRank(f.source), [ActionRank(e.action)],
              [ActionRank(f.action)]);
    assert EventKey(e) == (k + [-1 as int]) + [SourceRank(e.source) as int] + [ActionRank(e.action) as int];
    assert EventKey(f) == (k + [-1 as int]) + [SourceRank(f.source) as int] + [ActionRank(f.action) as int];
  }

  lemma LogStrict(l: Layers, k: Text)
    requires l.Valid()
    ensures StrictlyOrdered(EventKey, l.Log(k)) && forall e | e in l.Log(k) :: e.targetKey == k
  {
    hide TargetKey, PolicyAt, OverrideAt, EventKey, ValidLayer;
    FinalKey(l, k);
    OverrideAtKey(l.repository, k);
    OverrideAtKey(l.cli, k);
    var log := l.Log(k);
    forall i, j | 0 <= i < j < |log|
      ensures Less(EventKey(log[i]), EventKey(log[j]))
    {
      assert log[i] in log && log[j] in log;
      RankOrders(log[i], log[j]);
    }
  }

  /** Each event names the source in effect before it; a confirmation leaves that source in effect. */
  predicate Replays(log: seq<Event>, before: Option<Source>, after: Option<Source>) {
    if log == [] then before == after
    else
      && log[0].previousSource == before
      && (log[0].action.Selected? ==> before.None?) && (!log[0].action.Selected? ==> before.Some?)
      && Replays(log[1..], if log[0].action.Confirmed? then before else Some(log[0].source), after)
  }

  lemma ReplayStep(log: seq<Event>, e: Event, before: Option<Source>, after: Option<Source>)
    requires log != [] && log[0] == e && e.previousSource == before && (e.action.Selected? <==> before.None?)
    requires Replays(log[1..], if e.action.Confirmed? then before else Some(e.source), after)
    ensures Replays(log, before, after)
  {
  }

  /** The part of the log that starts at the given layer. */
  lemma CliReplays(l: Layers, k: Text, log: seq<Event>, before: Option<Source>)
    requires before == (if OverrideAt(l.repository, k).Some? && l.EnforcedAt(k).None? then
                          Some(OverrideAt(l.repository, k).value.source)
                        else l.PolicySourceAt(k))
    requires log == if OverrideAt(l.cli, k).None? then [] else
               [l.OverrideEvent(k, if OverrideAt(l.repository, k).Some? then
                                     Some(OverrideAt(l.repository, k).value.source)
                                   else l.PolicySourceAt(k), OverrideAt(l.cli, k).value.source)]
    ensures Replays(log, before, if l.Final(k).Some? then Some(l.Final(k).value.source) else None)
  {
    hide TargetKey, PolicyAt, OverrideAt;
    if log != [] {
      ReplayStep(log, log[0], before, if l.Final(k).Some? then Some(l.Final(k).value.source) else None);
    }
  }

  lemma LogReplays(l: Layers, k: Text)
    ensures Replays(l.Log(k), None, if l.Final(k).Some? then Some(l.Final(k).value.source) else None)
  {
    hide TargetKey, PolicyAt, OverrideAt, Layers.Final, Replays;
    var after := if l.Final(k).Some? then Some(l.Final(k).value.source) else None;
    var p, r, c := l.PolicySourceAt(k), OverrideAt(l.repository, k), OverrideAt(l.cli, k);
    var last := if c.None? then []
                else [l.OverrideEvent(k, if r.Some? then Some(r.value.source) else p, c.value.source)];
    var middle := (if r.Some? then [l.OverrideEvent(k, p, r.value.source)] else []) + last;
    CliReplays(l, k, last, if r.Some? && l.EnforcedAt(k).None? then Some(r.value.source) else p);
    if r.Some? {
      assert middle[1..] == last;
      ReplayStep(middle, l.OverrideEvent(k, p, r.value.source), p, after);
    } else {
      assert middle == last;
    }
    var log := l.Log(k);
    if p.Some? {
      assert log == [Event(Selected, None, p.value, k)] + middle;
      ReplayStep(log, Event(Selected, None, p.value, k), None, after);
    } else {
      assert log == middle;
    }
  }

  /** In a resolution the events of each target, as they stand, replay from nothing to the final assignment. */
  lemma EventsReplay(l: Layers, r: Resolution, k: Text)
    requires l.Valid() && Resolves(l, Some(r))
    ensures EventsAt(r.events, k) == l.Log(k)
    ensures Replays(EventsAt(r.events, k), None, if l.Final(k).Some? then Some(l.Final(k).value.source) else None)
  {
    hide TargetKey, Layers.Final, Layers.Log, Layers.Valid, Layers.Conflicting, EventKey, Replays;
    EventsAtExact(r.events, k);
    LogStrict(l, k);
    forall e
      ensures e in EventsAt(r.events, k) <==> e in l.Log(k)
    {
      if e in l.Log(k) {
        assert e.targetKey == k;
      }
    }
    StrictlyOrderedUnique(EventKey, EventsAt(r.events, k), l.Log(k));
    LogReplays(l, k);
  }

  /**
    Each event of a target names the source of the event before it, except when an enforced policy is confirmed by both
    layers: then the second confirmation names the organization again.
   */
  lemma EventsChainExactly(l: Layers, r: Resolution, k: Text)
    requires l.Valid() && Resolves(l, Some(r))
    ensures Chains(EventsAt(r.events, k)) <==>
            !(l.EnforcedAt(k).Some? && OverrideAt(l.repository, k).Some? && OverrideAt(l.cli, k).Some?)
  {
    hide TargetKey, Layers.Valid, Layers.Conflicting, EventKey, Replays, PolicyAt, OverrideAt;
    EventsReplay(l, r, k);
    LayersFit(l);
    OverrideAtKey(l.repository, k);
    PolicyAtKey(l.policies, k);
    var log := EventsAt(r.events, k);
    if l.EnforcedAt(k).Some? && OverrideAt(l.repository, k).Some? && OverrideAt(l.cli, k).Some? {
      assert log[2].previousSource == l.PolicySourceAt(k) && log[1].source.Repository?;
    }
  }

  /** Every event but the first names the source of the one before it. */
  predicate Chains(log: seq<Event>) {
    forall i | 0 < i < |log| :: log[i].previousSource == Some(log[i - 1].source)
  }

  lemma LayersFit(l: Layers)
    requires l.Valid()
    ensures forall o | o in l.repository :: o.source.Repository?
  {
  }

  const ENFORCED := Policy(TextOf("policy"), Enforced, None, Rule(TextOf("rule")), Switch(true))
  const BY_REPOSITORY := Override(TextOf("repository"), Repository(TextOf("file")), Rule(TextOf("rule")), Switch(true))
  const BY_CLI := Override(TextOf("cli"), Cli(TextOf("flag")), Rule(TextOf("rule")), Switch(true))

  /** An enforced policy that the repository and the command line both confirm. */
  const CONFIRMED_TWICE := Layers([ENFORCED], [BY_REPOSITORY], [BY_CLI])

  /** The layers are valid and resolve, and the second confirmation names the organization again. */
  lemma SecondConfirmationNamesPolicy()
    ensures var l, k := CONFIRMED_TWICE, TargetKey(ENFORCED.target);
      && l.Valid() && !l.Conflicting()
      && l.Log(k) == [Event(Selected, None, PolicySource(ENFORCED), k),
                      Event(Confirmed, Some(PolicySource(ENFORCED)), BY_REPOSITORY.source, k),
                      Event(Confirmed, Some(PolicySource(ENFORCED)), BY_CLI.source, k)]
      && !Chains(l.Log(k))
  {
    hide TargetKey, TextOf, PolicyAt, OverrideAt;
    var l, k := CONFIRMED_TWICE, TargetKey(ENFORCED.target);
    OnlyOne(ENFORCED, BY_REPOSITORY);
    OnlyOne(ENFORCED, BY_CLI);
    assert l.Log(k)[2].previousSource != Some(l.Log(k)[1].source);
  }

  lemma OnlyOne(p: Policy, o: Override)
    ensures PolicyAt([p], TargetKey(p.target)) == Some(p) && OverrideAt([o], TargetKey(o.target)) == Some(o)
  {
    hide TargetKey;
  }

  /** Resolution fails exactly when an override of some target differs from the value enforced for it. */
  lemma FailsExactly(l: Layers, r: Option<Resolution>)
    requires l.Valid() && Resolves(l, r)
    ensures r.None? <==> exists p, o :: p in l.policies && p.authority.Enforced? && (o in l.repository || o in l.cli)
                                        && TargetKey(o.target) == TargetKey(p.target) && o.value != p.value
  {
    hide TargetKey, ValidLayer;
    if r.None? {
      var o :| (o in l.repository || o in l.cli) && l.IsConflict(o);
      ConflictMeans(l, o);
      PolicyAtKey(l.policies, TargetKey(o.target));
      var p := PolicyAt(l.policies, TargetKey(o.target)).value;
      assert p in l.policies && p.authority.Enforced? && o.value != p.value;
    }
    if p, o :| p in l.policies && p.authority.Enforced? && (o in l.repository || o in l.cli)
               && TargetKey(o.target) == TargetKey(p.target) && o.value != p.value {
      PolicyAtUnique(l.policies, p);
      ConflictMeans(l, o);
      assert l.IsConflict(o);
    }
  }

  // ---------- from untrusted layers to a resolution ----------

  lemma OverrideKeysDistinct(layer: seq<RawOverride>, name: LayerName)
    requires AcceptableLayer(layer, name)
    ensures DistinctKeys(OverrideKey, CookedLayer(layer, name))
  {
    hide TargetKey, ValidId;
    var r := CookedLayer(layer, name);
    forall i, j | 0 <= i < j < |r|
      ensures OverrideKey(r[i]) != OverrideKey(r[j])
    {
      if OverrideKey(r[i]) == OverrideKey(r[j]) {
        OverrideKeyTarget(r[i], r[j]);
      }
    }
  }

  lemma ShorterKeyDiffers(a: seq<int>, x: seq<int>, b: Text, y: seq<int>)
    requires |a| < |b|
    ensures var k: seq<int> := b; a + [-1 as int] + x != k + [-1 as int] + y
  {
    var k: seq<int> := b;
    assert (a + [-1 as int] + x)[|a|] == -1;
    assert (k + [-1 as int] + y)[|a|] == b[|a|];
  }

  lemma OverrideKeyTarget(o: Override, q: Override)
    requires OverrideKey(o) == OverrideKey(q)
    ensures TargetKey(o.target) == TargetKey(q.target)
  {
    hide TargetKey;
    var a: seq<int> := TargetKey(o.target);
    var b: seq<int> := TargetKey(q.target);
    if |a| < |b| {
      ShorterKeyDiffers(a, o.id, TargetKey(q.target), q.id);
    } else if |b| < |a| {
      ShorterKeyDiffers(b, q.id, TargetKey(o.target), o.id);
    }
    assert a == OverrideKey(o)[..|a|] && b == OverrideKey(q)[..|b|];
  }

  /** What validation lets through has distinct targets, sources of the right kind, and is sorted. */
  lemma ValidatedIsValid(layer: seq<RawOverride>, name: LayerName)
    requires ValidatedLayer(layer, name).Some?
    ensures var v := ValidatedLayer(layer, name).value;
      ValidLayer(v) && StrictlyOrdered(OverrideKey, v) && forall o | o in v :: SourceFits(o.source, name)
  {
    hide TargetKey, ValidId, SourceFits, SortBy;
    var cooked := CookedLayer(layer, name);
    var v := SortBy(OverrideKey, cooked);
    OverrideKeysDistinct(layer, name);
    SortOrdersStrictly(OverrideKey, cooked);
    SortPermutes(OverrideKey, cooked);
    SameElements(v, cooked);
    forall o | o in v
      ensures SourceFits(o.source, name)
    {
      var i :| 0 <= i < |cooked| && cooked[i] == o;
      assert ValidRaw(layer[i], name);
    }
    TargetsDistinct(layer, name, v);
  }

  function KeyOf(o: Override): seq<int> { TargetKey(o.target) }

  lemma TargetsDistinct(layer: seq<RawOverride>, name: LayerName, v: seq<Override>)
    requires AcceptableLayer(layer, name) && multiset(v) == multiset(CookedLayer(layer, name))
    ensures ValidLayer(v)
  {
    hide TargetKey, ValidId, SourceFits;
    var cooked := CookedLayer(layer, name);
    assert DistinctKeys(KeyOf, cooked);
    DistinctPermuted(KeyOf, cooked, v);
    forall i, j | 0 <= i < j < |v|
      ensures TargetKey(v[i].target) != TargetKey(v[j].target)
    {
      assert KeyOf(v[i]) != KeyOf(v[j]);
    }
  }

  predicate DistinctTargets(pack: seq<Policy>) {
    forall i, j | 0 <= i < j < |pack| :: TargetKey(pack[i].target) != TargetKey(pack[j].target)
  }

  /** What the versions of pack and engine say about each other. */
  datatype Versions = Versions(packRegistry: Text, engineRegistry: Text, minimumEngine: Text, engine: Text)

  /** Same rule registry, and an engine whose version is not below the minimum. */
  ghost predicate Compatible(v: Versions) {
    && v.packRegistry == v.engineRegistry
    && Semver.ParseSemver(v.engine).Some? && Semver.ParseSemver(v.minimumEngine).Some?
    && Semver.ParsedVersionsValid(v.engine, v.minimumEngine)
    && !Semver.Lower(Semver.ParseSemver(v.engine).value, Semver.ParseSemver(v.minimumEngine).value)
  }

  /** The answer to a request. */
  ghost predicate Answers(v: Versions, pack: seq<Policy>, repository: seq<RawOverride>, cli: seq<RawOverride>,
                          r: Option<Resolution>) {
    var a, b := ValidatedLayer(repository, RepositoryLayer), ValidatedLayer(cli, CliLayer);
    if Compatible(v) && a.Some? && b.Some? then Resolves(Layers(pack, a.value, b.value), r) else r.None?
  }

  /** `resolveOrganizationPolicy`, for a pack that its own validation has passed. */
  method ResolveOrganizationPolicy(v: Versions, pack: seq<Policy>, repository: seq<RawOverride>, cli: seq<RawOverride>)
    returns (r: Option<Resolution>)
    requires DistinctTargets(pack)
    ensures Answers(v, pack, repository, cli, r)
  {
    hide TargetKey, ValidatedLayer, Resolves, ValidLayer, Semver.Lower, Semver.ParseSemver, Semver.ValidVersion;
    var compared := Semver.CompareSemver(v.engine, v.minimumEngine);
    if v.packRegistry != v.engineRegistry || compared.None? || compared.value < 0 {
      return None;
    }
    var a := ValidateOverrideLayer(repository, RepositoryLayer);
    var b := ValidateOverrideLayer(cli, CliLayer);
    if a.None? || b.None? {
      return None;
    }
    ValidatedIsValid(repository, RepositoryLayer);
    ValidatedIsValid(cli, CliLayer);
    r := ResolveLayers(Layers(pack, a.value, b.value));
  }

  lemma CookedElements(layer: seq<RawOverride>, name: LayerName, o: Override)
    requires AcceptableLayer(layer, name)
    ensures o in CookedLayer(layer, name)
      <==> exists x :: x in layer && x.source.Some? && x.target.Some? && x.value.Some? && Cooked(x) == o
  {
    hide TargetKey, ValidId, SourceFits;
    var cooked := CookedLayer(layer, name);
    if o in cooked {
      var i :| 0 <= i < |cooked| && cooked[i] == o;
      assert layer[i] in layer && ValidRaw(layer[i], name);
    }
    if x :| x in layer && x.source.Some? && x.target.Some? && x.value.Some? && Cooked(x) == o {
      var i :| 0 <= i < |layer| && layer[i] == x;
      assert cooked[i] == o;
    }
  }

  lemma AcceptablePermuted(a: seq<RawOverride>, b: seq<RawOverride>, name: LayerName)
    requires multiset(a) == multiset(b) && AcceptableLayer(a, name)
    ensures AcceptableLayer(b, name)
  {
    hide TargetKey, ValidId, SourceFits;
    SameElements(a, b);
    forall i | 0 <= i < |b|
      ensures ValidRaw(b[i], name)
    {
      assert b[i] in a;
    }
    assert DistinctKeys(RawId, a) && DistinctKeys(RawTarget, a);
    DistinctPermuted(RawId, a, b);
    DistinctPermuted(RawTarget, a, b);
    forall i, j | 0 <= i < j < |b|
      ensures b[i].id != b[j].id && TargetKey(b[i].target.value) != TargetKey(b[j].target.value)
    {
      assert RawId(b[i]) != RawId(b[j]) && RawTarget(b[i]) != RawTarget(b[j]);
    }
  }

  function RawId(o: RawOverride): seq<int> { o.id }

  function RawTarget(o: RawOverride): seq<int> { if o.target.Some? then TargetKey(o.target.value) else [] }

  lemma ValidatedPermuted(a: seq<RawOverride>, b: seq<RawOverride>, name: LayerName)
    requires multiset(a) == multiset(b)
    ensures ValidatedLayer(a, name) == ValidatedLayer(b, name)
  {
    hide TargetKey, AcceptableLayer, SortBy;
    SameElements(a, b);
    if AcceptableLayer(a, name) {
      AcceptablePermuted(a, b, name);
      forall o
        ensures o in CookedLayer(a, name) <==> o in CookedLayer(b, name)
      {
        CookedElements(a, name, o);
        CookedElements(b, name, o);
      }
      OverrideKeysDistinct(a, name);
      OverrideKeysDistinct(b, name);
      SortDependsOnElements(OverrideKey, CookedLayer(a, name), CookedLayer(b, name));
    } else if AcceptableLayer(b, name) {
      AcceptablePermuted(b, a, name);
    }
  }

  /** Reordering the pack or the overrides of a layer leaves the answer as it is. */
  lemma AnswersPermuted(v: Versions, pack: seq<Policy>, repository: seq<RawOverride>, cli: seq<RawOverride>,
                        r: Option<Resolution>, pack': seq<Policy>, repository': seq<RawOverride>,
                        cli': seq<RawOverride>, r': Option<Resolution>)
    requires DistinctTargets(pack) && DistinctTargets(pack')
    requires multiset(pack) == multiset(pack') && multiset(repository) == multiset(repository')
    requires multiset(cli) == multiset(cli')
    requires Answers(v, pack, repository, cli, r) && Answers(v, pack', repository', cli', r')
    ensures r == r'
  {
    hide TargetKey, ValidatedLayer, Resolves, ValidLayer, Compatible;
    ValidatedPermuted(repository, repository', RepositoryLayer);
    ValidatedPermuted(cli, cli', CliLayer);
    var a, b := ValidatedLayer(repository, RepositoryLayer), ValidatedLayer(cli, CliLayer);
    if Compatible(v) && a.Some? && b.Some? {
      ValidatedIsValid(repository, RepositoryLayer);
      ValidatedIsValid(cli, CliLayer);
      OrderIndependent(Layers(pack, a.value, b.value), r, Layers(pack', a.value, b.value), r');
    }
  }

  // ---------- the resolution, spelled out ----------

  lemma OverrideFound(layer: seq<Override>, o: Override)
    requires ValidLayer(layer) && o in layer
    ensures OverrideAt(layer, TargetKey(o.target)) == Some(o)
  {
    hide TargetKey;
    var k := TargetKey(o.target);
    OverrideAtKey(layer, k);
    var i :| 0 <= i < |layer| && layer[i] == o;
    var q := OverrideAt(layer, k).value;
    var j :| 0 <= j < |layer| && layer[j] == q;
    assert i == j;
  }

  /**
    Which value a target ends with: that of an enforced policy for it; otherwise that of the command line, then of the
    repository, then of the default policy. There is an assignment for every target that something is said about, and
    for no other.
   */
  lemma AssignmentsSpelled(l: Layers, r: Resolution, a: Assignment)
    requires l.Valid() && Resolves(l, Some(r)) && a in r.assignments
    ensures || (exists p :: p in l.policies && p.authority.Enforced? && TargetKey(p.target) == a.targetKey
                     && a == Assignment(Organization(p.authority, p.location, p.id), p.target, a.targetKey, p.value))
            || ((forall p | p in l.policies && TargetKey(p.target) == a.targetKey :: p.authority.Default?)
                && exists o :: o in l.cli && TargetKey(o.target) == a.targetKey
                     && a == Assignment(o.source, o.target, a.targetKey, o.value))
            || ((forall p | p in l.policies && TargetKey(p.target) == a.targetKey :: p.authority.Default?)
                && (forall o | o in l.cli :: TargetKey(o.target) != a.targetKey)
                && exists o :: o in l.repository && TargetKey(o.target) == a.targetKey
                     && a == Assignment(o.source, o.target, a.targetKey, o.value))
            || ((forall o | o in l.cli || o in l.repository :: TargetKey(o.target) != a.targetKey)
                && exists p :: p in l.policies && p.authority.Default? && TargetKey(p.target) == a.targetKey
                     && a == Assignment(Organization(p.authority, p.location, p.id), p.target, a.targetKey, p.value))
  {
    hide TargetKey, PolicyAt, OverrideAt, Layers.Log, Layers.Conflicting;
    var k := a.targetKey;
    PolicyAtKey(l.policies, k);
    OverrideAtKey(l.cli, k);
    OverrideAtKey(l.repository, k);
    forall p | p in l.policies && TargetKey(p.target) == k
      ensures PolicyAt(l.policies, k) == Some(p)
    {
      PolicyAtUnique(l.policies, p);
    }
  }

  lemma EveryTargetAssigned(l: Layers, r: Resolution)
    requires l.Valid() && Resolves(l, Some(r))
    ensures forall p | p in l.policies :: exists a :: a in r.assignments && a.targetKey == TargetKey(p.target)
    ensures forall o | o in l.repository || o in l.cli ::
              exists a :: a in r.assignments && a.targetKey == TargetKey(o.target)
  {
    hide TargetKey, PolicyAt, OverrideAt, Layers.Log, Layers.Conflicting;
    forall p | p in l.policies
      ensures exists a :: a in r.assignments && a.targetKey == TargetKey(p.target)
    {
      PolicyAtUnique(l.policies, p);
      FinalKey(l, TargetKey(p.target));
      assert l.Final(TargetKey(p.target)).Some?;
      assert l.Final(TargetKey(p.target)).value in r.assignments;
    }
    forall o | o in l.repository || o in l.cli
      ensures exists a :: a in r.assignments && a.targetKey == TargetKey(o.target)
    {
      if o in l.repository {
        OverrideFound(l.repository, o);
      } else {
        OverrideFound(l.cli, o);
      }
      FinalKey(l, TargetKey(o.target));
      assert l.Final(TargetKey(o.target)).value in r.assignments;
    }
  }

  /** A pack is taken up by an engine of its registry whose version is the minimum or of higher precedence. */
  lemma CompatibleSpelled(v: Versions)
    ensures Compatible(v) <==>
            && v.packRegistry == v.engineRegistry
            && Semver.ParseSemver(v.engine).Some? && Semver.ParseSemver(v.minimumEngine).Some?
            && var e, m := Semver.ParseSemver(v.engine).value, Semver.ParseSemver(v.minimumEngine).value;
               && Semver.ValidVersion(e) && Semver.ValidVersion(m) && (e == m || Semver.Lower(m, e))
  {
    hide Semver.ParseSemver, Semver.Lower, Semver.ValidVersion;
    if Semver.ParsedVersionsValid(v.engine, v.minimumEngine) {
      var e, m := Semver.ParseSemver(v.engine).value, Semver.ParseSemver(v.minimumEngine).value;
      Semver.PrecedenceIsTotal(e, m);
    }
  }

  /** What a layer needs to pass: identifiers of at most 256 units, sources of its kind, and nothing twice. */
  lemma LayerSpelled(layer: seq<RawOverride>, name: LayerName)
    ensures ValidatedLayer(layer, name).Some? <==>
            && |layer| <= 512
            && (forall o | o in layer ::
                  && DiagnosticFingerprint.IsIdentifier(o.id) && |o.id| <= 256
                  && o.source.Some? && o.target.Some? && o.value.Some?
                  && if name.RepositoryLayer? then o.source.value.Repository? else o.source.value.Cli?)
            && forall i, j | 0 <= i < j < |layer| ::
                 layer[i].id != layer[j].id && TargetKey(layer[i].target.value) != TargetKey(layer[j].target.value)
  {
    hide TargetKey, DiagnosticFingerprint.IsIdentifier;
    assert forall i | 0 <= i < |layer| :: layer[i] in layer;
  }
}
