/** Generating a baseline of known diagnostics, and comparing diagnostics with one. */
module DiagnosticBaseline {
  import opened Text
  import opened Occurrences
  import opened Sorting

  /** What identifies a diagnostic: its match identity. */
  datatype Finding = Finding(
    ruleId: Text, ruleVersion: Text, severity: Text, path: Text, semanticFingerprint: Text, pathFingerprint: Text,
    provenanceFingerprint: Text, profileIds: seq<Text>, surfaceIds: seq<Text>, specSnapshotIds: seq<Text>)

  datatype NearIdentity = NearIdentity(ruleId: Text, path: Text)

  datatype SemanticIdentity = SemanticIdentity(
    ruleId: Text, ruleVersion: Text, severity: Text, semanticFingerprint: Text, provenanceFingerprint: Text,
    profileIds: seq<Text>, surfaceIds: seq<Text>, specSnapshotIds: seq<Text>)

  datatype MoveIdentity = MoveIdentity(toPath: Text, ruleId: Text, semanticFingerprint: Text)

  function Near(f: Finding): NearIdentity { NearIdentity(f.ruleId, f.path) }

  function Semantic(f: Finding): SemanticIdentity {
    SemanticIdentity(f.ruleId, f.ruleVersion, f.severity, f.semanticFingerprint, f.provenanceFingerprint,
                     f.profileIds, f.surfaceIds, f.specSnapshotIds)
  }

  datatype Move = Move(fromPath: Text, toPath: Text, ruleId: Text, semanticFingerprint: Text)

  function IdentityOfMove(m: Move): MoveIdentity { MoveIdentity(m.toPath, m.ruleId, m.semanticFingerprint) }

  function MovedHere(f: Finding): MoveIdentity { MoveIdentity(f.path, f.ruleId, f.semanticFingerprint) }

  datatype Entry = Entry(finding: Finding, firstSeenAt: Text, expiresAt: Option<Text>)

  datatype ProfileVersion = ProfileVersion(
    profileVersion: Text, clientVersion: Option<Text>, surfaceIds: set<Text>, specSnapshotIds: set<Text>)

  datatype Baseline = Baseline(
    engineVersion: Text, profiles: map<Text, ProfileVersion>, expiresAt: Option<Text>, entries: seq<Entry>)

  datatype Kind = Lint | ParserError | ConfigurationError

  datatype Diagnostic = Diagnostic(id: Text, kind: Kind, finding: Finding)

  /** What a comparison is given besides the baseline and the diagnostics. */
  datatype Run = Run(engineVersion: Text, profiles: map<Text, ProfileVersion>, now: Text, moves: seq<Move>)

  datatype Status = Matched | New | Expired | Incompatible | Ambiguous

  datatype Reason =
    | ExactMatch | PathMove | NotInBaseline | NonSuppressibleConfigurationError | NonSuppressibleParserError
    | BaselineExpired | EntryExpired | EngineVersionChanged | ProfileIdentityChanged | RuleVersionChanged
    | SeverityChanged | DiagnosticProvenanceChanged | FingerprintChanged | PathMoveUnproven | FingerprintCollision
    | AmbiguousPathMove

  datatype Verdict = Verdict(status: Status, reason: Reason, visible: bool, entry: Option<nat>) {
    predicate Consumes() { entry.Some? && (status.Matched? || status.Expired?) }
  }

  datatype Comparison = Comparison(diagnosticIndex: nat, diagnosticId: Text, verdict: Verdict)

  datatype StaleEntry = StaleEntry(entryIndex: nat, ruleId: Text, path: Text, expired: bool)

  datatype Summary = Summary(matched: nat, new_: nat, stale: nat, expired: nat, incompatible: nat, ambiguous: nat)

  datatype Report = Report(
    comparisons: seq<Comparison>, visibleIndexes: seq<nat>, visibleIds: seq<Text>, staleEntries: seq<StaleEntry>,
    summary: Summary)

  /** Canonical UTC instants are compared as texts. */
  predicate Past(expiresAt: Option<Text>, now: Text) {
    expiresAt.Some? && !Less(now, expiresAt.value)
  }

  function ExpiredReason(b: Baseline, e: Entry, now: Text): Option<Reason> {
    if Past(b.expiresAt, now) then Some(BaselineExpired)
    else if Past(e.expiresAt, now) then Some(EntryExpired)
    else None
  }

  function IncompatibilityReason(known: Finding, current: Finding): Reason {
    if known.ruleVersion != current.ruleVersion then RuleVersionChanged
    else if known.severity != current.severity then SeverityChanged
    else if known.provenanceFingerprint != current.provenanceFingerprint || known.profileIds != current.profileIds
            || known.surfaceIds != current.surfaceIds || known.specSnapshotIds != current.specSnapshotIds
    then DiagnosticProvenanceChanged
    else FingerprintChanged
  }

  function GlobalReason(b: Baseline, run: Run): Option<Reason> {
    if b.engineVersion != run.engineVersion then Some(EngineVersionChanged)
    else if b.profiles != run.profiles then Some(ProfileIdentityChanged)
    else None
  }

  function Findings(ds: seq<Diagnostic>): seq<Finding> { Map((d: Diagnostic) => d.finding, ds) }

  function Known(b: Baseline): (r: seq<Finding>)
    ensures |r| == |b.entries|
  {
    Map((e: Entry) => e.finding, b.entries)
  }

  /** The positions whose path is among the given ones. */
  function Eligible(b: Baseline, positions: seq<nat>, fromPaths: seq<Text>): (r: seq<nat>)
    requires forall i | 0 <= i < |positions| :: positions[i] < |b.entries|
    ensures forall p | p in r :: p in positions && b.entries[p].finding.path in fromPaths
  {
    if positions == [] then []
    else
      (if b.entries[positions[0]].finding.path in fromPaths then [positions[0]] else [])
      + Eligible(b, positions[1..], fromPaths)
  }

  function SeenAt(b: Baseline, run: Run, i: nat, reason: Reason): Verdict
    requires i < |b.entries|
  {
    var expiry := ExpiredReason(b, b.entries[i], run.now);
    if expiry.None? then Verdict(Matched, reason, false, Some(i)) else Verdict(Expired, expiry.value, true, Some(i))
  }

  function Shown(status: Status, reason: Reason): Verdict { Verdict(status, reason, true, None) }

  /** What the indexes say about one diagnostic. */
  datatype Evidence = Evidence(exact: seq<nat>, exactCount: nat, near: seq<nat>, candidates: seq<nat>,
    semanticCount: nat,
                               fromPaths: seq<Text>)

  predicate InBaseline(b: Baseline, e: Evidence) {
    && (forall i | 0 <= i < |e.exact| :: e.exact[i] < |b.entries|)
    && (forall i | 0 <= i < |e.near| :: e.near[i] < |b.entries|)
    && (forall i | 0 <= i < |e.candidates| :: e.candidates[i] < |b.entries|)
  }

  function Judge(b: Baseline, run: Run, d: Diagnostic, e: Evidence): Verdict
    requires InBaseline(b, e)
  {
    if !d.kind.Lint? then
      Shown(New, if d.kind.ParserError? then NonSuppressibleParserError else NonSuppressibleConfigurationError)
    else if GlobalReason(b, run).Some? then Shown(Incompatible, GlobalReason(b, run).value)
    else if |e.exact| == 1 && e.exactCount == 1 then SeenAt(b, run, e.exact[0], ExactMatch)
    else if |e.exact| > 1 || (|e.exact| == 1 && e.exactCount > 1) then Shown(Ambiguous, FingerprintCollision)
    else if |e.near| == 1 then
      Verdict(Incompatible, IncompatibilityReason(b.entries[e.near[0]].finding, d.finding), true, Some(e.near[0]))
    else if |e.near| > 1 then Shown(Ambiguous, FingerprintCollision)
    else if |e.fromPaths| > 0 then
      var eligible := Eligible(b, e.candidates, e.fromPaths);
      if |e.fromPaths| != 1 || |eligible| != 1 || e.semanticCount != 1 then Shown(Ambiguous, AmbiguousPathMove)
      else
        assert eligible[0] in eligible;
        SeenAt(b, run, eligible[0], PathMove)
    else Shown(New, if |e.candidates| > 0 then PathMoveUnproven else NotInBaseline)
  }

  /** The sources of the moves that lead to the given place, in the order of their declaration. */
  function FromPaths(moves: seq<Move>, positions: seq<nat>): (r: seq<Text>)
    requires forall i | 0 <= i < |positions| :: positions[i] < |moves|
    ensures |r| == |positions|
  {
    seq(|positions|, i requires 0 <= i < |positions| => moves[positions[i]].fromPath)
  }

  /** The evidence, looked up in the lists themselves. */
  function EvidenceFor(b: Baseline, moves: seq<Move>, findings: seq<Finding>, f: Finding): (e: Evidence)
    ensures InBaseline(b, e)
  {
    Evidence(Positions(Known(b), f), Count(findings, f),
             Positions(Map(Near, Known(b)), Near(f)),
             Positions(Map(Semantic, Known(b)), Semantic(f)), Count(Map(Semantic, findings), Semantic(f)),
             FromPaths(moves, Positions(Map(IdentityOfMove, moves), MovedHere(f))))
  }

  function VerdictOn(b: Baseline, run: Run, ds: seq<Diagnostic>, d: Diagnostic): Verdict {
    Judge(b, run, d, EvidenceFor(b, run.moves, Findings(ds), d.finding))
  }

  function Comparisons(b: Baseline, run: Run, ds: seq<Diagnostic>, n: nat): (r: seq<Comparison>)
    requires n <= |ds|
    ensures |r| == n && forall i | 0 <= i < n :: r[i] == Comparison(i, ds[i].id, VerdictOn(b, run, ds, ds[i]))
  {
    seq(n, i requires 0 <= i < n => Comparison(i, ds[i].id, VerdictOn(b, run, ds, ds[i])))
  }

  /** The baseline entries that the comparisons use up. */
  function Consumed(cs: seq<Comparison>): set<nat> {
    set c | c in cs && c.verdict.Consumes() :: c.verdict.entry.value
  }

  /** The entries below `n` that nothing uses up. */
  function Stale(b: Baseline, now: Text, consumed: set<nat>, n: nat): seq<StaleEntry>
    requires n <= |b.entries|
  {
    if n == 0 then []
    else
      var e := b.entries[n - 1];
      Stale(b, now, consumed, n - 1)
      + (if n - 1 in consumed then []
         else [StaleEntry(n - 1, e.finding.ruleId, e.finding.path, ExpiredReason(b, e, now).Some?)])
  }

  function CountStatus(cs: seq<Comparison>, status: Status): nat {
    if cs == [] then 0
    else CountStatus(cs[..|cs| - 1], status) + (if cs[|cs| - 1].verdict.status == status then 1 else 0)
  }

  function CountExpired(ss: seq<StaleEntry>, expired: bool): nat {
    if ss == [] then 0
    else CountExpired(ss[..|ss| - 1], expired) + (if ss[|ss| - 1].expired == expired then 1 else 0)
  }

  function Summarize(cs: seq<Comparison>, ss: seq<StaleEntry>): Summary {
    Summary(CountStatus(cs, Matched), CountStatus(cs, New), CountExpired(ss, false),
            CountStatus(cs, Expired) + CountExpired(ss, true), CountStatus(cs, Incompatible),
            CountStatus(cs, Ambiguous))
  }

  function Visible(cs: seq<Comparison>): seq<Comparison> {
    if cs == [] then []
    else Visible(cs[..|cs| - 1]) + (if cs[|cs| - 1].verdict.visible then [cs[|cs| - 1]] else [])
  }

  function CompareReport(b: Baseline, run: Run, ds: seq<Diagnostic>): Report {
    var cs := Comparisons(b, run, ds, |ds|);
    var ss := Stale(b, run.now, Consumed(cs), |b.entries|);
    Report(cs, Map((c: Comparison) => c.diagnosticIndex, Visible(cs)),
           Map((c: Comparison) => c.diagnosticId, Visible(cs)),
           ss, Summarize(cs, ss))
  }

  lemma ConsumedStep(b: Baseline, run: Run, ds: seq<Diagnostic>, n: nat)
    requires n < |ds|
    ensures var cs, v := Comparisons(b, run, ds, n), VerdictOn(b, run, ds, ds[n]);
      && Comparisons(b, run, ds, n + 1) == cs + [Comparison(n, ds[n].id, v)]
      && Consumed(Comparisons(b, run, ds, n + 1))
         == if v.Consumes() then Consumed(cs) + {v.entry.value} else Consumed(cs)
  {
    hide VerdictOn;
    var cs, v := Comparisons(b, run, ds, n), VerdictOn(b, run, ds, ds[n]);
    var last := Comparison(n, ds[n].id, v);
    var more := Comparisons(b, run, ds, n + 1);
    assert more == cs + [last];
    assert forall c :: c in more <==> c in cs || c == last;
  }

  /** `compareDiagnosticBaseline` on validated input. */
  method CompareDiagnosticBaseline(b: Baseline, run: Run, ds: seq<Diagnostic>) returns (report: Report)
    ensures report == CompareReport(b, run, ds)
  {
    hide Judge, VerdictOn, Consumed, Stale, Visible;
    var cs, consumed := CompareAll(b, run, ds);
    var stale, unmatchedExpired := FindStale(b, run.now, consumed);
    report := Report(
      cs, Map((c: Comparison) => c.diagnosticIndex, Visible(cs)),
      Map((c: Comparison) => c.diagnosticId, Visible(cs)), stale,
      Summary(CountStatus(cs, Matched), CountStatus(cs, New), CountExpired(stale, false),
              CountStatus(cs, Expired) + unmatchedExpired, CountStatus(cs, Incompatible), CountStatus(cs, Ambiguous)));
  }

  method CompareAll(b: Baseline, run: Run, ds: seq<Diagnostic>) returns (cs: seq<Comparison>, consumed: set<nat>)
    ensures cs == Comparisons(b, run, ds, |ds|) && consumed == Consumed(cs)
  {
    hide Judge, Positions, Consumed, Map;
    var findings, known := Findings(ds), Known(b);
    var identityCounts := BuildCounts(findings);
    var semanticCounts := BuildCounts(Map(Semantic, findings));
    var exactEntries := BuildIndex(known);
    var nearEntries := BuildIndex(Map(Near, known));
    var semanticEntries := BuildIndex(Map(Semantic, known));
    var declarations := BuildIndex(Map(IdentityOfMove, run.moves));
    consumed := {};
    cs := [];
    NothingConsumed(b, run, ds);
    for n := 0 to |ds|
      invariant cs == Comparisons(b, run, ds, n)
      invariant consumed == Consumed(cs)
    {
      var f := ds[n].finding;
      var declared := Occurrences.At(declarations, MovedHere(f));
      var evidence := Evidence(
        Occurrences.At(exactEntries, f), CountAt(identityCounts, f), Occurrences.At(nearEntries, Near(f)),
        Occurrences.At(semanticEntries, Semantic(f)), CountAt(semanticCounts, Semantic(f)),
        FromPaths(run.moves, declared));
      assert evidence == EvidenceFor(b, run.moves, findings, f);
      var verdict := Judge(b, run, ds[n], evidence);
      ConsumedStep(b, run, ds, n);
      cs := cs + [Comparison(n, ds[n].id, verdict)];
      if verdict.Consumes() {
        consumed := consumed + {verdict.entry.value};
      }
    }
  }

  method FindStale(b: Baseline, now: Text, consumed: set<nat>) returns (stale: seq<StaleEntry>, unmatchedExpired: nat)
    ensures stale == Stale(b, now, consumed, |b.entries|) && unmatchedExpired == CountExpired(stale, true)
  {
    stale, unmatchedExpired := [], 0;
    for i := 0 to |b.entries|
      invariant stale == Stale(b, now, consumed, i)
      invariant unmatchedExpired == CountExpired(stale, true)
    {
      if i !in consumed {
        var e := b.entries[i];
        var expired := ExpiredReason(b, e, now).Some?;
        if expired {
          unmatchedExpired := unmatchedExpired + 1;
        }
        assert (stale + [StaleEntry(i, e.finding.ruleId, e.finding.path, expired)])[..|stale|] == stale;
        stale := stale + [StaleEntry(i, e.finding.ruleId, e.finding.path, expired)];
      }
    }
  }

  lemma NothingConsumed(b: Baseline, run: Run, ds: seq<Diagnostic>)
    ensures Comparisons(b, run, ds, 0) == [] && Consumed([]) == {}
  {
  }

  // ---------- generating ----------

  /** The distinct findings of the first `n` diagnostics that are lint, in the order of their first occurrences. */
  function LintFindings(ds: seq<Diagnostic>, n: nat): seq<Finding>
    requires n <= |ds|
  {
    if n == 0 then []
    else
      var r, d := LintFindings(ds, n - 1), ds[n - 1];
      if d.kind.Lint? && d.finding !in r then r + [d.finding] else r
  }

  function EntryKey(encode: Finding -> seq<int>): Entry -> seq<int> { (e: Entry) => encode(e.finding) }

  function NewEntries(fs: seq<Finding>, createdAt: Text, expiresAt: Option<Text>): seq<Entry> {
    Map((f: Finding) => Entry(f, createdAt, expiresAt), fs)
  }

  /** The entries of a new baseline, sorted by the bytes of their identities, which `encode` spells. */
  function Generated(ds: seq<Diagnostic>, createdAt: Text, expiresAt: Option<Text>,
                     encode: Finding -> seq<int>): seq<Entry> {
    SortBy(EntryKey(encode), NewEntries(LintFindings(ds, |ds|), createdAt, expiresAt))
  }

  method GenerateDiagnosticBaseline(ds: seq<Diagnostic>, engineVersion: Text, profiles: map<Text, ProfileVersion>,
                                    createdAt: Text, expiresAt: Option<Text>, encode: Finding -> seq<int>)
    returns (b: Baseline)
    ensures b == Baseline(engineVersion, profiles, expiresAt, Generated(ds, createdAt, expiresAt, encode))
  {
    var byIdentity: seq<Entry> := [];
    var seen: set<Finding> := {};
    for n := 0 to |ds|
      invariant seen == set f | f in LintFindings(ds, n)
      invariant byIdentity == NewEntries(LintFindings(ds, n), createdAt, expiresAt)
    {
      if ds[n].kind.Lint? {
        var entry := Entry(ds[n].finding, createdAt, expiresAt);
        if entry.finding !in seen {
          seen := seen + {entry.finding};
          byIdentity := byIdentity + [entry];
        }
      }
    }
    b := Baseline(engineVersion, profiles, expiresAt, SortBy(EntryKey(encode), byIdentity));
  }
}
