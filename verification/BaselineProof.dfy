/** Guarantees of the baseline comparison that concern all diagnostics and entries together. */
module BaselineProof {
  import opened Text
  import opened Occurrences
  import opened Sorting
  import opened DiagnosticBaseline

  // ---------- no entry is used twice ----------

  /** How a verdict uses up entry `e`: by the whole identity, or by a semantic identity that is
      unique among the diagnostics. */
  ghost predicate Uses(b: Baseline, findings: seq<Finding>, f: Finding, e: nat) {
    && e < |b.entries|
    && ((b.entries[e].finding == f && Count(findings, f) == 1)
        || (Semantic(b.entries[e].finding) == Semantic(f) && Count(Map(Semantic, findings), Semantic(f)) == 1))
  }

  lemma ConsumingUses(b: Baseline, run: Run, ds: seq<Diagnostic>, d: Diagnostic)
    requires VerdictOn(b, run, ds, d).Consumes()
    ensures Uses(b, Findings(ds), d.finding, VerdictOn(b, run, ds, d).entry.value)
  {
    hide Positions, IncompatibilityReason;
    var e := EvidenceFor(b, run.moves, Findings(ds), d.finding);
    var k := VerdictOn(b, run, ds, d).entry.value;
    if |e.exact| == 1 && e.exactCount == 1 {
      assert Known(b)[e.exact[0]] == d.finding;
    } else {
      var eligible := Eligible(b, e.candidates, e.fromPaths);
      assert k == eligible[0] && k in eligible;
      var i :| 0 <= i < |e.candidates| && e.candidates[i] == k;
      assert Map(Semantic, Known(b))[e.candidates[i]] == Semantic(d.finding);
    }
  }

  /** No entry is used up by two diagnostics, whatever mix of exact and declared-move matches there is. */
  lemma NoEntryUsedTwice(b: Baseline, run: Run, ds: seq<Diagnostic>, i: nat, j: nat)
    requires i < j < |ds| && VerdictOn(b, run, ds, ds[i]).Consumes() && VerdictOn(b, run, ds, ds[j]).Consumes()
    ensures VerdictOn(b, run, ds, ds[i]).entry != VerdictOn(b, run, ds, ds[j]).entry
  {
    hide Judge, Positions, VerdictOn;
    var findings, semantics := Findings(ds), Map(Semantic, Findings(ds));
    var f, g := ds[i].finding, ds[j].finding;
    ConsumingUses(b, run, ds, ds[i]);
    ConsumingUses(b, run, ds, ds[j]);
    assert findings[i] == f && findings[j] == g && semantics[i] == Semantic(f) && semantics[j] == Semantic(g);
    if VerdictOn(b, run, ds, ds[i]).entry == VerdictOn(b, run, ds, ds[j]).entry {
      if Count(semantics, Semantic(f)) == 1 {
        OnlyOne(semantics, Semantic(f), i, j);
      } else {
        OnlyOne(findings, f, i, j);
      }
    }
  }

  // ---------- conservation ----------

  lemma MatchedOrExpiredConsumes(b: Baseline, run: Run, ds: seq<Diagnostic>, d: Diagnostic)
    ensures var v := VerdictOn(b, run, ds, d);
      (v.Consumes() <==> v.status.Matched? || v.status.Expired?) && (v.Consumes() ==> v.entry.value < |b.entries|)
    ensures VerdictOn(b, run, ds, d).visible <==> !VerdictOn(b, run, ds, d).status.Matched?
  {
    hide Positions, IncompatibilityReason;
  }

  lemma {:induction false} ConsumedSize(b: Baseline, run: Run, ds: seq<Diagnostic>, n: nat)
    requires n <= |ds|
    ensures var cs := Comparisons(b, run, ds, n);
      |Consumed(cs)| == CountStatus(cs, Matched) + CountStatus(cs, Expired)
      && forall e | e in Consumed(cs) :: e < |b.entries|
  {
    hide VerdictOn, Consumed;
    if n == 0 {
      NothingConsumed(b, run, ds);
    } else {
      var cs := Comparisons(b, run, ds, n - 1);
      var v := VerdictOn(b, run, ds, ds[n - 1]);
      ConsumedSize(b, run, ds, n - 1);
      ConsumedStep(b, run, ds, n - 1);
      MatchedOrExpiredConsumes(b, run, ds, ds[n - 1]);
      assert Comparisons(b, run, ds, n)[..n - 1] == cs;
      if v.Consumes() {
        NotYetUsed(b, run, ds, n - 1);
      }
    }
  }

  lemma NotYetUsed(b: Baseline, run: Run, ds: seq<Diagnostic>, n: nat)
    requires n < |ds| && VerdictOn(b, run, ds, ds[n]).Consumes()
    ensures VerdictOn(b, run, ds, ds[n]).entry.value !in Consumed(Comparisons(b, run, ds, n))
  {
    hide VerdictOn;
    var cs, e := Comparisons(b, run, ds, n), VerdictOn(b, run, ds, ds[n]).entry.value;
    forall c | c in cs && c.verdict.Consumes()
      ensures c.verdict.entry.value != e
    {
      var i :| 0 <= i < |cs| && cs[i] == c;
      NoEntryUsedTwice(b, run, ds, i, n);
    }
  }

  function Below(s: set<nat>, n: nat): set<nat> { set i | i in s && i < n }

  lemma {:induction false} StaleSize(b: Baseline, now: Text, consumed: set<nat>, n: nat)
    requires n <= |b.entries|
    ensures |Stale(b, now, consumed, n)| + |Below(consumed, n)| == n
  {
    if n > 0 {
      StaleSize(b, now, consumed, n - 1);
      assert Below(consumed, n) == Below(consumed, n - 1) + (if n - 1 in consumed then {n - 1} else {});
    }
  }

  lemma {:induction false} StalePartition(ss: seq<StaleEntry>)
    ensures CountExpired(ss, true) + CountExpired(ss, false) == |ss|
  {
    if ss != [] {
      StalePartition(ss[..|ss| - 1]);
    }
  }

  lemma {:induction false} StatusPartition(cs: seq<Comparison>)
    ensures CountStatus(cs, Matched) + CountStatus(cs, New) + CountStatus(cs, Expired) + CountStatus(cs, Incompatible)
            + CountStatus(cs, Ambiguous) == |cs|
  {
    if cs != [] {
      StatusPartition(cs[..|cs| - 1]);
    }
  }

  /** Every entry is matched, expired or stale, each once; every diagnostic gets one comparison. */
  lemma Conservation(b: Baseline, run: Run, ds: seq<Diagnostic>)
    ensures var r := CompareReport(b, run, ds);
      && r.summary.matched + r.summary.expired + r.summary.stale == |b.entries|
      && |r.comparisons| == |ds| && (forall i | 0 <= i < |ds| :: r.comparisons[i].diagnosticIndex == i)
      && r.summary.matched + r.summary.new_ + r.summary.incompatible + r.summary.ambiguous
         + CountStatus(r.comparisons, Expired) == |ds|
  {
    hide VerdictOn, Consumed, Stale, Visible;
    var cs := Comparisons(b, run, ds, |ds|);
    var consumed := Consumed(cs);
    ConsumedSize(b, run, ds, |ds|);
    StaleSize(b, run.now, consumed, |b.entries|);
    assert Below(consumed, |b.entries|) == consumed;
    StalePartition(Stale(b, run.now, consumed, |b.entries|));
    StatusPartition(cs);
  }

  // ---------- the order of the inputs ----------

  lemma FromPathsExact(moves: seq<Move>, key: MoveIdentity, p: Text)
    ensures p in FromPaths(moves, Positions(Map(IdentityOfMove, moves), key)) <==>
            exists m :: m in moves && IdentityOfMove(m) == key && m.fromPath == p
  {
    hide Positions;
    var ids := Map(IdentityOfMove, moves);
    var ps := Positions(ids, key);
    if m :| m in moves && IdentityOfMove(m) == key && m.fromPath == p {
      var i :| 0 <= i < |moves| && moves[i] == m;
      PositionsExact(ids, key, i);
      var j :| 0 <= j < |ps| && ps[j] == i;
      assert FromPaths(moves, ps)[j] == p;
    }
    if p in FromPaths(moves, ps) {
      var j :| 0 <= j < |ps| && FromPaths(moves, ps)[j] == p;
      assert ids[ps[j]] == key && moves[ps[j]] in moves;
    }
  }

  lemma {:induction false} EligibleSame(b: Baseline, positions: seq<nat>, xs: seq<Text>, ys: seq<Text>)
    requires forall i | 0 <= i < |positions| :: positions[i] < |b.entries|
    requires forall p :: p in xs <==> p in ys
    ensures Eligible(b, positions, xs) == Eligible(b, positions, ys)
  {
    if positions != [] {
      EligibleSame(b, positions[1..], xs, ys);
    }
  }

  ghost predicate SameEvidence(e: Evidence, e': Evidence) {
    && e.exact == e'.exact && e.exactCount == e'.exactCount && e.near == e'.near && e.candidates == e'.candidates
    && e.semanticCount == e'.semanticCount && |e.fromPaths| == |e'.fromPaths|
    && (forall p :: p in e.fromPaths <==> p in e'.fromPaths)
  }

  lemma EvidencePermuted(b: Baseline, moves: seq<Move>, moves': seq<Move>, ds: seq<Diagnostic>, es: seq<Diagnostic>,
                         f: Finding)
    requires multiset(ds) == multiset(es) && multiset(moves) == multiset(moves')
    ensures SameEvidence(EvidenceFor(b, moves, Findings(ds), f), EvidenceFor(b, moves', Findings(es), f))
  {
    hide Positions;
    MapPermuted((d: Diagnostic) => d.finding, ds, es);
    MapPermuted(Semantic, Findings(ds), Findings(es));
    MapPermuted(IdentityOfMove, moves, moves');
    CountPermuted(Findings(ds), Findings(es), f);
    CountPermuted(Map(Semantic, Findings(ds)), Map(Semantic, Findings(es)), Semantic(f));
    CountPermuted(Map(IdentityOfMove, moves), Map(IdentityOfMove, moves'), MovedHere(f));
    SameElements(moves, moves');
    forall p
      ensures p in EvidenceFor(b, moves, Findings(ds), f).fromPaths
        <==> p in EvidenceFor(b, moves', Findings(es), f).fromPaths
    {
      FromPathsExact(moves, MovedHere(f), p);
      FromPathsExact(moves', MovedHere(f), p);
    }
  }

  /** A verdict depends neither on the order of the diagnostics nor on that of the moves. */
  lemma VerdictPermuted(b: Baseline, run: Run, run': Run, ds: seq<Diagnostic>, es: seq<Diagnostic>, d: Diagnostic)
    requires multiset(ds) == multiset(es) && multiset(run.moves) == multiset(run'.moves)
    requires run'.(moves := run.moves) == run
    ensures VerdictOn(b, run, ds, d) == VerdictOn(b, run', es, d)
  {
    hide EvidenceFor, Eligible, IncompatibilityReason;
    EvidencePermuted(b, run.moves, run'.moves, ds, es, d.finding);
    var e := EvidenceFor(b, run.moves, Findings(ds), d.finding);
    var e' := EvidenceFor(b, run'.moves, Findings(es), d.finding);
    EligibleSame(b, e.candidates, e.fromPaths, e'.fromPaths);
  }

  datatype Outcome = Outcome(id: Text, verdict: Verdict)

  function OutcomeOf(b: Baseline, run: Run, ds: seq<Diagnostic>): Diagnostic -> Outcome {
    (d: Diagnostic) => Outcome(d.id, VerdictOn(b, run, ds, d))
  }

  function Outcomes(cs: seq<Comparison>): seq<Outcome> {
    Map((c: Comparison) => Outcome(c.diagnosticId, c.verdict), cs)
  }

  lemma OutcomesAreMapped(b: Baseline, run: Run, ds: seq<Diagnostic>)
    ensures Outcomes(Comparisons(b, run, ds, |ds|)) == Map(OutcomeOf(b, run, ds), ds)
  {
    hide VerdictOn;
  }

  lemma OutcomesPermuted(b: Baseline, run: Run, run': Run, ds: seq<Diagnostic>, es: seq<Diagnostic>)
    requires multiset(ds) == multiset(es) && multiset(run.moves) == multiset(run'.moves)
    requires run'.(moves := run.moves) == run
    ensures multiset(Outcomes(CompareReport(b, run, ds).comparisons))
      == multiset(Outcomes(CompareReport(b, run', es).comparisons))
  {
    hide VerdictOn, Consumed, Stale, Visible, Summarize;
    var f, g := OutcomeOf(b, run, ds), OutcomeOf(b, run', es);
    OutcomesAreMapped(b, run, ds);
    OutcomesAreMapped(b, run', es);
    MapPermuted(f, ds, es);
    forall i | 0 <= i < |es|
      ensures f(es[i]) == g(es[i])
    {
      VerdictPermuted(b, run, run', ds, es, es[i]);
    }
    assert Map(f, es) == Map(g, es);
  }

  lemma {:induction false} StatusFromOutcomes(cs: seq<Comparison>, status: Status)
    ensures CountStatus(cs, status) == Count(Map((o: Outcome) => o.verdict.status, Outcomes(cs)), status)
  {
    if cs != [] {
      StatusFromOutcomes(cs[..|cs| - 1], status);
      var n := |cs| - 1;
      var keys := Map((o: Outcome) => o.verdict.status, Outcomes(cs));
      assert keys[..n] == Map((o: Outcome) => o.verdict.status, Outcomes(cs[..n]));
    }
  }

  lemma ConsumedFromOutcomes(cs: seq<Comparison>, e: nat)
    ensures e in Consumed(cs) <==> exists o :: o in Outcomes(cs) && o.verdict.Consumes() && o.verdict.entry.value == e
  {
    if e in Consumed(cs) {
      var c :| c in cs && c.verdict.Consumes() && c.verdict.entry.value == e;
      var i :| 0 <= i < |cs| && cs[i] == c;
      assert Outcomes(cs)[i] in Outcomes(cs);
    }
    if o :| o in Outcomes(cs) && o.verdict.Consumes() && o.verdict.entry.value == e {
      var i :| 0 <= i < |cs| && Outcomes(cs)[i] == o;
      assert cs[i] in cs;
    }
  }

  lemma ReportFromOutcomes(cs: seq<Comparison>, cs': seq<Comparison>)
    requires multiset(Outcomes(cs)) == multiset(Outcomes(cs'))
    ensures Consumed(cs) == Consumed(cs') && forall status :: CountStatus(cs, status) == CountStatus(cs', status)
  {
    hide Consumed, Outcomes, CountStatus;
    SameElements(Outcomes(cs), Outcomes(cs'));
    forall e
      ensures e in Consumed(cs) <==> e in Consumed(cs')
    {
      ConsumedFromOutcomes(cs, e);
      ConsumedFromOutcomes(cs', e);
    }
    var f := (o: Outcome) => o.verdict.status;
    MapPermuted(f, Outcomes(cs), Outcomes(cs'));
    forall status
      ensures CountStatus(cs, status) == CountStatus(cs', status)
    {
      StatusFromOutcomes(cs, status);
      StatusFromOutcomes(cs', status);
      CountPermuted(Map(f, Outcomes(cs)), Map(f, Outcomes(cs')), status);
    }
  }

  /** Permuting diagnostics and moves permutes the verdicts, and leaves stale entries and summary as they are. */
  lemma OrderIndependent(b: Baseline, run: Run, run': Run, ds: seq<Diagnostic>, es: seq<Diagnostic>)
    requires multiset(ds) == multiset(es) && multiset(run.moves) == multiset(run'.moves)
    requires run'.(moves := run.moves) == run
    ensures var r, r' := CompareReport(b, run, ds), CompareReport(b, run', es);
      && multiset(Outcomes(r.comparisons)) == multiset(Outcomes(r'.comparisons))
      && r.staleEntries == r'.staleEntries && r.summary == r'.summary
  {
    hide VerdictOn, Consumed, Stale, Visible, CountStatus, Outcomes;
    OutcomesPermuted(b, run, run', ds, es);
    ReportFromOutcomes(Comparisons(b, run, ds, |ds|), Comparisons(b, run', es, |es|));
  }

  // ---------- a fresh baseline ----------

  /** Some lint diagnostic among the first `n` has the finding. */
  ghost predicate IsLintFinding(ds: seq<Diagnostic>, n: nat, f: Finding)
    requires n <= |ds|
  {
    exists i | 0 <= i < n :: ds[i].kind.Lint? && ds[i].finding == f
  }

  lemma IsLintFindingStep(ds: seq<Diagnostic>, n: nat, f: Finding)
    requires n < |ds|
    ensures IsLintFinding(ds, n + 1, f) <==> IsLintFinding(ds, n, f) || (ds[n].kind.Lint? && ds[n].finding == f)
  {
    if ds[n].kind.Lint? && ds[n].finding == f {
      assert IsLintFinding(ds, n + 1, f);
    }
  }

  lemma CountAppended(r: seq<Finding>, g: Finding, f: Finding)
    ensures Count(r + [g], f) == Count(r, f) + (if g == f then 1 else 0)
  {
    assert (r + [g])[..|r|] == r;
  }

  lemma {:induction false} LintFindingsExact(ds: seq<Diagnostic>, n: nat, f: Finding)
    requires n <= |ds|
    ensures Count(LintFindings(ds, n), f) == if IsLintFinding(ds, n, f) then 1 else 0
  {
    hide Count, IsLintFinding;
    if n == 0 {
      NoLintFinding(ds, f);
    } else {
      var r, d := LintFindings(ds, n - 1), ds[n - 1];
      LintFindingsExact(ds, n - 1, f);
      IsLintFindingStep(ds, n - 1, f);
      NotCounted(r, d.finding);
      CountAppended(r, d.finding, f);
    }
  }

  lemma NoLintFinding(ds: seq<Diagnostic>, f: Finding)
    ensures !IsLintFinding(ds, 0, f) && Count([], f) == 0
  {
  }

  lemma NotCounted(r: seq<Finding>, f: Finding)
    ensures f !in r <==> Count(r, f) == 0
  {
    if f in r {
      var k :| 0 <= k < |r| && r[k] == f;
      PositionsExact(r, f, k);
    }
    if Count(r, f) > 0 {
      CountedOccurs(r, f);
    }
  }

  lemma CountedOccurs(r: seq<Finding>, f: Finding)
    requires Count(r, f) > 0
    ensures f in r
  {
    assert r[Positions(r, f)[0]] == f;
  }

  /** A generated baseline holds the finding of every lint diagnostic once, and no other. */
  lemma GeneratedExact(ds: seq<Diagnostic>, createdAt: Text, expiresAt: Option<Text>, encode: Finding -> seq<int>,
                       f: Finding)
    ensures Count(Map((e: Entry) => e.finding, Generated(ds, createdAt, expiresAt, encode)), f)
            == if IsLintFinding(ds, |ds|, f) then 1 else 0
  {
    hide SortBy, LintFindings, Count;
    var fs := LintFindings(ds, |ds|);
    var es := NewEntries(fs, createdAt, expiresAt);
    var get := (e: Entry) => e.finding;
    SortPermutes(EntryKey(encode), es);
    MapPermuted(get, SortBy(EntryKey(encode), es), es);
    assert Map(get, es) == fs;
    CountPermuted(Map(get, SortBy(EntryKey(encode), es)), fs, f);
    LintFindingsExact(ds, |ds|, f);
  }

  lemma LintFindingsSet(ds: seq<Diagnostic>, f: Finding)
    ensures f in LintFindings(ds, |ds|) <==> exists d :: d in ds && d.kind.Lint? && d.finding == f
  {
    hide Count, LintFindings;
    LintFindingsExact(ds, |ds|, f);
    NotCounted(LintFindings(ds, |ds|), f);
    if d :| d in ds && d.kind.Lint? && d.finding == f {
      var i :| 0 <= i < |ds| && ds[i] == d;
    }
  }

  lemma LintFindingsDistinct(ds: seq<Diagnostic>, i: nat, j: nat)
    requires i < j < |LintFindings(ds, |ds|)|
    ensures LintFindings(ds, |ds|)[i] != LintFindings(ds, |ds|)[j]
  {
    hide LintFindings, IsLintFinding, Positions;
    var fs := LintFindings(ds, |ds|);
    LintFindingsExact(ds, |ds|, fs[i]);
    PositionsExact(fs, fs[i], i);
    if fs[i] == fs[j] {
      OnlyOne(fs, fs[i], i, j);
    }
  }

  ghost predicate Injective(encode: Finding -> seq<int>) {
    forall f, g :: encode(f) == encode(g) ==> f == g
  }

  lemma EntryKeysDistinct(ds: seq<Diagnostic>, createdAt: Text, expiresAt: Option<Text>, encode: Finding -> seq<int>)
    requires Injective(encode)
    ensures DistinctKeys(EntryKey(encode), NewEntries(LintFindings(ds, |ds|), createdAt, expiresAt))
  {
    hide LintFindings;
    var fs := LintFindings(ds, |ds|);
    var es := NewEntries(fs, createdAt, expiresAt);
    forall i, j | 0 <= i < j < |es|
      ensures EntryKey(encode)(es[i]) != EntryKey(encode)(es[j])
    {
      LintFindingsDistinct(ds, i, j);
    }
  }

  lemma EntryMade(ds: seq<Diagnostic>, createdAt: Text, expiresAt: Option<Text>, e: Entry)
    ensures e in NewEntries(LintFindings(ds, |ds|), createdAt, expiresAt) <==>
            e == Entry(e.finding, createdAt, expiresAt) && exists d :: d in ds && d.kind.Lint? && d.finding == e.finding
  {
    hide LintFindings;
    var fs := LintFindings(ds, |ds|);
    var es := NewEntries(fs, createdAt, expiresAt);
    LintFindingsSet(ds, e.finding);
    if e in es {
      var i :| 0 <= i < |es| && es[i] == e;
      assert fs[i] in fs;
    }
    if e == Entry(e.finding, createdAt, expiresAt) && e.finding in fs {
      var i :| 0 <= i < |fs| && fs[i] == e.finding;
      assert es[i] == e;
    }
  }

  /** What is generated: an entry with the given instants for every lint finding, ascending by the encodings. */
  lemma EntriesSpelled(ds: seq<Diagnostic>, createdAt: Text, expiresAt: Option<Text>, encode: Finding -> seq<int>)
    requires Injective(encode)
    ensures var es := Generated(ds, createdAt, expiresAt, encode);
      && (forall e :: e in es <==>
            && e.firstSeenAt == createdAt && e.expiresAt == expiresAt
            && exists d :: d in ds && d.kind.Lint? && d.finding == e.finding)
      && (forall i, j | 0 <= i < j < |es| :: Less(encode(es[i].finding), encode(es[j].finding)))
  {
    hide LintFindings, SortBy, NewEntries;
    var made := NewEntries(LintFindings(ds, |ds|), createdAt, expiresAt);
    var es := Generated(ds, createdAt, expiresAt, encode);
    EntryKeysDistinct(ds, createdAt, expiresAt, encode);
    SortOrdersStrictly(EntryKey(encode), made);
    SortPermutes(EntryKey(encode), made);
    SameElements(es, made);
    forall e
      ensures e in es <==> && e.firstSeenAt == createdAt && e.expiresAt == expiresAt
                           && exists d :: d in ds && d.kind.Lint? && d.finding == e.finding
    {
      EntryMade(ds, createdAt, expiresAt, e);
    }
    forall i, j | 0 <= i < j < |es|
      ensures Less(encode(es[i].finding), encode(es[j].finding))
    {
      assert Less(EntryKey(encode)(es[i]), EntryKey(encode)(es[j]));
    }
  }

  /** As long as identities have different encodings, the generated entries do not depend on the order
      of the diagnostics. */
  lemma GeneratedOrderIndependent(ds: seq<Diagnostic>, es: seq<Diagnostic>, createdAt: Text, expiresAt: Option<Text>,
                                  encode: Finding -> seq<int>)
    requires multiset(ds) == multiset(es) && Injective(encode)
    ensures Generated(ds, createdAt, expiresAt, encode) == Generated(es, createdAt, expiresAt, encode)
  {
    hide LintFindings, SortBy, NewEntries;
    SameElements(ds, es);
    EntryKeysDistinct(ds, createdAt, expiresAt, encode);
    EntryKeysDistinct(es, createdAt, expiresAt, encode);
    var a := NewEntries(LintFindings(ds, |ds|), createdAt, expiresAt);
    var b := NewEntries(LintFindings(es, |es|), createdAt, expiresAt);
    forall e
      ensures e in a <==> e in b
    {
      EntryMade(ds, createdAt, expiresAt, e);
      EntryMade(es, createdAt, expiresAt, e);
    }
    SortDependsOnElements(EntryKey(encode), a, b);
  }

  lemma GeneratedExpiry(ds: seq<Diagnostic>, createdAt: Text, expiresAt: Option<Text>, encode: Finding -> seq<int>,
                        k: nat)
    requires k < |Generated(ds, createdAt, expiresAt, encode)|
    ensures Generated(ds, createdAt, expiresAt, encode)[k].expiresAt == expiresAt
  {
    hide SortBy, LintFindings;
    var es := NewEntries(LintFindings(ds, |ds|), createdAt, expiresAt);
    SortPermutes(EntryKey(encode), es);
    SameElements(SortBy(EntryKey(encode), es), es);
    assert SortBy(EntryKey(encode), es)[k] in es;
  }

  /**
    Comparing a freshly generated baseline with the diagnostics it was generated from, before it expires, hides
    exactly the lint diagnostics whose identity occurs once among all diagnostics, of whatever kind; the other lint
    diagnostics are ambiguous. Moves make no difference.
   */
  lemma FreshBaselineHides(ds: seq<Diagnostic>, createdAt: Text, encode: Finding -> seq<int>, b: Baseline, run: Run,
                           i: nat)
    requires b.entries == Generated(ds, createdAt, b.expiresAt, encode)
    requires b.engineVersion == run.engineVersion && b.profiles == run.profiles
    requires b.expiresAt.None? || Less(run.now, b.expiresAt.value)
    requires i < |ds|
    ensures var v, once := VerdictOn(b, run, ds, ds[i]), Count(Findings(ds), ds[i].finding) == 1;
      && (!v.visible <==> ds[i].kind.Lint? && once)
      && (ds[i].kind.Lint? ==> v.reason == if once then ExactMatch else FingerprintCollision)
      && (ds[i].kind.Lint? && !once ==> v.status == Ambiguous)
  {
    hide Positions, Generated, Eligible, IncompatibilityReason;
    var f := ds[i].finding;
    var e := EvidenceFor(b, run.moves, Findings(ds), f);
    GeneratedExact(ds, createdAt, b.expiresAt, encode, f);
    PositionsExact(Findings(ds), f, i);
    assert Count(Findings(ds), f) >= 1;
    if ds[i].kind.Lint? {
      assert |e.exact| == 1;
      GeneratedExpiry(ds, createdAt, b.expiresAt, encode, e.exact[0]);
    }
  }

  // ---------- what a baseline hides ----------

  /** Neither the baseline nor the entry has expired: each expiry, if there is one, is later than now. */
  ghost predicate Current(b: Baseline, now: Text, e: nat) {
    && e < |b.entries| && (b.expiresAt.None? || Less(now, b.expiresAt.value))
    && (b.entries[e].expiresAt.None? || Less(now, b.entries[e].expiresAt.value))
  }

  /** The finding stands once in the baseline, at `e`, and once among the diagnostics. */
  ghost predicate ExactPair(b: Baseline, ds: seq<Diagnostic>, f: Finding, e: nat) {
    OnlyAt(Known(b), f, e) && exists i :: OnlyAt(Findings(ds), f, i)
  }

  /**
    The baseline knows neither the finding nor its rule at its path; one move is declared to its path; of the entries
    that agree with it in everything but the path one stands where the move comes from; and no other diagnostic agrees
    with it in this way.
   */
  ghost predicate MovedPair(b: Baseline, moves: seq<Move>, ds: seq<Diagnostic>, f: Finding, e: nat) {
    && f !in Known(b) && Near(f) !in Map(Near, Known(b))
    && (exists i :: OnlyAt(Map(Semantic, Findings(ds)), Semantic(f), i))
    && exists m: nat ::
         m < |moves| && OnlyAt(Map(IdentityOfMove, moves), MovedHere(f), m) && OnlySource(b, f, moves[m].fromPath, e)
  }

  ghost predicate IsSource(b: Baseline, f: Finding, fromPath: Text, e: nat) {
    e < |b.entries| && Semantic(b.entries[e].finding) == Semantic(f) && b.entries[e].finding.path == fromPath
  }

  ghost predicate OnlySource(b: Baseline, f: Finding, fromPath: Text, e: nat) {
    IsSource(b, f, fromPath, e) && forall j | IsSource(b, f, fromPath, j) :: j == e
  }

  lemma Absent<K(!new)>(keys: seq<K>, key: K)
    ensures key !in keys <==> Positions(keys, key) == []
  {
    if key in keys {
      var i :| 0 <= i < |keys| && keys[i] == key;
      PositionsExact(keys, key, i);
    }
    if Positions(keys, key) != [] {
      assert keys[Positions(keys, key)[0]] == key;
    }
  }

  lemma SoleExactly<K(!new)>(keys: seq<K>, key: K)
    ensures Count(keys, key) == 1 <==> exists i :: OnlyAt(keys, key, i)
  {
    hide Positions, OnlyAt;
    if Count(keys, key) == 1 {
      OnlyAtExactly(keys, key, Positions(keys, key)[0]);
    }
    if i :| OnlyAt(keys, key, i) {
      OnlyAtExactly(keys, key, i);
    }
  }

  lemma {:induction false} EligibleExact(b: Baseline, positions: seq<nat>, fromPaths: seq<Text>, p: nat)
    requires forall i | 0 <= i < |positions| :: positions[i] < |b.entries|
    ensures p in Eligible(b, positions, fromPaths) <==> p in positions && b.entries[p].finding.path in fromPaths
  {
    if positions != [] {
      EligibleExact(b, positions[1..], fromPaths, p);
      assert positions == [positions[0]] + positions[1..];
    }
  }

  lemma {:induction false} EligibleOnce(b: Baseline, positions: seq<nat>, fromPaths: seq<Text>, i: nat, j: nat)
    requires forall k | 0 <= k < |positions| :: positions[k] < |b.entries|
    requires forall k, l | 0 <= k < l < |positions| :: positions[k] < positions[l]
    requires i < j < |Eligible(b, positions, fromPaths)|
    ensures Eligible(b, positions, fromPaths)[i] < Eligible(b, positions, fromPaths)[j]
  {
    var tail := positions[1..];
    if b.entries[positions[0]].finding.path !in fromPaths {
      EligibleOnce(b, tail, fromPaths, i, j);
    } else if i > 0 {
      EligibleOnce(b, tail, fromPaths, i - 1, j - 1);
    } else {
      BehindFirst(positions, Eligible(b, tail, fromPaths)[j - 1]);
    }
  }

  lemma BehindFirst(positions: seq<nat>, p: nat)
    requires positions != [] && p in positions[1..]
    requires forall k, l | 0 <= k < l < |positions| :: positions[k] < positions[l]
    ensures positions[0] < p
  {
    var k :| 0 <= k < |positions[1..]| && positions[1..][k] == p;
    assert positions[k + 1] == p;
  }

  /** With one declared source path, one eligible entry means one entry that agrees and stands there. */
  lemma EligibleSource(b: Baseline, f: Finding, fromPath: Text, e: nat)
    ensures Eligible(b, Positions(Map(Semantic, Known(b)), Semantic(f)), [fromPath]) == [e]
      <==> OnlySource(b, f, fromPath, e)
  {
    hide Positions, Eligible, Semantic;
    var keys := Map(Semantic, Known(b));
    var ps := Positions(keys, Semantic(f));
    var es := Eligible(b, ps, [fromPath]);
    forall p: nat
      ensures p in es <==> IsSource(b, f, fromPath, p)
    {
      EligibleExact(b, ps, [fromPath], p);
      PositionsExact(keys, Semantic(f), p);
    }
    forall k, l | 0 <= k < l < |ps|
      ensures ps[k] < ps[l]
    {
      PositionsAscend(keys, Semantic(f), k, l);
    }
    assert forall k | 0 <= k < |es| :: es[k] in es;
    if OnlySource(b, f, fromPath, e) {
      assert e in es;
      if |es| > 1 {
        EligibleOnce(b, ps, [fromPath], 0, 1);
      }
    }
    if es == [e] {
      assert e in es;
      assert OnlySource(b, f, fromPath, e);
    }
  }

  lemma ExactHidden(b: Baseline, run: Run, ds: seq<Diagnostic>, d: Diagnostic)
    requires d in ds && d.kind.Lint? && GlobalReason(b, run).None? && d.finding in Known(b)
    ensures !VerdictOn(b, run, ds, d).visible
      <==> exists e: nat :: Current(b, run.now, e) && ExactPair(b, ds, d.finding, e)
  {
    hide Positions, Eligible, IncompatibilityReason, OnlyAt;
    var f := d.finding;
    var at :| 0 <= at < |ds| && ds[at] == d;
    PositionsExact(Findings(ds), f, at);
    assert Count(Findings(ds), f) >= 1;
    Absent(Known(b), f);
    SoleExactly(Findings(ds), f);
    var ps := Positions(Known(b), f);
    OnlyAtExactly(Known(b), f, ps[0]);
    if e: nat :| Current(b, run.now, e) && ExactPair(b, ds, f, e) {
      OnlyAtExactly(Known(b), f, e);
    }
    if |ps| == 1 && Count(Findings(ds), f) == 1 {
      assert ps == [ps[0]];
      assert ExactPair(b, ds, f, ps[0]);
      assert ExpiredReason(b, b.entries[ps[0]], run.now).None? ==> Current(b, run.now, ps[0]);
    }
  }

  lemma MovedHidden(b: Baseline, run: Run, ds: seq<Diagnostic>, d: Diagnostic)
    requires d.kind.Lint? && GlobalReason(b, run).None? && d.finding !in Known(b)
    ensures !VerdictOn(b, run, ds, d).visible
      <==> exists e: nat :: Current(b, run.now, e) && MovedPair(b, run.moves, ds, d.finding, e)
  {
    hide Positions, Eligible, IncompatibilityReason, OnlyAt, OnlySource, Semantic, Near, MovedHere, IdentityOfMove;
    var f := d.finding;
    var ev := EvidenceFor(b, run.moves, Findings(ds), f);
    Absent(Known(b), f);
    Absent(Map(Near, Known(b)), Near(f));
    SoleExactly(Map(Semantic, Findings(ds)), Semantic(f));
    var keys := Map(IdentityOfMove, run.moves);
    var ps := Positions(keys, MovedHere(f));
    if e: nat :| Current(b, run.now, e) && MovedPair(b, run.moves, ds, f, e) {
      var m: nat :| m < |run.moves| && OnlyAt(keys, MovedHere(f), m) && OnlySource(b, f, run.moves[m].fromPath, e);
      OnlyAtExactly(keys, MovedHere(f), m);
      EligibleSource(b, f, run.moves[m].fromPath, e);
      assert ev.fromPaths == [run.moves[m].fromPath];
    }
    if |ps| == 1 {
      var m := ps[0];
      assert ps == [m] && ev.fromPaths == [run.moves[m].fromPath];
      OnlyAtExactly(keys, MovedHere(f), m);
      var es := Eligible(b, ev.candidates, ev.fromPaths);
      if |es| == 1 {
        assert es == [es[0]] && es[0] in es;
        EligibleSource(b, f, run.moves[m].fromPath, es[0]);
        assert ExpiredReason(b, b.entries[es[0]], run.now).None? ==> Current(b, run.now, es[0]);
        assert ev.near == [] && ev.semanticCount == 1 ==> MovedPair(b, run.moves, ds, f, es[0]);
      }
    }
  }

  /**
    A diagnostic is hidden exactly when it is lint, engine and profiles are those of the baseline, and a current entry
    of the baseline is its one exact partner or its one partner under a declared move.
   */
  lemma HiddenExactly(b: Baseline, run: Run, ds: seq<Diagnostic>, d: Diagnostic)
    requires d in ds
    ensures !VerdictOn(b, run, ds, d).visible <==>
            && d.kind.Lint? && b.engineVersion == run.engineVersion && b.profiles == run.profiles
            && exists e: nat ::
                 && Current(b, run.now, e)
                 && (ExactPair(b, ds, d.finding, e) || MovedPair(b, run.moves, ds, d.finding, e))
  {
    hide VerdictOn, OnlyAt, Current;
    if d.kind.Lint? && GlobalReason(b, run).None? {
      if d.finding in Known(b) {
        ExactHidden(b, run, ds, d);
      } else {
        MovedHidden(b, run, ds, d);
        forall e: nat
          ensures !ExactPair(b, ds, d.finding, e)
        {
          NotOnly(Known(b), d.finding, e);
        }
      }
    } else {
      OtherShown(b, run, ds, d);
    }
  }

  lemma NotOnly<K(!new)>(keys: seq<K>, key: K, i: nat)
    requires key !in keys
    ensures !OnlyAt(keys, key, i)
  {
  }

  lemma OtherShown(b: Baseline, run: Run, ds: seq<Diagnostic>, d: Diagnostic)
    requires !d.kind.Lint? || GlobalReason(b, run).Some?
    ensures VerdictOn(b, run, ds, d).visible
  {
    hide EvidenceFor;
  }

  // ---------- the verdict in every case ----------

  /** The identities in terms of the fields that they compare. */
  lemma IdentitiesSpelled(f: Finding, g: Finding, m: Move)
    ensures Near(f) == Near(g) <==> f.ruleId == g.ruleId && f.path == g.path
    ensures Semantic(f) == Semantic(g) <==> f.(path := g.path, pathFingerprint := g.pathFingerprint) == g
    ensures IdentityOfMove(m) == MovedHere(f)
            <==> m.toPath == f.path && m.ruleId == f.ruleId && m.semanticFingerprint == f.semanticFingerprint
  {
  }

  /** At or after the given instant. */
  ghost predicate Reached(expiresAt: Option<Text>, now: Text) {
    expiresAt.Some? && (expiresAt.value == now || Less(expiresAt.value, now))
  }

  /** The verdict that uses entry `e`: expired, for the baseline before the entry, or matched and hidden. */
  ghost predicate IsSeen(b: Baseline, now: Text, e: nat, reason: Reason, v: Verdict) {
    && e < |b.entries|
    && v == if Reached(b.expiresAt, now) then Verdict(Expired, BaselineExpired, true, Some(e))
            else if Reached(b.entries[e].expiresAt, now) then Verdict(Expired, EntryExpired, true, Some(e))
            else Verdict(Matched, reason, false, Some(e))
  }

  lemma SeenExactly(b: Baseline, run: Run, e: nat, reason: Reason)
    requires e < |b.entries|
    ensures IsSeen(b, run.now, e, reason, SeenAt(b, run, e, reason))
  {
    if b.expiresAt.Some? {
      LessTotal(run.now, b.expiresAt.value);
    }
    if b.entries[e].expiresAt.Some? {
      LessTotal(run.now, b.entries[e].expiresAt.value);
    }
  }

  /** The first field in which the entry for a rule at a path differs. */
  ghost predicate IsDifference(known: Finding, current: Finding, reason: Reason) {
    match reason
    case RuleVersionChanged => known.ruleVersion != current.ruleVersion
    case SeverityChanged => known.ruleVersion == current.ruleVersion && known.severity != current.severity
    case DiagnosticProvenanceChanged =>
      && known.ruleVersion == current.ruleVersion && known.severity == current.severity
      && (known.provenanceFingerprint, known.profileIds, known.surfaceIds, known.specSnapshotIds)
         != (current.provenanceFingerprint, current.profileIds, current.surfaceIds, current.specSnapshotIds)
    case FingerprintChanged =>
      && known.ruleVersion == current.ruleVersion && known.severity == current.severity
      && (known.provenanceFingerprint, known.profileIds, known.surfaceIds, known.specSnapshotIds)
         == (current.provenanceFingerprint, current.profileIds, current.surfaceIds, current.specSnapshotIds)
    case _ => false
  }

  /** The table of verdicts on a lint diagnostic whose run has the engine and the profiles of the baseline. */
  ghost predicate IsLintVerdict(b: Baseline, run: Run, ds: seq<Diagnostic>, f: Finding, v: Verdict) {
    var known, near, moves := Known(b), Map(Near, Known(b)), Map(IdentityOfMove, run.moves);
    if f in known then
      if exists e: nat :: ExactPair(b, ds, f, e)
      then exists e: nat :: ExactPair(b, ds, f, e) && IsSeen(b, run.now, e, ExactMatch, v)
      else v == Verdict(Ambiguous, FingerprintCollision, true, None)
    else if Near(f) in near then
      if exists e: nat :: OnlyAt(near, Near(f), e)
      then exists e: nat :: && OnlyAt(near, Near(f), e) && IsDifference(known[e], f, v.reason)
                            && v == Verdict(Incompatible, v.reason, true, Some(e))
      else v == Verdict(Ambiguous, FingerprintCollision, true, None)
    else if MovedHere(f) in moves then
      if exists e: nat :: MovedPair(b, run.moves, ds, f, e)
      then exists e: nat :: MovedPair(b, run.moves, ds, f, e) && IsSeen(b, run.now, e, PathMove, v)
      else v == Verdict(Ambiguous, AmbiguousPathMove, true, None)
    else v == Verdict(New, if Semantic(f) in Map(Semantic, known) then PathMoveUnproven else NotInBaseline, true, None)
  }

  /** The verdict on any diagnostic: status, reason, visibility and the entry that it names. */
  ghost predicate IsVerdict(b: Baseline, run: Run, ds: seq<Diagnostic>, d: Diagnostic, v: Verdict) {
    match d.kind
    case ParserError => v == Verdict(New, NonSuppressibleParserError, true, None)
    case ConfigurationError => v == Verdict(New, NonSuppressibleConfigurationError, true, None)
    case Lint =>
      if b.engineVersion != run.engineVersion then v == Verdict(Incompatible, EngineVersionChanged, true, None)
      else if b.profiles != run.profiles then v == Verdict(Incompatible, ProfileIdentityChanged, true, None)
      else IsLintVerdict(b, run, ds, d.finding, v)
  }

  lemma KnownVerdict(b: Baseline, run: Run, ds: seq<Diagnostic>, d: Diagnostic)
    requires d in ds && d.kind.Lint? && GlobalReason(b, run).None? && d.finding in Known(b)
    ensures IsLintVerdict(b, run, ds, d.finding, VerdictOn(b, run, ds, d))
  {
    hide Positions, Eligible, IncompatibilityReason, OnlyAt, IsSeen, SeenAt, MovedPair;
    var f := d.finding;
    var at :| 0 <= at < |ds| && ds[at] == d;
    PositionsExact(Findings(ds), f, at);
    assert Count(Findings(ds), f) >= 1;
    Absent(Known(b), f);
    SoleExactly(Findings(ds), f);
    var ps := Positions(Known(b), f);
    OnlyAtExactly(Known(b), f, ps[0]);
    if e: nat :| ExactPair(b, ds, f, e) {
      OnlyAtExactly(Known(b), f, e);
    }
    if |ps| == 1 && Count(Findings(ds), f) == 1 {
      assert ps == [ps[0]];
      assert ExactPair(b, ds, f, ps[0]);
      SeenExactly(b, run, ps[0], ExactMatch);
    }
  }

  lemma NearVerdict(b: Baseline, run: Run, ds: seq<Diagnostic>, d: Diagnostic)
    requires d.kind.Lint? && GlobalReason(b, run).None? && d.finding !in Known(b)
    requires Near(d.finding) in Map(Near, Known(b))
    ensures IsLintVerdict(b, run, ds, d.finding, VerdictOn(b, run, ds, d))
  {
    hide Positions, Eligible, OnlyAt, IsSeen, SeenAt, MovedPair, Near;
    var f, near := d.finding, Map(Near, Known(b));
    Absent(Known(b), f);
    Absent(near, Near(f));
    var ps := Positions(near, Near(f));
    OnlyAtExactly(near, Near(f), ps[0]);
    if e: nat :| OnlyAt(near, Near(f), e) {
      OnlyAtExactly(near, Near(f), e);
    }
    if |ps| == 1 {
      assert ps == [ps[0]];
      assert OnlyAt(near, Near(f), ps[0]);
      assert IsDifference(Known(b)[ps[0]], f, IncompatibilityReason(Known(b)[ps[0]], f));
    }
  }

  lemma UnknownVerdict(b: Baseline, run: Run, ds: seq<Diagnostic>, d: Diagnostic)
    requires d.kind.Lint? && GlobalReason(b, run).None? && d.finding !in Known(b)
    requires Near(d.finding) !in Map(Near, Known(b))
    ensures IsLintVerdict(b, run, ds, d.finding, VerdictOn(b, run, ds, d))
  {
    hide Positions, Eligible, IncompatibilityReason, OnlyAt, OnlySource, Semantic, Near, MovedHere, IdentityOfMove,
         IsSeen, SeenAt;
    var f := d.finding;
    var ev := EvidenceFor(b, run.moves, Findings(ds), f);
    Absent(Known(b), f);
    Absent(Map(Near, Known(b)), Near(f));
    Absent(Map(Semantic, Known(b)), Semantic(f));
    SoleExactly(Map(Semantic, Findings(ds)), Semantic(f));
    var keys := Map(IdentityOfMove, run.moves);
    Absent(keys, MovedHere(f));
    var ps := Positions(keys, MovedHere(f));
    if e: nat :| MovedPair(b, run.moves, ds, f, e) {
      var m: nat :| m < |run.moves| && OnlyAt(keys, MovedHere(f), m) && OnlySource(b, f, run.moves[m].fromPath, e);
      OnlyAtExactly(keys, MovedHere(f), m);
      EligibleSource(b, f, run.moves[m].fromPath, e);
      assert ev.fromPaths == [run.moves[m].fromPath];
      assert e in Eligible(b, ev.candidates, ev.fromPaths);
      SeenExactly(b, run, e, PathMove);
    } else if |ps| == 1 {
      var m := ps[0];
      assert ps == [m] && ev.fromPaths == [run.moves[m].fromPath];
      OnlyAtExactly(keys, MovedHere(f), m);
      var es := Eligible(b, ev.candidates, ev.fromPaths);
      if |es| == 1 {
        assert es == [es[0]] && es[0] in es;
        EligibleSource(b, f, run.moves[m].fromPath, es[0]);
        assert ev.semanticCount == 1 ==> MovedPair(b, run.moves, ds, f, es[0]);
      }
    }
  }

  /** Every diagnostic gets the verdict of the table, whatever the baseline, the run and the other diagnostics. */
  lemma VerdictExactly(b: Baseline, run: Run, ds: seq<Diagnostic>, d: Diagnostic)
    requires d in ds
    ensures IsVerdict(b, run, ds, d, VerdictOn(b, run, ds, d))
  {
    hide EvidenceFor, IsLintVerdict;
    if d.kind.Lint? && GlobalReason(b, run).None? {
      if d.finding in Known(b) {
        KnownVerdict(b, run, ds, d);
      } else if Near(d.finding) in Map(Near, Known(b)) {
        NearVerdict(b, run, ds, d);
      } else {
        UnknownVerdict(b, run, ds, d);
      }
    }
  }

  /** Once the expiry of the baseline is reached nothing is hidden, and what it would have matched counts as expired. */
  lemma ExpiredBaselineHidesNothing(b: Baseline, run: Run, ds: seq<Diagnostic>, d: Diagnostic)
    requires d in ds && b.expiresAt.Some? && (b.expiresAt.value == run.now || Less(b.expiresAt.value, run.now))
    ensures var v := VerdictOn(b, run, ds, d);
      && v.visible && !v.status.Matched? && (v.Consumes() ==> v.status == Expired && v.reason == BaselineExpired)
  {
    hide VerdictOn, ExactPair, MovedPair, OnlyAt;
    VerdictExactly(b, run, ds, d);
    MatchedOrExpiredConsumes(b, run, ds, d);
  }

  /** The same for the expiry of an entry: who uses it is shown, as expired. */
  lemma ExpiredEntryHidesNothing(b: Baseline, run: Run, ds: seq<Diagnostic>, d: Diagnostic, e: nat)
    requires d in ds && e < |b.entries| && VerdictOn(b, run, ds, d).Consumes()
    requires VerdictOn(b, run, ds, d).entry == Some(e) && (b.expiresAt.None? || Less(run.now, b.expiresAt.value))
    requires var x := b.entries[e].expiresAt; x.Some? && (x.value == run.now || Less(x.value, run.now))
    ensures var v := VerdictOn(b, run, ds, d); v.visible && v.status == Expired && v.reason == EntryExpired
  {
    hide VerdictOn, ExactPair, MovedPair, OnlyAt;
    VerdictExactly(b, run, ds, d);
    if b.expiresAt.Some? {
      LessTotal(run.now, b.expiresAt.value);
    }
  }

  // ---------- the report ----------

  lemma {:induction false} VisibleExactly(cs: seq<Comparison>, c: Comparison)
    ensures c in Visible(cs) <==> c in cs && c.verdict.visible
  {
    if cs != [] {
      VisibleExactly(cs[..|cs| - 1], c);
      assert cs == cs[..|cs| - 1] + [cs[|cs| - 1]];
    }
  }

  lemma {:induction false} VisibleAscends(b: Baseline, run: Run, ds: seq<Diagnostic>, n: nat, i: nat, j: nat)
    requires n <= |ds| && i < j < |Visible(Comparisons(b, run, ds, n))|
    ensures var v := Visible(Comparisons(b, run, ds, n)); v[i].diagnosticIndex < v[j].diagnosticIndex
  {
    hide VerdictOn;
    var cs, rest := Comparisons(b, run, ds, n), Comparisons(b, run, ds, n - 1);
    assert cs[..n - 1] == rest;
    var last := cs[n - 1];
    if j < |Visible(rest)| {
      VisibleAscends(b, run, ds, n - 1, i, j);
    } else {
      VisibleExactly(rest, Visible(rest)[i]);
      assert Visible(rest)[i] in Visible(rest);
    }
  }

  function StatusOf(c: Comparison): Status { c.verdict.status }

  function ExpiredOf(x: StaleEntry): bool { x.expired }

  lemma {:induction false} StatusCounted(cs: seq<Comparison>, status: Status)
    ensures CountStatus(cs, status) == Count(Map(StatusOf, cs), status)
  {
    if cs != [] {
      var n := |cs| - 1;
      StatusCounted(cs[..n], status);
      assert Map(StatusOf, cs)[..n] == Map(StatusOf, cs[..n]);
    }
  }

  lemma {:induction false} ExpiredCounted(ss: seq<StaleEntry>, expired: bool)
    ensures CountExpired(ss, expired) == Count(Map(ExpiredOf, ss), expired)
  {
    if ss != [] {
      var n := |ss| - 1;
      ExpiredCounted(ss[..n], expired);
      assert Map(ExpiredOf, ss)[..n] == Map(ExpiredOf, ss[..n]);
    }
  }

  /** The entries that no diagnostic uses, and whether an expiry that concerns them has been reached. */
  lemma {:induction false} StaleExactly(b: Baseline, now: Text, consumed: set<nat>, n: nat, x: StaleEntry)
    requires n <= |b.entries|
    ensures x in Stale(b, now, consumed, n) <==>
            && x.entryIndex < n && x.entryIndex !in consumed
            && x.ruleId == b.entries[x.entryIndex].finding.ruleId && x.path == b.entries[x.entryIndex].finding.path
            && (x.expired <==> Reached(b.expiresAt, now) || Reached(b.entries[x.entryIndex].expiresAt, now))
  {
    if n > 0 {
      StaleExactly(b, now, consumed, n - 1, x);
      if b.expiresAt.Some? {
        LessTotal(now, b.expiresAt.value);
      }
      if b.entries[n - 1].expiresAt.Some? {
        LessTotal(now, b.entries[n - 1].expiresAt.value);
      }
    }
  }

  /**
    The report in terms of the verdicts: the visible diagnostics in their order, the unused entries, and a summary that
    counts the diagnostics by status.
   */
  lemma ReportExactly(b: Baseline, run: Run, ds: seq<Diagnostic>)
    ensures var report := CompareReport(b, run, ds);
      && (forall i: nat :: i in report.visibleIndexes <==> i < |ds| && VerdictOn(b, run, ds, ds[i]).visible)
      && (forall i, j | 0 <= i < j < |report.visibleIndexes| :: report.visibleIndexes[i] < report.visibleIndexes[j])
      && |report.visibleIds| == |report.visibleIndexes|
      && (forall i | 0 <= i < |report.visibleIds| ::
            report.visibleIndexes[i] < |ds| && report.visibleIds[i] == ds[report.visibleIndexes[i]].id)
    ensures var report := CompareReport(b, run, ds);
      var statuses := Map((d: Diagnostic) => VerdictOn(b, run, ds, d).status, ds);
      var expiries := Map((x: StaleEntry) => x.expired, report.staleEntries);
      report.summary == Summary(Count(statuses, Matched), Count(statuses, New), Count(expiries, false),
                                Count(statuses, Expired) + Count(expiries, true),
                                Count(statuses, Incompatible), Count(statuses, Ambiguous))
  {
    hide VerdictOn, Stale, Visible, CountStatus, CountExpired, Consumed, Count;
    var cs := Comparisons(b, run, ds, |ds|);
    var report, v := CompareReport(b, run, ds), Visible(cs);
    var statuses := Map((d: Diagnostic) => VerdictOn(b, run, ds, d).status, ds);
    assert Map(StatusOf, cs) == statuses;
    assert Map(ExpiredOf, report.staleEntries) == Map((x: StaleEntry) => x.expired, report.staleEntries);
    StatusCounted(cs, Matched);
    StatusCounted(cs, New);
    StatusCounted(cs, Incompatible);
    StatusCounted(cs, Ambiguous);
    StatusCounted(cs, Expired);
    ExpiredCounted(report.staleEntries, true);
    ExpiredCounted(report.staleEntries, false);
    forall c
      ensures c in v <==> c in cs && c.verdict.visible
    {
      VisibleExactly(cs, c);
    }
    forall i | 0 <= i < |v|
      ensures v[i].diagnosticIndex < |ds| && v[i].diagnosticId == ds[v[i].diagnosticIndex].id
      ensures VerdictOn(b, run, ds, ds[v[i].diagnosticIndex]).visible
    {
      assert v[i] in v;
    }
    forall i: nat | i < |ds| && VerdictOn(b, run, ds, ds[i]).visible
      ensures i in report.visibleIndexes
    {
      assert cs[i] in cs && cs[i] in v;
      var k :| 0 <= k < |v| && v[k] == cs[i];
      assert report.visibleIndexes[k] == i;
    }
    forall i, j | 0 <= i < j < |report.visibleIndexes|
      ensures report.visibleIndexes[i] < report.visibleIndexes[j]
    {
      VisibleAscends(b, run, ds, |ds|, i, j);
    }
  }
}
