/** Progress, cancellation and settlement of one public scan, as a machine driven by its environment. */
module ScanProtocol {
  import opened Text

  datatype StopReason = Cancelled | ProgressFailed | ResourceLimit

  datatype ErrorCode = CancelledError | ProgressError | ResourceError | EngineFailed | InvalidResult

  datatype ProgressState = Started | Running | Completed

  datatype Record = Record(completedUnits: nat, progressUnits: nat, sequence: nat, state: ProgressState)

  /** Whether there is an observer, and how many units the request announces. */
  datatype Config = Config(observed: bool, progressUnits: nat)

  datatype Return = Plain | Throws | Promise

  /** What an observer does with a record: it may abort the caller's signal, and it returns in one of three ways. */
  datatype Reaction = Reaction(aborts: bool, returns_: Return)

  /** How the promise of the executor settles, and whether its value passes the checks of the result. */
  datatype Outcome = Fulfilled(wellFormed: bool) | Rejected

  datatype Settlement = Output | Failed(code: ErrorCode)

  /**
    Where the scan stands: not called, inside the synchronous part of the executor, awaiting the race between the
    executor's promise and the stop promise, awaiting the executor's promise after the stop promise has won, or settled.
   */
  datatype Phase =
    | Fresh
    | Executing
    | Racing
    | Draining
    | Settled(result: Settlement)

  /** `execution` is set once the promise of the executor has settled; the stop promise has settled
      once `stopped` is set. */
  datatype State = State(
    stopped: Option<StopReason>, closed: bool, completedUnits: nat, sequence: nat, delivered: seq<Record>,
    execution: Option<Outcome>, phase: Phase)
  {
    /** The executor has returned a promise, and the scan has not settled. */
    predicate Awaiting() { phase.Racing? || phase.Draining? }
  }

  const START := State(None, false, 0, 0, [], None, Fresh)

  function ErrorForStop(reason: StopReason): ErrorCode {
    match reason
    case Cancelled => CancelledError
    case ProgressFailed => ProgressError
    case ResourceLimit => ResourceError
  }

  // ---------- the transitions ----------

  function Stop(s: State, reason: StopReason): State {
    if s.stopped.Some? then s else s.(stopped := Some(reason))
  }

  function Emit(c: Config, s: State, state: ProgressState, reaction: Reaction): State {
    if !c.observed || s.stopped.Some? || s.closed then s
    else
      var given := s.(delivered := s.delivered + [Record(s.completedUnits, c.progressUnits, s.sequence, state)]);
      var after := if reaction.aborts then Stop(given, Cancelled) else given;
      if reaction.returns_.Plain? then after.(sequence := after.sequence + 1) else Stop(after, ProgressFailed)
  }

  function ReportProgress(c: Config, s: State, reaction: Reaction): State {
    if s.stopped.Some? || s.closed then s
    else if s.completedUnits >= c.progressUnits then Stop(s, ResourceLimit)
    else Emit(c, s.(completedUnits := s.completedUnits + 1), Running, reaction)
  }

  function Settle(s: State, result: Settlement): State {
    s.(phase := Settled(result), closed := true)
  }

  function Begin(c: Config, s: State, aborted: bool, reaction: Reaction): State {
    if aborted then Settle(s, Failed(CancelledError))
    else
      var s1 := Emit(c, s, Started, reaction);
      if s1.stopped.Some? then Settle(s1, Failed(ErrorForStop(s1.stopped.value))) else s1.(phase := Executing)
  }

  /** What follows once the outcome of the executor's promise has been awaited. */
  function Resume(c: Config, s: State, outcome: Outcome, reaction: Reaction): State {
    if s.stopped.Some? then Settle(s, Failed(ErrorForStop(s.stopped.value)))
    else if outcome.Rejected? then Settle(s, Failed(EngineFailed))
    else if s.completedUnits != c.progressUnits || !outcome.wellFormed then Settle(s, Failed(InvalidResult))
    else
      var s1 := Emit(c, s, Completed, reaction);
      Settle(s1, if s1.stopped.Some? then Failed(ErrorForStop(s1.stopped.value)) else Output)
  }

  datatype Event =
    | Call(aborted: bool, reaction: Reaction)
    | Progress(reaction: Reaction)
    | Abort
    | ExecutorThrows
    | ExecutorReturnsOther
    | ExecutorReturnsPromise
    | PromiseSettles(outcome: Outcome)
    | StopWins
    | ExecutionWins(reaction: Reaction)
    | Drained(reaction: Reaction)

  /**
    One thing that happens. What cannot happen in a state leaves it as it is. The executor may report progress at any
    time after it was called, even when its promise or the whole scan has settled. When both promises have settled
    either may have won the race; if it is the stop promise, the executor's promise is awaited once more.
   */
  function Step(c: Config, s: State, e: Event): State {
    match e
    case Call(aborted, reaction) => if s.phase.Fresh? then Begin(c, s, aborted, reaction) else s
    case Progress(reaction) => if s.phase.Fresh? then s else ReportProgress(c, s, reaction)
    case Abort => if s.phase.Fresh? || s.phase.Settled? then s else Stop(s, Cancelled)
    case ExecutorThrows => if s.phase.Executing? then Settle(s, Failed(EngineFailed)) else s
    case ExecutorReturnsOther => if s.phase.Executing? then Settle(Stop(s, ResourceLimit), Failed(EngineFailed)) else s
    case ExecutorReturnsPromise => if s.phase.Executing? then s.(phase := Racing) else s
    case PromiseSettles(outcome) => if s.Awaiting() && s.execution.None? then s.(execution := Some(outcome)) else s
    case StopWins => if s.phase.Racing? && s.stopped.Some? then s.(phase := Draining) else s
    case ExecutionWins(reaction) =>
      if s.phase.Racing? && s.execution.Some? then Resume(c, s, s.execution.value, reaction) else s
    case Drained(reaction) =>
      if s.phase.Draining? && s.execution.Some? then Resume(c, s, s.execution.value, reaction) else s
  }

  function Run(c: Config, s: State, events: seq<Event>): State
    decreases |events|
  {
    if events == [] then s else Run(c, Step(c, s, events[0]), events[1..])
  }

  // ---------- the closures of the scan ----------

  /** The captured variables that the callbacks share. */
  class Scan {
    const config: Config
    var stopped: Option<StopReason>
    var closed: bool
    var completedUnits: nat
    var sequence: nat
    var delivered: seq<Record>
    var execution: Option<Outcome>
    var phase: Phase

    function Now(): State
      reads this
    {
      State(stopped, closed, completedUnits, sequence, delivered, execution, phase)
    }

    constructor (config: Config)
      ensures this.config == config && Now() == START
    {
      this.config := config;
      stopped, closed, completedUnits, sequence, delivered := None, false, 0, 0, [];
      execution, phase := None, Fresh;
    }

    method StopFor(reason: StopReason)
      modifies this
      ensures Now() == Stop(old(Now()), reason)
    {
      if stopped.Some? {
        return;
      }
      stopped := Some(reason);
    }

    method EmitRecord(state: ProgressState, reaction: Reaction)
      modifies this
      ensures Now() == Emit(config, old(Now()), state, reaction)
    {
      if !config.observed || stopped.Some? || closed {
        return;
      }
      delivered := delivered + [Record(completedUnits, config.progressUnits, sequence, state)];
      if reaction.aborts {
        StopFor(Cancelled);
      }
      if !reaction.returns_.Plain? {
        StopFor(ProgressFailed);
        return;
      }
      sequence := sequence + 1;
    }

    method Report(reaction: Reaction)
      modifies this
      ensures Now() == ReportProgress(config, old(Now()), reaction)
    {
      if stopped.Some? || closed {
        return;
      }
      if completedUnits >= config.progressUnits {
        StopFor(ResourceLimit);
        return;
      }
      completedUnits := completedUnits + 1;
      EmitRecord(Running, reaction);
    }

    method Close(result: Settlement)
      modifies this
      ensures Now() == Settle(old(Now()), result)
    {
      phase, closed := Settled(result), true;
    }

    method Start(aborted: bool, reaction: Reaction)
      modifies this
      ensures Now() == Begin(config, old(Now()), aborted, reaction)
    {
      if aborted {
        Close(Failed(CancelledError));
        return;
      }
      EmitRecord(Started, reaction);
      if stopped.Some? {
        Close(Failed(ErrorForStop(stopped.value)));
      } else {
        phase := Executing;
      }
    }

    method Finish(outcome: Outcome, reaction: Reaction)
      modifies this
      ensures Now() == Resume(config, old(Now()), outcome, reaction)
    {
      if stopped.Some? {
        Close(Failed(ErrorForStop(stopped.value)));
      } else if outcome.Rejected? {
        Close(Failed(EngineFailed));
      } else if completedUnits != config.progressUnits || !outcome.wellFormed {
        Close(Failed(InvalidResult));
      } else {
        EmitRecord(Completed, reaction);
        Close(if stopped.Some? then Failed(ErrorForStop(stopped.value)) else Output);
      }
    }

    method Handle(e: Event)
      modifies this
      ensures Now() == Step(config, old(Now()), e)
    {
      match e {
        case Call(aborted, reaction) =>
          if phase.Fresh? {
            Start(aborted, reaction);
          }
        case Progress(reaction) =>
          if !phase.Fresh? {
            Report(reaction);
          }
        case Abort =>
          if !phase.Fresh? && !phase.Settled? {
            StopFor(Cancelled);
          }
        case ExecutorThrows =>
          if phase.Executing? {
            Close(Failed(EngineFailed));
          }
        case ExecutorReturnsOther =>
          if phase.Executing? {
            StopFor(ResourceLimit);
            Close(Failed(EngineFailed));
          }
        case ExecutorReturnsPromise =>
          if phase.Executing? {
            phase := Racing;
          }
        case PromiseSettles(outcome) =>
          if (phase.Racing? || phase.Draining?) && execution.None? {
            execution := Some(outcome);
          }
        case StopWins =>
          if phase.Racing? && stopped.Some? {
            phase := Draining;
          }
        case ExecutionWins(reaction) =>
          if phase.Racing? && execution.Some? {
            Finish(execution.value, reaction);
          }
        case Drained(reaction) =>
          if phase.Draining? && execution.Some? {
            Finish(execution.value, reaction);
          }
      }
    }

    /**
      The environment at work on the shared variables. However a scan goes on, its records stay a beginning of the
      ideal sequence, a success has delivered all of it, and after a stop or settlement nothing more is delivered.
     */
    method Drive(events: seq<Event>)
      requires Inv(config, Now())
      modifies this
      ensures Inv(config, Now()) && Now() == Run(config, old(Now()), events)
      ensures delivered <= Ideal(config, config.progressUnits + 2)
      ensures phase == Settled(Output) ==>
                && stopped.None? && completedUnits == config.progressUnits
                && delivered == if config.observed then Ideal(config, config.progressUnits + 2) else []
      ensures old(stopped).Some? || old(closed) ==> delivered == old(delivered) && completedUnits == old(completedUnits)
      ensures old(stopped).Some? ==> stopped == old(stopped)
      ensures old(closed) ==> phase == old(phase)
    {
      hide Inv, Step;
      ghost var first := Now();
      assert events[0..] == events;
      for i := 0 to |events|
        invariant Inv(config, Now())
        invariant Run(config, Now(), events[i..]) == Run(config, first, events)
      {
        assert events[i..][0] == events[i] && events[i..][1..] == events[i + 1..];
        StepKeepsInv(config, Now(), events[i]);
        Handle(events[i]);
      }
      InvDelivers(config, Now());
      if first.stopped.Some? || first.closed {
        SilentAfterStop(config, first, events);
      }
    }
  }

  // ---------- what every run keeps ----------

  /** The records of a complete scan: started, one for each unit, completed. */
  function IdealRecord(c: Config, i: nat): Record {
    if i == 0 then Record(0, c.progressUnits, 0, Started)
    else if i <= c.progressUnits then Record(i, c.progressUnits, i, Running)
    else Record(c.progressUnits, c.progressUnits, i, Completed)
  }

  function Ideal(c: Config, n: nat): (r: seq<Record>)
    ensures |r| == n && forall i | 0 <= i < n :: r[i] == IdealRecord(c, i)
  {
    seq(n, i requires 0 <= i < n => IdealRecord(c, i))
  }

  /** How many records an unstopped scan has delivered: the first one when it was called, then one for each unit. */
  function Due(c: Config, s: State): nat {
    if !c.observed || s.phase.Fresh? then 0
    else if s.phase == Settled(Output) then c.progressUnits + 2
    else 1 + s.completedUnits
  }

  ghost predicate Inv(c: Config, s: State) {
    && s.completedUnits <= c.progressUnits
    && (s.closed <==> s.phase.Settled?)
    && (s.phase.Fresh? ==> s == START)
    && (s.phase.Executing? ==> s.execution.None?)
    && (s.phase.Draining? ==> s.stopped.Some?)
    && |s.delivered| <= c.progressUnits + 2 && s.delivered == Ideal(c, |s.delivered|)
    && (s.stopped.None? && (!s.closed || s.phase == Settled(Output)) ==>
          |s.delivered| == Due(c, s) && (c.observed ==> s.sequence == |s.delivered|))
    && (s.phase == Settled(Output) ==> s.stopped.None? && s.completedUnits == c.progressUnits)
    && (!c.observed ==> s.delivered == [])
  }

  lemma IdealGrows(c: Config, n: nat)
    ensures Ideal(c, n + 1) == Ideal(c, n) + [IdealRecord(c, n)]
  {
  }

  lemma BeginKeepsInv(c: Config, s: State, aborted: bool, reaction: Reaction)
    requires Inv(c, s) && s.phase.Fresh?
    ensures Inv(c, Begin(c, s, aborted, reaction))
  {
    hide IdealRecord;
    IdealGrows(c, 0);
    NextRecord(c, 0);
  }

  lemma ReportKeepsInv(c: Config, s: State, reaction: Reaction)
    requires Inv(c, s) && !s.phase.Fresh?
    ensures Inv(c, ReportProgress(c, s, reaction))
  {
    hide IdealRecord;
    IdealGrows(c, |s.delivered|);
    NextRecord(c, |s.delivered|);
  }

  lemma ResumeKeepsInv(c: Config, s: State, outcome: Outcome, reaction: Reaction)
    requires Inv(c, s) && s.Awaiting()
    ensures Inv(c, Resume(c, s, outcome, reaction))
  {
    hide IdealRecord;
    IdealGrows(c, |s.delivered|);
    NextRecord(c, |s.delivered|);
  }

  lemma StepKeepsInv(c: Config, s: State, e: Event)
    requires Inv(c, s)
    ensures Inv(c, Step(c, s, e))
  {
    hide Ideal, Begin, ReportProgress, Resume;
    match e {
      case Call(aborted, reaction) =>
        if s.phase.Fresh? {
          BeginKeepsInv(c, s, aborted, reaction);
        }
      case Progress(reaction) =>
        if !s.phase.Fresh? {
          ReportKeepsInv(c, s, reaction);
        }
      case ExecutionWins(reaction) =>
        if s.phase.Racing? && s.execution.Some? {
          ResumeKeepsInv(c, s, s.execution.value, reaction);
        }
      case Drained(reaction) =>
        if s.phase.Draining? && s.execution.Some? {
          ResumeKeepsInv(c, s, s.execution.value, reaction);
        }
      case _ =>
    }
  }

  lemma NextRecord(c: Config, n: nat)
    ensures n == 0 ==> IdealRecord(c, n) == Record(0, c.progressUnits, 0, Started)
    ensures 0 < n <= c.progressUnits ==> IdealRecord(c, n) == Record(n, c.progressUnits, n, Running)
    ensures n == c.progressUnits + 1 ==> IdealRecord(c, n) == Record(c.progressUnits, c.progressUnits, n, Completed)
  {
  }

  lemma {:induction false} RunKeepsInv(c: Config, s: State, events: seq<Event>)
    requires Inv(c, s)
    ensures Inv(c, Run(c, s, events))
    decreases |events|
  {
    hide Inv, Step;
    if events != [] {
      StepKeepsInv(c, s, events[0]);
      RunKeepsInv(c, Step(c, s, events[0]), events[1..]);
    }
  }

  lemma InvDelivers(c: Config, s: State)
    requires Inv(c, s)
    ensures s.delivered <= Ideal(c, c.progressUnits + 2)
    ensures s.phase == Settled(Output) ==>
              && s.stopped.None? && s.completedUnits == c.progressUnits
              && s.delivered == if c.observed then Ideal(c, c.progressUnits + 2) else []
  {
    hide IdealRecord;
  }

  /** In every run the delivered records are a beginning of the ideal sequence. */
  lemma DeliveredIsPrefix(c: Config, events: seq<Event>)
    ensures Run(c, START, events).delivered <= Ideal(c, c.progressUnits + 2)
  {
    hide Step, Run;
    RunKeepsInv(c, START, events);
  }

  /** A successful scan has delivered started, one record for each unit, and completed, numbered from 0
      without a gap. */
  lemma SuccessDeliversAll(c: Config, events: seq<Event>)
    requires Run(c, START, events).phase == Settled(Output)
    ensures var s := Run(c, START, events);
      && s.stopped.None? && s.completedUnits == c.progressUnits
      && s.delivered == if c.observed then Ideal(c, c.progressUnits + 2) else []
  {
    hide Step, Run;
    RunKeepsInv(c, START, events);
  }

  /** Nothing is delivered after a stop or after settlement, and the reason and the result stay. */
  lemma {:induction false} SilentAfterStop(c: Config, s: State, events: seq<Event>)
    requires Inv(c, s) && (s.stopped.Some? || s.closed)
    ensures var r := Run(c, s, events);
      && r.delivered == s.delivered && r.completedUnits == s.completedUnits
      && (s.stopped.Some? ==> r.stopped == s.stopped) && (s.closed ==> r.phase == s.phase)
    decreases |events|
  {
    if events != [] {
      StepKeepsInv(c, s, events[0]);
      SilentAfterStop(c, Step(c, s, events[0]), events[1..]);
    }
  }

  /** How a scan with a promise settles, given its first stop reason, its units and the outcome of that promise. */
  function Decision(c: Config, s: State, outcome: Outcome): Settlement {
    if s.stopped.Some? then Failed(ErrorForStop(s.stopped.value))
    else if outcome.Rejected? then Failed(EngineFailed)
    else if s.completedUnits == c.progressUnits && outcome.wellFormed then Output
    else Failed(InvalidResult)
  }

  lemma PendingStep(c: Config, s: State, e: Event)
    requires Inv(c, s) && s.Awaiting() && s.execution.None?
    ensures var r := Step(c, s, e);
      r.Awaiting() && r.execution == if e.PromiseSettles? then Some(e.outcome) else None
  {
  }

  lemma AwaitedStep(c: Config, s: State, e: Event)
    requires Inv(c, s) && s.Awaiting() && s.execution.Some?
    ensures var r := Step(c, s, e);
      && r.execution == s.execution
      && (r.Awaiting() || (r.closed && r.phase == Settled(Decision(c, r, s.execution.value))))
  {
  }

  /** Settled is settled: neither the result nor what it was decided by changes any more. */
  lemma {:induction false} SettledStays(c: Config, s: State, events: seq<Event>)
    requires Inv(c, s) && s.closed
    ensures var r := Run(c, s, events);
      r.phase == s.phase && r.stopped == s.stopped && r.completedUnits == s.completedUnits && r.execution == s.execution
    decreases |events|
  {
    if events != [] {
      StepKeepsInv(c, s, events[0]);
      SettledStays(c, Step(c, s, events[0]), events[1..]);
    }
  }

  /** The promise has settled: whichever way the race went, the scan settles by the outcome of that promise. */
  lemma {:induction false} SettlesByOutcome(c: Config, s: State, events: seq<Event>)
    requires Inv(c, s) && s.Awaiting() && s.execution.Some? && Run(c, s, events).phase.Settled?
    ensures var r := Run(c, s, events);
      r.execution == s.execution && r.phase == Settled(Decision(c, r, s.execution.value))
    decreases |events|
  {
    hide Step, Inv;
    var e := events[0];
    AwaitedStep(c, s, e);
    StepKeepsInv(c, s, e);
    if Step(c, s, e).Awaiting() {
      SettlesByOutcome(c, Step(c, s, e), events[1..]);
    } else {
      SettledStays(c, Step(c, s, e), events[1..]);
    }
  }

  /**
    Once the executor has returned a promise, no path leads to settlement before that promise has settled, though
    a stop may have won the race long before; and what is settled is decided by the outcome of that very promise.
   */
  lemma {:induction false} SettlesAfterPromise(c: Config, s: State, events: seq<Event>) returns (i: nat)
    requires Inv(c, s) && s.Awaiting() && s.execution.None? && Run(c, s, events).phase.Settled?
    ensures i < |events| && events[i].PromiseSettles?
    ensures Run(c, s, events[..i]).Awaiting() && Run(c, s, events[..i]).execution.None?
    ensures var r := Run(c, s, events);
      r.execution == Some(events[i].outcome) && r.phase == Settled(Decision(c, r, events[i].outcome))
    decreases |events|
  {
    hide Step, Inv;
    var e := events[0];
    PendingStep(c, s, e);
    StepKeepsInv(c, s, e);
    if e.PromiseSettles? {
      i := 0;
      assert events[..0] == [];
      SettlesByOutcome(c, Step(c, s, e), events[1..]);
    } else {
      var j := SettlesAfterPromise(c, Step(c, s, e), events[1..]);
      i := j + 1;
      assert events[..i][0] == e && events[..i][1..] == events[1..][..j];
    }
  }

  /** With a promise under way, the first stop reason decides how the scan fails, however promise and race go on. */
  lemma FirstStopDecides(c: Config, s: State, events: seq<Event>)
    requires Inv(c, s) && s.Awaiting() && s.stopped.Some? && Run(c, s, events).phase.Settled?
    ensures Run(c, s, events).phase.result == Failed(ErrorForStop(s.stopped.value))
  {
    hide Step, Inv, Run;
    SilentAfterStop(c, s, events);
    if s.execution.None? {
      var i := SettlesAfterPromise(c, s, events);
    } else {
      SettlesByOutcome(c, s, events);
    }
  }

  // ---------- which failure follows from what ----------

  /** The caller aborts while the promise is awaited: the scan fails as cancelled, whatever the promise brings. */
  lemma AbortCancels(c: Config, s: State, events: seq<Event>)
    requires Inv(c, s) && s.Awaiting() && s.stopped.None? && Run(c, Step(c, s, Abort), events).phase.Settled?
    ensures Run(c, Step(c, s, Abort), events).phase == Settled(Failed(CancelledError))
  {
    StepKeepsInv(c, s, Abort);
    FirstStopDecides(c, Step(c, s, Abort), events);
  }

  /** The same while the executor still runs, unless the executor fails itself. */
  lemma {:induction false} AbortsEarly(c: Config, s: State, events: seq<Event>)
    requires Inv(c, s) && s.phase == Executing && s.stopped == Some(Cancelled) && Run(c, s, events).phase.Settled?
    ensures Run(c, s, events).phase.result in {Failed(CancelledError), Failed(EngineFailed)}
    decreases |events|
  {
    var e := events[0];
    var r := Step(c, s, e);
    StepKeepsInv(c, s, e);
    if r.phase == Executing {
      AbortsEarly(c, r, events[1..]);
    } else if r.Awaiting() {
      FirstStopDecides(c, r, events[1..]);
    } else {
      SettledStays(c, r, events[1..]);
    }
  }

  lemma AbortWhileExecuting(c: Config, s: State, events: seq<Event>)
    requires Inv(c, s) && s.phase == Executing && s.stopped.None? && Run(c, Step(c, s, Abort), events).phase.Settled?
    ensures Run(c, Step(c, s, Abort), events).phase.result in {Failed(CancelledError), Failed(EngineFailed)}
  {
    StepKeepsInv(c, s, Abort);
    AbortsEarly(c, Step(c, s, Abort), events);
  }

  /** One report more than announced: the scan fails at its resource limit. */
  lemma OneReportTooMany(c: Config, s: State, reaction: Reaction, events: seq<Event>)
    requires Inv(c, s) && s.Awaiting() && s.stopped.None? && s.completedUnits == c.progressUnits
    requires Run(c, Step(c, s, Progress(reaction)), events).phase.Settled?
    ensures Run(c, Step(c, s, Progress(reaction)), events).phase == Settled(Failed(ResourceError))
    ensures Step(c, s, Progress(reaction)).delivered == s.delivered
  {
    StepKeepsInv(c, s, Progress(reaction));
    FirstStopDecides(c, Step(c, s, Progress(reaction)), events);
  }

  /** An observer that throws or returns a promise makes the scan fail, as one that aborts the signal does. */
  lemma ObserverFails(c: Config, s: State, reaction: Reaction, events: seq<Event>)
    requires Inv(c, s) && s.Awaiting() && s.stopped.None? && s.completedUnits < c.progressUnits && c.observed
    requires reaction.aborts || reaction.returns_.Throws? || reaction.returns_.Promise?
    requires Run(c, Step(c, s, Progress(reaction)), events).phase.Settled?
    ensures Run(c, Step(c, s, Progress(reaction)), events).phase
            == Settled(Failed(if reaction.aborts then CancelledError else ProgressError))
  {
    StepKeepsInv(c, s, Progress(reaction));
    FirstStopDecides(c, Step(c, s, Progress(reaction)), events);
  }

  /** An observer that returns in time gets the record of the unit, and the scan goes on. */
  lemma UnitReported(c: Config, s: State, reaction: Reaction)
    requires Inv(c, s) && s.Awaiting() && s.stopped.None? && s.completedUnits < c.progressUnits && c.observed
    requires !reaction.aborts && reaction.returns_.Plain?
    ensures var r := Step(c, s, Progress(reaction));
      && r.stopped.None? && r.phase == s.phase && r.completedUnits == s.completedUnits + 1
      && r.delivered == s.delivered + [Record(r.completedUnits, c.progressUnits, r.completedUnits, Running)]
  {
  }

  /** How the call itself ends: cancelled at once, failed or cancelled by the observer, or with the executor called. */
  lemma CallEnds(c: Config, aborted: bool, reaction: Reaction)
    ensures var s := Step(c, START, Call(aborted, reaction));
      && (aborted ==> s.phase == Settled(Failed(CancelledError)) && s.delivered == [])
      && (!aborted && c.observed ==> s.delivered == [Record(0, c.progressUnits, 0, Started)])
      && (!aborted && !c.observed ==> s.phase == Executing && s.delivered == [])
      && (!aborted && c.observed ==>
            s.phase == if reaction.aborts then Settled(Failed(CancelledError))
                       else if reaction.returns_.Plain? then Executing
                       else Settled(Failed(ProgressError)))
  {
  }

  /** An executor that throws, or returns something else than a promise, has failed. */
  lemma ExecutorFails(c: Config, s: State)
    requires s.phase == Executing
    ensures Step(c, s, ExecutorThrows).phase == Settled(Failed(EngineFailed))
    ensures Step(c, s, ExecutorReturnsOther).phase == Settled(Failed(EngineFailed))
    ensures Step(c, s, ExecutorReturnsPromise).phase == Racing
  {
  }

  /**
    How a scan without a stop ends once the outcome is there: a rejection, then units that are missing or a result that
    is malformed, then what the observer does with the completed record.
   */
  lemma OutcomeEnds(c: Config, s: State, reaction: Reaction)
    requires Inv(c, s) && s.phase == Racing && s.stopped.None? && s.execution.Some?
    ensures var result := Step(c, s, ExecutionWins(reaction)).phase;
      result == Settled(
        if s.execution.value.Rejected? then Failed(EngineFailed)
        else if s.completedUnits < c.progressUnits || !s.execution.value.wellFormed then Failed(InvalidResult)
        else if c.observed && reaction.aborts then Failed(CancelledError)
        else if c.observed && !reaction.returns_.Plain? then Failed(ProgressError)
        else Output)
  {
  }

  // ---------- a scan that goes well ----------

  const QUIET := Reaction(false, Plain)

  function Units(n: nat): seq<Event> {
    if n == 0 then [] else [Progress(QUIET)] + Units(n - 1)
  }

  lemma {:induction false} RunConcat(c: Config, s: State, a: seq<Event>, b: seq<Event>)
    ensures Run(c, s, a + b) == Run(c, Run(c, s, a), b)
    decreases |a|
  {
    hide Step;
    if a == [] {
      assert a + b == b;
    } else {
      assert (a + b)[0] == a[0] && (a + b)[1..] == a[1..] + b;
      RunConcat(c, Step(c, s, a[0]), a[1..], b);
    }
  }

  lemma {:induction false} UnitsRun(c: Config, s: State, n: nat)
    requires s.phase == Racing && s.stopped.None? && s.execution.None? && !s.closed
    requires s.completedUnits + n == c.progressUnits
    ensures var r := Run(c, s, Units(n));
      r.phase == Racing && r.stopped.None? && r.execution.None? && !r.closed && r.completedUnits == c.progressUnits
    decreases n
  {
    if n > 0 {
      assert Units(n)[1..] == Units(n - 1);
      UnitsRun(c, Step(c, s, Progress(QUIET)), n - 1);
    }
  }

  lemma {:induction false} AwaitsOrSettles(c: Config, s: State, events: seq<Event>)
    requires Inv(c, s) && (s.Awaiting() || s.closed)
    ensures var r := Run(c, s, events);
      Inv(c, r) && (r.Awaiting() || (r.closed && r.phase.Settled?))
    decreases |events|
  {
    if events != [] {
      StepKeepsInv(c, s, events[0]);
      AwaitsOrSettles(c, Step(c, s, events[0]), events[1..]);
    }
  }

  /** No scan gets stuck: whatever has happened, once the promise settles the awaiting side of the race goes on. */
  lemma NeverStuck(c: Config, s: State, events: seq<Event>, outcome: Outcome, reaction: Reaction)
    requires Inv(c, s) && s.Awaiting()
    ensures Run(c, s, events + [PromiseSettles(outcome), ExecutionWins(reaction), Drained(reaction)]).phase.Settled?
  {
    hide Inv, Emit, Begin, ReportProgress;
    var ending := [PromiseSettles(outcome), ExecutionWins(reaction), Drained(reaction)];
    RunConcat(c, s, events, ending);
    AwaitsOrSettles(c, s, events);
    var r := Run(c, s, events);
    if r.closed {
      SettledStays(c, r, ending);
    } else {
      var r1 := Step(c, r, ending[0]);
      var r2 := Step(c, r1, ending[1]);
      assert ending[1..][0] == ending[1] && ending[1..][1..] == [ending[2]] && [ending[2]][1..] == [];
      assert Run(c, r2, [ending[2]]) == Step(c, r2, ending[2]);
    }
  }

  /** With a quiet observer, an executor that reports every unit and a good result the scan succeeds,
      whatever the size. */
  lemma ScanCanSucceed(c: Config)
    ensures Run(c, START, [Call(false, QUIET), ExecutorReturnsPromise] + Units(c.progressUnits)
                          + [PromiseSettles(Fulfilled(true)), ExecutionWins(QUIET)]).phase == Settled(Output)
  {
    var opening := [Call(false, QUIET), ExecutorReturnsPromise];
    var closing := [PromiseSettles(Fulfilled(true)), ExecutionWins(QUIET)];
    var s1 := Step(c, START, opening[0]);
    var s2 := Step(c, s1, opening[1]);
    assert opening[1..] == [ExecutorReturnsPromise] && opening[1..][1..] == [];
    assert Run(c, s1, opening[1..]) == s2;
    RunConcat(c, START, opening, Units(c.progressUnits));
    UnitsRun(c, s2, c.progressUnits);
    var s3 := Run(c, s2, Units(c.progressUnits));
    RunConcat(c, START, opening + Units(c.progressUnits), closing);
    var s4 := Step(c, s3, closing[0]);
    assert closing[1..] == [ExecutionWins(QUIET)] && closing[1..][1..] == [];
    assert Run(c, s4, closing[1..]) == Step(c, s4, closing[1]);
  }
}
