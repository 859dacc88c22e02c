/**
 * One WebSocket session of the probe: the read loop, the scan ticker, the scan worker and the heartbeat,
 * sharing the channels `done` and `scanTrigger`, both of capacity 1.
 */
module WsSession {

  /** The read loop; `Reporting`: blocked on or about to do `done <- err` before returning. */
  datatype MainPc = Reading | Reporting | Returned

  /** The scan ticker; `FirstSend`: before its unconditional first trigger. */
  datatype TickerPc = FirstSend | Ticking | TickerTookDone

  /** The scan worker; `Failing`: a result could not be sent, `done <- err` comes next. */
  datatype WorkerPc = Waiting | Scanning | Failing | WorkerGone

  /** The heartbeat; it stops after a failed write or after taking a value from `done`. */
  datatype HeartPc = Beating | GaveUp | HeartTookDone

  /** `done` and `trigger` count the values in the two buffers. */
  datatype State = State(
    main: MainPc, ticker: TickerPc, worker: WorkerPc, heart: HeartPc, done: nat, trigger: nat)

  const CAPACITY := 1

  const SESSION_START := State(Reading, FirstSend, Waiting, Beating, 0, 0)

  datatype Step =
    | Rescan              // a rescan command arrives: trigger unless one is pending
    | OtherMessage
    | ReadFails
    | MainSendsDone
    | TickerSendsFirst
    | Tick                // trigger unless one is pending
    | TickerTakesDone
    | WorkerTakesTrigger  // a scan starts
    | ResultSent
    | ResultFails
    | WorkerSendsDone
    | Beat
    | BeatFails
    | HeartTakesDone

  predicate Enabled(s: State, step: Step) {
    match step
    case Rescan | OtherMessage | ReadFails => s.main == Reading
    case MainSendsDone => s.main == Reporting && s.done < CAPACITY
    case TickerSendsFirst => s.ticker == FirstSend && s.trigger < CAPACITY
    case Tick => s.ticker == Ticking
    case TickerTakesDone => s.ticker == Ticking && s.done > 0
    case WorkerTakesTrigger => s.worker == Waiting && s.trigger > 0
    case ResultSent | ResultFails => s.worker == Scanning
    case WorkerSendsDone => s.worker == Failing && s.done < CAPACITY
    case Beat | BeatFails => s.heart == Beating
    case HeartTakesDone => s.heart == Beating && s.done > 0
  }

  /** A send in a `select` with `default`. */
  function TrySend(buffer: nat): nat {
    if buffer < CAPACITY then buffer + 1 else buffer
  }

  function Apply(s: State, step: Step): State
    requires Enabled(s, step)
  {
    match step
    case Rescan => s.(trigger := TrySend(s.trigger))
    case OtherMessage => s
    case ReadFails => s.(main := Reporting)
    case MainSendsDone => s.(main := Returned, done := s.done + 1)
    case TickerSendsFirst => s.(ticker := Ticking, trigger := s.trigger + 1)
    case Tick => s.(trigger := TrySend(s.trigger))
    case TickerTakesDone => s.(ticker := TickerTookDone, done := s.done - 1)
    case WorkerTakesTrigger => s.(worker := Scanning, trigger := s.trigger - 1)
    case ResultSent => s.(worker := Waiting)
    case ResultFails => s.(worker := Failing)
    case WorkerSendsDone => s.(worker := WorkerGone, done := s.done + 1)
    case Beat => s
    case BeatFails => s.(heart := GaveUp)
    case HeartTakesDone => s.(heart := HeartTookDone, done := s.done - 1)
  }

  // ─── Runs ───

  predicate IsRun(s: State, steps: seq<Step>)
    decreases |steps|
  {
    steps != [] ==> Enabled(s, steps[0]) && IsRun(Apply(s, steps[0]), steps[1..])
  }

  function After(s: State, steps: seq<Step>): State
    requires IsRun(s, steps)
    decreases |steps|
  {
    if steps == [] then s else After(Apply(s, steps[0]), steps[1..])
  }

  ghost predicate Reachable(s: State, steps: seq<Step>) {
    IsRun(SESSION_START, steps) && s == After(SESSION_START, steps)
  }

  function One(b: bool): nat { if b then 1 else 0 }

  /** Values put into `done` are in its buffer or were taken by the ticker or the heartbeat. */
  ghost predicate Inv(s: State) {
    && s.trigger <= CAPACITY
    && s.done + One(s.ticker == TickerTookDone) + One(s.heart == HeartTookDone)
       == One(s.worker == WorkerGone) + One(s.main == Returned)
    && s.done <= CAPACITY
  }

  lemma {:induction false} RunKeepsInv(s: State, steps: seq<Step>)
    requires Inv(s) && IsRun(s, steps)
    ensures Inv(After(s, steps))
    decreases |steps|
  {
    if steps != [] {
      RunKeepsInv(Apply(s, steps[0]), steps[1..]);
    }
  }

  // ─── Can the session always end? ───

  /**
   * In every reachable state past the ticker's first trigger: a read loop that finds `done` full faces a
   * ticker ready to take the value, after which the read loop can send and return.
   */
  lemma TickerUnblocksReadLoop(s: State, steps: seq<Step>)
    requires Reachable(s, steps) && s.ticker != FirstSend
    requires s.main == Reporting && !Enabled(s, MainSendsDone)
    ensures Enabled(s, TickerTakesDone)
    ensures Enabled(Apply(s, TickerTakesDone), MainSendsDone)
  {
    RunKeepsInv(SESSION_START, steps);
  }

  /** The worker's error fills `done`, and the only goroutine left to take it waits for room in `scanTrigger`. */
  predicate Hung(s: State) {
    && s.main == Reporting && s.done == CAPACITY
    && s.ticker == FirstSend && s.trigger == CAPACITY
    && s.worker == WorkerGone
    && s.heart == GaveUp
  }

  ghost predicate CanReturn(s: State) {
    exists more :: IsRun(s, more) && After(s, more).main == Returned
  }

  lemma RunOfTwo(s: State, a: Step, b: Step)
    requires Enabled(s, a) && Enabled(Apply(s, a), b)
    ensures IsRun(s, [a, b]) && After(s, [a, b]) == Apply(Apply(s, a), b)
  {
    assert [a, b][1..] == [b] && [b][1..] == [];
    var s1 := Apply(s, a);
    assert IsRun(Apply(s1, b), []) && After(Apply(s1, b), []) == Apply(s1, b);
    assert IsRun(s1, [b]) && After(s1, [b]) == Apply(s1, b);
  }

  lemma RunOfOneMore(s: State, a: Step, more: seq<Step>)
    requires Enabled(s, a) && IsRun(Apply(s, a), more)
    ensures IsRun(s, [a] + more) && After(s, [a] + more) == After(Apply(s, a), more)
  {
    assert ([a] + more)[1..] == more;
  }

  lemma HungMeansStuck(s: State)
    requires Hung(s)
    ensures forall step :: !Enabled(s, step)
  {}

  /** A read loop that met an error can still return, by some schedule, in every reachable state but the hung ones. */
  lemma ReadLoopCanReturnIff(s: State, steps: seq<Step>)
    requires Reachable(s, steps) && s.main == Reporting
    ensures CanReturn(s) <==> !Hung(s)
  {
    RunKeepsInv(SESSION_START, steps);
    if Hung(s) {
      forall more | IsRun(s, more) ensures After(s, more).main != Returned {
        assert more == [] || Enabled(s, more[0]);
        HungMeansStuck(s);
      }
    } else if s.done == 0 {
      RunOfOneMore(s, MainSendsDone, []);
      assert After(s, [MainSendsDone] + []).main == Returned;
    } else if s.ticker == Ticking {
      RunOfTwo(s, TickerTakesDone, MainSendsDone);
    } else if s.heart == Beating {
      RunOfTwo(s, HeartTakesDone, MainSendsDone);
    } else {
      RunOfTwo(Apply(s, TickerSendsFirst), TickerTakesDone, MainSendsDone);
      RunOfOneMore(s, TickerSendsFirst, [TickerTakesDone, MainSendsDone]);
    }
  }

  // ─── When can it hang? ───

  /** `more` leads from `s` to the hung state. */
  ghost predicate Hangs(s: State, more: seq<Step>) {
    IsRun(s, more) && Hung(After(s, more))
  }

  /**
   * The ticker goroutine has not sent its first trigger, and the others can still fill `scanTrigger` before it and
   * leave the worker's error in `done`. Once the read loop has failed, nobody but the ticker refills `scanTrigger`.
   */
  predicate AtRisk(s: State) {
    && s.ticker == FirstSend
    && match s.main
       case Reading => s.worker != WorkerGone || s.done == CAPACITY
       case Reporting =>
         && s.trigger == CAPACITY
         && (s.worker in {Scanning, Failing} || (s.worker == WorkerGone && s.done == CAPACITY))
       case Returned => false
  }

  lemma RiskIsNeverGained(s: State, step: Step)
    requires Inv(s) && Enabled(s, step) && !AtRisk(s)
    ensures !AtRisk(Apply(s, step))
  {}

  lemma {:induction false} OnlyRiskHangs(s: State, more: seq<Step>)
    requires Inv(s) && Hangs(s, more)
    ensures AtRisk(s)
    decreases |more|
  {
    if more != [] {
      OnlyRiskHangs(Apply(s, more[0]), more[1..]);
      if !AtRisk(s) {
        RiskIsNeverGained(s, more[0]);
      }
    }
  }

  /** The next step towards the hung state. */
  function BadStep(s: State): Step {
    if s.worker == Scanning then ResultFails
    else if s.worker == Failing then WorkerSendsDone
    else if s.trigger == 0 then Rescan
    else if s.worker == Waiting then WorkerTakesTrigger
    else if s.heart == Beating then BeatFails
    else ReadFails
  }

  function StepsToHang(s: State): nat {
    One(s.main == Reading) + One(s.heart == Beating) + One(s.trigger == 0)
    + match s.worker
      case Waiting => 6
      case Scanning => 4
      case Failing => 2
      case WorkerGone => 0
  }

  lemma BadStepIsPossible(s: State)
    requires Inv(s) && AtRisk(s) && !Hung(s)
    ensures Enabled(s, BadStep(s)) && Inv(Apply(s, BadStep(s))) && AtRisk(Apply(s, BadStep(s)))
    ensures StepsToHang(Apply(s, BadStep(s))) < StepsToHang(s)
  {}

  lemma {:induction false} RiskCanHang(s: State) returns (more: seq<Step>)
    requires Inv(s) && AtRisk(s)
    ensures Hangs(s, more)
    decreases StepsToHang(s)
  {
    if Hung(s) {
      more := [];
    } else {
      BadStepIsPossible(s);
      var rest := RiskCanHang(Apply(s, BadStep(s)));
      RunOfOneMore(s, BadStep(s), rest);
      more := [BadStep(s)] + rest;
    }
  }

  /** In every reachable state: the session can still hang for good if and only if it is at risk. */
  lemma HangPossibleIff(s: State, steps: seq<Step>)
    requires Reachable(s, steps)
    ensures (exists more :: Hangs(s, more)) <==> AtRisk(s)
  {
    RunKeepsInv(SESSION_START, steps);
    if AtRisk(s) {
      var more := RiskCanHang(s);
    } else if more :| Hangs(s, more) {
      OnlyRiskHangs(s, more);
    }
  }

  /** A new session is at risk: it hangs if everything fails before the ticker goroutine gets to run. */
  lemma HungIsReachable() returns (s: State, steps: seq<Step>)
    ensures Reachable(s, steps) && Hung(s)
  {
    steps := RiskCanHang(SESSION_START);
    s := After(SESSION_START, steps);
  }

  // ─── What is left after the read loop has returned ───

  /** No step can change anything any more; the ticker may still tick with a trigger pending. */
  ghost predicate Settled(s: State) {
    s.main == Returned && forall step :: Enabled(s, step) ==> Apply(s, step) == s
  }

  predicate AllGone(s: State) {
    s.ticker == TickerTookDone && s.worker == WorkerGone
  }

  /** The worker waits for a trigger that nobody will send: `scanTrigger` is never closed. */
  predicate WorkerWaits(s: State) {
    s.ticker == TickerTookDone && s.worker == Waiting && s.trigger == 0
  }

  /** The ticker waits for room in `scanTrigger`, which nobody will read. */
  predicate TickerBlocked(s: State) {
    s.ticker == FirstSend && s.trigger == CAPACITY && s.worker == WorkerGone
  }

  /** And the worker for room in `done`. */
  predicate BothBlocked(s: State) {
    s.ticker == FirstSend && s.trigger == CAPACITY && s.worker == Failing && s.done == CAPACITY
  }

  predicate Quiet(s: State) {
    s.heart != Beating && (AllGone(s) || WorkerWaits(s) || TickerBlocked(s) || BothBlocked(s))
  }

  lemma QuietIsSettled(s: State)
    requires Inv(s) && s.main == Returned && Quiet(s)
    ensures Settled(s)
  {}

  lemma ChangeIsPossible(s: State)
    requires Inv(s) && s.main == Returned
    requires !Quiet(s)
    ensures Enabled(s, LastStep(s)) && Apply(s, LastStep(s)) != s
    ensures Inv(Apply(s, LastStep(s))) && Apply(s, LastStep(s)).main == Returned
    ensures StepsToSettle(Apply(s, LastStep(s))) < StepsToSettle(s)
  {}

  /** A step of a session whose connection is closed. */
  function LastStep(s: State): Step {
    if s.heart == Beating then BeatFails
    else if s.worker == Scanning then ResultFails
    else if s.worker == Failing && s.done < CAPACITY then WorkerSendsDone
    else if s.ticker == Ticking && s.done > 0 then TickerTakesDone
    else if s.worker == Waiting && s.trigger > 0 then WorkerTakesTrigger
    else if s.ticker == FirstSend then TickerSendsFirst
    else Tick
  }

  function StepsToSettle(s: State): nat {
    One(s.heart == Beating) + One(s.trigger == 0)
    + (match s.ticker case FirstSend => 4 case Ticking => 2 case TickerTookDone => 0)
    + match s.worker
      case Waiting => 12
      case Scanning => 8
      case Failing => 4
      case WorkerGone => 0
  }

  /** In every reachable state after the return: nothing can change any more exactly in one of four situations. */
  lemma SettledIff(s: State, steps: seq<Step>)
    requires Reachable(s, steps) && s.main == Returned
    ensures Settled(s) <==>
      s.heart != Beating && (AllGone(s) || WorkerWaits(s) || TickerBlocked(s) || BothBlocked(s))
  {
    RunKeepsInv(SESSION_START, steps);
    if Quiet(s) {
      QuietIsSettled(s);
    } else {
      ChangeIsPossible(s);
    }
  }

  /** The read loop has returned, and the ticker's first trigger comes after one that the worker will not take. */
  predicate TickerAtRisk(s: State) {
    s.main == Returned && s.ticker == FirstSend && s.trigger == CAPACITY && s.worker != Waiting
  }

  /** From every state after the return, one of the four is reached. */
  lemma {:induction false} Settles(s: State) returns (more: seq<Step>)
    requires Inv(s) && s.main == Returned
    ensures IsRun(s, more) && Settled(After(s, more))
    ensures TickerAtRisk(s) ==> After(s, more).ticker == FirstSend
    decreases StepsToSettle(s)
  {
    if Quiet(s) {
      QuietIsSettled(s);
      more := [];
      assert After(s, more) == s;
    } else {
      ChangeIsPossible(s);
      var rest := Settles(Apply(s, LastStep(s)));
      RunOfOneMore(s, LastStep(s), rest);
      more := [LastStep(s)] + rest;
    }
  }

  ghost predicate LeavesTicker(s: State, more: seq<Step>) {
    IsRun(s, more) && Settled(After(s, more)) && After(s, more).ticker == FirstSend
  }

  lemma {:induction false} OnlyRiskLeavesTicker(s: State, more: seq<Step>)
    requires Inv(s) && s.main == Returned && LeavesTicker(s, more)
    ensures TickerAtRisk(s)
    decreases |more|
  {
    if more != [] {
      OnlyRiskLeavesTicker(Apply(s, more[0]), more[1..]);
    } else if !Quiet(s) {
      ChangeIsPossible(s);
    }
  }

  /** After the return the ticker goroutine can stay for good if and only if it is at risk. */
  lemma TickerStaysIff(s: State, steps: seq<Step>)
    requires Reachable(s, steps) && s.main == Returned
    ensures (exists more :: LeavesTicker(s, more)) <==> TickerAtRisk(s)
  {
    RunKeepsInv(SESSION_START, steps);
    if TickerAtRisk(s) {
      var more := Settles(s);
      assert LeavesTicker(s, more);
    } else if more :| LeavesTicker(s, more) {
      OnlyRiskLeavesTicker(s, more);
    }
  }

  lemma {:induction false} RunSnoc(s: State, steps: seq<Step>, step: Step)
    requires IsRun(s, steps) && Enabled(After(s, steps), step)
    ensures IsRun(s, steps + [step]) && After(s, steps + [step]) == Apply(After(s, steps), step)
    decreases |steps|
  {
    if steps == [] {
      RunOfOneMore(s, step, []);
      assert [] + [step] == [step] + [];
    } else {
      RunSnoc(Apply(s, steps[0]), steps[1..], step);
      assert (steps + [step])[1..] == steps[1..] + [step];
    }
  }

  lemma Extend(s: State, steps: seq<Step>, step: Step, next: State) returns (s': State, longer: seq<Step>)
    requires Reachable(s, steps) && Enabled(s, step) && next == Apply(s, step)
    ensures s' == next && Reachable(s', longer)
  {
    RunSnoc(SESSION_START, steps, step);
    s', longer := next, steps + [step];
  }

  /** All four happen. */
  lemma AllOutcomesAreReachable()
    ensures exists s, steps :: Reachable(s, steps) && Settled(s) && AllGone(s)
    ensures exists s, steps :: Reachable(s, steps) && Settled(s) && WorkerWaits(s)
    ensures exists s, steps :: Reachable(s, steps) && Settled(s) && TickerBlocked(s)
    ensures exists s, steps :: Reachable(s, steps) && Settled(s) && BothBlocked(s)
  {
    var s, steps := ReachAllGone();
    var t, toT := ReachWorkerWaits();
    var u, toU := ReachTickerBlocked();
    var v, toV := ReachBothBlocked();
  }

  lemma ReachAllGone() returns (s: State, steps: seq<Step>)
    ensures Reachable(s, steps) && Settled(s) && AllGone(s)
  {
    s, steps := Extend(SESSION_START, [], TickerSendsFirst, State(Reading, Ticking, Waiting, Beating, 0, 1));
    s, steps := Extend(s, steps, WorkerTakesTrigger, State(Reading, Ticking, Scanning, Beating, 0, 0));
    s, steps := Extend(s, steps, ResultFails, State(Reading, Ticking, Failing, Beating, 0, 0));
    s, steps := Extend(s, steps, WorkerSendsDone, State(Reading, Ticking, WorkerGone, Beating, 1, 0));
    s, steps := Extend(s, steps, HeartTakesDone, State(Reading, Ticking, WorkerGone, HeartTookDone, 0, 0));
    s, steps := Extend(s, steps, ReadFails, State(Reporting, Ticking, WorkerGone, HeartTookDone, 0, 0));
    s, steps := Extend(s, steps, MainSendsDone, State(Returned, Ticking, WorkerGone, HeartTookDone, 1, 0));
    s, steps := Extend(s, steps, TickerTakesDone, State(Returned, TickerTookDone, WorkerGone, HeartTookDone, 0, 0));
  }

  lemma ReachWorkerWaits() returns (s: State, steps: seq<Step>)
    ensures Reachable(s, steps) && Settled(s) && WorkerWaits(s)
  {
    s, steps := Extend(SESSION_START, [], TickerSendsFirst, State(Reading, Ticking, Waiting, Beating, 0, 1));
    s, steps := Extend(s, steps, WorkerTakesTrigger, State(Reading, Ticking, Scanning, Beating, 0, 0));
    s, steps := Extend(s, steps, ResultSent, State(Reading, Ticking, Waiting, Beating, 0, 0));
    s, steps := Extend(s, steps, ReadFails, State(Reporting, Ticking, Waiting, Beating, 0, 0));
    s, steps := Extend(s, steps, MainSendsDone, State(Returned, Ticking, Waiting, Beating, 1, 0));
    s, steps := Extend(s, steps, TickerTakesDone, State(Returned, TickerTookDone, Waiting, Beating, 0, 0));
    s, steps := Extend(s, steps, BeatFails, State(Returned, TickerTookDone, Waiting, GaveUp, 0, 0));
  }

  lemma ReachTickerBlocked() returns (s: State, steps: seq<Step>)
    ensures Reachable(s, steps) && Settled(s) && TickerBlocked(s)
  {
    s, steps := Extend(SESSION_START, [], Rescan, State(Reading, FirstSend, Waiting, Beating, 0, 1));
    s, steps := Extend(s, steps, WorkerTakesTrigger, State(Reading, FirstSend, Scanning, Beating, 0, 0));
    s, steps := Extend(s, steps, ResultFails, State(Reading, FirstSend, Failing, Beating, 0, 0));
    s, steps := Extend(s, steps, WorkerSendsDone, State(Reading, FirstSend, WorkerGone, Beating, 1, 0));
    s, steps := Extend(s, steps, HeartTakesDone, State(Reading, FirstSend, WorkerGone, HeartTookDone, 0, 0));
    s, steps := Extend(s, steps, Rescan, State(Reading, FirstSend, WorkerGone, HeartTookDone, 0, 1));
    s, steps := Extend(s, steps, ReadFails, State(Reporting, FirstSend, WorkerGone, HeartTookDone, 0, 1));
    s, steps := Extend(s, steps, MainSendsDone, State(Returned, FirstSend, WorkerGone, HeartTookDone, 1, 1));
  }

  lemma ReachBothBlocked() returns (s: State, steps: seq<Step>)
    ensures Reachable(s, steps) && Settled(s) && BothBlocked(s)
  {
    s, steps := Extend(SESSION_START, [], Rescan, State(Reading, FirstSend, Waiting, Beating, 0, 1));
    s, steps := Extend(s, steps, WorkerTakesTrigger, State(Reading, FirstSend, Scanning, Beating, 0, 0));
    s, steps := Extend(s, steps, ResultFails, State(Reading, FirstSend, Failing, Beating, 0, 0));
    s, steps := Extend(s, steps, Rescan, State(Reading, FirstSend, Failing, Beating, 0, 1));
    s, steps := Extend(s, steps, BeatFails, State(Reading, FirstSend, Failing, GaveUp, 0, 1));
    s, steps := Extend(s, steps, ReadFails, State(Reporting, FirstSend, Failing, GaveUp, 0, 1));
    s, steps := Extend(s, steps, MainSendsDone, State(Returned, FirstSend, Failing, GaveUp, 1, 1));
  }

  // ─── The ordinary work of the loops ───

  /** A message while the read loop runs, a tick after the first send, a beat while the heartbeat runs. */
  predicate IsWork(s: State, step: Step) {
    || (step in {Rescan, OtherMessage} && s.main == Reading)
    || (step == Tick && s.ticker == Ticking)
    || (step == Beat && s.heart == Beating)
  }

  /** Messages, ticks and beats never block or end anything, in whatever number and order they come. */
  lemma {:induction false} WorkNeverBlocks(s: State, work: seq<Step>)
    requires s.trigger <= CAPACITY && forall step :: step in work ==> IsWork(s, step)
    ensures IsRun(s, work)
    ensures After(s, work) == s.(trigger := if Rescan in work || Tick in work then 1 else s.trigger)
    decreases |work|
  {
    if work != [] {
      assert IsWork(s, work[0]);
      forall step | step in work[1..] ensures IsWork(Apply(s, work[0]), step) {
        assert IsWork(s, step);
      }
      WorkNeverBlocks(Apply(s, work[0]), work[1..]);
      assert work == [work[0]] + work[1..];
    }
  }

  // ─── Rescan requests ───

  /** No request is lost: after a rescan command, a trigger is pending until a scan starts that is later than it. */
  lemma RescanIsNotLost(s: State, more: seq<Step>)
    requires Inv(s) && IsRun(s, [Rescan] + more)
    ensures After(s, [Rescan] + more).trigger == 1 || WorkerTakesTrigger in more
  {
    assert ([Rescan] + more)[1..] == more;
    PendingUntilTaken(Apply(s, Rescan), more);
  }

  lemma {:induction false} PendingUntilTaken(s: State, more: seq<Step>)
    requires Inv(s) && s.trigger == 1 && IsRun(s, more)
    ensures After(s, more).trigger == 1 || WorkerTakesTrigger in more
    decreases |more|
  {
    if more != [] && more[0] != WorkerTakesTrigger {
      PendingUntilTaken(Apply(s, more[0]), more[1..]);
    }
  }

  function Count(steps: seq<Step>, step: Step): nat {
    if steps == [] then 0 else One(steps[0] == step) + Count(steps[1..], step)
  }

  /** No scan without a reason, and never two at once: what the counts of a session's steps satisfy. */
  lemma {:induction false} ScansAreAccountedFor(s: State, steps: seq<Step>)
    requires IsRun(s, steps)
    ensures After(s, steps).trigger + Count(steps, WorkerTakesTrigger)
      <= s.trigger + Count(steps, Rescan) + Count(steps, Tick) + Count(steps, TickerSendsFirst)
    ensures One(s.worker == Scanning) + Count(steps, WorkerTakesTrigger)
      == Count(steps, ResultSent) + Count(steps, ResultFails) + One(After(s, steps).worker == Scanning)
    decreases |steps|
  {
    if steps != [] {
      ScansAreAccountedFor(Apply(s, steps[0]), steps[1..]);
    }
  }

  // ─── What moves whom ───

  /** The read loop leaves by a read error, whatever messages come, and returns by sending it. */
  lemma {:induction false} ReadLoopEnds(s: State, steps: seq<Step>)
    requires IsRun(s, steps)
    ensures After(s, steps).main == Reading <==> s.main == Reading && ReadFails !in steps
    ensures After(s, steps).main == Returned <==> s.main == Returned || MainSendsDone in steps
    decreases |steps|
  {
    if steps != [] {
      ReadLoopEnds(Apply(s, steps[0]), steps[1..]);
      assert steps == [steps[0]] + steps[1..];
    }
  }

  /** The ticker passes its first send and ends by the steps that say so, and by no other. */
  lemma {:induction false} TickerEnds(s: State, steps: seq<Step>)
    requires IsRun(s, steps)
    ensures After(s, steps).ticker == FirstSend <==> s.ticker == FirstSend && TickerSendsFirst !in steps
    ensures After(s, steps).ticker == TickerTookDone <==> s.ticker == TickerTookDone || TickerTakesDone in steps
    decreases |steps|
  {
    if steps != [] {
      TickerEnds(Apply(s, steps[0]), steps[1..]);
      assert steps == [steps[0]] + steps[1..];
    }
  }

  /** The heartbeat ends by a failed beat or a value from `done`. */
  lemma {:induction false} HeartbeatEnds(s: State, steps: seq<Step>)
    requires IsRun(s, steps)
    ensures After(s, steps).heart == GaveUp <==> s.heart == GaveUp || BeatFails in steps
    ensures After(s, steps).heart == HeartTookDone <==> s.heart == HeartTookDone || HeartTakesDone in steps
    decreases |steps|
  {
    if steps != [] {
      HeartbeatEnds(Apply(s, steps[0]), steps[1..]);
      assert steps == [steps[0]] + steps[1..];
    }
  }

  /** The worker ends by sending the error of a result that could not be sent. */
  lemma {:induction false} WorkerEnds(s: State, steps: seq<Step>)
    requires IsRun(s, steps)
    ensures After(s, steps).worker == WorkerGone <==> s.worker == WorkerGone || WorkerSendsDone in steps
    ensures One(s.worker == Failing) + Count(steps, ResultFails)
         == One(After(s, steps).worker == Failing) + Count(steps, WorkerSendsDone)
    decreases |steps|
  {
    if steps != [] {
      WorkerEnds(Apply(s, steps[0]), steps[1..]);
      assert steps == [steps[0]] + steps[1..];
    }
  }

  /** A rescan command, a tick and the first send leave a trigger pending; only the start of a scan takes one. */
  lemma TriggersPend(s: State, step: Step)
    requires s.trigger <= CAPACITY && Enabled(s, step)
    ensures Apply(s, step).trigger ==
      if step in {Rescan, Tick, TickerSendsFirst} then 1
      else if step == WorkerTakesTrigger then 0
      else s.trigger
  {}
}
