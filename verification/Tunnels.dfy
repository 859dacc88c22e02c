/**
 * Tunnels of the probe: openers, relays with their two pumps, and close commands, interleaved at the
 * granularity of one critical section, channel operation or connection operation per step.
 */
module Tunnels {
  import opened Sequences

  datatype Conn = Undialled | Open | Closed

  /** `handleTunnelOpen`: the next thing this goroutine does. */
  datatype OpenerPc = DialTcp | DialWs | CloseTcpAfterFailure | Register | StartRelay | OpenerDone

  /** `tunnelRelay`: the next thing this goroutine does. */
  datatype RelayPc = NotStarted | StartPumps | Await | Unregister | CloseTcp | CloseWs | RelayDone

  datatype PumpPc = Unborn | Pumping | SendingError | PumpDone

  /** `handleTunnelClose`; `o` is the tunnel it took out of the map. */
  datatype CloserPc =
    | LookUp(tunnelId: string)
    | CloseDone(o: nat)
    | CloserTcp(o: nat)
    | CloserWs(o: nat)
    | CloserDone

  /** One open request and all that it creates. */
  datatype Tunnel = Tunnel(
    opener: OpenerPc, relay: RelayPc, pump0: PumpPc, pump1: PumpPc,
    tcp: Conn, ws: Conn,
    doneCloses: nat,  // how often `done` was closed; closing it twice panics
    errCh: nat)       // errors waiting in `errCh`, whose capacity is 2

  const FRESH := Tunnel(DialTcp, NotStarted, Unborn, Unborn, Undialled, Undialled, 0, 0)

  const ERR_CAPACITY := 2

  /** `ids[o]` is the tunnel id of request `o`; `tunnels` is the shared map. */
  datatype State = State(ids: seq<string>, objs: seq<Tunnel>, closers: seq<CloserPc>, tunnels: map<string, nat>)

  // ─── Steps ───

  datatype Step =
    | Opener(o: nat, ok: bool)        // `ok`: whether a dial succeeds
    | Relay(o: nat, onError: bool)    // `onError`: which case of the select fires
    | Pump0(o: nat)
    | Pump1(o: nat)
    | Closer(c: nat)

  ghost predicate Holds(pc: CloserPc) {
    pc.CloseDone? || pc.CloserTcp? || pc.CloserWs?
  }

  ghost predicate WellFormed(s: State) {
    && |s.ids| == |s.objs|
    && (forall c :: 0 <= c < |s.closers| && Holds(s.closers[c]) ==> s.closers[c].o < |s.objs|)
    && (forall id :: id in s.tunnels ==> s.tunnels[id] < |s.objs|)
  }

  predicate PumpEnabled(p: PumpPc, errCh: nat) {
    p == Pumping || (p == SendingError && errCh < ERR_CAPACITY)
  }

  predicate Enabled(s: State, step: Step) {
    match step
    case Opener(o, _) => o < |s.objs| && s.objs[o].opener != OpenerDone
    case Relay(o, onError) =>
      && o < |s.objs| && s.objs[o].relay !in {NotStarted, RelayDone}
      && (s.objs[o].relay == Await ==> if onError then s.objs[o].errCh > 0 else s.objs[o].doneCloses > 0)
    case Pump0(o) => o < |s.objs| && PumpEnabled(s.objs[o].pump0, s.objs[o].errCh)
    case Pump1(o) => o < |s.objs| && PumpEnabled(s.objs[o].pump1, s.objs[o].errCh)
    case Closer(c) => c < |s.closers| && s.closers[c] != CloserDone
  }

  function OpenerMoves(t: Tunnel, ok: bool): Tunnel {
    match t.opener
    case DialTcp => if ok then t.(tcp := Open, opener := DialWs) else t.(opener := OpenerDone)
    case DialWs => if ok then t.(ws := Open, opener := Register) else t.(opener := CloseTcpAfterFailure)
    case CloseTcpAfterFailure => t.(tcp := Closed, opener := OpenerDone)
    case Register => t.(opener := StartRelay)
    case StartRelay => t.(relay := StartPumps, opener := OpenerDone)
    case OpenerDone => t
  }

  function RelayMoves(t: Tunnel, onError: bool): Tunnel
    requires t.relay == Await && onError ==> t.errCh > 0
  {
    match t.relay
    case StartPumps => t.(relay := Await, pump0 := Pumping, pump1 := Pumping)
    case Await => if onError then t.(relay := Unregister, errCh := t.errCh - 1) else t.(relay := Unregister)
    case Unregister => t.(relay := CloseTcp)
    case CloseTcp => t.(relay := CloseWs, tcp := Closed)
    case CloseWs => t.(relay := RelayDone, ws := Closed)
    case _ => t
  }

  ghost function Apply(s: State, step: Step): State
    requires WellFormed(s) && Enabled(s, step)
  {
    match step
    case Opener(o, ok) =>
      s.(objs := s.objs[o := OpenerMoves(s.objs[o], ok)],
         tunnels := if s.objs[o].opener == Register then s.tunnels[s.ids[o] := o] else s.tunnels)
    case Relay(o, onError) =>
      s.(objs := s.objs[o := RelayMoves(s.objs[o], onError)],
         tunnels := if s.objs[o].relay == Unregister then s.tunnels - {s.ids[o]} else s.tunnels)
    case Pump0(o) =>
      var t := s.objs[o];
      s.(objs := s.objs[o := if t.pump0 == Pumping then t.(pump0 := SendingError)
                             else t.(pump0 := PumpDone, errCh := t.errCh + 1)])
    case Pump1(o) =>
      var t := s.objs[o];
      s.(objs := s.objs[o := if t.pump1 == Pumping then t.(pump1 := SendingError)
                             else t.(pump1 := PumpDone, errCh := t.errCh + 1)])
    case Closer(c) =>
      match s.closers[c]
      case LookUp(id) =>
        if id in s.tunnels then
          s.(closers := s.closers[c := CloseDone(s.tunnels[id])], tunnels := s.tunnels - {id})
        else
          s.(closers := s.closers[c := CloserDone])
      case CloseDone(o) =>
        s.(closers := s.closers[c := CloserTcp(o)],
           objs := s.objs[o := s.objs[o].(doneCloses := s.objs[o].doneCloses + 1)])
      case CloserTcp(o) =>
        s.(closers := s.closers[c := CloserWs(o)], objs := s.objs[o := s.objs[o].(tcp := Closed)])
      case CloserWs(o) =>
        s.(closers := s.closers[c := CloserDone], objs := s.objs[o := s.objs[o].(ws := Closed)])
      case CloserDone => s
  }

  // ─── What every step keeps ───

  /** The request got as far as putting its tunnel into the map. */
  ghost predicate Registered(t: Tunnel) {
    t.opener == StartRelay || t.relay != NotStarted
  }

  ghost predicate OpenerOwesTcp(t: Tunnel) {
    t.opener in {DialWs, CloseTcpAfterFailure, Register, StartRelay}
  }

  ghost predicate RelayOwesTcp(t: Tunnel) {
    t.relay in {StartPumps, Await, Unregister, CloseTcp}
  }

  ghost predicate OpenerOwesWs(t: Tunnel) {
    t.opener in {Register, StartRelay}
  }

  ghost predicate RelayOwesWs(t: Tunnel) {
    t.relay in {StartPumps, Await, Unregister, CloseTcp, CloseWs}
  }

  ghost function Finished(t: Tunnel): nat {
    (if t.pump0 == PumpDone then 1 else 0) + (if t.pump1 == PumpDone then 1 else 0)
  }

  /** What holds of one request and its goroutines. */
  ghost predicate TunnelInv(t: Tunnel) {
    && (t.relay != NotStarted ==> t.opener == OpenerDone)
    // Connections: how far they got, and who still has to close them.
    && (t.opener == DialTcp ==> t.tcp == Undialled)
    && (t.opener in {DialTcp, DialWs, CloseTcpAfterFailure} ==> t.ws == Undialled)
    && (t.opener in {DialWs, CloseTcpAfterFailure, Register} ==> t.tcp == Open)
    && (t.opener == Register ==> t.ws == Open)
    && (Registered(t) ==> t.tcp != Undialled && t.ws != Undialled)
    && (t.tcp == Open ==> OpenerOwesTcp(t) || RelayOwesTcp(t))
    && (t.ws == Open ==> OpenerOwesWs(t) || RelayOwesWs(t))
    && (t.relay in {CloseWs, RelayDone} ==> t.tcp == Closed)
    && (t.relay == RelayDone ==> t.ws == Closed)
    // Channels.
    && t.doneCloses <= 1
    && (!Registered(t) ==> t.doneCloses == 0)
    && (t.pump0 == Unborn <==> t.relay in {NotStarted, StartPumps})
    && (t.pump1 == Unborn <==> t.relay in {NotStarted, StartPumps})
    && t.errCh <= Finished(t)
    && (t.relay in {NotStarted, StartPumps, Await} ==> t.errCh == Finished(t))
  }

  /** `c` has taken `o` out of the map and has not closed its `done` yet. */
  ghost predicate AboutToClose(s: State, c: nat, o: nat) {
    c < |s.closers| && s.closers[c] == CloseDone(o)
  }

  /** A tunnel in the map is in nobody's hands; one closer at a time has it in hand, before `done` is closed. */
  ghost predicate MapInv(s: State)
    requires WellFormed(s)
  {
    && (forall id :: id in s.tunnels ==>
          && s.ids[s.tunnels[id]] == id
          && Registered(s.objs[s.tunnels[id]])
          && s.objs[s.tunnels[id]].doneCloses == 0
          && forall c: nat :: !AboutToClose(s, c, s.tunnels[id]))
    && (forall c :: 0 <= c < |s.closers| && Holds(s.closers[c]) ==> Registered(s.objs[s.closers[c].o]))
    && (forall c: nat, o: nat :: AboutToClose(s, c, o) ==> s.objs[o].doneCloses == 0)
    && (forall c: nat, c': nat, o: nat :: AboutToClose(s, c, o) && AboutToClose(s, c', o) ==> c == c')
  }

  ghost predicate Inv(s: State)
  {
    WellFormed(s) && MapInv(s) && forall o :: 0 <= o < |s.objs| ==> TunnelInv(s.objs[o])
  }

  lemma OpenerKeepsInv(s: State, step: Step)
    requires step.Opener? && Inv(s) && Enabled(s, step)
    ensures Inv(Apply(s, step))
  {
    var s' := Apply(s, step);
    assert forall c: nat, o: nat :: AboutToClose(s', c, o) <==> AboutToClose(s, c, o);
    assert TunnelInv(s'.objs[step.o]);
  }

  lemma RelayKeepsInv(s: State, step: Step)
    requires step.Relay? && Inv(s) && Enabled(s, step)
    ensures Inv(Apply(s, step))
  {
    var s' := Apply(s, step);
    assert forall c: nat, o: nat :: AboutToClose(s', c, o) <==> AboutToClose(s, c, o);
    assert TunnelInv(s'.objs[step.o]);
  }

  lemma PumpKeepsInv(s: State, step: Step)
    requires (step.Pump0? || step.Pump1?) && Inv(s) && Enabled(s, step)
    ensures Inv(Apply(s, step))
  {
    var s' := Apply(s, step);
    assert forall c: nat, o: nat :: AboutToClose(s', c, o) <==> AboutToClose(s, c, o);
    assert TunnelInv(s'.objs[step.o]);
  }

  lemma LookUpKeepsInv(s: State, c: nat)
    requires Inv(s) && Enabled(s, Closer(c)) && s.closers[c].LookUp?
    ensures Inv(Apply(s, Closer(c)))
  {
    var s' := Apply(s, Closer(c));
    assert forall c': nat, o: nat :: c' != c ==> (AboutToClose(s', c', o) <==> AboutToClose(s, c', o));
  }

  lemma CloseDoneKeepsInv(s: State, c: nat)
    requires Inv(s) && Enabled(s, Closer(c)) && s.closers[c].CloseDone?
    ensures Inv(Apply(s, Closer(c)))
  {
    var s' := Apply(s, Closer(c));
    var o := s.closers[c].o;
    assert AboutToClose(s, c, o);
    assert forall c': nat, o: nat :: AboutToClose(s', c', o) <==> c' != c && AboutToClose(s, c', o);
    assert TunnelInv(s'.objs[o]);
  }

  lemma CloseConnKeepsInv(s: State, c: nat)
    requires Inv(s) && Enabled(s, Closer(c)) && (s.closers[c].CloserTcp? || s.closers[c].CloserWs?)
    ensures Inv(Apply(s, Closer(c)))
  {
    var s' := Apply(s, Closer(c));
    assert forall c': nat, o: nat :: AboutToClose(s', c', o) <==> AboutToClose(s, c', o);
    assert TunnelInv(s'.objs[s.closers[c].o]);
  }

  lemma StepKeepsInv(s: State, step: Step)
    requires Inv(s) && Enabled(s, step)
    ensures Inv(Apply(s, step))
  {
    match step
    case Opener(_, _) => OpenerKeepsInv(s, step);
    case Relay(_, _) => RelayKeepsInv(s, step);
    case Pump0(_) => PumpKeepsInv(s, step);
    case Pump1(_) => PumpKeepsInv(s, step);
    case Closer(c) =>
      match s.closers[c]
      case LookUp(_) => LookUpKeepsInv(s, c);
      case CloseDone(_) => CloseDoneKeepsInv(s, c);
      case _ => CloseConnKeepsInv(s, c);
  }

  // ─── Runs ───

  ghost predicate IsRun(s: State, steps: seq<Step>)
    requires Inv(s)
    decreases |steps|
  {
    steps != [] ==> Enabled(s, steps[0]) && (StepKeepsInv(s, steps[0]); IsRun(Apply(s, steps[0]), steps[1..]))
  }

  ghost function After(s: State, steps: seq<Step>): (r: State)
    requires Inv(s) && IsRun(s, steps)
    ensures Inv(r) && r.ids == s.ids && |r.closers| == |s.closers|
    decreases |steps|
  {
    if steps == [] then s else StepKeepsInv(s, steps[0]); After(Apply(s, steps[0]), steps[1..])
  }

  /** Nothing has happened yet; any number of open and close requests will arrive, in any order. */
  ghost function Start(ids: seq<string>, closes: seq<string>): (s: State)
    ensures Inv(s)
  {
    State(ids, seq(|ids|, _ => FRESH), seq(|closes|, c requires 0 <= c < |closes| => LookUp(closes[c])), map[])
  }

  /** `s` can be reached by some interleaving. */
  ghost predicate Reachable(s: State, ids: seq<string>, closes: seq<string>, steps: seq<Step>) {
    IsRun(Start(ids, closes), steps) && s == After(Start(ids, closes), steps)
  }

  // ─── Main results, for every interleaving and whether or not ids repeat ───

  /** `done` of a tunnel is closed at most once, and a closer about to close it finds it open. */
  lemma DoneIsClosedAtMostOnce(s: State, ids: seq<string>, closes: seq<string>, steps: seq<Step>, o: nat)
    requires Reachable(s, ids, closes, steps) && o < |s.objs|
    ensures s.objs[o].doneCloses <= 1
    ensures forall c: nat :: c < |s.closers| && s.closers[c] == CloseDone(o) ==> s.objs[o].doneCloses == 0
  {
    assert Inv(s) && TunnelInv(s.objs[o]);
    forall c: nat | c < |s.closers| && s.closers[c] == CloseDone(o) ensures s.objs[o].doneCloses == 0 {
      assert AboutToClose(s, c, o);
    }
  }

  /** An open connection still has an opener or relay that will close it; no pump blocks on `errCh`. */
  lemma ConnectionsAreOwned(s: State, ids: seq<string>, closes: seq<string>, steps: seq<Step>, o: nat)
    requires Reachable(s, ids, closes, steps) && o < |s.objs|
    ensures var t := s.objs[o];
      && (t.tcp == Open ==> OpenerOwesTcp(t) || RelayOwesTcp(t))
      && (t.ws == Open ==> OpenerOwesWs(t) || RelayOwesWs(t))
      && (t.relay == RelayDone ==> t.tcp == Closed && t.ws == Closed)
      && (t.pump0 == SendingError || t.pump1 == SendingError ==> t.errCh < ERR_CAPACITY)
  {
    assert TunnelInv(s.objs[o]);
  }

  /**
   * No goroutine of request `o` can move without waiting for the network. A pump that reads does not wait once
   * the connection it reads from is closed: its read fails at once.
   */
  ghost predicate AtRest(s: State, o: nat)
    requires o < |s.objs|
  {
    var t := s.objs[o];
    && (forall ok :: !Enabled(s, Opener(o, ok)))
    && (forall onError :: !Enabled(s, Relay(o, onError)))
    && (t.pump0 == SendingError || (t.pump0 == Pumping && t.tcp == Closed) ==> !Enabled(s, Pump0(o)))
    && (t.pump1 == SendingError || (t.pump1 == Pumping && t.ws == Closed) ==> !Enabled(s, Pump1(o)))
  }

  /** A request that never got a tunnel, or whose relay is over: nothing is open and no goroutine is left. */
  ghost predicate Released(t: Tunnel) {
    && t.tcp != Open && t.ws != Open && t.opener == OpenerDone
    && if t.relay == NotStarted then !Registered(t) && t.pump0 == t.pump1 == Unborn
       else t.relay == RelayDone && t.pump0 == t.pump1 == PumpDone
  }

  /** A tunnel in use: both connections open, both pumps and the relay waiting, `done` not closed. */
  ghost predicate Established(t: Tunnel) {
    && t.tcp == t.ws == Open && t.opener == OpenerDone && t.relay == Await
    && t.pump0 == t.pump1 == Pumping && t.doneCloses == 0
  }

  /** Nothing leaks and nothing hangs: a request at rest has released everything or is an established tunnel. */
  lemma RequestsAtRestAreClean(s: State, ids: seq<string>, closes: seq<string>, steps: seq<Step>, o: nat)
    requires Reachable(s, ids, closes, steps) && o < |s.objs| && AtRest(s, o)
    ensures Released(s.objs[o]) || Established(s.objs[o])
  {
    var t := s.objs[o];
    assert TunnelInv(t);
    assert !Enabled(s, Opener(o, true));
    assert !Enabled(s, Relay(o, true)) && !Enabled(s, Relay(o, false));
  }

  // ─── What needs distinct ids ───

  /** `o` relays or is about to, and no closer has taken it. */
  ghost predicate Live(s: State, o: nat) {
    && o < |s.objs|
    && Registered(s.objs[o])
    && s.objs[o].relay in {NotStarted, StartPumps, Await}
    && s.objs[o].doneCloses == 0
    && forall c: nat :: !AboutToClose(s, c, o)
  }

  /** A close command for its id would find `o`. */
  ghost predicate Findable(s: State, o: nat)
    requires o < |s.ids|
  {
    s.ids[o] in s.tunnels && s.tunnels[s.ids[o]] == o
  }

  ghost predicate LiveAreFindable(s: State)
    requires |s.ids| == |s.objs|
  {
    forall o: nat :: Live(s, o) ==> Findable(s, o)
  }

  ghost predicate Cleaned(t: Tunnel) {
    t.relay in {CloseTcp, CloseWs, RelayDone}
  }

  ghost predicate CleanedAreGone(s: State)
    requires |s.ids| == |s.objs|
  {
    forall o: nat :: o < |s.objs| && Cleaned(s.objs[o]) ==> s.ids[o] !in s.tunnels
  }

  lemma HandsStayFull(s: State, step: Step, c: nat, o: nat)
    requires Inv(s) && Enabled(s, step) && o < |s.objs| && AboutToClose(s, c, o)
    ensures AboutToClose(Apply(s, step), c, o) || Apply(s, step).objs[o].doneCloses > 0
  {}

  lemma LiveBefore(s: State, step: Step, o: nat)
    requires Inv(s) && Enabled(s, step) && Live(Apply(s, step), o)
    ensures Live(s, o) || (step.Opener? && step.o == o && s.objs[o].opener == Register)
  {
    assert TunnelInv(s.objs[o]);
    forall c: nat ensures !AboutToClose(s, c, o) {
      if AboutToClose(s, c, o) {
        HandsStayFull(s, step, c, o);
      }
    }
  }

  lemma LookUpMissed(s: State, step: Step, o: nat)
    requires Inv(s) && Enabled(s, step) && step.Closer? && Live(Apply(s, step), o)
    ensures s.closers[step.c] != LookUp(s.ids[o]) || !Findable(s, o)
  {
    assert !AboutToClose(Apply(s, step), step.c, o);
  }

  lemma StepKeepsLiveFindable(s: State, step: Step, o: nat)
    requires Inv(s) && Enabled(s, step) && NoDuplicates(s.ids) && LiveAreFindable(s)
    requires Live(Apply(s, step), o)
    ensures Findable(Apply(s, step), o)
  {
    LiveBefore(s, step, o);
    if step.Closer? {
      LookUpMissed(s, step, o);
    }
    assert Live(s, o) ==> Findable(s, o);
    match step
    case Opener(p, ok) =>
    case Relay(p, onError) => if p == o { assert s.objs[o].relay != Unregister; }
    case Pump0(_) =>
    case Pump1(_) =>
    case Closer(c) =>
  }

  ghost predicate Registers(s: State, step: Step, o: nat) {
    step.Opener? && step.o == o && o < |s.objs| && s.objs[o].opener == Register
  }

  /** The relay of `o` unregisters, or a close command takes `o`. */
  ghost predicate Removes(s: State, step: Step, o: nat)
    requires WellFormed(s) && Enabled(s, step)
  {
    || (step.Relay? && step.o == o && s.objs[o].relay == Unregister)
    || (step.Closer? && s.closers[step.c].LookUp? && Apply(s, step).closers[step.c] == CloseDone(o))
  }

  lemma FindableAfterStep(s: State, step: Step, o: nat)
    requires Inv(s) && Enabled(s, step) && NoDuplicates(s.ids) && o < |s.objs|
    ensures Findable(Apply(s, step), o) <==>
      Registers(s, step, o) || (Findable(s, o) && !Removes(s, step, o))
  {
    match step
    case Opener(p, ok) =>
    case Relay(p, onError) =>
    case Pump0(_) =>
    case Pump1(_) =>
    case Closer(c) =>
  }

  lemma RegistrationLasts(s: State, step: Step, o: nat)
    requires Inv(s) && Enabled(s, step) && o < |s.objs|
    ensures Registered(s.objs[o]) ==> Registered(Apply(s, step).objs[o]) && !Registers(s, step, o)
    ensures Registers(s, step, o) || Removes(s, step, o) ==> Registered(Apply(s, step).objs[o])
    ensures Removes(s, step, o) ==> !Registers(s, step, o)
  {
    StepKeepsInv(s, step);
    assert TunnelInv(s.objs[o]);
  }

  lemma StepKeepsCleanedGone(s: State, step: Step, o: nat)
    requires Inv(s) && Enabled(s, step) && NoDuplicates(s.ids) && CleanedAreGone(s)
    requires o < |s.objs| && Cleaned(Apply(s, step).objs[o])
    ensures s.ids[o] !in Apply(s, step).tunnels
  {
    StepKeepsInv(s, step);
    CleaningComesAfterRemoval(s, step, o);
    RegistrationLasts(s, step, o);
    FindableAfterStep(s, step, o);
  }

  lemma CleaningComesAfterRemoval(s: State, step: Step, o: nat)
    requires Inv(s) && Enabled(s, step) && o < |s.objs| && Cleaned(Apply(s, step).objs[o])
    ensures Registered(s.objs[o]) && (Cleaned(s.objs[o]) || Removes(s, step, o))
  {
    assert TunnelInv(s.objs[o]);
  }

  lemma {:induction false} RunKeepsFindable(s: State, steps: seq<Step>)
    requires Inv(s) && NoDuplicates(s.ids) && LiveAreFindable(s) && CleanedAreGone(s) && IsRun(s, steps)
    ensures LiveAreFindable(After(s, steps)) && CleanedAreGone(After(s, steps))
    decreases |steps|
  {
    if steps != [] {
      StepKeepsInv(s, steps[0]);
      var s' := Apply(s, steps[0]);
      forall o: nat | Live(s', o) ensures Findable(s', o) {
        StepKeepsLiveFindable(s, steps[0], o);
      }
      forall o: nat | o < |s'.objs| && Cleaned(s'.objs[o]) ensures s'.ids[o] !in s'.tunnels {
        StepKeepsCleanedGone(s, steps[0], o);
      }
      RunKeepsFindable(s', steps[1..]);
    }
  }

  /** With distinct ids, once a relay has unregistered, no tunnel is left under its id. */
  lemma CleanupLeavesNothing(
      s: State, ids: seq<string>, closes: seq<string>, steps: seq<Step>, o: nat)
    requires Reachable(s, ids, closes, steps) && NoDuplicates(ids)
    requires o < |s.objs| && Cleaned(s.objs[o])
    ensures ids[o] !in s.tunnels
  {
    RunKeepsFindable(Start(ids, closes), steps);
  }

  /** Request `o`, alone, dials twice with success and registers its tunnel. */
  lemma RegisterAlone(s: State, o: nat) returns (s': State)
    requires Inv(s) && o < |s.objs| && s.objs[o] == FRESH
    ensures IsRun(s, [Opener(o, true), Opener(o, true), Opener(o, true)])
    ensures s' == After(s, [Opener(o, true), Opener(o, true), Opener(o, true)])
    ensures s'.objs == s.objs[o := s'.objs[o]] && s'.objs[o].opener == StartRelay && s'.objs[o].relay == NotStarted
    ensures s'.objs[o].doneCloses == 0
    ensures s'.closers == s.closers && s'.tunnels == s.tunnels[s.ids[o] := o]
  {
    var step := Opener(o, true);
    var s1 := Apply(s, step);
    StepKeepsInv(s, step);
    var s2 := Apply(s1, step);
    StepKeepsInv(s1, step);
    s' := Apply(s2, step);
    StepKeepsInv(s2, step);
    assert [step, step, step][1..] == [step, step];
    assert [step, step][1..] == [step];
    assert [step][1..] == [];
    assert IsRun(s', []) && After(s', []) == s';
    assert IsRun(s2, [step]) && After(s2, [step]) == s';
    assert IsRun(s1, [step, step]) && After(s1, [step, step]) == s';
  }

  lemma {:induction false} RunConcat(s: State, a: seq<Step>, b: seq<Step>)
    requires Inv(s) && IsRun(s, a) && IsRun(After(s, a), b)
    ensures IsRun(s, a + b) && After(s, a + b) == After(After(s, a), b)
    decreases |a|
  {
    if a == [] {
      assert a + b == b;
    } else {
      assert (a + b)[1..] == a[1..] + b;
      StepKeepsInv(s, a[0]);
      RunConcat(Apply(s, a[0]), a[1..], b);
    }
  }

  /** Two requests with one id: after both registered, the first is live but a close cannot find it. */
  lemma ReusedIdHidesTunnel(ids: seq<string>, closes: seq<string>, i: nat, j: nat)
    returns (steps: seq<Step>)
    requires i < j < |ids| && ids[i] == ids[j]
    ensures IsRun(Start(ids, closes), steps) && !LiveAreFindable(After(Start(ids, closes), steps))
  {
    var s := Start(ids, closes);
    var s1 := RegisterAlone(s, i);
    var s2 := RegisterAlone(s1, j);
    var a := [Opener(i, true), Opener(i, true), Opener(i, true)];
    var b := [Opener(j, true), Opener(j, true), Opener(j, true)];
    steps := a + b;
    RunConcat(s, a, b);
    assert s2.closers == s.closers;
    assert Live(s2, i) && !Findable(s2, i);
  }

  /**
   * A close command can reach every live tunnel, in every interleaving, if and only if the server never
   * reuses a tunnel id.
   */
  lemma CloseReachesLiveTunnelsIff(ids: seq<string>, closes: seq<string>)
    ensures NoDuplicates(ids) <==>
      forall steps: seq<Step> :: IsRun(Start(ids, closes), steps) ==> LiveAreFindable(After(Start(ids, closes), steps))
  {
    var s := Start(ids, closes);
    if NoDuplicates(ids) {
      forall steps: seq<Step> | IsRun(s, steps) ensures LiveAreFindable(After(s, steps)) {
        RunKeepsFindable(s, steps);
      }
    } else {
      var i, j :| 0 <= i < j < |ids| && ids[i] == ids[j];
      var steps := ReusedIdHidesTunnel(ids, closes, i, j);
    }
  }

  // ─── Which close commands take effect ───

  ghost predicate EverRegisters(s: State, steps: seq<Step>, o: nat)
    requires Inv(s) && IsRun(s, steps)
    decreases |steps|
  {
    steps != [] &&
    (Registers(s, steps[0], o) || (StepKeepsInv(s, steps[0]); EverRegisters(Apply(s, steps[0]), steps[1..], o)))
  }

  ghost predicate EverRemoves(s: State, steps: seq<Step>, o: nat)
    requires Inv(s) && IsRun(s, steps)
    decreases |steps|
  {
    steps != [] &&
    (Removes(s, steps[0], o) || (StepKeepsInv(s, steps[0]); EverRemoves(Apply(s, steps[0]), steps[1..], o)))
  }

  /** A tunnel that was registered and is no longer in the map never comes back. */
  lemma {:induction false} GoneStaysGone(s: State, steps: seq<Step>, o: nat)
    requires Inv(s) && NoDuplicates(s.ids) && IsRun(s, steps) && o < |s.objs|
    requires Registered(s.objs[o]) && !Findable(s, o)
    ensures !Findable(After(s, steps), o)
    decreases |steps|
  {
    if steps != [] {
      StepKeepsInv(s, steps[0]);
      FindableAfterStep(s, steps[0], o);
      RegistrationLasts(s, steps[0], o);
      GoneStaysGone(Apply(s, steps[0]), steps[1..], o);
    }
  }

  lemma RemovedForGood(s: State, steps: seq<Step>, o: nat)
    requires Inv(s) && NoDuplicates(s.ids) && IsRun(s, steps) && o < |s.objs|
    requires steps != [] && Removes(s, steps[0], o)
    ensures !Findable(After(s, steps), o)
  {
    StepKeepsInv(s, steps[0]);
    FindableAfterStep(s, steps[0], o);
    RegistrationLasts(s, steps[0], o);
    GoneStaysGone(Apply(s, steps[0]), steps[1..], o);
  }

  lemma KeptByStep(s: State, step: Step, o: nat)
    requires Inv(s) && NoDuplicates(s.ids) && Enabled(s, step) && o < |s.objs| && !Removes(s, step, o)
    requires Registered(s.objs[o]) ==> Findable(s, o)
    ensures Findable(Apply(s, step), o) <==> Findable(s, o) || Registers(s, step, o)
    ensures Registered(Apply(s, step).objs[o]) ==> Findable(Apply(s, step), o)
  {
    FindableAfterStep(s, step, o);
    RegistrationLasts(s, step, o);
  }

  /** With distinct ids, the map names a tunnel exactly from its registration to its removal. */
  lemma {:induction false} FindableIff(s: State, steps: seq<Step>, o: nat)
    requires Inv(s) && NoDuplicates(s.ids) && IsRun(s, steps) && o < |s.objs|
    requires Registered(s.objs[o]) ==> Findable(s, o)
    ensures Findable(After(s, steps), o) <==>
      (Findable(s, o) || EverRegisters(s, steps, o)) && !EverRemoves(s, steps, o)
    decreases |steps|
  {
    if steps != [] {
      StepKeepsInv(s, steps[0]);
      if Removes(s, steps[0], o) {
        RemovedForGood(s, steps, o);
      } else {
        KeptByStep(s, steps[0], o);
        FindableIff(Apply(s, steps[0]), steps[1..], o);
      }
    }
  }

  /** Close command `c` has taken `o`: what it has done so far. */
  ghost predicate Closing(s: State, c: nat, o: nat)
    requires o < |s.objs|
  {
    var t := s.objs[o];
    && c < |s.closers|
    && match s.closers[c]
       case LookUp(_) => false
       case CloseDone(p) => p == o
       case CloserTcp(p) => p == o && t.doneCloses == 1
       case CloserWs(p) => p == o && t.doneCloses == 1 && t.tcp == Closed
       case CloserDone => t.doneCloses == 1 && t.tcp == t.ws == Closed
  }

  lemma OwnStepKeepsClosing(s: State, c: nat, o: nat)
    requires Inv(s) && Enabled(s, Closer(c)) && o < |s.objs| && Closing(s, c, o)
    ensures Closing(Apply(s, Closer(c)), c, o)
  {
    assert s.closers[c] == CloseDone(o) ==> AboutToClose(s, c, o);
  }

  lemma OtherStepKeepsClosing(s: State, step: Step, c: nat, o: nat)
    requires Inv(s) && Enabled(s, step) && step != Closer(c) && o < |s.objs| && Closing(s, c, o)
    ensures Closing(Apply(s, step), c, o)
  {
    assert TunnelInv(s.objs[o]);
    if step.Closer? && s.closers[step.c] == CloseDone(o) {
      assert AboutToClose(s, step.c, o);
    }
  }

  lemma StepKeepsClosing(s: State, step: Step, c: nat, o: nat)
    requires Inv(s) && Enabled(s, step) && o < |s.objs| && Closing(s, c, o)
    ensures Closing(Apply(s, step), c, o)
  {
    if step == Closer(c) {
      OwnStepKeepsClosing(s, c, o);
    } else {
      OtherStepKeepsClosing(s, step, c, o);
    }
  }

  lemma {:induction false} RunKeepsClosing(s: State, steps: seq<Step>, c: nat, o: nat)
    requires Inv(s) && IsRun(s, steps) && o < |s.objs| && Closing(s, c, o)
    ensures Closing(After(s, steps), c, o)
    decreases |steps|
  {
    if steps != [] {
      StepKeepsInv(s, steps[0]);
      StepKeepsClosing(s, steps[0], c, o);
      RunKeepsClosing(Apply(s, steps[0]), steps[1..], c, o);
    }
  }

  lemma {:induction false} RunKeepsFinished(s: State, steps: seq<Step>, c: nat)
    requires Inv(s) && IsRun(s, steps) && c < |s.closers| && s.closers[c] == CloserDone
    ensures After(s, steps).closers[c] == CloserDone
    decreases |steps|
  {
    if steps != [] {
      StepKeepsInv(s, steps[0]);
      RunKeepsFinished(Apply(s, steps[0]), steps[1..], c);
    }
  }

  /**
   * With distinct ids, for every run and every close command in it: the command takes its tunnel if and only if
   * its look-up falls between the tunnel's registration and its removal. If so, whatever happens next, `done` and
   * both connections are closed once it has finished; if not, it finishes at once and nothing else changes.
   */
  lemma CloseTakesTunnelIff(
      ids: seq<string>, closes: seq<string>, before: seq<Step>, c: nat, o: nat, after: seq<Step>, s: State, s': State)
    requires NoDuplicates(ids) && o < |ids|
    requires Reachable(s, ids, closes, before) && c < |s.closers| && s.closers[c] == LookUp(ids[o])
    requires s' == Apply(s, Closer(c)) && Inv(s') && IsRun(s', after)
    ensures s'.closers[c] == CloseDone(o) <==>
      EverRegisters(Start(ids, closes), before, o) && !EverRemoves(Start(ids, closes), before, o)
    ensures s'.closers[c] == CloseDone(o) ==>
      s' == s.(closers := s'.closers, tunnels := s.tunnels - {ids[o]}) && Closing(After(s', after), c, o)
    ensures s'.closers[c] != CloseDone(o) ==>
      s' == s.(closers := s'.closers) && After(s', after).closers[c] == CloserDone
  {
    FindableIff(Start(ids, closes), before, o);
    if Findable(s, o) {
      RunKeepsClosing(s', after, c, o);
    } else {
      RunKeepsFinished(s', after, c);
    }
  }

  /** A close command that arrives while its tunnel is still being opened is lost: the tunnel goes live all the same. */
  lemma EarlyCloseIsLost(ids: seq<string>, closes: seq<string>, c: nat, o: nat)
    returns (steps: seq<Step>)
    requires o < |ids| && c < |closes| && closes[c] == ids[o]
    ensures IsRun(Start(ids, closes), steps)
    ensures After(Start(ids, closes), steps).closers[c] == CloserDone && Live(After(Start(ids, closes), steps), o)
  {
    var s := Start(ids, closes);
    var s1 := Apply(s, Closer(c));
    StepKeepsInv(s, Closer(c));
    var s2 := RegisterAlone(s1, o);
    var open := [Opener(o, true), Opener(o, true), Opener(o, true)];
    assert [Closer(c)][1..] == [] && IsRun(s1, []) && After(s1, []) == s1;
    RunConcat(s, [Closer(c)], open);
    steps := [Closer(c)] + open;
  }

  // ─── Every run is bounded ───

  function OpenerFuel(pc: OpenerPc): nat {
    match pc
    case DialTcp => 4
    case DialWs => 3
    case Register => 2
    case CloseTcpAfterFailure | StartRelay => 1
    case OpenerDone => 0
  }

  function RelayFuel(pc: RelayPc): nat {
    match pc
    case NotStarted | StartPumps => 5
    case Await => 4
    case Unregister => 3
    case CloseTcp => 2
    case CloseWs => 1
    case RelayDone => 0
  }

  function PumpFuel(pc: PumpPc): nat {
    match pc
    case Unborn | Pumping => 2
    case SendingError => 1
    case PumpDone => 0
  }

  function CloserFuel(pc: CloserPc): nat {
    match pc
    case LookUp(_) => 4
    case CloseDone(_) => 3
    case CloserTcp(_) => 2
    case CloserWs(_) => 1
    case CloserDone => 0
  }

  function TunnelFuel(t: Tunnel): nat {
    OpenerFuel(t.opener) + RelayFuel(t.relay) + PumpFuel(t.pump0) + PumpFuel(t.pump1)
  }

  function TunnelsFuel(ts: seq<Tunnel>): nat {
    if ts == [] then 0 else TunnelFuel(ts[0]) + TunnelsFuel(ts[1..])
  }

  function ClosersFuel(cs: seq<CloserPc>): nat {
    if cs == [] then 0 else CloserFuel(cs[0]) + ClosersFuel(cs[1..])
  }

  lemma {:induction false} TunnelsFuelOfUpdate(ts: seq<Tunnel>, i: nat, t: Tunnel)
    requires i < |ts|
    ensures TunnelsFuel(ts[i := t]) + TunnelFuel(ts[i]) == TunnelsFuel(ts) + TunnelFuel(t)
  {
    if i == 0 {
      assert ts[0 := t][1..] == ts[1..];
    } else {
      TunnelsFuelOfUpdate(ts[1..], i - 1, t);
      assert ts[i := t][1..] == ts[1..][i - 1 := t];
    }
  }

  lemma {:induction false} ClosersFuelOfUpdate(cs: seq<CloserPc>, i: nat, c: CloserPc)
    requires i < |cs|
    ensures ClosersFuel(cs[i := c]) + CloserFuel(cs[i]) == ClosersFuel(cs) + CloserFuel(c)
  {
    if i == 0 {
      assert cs[0 := c][1..] == cs[1..];
    } else {
      ClosersFuelOfUpdate(cs[1..], i - 1, c);
      assert cs[i := c][1..] == cs[1..][i - 1 := c];
    }
  }

  function Fuel(s: State): nat {
    TunnelsFuel(s.objs) + ClosersFuel(s.closers)
  }

  lemma CloserBurnsFuel(s: State, c: nat)
    requires Inv(s) && Enabled(s, Closer(c))
    ensures Fuel(Apply(s, Closer(c))) < Fuel(s)
  {
    var s' := Apply(s, Closer(c));
    ClosersFuelOfUpdate(s.closers, c, s'.closers[c]);
    if Holds(s.closers[c]) {
      var o := s.closers[c].o;
      TunnelsFuelOfUpdate(s.objs, o, s'.objs[o]);
      assert s'.objs == s.objs[o := s'.objs[o]] && TunnelFuel(s'.objs[o]) == TunnelFuel(s.objs[o]);
    }
  }

  lemma OpenerBurnsFuel(t: Tunnel, ok: bool)
    requires TunnelInv(t) && t.opener != OpenerDone
    ensures TunnelFuel(OpenerMoves(t, ok)) < TunnelFuel(t)
  {}

  lemma RelayBurnsFuel(t: Tunnel, onError: bool)
    requires TunnelInv(t) && t.relay !in {NotStarted, RelayDone} && (t.relay == Await && onError ==> t.errCh > 0)
    ensures TunnelFuel(RelayMoves(t, onError)) < TunnelFuel(t)
  {}

  /** A step of a request changes that request only, and burns its fuel. */
  lemma RequestBurnsFuel(s: State, step: Step)
    requires Inv(s) && Enabled(s, step) && !step.Closer?
    ensures Apply(s, step).closers == s.closers
    ensures Apply(s, step).objs == s.objs[step.o := Apply(s, step).objs[step.o]]
    ensures TunnelFuel(Apply(s, step).objs[step.o]) < TunnelFuel(s.objs[step.o])
  {
    assert TunnelInv(s.objs[step.o]);
    match step
    case Opener(o, ok) => OpenerBurnsFuel(s.objs[o], ok);
    case Relay(o, onError) => RelayBurnsFuel(s.objs[o], onError);
    case _ =>
  }

  lemma StepBurnsFuel(s: State, step: Step)
    requires Inv(s) && Enabled(s, step)
    ensures Fuel(Apply(s, step)) < Fuel(s)
  {
    if step.Closer? {
      CloserBurnsFuel(s, step.c);
    } else {
      RequestBurnsFuel(s, step);
      TunnelsFuelOfUpdate(s.objs, step.o, Apply(s, step).objs[step.o]);
    }
  }

  lemma {:induction false} RunBurnsFuel(s: State, steps: seq<Step>)
    requires Inv(s) && IsRun(s, steps)
    ensures |steps| <= Fuel(s)
    decreases |steps|
  {
    if steps != [] {
      StepKeepsInv(s, steps[0]);
      StepBurnsFuel(s, steps[0]);
      RunBurnsFuel(Apply(s, steps[0]), steps[1..]);
    }
  }

  lemma {:induction false} FreshFuel(ts: seq<Tunnel>)
    requires forall i :: 0 <= i < |ts| ==> ts[i] == FRESH
    ensures TunnelsFuel(ts) == 13 * |ts|
  {
    if ts != [] {
      FreshFuel(ts[1..]);
    }
  }

  lemma {:induction false} LookUpFuel(cs: seq<CloserPc>)
    requires forall i :: 0 <= i < |cs| ==> cs[i].LookUp?
    ensures ClosersFuel(cs) == 4 * |cs|
  {
    if cs != [] {
      LookUpFuel(cs[1..]);
    }
  }

  /** Nobody retries: no run takes more than 13 steps for each open request and 4 for each close command. */
  lemma RunsAreBounded(ids: seq<string>, closes: seq<string>, steps: seq<Step>)
    requires IsRun(Start(ids, closes), steps)
    ensures |steps| <= 13 * |ids| + 4 * |closes|
  {
    RunBurnsFuel(Start(ids, closes), steps);
    FreshFuel(Start(ids, closes).objs);
    LookUpFuel(Start(ids, closes).closers);
  }

  /** How many steps of the run the opener of `o` takes. */
  ghost function OpenerSteps(steps: seq<Step>, o: nat): nat {
    if steps == [] then 0
    else (if IsOpenerStep(steps[0], o) then 1 else 0) + OpenerSteps(steps[1..], o)
  }

  ghost predicate IsOpenerStep(step: Step, o: nat) {
    step.Opener? && step.o == o
  }

  lemma OpenerStepBurns(s: State, step: Step, o: nat)
    requires Inv(s) && Enabled(s, step) && o < |s.objs|
    ensures OpenerFuel(Apply(s, step).objs[o].opener)
         <= OpenerFuel(s.objs[o].opener) - if IsOpenerStep(step, o) then 1 else 0
  {}

  /** No opener takes more than four steps. */
  lemma {:induction false} OpenerStepsAreFew(s: State, steps: seq<Step>, o: nat)
    requires Inv(s) && IsRun(s, steps) && o < |s.objs|
    ensures OpenerSteps(steps, o) <= OpenerFuel(s.objs[o].opener) <= 4
    decreases |steps|
  {
    if steps != [] {
      StepKeepsInv(s, steps[0]);
      OpenerStepBurns(s, steps[0], o);
      OpenerStepsAreFew(Apply(s, steps[0]), steps[1..], o);
    }
  }

  // ─── Failed dials ───

  /** The step in which one of the dials of `o` fails. */
  ghost predicate FailsToDial(s: State, step: Step, o: nat) {
    step == Opener(o, false) && o < |s.objs| && s.objs[o].opener in {DialTcp, DialWs}
  }

  ghost predicate EverFailsToDial(s: State, steps: seq<Step>, o: nat)
    requires Inv(s) && IsRun(s, steps)
    decreases |steps|
  {
    steps != [] &&
    (FailsToDial(s, steps[0], o) || (StepKeepsInv(s, steps[0]); EverFailsToDial(Apply(s, steps[0]), steps[1..], o)))
  }

  /** The request is given up: at most closing what it had dialled is left to do. */
  ghost predicate GivenUp(t: Tunnel) {
    t.opener in {CloseTcpAfterFailure, OpenerDone} && t.relay == NotStarted && t.ws == Undialled
  }

  lemma {:induction false} GivenUpForGood(s: State, steps: seq<Step>, o: nat)
    requires Inv(s) && IsRun(s, steps) && o < |s.objs| && GivenUp(s.objs[o])
    ensures GivenUp(After(s, steps).objs[o]) && !EverRegisters(s, steps, o)
    decreases |steps|
  {
    if steps != [] {
      StepKeepsInv(s, steps[0]);
      assert TunnelInv(s.objs[o]);
      GivenUpForGood(Apply(s, steps[0]), steps[1..], o);
    }
  }

  lemma {:induction false} RegisteredHasDialled(s: State, steps: seq<Step>, o: nat)
    requires Inv(s) && IsRun(s, steps) && o < |s.objs| && Registered(s.objs[o])
    ensures !EverFailsToDial(s, steps, o)
    decreases |steps|
  {
    assert TunnelInv(s.objs[o]);
    if steps != [] {
      StepKeepsInv(s, steps[0]);
      RegistrationLasts(s, steps[0], o);
      RegisteredHasDialled(Apply(s, steps[0]), steps[1..], o);
    }
  }

  lemma {:induction false} FailureGivesUp(s: State, steps: seq<Step>, o: nat)
    requires Inv(s) && IsRun(s, steps) && o < |s.objs| && EverFailsToDial(s, steps, o)
    ensures GivenUp(After(s, steps).objs[o]) && !EverRegisters(s, steps, o)
    decreases |steps|
  {
    var s' := Apply(s, steps[0]);
    StepKeepsInv(s, steps[0]);
    assert TunnelInv(s.objs[o]);
    if FailsToDial(s, steps[0], o) {
      GivenUpForGood(s', steps[1..], o);
    } else {
      RegistrationLasts(s, steps[0], o);
      if Registers(s, steps[0], o) {
        RegisteredHasDialled(s', steps[1..], o);
      } else {
        FailureGivesUp(s', steps[1..], o);
      }
    }
  }

  /**
   * In every run: a request with a failed dial never registers a tunnel, nothing of it stays open but the first
   * connection until its opener has closed it, and then the opener takes no further step.
   */
  lemma FailedDialEndsRequest(ids: seq<string>, closes: seq<string>, steps: seq<Step>, o: nat, t: Tunnel)
    requires IsRun(Start(ids, closes), steps) && o < |ids| && EverFailsToDial(Start(ids, closes), steps, o)
    requires t == After(Start(ids, closes), steps).objs[o]
    ensures !EverRegisters(Start(ids, closes), steps, o) && !Registered(t) && t.ws == Undialled
    ensures t.tcp == Open ==> t.opener == CloseTcpAfterFailure
    ensures t.tcp != Open ==> forall ok :: !Enabled(After(Start(ids, closes), steps), Opener(o, ok))
  {
    FailureGivesUp(Start(ids, closes), steps, o);
    assert TunnelInv(t);
  }

  // ─── Errors of the pumps ───

  /** The relay of `o` takes an error. */
  ghost function ErrorTaken(s: State, step: Step, o: nat): nat {
    if step == Relay(o, true) && o < |s.objs| && s.objs[o].relay == Await then 1 else 0
  }

  /** How many errors the relay of `o` takes in the run. */
  ghost function ErrorsTaken(s: State, steps: seq<Step>, o: nat): nat
    requires Inv(s) && IsRun(s, steps)
    decreases |steps|
  {
    if steps == [] then 0
    else
      StepKeepsInv(s, steps[0]);
      ErrorTaken(s, steps[0], o) + ErrorsTaken(Apply(s, steps[0]), steps[1..], o)
  }

  lemma CloserKeepsErrors(s: State, c: nat, o: nat)
    requires Inv(s) && Enabled(s, Closer(c)) && o < |s.objs|
    ensures Apply(s, Closer(c)).objs[o].errCh == s.objs[o].errCh
    ensures Finished(Apply(s, Closer(c)).objs[o]) == Finished(s.objs[o])
  {}

  lemma ErrorStep(s: State, step: Step, o: nat)
    requires Inv(s) && Enabled(s, step) && o < |s.objs|
    ensures Apply(s, step).objs[o].errCh + ErrorTaken(s, step, o) + Finished(s.objs[o])
         == s.objs[o].errCh + Finished(Apply(s, step).objs[o])
  {
    if step.Closer? {
      CloserKeepsErrors(s, step.c, o);
    } else if step.o == o {
      assert TunnelInv(s.objs[o]);
    }
  }

  /** Every error a pump sends is taken by the relay or still waits in `errCh`. */
  lemma {:induction false} ErrorsAreAccountedFor(s: State, steps: seq<Step>, o: nat)
    requires Inv(s) && IsRun(s, steps) && o < |s.objs|
    ensures After(s, steps).objs[o].errCh + ErrorsTaken(s, steps, o) + Finished(s.objs[o])
         == s.objs[o].errCh + Finished(After(s, steps).objs[o])
    decreases |steps|
  {
    if steps != [] {
      StepKeepsInv(s, steps[0]);
      ErrorStep(s, steps[0], o);
      ErrorsAreAccountedFor(Apply(s, steps[0]), steps[1..], o);
    }
  }

  // ─── Why a tunnel ends ───

  /** The relay has stopped waiting. */
  ghost predicate TornDown(t: Tunnel) {
    t.relay in {Unregister, CloseTcp, CloseWs, RelayDone}
  }

  lemma TearingDownHasReason(s: State, step: Step, o: nat)
    requires Inv(s) && Enabled(s, step) && o < |s.objs| && !TornDown(s.objs[o]) && TornDown(Apply(s, step).objs[o])
    ensures ErrorTaken(s, step, o) == 1 || s.objs[o].doneCloses > 0
  {}

  lemma StepKeepsDone(s: State, step: Step, o: nat)
    requires WellFormed(s) && Enabled(s, step) && o < |s.objs|
    ensures s.objs[o].doneCloses <= Apply(s, step).objs[o].doneCloses
  {}

  lemma {:induction false} DoneStaysClosed(s: State, steps: seq<Step>, o: nat)
    requires Inv(s) && IsRun(s, steps) && o < |s.objs|
    ensures s.objs[o].doneCloses <= After(s, steps).objs[o].doneCloses
    decreases |steps|
  {
    if steps != [] {
      StepKeepsInv(s, steps[0]);
      StepKeepsDone(s, steps[0], o);
      DoneStaysClosed(Apply(s, steps[0]), steps[1..], o);
    }
  }

  lemma {:induction false} TornDownHasReason(s: State, steps: seq<Step>, o: nat)
    requires Inv(s) && IsRun(s, steps) && o < |s.objs| && !TornDown(s.objs[o]) && TornDown(After(s, steps).objs[o])
    ensures ErrorsTaken(s, steps, o) > 0 || After(s, steps).objs[o].doneCloses > 0
    decreases |steps|
  {
    var s' := Apply(s, steps[0]);
    StepKeepsInv(s, steps[0]);
    if TornDown(s'.objs[o]) {
      TearingDownHasReason(s, steps[0], o);
      DoneStaysClosed(s, steps, o);
    } else {
      TornDownHasReason(s', steps[1..], o);
    }
  }

  /** In every run, a tunnel is torn down only after a pump's error was taken or a close command closed `done`. */
  lemma TunnelsEndForAReason(ids: seq<string>, closes: seq<string>, steps: seq<Step>, o: nat)
    requires IsRun(Start(ids, closes), steps) && o < |ids| && TornDown(After(Start(ids, closes), steps).objs[o])
    ensures ErrorsTaken(Start(ids, closes), steps, o) > 0 || After(Start(ids, closes), steps).objs[o].doneCloses == 1
  {
    TornDownHasReason(Start(ids, closes), steps, o);
    assert TunnelInv(After(Start(ids, closes), steps).objs[o]);
  }

  // ─── Nobody waits for others, but the relay for its end ───

  lemma Prepend(s: State, step: Step, rest: seq<Step>)
    requires Inv(s) && Enabled(s, step) && Inv(Apply(s, step)) && IsRun(Apply(s, step), rest)
    ensures IsRun(s, [step] + rest) && After(s, [step] + rest) == After(Apply(s, step), rest)
  {
    assert ([step] + rest)[1..] == rest;
  }

  /** Whatever the others do meanwhile: an opener can run to its end, with any outcome of each dial still to come. */
  lemma {:induction false} OpenerRunsAlone(s: State, o: nat, tcpOk: bool, wsOk: bool)
    returns (steps: seq<Step>, t: Tunnel)
    requires Inv(s) && o < |s.objs|
    ensures IsRun(s, steps) && t == After(s, steps).objs[o] && t.opener == OpenerDone
    ensures forall x :: x in steps ==> IsOpenerStep(x, o)
    ensures s.objs[o].opener == OpenerDone ==> t == s.objs[o]
    ensures s.objs[o].opener != OpenerDone ==>
      (Registered(t) <==>
         && s.objs[o].opener != CloseTcpAfterFailure
         && (s.objs[o].opener == DialTcp ==> tcpOk)
         && (s.objs[o].opener in {DialTcp, DialWs} ==> wsOk))
    ensures !Registered(t) ==> t.tcp != Open && t.ws != Open
    decreases OpenerFuel(s.objs[o].opener)
  {
    steps, t := [], s.objs[o];
    assert TunnelInv(t);
    if t.opener != OpenerDone {
      var step := Opener(o, if t.opener == DialTcp then tcpOk else wsOk);
      StepKeepsInv(s, step);
      steps, t := OpenerRunsAlone(Apply(s, step), o, tcpOk, wsOk);
      Prepend(s, step, steps);
      steps := [step] + steps;
    }
  }

  /** A pump can fail at any moment, and then needs nobody to take its error before it ends. */
  lemma {:induction false} PumpRunsAlone(s: State, o: nat, step: Step) returns (steps: seq<Step>, t: Tunnel)
    requires Inv(s) && o < |s.objs| && s.objs[o].pump0 != Unborn && s.objs[o].pump1 != Unborn
    requires step in {Pump0(o), Pump1(o)}
    ensures IsRun(s, steps) && t == After(s, steps).objs[o]
    ensures if step == Pump0(o) then t.pump0 == PumpDone else t.pump1 == PumpDone
    ensures forall x :: x in steps ==> x == step
    decreases if step == Pump0(o) then PumpFuel(s.objs[o].pump0) else PumpFuel(s.objs[o].pump1)
  {
    steps, t := [], s.objs[o];
    assert TunnelInv(t);
    if (if step == Pump0(o) then t.pump0 else t.pump1) != PumpDone {
      StepKeepsInv(s, step);
      steps, t := PumpRunsAlone(Apply(s, step), o, step);
      Prepend(s, step, steps);
      steps := [step] + steps;
    }
  }

  /** Once there is an error or `done` is closed, the relay can end alone, and leaves nothing open or in the map. */
  lemma {:induction false} RelayRunsAlone(s: State, o: nat) returns (steps: seq<Step>, s': State)
    requires Inv(s) && o < |s.objs| && s.objs[o].relay != NotStarted
    requires TornDown(s.objs[o]) || s.objs[o].errCh > 0 || s.objs[o].doneCloses > 0
    ensures IsRun(s, steps) && s' == After(s, steps)
    ensures forall x :: x in steps ==> x in {Relay(o, false), Relay(o, true)}
    ensures s'.objs[o].relay == RelayDone && s'.objs[o].tcp == s'.objs[o].ws == Closed
    ensures s.objs[o].relay in {StartPumps, Await, Unregister} ==> s.ids[o] !in s'.tunnels
    ensures s.ids[o] !in s.tunnels ==> s.ids[o] !in s'.tunnels
    decreases RelayFuel(s.objs[o].relay)
  {
    steps, s' := [], s;
    assert TunnelInv(s.objs[o]);
    if s.objs[o].relay != RelayDone {
      var step := Relay(o, s.objs[o].errCh > 0);
      StepKeepsInv(s, step);
      steps, s' := RelayRunsAlone(Apply(s, step), o);
      Prepend(s, step, steps);
      steps := [step] + steps;
    }
  }

  /** What remains to be done to the tunnel that a close command holds. */
  ghost function CloserEffect(pc: CloserPc, t: Tunnel): Tunnel {
    match pc
    case CloseDone(_) => t.(doneCloses := 1, tcp := Closed, ws := Closed)
    case CloserTcp(_) => t.(tcp := Closed, ws := Closed)
    case CloserWs(_) => t.(ws := Closed)
    case _ => t
  }

  lemma OwnStep(s: State, c: nat)
    requires Inv(s) && Enabled(s, Closer(c))
    ensures Inv(Apply(s, Closer(c)))
    ensures s.closers[c].CloseDone? ==> s.objs[s.closers[c].o].doneCloses == 0
  {
    StepKeepsInv(s, Closer(c));
    assert s.closers[c].CloseDone? ==> AboutToClose(s, c, s.closers[c].o);
  }

  /** A close command can run to its end: it closes all three of the tunnel it finds, or changes no tunnel. */
  lemma {:induction false} CloserRunsAlone(s: State, c: nat) returns (steps: seq<Step>, s': State)
    requires Inv(s) && c < |s.closers|
    ensures IsRun(s, steps) && s' == After(s, steps) && s'.closers[c] == CloserDone
    ensures forall x :: x in steps ==> x == Closer(c)
    ensures s.closers[c] == CloserDone ==> s' == s
    ensures Holds(s.closers[c]) ==>
      s'.objs == s.objs[s.closers[c].o := CloserEffect(s.closers[c], s.objs[s.closers[c].o])]
    ensures s.closers[c].LookUp? ==>
      s'.objs == if s.closers[c].tunnelId !in s.tunnels then s.objs
                 else var o := s.tunnels[s.closers[c].tunnelId]; s.objs[o := CloserEffect(CloseDone(o), s.objs[o])]
    decreases CloserFuel(s.closers[c])
  {
    steps, s' := [], s;
    if s.closers[c] != CloserDone {
      OwnStep(s, c);
      steps, s' := CloserRunsAlone(Apply(s, Closer(c)), c);
      Prepend(s, Closer(c), steps);
      steps := [Closer(c)] + steps;
    }
  }
}
