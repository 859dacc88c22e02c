/**
 * The probe's concurrent scans: a loop that starts one goroutine per target, at most `capacity` at a time
 * (a semaphore channel), and waits for all of them (a WaitGroup) before it returns the shared result map.
 */
module ScanPool {

  /** One scan: `answers` tells which dials succeed; with `firstOnly` a target is done at its first open port. */
  datatype Scan = Scan(
    targets: seq<int>, ports: seq<int>, answers: (int, int) -> bool, firstOnly: bool, capacity: nat)

  datatype WorkerPc =
    | Dialling(next: nat, open: seq<int>)
    | Recording(open: seq<int>)
    | Releasing   // the semaphore
    | Signalling  // the WaitGroup
    | Ended

  datatype MainPc = Adding | Acquiring | Starting | WaitingForAll | Returned

  /** `workers[i]` scans `targets[i]`; `sem` and `wg` are the semaphore's and the WaitGroup's counts. */
  datatype State = State(main: MainPc, workers: seq<WorkerPc>, sem: nat, wg: nat, results: map<int, seq<int>>)

  const START := State(Adding, [], 0, 0, map[])

  datatype Step = Main | Worker(i: nat)

  predicate Enabled(c: Scan, s: State, step: Step) {
    match step
    case Main =>
      match s.main {
        case Acquiring => s.sem < c.capacity
        case WaitingForAll => s.wg == 0
        case Returned => false
        case _ => true
      }
    case Worker(i) => i < |s.workers| && i < |c.targets| && s.workers[i] != Ended
  }

  function MainMoves(c: Scan, s: State): State {
    match s.main
    case Adding =>
      if |s.workers| == |c.targets| then s.(main := WaitingForAll) else s.(main := Acquiring, wg := s.wg + 1)
    case Acquiring => s.(main := Starting, sem := s.sem + 1)
    case Starting => s.(main := Adding, workers := s.workers + [Dialling(0, [])])
    case WaitingForAll => s.(main := Returned)
    case Returned => s
  }

  function Dial(c: Scan, target: int, next: nat, open: seq<int>): WorkerPc {
    if next >= |c.ports| then
      if open == [] then Releasing else Recording(open)
    else if c.answers(target, c.ports[next]) then
      if c.firstOnly then Recording([c.ports[next]]) else Dialling(next + 1, open + [c.ports[next]])
    else
      Dialling(next + 1, open)
  }

  function WorkerMoves(c: Scan, target: int, w: WorkerPc): WorkerPc {
    match w
    case Dialling(next, open) => Dial(c, target, next, open)
    case Recording(_) => Releasing
    case Releasing => Signalling
    case _ => Ended
  }

  function Less(n: nat): nat { if n > 0 then n - 1 else 0 }

  function Apply(c: Scan, s: State, step: Step): State
    requires Enabled(c, s, step)
  {
    match step
    case Main => MainMoves(c, s)
    case Worker(i) =>
      var w := s.workers[i];
      s.(workers := s.workers[i := WorkerMoves(c, c.targets[i], w)],
         results := if w.Recording? then s.results[c.targets[i] := w.open] else s.results,
         sem := if w == Releasing then Less(s.sem) else s.sem,
         wg := if w == Signalling then Less(s.wg) else s.wg)
  }

  // ─── What the scan should find ───

  function OpenPorts(answers: (int, int) -> bool, target: int, ports: seq<int>): seq<int> {
    if ports == [] then []
    else (if answers(target, ports[0]) then [ports[0]] else []) + OpenPorts(answers, target, ports[1..])
  }

  function Expected(c: Scan, target: int): seq<int> {
    var open := OpenPorts(c.answers, target, c.ports);
    if c.firstOnly && open != [] then open[..1] else open
  }

  // ─── What every step keeps ───

  /** A worker between acquiring and releasing the semaphore. */
  predicate InFlight(w: WorkerPc) { w.Dialling? || w.Recording? || w == Releasing }

  function FlightCount(ws: seq<WorkerPc>): nat {
    if ws == [] then 0 else (if InFlight(ws[0]) then 1 else 0) + FlightCount(ws[1..])
  }

  function LiveCount(ws: seq<WorkerPc>): nat {
    if ws == [] then 0 else (if ws[0] != Ended then 1 else 0) + LiveCount(ws[1..])
  }

  ghost predicate WorkerInv(c: Scan, target: int, w: WorkerPc, results: map<int, seq<int>>) {
    match w
    case Dialling(next, open) =>
      && next <= |c.ports|
      && (c.firstOnly ==> open == [])
      && open + OpenPorts(c.answers, target, c.ports[next..]) == OpenPorts(c.answers, target, c.ports)
    case Recording(open) => open == Expected(c, target) && open != []
    case _ => Expected(c, target) != [] ==> target in results
  }

  ghost predicate Inv(c: Scan, s: State) {
    && |s.workers| <= |c.targets|
    && (s.main in {Acquiring, Starting} ==> |s.workers| < |c.targets|)
    && (s.main in {WaitingForAll, Returned} ==> |s.workers| == |c.targets|)
    && s.sem == FlightCount(s.workers) + (if s.main == Starting then 1 else 0)
    && s.sem <= c.capacity
    && s.wg == LiveCount(s.workers) + (if s.main in {Acquiring, Starting} then 1 else 0)
    && (s.main == Returned ==> s.wg == 0)
    && (forall i :: 0 <= i < |s.workers| ==> WorkerInv(c, c.targets[i], s.workers[i], s.results))
    && (forall t :: t in s.results ==> t in c.targets && s.results[t] == Expected(c, t) != [])
  }

  lemma {:induction false} CountsOfUpdate(ws: seq<WorkerPc>, i: nat, w: WorkerPc)
    requires i < |ws|
    ensures FlightCount(ws[i := w]) + (if InFlight(ws[i]) then 1 else 0)
         == FlightCount(ws) + (if InFlight(w) then 1 else 0)
    ensures LiveCount(ws[i := w]) + (if ws[i] != Ended then 1 else 0)
         == LiveCount(ws) + (if w != Ended then 1 else 0)
  {
    if i == 0 {
      assert ws[0 := w][1..] == ws[1..];
    } else {
      CountsOfUpdate(ws[1..], i - 1, w);
      assert ws[i := w][1..] == ws[1..][i - 1 := w];
    }
  }

  lemma {:induction false} CountsOfOneMore(ws: seq<WorkerPc>, w: WorkerPc)
    ensures FlightCount(ws + [w]) == FlightCount(ws) + (if InFlight(w) then 1 else 0)
    ensures LiveCount(ws + [w]) == LiveCount(ws) + (if w != Ended then 1 else 0)
  {
    if ws == [] {
      assert [w][1..] == [];
    } else {
      CountsOfOneMore(ws[1..], w);
      assert (ws + [w])[1..] == ws[1..] + [w];
    }
  }

  lemma DialKeepsInv(c: Scan, target: int, next: nat, open: seq<int>, results: map<int, seq<int>>)
    requires WorkerInv(c, target, Dialling(next, open), results)
    ensures WorkerInv(c, target, Dial(c, target, next, open), results)
  {
    if next < |c.ports| {
      assert c.ports[next..][1..] == c.ports[next + 1..];
    } else {
      assert open + [] == open;
    }
  }

  lemma MainKeepsInv(c: Scan, s: State)
    requires Inv(c, s) && Enabled(c, s, Main)
    ensures Inv(c, MainMoves(c, s))
  {
    if s.main == Starting {
      var w := Dialling(0, []);
      CountsOfOneMore(s.workers, w);
      var target := c.targets[|s.workers|];
      assert c.ports[0..] == c.ports;
      assert [] + OpenPorts(c.answers, target, c.ports) == OpenPorts(c.answers, target, c.ports);
      assert WorkerInv(c, target, w, s.results);
    }
  }

  /** A worker's step changes its own pc and what follows from it. */
  lemma WorkerKeepsInv(c: Scan, s: State, s': State, i: nat)
    requires Inv(c, s) && i < |s.workers|
    requires s' == s.(workers := s'.workers, sem := s'.sem, wg := s'.wg, results := s'.results)
    requires |s'.workers| == |s.workers| && s'.workers == s.workers[i := s'.workers[i]]
    requires s'.sem + (if InFlight(s.workers[i]) then 1 else 0) == s.sem + (if InFlight(s'.workers[i]) then 1 else 0)
    requires s'.wg + (if s.workers[i] != Ended then 1 else 0) == s.wg + (if s'.workers[i] != Ended then 1 else 0)
    requires s'.sem <= s.sem && s'.wg <= s.wg
    requires forall t :: t in s.results ==> t in s'.results
    requires WorkerInv(c, c.targets[i], s'.workers[i], s'.results)
    requires forall t :: t in s'.results ==> t in c.targets && s'.results[t] == Expected(c, t) != []
    ensures Inv(c, s')
  {
    CountsOfUpdate(s.workers, i, s'.workers[i]);
    forall k | 0 <= k < |s'.workers| ensures WorkerInv(c, c.targets[k], s'.workers[k], s'.results) {
      assert WorkerInv(c, c.targets[k], s.workers[k], s.results);
    }
  }

  lemma StepKeepsInv(c: Scan, s: State, step: Step)
    requires Inv(c, s) && Enabled(c, s, step)
    ensures Inv(c, Apply(c, s, step))
  {
    match step
    case Main => MainKeepsInv(c, s);
    case Worker(i) =>
      var w := s.workers[i];
      assert WorkerInv(c, c.targets[i], w, s.results);
      CountsOfUpdate(s.workers, i, Ended);
      if w.Dialling? {
        DialKeepsInv(c, c.targets[i], w.next, w.open, s.results);
      }
      WorkerKeepsInv(c, s, Apply(c, s, step), i);
  }

  // ─── Runs ───

  ghost predicate IsRun(c: Scan, s: State, steps: seq<Step>)
    decreases |steps|
  {
    steps != [] ==> Enabled(c, s, steps[0]) && IsRun(c, Apply(c, s, steps[0]), steps[1..])
  }

  ghost function After(c: Scan, s: State, steps: seq<Step>): State
    requires IsRun(c, s, steps)
    decreases |steps|
  {
    if steps == [] then s else After(c, Apply(c, s, steps[0]), steps[1..])
  }

  ghost predicate Reachable(c: Scan, s: State, steps: seq<Step>) {
    IsRun(c, START, steps) && s == After(c, START, steps)
  }

  lemma {:induction false} RunKeepsInv(c: Scan, s: State, steps: seq<Step>)
    requires Inv(c, s) && IsRun(c, s, steps)
    ensures Inv(c, After(c, s, steps))
    decreases |steps|
  {
    if steps != [] {
      StepKeepsInv(c, s, steps[0]);
      RunKeepsInv(c, Apply(c, s, steps[0]), steps[1..]);
    }
  }

  /** Never more than `capacity` targets are being dialled at once. */
  lemma InFlightIsBounded(c: Scan, s: State, steps: seq<Step>)
    requires Reachable(c, s, steps)
    ensures FlightCount(s.workers) <= c.capacity
  {
    RunKeepsInv(c, START, steps);
  }

  lemma {:induction false} SomeoneIsCounted(ws: seq<WorkerPc>) returns (i: nat)
    requires FlightCount(ws) > 0 || LiveCount(ws) > 0
    ensures i < |ws| && ws[i] != Ended
  {
    if ws[0] != Ended {
      i := 0;
    } else {
      i := SomeoneIsCounted(ws[1..]);
      i := i + 1;
    }
  }

  /** Until the scan returns, some goroutine can always move. */
  lemma ScanNeverDeadlocks(c: Scan, s: State, steps: seq<Step>)
    requires c.capacity > 0 && Reachable(c, s, steps) && s.main != Returned
    ensures exists step :: Enabled(c, s, step)
  {
    RunKeepsInv(c, START, steps);
    if !Enabled(c, s, Main) {
      var i := SomeoneIsCounted(s.workers);
      assert Enabled(c, s, Worker(i));
    }
  }

  // ─── Every schedule ends, after a bounded number of steps ───

  function WorkerFuel(c: Scan, w: WorkerPc): nat {
    match w
    case Dialling(next, _) => 4 + if next < |c.ports| then |c.ports| - next else 0
    case Recording(_) => 3
    case Releasing => 2
    case Signalling => 1
    case Ended => 0
  }

  function WorkersFuel(c: Scan, ws: seq<WorkerPc>): nat {
    if ws == [] then 0 else WorkerFuel(c, ws[0]) + WorkersFuel(c, ws[1..])
  }

  /** Fuel for the targets not started yet. */
  function StartFuel(targets: nat, perTarget: nat): nat {
    if targets == 0 then 0 else perTarget + StartFuel(targets - 1, perTarget)
  }

  lemma {:induction false} StartFuelIsProduct(targets: nat, perTarget: nat)
    ensures StartFuel(targets, perTarget) == targets * perTarget
  {
    if targets > 0 {
      StartFuelIsProduct(targets - 1, perTarget);
      assert targets * perTarget == (targets - 1) * perTarget + perTarget;
    }
  }

  function MainFuel(c: Scan, s: State): nat {
    StartFuel(if |s.workers| < |c.targets| then |c.targets| - |s.workers| else 0, |c.ports| + 7)
    + match s.main
      case Adding => 2
      case Acquiring => 1
      case Starting => 0
      case WaitingForAll => 1
      case Returned => 0
  }

  function Fuel(c: Scan, s: State): nat {
    MainFuel(c, s) + WorkersFuel(c, s.workers)
  }

  lemma {:induction false} FuelOfUpdate(c: Scan, ws: seq<WorkerPc>, i: nat, w: WorkerPc)
    requires i < |ws|
    ensures WorkersFuel(c, ws[i := w]) + WorkerFuel(c, ws[i]) == WorkersFuel(c, ws) + WorkerFuel(c, w)
  {
    if i == 0 {
      assert ws[0 := w][1..] == ws[1..];
    } else {
      FuelOfUpdate(c, ws[1..], i - 1, w);
      assert ws[i := w][1..] == ws[1..][i - 1 := w];
    }
  }

  lemma {:induction false} FuelOfOneMore(c: Scan, ws: seq<WorkerPc>, w: WorkerPc)
    ensures WorkersFuel(c, ws + [w]) == WorkersFuel(c, ws) + WorkerFuel(c, w)
  {
    if ws == [] {
      assert [w][1..] == [];
    } else {
      FuelOfOneMore(c, ws[1..], w);
      assert (ws + [w])[1..] == ws[1..] + [w];
    }
  }

  lemma MainBurnsFuel(c: Scan, s: State)
    requires Inv(c, s) && Enabled(c, s, Main)
    ensures Fuel(c, MainMoves(c, s)) < Fuel(c, s)
  {
    if s.main == Starting {
      FuelOfOneMore(c, s.workers, Dialling(0, []));
      assert WorkerFuel(c, Dialling(0, [])) == |c.ports| + 4;
    }
  }

  lemma WorkerBurnsFuel(c: Scan, s: State, i: nat)
    requires Enabled(c, s, Worker(i))
    ensures Fuel(c, Apply(c, s, Worker(i))) < Fuel(c, s)
  {
    FuelOfUpdate(c, s.workers, i, WorkerMoves(c, c.targets[i], s.workers[i]));
  }

  lemma StepBurnsFuel(c: Scan, s: State, step: Step)
    requires Inv(c, s) && Enabled(c, s, step)
    ensures Fuel(c, Apply(c, s, step)) < Fuel(c, s)
  {
    match step
    case Main => MainBurnsFuel(c, s);
    case Worker(i) => WorkerBurnsFuel(c, s, i);
  }

  lemma {:induction false} RunsAreBounded(c: Scan, s: State, steps: seq<Step>)
    requires Inv(c, s) && IsRun(c, s, steps)
    ensures |steps| <= Fuel(c, s)
    decreases |steps|
  {
    if steps != [] {
      StepBurnsFuel(c, s, steps[0]);
      StepKeepsInv(c, s, steps[0]);
      RunsAreBounded(c, Apply(c, s, steps[0]), steps[1..]);
    }
  }

  // ─── How concurrent it is ───

  /** A goroutine waits for no other: from every state it can run to its end while all others stand still. */
  lemma {:induction false} WorkerRunsAlone(c: Scan, s: State, i: nat) returns (steps: seq<Step>, s': State)
    requires i < |s.workers| <= |c.targets|
    ensures IsRun(c, s, steps) && s' == After(c, s, steps)
    ensures forall step :: step in steps ==> step == Worker(i)
    ensures s'.main == s.main && s'.workers == s.workers[i := Ended]
    decreases WorkerFuel(c, s.workers[i])
  {
    steps, s' := [], s;
    if s.workers[i] != Ended {
      steps, s' := WorkerRunsAlone(c, Apply(c, s, Worker(i)), i);
      assert ([Worker(i)] + steps)[1..] == steps;
      steps := [Worker(i)] + steps;
    }
  }

  lemma {:induction false} RunSnoc(c: Scan, s: State, steps: seq<Step>, step: Step)
    requires IsRun(c, s, steps) && Enabled(c, After(c, s, steps), step)
    ensures IsRun(c, s, steps + [step]) && After(c, s, steps + [step]) == Apply(c, After(c, s, steps), step)
    decreases |steps|
  {
    if steps != [] {
      RunSnoc(c, Apply(c, s, steps[0]), steps[1..], step);
      assert (steps + [step])[1..] == steps[1..] + [step];
    }
  }

  /** The bound is reached: any number of targets up to the capacity can be dialled at once. */
  lemma {:induction false} CapacityIsReached(c: Scan, n: nat) returns (s: State, steps: seq<Step>)
    requires n <= c.capacity && n <= |c.targets|
    ensures Reachable(c, s, steps) && s.main == Adding
    ensures |s.workers| == n == FlightCount(s.workers)
    ensures forall w :: w in s.workers ==> w == Dialling(0, [])
  {
    s, steps := START, [];
    if n > 0 {
      s, steps := CapacityIsReached(c, n - 1);
      RunKeepsInv(c, START, steps);
      CountsOfOneMore(s.workers, Dialling(0, []));
      RunSnoc(c, START, steps, Main);
      RunSnoc(c, START, steps + [Main], Main);
      RunSnoc(c, START, steps + [Main] + [Main], Main);
      s, steps := After(c, START, steps + [Main] + [Main] + [Main]), steps + [Main] + [Main] + [Main];
    }
  }

  // ─── Main result ───

  /**
   * Whatever the schedule: every run is at most (ports + 7) steps per target long, a run that cannot go on has
   * returned, and the result returned is the same one, each target with an open port mapped to what it should be.
   */
  lemma ScanIsDeterministic(c: Scan, s: State, steps: seq<Step>)
    requires c.capacity > 0 && Reachable(c, s, steps)
    ensures |steps| <= |c.targets| * (|c.ports| + 7) + 2
    ensures (forall step :: !Enabled(c, s, step)) ==> s.main == Returned
    ensures s.main == Returned ==>
      s.results == map t | t in c.targets && Expected(c, t) != [] :: Expected(c, t)
  {
    RunKeepsInv(c, START, steps);
    RunsAreBounded(c, START, steps);
    StartFuelIsProduct(|c.targets|, |c.ports| + 7);
    if s.main != Returned {
      ScanNeverDeadlocks(c, s, steps);
    } else {
      ReturnedMeansComplete(c, s);
    }
  }

  lemma ReturnedMeansComplete(c: Scan, s: State)
    requires Inv(c, s) && s.main == Returned
    ensures s.results == map t | t in c.targets && Expected(c, t) != [] :: Expected(c, t)
  {
    var expected := map t | t in c.targets && Expected(c, t) != [] :: Expected(c, t);
    forall t | t in expected ensures t in s.results {
      var i :| 0 <= i < |c.targets| && c.targets[i] == t;
      AllEnded(s.workers, i);
      assert WorkerInv(c, c.targets[i], s.workers[i], s.results);
    }
    forall t | t in s.results ensures t in expected {
      assert t in c.targets;
      assert s.results[t] == Expected(c, t);
      assert Expected(c, t) != [];
    }
    assert s.results.Keys == expected.Keys;
  }

  lemma {:induction false} AllEnded(ws: seq<WorkerPc>, i: nat)
    requires i < |ws| && LiveCount(ws) == 0
    ensures ws[i] == Ended
  {
    if i > 0 {
      AllEnded(ws[1..], i - 1);
    }
  }

  /** The alive set: with `firstOnly`, a target is in the result exactly if some probe port answers. */
  lemma ExpectedIffSomePortAnswers(c: Scan, target: int)
    ensures Expected(c, target) != [] <==> exists p :: p in c.ports && c.answers(target, p)
    ensures forall p :: p in OpenPorts(c.answers, target, c.ports) <==> p in c.ports && c.answers(target, p)
  {
    OpenPortsAreAnswering(c.answers, target, c.ports);
    var open := OpenPorts(c.answers, target, c.ports);
    if open != [] {
      var p := open[0];
      assert p in open;
      assert p in c.ports && c.answers(target, p);
      assert Expected(c, target) != [];
    } else {
      assert Expected(c, target) == [];
    }
    if p :| p in c.ports && c.answers(target, p) {
      assert p in open;
    }
  }

  lemma {:induction false} OpenPortsAreAnswering(answers: (int, int) -> bool, target: int, ports: seq<int>)
    ensures forall p :: p in OpenPorts(answers, target, ports) <==> p in ports && answers(target, p)
  {
    if ports != [] {
      OpenPortsAreAnswering(answers, target, ports[1..]);
      assert forall p :: p in ports <==> p == ports[0] || p in ports[1..];
    }
  }
}
