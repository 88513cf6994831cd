/**
 What Start and Stop achieve, for every schedule of the worker beside the controller: Stop lets at
 most one more Body run and brings OnceOnStop, and Start brings a Body exactly when the worker is
 not, at the moment m_stop is cleared, about to set it again or on its way out.
 */
module ThreadCalls {
  import opened ThreadLifecycle

  predicate NoneOf(steps: seq<Step>, start: bool, stop: bool) {
    forall k :: 0 <= k < |steps| ==>
      (start ==> !steps[k].CallStart?) && (stop ==> !steps[k].CallStop? && !steps[k].CallExit?)
  }

  function Stops(trace: seq<Hook>): nat {
    if trace == [] then 0 else Stops(trace[..|trace| - 1]) + if trace[|trace| - 1].OnceOnStop? then 1 else 0
  }

  lemma HookCounts(s: State, step: Step)
    requires CanStep(s, step)
    ensures Bodies(After(s, step).trace) == Bodies(s.trace) + if step.WorkerStep? && s.worker.InBody? then 1 else 0
    ensures Stops(After(s, step).trace) == Stops(s.trace) + if step.WorkerStep? && s.worker.HookStop? then 1 else 0
  {
    if step.WorkerStep? {
      TraceOfMove(s);
      HooksAppended(s.trace, s.worker);
    } else {
      OthersLeaveWorker(s, step);
    }
  }

  lemma TraceOfMove(s: State)
    requires WorkerEnabled(s)
    ensures After(s, WorkerStep).trace == s.trace + HookOf(s.worker)
  {}

  lemma HooksAppended(trace: seq<Hook>, w: WorkerPc)
    ensures Bodies(trace + HookOf(w)) == Bodies(trace) + if w.InBody? then 1 else 0
    ensures Stops(trace + HookOf(w)) == Stops(trace) + if w.HookStop? then 1 else 0
  {
    Appended(trace, HookOf(w));
    if HookOf(w) == [] {
      assert trace + HookOf(w) == trace;
    } else {
      assert (trace + HookOf(w))[..|trace + HookOf(w)| - 1] == trace;
    }
  }

  lemma {:induction false} CountsGrow(s: State, steps: seq<Step>)
    requires CanRun(s, steps)
    ensures Bodies(RunOf(s, steps).trace) >= Bodies(s.trace) && Stops(RunOf(s, steps).trace) >= Stops(s.trace)
    decreases |steps|
  {
    if steps != [] {
      HookCounts(s, steps[0]);
      CountsGrow(After(s, steps[0]), steps[1..]);
    }
  }

  // ---------------------------------------------------------------------------------
  // The calls themselves
  // ---------------------------------------------------------------------------------

  /** The steps left in the call in progress. */
  function CallRank(c: ControllerPc): nat {
    match c
    case StartClearStop => 5
    case StartLock => 4
    case StartSet => 3
    case StartNotify => 2
    case StartUnlock => 1
    case _ => ControllerRank(c)
  }

  /** No call is deadlocked: its next step can be taken, or the worker holds the mutex and can move. */
  lemma CallNeverStuck(s: State)
    requires FlagsOk(s) && !s.controller.Outside?
    ensures CanStep(s, ControllerStep) || (s.mutex.Worker? && CanStep(s, WorkerStep))
  {}

  /** Every call returns after at most six steps of its own, and then any call can be made. */
  lemma CallsReturn(s: State, step: Step)
    requires CanStep(s, step)
    ensures CallRank(s.controller) == 0 <==> CanStep(s, CallStart) && CanStep(s, CallStop) && CanStep(s, CallExit)
    ensures CallRank(s.controller) <= 6
    ensures step.ControllerStep? ==> CallRank(After(s, step).controller) < CallRank(s.controller)
    ensures step.WorkerStep? || step.SpuriousWake? ==> After(s, step).controller == s.controller
  {}

  // ---------------------------------------------------------------------------------
  // Stop
  // ---------------------------------------------------------------------------------

  predicate Halting(s: State) {
    s.stop && NoStart(s.controller)
  }

  /** The worker has passed the test of m_stop for one more Body. */
  function Admitted(w: WorkerPc): nat {
    if w.LoadRunning? || w.InBody? then 1 else 0
  }

  lemma WorkerHalting(s: State)
    requires Halting(s) && WorkerEnabled(s)
    ensures Halting(After(s, WorkerStep))
    ensures Admitted(After(s, WorkerStep).worker) + (if s.worker.InBody? then 1 else 0) <= Admitted(s.worker)
  {}

  lemma OthersHalting(s: State, step: Step)
    requires Halting(s) && CanStep(s, step) && !step.CallStart? && !step.WorkerStep?
    ensures Halting(After(s, step)) && Admitted(After(s, step).worker) == Admitted(s.worker)
  {
    OthersLeaveWorker(s, step);
  }

  lemma HaltingStep(s: State, step: Step)
    requires Halting(s) && CanStep(s, step) && !step.CallStart?
    ensures Halting(After(s, step))
    ensures Bodies(After(s, step).trace) + Admitted(After(s, step).worker) <= Bodies(s.trace) + Admitted(s.worker)
  {
    hide After, Admitted, Halting;
    HookCounts(s, step);
    if step.WorkerStep? { WorkerHalting(s); } else { OthersHalting(s, step); }
  }

  lemma {:induction false} HaltingRun(s: State, steps: seq<Step>)
    requires Halting(s) && CanRun(s, steps) && NoneOf(steps, true, false)
    ensures Bodies(RunOf(s, steps).trace) <= Bodies(s.trace) + Admitted(s.worker)
    decreases |steps|
  {
    hide After, Admitted, Halting;
    if steps != [] {
      HaltingStep(s, steps[0]);
      HaltingRun(After(s, steps[0]), steps[1..]);
    }
  }

  /** After Stop, and until another Start, only a Body already past the test of m_stop still runs. */
  lemma StopBoundsBodies(s: State, steps: seq<Step>)
    requires CanStep(s, CallStop) && CanRun(After(s, CallStop), steps) && NoneOf(steps, true, false)
    ensures Bodies(RunOf(After(s, CallStop), steps).trace)
         <= Bodies(s.trace) + if s.worker.LoadRunning? || s.worker.InBody? then 1 else 0
  {
    HaltingRun(After(s, CallStop), steps);
  }

  /** From taking a start token to OnceOnStop; the most steps it takes once m_stop is set. */
  function CycleRank(w: WorkerPc): nat {
    match w
    case Consume => 8
    case UnmarkWaiting => 7
    case ToUnlock => 6
    case HookStart => 5
    case LoadRunning => 5
    case InBody => 4
    case LoadStop => 3
    case SetStop => 2
    case HookStop => 1
    case _ => 0
  }

  predicate InCycle(w: WorkerPc) {
    CycleRank(w) > 0
  }

  lemma WorkerEndsCycle(s: State)
    requires Halting(s) && InCycle(s.worker)
    ensures WorkerEnabled(s)
    ensures !s.worker.HookStop? ==>
              InCycle(After(s, WorkerStep).worker) && CycleRank(After(s, WorkerStep).worker) < CycleRank(s.worker)
  {}

  lemma OthersLeaveCycle(s: State, step: Step)
    requires CanStep(s, step) && !step.WorkerStep? && InCycle(s.worker)
    ensures After(s, step).worker == s.worker
  {
    OthersLeaveWorker(s, step);
  }

  lemma {:induction false} CycleRun(s: State, steps: seq<Step>)
    requires Halting(s) && InCycle(s.worker) && CanRun(s, steps) && NoneOf(steps, true, false)
    ensures var s' := RunOf(s, steps);
            Stops(s'.trace) > Stops(s.trace)
            || (WorkerEnabled(s') && InCycle(s'.worker)
                && WorkerSteps(steps) + CycleRank(s'.worker) <= CycleRank(s.worker))
    decreases |steps|
  {
    hide After, CycleRank, Halting, WorkerEnabled, InCycle;
    WorkerEndsCycle(s);
    if steps != [] {
      var s' := After(s, steps[0]);
      HookCounts(s, steps[0]);
      HaltingStep(s, steps[0]);
      if steps[0].WorkerStep? && s.worker.HookStop? {
        CountsGrow(s', steps[1..]);
      } else {
        if !steps[0].WorkerStep? { OthersLeaveCycle(s, steps[0]); }
        CycleRun(s', steps[1..]);
      }
    }
  }

  /** After Stop a worker that took a token runs OnceOnStop within 8 steps, which it can always take. */
  lemma StopEndsCycle(s: State, steps: seq<Step>)
    requires CanStep(s, CallStop) && InCycle(s.worker)
    requires CanRun(After(s, CallStop), steps) && NoneOf(steps, true, false)
    ensures var s' := RunOf(After(s, CallStop), steps);
            Stops(s'.trace) > Stops(s.trace) || (WorkerSteps(steps) < 8 && CanStep(s', WorkerStep))
  {
    CycleRun(After(s, CallStop), steps);
  }

  // ---------------------------------------------------------------------------------
  // Start
  // ---------------------------------------------------------------------------------

  /** While Start is in progress m_running is set, unless the worker has left its loop. */
  predicate StartOk(s: State) {
    !NoStart(s.controller) ==> s.running || s.worker.HookExit? || s.worker.Done?
  }

  lemma StepKeepsStartOk(s: State, step: Step)
    requires StartOk(s) && FlagsOk(s) && CanStep(s, step)
    ensures StartOk(After(s, step))
  {}

  lemma {:induction false} RunKeepsStartOk(s: State, steps: seq<Step>)
    requires StartOk(s) && Inv(s) && CanRun(s, steps)
    ensures StartOk(RunOf(s, steps)) && Inv(RunOf(s, steps))
    decreases |steps|
  {
    hide After, Inv, StartOk;
    if steps != [] {
      InvHasFlags(s);
      StepKeepsStartOk(s, steps[0]);
      StepKeepsInv(s, steps[0]);
      RunKeepsStartOk(After(s, steps[0]), steps[1..]);
    }
  }

  lemma InvHasFlags(s: State)
    requires Inv(s)
    ensures FlagsOk(s)
  {}

  /** Where the worker may be, when Start clears m_stop, for a Body to follow. */
  predicate Launches(w: WorkerPc) {
    !(w.SetStop? || w.ClearRunning? || w.HookExit? || w.Done?)
  }

  /** The worker has to take a start token before its next Body. */
  predicate NeedsToken(w: WorkerPc) {
    || w.Spawned? || w.ToLock? || w.MarkWaiting? || w.TestStart? || w.Blocked? || w.Relock?
    || w.HookStop? || w.TestRunning?
  }

  predicate Tokened(s: State) {
    NeedsToken(s.worker) ==> s.start
  }

  /** Start has cleared m_stop, and a token is given or about to be. */
  predicate Launching(s: State) {
    FlagsOk(s) && OnLaunch(s)
  }

  predicate OnLaunch(s: State) {
    && s.running && !s.stop && !InExit(s.controller) && Launches(s.worker)
    && (Tokened(s) || s.controller.StartLock? || s.controller.StartSet?)
  }

  /** The most steps the worker needs to begin a Body, once it has its token. */
  function LaunchRank(w: WorkerPc): nat {
    match w
    case HookStop => 13
    case TestRunning => 12
    case Spawned => 12
    case ToLock => 11
    case MarkWaiting => 10
    case Blocked(_) => 9
    case Relock => 8
    case TestStart => 7
    case Consume => 6
    case UnmarkWaiting => 5
    case ToUnlock => 4
    case HookStart => 3
    case LoadStop => 2
    case LoadRunning => 1
    case _ => 0
  }

  /** The controller's steps until it has stored m_start. */
  function GiveRank(c: ControllerPc): nat {
    match c
    case StartLock => 2
    case StartSet => 1
    case _ => 0
  }

  lemma WorkerLaunching(s: State)
    requires Launching(s) && WorkerEnabled(s)
    ensures OnLaunch(After(s, WorkerStep)) && After(s, WorkerStep).controller == s.controller
    ensures Tokened(s) ==> Tokened(After(s, WorkerStep))
    ensures Tokened(s) && !s.worker.InBody? ==> LaunchRank(After(s, WorkerStep).worker) < LaunchRank(s.worker)
  {}

  lemma OthersLaunching(s: State, step: Step)
    requires Launching(s) && CanStep(s, step) && !step.WorkerStep? && !step.CallStop? && !step.CallExit?
    ensures OnLaunch(After(s, step)) && (Tokened(s) ==> Tokened(After(s, step)))
    ensures LaunchRank(After(s, step).worker) <= LaunchRank(s.worker)
    ensures !Tokened(After(s, step)) ==>
              GiveRank(After(s, step).controller) + (if step.ControllerStep? then 1 else 0) <= GiveRank(s.controller)
  {}

  lemma LaunchingStep(s: State, step: Step)
    requires Launching(s) && CanStep(s, step) && !step.CallStop? && !step.CallExit?
    ensures var s' := After(s, step);
            && Launching(s') && (Tokened(s) ==> Tokened(s'))
            && (!Tokened(s') ==>
                  GiveRank(s'.controller) + (if step.ControllerStep? then 1 else 0) <= GiveRank(s.controller))
            && (Tokened(s) && !(step.WorkerStep? && s.worker.InBody?) ==>
                  LaunchRank(s'.worker) + (if step.WorkerStep? then 1 else 0) <= LaunchRank(s.worker))
  {
    hide After, FlagsOk, OnLaunch, Tokened, LaunchRank, GiveRank;
    StepKeepsFlags(s, step);
    if step.WorkerStep? { WorkerLaunching(s); } else { OthersLaunching(s, step); }
  }

  /** A launching worker can move, or is held up only by a Start that can move. */
  lemma LaunchingNeverStuck(s: State)
    requires Launching(s)
    ensures CanStep(s, WorkerStep) || CanStep(s, ControllerStep)
  {}

  function ControllerSteps(steps: seq<Step>): nat {
    if steps == [] then 0 else (if steps[0].ControllerStep? then 1 else 0) + ControllerSteps(steps[1..])
  }

  lemma {:induction false} UntilToken(s: State, steps: seq<Step>)
    requires Launching(s) && CanRun(s, steps) && NoneOf(steps, false, true)
    ensures Launching(RunOf(s, steps)) && (Tokened(s) ==> Tokened(RunOf(s, steps)))
    ensures Tokened(RunOf(s, steps)) ||
            ControllerSteps(steps) + GiveRank(RunOf(s, steps).controller) <= GiveRank(s.controller)
    decreases |steps|
  {
    hide After, Launching, Tokened, GiveRank;
    if steps != [] {
      LaunchingStep(s, steps[0]);
      UntilToken(After(s, steps[0]), steps[1..]);
    }
  }

  lemma {:induction false} LaunchRun(s: State, steps: seq<Step>)
    requires Launching(s) && Tokened(s) && CanRun(s, steps) && NoneOf(steps, false, true)
    ensures var s' := RunOf(s, steps);
            Bodies(s'.trace) > Bodies(s.trace)
            || (Launching(s') && WorkerSteps(steps) + LaunchRank(s'.worker) <= LaunchRank(s.worker))
    decreases |steps|
  {
    hide After, Launching, Tokened, LaunchRank;
    if steps != [] {
      var s' := After(s, steps[0]);
      HookCounts(s, steps[0]);
      LaunchingStep(s, steps[0]);
      if steps[0].WorkerStep? && s.worker.InBody? {
        CountsGrow(s', steps[1..]);
      } else {
        LaunchRun(s', steps[1..]);
      }
    }
  }

  lemma StartBeginsLaunch(s: State)
    requires Inv(s) && StartOk(s) && s.controller.StartClearStop? && Launches(s.worker)
    ensures CanStep(s, ControllerStep) && Launching(After(s, ControllerStep))
    ensures After(s, ControllerStep).trace == s.trace && GiveRank(After(s, ControllerStep).controller) == 2
  {}

  lemma LaunchRankBound(w: WorkerPc)
    ensures LaunchRank(w) <= 13
  {}

  /**
   Start brings a Body.  When it clears m_stop with the worker where `Launches` says, and no Stop or
   Exit follows: two more steps of Start give the token (`first`), and by 13 further worker steps a
   Body has begun, so that one more step runs it (`second`).  Until then nothing is ever stuck.
   */
  lemma StartLaunches(before: seq<Step>, first: seq<Step>, second: seq<Step>)
    requires CanRun(INITIAL, before)
    requires var s := RunOf(INITIAL, before); s.controller.StartClearStop? && Launches(s.worker)
    requires var s := After(RunOf(INITIAL, before), ControllerStep);
             CanRun(s, first) && NoneOf(first, false, true)
             && CanRun(RunOf(s, first), second) && NoneOf(second, false, true)
    ensures var s := RunOf(INITIAL, before); var s1 := RunOf(After(s, ControllerStep), first);
            && (CanStep(s1, WorkerStep) || CanStep(s1, ControllerStep))
            && (ControllerSteps(first) >= 2 ==>
                  var s2 := RunOf(s1, second);
                  Bodies(s2.trace) > Bodies(s.trace)
                  || (WorkerSteps(second) <= 13 && (CanStep(s2, WorkerStep) || CanStep(s2, ControllerStep))))
  {
    hide Inv, StartOk, After, Launching, Tokened, LaunchRank, GiveRank, CanStep;
    var s := RunOf(INITIAL, before);
    InitialInv();
    InitialStartOk();
    RunKeepsStartOk(INITIAL, before);
    StartBeginsLaunch(s);
    var s0 := After(s, ControllerStep);
    var s1 := RunOf(s0, first);
    UntilToken(s0, first);
    CountsGrow(s0, first);
    LaunchingNeverStuck(s1);
    if ControllerSteps(first) >= 2 {
      GivenIsTokened(s1);
      LaunchRun(s1, second);
      LaunchRankBound(s1.worker);
      if Launching(RunOf(s1, second)) { LaunchingNeverStuck(RunOf(s1, second)); }
    }
  }

  lemma InitialStartOk()
    ensures StartOk(INITIAL)
  {}

  lemma GivenIsTokened(s: State)
    requires Launching(s)
    ensures GiveRank(s.controller) == 0 ==> Tokened(s)
  {}

  /** m_stop is set again, or will be by the worker's next step, or the worker is leaving. */
  predicate Barren(s: State) {
    && !s.controller.StartClearStop?
    && (s.worker.SetStop? || Leaving(s.worker) || (s.stop && !s.worker.LoadRunning? && !s.worker.InBody?))
  }

  lemma BarrenWorker(s: State)
    requires Barren(s) && WorkerEnabled(s)
    ensures Barren(After(s, WorkerStep))
  {}

  lemma BarrenStep(s: State, step: Step)
    requires Barren(s) && CanStep(s, step) && !step.CallStart?
    ensures Barren(After(s, step)) && !s.worker.InBody?
  {
    if step.WorkerStep? {
      hide After;
      BarrenWorker(s);
    } else {
      OthersLeaveWorker(s, step);
    }
  }

  lemma {:induction false} BarrenRun(s: State, steps: seq<Step>)
    requires Barren(s) && CanRun(s, steps) && NoneOf(steps, true, false)
    ensures Bodies(RunOf(s, steps).trace) == Bodies(s.trace)
    decreases |steps|
  {
    hide After, Barren;
    if steps != [] {
      BarrenStep(s, steps[0]);
      HookCounts(s, steps[0]);
      BarrenRun(After(s, steps[0]), steps[1..]);
    }
  }

  /** Everywhere else the Start is lost: no schedule runs a Body until there is another one. */
  lemma StartLost(s: State, steps: seq<Step>)
    requires s.controller.StartClearStop? && !Launches(s.worker)
    requires CanRun(After(s, ControllerStep), steps) && NoneOf(steps, true, false)
    ensures Bodies(RunOf(After(s, ControllerStep), steps).trace) == Bodies(s.trace)
  {
    BarrenRun(After(s, ControllerStep), steps);
  }

  /** On its way out the worker clears m_running. */
  predicate WayOut(s: State) {
    NoStart(s.controller) && (s.worker.ClearRunning? || ((s.worker.HookExit? || s.worker.Done?) && !s.running))
  }

  lemma WayOutStep(s: State, step: Step)
    requires WayOut(s) && CanStep(s, step) && !step.CallStart?
    ensures WayOut(After(s, step))
  {}

  /** ... and until another Start it stays clear: a worker that left is not reported as running. */
  lemma {:induction false} LeavingClearsRunning(s: State, steps: seq<Step>)
    requires WayOut(s) && CanRun(s, steps) && NoneOf(steps, true, false)
    ensures WayOut(RunOf(s, steps))
    ensures RunOf(s, steps).worker.Done? ==> !RunOf(s, steps).running
    decreases |steps|
  {
    hide After, WayOut;
    WayOutMeans(RunOf(s, steps));
    if steps != [] {
      WayOutStep(s, steps[0]);
      LeavingClearsRunning(After(s, steps[0]), steps[1..]);
    }
  }

  lemma WayOutMeans(s: State)
    ensures WayOut(s) && s.worker.Done? ==> !s.running
  {}
}
