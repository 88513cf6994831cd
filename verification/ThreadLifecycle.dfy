/**
 The restartable thread: a controller calling Start, Stop and Exit, and a worker running
 `threadEntryPoint`.  Every access to a shared flag, and every lock, unlock, wait and notify, is a
 step of its own.  Hooks and Body are assumed to return.
 */
module ThreadLifecycle {

  datatype Hook = OnceOnSpawn | OnceOnStart | Body | OnceOnStop | OnceOnExit

  datatype Holder = Free | Controller | Worker

  /** Where the worker is: each constructor names the next thing it does. */
  datatype WorkerPc =
    | Spawned                  // run OnceOnSpawn
    | ToLock                   // lock m_start_mutex
    | MarkWaiting              // m_start_waiting = true
    | TestStart                // while (!m_start)
    | Blocked(notified: bool)  // inside wait(lk), the mutex released
    | Relock                   // woken, reacquiring the mutex
    | Consume                  // m_start = false
    | UnmarkWaiting            // m_start_waiting = false
    | ToUnlock                 // unlock
    | HookStart                // run OnceOnStart
    | LoadStop                 // while test: m_stop
    | LoadRunning              // while test: m_running
    | InBody                   // run Body
    | SetStop                  // m_stop = true
    | HookStop                 // run OnceOnStop
    | TestRunning              // while (m_running == true)
    | ClearRunning             // m_running = false
    | HookExit                 // run OnceOnExit
    | Done

  /** Where the controller is inside its current call. */
  datatype ControllerPc =
    | Outside
    | StartClearStop | StartLock | StartSet | StartNotify | StartUnlock
    | ExitClearRunning | ExitLock | ExitTest | ExitSet | ExitNotify | ExitUnlock

  datatype State = State(start: bool, running: bool, stop: bool, waiting: bool, mutex: Holder,
                         worker: WorkerPc, controller: ControllerPc, trace: seq<Hook>, tokens: nat)

  datatype Step =
    | CallStart                      // m_running = true
    | CallStop                       // m_stop = true
    | CallExit                       // m_stop = true
    | ControllerStep                 // the next action of the call in progress
    | WorkerStep                     // the next action of the worker
    | SpuriousWake                   // wait(lk) may return for no reason

  /** The constructor's flags, with the worker thread just created. */
  const INITIAL := State(false, false, true, false, Free, Spawned, Outside, [], 0)

  predicate WorkerEnabled(s: State) {
    match s.worker
    case Done => false
    case Blocked(notified) => notified
    case ToLock => s.mutex.Free?
    case Relock => s.mutex.Free?
    case _ => true
  }

  predicate CanStep(s: State, step: Step) {
    match step
    case CallStart => s.controller.Outside?
    case CallStop => s.controller.Outside?
    case CallExit => s.controller.Outside?
    case ControllerStep =>
      !s.controller.Outside? && (s.controller.StartLock? || s.controller.ExitLock? ==> s.mutex.Free?)
    case WorkerStep => WorkerEnabled(s)
    case SpuriousWake => s.worker.Blocked?
  }

  /** The hook or Body that the worker's next action runs, if it is one. */
  function HookOf(w: WorkerPc): (hooks: seq<Hook>)
    ensures |hooks| <= 1
  {
    match w
    case Spawned => [OnceOnSpawn]
    case HookStart => [OnceOnStart]
    case InBody => [Body]
    case HookStop => [OnceOnStop]
    case HookExit => [OnceOnExit]
    case _ => []
  }

  function AfterWorker(s: State): State {
    Moved(s).(trace := s.trace + HookOf(s.worker))
  }

  /** The worker's next action, its hooks aside. */
  function Moved(s: State): State {
    match s.worker
    case Spawned => s.(worker := ToLock)
    case ToLock => s.(worker := MarkWaiting, mutex := Worker)
    case MarkWaiting => s.(worker := TestStart, waiting := true)
    case TestStart => if s.start then s.(worker := Consume) else s.(worker := Blocked(false), mutex := Free)
    case Blocked(_) => s.(worker := Relock)
    case Relock => s.(worker := TestStart, mutex := Worker)
    case Consume => s.(worker := UnmarkWaiting, start := false)
    case UnmarkWaiting => s.(worker := ToUnlock, waiting := false)
    case ToUnlock => s.(worker := HookStart, mutex := Free)
    case HookStart => s.(worker := LoadStop)
    case LoadStop => s.(worker := if s.stop then SetStop else LoadRunning)
    case LoadRunning => s.(worker := if s.running then InBody else SetStop)
    case InBody => s.(worker := LoadStop)
    case SetStop => s.(worker := HookStop, stop := true)
    case HookStop => s.(worker := TestRunning)
    case TestRunning => s.(worker := if s.running then ToLock else ClearRunning)
    case ClearRunning => s.(worker := HookExit, running := false)
    case HookExit => s.(worker := Done)
    case Done => s
  }

  /** notify_one: wakes the worker if it is blocked, and is forgotten otherwise. */
  function Notified(w: WorkerPc): WorkerPc {
    if w.Blocked? then Blocked(true) else w
  }

  /** `tokens` counts the stores of true to m_start. */
  function AfterController(s: State): State {
    match s.controller
    case Outside => s
    case StartClearStop => s.(controller := StartLock, stop := false)
    case StartLock => s.(controller := StartSet, mutex := Controller)
    case StartSet => s.(controller := StartNotify, start := true, tokens := s.tokens + 1)
    case StartNotify => s.(controller := StartUnlock, worker := Notified(s.worker))
    case StartUnlock => s.(controller := Outside, mutex := Free)
    case ExitClearRunning => s.(controller := ExitLock, running := false)
    case ExitLock => s.(controller := ExitTest, mutex := Controller)
    case ExitTest => s.(controller := if s.waiting then ExitSet else ExitNotify)
    case ExitSet => s.(controller := ExitNotify, start := true, tokens := s.tokens + 1)
    case ExitNotify => s.(controller := ExitUnlock, worker := Notified(s.worker))
    case ExitUnlock => s.(controller := Outside, mutex := Free)
  }

  function After(s: State, step: Step): State
    requires CanStep(s, step)
  {
    match step
    case CallStart => s.(controller := StartClearStop, running := true)
    case CallStop => s.(stop := true)
    case CallExit => s.(controller := ExitClearRunning, stop := true)
    case ControllerStep => AfterController(s)
    case WorkerStep => AfterWorker(s)
    case SpuriousWake => s.(worker := Relock)
  }

  ghost predicate CanRun(s: State, steps: seq<Step>)
    decreases |steps|
  {
    steps != [] ==> CanStep(s, steps[0]) && CanRun(After(s, steps[0]), steps[1..])
  }

  ghost function RunOf(s: State, steps: seq<Step>): State
    requires CanRun(s, steps)
    decreases |steps|
  {
    if steps == [] then s else RunOf(After(s, steps[0]), steps[1..])
  }

  // ---------------------------------------------------------------------------------
  // Mutual exclusion and hook order
  // ---------------------------------------------------------------------------------

  predicate WorkerHolds(w: WorkerPc) {
    w.MarkWaiting? || w.TestStart? || w.Consume? || w.UnmarkWaiting? || w.ToUnlock?
  }

  predicate ControllerHolds(c: ControllerPc) {
    || c.StartSet? || c.StartNotify? || c.StartUnlock?
    || c.ExitTest? || c.ExitSet? || c.ExitNotify? || c.ExitUnlock?
  }

  /** The parts of the hook language: where a trace can stand. */
  datatype Stage = Fresh | Ready | Working | Stopped | Over | Bad

  function Advance(stage: Stage, h: Hook): Stage {
    match h
    case OnceOnSpawn => if stage.Fresh? then Ready else Bad
    case OnceOnStart => if stage.Ready? || stage.Stopped? then Working else Bad
    case Body => if stage.Working? then Working else Bad
    case OnceOnStop => if stage.Working? then Stopped else Bad
    case OnceOnExit => if stage.Stopped? then Over else Bad
  }

  function Stages(trace: seq<Hook>): Stage {
    if trace == [] then Fresh else Advance(Stages(trace[..|trace| - 1]), trace[|trace| - 1])
  }

  predicate StageOk(w: WorkerPc, stage: Stage) {
    match w
    case Spawned => stage.Fresh?
    case LoadStop => stage.Working?
    case LoadRunning => stage.Working?
    case InBody => stage.Working?
    case SetStop => stage.Working?
    case HookStop => stage.Working?
    case TestRunning => stage.Stopped?
    case ClearRunning => stage.Stopped?
    case HookExit => stage.Stopped?
    case Done => stage.Over?
    case _ => stage.Ready? || stage.Stopped?
  }

  function Starts(trace: seq<Hook>): nat {
    if trace == [] then 0 else Starts(trace[..|trace| - 1]) + if trace[|trace| - 1].OnceOnStart? then 1 else 0
  }

  function Bodies(trace: seq<Hook>): nat {
    if trace == [] then 0 else Bodies(trace[..|trace| - 1]) + if trace[|trace| - 1].Body? then 1 else 0
  }

  /** A token taken from m_start whose OnceOnStart has not run yet. */
  function InHand(w: WorkerPc): nat {
    if w.UnmarkWaiting? || w.ToUnlock? || w.HookStart? then 1 else 0
  }

  predicate MarkedWaiting(w: WorkerPc) {
    w.TestStart? || w.Blocked? || w.Relock? || w.Consume? || w.UnmarkWaiting?
  }

  /** The mutex excludes and `m_start_waiting` tells the truth. */
  predicate MutexOk(s: State) {
    && (s.mutex.Worker? <==> WorkerHolds(s.worker))
    && (s.mutex.Controller? <==> ControllerHolds(s.controller))
    && (s.waiting <==> MarkedWaiting(s.worker))
    && (s.worker.Consume? ==> s.start)
  }

  /** No notify is lost, and an Exit in progress has made its stores. */
  predicate CallsOk(s: State) {
    && (s.worker == Blocked(false) && s.start ==> s.controller.StartNotify? || s.controller.ExitNotify?)
    && (s.controller.ExitSet? ==> s.waiting)
    && (InExit(s.controller) ==> s.stop && (s.controller.ExitClearRunning? || !s.running))
  }

  predicate FlagsOk(s: State) {
    MutexOk(s) && CallsOk(s)
  }

  predicate InExit(c: ControllerPc) {
    c.ExitClearRunning? || c.ExitLock? || c.ExitTest? || c.ExitSet? || c.ExitNotify? || c.ExitUnlock?
  }

  /** Hooks so far are in order, and each OnceOnStart used up a token of its own. */
  predicate TraceOk(s: State) {
    && StageOk(s.worker, Stages(s.trace))
    && Starts(s.trace) + InHand(s.worker) + (if s.start then 1 else 0) <= s.tokens
  }

  predicate Inv(s: State) {
    FlagsOk(s) && TraceOk(s)
  }

  lemma WorkerAndMutex(s: State)
    requires MutexOk(s) && WorkerEnabled(s)
    ensures Moved(s).mutex.Worker? <==> WorkerHolds(Moved(s).worker)
    ensures Moved(s).mutex.Controller? <==> s.mutex.Controller?
  {}

  lemma WorkerAndWaiting(s: State)
    requires MutexOk(s) && WorkerEnabled(s)
    ensures Moved(s).waiting <==> MarkedWaiting(Moved(s).worker)
    ensures Moved(s).worker.Consume? ==> Moved(s).start
    ensures Moved(s).controller == s.controller
  {}

  lemma WorkerKeepsMutex(s: State)
    requires MutexOk(s) && WorkerEnabled(s)
    ensures MutexOk(AfterWorker(s))
  {
    hide Moved;
    WorkerAndMutex(s);
    WorkerAndWaiting(s);
  }

  lemma WorkerKeepsCalls(s: State)
    requires FlagsOk(s) && WorkerEnabled(s)
    ensures CallsOk(AfterWorker(s))
  {}

  lemma ControllerKeepsMutex(s: State)
    requires MutexOk(s) && CanStep(s, ControllerStep)
    ensures MutexOk(AfterController(s))
  {}

  lemma ControllerKeepsCalls(s: State)
    requires FlagsOk(s) && CanStep(s, ControllerStep)
    ensures CallsOk(AfterController(s))
  {}

  lemma StepKeepsFlags(s: State, step: Step)
    requires FlagsOk(s) && CanStep(s, step)
    ensures FlagsOk(After(s, step))
  {
    match step
    case WorkerStep =>
      WorkerKeepsMutex(s);
      WorkerKeepsCalls(s);
    case ControllerStep =>
      ControllerKeepsMutex(s);
      ControllerKeepsCalls(s);
    case _ =>
  }

  lemma Appended(trace: seq<Hook>, hooks: seq<Hook>)
    requires |hooks| <= 1
    ensures Stages(trace + hooks) == if hooks == [] then Stages(trace) else Advance(Stages(trace), hooks[0])
    ensures Starts(trace + hooks) == Starts(trace) + if hooks == [OnceOnStart] then 1 else 0
    ensures Bodies(trace + hooks) == Bodies(trace) + if hooks == [Body] then 1 else 0
  {
    if hooks == [] {
      assert trace + hooks == trace;
    } else {
      assert (trace + hooks)[..|trace + hooks| - 1] == trace;
    }
  }

  /** One action of the worker, seen on the stage, the tokens and the number of Bodies alone. */
  lemma MoveFollowsStages(s: State, stage: Stage)
    requires StageOk(s.worker, stage)
    ensures StageOk(Moved(s).worker, if HookOf(s.worker) == [] then stage else Advance(stage, HookOf(s.worker)[0]))
  {
    if HookOf(s.worker) == [] { QuietMove(s, stage); } else { HookMove(s, stage); }
  }

  lemma QuietMove(s: State, stage: Stage)
    requires StageOk(s.worker, stage) && HookOf(s.worker) == []
    ensures StageOk(Moved(s).worker, stage)
  {}

  lemma HookMove(s: State, stage: Stage)
    requires StageOk(s.worker, stage) && HookOf(s.worker) != []
    ensures StageOk(Moved(s).worker, Advance(stage, HookOf(s.worker)[0]))
  {}

  lemma MoveAndStart(s: State)
    ensures Moved(s).start == (s.start && !s.worker.Consume?) && Moved(s).tokens == s.tokens
  {}

  lemma MoveAndHand(s: State)
    ensures InHand(Moved(s).worker) == if s.worker.Consume? then 1 else if s.worker.HookStart? then 0
                                       else InHand(s.worker)
  {}

  lemma HookStartOnly(w: WorkerPc)
    ensures HookOf(w) == [OnceOnStart] <==> w.HookStart?
  {}

  lemma MoveSpendsTokens(s: State)
    requires s.worker.Consume? ==> s.start
    ensures InHand(Moved(s).worker) + (if Moved(s).start then 1 else 0)
              + (if HookOf(s.worker) == [OnceOnStart] then 1 else 0)
         == InHand(s.worker) + (if s.start then 1 else 0)
    ensures Moved(s).tokens == s.tokens
  {
    hide Moved, HookOf;
    MoveAndStart(s);
    MoveAndHand(s);
    HookStartOnly(s.worker);
  }

  lemma WorkerKeepsTrace(s: State)
    requires Inv(s)
    ensures TraceOk(AfterWorker(s))
  {
    var s' := AfterWorker(s);
    hide Moved, HookOf, StageOk;
    Appended(s.trace, HookOf(s.worker));
    MoveFollowsStages(s, Stages(s.trace));
    MoveSpendsTokens(s);
    assert s'.worker == Moved(s).worker && s'.start == Moved(s).start && s'.trace == s.trace + HookOf(s.worker);
  }

  /** The other steps run no hook and leave the worker where it is, or wake it. */
  lemma OthersLeaveWorker(s: State, step: Step)
    requires CanStep(s, step) && !step.WorkerStep?
    ensures After(s, step).trace == s.trace
    ensures After(s, step).worker == s.worker
              || (s.worker.Blocked? && (After(s, step).worker.Blocked? || step.SpuriousWake?))
    ensures step.SpuriousWake? ==> s.worker.Blocked? && After(s, step).worker.Relock?
  {}

  /** They give a token whenever they set m_start. */
  lemma OthersGiveTokens(s: State, step: Step)
    requires CanStep(s, step) && !step.WorkerStep?
    ensures s.tokens <= After(s, step).tokens && (After(s, step).start && !s.start ==> s.tokens < After(s, step).tokens)
  {}

  lemma OthersKeepStage(s: State, step: Step, stage: Stage)
    requires CanStep(s, step) && !step.WorkerStep? && StageOk(s.worker, stage)
    ensures StageOk(After(s, step).worker, stage) && InHand(After(s, step).worker) == InHand(s.worker)
  {
    hide After;
    OthersLeaveWorker(s, step);
  }

  lemma OthersKeepTrace(s: State, step: Step)
    requires Inv(s) && CanStep(s, step) && !step.WorkerStep?
    ensures TraceOk(After(s, step))
  {
    hide After, StageOk, InHand;
    OthersLeaveWorker(s, step);
    OthersKeepStage(s, step, Stages(s.trace));
    OthersGiveTokens(s, step);
  }

  lemma StepKeepsInv(s: State, step: Step)
    requires Inv(s) && CanStep(s, step)
    ensures Inv(After(s, step))
  {
    StepKeepsFlags(s, step);
    if step.WorkerStep? { WorkerKeepsTrace(s); } else { OthersKeepTrace(s, step); }
  }

  lemma {:induction false} RunKeepsInv(s: State, steps: seq<Step>)
    requires Inv(s) && CanRun(s, steps)
    ensures Inv(RunOf(s, steps))
    decreases |steps|
  {
    if steps != [] {
      StepKeepsInv(s, steps[0]);
      RunKeepsInv(After(s, steps[0]), steps[1..]);
    }
  }

  /** The whole-life language: Spawn (Start Body* Stop)+ Exit, with the number of Bodies of each cycle. */
  function Cycles(bodies: seq<nat>): seq<Hook> {
    if bodies == [] then []
    else Cycles(bodies[..|bodies| - 1]) + [OnceOnStart] + Repeat(bodies[|bodies| - 1]) + [OnceOnStop]
  }

  function Repeat(n: nat): seq<Hook> {
    if n == 0 then [] else Repeat(n - 1) + [Body]
  }

  function WholeLife(bodies: seq<nat>): seq<Hook> {
    [OnceOnSpawn] + Cycles(bodies) + [OnceOnExit]
  }

  /** What a trace that has reached a stage looks like; `rest` completes it to a whole life. */
  lemma Completion(trace: seq<Hook>) returns (bodies: seq<nat>, rest: seq<Hook>)
    requires !Stages(trace).Bad?
    ensures bodies != [] && trace + rest == WholeLife(bodies)
    ensures Stages(trace).Over? ==> rest == []
  {
    var done, n := Shape(trace);
    match Stages(trace)
    case Fresh =>
      bodies, rest := [0], WholeLife([0]);
    case Ready =>
      bodies, rest := [0], [OnceOnStart, OnceOnStop, OnceOnExit];
      assert Cycles([0]) == [OnceOnStart, OnceOnStop] by { assert [0][..0] == []; }
    case Working =>
      bodies, rest := done + [n], [OnceOnStop, OnceOnExit];
      assert bodies[..|bodies| - 1] == done;
    case Stopped =>
      bodies, rest := done, [OnceOnExit];
    case Over =>
      bodies, rest := done, [];
  }

  lemma {:induction false} Shape(trace: seq<Hook>) returns (done: seq<nat>, n: nat)
    requires !Stages(trace).Bad?
    ensures match Stages(trace)
            case Fresh => trace == []
            case Ready => trace == [OnceOnSpawn]
            case Working => trace == [OnceOnSpawn] + Cycles(done) + [OnceOnStart] + Repeat(n)
            case Stopped => done != [] && trace == [OnceOnSpawn] + Cycles(done)
            case _ => done != [] && trace == WholeLife(done)
    decreases |trace|
  {
    done, n := [], 0;
    if trace != [] {
      var front, last := trace[..|trace| - 1], trace[|trace| - 1];
      done, n := Shape(front);
      assert trace == front + [last];
      match last
      case OnceOnStart => done, n := if Stages(front).Ready? then [] else done, 0;
      case Body => n := n + 1;
      case OnceOnStop =>
        var whole := done + [n];
        assert whole[..|whole| - 1] == done;
        done := whole;
      case _ =>
    }
  }

  /** Every schedule's hook trace is the beginning of some Spawn (Start Body* Stop)+ Exit. */
  lemma HookOrder(steps: seq<Step>) returns (bodies: seq<nat>, rest: seq<Hook>)
    requires CanRun(INITIAL, steps)
    ensures bodies != [] && RunOf(INITIAL, steps).trace + rest == WholeLife(bodies)
    ensures RunOf(INITIAL, steps).worker.Done? ==> rest == []
  {
    RunKeepsInv(INITIAL, steps);
    bodies, rest := Completion(RunOf(INITIAL, steps).trace);
  }

  /** A token is given by each store of true to m_start. */
  function TokensOf(s: State, step: Step): nat {
    if step.ControllerStep? && (s.controller.StartSet? || s.controller.ExitSet?) then 1 else 0
  }

  /** How often m_start is set: by each Start, and by each Exit that found the worker waiting. */
  ghost function TokensGiven(s: State, steps: seq<Step>): nat
    requires CanRun(s, steps)
    decreases |steps|
  {
    if steps == [] then 0 else TokensOf(s, steps[0]) + TokensGiven(After(s, steps[0]), steps[1..])
  }

  lemma TokensOfStep(s: State, step: Step)
    requires CanStep(s, step)
    ensures After(s, step).tokens == s.tokens + TokensOf(s, step)
  {
    hide Moved, HookOf;
    MoveAndStart(s);
  }

  lemma {:induction false} TokensCounted(s: State, steps: seq<Step>)
    requires CanRun(s, steps)
    ensures RunOf(s, steps).tokens == s.tokens + TokensGiven(s, steps)
    decreases |steps|
  {
    hide After, TokensOf;
    if steps != [] {
      TokensOfStep(s, steps[0]);
      TokensCounted(After(s, steps[0]), steps[1..]);
    }
  }

  /** Each OnceOnStart uses up a token of its own. */
  lemma StartsNeverExceedTokens(steps: seq<Step>)
    requires CanRun(INITIAL, steps)
    ensures Starts(RunOf(INITIAL, steps).trace) <= TokensGiven(INITIAL, steps)
  {
    RunKeepsInv(INITIAL, steps);
    TokensCounted(INITIAL, steps);
  }

  // ---------------------------------------------------------------------------------
  // Exit
  // ---------------------------------------------------------------------------------

  /** The worker took a start token and has not yet come back for another. */
  predicate Started(w: WorkerPc) {
    || w.UnmarkWaiting? || w.ToUnlock? || w.HookStart? || w.LoadStop? || w.LoadRunning? || w.InBody? || w.SetStop?
    || w.HookStop? || w.TestRunning?
  }

  predicate Leaving(w: WorkerPc) {
    w.ClearRunning? || w.HookExit? || w.Done?
  }

  /** What decides, when Exit holds the mutex, whether this Exit ends the worker. */
  predicate WillFinish(s: State) {
    s.start || s.waiting || Started(s.worker) || Leaving(s.worker)
  }

  /** No Start is in progress. */
  predicate NoStart(c: ControllerPc) {
    !(c.StartClearStop? || c.StartLock? || c.StartSet? || c.StartNotify? || c.StartUnlock?)
  }

  /** After Exit's stores, with no Start since: the worker can only go towards OnceOnExit. */
  predicate Ending(s: State) {
    FlagsOk(s) && OnItsWay(s)
  }

  predicate OnItsWay(s: State) {
    && !s.running && s.stop && NoStart(s.controller)
    && (s.start || Started(s.worker) || Leaving(s.worker)
        || s.controller.ExitSet? || (s.controller.ExitTest? && s.waiting))
  }

  /** No start token and nobody to give one: the worker can only wait. */
  predicate Stranded(s: State) {
    && FlagsOk(s) && !s.start && !(Started(s.worker) || Leaving(s.worker) || s.worker.Consume?)
    && (s.controller.Outside? || (s.controller.ExitTest? && !s.waiting)
        || s.controller.ExitNotify? || s.controller.ExitUnlock?)
  }

  /** The most steps the worker can still take once it is ending. */
  function Rank(w: WorkerPc): nat {
    match w
    case Spawned => 19
    case ToLock => 18
    case MarkWaiting => 17
    case Blocked(_) => 16
    case Relock => 15
    case TestStart => 14
    case Consume => 13
    case UnmarkWaiting => 12
    case ToUnlock => 11
    case HookStart => 10
    case InBody => 9
    case LoadStop => 8
    case LoadRunning => 7
    case SetStop => 6
    case HookStop => 5
    case TestRunning => 4
    case ClearRunning => 3
    case HookExit => 2
    case Done => 0
  }

  /** What the controller still has to do in the call in progress. */
  function ControllerRank(c: ControllerPc): nat {
    match c
    case ExitClearRunning => 6
    case ExitLock => 5
    case ExitTest => 4
    case ExitSet => 3
    case ExitNotify => 2
    case ExitUnlock => 1
    case _ => 0
  }

  lemma WorkerEnding(s: State)
    requires Ending(s) && WorkerEnabled(s)
    ensures OnItsWay(AfterWorker(s)) && Rank(AfterWorker(s).worker) < Rank(s.worker)
  {}

  lemma ControllerEnding(s: State)
    requires Ending(s) && CanStep(s, ControllerStep)
    ensures OnItsWay(AfterController(s)) && Rank(AfterController(s).worker) <= Rank(s.worker)
    ensures ControllerRank(AfterController(s).controller) < ControllerRank(s.controller)
  {}

  lemma OthersEnding(s: State, step: Step)
    requires Ending(s) && CanStep(s, step) && (step.CallStop? || step.CallExit? || step.SpuriousWake?)
    ensures OnItsWay(After(s, step)) && Rank(After(s, step).worker) <= Rank(s.worker)
    ensures step.SpuriousWake? ==> Rank(After(s, step).worker) < Rank(s.worker)
  {}

  /** Ending survives everything but a new Start; each worker step comes closer to OnceOnExit. */
  lemma EndingStep(s: State, step: Step)
    requires Ending(s) && CanStep(s, step) && !step.CallStart?
    ensures Ending(After(s, step))
    ensures Rank(After(s, step).worker) <= Rank(s.worker)
    ensures step.WorkerStep? || step.SpuriousWake? ==> Rank(After(s, step).worker) < Rank(s.worker)
    ensures step.ControllerStep? ==> ControllerRank(After(s, step).controller) < ControllerRank(s.controller)
  {
    hide FlagsOk, OnItsWay, AfterWorker, AfterController, Rank, ControllerRank;
    StepKeepsFlags(s, step);
    match step
    case WorkerStep => WorkerEnding(s);
    case ControllerStep => ControllerEnding(s);
    case _ => OthersEnding(s, step);
  }

  /** An ending worker that is not done can move, or is held up only by an Exit that can move. */
  lemma EndingNeverStuck(s: State)
    requires Ending(s) && !s.worker.Done?
    ensures CanStep(s, WorkerStep) || CanStep(s, ControllerStep)
  {}

  function WorkerSteps(steps: seq<Step>): nat {
    if steps == [] then 0 else (if steps[0].WorkerStep? then 1 else 0) + WorkerSteps(steps[1..])
  }

  lemma {:induction false} EndingRun(s: State, steps: seq<Step>)
    requires Ending(s) && CanRun(s, steps) && forall k :: 0 <= k < |steps| ==> !steps[k].CallStart?
    ensures Ending(RunOf(s, steps))
    ensures WorkerSteps(steps) + Rank(RunOf(s, steps).worker) <= Rank(s.worker)
    decreases |steps|
  {
    if steps != [] {
      EndingStep(s, steps[0]);
      EndingRun(After(s, steps[0]), steps[1..]);
    }
  }

  lemma StrandedStep(s: State, step: Step)
    requires Stranded(s) && CanStep(s, step) && !step.CallStart? && !step.CallExit?
    ensures Stranded(After(s, step))
  {
    StepKeepsFlags(s, step);
  }

  lemma {:induction false} StrandedRun(s: State, steps: seq<Step>)
    requires Stranded(s) && CanRun(s, steps)
    requires forall k :: 0 <= k < |steps| ==> !steps[k].CallStart? && !steps[k].CallExit?
    ensures Stranded(RunOf(s, steps))
    decreases |steps|
  {
    hide Stranded, After;
    if steps != [] {
      StrandedStep(s, steps[0]);
      StrandedRun(After(s, steps[0]), steps[1..]);
    }
  }

  lemma InitialInv()
    ensures Inv(INITIAL)
  {}

  lemma ExitBeginsEnding(s: State)
    requires Inv(s) && s.controller.ExitTest? && WillFinish(s)
    ensures Ending(s)
  {}

  lemma RankBounds(w: WorkerPc)
    ensures Rank(w) <= 19 && (Rank(w) > 0 <==> !w.Done?)
  {}

  lemma DoneIsOver(s: State)
    requires Inv(s) && s.worker.Done?
    ensures Stages(s.trace).Over?
  {}

  /**
   An Exit that holds the mutex with WillFinish ends the worker: in every schedule without a new
   Start that lets the worker take 19 steps it is done, and it is never stuck before.
   */
  lemma ExitEndsWorker(before: seq<Step>, after: seq<Step>)
    requires CanRun(INITIAL, before) && RunOf(INITIAL, before).controller.ExitTest?
             && WillFinish(RunOf(INITIAL, before))
    requires CanRun(RunOf(INITIAL, before), after) && forall k :: 0 <= k < |after| ==> !after[k].CallStart?
    ensures var s' := RunOf(RunOf(INITIAL, before), after);
            if s'.worker.Done? then Stages(s'.trace).Over?
            else WorkerSteps(after) < 19 && (CanStep(s', WorkerStep) || CanStep(s', ControllerStep))
  {
    hide Inv, Ending, WillFinish, StageOk, Stages, Rank, After, CanStep;
    var s := RunOf(INITIAL, before);
    InitialInv();
    RunKeepsInv(INITIAL, before);
    ExitBeginsEnding(s);
    EndingRun(s, after);
    RunKeepsInv(s, after);
    RankBounds(s.worker);
    RankBounds(RunOf(s, after).worker);
    if RunOf(s, after).worker.Done? { DoneIsOver(RunOf(s, after)); }
    if !RunOf(s, after).worker.Done? { EndingNeverStuck(RunOf(s, after)); }
  }

  /** Without WillFinish no schedule ends the worker, until there is another Start or Exit. */
  lemma ExitStrandsWorker(before: seq<Step>, after: seq<Step>)
    requires CanRun(INITIAL, before) && RunOf(INITIAL, before).controller.ExitTest?
             && !WillFinish(RunOf(INITIAL, before))
    requires CanRun(RunOf(INITIAL, before), after)
    requires forall k :: 0 <= k < |after| ==> !after[k].CallStart? && !after[k].CallExit?
    ensures var s' := RunOf(RunOf(INITIAL, before), after); !Leaving(s'.worker) && !Started(s'.worker)
  {
    RunKeepsInv(INITIAL, before);
    StrandedRun(RunOf(INITIAL, before), after);
  }

  /** What WillFinish means for the worker when Exit holds the mutex: it is not on its way to wait. */
  lemma WillFinishMeans(before: seq<Step>)
    requires CanRun(INITIAL, before) && RunOf(INITIAL, before).controller.ExitTest?
    ensures var s := RunOf(INITIAL, before);
            WillFinish(s) <==> s.start || !(s.worker.Spawned? || s.worker.ToLock?)
  {
    RunKeepsInv(INITIAL, before);
  }

  lemma MoveAdmitsNoBody(s: State)
    requires !s.running
    ensures !Moved(s).running && !Moved(s).worker.InBody? && Moved(s).controller == s.controller
    ensures HookOf(s.worker) == [Body] <==> s.worker.InBody?
  {}

  lemma BodyStep(s: State, step: Step)
    requires !s.running && NoStart(s.controller) && CanStep(s, step) && !step.CallStart?
    ensures var s' := After(s, step);
            && !s'.running && NoStart(s'.controller)
            && Bodies(s'.trace) + (if s'.worker.InBody? then 1 else 0)
            <= Bodies(s.trace) + (if s.worker.InBody? then 1 else 0)
  {
    if step.WorkerStep? {
      MoveAdmitsNoBody(s);
      Appended(s.trace, HookOf(s.worker));
      assert After(s, step) == Moved(s).(trace := s.trace + HookOf(s.worker));
    } else {
      assert After(s, step).trace == s.trace;
    }
  }

  /** Once m_running is false and no Start follows, only a Body already admitted still runs. */
  lemma {:induction false} AtMostOneMoreBody(s: State, steps: seq<Step>)
    requires !s.running && NoStart(s.controller)
    requires CanRun(s, steps) && forall k :: 0 <= k < |steps| ==> !steps[k].CallStart?
    ensures Bodies(RunOf(s, steps).trace) <= Bodies(s.trace) + if s.worker.InBody? then 1 else 0
    decreases |steps|
  {
    if steps != [] {
      BodyStep(s, steps[0]);
      AtMostOneMoreBody(After(s, steps[0]), steps[1..]);
    }
  }
}
