/**
 Semaphores on macOS, where `sem_getvalue` does not exist: a shared atomic counter `semCounter`
 stands in for the value, and posters reserve a unit in it with a compare-and-swap first.  Any
 number of posters and waiters run, and a weak compare-and-swap may fail for no reason.
 */
module CountedSemaphores {
  const SEMAPHORE_MAXVAL := 1

  datatype Poster = Resting | Loaded(val: int) | Reserved | PostFailed

  datatype Waiter = Waiting | Took | Read(val: int)

  datatype State = State(counter: int, kernel: nat, posters: seq<Poster>, waiters: seq<Waiter>)

  datatype Step =
    | LoadCounter(i: nat)             // poster: atomic_load
    | Reserve(i: nat, spurious: bool) // poster: compare-exchange oldval -> oldval + 1
    | SkipPost(i: nat)                // poster: counter at its maximum
    | Post(i: nat, ok: bool)          // poster: sem_post
    | Rollback(i: nat)                // poster: fetch_sub after a failed sem_post
    | Take(i: nat)                    // waiter: sem_wait returned 0
    | ReadCounter(i: nat)             // waiter: atomic_load
    | Decrement(i: nat, spurious: bool) // waiter: compare-exchange val -> val - 1
    | GiveUp(i: nat)                  // waiter: the loop ends because val is 0
    | SubtractTimed(i: nat)           // waiter with a timeout: fetch_sub

  predicate CanStep(s: State, step: Step) {
    match step
    case LoadCounter(i) => i < |s.posters| && s.posters[i].Resting?
    case Reserve(i, _) => i < |s.posters| && s.posters[i].Loaded? && s.posters[i].val < SEMAPHORE_MAXVAL
    case SkipPost(i) => i < |s.posters| && s.posters[i].Loaded? && s.posters[i].val >= SEMAPHORE_MAXVAL
    case Post(i, _) => i < |s.posters| && s.posters[i].Reserved?
    case Rollback(i) => i < |s.posters| && s.posters[i].PostFailed?
    case Take(i) => i < |s.waiters| && s.waiters[i].Waiting? && s.kernel > 0
    case ReadCounter(i) => i < |s.waiters| && s.waiters[i].Took?
    case Decrement(i, _) => i < |s.waiters| && s.waiters[i].Read? && s.waiters[i].val > 0
    case GiveUp(i) => i < |s.waiters| && s.waiters[i].Read? && s.waiters[i].val <= 0
    case SubtractTimed(i) => i < |s.waiters| && s.waiters[i].Took?
  }

  function After(s: State, step: Step): State
    requires CanStep(s, step)
  {
    match step
    case LoadCounter(i) => s.(posters := s.posters[i := Loaded(s.counter)])
    case Reserve(i, spurious) =>
      if !spurious && s.counter == s.posters[i].val then
        s.(counter := s.counter + 1, posters := s.posters[i := Reserved])
      else s.(posters := s.posters[i := Loaded(s.counter)])
    case SkipPost(i) => s.(posters := s.posters[i := Resting])
    case Post(i, ok) =>
      if ok then s.(kernel := s.kernel + 1, posters := s.posters[i := Resting])
      else s.(posters := s.posters[i := PostFailed])
    case Rollback(i) => s.(counter := s.counter - 1, posters := s.posters[i := Resting])
    case Take(i) => s.(kernel := s.kernel - 1, waiters := s.waiters[i := Took])
    case ReadCounter(i) => s.(waiters := s.waiters[i := Read(s.counter)])
    case Decrement(i, spurious) =>
      if !spurious && s.counter == s.waiters[i].val then
        s.(counter := s.counter - 1, waiters := s.waiters[i := Waiting])
      else s.(waiters := s.waiters[i := Read(s.counter)])
    case GiveUp(i) => s.(waiters := s.waiters[i := Waiting])
    case SubtractTimed(i) => s.(counter := s.counter - 1, waiters := s.waiters[i := Waiting])
  }

  ghost predicate CanRun(s: State, steps: seq<Step>)
    decreases |steps|
  {
    steps != [] ==> CanStep(s, steps[0]) && CanRun(After(s, steps[0]), steps[1..])
  }

  ghost function RunOf(s: State, steps: seq<Step>): State
    requires CanRun(s, steps)
    decreases |steps|
  {
    if steps == [] then s else RunOf(After(s, steps[0]), steps[1..])
  }

  /** A poster between its reservation and `sem_post`, or its rollback, holds one unit. */
  function PosterUnits(posters: seq<Poster>): nat {
    if posters == [] then 0
    else
      var last := posters[|posters| - 1];
      PosterUnits(posters[..|posters| - 1]) + Unit(last.Reserved? || last.PostFailed?)
  }

  /** A waiter between `sem_wait` and its decrement holds one unit. */
  function WaiterUnits(waiters: seq<Waiter>): nat {
    if waiters == [] then 0
    else WaiterUnits(waiters[..|waiters| - 1]) + Unit(!waiters[|waiters| - 1].Waiting?)
  }

  function Unit(b: bool): nat {
    if b then 1 else 0
  }

  lemma {:induction false} PosterUpdate(posters: seq<Poster>, i: nat, p: Poster)
    requires i < |posters|
    ensures PosterUnits(posters[i := p]) - Unit(p.Reserved? || p.PostFailed?)
         == PosterUnits(posters) - Unit(posters[i].Reserved? || posters[i].PostFailed?)
    decreases |posters|
  {
    var front := posters[..|posters| - 1];
    if i < |front| {
      PosterUpdate(front, i, p);
      assert posters[i := p][..|posters| - 1] == front[i := p];
    } else {
      assert posters[i := p][..|posters| - 1] == front;
    }
  }

  lemma {:induction false} WaiterUpdate(waiters: seq<Waiter>, i: nat, w: Waiter)
    requires i < |waiters|
    ensures WaiterUnits(waiters[i := w]) - Unit(!w.Waiting?) == WaiterUnits(waiters) - Unit(!waiters[i].Waiting?)
    ensures WaiterUnits(waiters) >= Unit(!waiters[i].Waiting?)
    decreases |waiters|
  {
    var front := waiters[..|waiters| - 1];
    if i < |front| {
      WaiterUpdate(front, i, w);
      assert waiters[i := w][..|waiters| - 1] == front[i := w];
    } else {
      assert waiters[i := w][..|waiters| - 1] == front;
    }
  }

  /** Units are conserved, and a waiter that read the counter while holding one read exactly 1. */
  predicate Conserved(s: State) {
    && s.counter == s.kernel + PosterUnits(s.posters) + WaiterUnits(s.waiters)
    && s.counter <= SEMAPHORE_MAXVAL
    && (forall i :: 0 <= i < |s.waiters| && s.waiters[i].Read? ==> s.waiters[i].val == 1)
  }

  predicate PosterStep(step: Step) {
    step.LoadCounter? || step.Reserve? || step.SkipPost? || step.Post? || step.Rollback?
  }

  lemma PosterConserves(s: State, step: Step)
    requires Conserved(s) && CanStep(s, step) && PosterStep(step)
    ensures Conserved(After(s, step))
  {
    hide PosterUnits, WaiterUnits;
    match step
    case LoadCounter(i) => PosterUpdate(s.posters, i, Loaded(s.counter));
    case Reserve(i, spurious) =>
      PosterUpdate(s.posters, i, Reserved);
      PosterUpdate(s.posters, i, Loaded(s.counter));
    case SkipPost(i) => PosterUpdate(s.posters, i, Resting);
    case Post(i, ok) =>
      PosterUpdate(s.posters, i, Resting);
      PosterUpdate(s.posters, i, PostFailed);
    case Rollback(i) => PosterUpdate(s.posters, i, Resting);
    case _ =>
  }

  lemma WaiterConserves(s: State, step: Step)
    requires Conserved(s) && CanStep(s, step) && !PosterStep(step)
    ensures !step.GiveUp? && Conserved(After(s, step))
  {
    hide PosterUnits, WaiterUnits;
    match step
    case Take(i) => WaiterUpdate(s.waiters, i, Took);
    case ReadCounter(i) => WaiterUpdate(s.waiters, i, Read(s.counter));
    case Decrement(i, spurious) =>
      WaiterUpdate(s.waiters, i, Waiting);
      WaiterUpdate(s.waiters, i, Read(s.counter));
    case GiveUp(i) =>
    case SubtractTimed(i) => WaiterUpdate(s.waiters, i, Waiting);
    case _ =>
  }

  lemma StepConserves(s: State, step: Step)
    requires Conserved(s) && CanStep(s, step)
    ensures !step.GiveUp? && Conserved(After(s, step))
  {
    hide Conserved, After;
    if PosterStep(step) { PosterConserves(s, step); } else { WaiterConserves(s, step); }
  }

  lemma RunStep(s: State, step: Step, rest: seq<Step>)
    requires CanStep(s, step) && CanRun(After(s, step), rest)
    ensures CanRun(s, [step] + rest) && RunOf(s, [step] + rest) == RunOf(After(s, step), rest)
  {
    assert ([step] + rest)[1..] == rest;
  }

  lemma RunTwo(s: State, a: Step, b: Step)
    requires CanStep(s, a) && CanStep(After(s, a), b)
    ensures CanRun(s, [a] + [b]) && RunOf(s, [a] + [b]) == After(After(s, a), b)
  {
    RunStep(After(s, a), b, []);
    assert [b] + [] == [b];
    RunStep(s, a, [b]);
  }

  /** A post that nothing interrupts raises the semaphore below its maximum, and leaves it alone at it. */
  lemma UninterruptedPost(s: State, i: nat)
    requires i < |s.posters| && s.posters[i].Resting?
    ensures var full := s.counter >= SEMAPHORE_MAXVAL;
            var acts := [LoadCounter(i)] + (if full then [SkipPost(i)] else [Reserve(i, false)] + [Post(i, true)]);
            && CanRun(s, acts) && RunOf(s, acts).posters == s.posters && RunOf(s, acts).waiters == s.waiters
            && RunOf(s, acts).kernel == s.kernel + (if full then 0 else 1)
            && RunOf(s, acts).counter == s.counter + (if full then 0 else 1)
  {
    var s1 := After(s, LoadCounter(i));
    if s.counter >= SEMAPHORE_MAXVAL {
      RunTwo(s, LoadCounter(i), SkipPost(i));
      assert After(s1, SkipPost(i)).posters == s.posters;
    } else {
      RunTwo(s1, Reserve(i, false), Post(i, true));
      RunStep(s, LoadCounter(i), [Reserve(i, false)] + [Post(i, true)]);
      assert After(After(s1, Reserve(i, false)), Post(i, true)).posters == s.posters;
    }
  }

  /** A wait that nothing interrupts takes one unit from the semaphore and from the counter. */
  lemma UninterruptedWait(s: State, i: nat)
    requires Conserved(s) && i < |s.waiters| && s.waiters[i].Waiting? && s.kernel > 0
    ensures var acts := [Take(i)] + ([ReadCounter(i)] + [Decrement(i, false)]);
            && CanRun(s, acts) && RunOf(s, acts).posters == s.posters && RunOf(s, acts).waiters == s.waiters
            && RunOf(s, acts).kernel == s.kernel - 1 && RunOf(s, acts).counter == s.counter - 1
  {
    var s1 := After(s, Take(i));
    RunTwo(s1, ReadCounter(i), Decrement(i, false));
    RunStep(s, Take(i), [ReadCounter(i)] + [Decrement(i, false)]);
    assert After(After(s1, ReadCounter(i)), Decrement(i, false)).waiters == s.waiters;
  }

  /** A reservation that fails for a reason finds that another one, or a decrement, got through. */
  lemma ReserveFailsOnlyIfChanged(s: State, i: nat)
    requires CanStep(s, Reserve(i, false)) && !After(s, Reserve(i, false)).posters[i].Reserved?
    ensures s.counter != s.posters[i].val && After(s, Reserve(i, false)).posters[i] == Loaded(s.counter)
  {}

  /** Just created: the kernel semaphore drained, the counter cleared, nobody active. */
  function Fresh(nposters: nat, nwaiters: nat): State {
    State(0, 0, seq(nposters, i => Resting), seq(nwaiters, i => Waiting))
  }

  lemma {:induction false} FreshUnits(nposters: nat, nwaiters: nat)
    ensures PosterUnits(seq(nposters, i => Resting)) == 0 && WaiterUnits(seq(nwaiters, i => Waiting)) == 0
    decreases nposters + nwaiters
  {
    if nposters > 0 {
      FreshUnits(nposters - 1, nwaiters);
      assert seq(nposters, i => Resting)[..nposters - 1] == seq(nposters - 1, i => Resting);
    } else if nwaiters > 0 {
      FreshUnits(nposters, nwaiters - 1);
      assert seq(nwaiters, i => Waiting)[..nwaiters - 1] == seq(nwaiters - 1, i => Waiting);
    }
  }

  lemma {:induction false} RunConserves(s: State, steps: seq<Step>)
    requires Conserved(s) && CanRun(s, steps)
    ensures Conserved(RunOf(s, steps)) && forall k :: 0 <= k < |steps| ==> !steps[k].GiveUp?
    decreases |steps|
  {
    if steps != [] {
      StepConserves(s, steps[0]);
      RunConserves(After(s, steps[0]), steps[1..]);
      forall k | 0 <= k < |steps| ensures !steps[k].GiveUp? {
        assert k > 0 ==> steps[k] == steps[1..][k - 1];
      }
    }
  }

  /**
   Under every schedule of posters and waiters the counter is the kernel value plus the units in
   hand and never exceeds 1, and the guarded decrement loop never ends without decrementing.
   */
  lemma {:induction false} SemaphoreConservation(nposters: nat, nwaiters: nat, steps: seq<Step>)
    requires CanRun(Fresh(nposters, nwaiters), steps)
    ensures Conserved(RunOf(Fresh(nposters, nwaiters), steps))
    ensures forall k :: 0 <= k < |steps| ==> !steps[k].GiveUp?
  {
    FreshUnits(nposters, nwaiters);
    RunConserves(Fresh(nposters, nwaiters), steps);
  }
}

/**
 One macOS semaphore between a single writer and its waiters: every commit is followed by one post,
 and a waiter that returns reads the newest frame.  `last` is the waiter that took the semaphore
 last; `failed` says that the newest frame's `sem_post` failed.
 */
module CountedWakeups {
  import opened Wrappers
  import Sem = CountedSemaphores

  /** A waiter outside its wait: about to wait again, or returned and about to read. */
  datatype Waiter = Waiter(awake: bool, seen: nat)

  datatype State = State(sem: Sem.State, frames: nat, owing: bool, failed: bool, waiters: seq<Waiter>,
    last: Option<nat>)

  datatype Step = Commit | Semaphore(step: Sem.Step) | ReadNewest(k: nat)

  /** The writer posts once after each commit; a waiter reads before it waits again. */
  predicate CanStep(s: State, step: Step) {
    match step
    case Commit => !s.owing
    case Semaphore(inner) =>
      && Sem.CanStep(s.sem, inner) && |s.waiters| == |s.sem.waiters|
      && (inner.LoadCounter? ==> s.owing)
      && (inner.Take? ==> !s.waiters[inner.i].awake)
    case ReadNewest(k) => k < |s.waiters| && s.waiters[k].awake
  }

  predicate PostEnds(inner: Sem.Step) {
    inner.SkipPost? || (inner.Post? && inner.ok) || inner.Rollback?
  }

  /** The wait returns once the unit is given back. */
  predicate WaitEnds(s: Sem.State, inner: Sem.Step)
    requires Sem.CanStep(s, inner)
  {
    inner.SubtractTimed? || inner.GiveUp?
      || (inner.Decrement? && !inner.spurious && s.counter == s.waiters[inner.i].val)
  }

  function After(s: State, step: Step): State
    requires CanStep(s, step)
  {
    match step
    case Commit => s.(frames := s.frames + 1, owing := true, failed := false)
    case Semaphore(inner) =>
      s.(sem := Sem.After(s.sem, inner),
         owing := s.owing && !PostEnds(inner),
         failed := s.failed || inner.Rollback?,
         waiters := if WaitEnds(s.sem, inner) then s.waiters[inner.i := s.waiters[inner.i].(awake := true)]
           else s.waiters,
         last := if inner.Take? then Some(inner.i) else s.last)
    case ReadNewest(k) => s.(waiters := s.waiters[k := Waiter(false, s.frames)])
  }

  ghost predicate CanRun(s: State, steps: seq<Step>)
    decreases |steps|
  {
    steps != [] ==> CanStep(s, steps[0]) && CanRun(After(s, steps[0]), steps[1..])
  }

  ghost function RunOf(s: State, steps: seq<Step>): State
    requires CanRun(s, steps)
    decreases |steps|
  {
    if steps == [] then s else RunOf(After(s, steps[0]), steps[1..])
  }

  function Fresh(nwaiters: nat): State {
    State(Sem.Fresh(1, nwaiters), 0, false, false, seq(nwaiters, i => Waiter(false, 0)), None)
  }

  /**
   The semaphore is up, or the waiter it last let through has yet to return from its wait, or has
   returned and has yet to read, or has read the newest frame; before the first there is none to miss.
   */
  predicate Served(s: State)
    requires |s.waiters| == |s.sem.waiters|
  {
    || s.sem.kernel > 0 || s.frames == 0
    || (&& s.last.Some? && s.last.value < |s.waiters|
        && var k := s.last.value;
           (!s.sem.waiters[k].Waiting? || s.waiters[k].awake || s.waiters[k].seen == s.frames))
  }

  /** Where the writer is in its post. */
  predicate PostOk(s: State)
    requires |s.waiters| == |s.sem.waiters|
  {
    && |s.sem.posters| == 1
    && (!s.sem.posters[0].Resting? ==> s.owing)
    && (s.sem.posters[0].Loaded? && s.sem.posters[0].val >= Sem.SEMAPHORE_MAXVAL ==> Served(s))
    && (!s.owing && !s.failed ==> Served(s))
  }

  /** Only the last waiter let through can be holding the unit. */
  predicate HolderIsLast(s: State)
    requires |s.waiters| == |s.sem.waiters|
  {
    forall i :: 0 <= i < |s.sem.waiters| && !s.sem.waiters[i].Waiting? ==> s.last == Some(i)
  }

  predicate Inv(s: State) {
    Sem.Conserved(s.sem) && |s.waiters| == |s.sem.waiters| && HolderIsLast(s) && PostOk(s)
  }

  /** A waiter's unit is among those counted, and a poster's too. */
  lemma {:induction false} SomeHolder(waiters: seq<Sem.Waiter>)
    requires Sem.WaiterUnits(waiters) > 0
    ensures exists i :: 0 <= i < |waiters| && !waiters[i].Waiting?
    decreases |waiters|
  {
    var front := waiters[..|waiters| - 1];
    if waiters[|waiters| - 1].Waiting? {
      SomeHolder(front);
      var i :| 0 <= i < |front| && !front[i].Waiting?;
      assert !waiters[i].Waiting?;
    }
  }

  lemma OnePoster(posters: seq<Sem.Poster>)
    requires |posters| == 1
    ensures Sem.PosterUnits(posters) == Sem.Unit(posters[0].Reserved? || posters[0].PostFailed?)
  {
    assert posters[..0] == [];
  }

  /** When the writer finds the counter at its maximum, the newest frame is served. */
  lemma FullIsServed(s: State)
    requires Inv(s) && s.sem.counter >= Sem.SEMAPHORE_MAXVAL
    requires !s.sem.posters[0].Reserved? && !s.sem.posters[0].PostFailed?
    ensures Served(s)
  {
    OnePoster(s.sem.posters);
    if s.sem.kernel == 0 { SomeHolder(s.sem.waiters); }
  }

  /** A waiter that takes the semaphore finds nobody else holding a unit. */
  lemma TakerIsAlone(s: State, i: nat)
    requires Inv(s) && s.sem.kernel > 0 && i < |s.sem.waiters|
    ensures s.sem.waiters[i].Waiting?
  {
    Sem.WaiterUpdate(s.sem.waiters, i, Sem.Waiting);
  }

  lemma WaiterStepKeeps(s: State, inner: Sem.Step)
    requires Inv(s) && CanStep(s, Semaphore(inner))
    requires inner.Take? || inner.ReadCounter? || inner.Decrement? || inner.SubtractTimed?
    ensures Inv(After(s, Semaphore(inner)))
  {
    Sem.StepConserves(s.sem, inner);
    if inner.Take? {
      forall i | 0 <= i < |s.sem.waiters| ensures s.sem.waiters[i].Waiting? { TakerIsAlone(s, i); }
    }
    var s' := After(s, Semaphore(inner));
    assert Served(s) ==> Served(s');
  }

  lemma PosterStepKeeps(s: State, inner: Sem.Step)
    requires Inv(s) && CanStep(s, Semaphore(inner))
    requires Sem.PosterStep(inner)
    ensures Inv(After(s, Semaphore(inner)))
  {
    Sem.StepConserves(s.sem, inner);
    if s.sem.counter >= Sem.SEMAPHORE_MAXVAL && (inner.LoadCounter? || inner.Reserve?) { FullIsServed(s); }
  }

  lemma StepKeepsInv(s: State, step: Step)
    requires Inv(s) && CanStep(s, step)
    ensures Inv(After(s, step)) && |After(s, step).waiters| == |s.waiters|
  {
    match step
    case Commit =>
    case Semaphore(inner) =>
      Sem.StepConserves(s.sem, inner);
      if Sem.PosterStep(inner) {
        PosterStepKeeps(s, inner);
      } else {
        WaiterStepKeeps(s, inner);
      }
    case ReadNewest(k) =>
  }

  lemma Lifted(s: State, inner: Sem.Step, rest: seq<Step>)
    requires CanStep(s, Semaphore(inner)) && CanRun(After(s, Semaphore(inner)), rest)
    ensures CanRun(s, [Semaphore(inner)] + rest)
    ensures RunOf(s, [Semaphore(inner)] + rest) == RunOf(After(s, Semaphore(inner)), rest)
  {
    assert ([Semaphore(inner)] + rest)[1..] == rest;
  }

  lemma LiftedOne(s: State, inner: Sem.Step)
    requires CanStep(s, Semaphore(inner))
    ensures CanRun(s, [Semaphore(inner)]) && RunOf(s, [Semaphore(inner)]) == After(s, Semaphore(inner))
  {
    Lifted(s, inner, []);
    assert [Semaphore(inner)] + [] == [Semaphore(inner)];
  }

  /** The post that follows a commit can be carried out, and then the newest frame is served. */
  lemma PostServes(s: State)
    requires Inv(s) && s.owing && s.sem.posters[0].Resting?
    ensures var acts := if s.sem.counter >= Sem.SEMAPHORE_MAXVAL
                        then [Semaphore(Sem.LoadCounter(0))] + [Semaphore(Sem.SkipPost(0))]
                        else [Semaphore(Sem.LoadCounter(0))]
                             + ([Semaphore(Sem.Reserve(0, false))] + [Semaphore(Sem.Post(0, true))]);
            && CanRun(s, acts) && Inv(RunOf(s, acts)) && !RunOf(s, acts).owing && RunOf(s, acts).failed == s.failed
            && RunOf(s, acts).frames == s.frames && Served(RunOf(s, acts))
  {
    var s1 := After(s, Semaphore(Sem.LoadCounter(0)));
    StepKeepsInv(s, Semaphore(Sem.LoadCounter(0)));
    if s.sem.counter >= Sem.SEMAPHORE_MAXVAL {
      StepKeepsInv(s1, Semaphore(Sem.SkipPost(0)));
      LiftedOne(s1, Sem.SkipPost(0));
      Lifted(s, Sem.LoadCounter(0), [Semaphore(Sem.SkipPost(0))]);
    } else {
      var s2 := After(s1, Semaphore(Sem.Reserve(0, false)));
      StepKeepsInv(s1, Semaphore(Sem.Reserve(0, false)));
      StepKeepsInv(s2, Semaphore(Sem.Post(0, true)));
      LiftedOne(s2, Sem.Post(0, true));
      Lifted(s1, Sem.Reserve(0, false), [Semaphore(Sem.Post(0, true))]);
      Lifted(s, Sem.LoadCounter(0), [Semaphore(Sem.Reserve(0, false))] + [Semaphore(Sem.Post(0, true))]);
    }
  }

  lemma {:induction false} RunKeepsInv(s: State, steps: seq<Step>)
    requires Inv(s) && CanRun(s, steps)
    ensures Inv(RunOf(s, steps)) && |RunOf(s, steps).waiters| == |s.waiters|
    decreases |steps|
  {
    if steps != [] {
      StepKeepsInv(s, steps[0]);
      RunKeepsInv(After(s, steps[0]), steps[1..]);
    }
  }

  lemma FreshInv(nwaiters: nat)
    ensures Inv(Fresh(nwaiters))
  {
    hide Sem.PosterUnits, Sem.WaiterUnits;
    Sem.FreshUnits(1, nwaiters);
  }

  /**
   No wake-up is lost: once the newest frame is posted, and unless its `sem_post` failed, the
   semaphore is up, or the waiter it last let through has yet to return from its wait and read the
   newest frame, or has read it.
   */
  lemma {:induction false} NoLostWakeup(nwaiters: nat, steps: seq<Step>)
    requires CanRun(Fresh(nwaiters), steps)
    ensures var s := RunOf(Fresh(nwaiters), steps);
            |s.waiters| == |s.sem.waiters| == nwaiters && (!s.owing && !s.failed ==> Served(s))
  {
    FreshInv(nwaiters);
    RunKeepsInv(Fresh(nwaiters), steps);
  }
}
