/**
 Wake-up semaphores on Linux.  After each commit the writer visits every semaphore in turn,
 reading its value and posting only below the maximum; waiters run in between at any time.
 */
module Semaphores {
  import opened Ring
  import opened RingProtocol
  import opened Wrappers

  const SEMAPHORE_MAXVAL := 1

  /** Where `daoSemPostAll` is: before, or between, `sem_getvalue` and `sem_post` of semaphore s. */
  datatype PostPc = NotPosting | Posting(s: nat) | GotValue(s: nat, value: nat)

  /** A process that waits on a semaphore and, once awake, reads the newest segment. */
  datatype Waiter = Waiter(awake: bool, seen: nat)

  /** `wokenBy[s]` is the waiter that semaphore s let through last. */
  datatype State<T> =
    State(world: World<T>, post: PostPc, sems: seq<nat>, waiters: seq<Waiter>, wokenBy: seq<Option<nat>>)

  datatype Step<T> = Write(store: Store<T>) | GetValue | PostIfLow | Wake(k: nat, s: nat) | ReadNewest(k: nat)

  function PostFrom(s: nat, count: nat): PostPc {
    if s < count then Posting(s) else NotPosting
  }

  predicate CanStep<T>(st: State<T>, step: Step<T>) {
    && |st.wokenBy| == |st.sems| && Shaped(st.world.ring)
    && match step
       case Write(store) => CanStore(st.world, store) && st.post.NotPosting?
       case GetValue => st.post.Posting? && st.post.s < |st.sems|
       case PostIfLow => st.post.GotValue? && st.post.s < |st.sems|
       case Wake(k, s) => k < |st.waiters| && s < |st.sems| && !st.waiters[k].awake && st.sems[s] > 0
       case ReadNewest(k) => k < |st.waiters| && st.waiters[k].awake
  }

  function After<T>(st: State<T>, step: Step<T>): State<T>
    requires CanStep(st, step)
  {
    match step
    case Write(store) =>
      st.(world := AfterStore(st.world, store),
          post := if store.StoreCount? then PostFrom(0, |st.sems|) else NotPosting)
    case GetValue => st.(post := GotValue(st.post.s, st.sems[st.post.s]))
    case PostIfLow =>
      var s := st.post.s;
      st.(post := PostFrom(s + 1, |st.sems|),
          sems := if st.post.value < SEMAPHORE_MAXVAL then st.sems[s := st.sems[s] + 1] else st.sems)
    case Wake(k, s) =>
      st.(sems := st.sems[s := st.sems[s] - 1],
          waiters := st.waiters[k := st.waiters[k].(awake := true)],
          wokenBy := st.wokenBy[s := Some(k)])
    case ReadNewest(k) => st.(waiters := st.waiters[k := Waiter(false, Newest(st.world.ring).cnt0)])
  }

  ghost predicate CanRun<T>(st: State<T>, steps: seq<Step<T>>)
    decreases |steps|
  {
    steps != [] ==> CanStep(st, steps[0]) && CanRun(After(st, steps[0]), steps[1..])
  }

  ghost function RunOf<T>(st: State<T>, steps: seq<Step<T>>): State<T>
    requires CanRun(st, steps)
    decreases |steps|
  {
    if steps == [] then st else RunOf(After(st, steps[0]), steps[1..])
  }

  /** The posting loop has passed semaphore s since the newest commit. */
  predicate Passed(post: PostPc, s: nat) {
    post.NotPosting? || s < post.s
  }

  /**
   Semaphore s is up, or the waiter it last let through is still to read or has read the newest
   frame; before the first frame there is nothing to miss.
   */
  predicate Served<T>(st: State<T>, s: nat)
    requires s < |st.sems| == |st.wokenBy|
  {
    || st.sems[s] == 1
    || st.world.hist == []
    || (&& st.wokenBy[s].Some? && st.wokenBy[s].value < |st.waiters|
        && var k := st.wokenBy[s].value; (st.waiters[k].awake || st.waiters[k].seen == |st.world.hist|))
  }

  ghost predicate SemInv<T>(st: State<T>) {
    && RingProtocol.Inv(st.world)
    && |st.wokenBy| == |st.sems|
    && (forall s :: 0 <= s < |st.sems| ==> st.sems[s] <= SEMAPHORE_MAXVAL)
    && (st.post != NotPosting ==> st.post.s < |st.sems| && st.world.phase.Idle?)
    && (!st.world.phase.Moved? ==> forall s: nat :: s < |st.sems| && Passed(st.post, s) ==> Served(st, s))
    && (st.post.GotValue? ==>
          if st.post.value < SEMAPHORE_MAXVAL then st.sems[st.post.s] == 0 else Served(st, st.post.s))
  }

  /** Created with all semaphores down, and no waiter through yet. */
  function Fresh<T>(w: World<T>, nsem: nat, nwaiters: nat): State<T> {
    State(w, NotPosting, seq(nsem, i => 0), seq(nwaiters, i => Waiter(false, 0)), seq(nsem, i => None))
  }

  lemma WriteKeeps<T>(st: State<T>, store: Store<T>)
    requires SemInv(st) && CanStep(st, Write(store))
    ensures SemInv(After(st, Write(store)))
  {
    StoreKeepsInv(st.world, store);
    var st' := After(st, Write(store));
    if !store.StoreCount? && !st'.world.phase.Moved? {
      forall s: nat | s < |st'.sems| && Passed(st'.post, s) ensures Served(st', s) {
        assert Served(st, s);
      }
    }
  }

  lemma PostKeeps<T>(st: State<T>)
    requires SemInv(st) && CanStep(st, PostIfLow)
    ensures SemInv(After(st, PostIfLow))
  {
    var st' := After(st, PostIfLow);
    forall s: nat | s < |st'.sems| && Passed(st'.post, s) ensures Served(st', s) {
      if s != st.post.s { assert Passed(st.post, s) && Served(st, s); }
    }
  }

  lemma WakeKeeps<T>(st: State<T>, k: nat, s: nat)
    requires SemInv(st) && CanStep(st, Wake(k, s))
    ensures SemInv(After(st, Wake(k, s)))
  {
    var st' := After(st, Wake(k, s));
    forall i: nat | i < |st.sems| && Served(st, i) ensures Served(st', i) {}
    assert Served(st', s);
  }

  lemma ReadKeeps<T>(st: State<T>, k: nat)
    requires SemInv(st) && CanStep(st, ReadNewest(k))
    ensures SemInv(After(st, ReadNewest(k)))
  {
    var st' := After(st, ReadNewest(k));
    if !st.world.phase.Moved? {
      NewestIsOnTrack(st.world);
      forall i: nat | i < |st.sems| && Served(st, i) ensures Served(st', i) {}
    }
  }

  lemma StepKeepsInv<T>(st: State<T>, step: Step<T>)
    requires SemInv(st) && CanStep(st, step)
    ensures SemInv(After(st, step))
  {
    match step
    case Write(store) => WriteKeeps(st, store);
    case GetValue =>
      forall s: nat | s < |st.sems| && Passed(After(st, step).post, s) ensures Served(After(st, step), s) {
        assert Passed(st.post, s) && Served(st, s);
      }
    case PostIfLow => PostKeeps(st);
    case Wake(k, s) => WakeKeeps(st, k, s);
    case ReadNewest(k) => ReadKeeps(st, k);
  }

  lemma {:induction false} RunKeepsInv<T>(st: State<T>, steps: seq<Step<T>>)
    requires SemInv(st) && CanRun(st, steps)
    ensures SemInv(RunOf(st, steps))
    decreases |steps|
  {
    if steps != [] {
      StepKeepsInv(st, steps[0]);
      RunKeepsInv(After(st, steps[0]), steps[1..]);
    }
  }

  /** The steps left in the posting loop. */
  function PostRank(post: PostPc, count: nat): int {
    match post
    case NotPosting => 0
    case Posting(s) => 2 * (count - s)
    case GotValue(s, _) => 2 * (count - s) - 1
  }

  /** The loop is never held up, and nobody else's step prolongs it: it ends after two steps per semaphore. */
  lemma PostingProgresses<T>(st: State<T>, step: Step<T>)
    requires SemInv(st) && !st.post.NotPosting? && CanStep(st, step)
    ensures CanStep(st, GetValue) || CanStep(st, PostIfLow)
    ensures PostRank(st.post, |st.sems|) > 0 && |After(st, step).sems| == |st.sems|
    ensures PostRank(After(st, step).post, |st.sems|)
         == PostRank(st.post, |st.sems|) - if step.GetValue? || step.PostIfLow? then 1 else 0
  {}

  /** Its visit to a semaphore leaves it up, if no waiter comes in between. */
  lemma VisitRaises<T>(st: State<T>)
    requires SemInv(st) && CanStep(st, GetValue)
    ensures CanStep(After(st, GetValue), PostIfLow)
    ensures After(After(st, GetValue), PostIfLow).sems == st.sems[st.post.s := SEMAPHORE_MAXVAL]
  {
    assert Passed(After(st, GetValue).post, st.post.s) == false;
    assert st.sems[st.post.s] <= SEMAPHORE_MAXVAL;
  }

  /** The units that a step gives to or takes from semaphore s. */
  function Given<T>(st: State<T>, step: Step<T>, s: nat): nat {
    if step.PostIfLow? && st.post.GotValue? && st.post.s == s && st.post.value < SEMAPHORE_MAXVAL then 1 else 0
  }

  function Taken<T>(step: Step<T>, s: nat): nat {
    if step.Wake? && step.s == s then 1 else 0
  }

  ghost function AllGiven<T>(st: State<T>, steps: seq<Step<T>>, s: nat): nat
    requires CanRun(st, steps)
    decreases |steps|
  {
    if steps == [] then 0 else Given(st, steps[0], s) + AllGiven(After(st, steps[0]), steps[1..], s)
  }

  function AllTaken<T>(steps: seq<Step<T>>, s: nat): nat {
    if steps == [] then 0 else Taken(steps[0], s) + AllTaken(steps[1..], s)
  }

  /** Units are conserved: the value is what was posted less the waits that returned. */
  lemma {:induction false} UnitsConserved<T>(st: State<T>, steps: seq<Step<T>>, s: nat)
    requires CanRun(st, steps) && s < |st.sems|
    ensures |RunOf(st, steps).sems| == |st.sems|
    ensures RunOf(st, steps).sems[s] == st.sems[s] + AllGiven(st, steps, s) - AllTaken(steps, s)
    decreases |steps|
  {
    if steps != [] { UnitsConserved(After(st, steps[0]), steps[1..], s); }
  }

  /**
   No wake-up is lost: in every reachable state each semaphore is at most 1, and whenever the
   writer is neither committing nor posting, a semaphore that is down was consumed by a waiter
   that reads frame W next or has already read it.
   */
  lemma NoLostWakeup<T>(size: nat, blank: seq<T>, nsem: nat, nwaiters: nat, steps: seq<Step<T>>, s: nat)
    requires 0 < size && CanRun(Fresh(Created(size, blank), nsem, nwaiters), steps)
    requires s < |RunOf(Fresh(Created(size, blank), nsem, nwaiters), steps).sems|
    ensures var st := RunOf(Fresh(Created(size, blank), nsem, nwaiters), steps);
            && Shaped(st.world.ring) && |st.wokenBy| == |st.sems| && st.sems[s] <= SEMAPHORE_MAXVAL
            && (st.post.NotPosting? && !st.world.phase.Moved? ==>
                  && Newest(st.world.ring).cnt0 == |st.world.hist|
                  && (st.sems[s] == 0 && st.world.hist != [] ==>
                        && st.wokenBy[s].Some? && st.wokenBy[s].value < |st.waiters|
                        && var k := st.wokenBy[s].value;
                           (st.waiters[k].awake || st.waiters[k].seen == |st.world.hist|)))
  {
    var start := Fresh(Created(size, blank), nsem, nwaiters);
    CreatedInv(size, blank);
    forall i: nat | i < nsem ensures Served(start, i) {}
    RunKeepsInv(start, steps);
    var st := RunOf(start, steps);
    if !st.world.phase.Moved? { NewestIsOnTrack(st.world); }
    if st.post.NotPosting? && !st.world.phase.Moved? { assert Passed(st.post, s) && Served(st, s); }
  }
}
