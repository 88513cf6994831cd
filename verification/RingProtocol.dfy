/**
 The store-by-store protocol: one writer of whole calls (`daoShmImage2Shm`) whose every store is a
 separate step, interleaved with the reader calls.  Counters are unbounded and memory is sequentially
 consistent.
 */
module RingProtocol {
  import opened Ring

  /**
   Where the writer is: `Copying` after `write = 1`, with the number of elements to copy and those
   copied so far (a memcpy may copy in any order); `Cleared` after `write = 0`; `Moved` after `fifo_last_written`
   moved and before the counter is stored.
   */
  datatype Phase = Idle | Copying(count: nat, done: set<nat>) | Cleared | Moved

  /** The shared memory, the frames committed so far, and the writer with the frame it will commit. */
  datatype World<T> = World(ring: Ring<T>, hist: seq<seq<T>>, blank: seq<T>, phase: Phase, frame: seq<T>)

  /** The stores of `daoShmImage2Shm`, in program order. */
  datatype Store<T> = BeginWrite(values: seq<T>) | CopyElement(j: nat) | ClearWrite | MoveLast | StoreCount

  predicate CanStore<T>(w: World<T>, s: Store<T>) {
    && Shaped(w.ring)
    && match s
       case BeginWrite(f) => w.phase.Idle? && |f| <= w.ring.nelement
       case CopyElement(j) => w.phase.Copying? && j < w.phase.count <= w.ring.nelement == |w.frame|
       case ClearWrite => w.phase.Copying? && (forall j: nat :: j < w.phase.count ==> j in w.phase.done)
       case MoveLast => w.phase.Cleared?
       case StoreCount => w.phase.Moved?
  }

  function AfterStore<T>(w: World<T>, s: Store<T>): World<T>
    requires CanStore(w, s)
  {
    var r := w.ring;
    var k := WritingSlot(r);
    match s
    case BeginWrite(f) =>
      w.(ring := r.(write := r.write[k := true]), phase := Copying(|f|, {}), frame := f + Segment(r, k)[|f|..])
    case CopyElement(j) =>
      w.(ring := r.(data := Patch(r, k, j, [w.frame[j]])), phase := w.phase.(done := w.phase.done + {j}))
    case ClearWrite => w.(ring := r.(write := r.write[k := false]), phase := Cleared)
    case MoveLast => w.(ring := r.(last := k), phase := Moved)
    case StoreCount => w.(ring := Stamp(r), hist := w.hist + [w.frame], phase := Idle)
  }

  ghost predicate CanStoreAll<T>(w: World<T>, stores: seq<Store<T>>)
    decreases |stores|
  {
    stores != [] ==> CanStore(w, stores[0]) && CanStoreAll(AfterStore(w, stores[0]), stores[1..])
  }

  ghost function AfterStores<T>(w: World<T>, stores: seq<Store<T>>): World<T>
    requires CanStoreAll(w, stores)
    decreases |stores|
  {
    if stores == [] then w else AfterStores(AfterStore(w, stores[0]), stores[1..])
  }

  function Zeroed<T>(size: nat, blank: seq<T>): (data: seq<T>)
    ensures |data| == Offset(size, |blank|)
  {
    if size == 0 then [] else Zeroed(size - 1, blank) + blank
  }

  lemma {:induction false} ZeroedSegments<T>(size: nat, blank: seq<T>, i: nat)
    requires i < size
    ensures Offset(i, |blank|) + |blank| <= |Zeroed(size, blank)|
    ensures Zeroed(size, blank)[Offset(i, |blank|)..Offset(i, |blank|) + |blank|] == blank
  {
    if i < size - 1 { ZeroedSegments(size - 1, blank, i); }
  }

  /** A freshly created shared memory: zeroed, with `last` at the end of the ring. */
  function Created<T>(size: nat, blank: seq<T>): (w: World<T>)
    requires 0 < size
  {
    var ring := Ring(size, |blank|, seq(size, i => 0), seq(size, i => false), Zeroed(size, blank), size - 1);
    World(ring, [], blank, Idle, [])
  }

  // ---------------------------------------------------------------------------------
  // The step invariant
  // ---------------------------------------------------------------------------------

  ghost function FluxSlot<T>(w: World<T>): (k: nat)
    requires 0 < w.ring.size
    ensures k < w.ring.size
  {
    SlotOf(|w.hist| + 1, w.ring.size)
  }

  ghost predicate Inv<T>(w: World<T>) {
    var r := w.ring;
    && Tracks(r, w.hist, w.blank)
    && r.last == (if w.phase.Moved? then FluxSlot(w) else SlotOf(|w.hist|, r.size))
    && FluxSlotOk(w)
  }

  /** What the one slot that may be in flux holds, phase by phase. */
  ghost predicate FluxSlotOk<T>(w: World<T>)
    requires Tracks(w.ring, w.hist, w.blank)
  {
    var r, k := w.ring, FluxSlot(w);
    match w.phase
    case Idle => SlotHolds(r, w.hist, w.blank, k)
    case Copying(count, done) =>
      var before := FrameAt(w.hist, w.blank, LatestIn(|w.hist|, r.size, k));
      && r.write[k] && |w.frame| == r.nelement && count <= r.nelement
      && (forall j: nat :: j < r.nelement ==> Segment(r, k)[j] == if j in done then w.frame[j] else before[j])
      && (forall j: nat :: count <= j < r.nelement ==> w.frame[j] == before[j])
    case _ => !r.write[k] && |w.frame| == r.nelement && Segment(r, k) == w.frame
  }

  lemma CreatedInv<T>(size: nat, blank: seq<T>)
    requires 0 < size
    ensures Inv(Created(size, blank))
  {
    var w := Created(size, blank);
    forall i: nat | i < size ensures LatestIn(0, size, i) == 0 && SlotHolds(w.ring, [], blank, i) {
      ZeroedSegments(size, blank, i);
    }
  }

  lemma CopyKeepsInv<T>(w: World<T>, j: nat)
    requires Inv(w) && CanStore(w, CopyElement(j))
    ensures Inv(AfterStore(w, CopyElement(j)))
  {
    hide SlotOf, LatestIn;
    var w' := AfterStore(w, CopyElement(j));
    PatchKeeps(w.ring, w.hist, w.blank, j, [w.frame[j]]);
    assert w'.ring == w.ring.(data := Patch(w.ring, WritingSlot(w.ring), j, [w.frame[j]]));
    var s, s' := Segment(w.ring, FluxSlot(w)), Segment(w'.ring, FluxSlot(w));
    assert forall i: nat :: i < w.ring.nelement ==> s'[i] == if i == j then w.frame[j] else s[i];
  }

  lemma MoveKeepsInv<T>(w: World<T>)
    requires Inv(w) && CanStore(w, MoveLast)
    ensures Inv(AfterStore(w, MoveLast))
  {
    var w' := AfterStore(w, MoveLast);
    var r, k := w.ring, FluxSlot(w);
    WritingSlotOf(r, w.hist, w.blank);
    SameSegments(r, w'.ring);
    forall i: nat | i < r.size && i != k ensures SlotHolds(w'.ring, w.hist, w.blank, i) {
      assert SlotHolds(r, w.hist, w.blank, i);
    }
  }

  /** Every single store of the writer keeps the ring invariant. */
  lemma StoreKeepsInv<T>(w: World<T>, s: Store<T>)
    requires Inv(w) && CanStore(w, s)
    ensures Inv(AfterStore(w, s))
    ensures w.hist <= AfterStore(w, s).hist && AfterStore(w, s).blank == w.blank
    ensures AfterStore(w, s).ring.size == w.ring.size
  {
    match s
    case BeginWrite(f) =>
      FlagKeepsSettled(w.ring, w.hist, w.blank, true);
      assert SlotHolds(w.ring, w.hist, w.blank, FluxSlot(w));
    case CopyElement(j) => CopyKeepsInv(w, j);
    case ClearWrite =>
      FlagKeepsSettled(w.ring, w.hist, w.blank, false);
      assert Segment(AfterStore(w, s).ring, FluxSlot(w)) == w.frame;
    case MoveLast => MoveKeepsInv(w);
    case StoreCount =>
      CommitCounts(w.ring, w.hist, w.blank, w.frame, Stamp(w.ring));
  }

  /** The invariant holds after any number of stores; frames are only ever appended. */
  lemma {:induction false} StoresKeepInv<T>(w: World<T>, stores: seq<Store<T>>)
    requires Inv(w) && CanStoreAll(w, stores)
    ensures Inv(AfterStores(w, stores))
    ensures w.hist <= AfterStores(w, stores).hist && AfterStores(w, stores).blank == w.blank
    ensures AfterStores(w, stores).ring.size == w.ring.size
    decreases |stores|
  {
    if stores != [] {
      StoreKeepsInv(w, stores[0]);
      StoresKeepInv(AfterStore(w, stores[0]), stores[1..]);
    }
  }

  /** In every reachable state the newest N - 1 frames are whole, numbered and unflagged. */
  lemma ReachableRingIntact<T>(size: nat, blank: seq<T>, stores: seq<Store<T>>, w: nat)
    requires 0 < size && CanStoreAll(Created(size, blank), stores)
    requires var s := AfterStores(Created(size, blank), stores);
             w <= |s.hist| && |s.hist| < w + (if s.phase.Idle? then size else size - 1)
    ensures var s := AfterStores(Created(size, blank), stores);
            && Shaped(s.ring) && s.ring.size == size
            && s.ring.cnt0[SlotOf(w, size)] == w && !s.ring.write[SlotOf(w, size)]
            && Segment(s.ring, SlotOf(w, size)) == FrameAt(s.hist, blank, w)
            && s.ring.last == SlotOf(if s.phase.Moved? then |s.hist| + 1 else |s.hist|, size)
  {
    CreatedInv(size, blank);
    StoresKeepInv(Created(size, blank), stores);
    var s := AfterStores(Created(size, blank), stores);
    NewestFramesIntact(s.ring, s.hist, blank, w);
  }

  lemma FluxIsWriting<T>(w: World<T>)
    requires Inv(w) && !w.phase.Moved?
    ensures FluxSlot(w) == WritingSlot(w.ring) && Settled(w.ring, w.hist, w.blank)
    ensures w.phase.Idle? ==> Quiet(w.ring, w.hist, w.blank)
  {
    WritingSlotOf(w.ring, w.hist, w.blank);
  }

  /** Once begun, a write commits the frame that was fixed when it began. */
  lemma {:induction false} BegunIsCommitted<T>(w: World<T>, stores: seq<Store<T>>)
    requires Inv(w) && !w.phase.Idle? && CanStoreAll(w, stores)
    ensures var w' := AfterStores(w, stores);
            w.hist <= w'.hist && (|w.hist| < |w'.hist| ==> w'.hist[|w.hist|] == w.frame)
    decreases |stores|
  {
    if stores != [] {
      var w' := AfterStore(w, stores[0]);
      StoreKeepsInv(w, stores[0]);
      StoresKeepInv(w', stores[1..]);
      if !stores[0].StoreCount? { BegunIsCommitted(w', stores[1..]); }
    }
  }

  /**
   However its stores interleave with loads, and in whatever order it copies, one write ends in the
   ring of the atomic one, whether it fills the frame or only its front.
   */
  lemma StoresPublishAtomically<T>(w: World<T>, stores: seq<Store<T>>)
    requires Inv(w) && w.phase.Idle? && stores != [] && CanStoreAll(w, stores)
    requires AfterStores(w, stores).phase.Idle? && |AfterStores(w, stores).hist| == |w.hist| + 1
    ensures stores[0].BeginWrite?
    ensures AfterStores(w, stores).ring == Published(w.ring, stores[0].values)
  {
    hide SlotOf, LatestIn, SlotHolds, Tracks;
    var w', f := AfterStores(w, stores), stores[0].values;
    StoreKeepsInv(w, stores[0]);
    StoresKeepInv(w, stores);
    BegunIsCommitted(AfterStore(w, stores[0]), stores[1..]);
    FluxIsWriting(w);
    assert w'.hist == w.hist + [f + Segment(w.ring, FluxSlot(w))[|f|..]];
    PublishCommits(w.ring, w.hist, w.blank, f);
    FluxIsWriting(w');
    QuietDetermines(w'.ring, Published(w.ring, f), w'.hist, w.blank);
  }

  /** The stores of one call: flag, elements, and the three of the commit. */
  function CallStores<T>(f: seq<T>): seq<Store<T>> {
    [BeginWrite(f)] + CopiesThenCommit(|f|)
  }

  function CopiesThenCommit<T>(n: nat): seq<Store<T>> {
    if n == 0 then [ClearWrite] + ([MoveLast] + [StoreCount]) else [CopyElement(n - 1)] + CopiesThenCommit(n - 1)
  }

  lemma StoreThen<T>(w: World<T>, s: Store<T>, rest: seq<Store<T>>)
    requires CanStore(w, s) && CanStoreAll(AfterStore(w, s), rest)
    ensures CanStoreAll(w, [s] + rest) && AfterStores(w, [s] + rest) == AfterStores(AfterStore(w, s), rest)
  {
    assert ([s] + rest)[1..] == rest;
  }

  lemma StoreLast<T>(w: World<T>, s: Store<T>)
    requires CanStore(w, s)
    ensures CanStoreAll(w, [s]) && AfterStores(w, [s]) == AfterStore(w, s)
  {
    StoreThen(w, s, []);
    assert [s] + [] == [s];
  }

  lemma CopyGoesOn<T>(w: World<T>, j: nat)
    requires Inv(w) && w.phase.Copying? && j < w.phase.count
    ensures CanStore(w, CopyElement(j))
    ensures var w' := AfterStore(w, CopyElement(j));
            && Inv(w') && w'.phase == Copying(w.phase.count, w.phase.done + {j})
            && w'.frame == w.frame && w'.hist == w.hist
  {
    hide SlotOf, LatestIn;
    StoreKeepsInv(w, CopyElement(j));
  }

  lemma CommitGoesOn<T>(w: World<T>)
    requires Inv(w) && w.phase.Copying? && forall j: nat :: j < w.phase.count ==> j in w.phase.done
    ensures CanStoreAll(w, [ClearWrite] + ([MoveLast] + [StoreCount]))
    ensures var w' := AfterStores(w, [ClearWrite] + ([MoveLast] + [StoreCount]));
            w'.phase.Idle? && w'.hist == w.hist + [w.frame]
  {
    hide SlotOf, LatestIn;
    var w1 := AfterStore(w, ClearWrite);
    var w2 := AfterStore(w1, MoveLast);
    StoreKeepsInv(w, ClearWrite);
    StoreKeepsInv(w1, MoveLast);
    StoreLast(w2, StoreCount);
    StoreThen(w1, MoveLast, [StoreCount]);
    StoreThen(w, ClearWrite, [MoveLast] + [StoreCount]);
  }

  lemma {:induction false} CopiesThenCommitRun<T>(w: World<T>, n: nat)
    requires Inv(w) && w.phase.Copying? && n <= w.phase.count
    requires forall j: nat :: n <= j < w.phase.count ==> j in w.phase.done
    ensures CanStoreAll(w, CopiesThenCommit(n))
    ensures var w' := AfterStores(w, CopiesThenCommit(n)); w'.phase.Idle? && w'.hist == w.hist + [w.frame]
    decreases n
  {
    hide Inv, CanStore, AfterStore, CanStoreAll, AfterStores;
    if n == 0 {
      CommitGoesOn(w);
    } else {
      CopyGoesOn(w, n - 1);
      CopiesThenCommitRun(AfterStore(w, CopyElement(n - 1)), n - 1);
      StoreThen(w, CopyElement(n - 1), CopiesThenCommit(n - 1));
    }
  }

  /** An idle writer can always carry out a call; it commits one frame, as the atomic call does. */
  lemma {:induction false} CallCommits<T>(w: World<T>, f: seq<T>)
    requires Inv(w) && w.phase.Idle? && |f| <= w.ring.nelement
    ensures CanStoreAll(w, CallStores(f))
    ensures var w' := AfterStores(w, CallStores(f));
            w'.phase.Idle? && |w'.hist| == |w.hist| + 1 && w'.ring == Published(w.ring, f)
  {
    hide SlotOf, LatestIn;
    StoreKeepsInv(w, BeginWrite(f));
    CopiesThenCommitRun(AfterStore(w, BeginWrite(f)), |f|);
    StoreThen(w, BeginWrite(f), CopiesThenCommit(|f|));
    StoresPublishAtomically(w, CallStores(f));
  }

  // ---------------------------------------------------------------------------------
  // Reader calls as one step
  // ---------------------------------------------------------------------------------

  ghost predicate OnTrack<T>(w: World<T>, t: Tail)
    requires 0 < w.ring.size
  {
    TailOnTrack(|w.hist|, w.ring.size, t)
  }

  /** In the window between moving `last` and storing the counter, these lags are misjudged. */
  predicate Misjudged(phase: Phase, n: nat, lag: nat) {
    phase.Moved? && n > 1 && (lag == 0 || lag == n - 1 || lag > n)
  }

  lemma ClassifiesInside<T>(w: World<T>, t: Tail)
    requires Inv(w) && OnTrack(w, t) && w.phase.Moved?
    ensures NextSegment(w.ring, t) == Classify(|w.hist|, w.ring.size, t.cnt0)
            <==> !Misjudged(w.phase, w.ring.size, |w.hist| - t.cnt0)
  {
    ComparedCounts(w.ring, w.hist, w.blank, t);
    SlotAfter(|w.hist|, 1, w.ring.size);
    if |w.hist| < t.cnt0 + w.ring.size { SlotIsNextIff(t.cnt0, |w.hist|, w.ring.size); }
  }

  /**
   `daoShmGetNextSegment` is the lag classifier exactly when it is not called inside the
   commit window with a lag of 0, N - 1 or more than N on a ring of at least two slots.
   */
  lemma NextSegmentClassifiesIff<T>(w: World<T>, t: Tail)
    requires Inv(w) && OnTrack(w, t)
    ensures NextSegment(w.ring, t) == Classify(|w.hist|, w.ring.size, t.cnt0)
            <==> !Misjudged(w.phase, w.ring.size, |w.hist| - t.cnt0)
  {
    if w.phase.Moved? { ClassifiesInside(w, t); } else { SettledClassifies(w.ring, w.hist, w.blank, t); }
  }

  /**
   Inside the window a caught-up reader of a ring with two or more slots is told OVERWRITE,
   and its tail is thrown back to the oldest frame, which it will be given again; until the ring
   has been filled but for one slot, even the tail's slot is then the wrong one.
   */
  lemma WindowThrowsReaderBack<T>(w: World<T>, t: Tail)
    requires Inv(w) && w.phase.Moved? && w.ring.size > 1
    requires t == Tail(SlotOf(|w.hist|, w.ring.size), |w.hist|)
    ensures var oldest := if |w.hist| < w.ring.size then 0 else |w.hist| - w.ring.size + 1;
            && NextSegment(w.ring, t) == (Overwrite, Tail(FluxSlot(w), oldest))
            && (OnTrack(w, Tail(FluxSlot(w), oldest)) <==> |w.hist| + 1 >= w.ring.size)
  {
    var n, W := w.ring.size, |w.hist|;
    OldestHeld(W, n);
    SlotAfter(W, 1, n);
    if W < n { SlotAfter(0, W + 1, n); } else { SlotShift(W - n + 1, n); }
    assert w.ring.cnt0[FluxSlot(w)] == LatestIn(W, n, SlotOf(W + 1, n));
  }

  lemma NewestIsOnTrack<T>(w: World<T>)
    requires Inv(w) && !w.phase.Moved?
    ensures OnTrack(w, Newest(w.ring)) && Newest(w.ring).cnt0 == |w.hist|
  {
    HeldUntilLapped(|w.hist|, |w.hist|, w.ring.size);
  }

  // ---------------------------------------------------------------------------------
  // The overwrite check
  // ---------------------------------------------------------------------------------

  /** The writer has begun to reuse, or has reused, the slot that frame c was read from. */
  ghost predicate Overtaken<T>(w: World<T>, c: nat) {
    |w.hist| >= c + w.ring.size || (|w.hist| == c + w.ring.size - 1 && !w.phase.Idle?)
  }

  /** Between clearing `write` and storing the counter, on the very slot that was read. */
  predicate CommittingOver<T>(w: World<T>, c: nat) {
    |w.hist| == c + w.ring.size - 1 && (w.phase.Cleared? || w.phase.Moved?)
  }

  /** The check passes exactly when the slot is untouched or its new frame is half committed. */
  lemma CheckOverwriteExact<T>(w: World<T>, t: Tail)
    requires Inv(w) && OnTrack(w, t)
    ensures CheckOverwrite(w.ring, t).Success? <==> !Overtaken(w, t.cnt0) || CommittingOver(w, t.cnt0)
  {
    HeldUntilLapped(t.cnt0, |w.hist|, w.ring.size);
    if |w.hist| < t.cnt0 + w.ring.size {
      SlotIsNextIff(t.cnt0, |w.hist|, w.ring.size);
      if t.idx != FluxSlot(w) {
        assert SlotHolds(w.ring, w.hist, w.blank, t.idx);
      }
    }
  }

  /** In that half-committed window the check vouches for a slot that holds the next frame. */
  lemma CheckBlindWhileCommitting<T>(w: World<T>, t: Tail)
    requires Inv(w) && OnTrack(w, t) && CommittingOver(w, t.cnt0)
    ensures CheckOverwrite(w.ring, t).Success? && Segment(w.ring, t.idx) == w.frame
  {
    CheckOverwriteExact(w, t);
    SlotIsNextIff(t.cnt0, |w.hist|, w.ring.size);
  }
}
