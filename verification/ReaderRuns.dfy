/**
 Whole runs of one reader beside the writer.  Every shared load of the reader's calls is a step
 of its own, so the writer may commit any number of frames between two loads of one call.
 Readers share nothing with each other, so one reader stands for any number.
 */
module ReaderRuns {
  import opened Ring
  import opened RingProtocol

  /** What a call reported; `UpToDate` carries the frames committed when it looked. */
  datatype Event = UpToDate(cnt0: nat) | Delivered(cnt0: nat) | Lapped(cnt0: nat) | Rewound(cnt0: nat)

  /** Where the reader is inside a call. */
  datatype Pc =
    | Ready
    | OwnCount(written: nat)                            // next: cnt0 of its own slot
    | NextCount                                         // next: cnt0 of the following slot
    | NewestSlot                                        // lapped; next: fifo_last_written
    | NewestCount(slot: nat, written: nat, rewind: bool) // next: cnt0 of that slot
    | FlagClear                                         // check: write was 0; next: cnt0

  /**
   `passed`: the overwrite check returned SUCCESS after the last copy.  `blind`: its load of the
   `write` flag fell between clearing the flag of the reader's slot and storing its new counter.
   */
  datatype Reader<T> = Reader(tail: Tail, pc: Pc, copied: map<nat, T>, passed: bool, blind: bool, log: seq<Event>)

  datatype System<T> = System(world: World<T>, reader: Reader<T>)

  datatype Action<T> =
    | Write(store: Store<T>)
    | NextLast | NextOwn | NextFollowing | NextNewest | NewestLoad
    | ResetLast
    | CopyOut(j: nat)
    | CheckFlag | CheckCount

  predicate CanAct<T>(s: System<T>, a: Action<T>) {
    var w, rd := s.world, s.reader;
    && Shaped(w.ring) && rd.tail.idx < w.ring.size
    && match a
       case Write(st) => CanStore(w, st)
       case NextLast => rd.pc.Ready?
       case NextOwn => rd.pc.OwnCount?
       case NextFollowing => rd.pc.NextCount?
       case NextNewest => rd.pc.NewestSlot?
       case NewestLoad => rd.pc.NewestCount? && rd.pc.slot < w.ring.size
       case ResetLast => rd.pc.Ready?
       case CopyOut(j) => rd.pc.Ready? && j < w.ring.nelement
       case CheckFlag => rd.pc.Ready?
       case CheckCount => rd.pc.FlagClear?
  }

  /** The reader after its call ended with a new tail. */
  function At<T>(rd: Reader<T>, t: Tail, e: Event): Reader<T> {
    Reader(t, Ready, map[], false, false, rd.log + [e])
  }

  function AfterRead<T>(s: System<T>, a: Action<T>): Reader<T>
    requires CanAct(s, a) && !a.Write?
  {
    var r, rd, t := s.world.ring, s.reader, s.reader.tail;
    var next := Succ(t.idx, r.size);
    match a
    case NextLast => rd.(pc := if t.idx == r.last then OwnCount(|s.world.hist|) else NextCount)
    case NextOwn =>
      if r.cnt0[t.idx] == t.cnt0 then rd.(pc := Ready, log := rd.log + [UpToDate(rd.pc.written)])
      else rd.(pc := NextCount)
    case NextFollowing =>
      if r.cnt0[next] == t.cnt0 + 1 then At(rd, Tail(next, t.cnt0 + 1), Delivered(t.cnt0 + 1))
      else rd.(pc := NewestSlot)
    case NextNewest => rd.(pc := NewestCount(r.last, |s.world.hist|, false))
    case ResetLast => rd.(pc := NewestCount(r.last, |s.world.hist|, true))
    case NewestLoad =>
      var c := r.cnt0[rd.pc.slot];
      At(rd, Tail(rd.pc.slot, c), if rd.pc.rewind then Rewound(c) else Lapped(c))
    case CopyOut(j) => rd.(copied := rd.copied[j := Segment(r, t.idx)[j]], passed := false)
    case CheckFlag =>
      rd.(pc := if r.write[t.idx] then Ready else FlagClear, passed := false, blind := CommittingOver(s.world, t.cnt0))
    case CheckCount => rd.(pc := Ready, passed := r.cnt0[t.idx] == t.cnt0)
  }

  function After<T>(s: System<T>, a: Action<T>): System<T>
    requires CanAct(s, a)
  {
    if a.Write? then s.(world := AfterStore(s.world, a.store)) else s.(reader := AfterRead(s, a))
  }

  ghost predicate CanRun<T>(s: System<T>, acts: seq<Action<T>>)
    decreases |acts|
  {
    acts != [] ==> CanAct(s, acts[0]) && CanRun(After(s, acts[0]), acts[1..])
  }

  ghost function RunOf<T>(s: System<T>, acts: seq<Action<T>>): System<T>
    requires CanRun(s, acts)
    decreases |acts|
  {
    if acts == [] then s else RunOf(After(s, acts[0]), acts[1..])
  }

  /** A reader that has just opened the shared memory: its tail is reset to the newest frame. */
  function Opened<T>(w: World<T>): System<T>
    requires Shaped(w.ring)
  {
    System(w, Reader(Newest(w.ring), Ready, map[], false, false, []))
  }

  // ---------------------------------------------------------------------------------
  // The loads of one call, with nothing in between, are the call
  // ---------------------------------------------------------------------------------

  /** The event that reports a status. */
  function Report(status: Status, written: nat, t: Tail): Event {
    match status
    case NotReady => UpToDate(written)
    case Success => Delivered(t.cnt0)
    case _ => Lapped(t.cnt0)
  }

  /** The loads left once the reader knows that it is not caught up. */
  function LaterLoads<T>(r: Ring<T>, t: Tail): seq<Action<T>>
    requires Shaped(r) && t.idx < r.size
  {
    if r.cnt0[Succ(t.idx, r.size)] == t.cnt0 + 1 then [NextFollowing]
    else [NextFollowing] + ([NextNewest] + [NewestLoad])
  }

  function CallLoads<T>(r: Ring<T>, t: Tail): seq<Action<T>>
    requires Shaped(r) && t.idx < r.size
  {
    if t.idx != r.last then [NextLast] + LaterLoads(r, t)
    else if r.cnt0[t.idx] == t.cnt0 then [NextLast] + [NextOwn]
    else [NextLast] + ([NextOwn] + LaterLoads(r, t))
  }

  lemma RunStep<T>(s: System<T>, a: Action<T>, rest: seq<Action<T>>)
    requires CanAct(s, a) && CanRun(After(s, a), rest)
    ensures CanRun(s, [a] + rest) && RunOf(s, [a] + rest) == RunOf(After(s, a), rest)
  {
    assert ([a] + rest)[1..] == rest;
  }

  lemma RunOne<T>(s: System<T>, a: Action<T>)
    requires CanAct(s, a)
    ensures CanRun(s, [a]) && RunOf(s, [a]) == After(s, a)
  {
    RunStep(s, a, []);
    assert [a] + [] == [a];
  }

  lemma LaterLoadsRun<T>(s: System<T>)
    requires CanAct(s, NextFollowing)
    requires var t, r := s.reader.tail, s.world.ring; t.idx != r.last || t.cnt0 != r.cnt0[t.idx]
    ensures var acts := LaterLoads(s.world.ring, s.reader.tail);
            var (status, t) := NextSegment(s.world.ring, s.reader.tail);
            && CanRun(s, acts)
            && RunOf(s, acts) == System(s.world, At(s.reader, t, Report(status, |s.world.hist|, t)))
  {
    var r, t := s.world.ring, s.reader.tail;
    if r.cnt0[Succ(t.idx, r.size)] == t.cnt0 + 1 {
      RunOne(s, NextFollowing);
    } else {
      var s1 := After(s, NextFollowing);
      var s2 := After(s1, NextNewest);
      RunOne(s2, NewestLoad);
      RunStep(s1, NextNewest, [NewestLoad]);
      RunStep(s, NextFollowing, [NextNewest] + [NewestLoad]);
    }
  }

  /** A call that nothing interrupts does to the tail, and reports, what `NextSegment` says. */
  lemma UninterruptedCall<T>(s: System<T>)
    requires Shaped(s.world.ring) && s.reader.tail.idx < s.world.ring.size && s.reader.pc.Ready?
    ensures var acts := CallLoads(s.world.ring, s.reader.tail);
            var (status, t) := NextSegment(s.world.ring, s.reader.tail);
            && CanRun(s, acts)
            && RunOf(s, acts).world == s.world && RunOf(s, acts).reader.tail == t
            && RunOf(s, acts).reader.log == s.reader.log + [Report(status, |s.world.hist|, t)]
  {
    var r, t := s.world.ring, s.reader.tail;
    var s1 := After(s, NextLast);
    if t.idx != r.last {
      LaterLoadsRun(s1);
      RunStep(s, NextLast, LaterLoads(r, t));
    } else if r.cnt0[t.idx] == t.cnt0 {
      RunOne(s1, NextOwn);
      RunStep(s, NextLast, [NextOwn]);
    } else {
      LaterLoadsRun(After(s1, NextOwn));
      RunStep(s1, NextOwn, LaterLoads(r, t));
      RunStep(s, NextLast, [NextOwn] + LaterLoads(r, t));
    }
  }

  /** A reset that nothing interrupts puts the tail on the newest position and forgets the copy. */
  lemma UninterruptedReset<T>(s: System<T>)
    requires Shaped(s.world.ring) && s.reader.tail.idx < s.world.ring.size && s.reader.pc.Ready?
    ensures var acts, t := [ResetLast] + [NewestLoad], Newest(s.world.ring);
            CanRun(s, acts) && RunOf(s, acts) == System(s.world, At(s.reader, t, Rewound(t.cnt0)))
  {
    RunOne(After(s, ResetLast), NewestLoad);
    RunStep(s, ResetLast, [NewestLoad]);
  }

  /** The writer's stores, then the reader's actions. */
  function WritesThen<T>(stores: seq<Store<T>>, rest: seq<Action<T>>): seq<Action<T>> {
    if stores == [] then rest else [Write(stores[0])] + WritesThen(stores[1..], rest)
  }

  lemma WriteGoesOn<T>(s: System<T>, st: Store<T>)
    requires Inv(s.world) && s.reader.tail.idx < s.world.ring.size && CanStore(s.world, st)
    ensures CanAct(s, Write(st)) && After(s, Write(st)) == System(AfterStore(s.world, st), s.reader)
    ensures Inv(AfterStore(s.world, st)) && AfterStore(s.world, st).ring.size == s.world.ring.size
  {
    hide SlotOf, LatestIn;
    StoreKeepsInv(s.world, st);
  }

  lemma {:induction false} RunWrites<T>(s: System<T>, stores: seq<Store<T>>, rest: seq<Action<T>>)
    requires Inv(s.world) && s.reader.tail.idx < s.world.ring.size && CanStoreAll(s.world, stores)
    requires CanRun(System(AfterStores(s.world, stores), s.reader), rest)
    ensures CanRun(s, WritesThen(stores, rest))
    ensures RunOf(s, WritesThen(stores, rest)) == RunOf(System(AfterStores(s.world, stores), s.reader), rest)
    decreases |stores|
  {
    hide Inv, CanStore, AfterStore, CanAct, After;
    if stores != [] {
      WriteGoesOn(s, stores[0]);
      RunWrites(After(s, Write(stores[0])), stores[1..], rest);
      RunStep(s, Write(stores[0]), WritesThen(stores[1..], rest));
    }
  }

  /** The loads of one overwrite check, with stores of the writer between them. */
  function CheckLoads<T>(r: Ring<T>, t: Tail, stores: seq<Store<T>>): seq<Action<T>>
    requires Shaped(r) && t.idx < r.size
  {
    if r.write[t.idx] then [CheckFlag] + WritesThen(stores, []) else [CheckFlag] + WritesThen(stores, [CheckCount])
  }

  lemma {:induction false} CheckRuns<T>(s: System<T>, stores: seq<Store<T>>)
    requires Inv(s.world) && s.reader.tail.idx < s.world.ring.size && s.reader.pc.Ready? && CanStoreAll(s.world, stores)
    ensures var w', t := AfterStores(s.world, stores), s.reader.tail;
            var acts := CheckLoads(s.world.ring, t, stores);
            && Inv(w') && w'.ring.size == s.world.ring.size
            && CanRun(s, acts) && RunOf(s, acts).world == w'
            && RunOf(s, acts).reader
               == s.reader.(passed := !s.world.ring.write[t.idx] && w'.ring.cnt0[t.idx] == t.cnt0,
                            blind := CommittingOver(s.world, t.cnt0))
  {
    StoresKeepInv(s.world, stores);
    var s1 := After(s, CheckFlag);
    var s2 := System(AfterStores(s.world, stores), s1.reader);
    if s.world.ring.write[s.reader.tail.idx] {
      RunWrites(s1, stores, []);
      RunStep(s, CheckFlag, WritesThen(stores, []));
    } else {
      RunOne(s2, CheckCount);
      RunWrites(s1, stores, [CheckCount]);
      RunStep(s, CheckFlag, WritesThen(stores, [CheckCount]));
    }
  }

  /**
   What one overwrite check reports, whatever is stored between its two loads: it passes exactly when
   the flag load finds the slot untouched, or its new frame half committed, and that frame is not
   committed by the second load.  So a slot not overtaken by then always passes.
   */
  lemma {:induction false} CheckReports<T>(s: System<T>, stores: seq<Store<T>>)
    requires Inv(s.world) && OnTrack(s.world, s.reader.tail) && s.reader.pc.Ready? && CanStoreAll(s.world, stores)
    ensures CanRun(s, CheckLoads(s.world.ring, s.reader.tail, stores))
    ensures var s', c := RunOf(s, CheckLoads(s.world.ring, s.reader.tail, stores)), s.reader.tail.cnt0;
            && s'.world == AfterStores(s.world, stores) && s'.reader.pc.Ready?
            && s'.reader.tail == s.reader.tail && s'.reader.copied == s.reader.copied && s'.reader.log == s.reader.log
            && (s'.reader.passed <==>
                  && (!Overtaken(s.world, c) || CommittingOver(s.world, c))
                  && |s'.world.hist| < c + s.world.ring.size)
            && (!Overtaken(s'.world, c) ==> s'.reader.passed)
  {
    var w, w', t := s.world, AfterStores(s.world, stores), s.reader.tail;
    CheckRuns(s, stores);
    StoresKeepInv(w, stores);
    HeldUntilLapped(t.cnt0, |w.hist|, w.ring.size);
    HeldUntilLapped(t.cnt0, |w'.hist|, w.ring.size);
    CheckOverwriteExact(w, t);
    OvertakenStays(w, stores, t.cnt0);
  }

  lemma {:induction false} OvertakenStays<T>(w: World<T>, stores: seq<Store<T>>, c: nat)
    requires Inv(w) && CanStoreAll(w, stores)
    ensures Overtaken(w, c) ==> Overtaken(AfterStores(w, stores), c)
    decreases |stores|
  {
    if stores != [] {
      StoreKeepsInv(w, stores[0]);
      OvertakenStays(AfterStore(w, stores[0]), stores[1..], c);
    }
  }

  /** With no stores between them the two loads are the one-step check. */
  lemma UninterruptedCheck<T>(s: System<T>)
    requires Inv(s.world) && OnTrack(s.world, s.reader.tail) && s.reader.pc.Ready?
    ensures CanRun(s, CheckLoads(s.world.ring, s.reader.tail, []))
    ensures var s', c := RunOf(s, CheckLoads(s.world.ring, s.reader.tail, [])), s.reader.tail.cnt0;
            && s'.world == s.world && s'.reader.tail == s.reader.tail
            && (s'.reader.passed <==> CheckOverwrite(s.world.ring, s.reader.tail).Success?)
            && (s'.reader.passed <==> !Overtaken(s.world, c) || CommittingOver(s.world, c))
  {
    CheckReports(s, []);
    CheckOverwriteExact(s.world, s.reader.tail);
  }

  /** A reader's copy of the first n elements. */
  function Copies<T>(n: nat): seq<Action<T>> {
    if n == 0 then [] else [CopyOut(n - 1)] + Copies(n - 1)
  }

  lemma {:induction false} CopiesRun<T>(s: System<T>, n: nat)
    requires Shaped(s.world.ring) && s.reader.tail.idx < s.world.ring.size && s.reader.pc.Ready?
    requires n <= s.world.ring.nelement
    ensures CanRun(s, Copies(n))
    ensures var s' := RunOf(s, Copies(n));
            && s'.world == s.world && s'.reader.tail == s.reader.tail && s'.reader.pc.Ready?
            && forall j: nat :: j < n || j in s.reader.copied ==>
                 && j in s'.reader.copied
                 && s'.reader.copied[j]
                    == if j < n then Segment(s.world.ring, s.reader.tail.idx)[j] else s.reader.copied[j]
    decreases n
  {
    if n > 0 {
      CopiesRun(After(s, CopyOut(n - 1)), n - 1);
      RunStep(s, CopyOut(n - 1), Copies(n - 1));
    }
  }

  /** Copying a segment that the writer has not reached, then checking: the frame, whole and vouched for. */
  lemma {:induction false} ReadThrough<T>(s: System<T>)
    requires Inv(s.world) && OnTrack(s.world, s.reader.tail) && s.reader.pc.Ready?
    requires !Overtaken(s.world, s.reader.tail.cnt0)
    ensures var n, c := s.world.ring.nelement, s.reader.tail.cnt0;
            && CanRun(s, Copies(n))
            && var s1 := RunOf(s, Copies(n));
               && CanAct(s1, CheckFlag) && CanRun(s1, CheckLoads(s1.world.ring, s1.reader.tail, []))
               && var rd := RunOf(s1, CheckLoads(s1.world.ring, s1.reader.tail, [])).reader;
                  && rd.passed
                  && forall j: nat :: j < n ==>
                       j in rd.copied && rd.copied[j] == FrameAt(s.world.hist, s.world.blank, c)[j]
  {
    CopiesRun(s, s.world.ring.nelement);
    CheckReports(RunOf(s, Copies(s.world.ring.nelement)), []);
    NewestFramesIntact(s.world.ring, s.world.hist, s.world.blank, s.reader.tail.cnt0);
  }

  // ---------------------------------------------------------------------------------
  // What a log of calls must look like
  // ---------------------------------------------------------------------------------

  /** The tail counter after a log that started at `origin`. */
  function Position(origin: nat, log: seq<Event>): nat {
    if log == [] then origin else log[|log| - 1].cnt0
  }

  /** One event is right for a reader whose tail was at `seen`. */
  predicate EventOk(seen: nat, e: Event, n: nat) {
    match e
    case UpToDate(c) => c == seen
    case Delivered(c) => c == seen + 1
    case Lapped(c) => c > seen + n
    case Rewound(c) => c >= seen
  }

  predicate LogOk(origin: nat, log: seq<Event>, n: nat) {
    forall i :: 0 <= i < |log| ==> EventOk(Position(origin, log[..i]), log[i], n)
  }

  predicate Delivery(e: Event) {
    e.Delivered? || e.Lapped?
  }

  /** Frames that a log handed over, and frames its OVERWRITE results jumped. */
  function Handed(log: seq<Event>): nat {
    if log == [] then 0
    else Handed(log[..|log| - 1]) + if Delivery(log[|log| - 1]) then 1 else 0
  }

  function Skipped(origin: nat, log: seq<Event>): int {
    if log == [] then 0
    else
      var before := log[..|log| - 1];
      Skipped(origin, before) + if log[|log| - 1].Lapped? then log[|log| - 1].cnt0 - Position(origin, before) - 1 else 0
  }

  lemma LogGrows(origin: nat, log: seq<Event>, e: Event, n: nat)
    requires LogOk(origin, log, n) && EventOk(Position(origin, log), e, n)
    ensures LogOk(origin, log + [e], n) && Position(origin, log + [e]) == e.cnt0
  {
    var log' := log + [e];
    forall i | 0 <= i < |log'| ensures EventOk(Position(origin, log'[..i]), log'[i], n) {
      if i < |log| { assert log'[..i] == log[..i]; } else { assert log'[..i] == log; }
    }
  }

  /** Counters of a log never go back, and every delivery is strictly beyond all before it. */
  lemma {:induction false} DeliveriesIncrease(origin: nat, log: seq<Event>, n: nat, i: nat, j: nat)
    requires LogOk(origin, log, n) && i < j < |log|
    ensures origin <= log[i].cnt0 <= log[j].cnt0
    ensures Delivery(log[j]) ==> log[i].cnt0 < log[j].cnt0
    decreases j
  {
    PositionAbove(origin, log, n, i);
    assert EventOk(Position(origin, log[..j]), log[j], n);
    if i + 1 < j {
      DeliveriesIncrease(origin, log, n, i, j - 1);
    }
  }

  lemma {:induction false} PositionAbove(origin: nat, log: seq<Event>, n: nat, i: nat)
    requires LogOk(origin, log, n) && i < |log|
    ensures origin <= log[i].cnt0
    decreases i
  {
    assert EventOk(Position(origin, log[..i]), log[i], n);
    if i > 0 { PositionAbove(origin, log, n, i - 1); }
  }

  /** Without OVERWRITE or reset the deliveries are exactly the next frames, in order. */
  lemma {:induction false} ConsecutiveUnlessLapped(origin: nat, log: seq<Event>, n: nat)
    requires LogOk(origin, log, n)
    requires forall i :: 0 <= i < |log| ==> !log[i].Lapped? && !log[i].Rewound?
    ensures Position(origin, log) == origin + Handed(log)
    ensures forall i :: 0 <= i < |log| && Delivery(log[i]) ==> log[i].cnt0 == origin + Handed(log[..i]) + 1
    decreases |log|
  {
    if log != [] {
      var before := log[..|log| - 1];
      forall i | 0 <= i < |before| ensures before[..i] == log[..i] {}
      assert EventOk(Position(origin, before), log[|log| - 1], n);
      ConsecutiveUnlessLapped(origin, before, n);
    }
  }

  /** Without resets, frames handed over plus frames skipped is the advance of the tail. */
  lemma {:induction false} HandedPlusSkipped(origin: nat, log: seq<Event>, n: nat)
    requires LogOk(origin, log, n)
    requires forall i :: 0 <= i < |log| ==> !log[i].Rewound?
    ensures Handed(log) + Skipped(origin, log) == Position(origin, log) - origin
    ensures Skipped(origin, log) >= n * Laps(log)
    decreases |log|
  {
    if log != [] {
      var before := log[..|log| - 1];
      forall i | 0 <= i < |before| ensures before[..i] == log[..i] {}
      assert EventOk(Position(origin, before), log[|log| - 1], n);
      HandedPlusSkipped(origin, before, n);
      assert n * (Laps(before) + 1) == n * Laps(before) + n;
    }
  }

  function Laps(log: seq<Event>): nat {
    if log == [] then 0 else Laps(log[..|log| - 1]) + if log[|log| - 1].Lapped? then 1 else 0
  }

  // ---------------------------------------------------------------------------------
  // The overwrite check, over runs with no restriction on the reader's calls
  // ---------------------------------------------------------------------------------

  /** What was copied out since the tail was set is frame c. */
  ghost predicate Faithful<T>(w: World<T>, rd: Reader<T>)
    requires rd.tail.cnt0 <= |w.hist|
  {
    var frame := FrameAt(w.hist, w.blank, rd.tail.cnt0);
    forall j :: j in rd.copied ==> j < |frame| && rd.copied[j] == frame[j]
  }

  /** The tail is on the slot of its frame; only "frame 0" may be elsewhere. */
  ghost predicate Anchored<T>(w: World<T>, t: Tail)
    requires 0 < w.ring.size
  {
    t.cnt0 <= |w.hist| && t.idx < w.ring.size && (t.cnt0 > 0 ==> OnTrack(w, t))
  }

  /** The copy is faithful, unless the writer has taken the slot and no check that could see has passed since. */
  ghost predicate Certified<T>(w: World<T>, rd: Reader<T>)
    requires 0 < w.ring.size && rd.tail.cnt0 <= |w.hist|
  {
    && (Faithful(w, rd) || ((!rd.passed || rd.blind) && Overtaken(w, rd.tail.cnt0)))
    && (rd.pc.FlagClear? && !rd.blind ==> Faithful(w, rd) || rd.tail.cnt0 + w.ring.size <= |w.hist|)
  }

  ghost predicate CopyInv<T>(s: System<T>) {
    && Inv(s.world) && Anchored(s.world, s.reader.tail)
    && (OnTrack(s.world, s.reader.tail) ==> Certified(s.world, s.reader))
  }

  /** A store of the writer cannot make a faithful copy unfaithful, nor undo being overtaken. */
  lemma WriteKeepsCopy<T>(s: System<T>, st: Store<T>)
    requires CopyInv(s) && CanAct(s, Write(st))
    ensures CopyInv(After(s, Write(st)))
  {
    StoreKeepsInv(s.world, st);
    var w, w', rd := s.world, AfterStore(s.world, st), s.reader;
    assert FrameAt(w'.hist, w'.blank, rd.tail.cnt0) == FrameAt(w.hist, w.blank, rd.tail.cnt0);
    assert Faithful(w', rd) == Faithful(w, rd);
    assert Overtaken(w, rd.tail.cnt0) ==> Overtaken(w', rd.tail.cnt0);
  }

  /** A counter found in a slot belongs there. */
  lemma CountAnchors<T>(w: World<T>, slot: nat)
    requires Inv(w) && slot < w.ring.size
    ensures Anchored(w, Tail(slot, w.ring.cnt0[slot]))
  {
    if w.ring.cnt0[slot] > 0 { LatestIsThere(|w.hist|, w.ring.size, slot); }
  }

  /** A new tail starts with nothing copied. */
  lemma TailMoves<T>(w: World<T>, rd: Reader<T>, t: Tail, e: Event)
    requires Inv(w) && Anchored(w, t)
    ensures CopyInv(System(w, At(rd, t, e)))
  {
    assert Faithful(w, At(rd, t, e));
  }

  lemma CopyOutKeeps<T>(s: System<T>, j: nat)
    requires CopyInv(s) && CanAct(s, CopyOut(j))
    ensures CopyInv(After(s, CopyOut(j)))
  {
    var w, t := s.world, s.reader.tail;
    if OnTrack(w, t) && !Overtaken(w, t.cnt0) {
      NewestFramesIntact(w.ring, w.hist, w.blank, t.cnt0);
    }
  }

  /** Both loads of the overwrite check: together they certify everything copied before. */
  lemma CheckKeepsCopy<T>(s: System<T>, a: Action<T>)
    requires CopyInv(s) && CanAct(s, a) && (a.CheckFlag? || a.CheckCount?)
    ensures CopyInv(After(s, a))
  {
    var w, t := s.world, s.reader.tail;
    if OnTrack(w, t) {
      HeldUntilLapped(t.cnt0, |w.hist|, w.ring.size);
      if a.CheckFlag? {
        CheckOverwriteExact(w, t);
        assert CommittingOver(w, t.cnt0) || w.ring.write[t.idx] || Faithful(w, s.reader)
          || t.cnt0 + w.ring.size <= |w.hist|;
      } else if w.ring.cnt0[t.idx] == t.cnt0 && !s.reader.blind {
        assert Faithful(w, s.reader);
      }
    }
  }

  /** A step that only moves the reader within its call. */
  lemma WithinCall<T>(s: System<T>, rd: Reader<T>)
    requires CopyInv(s) && !rd.pc.FlagClear?
    requires rd.tail == s.reader.tail && rd.copied == s.reader.copied
    requires rd.passed == s.reader.passed && rd.blind == s.reader.blind
    ensures CopyInv(System(s.world, rd))
  {
    assert Faithful(s.world, rd) == Faithful(s.world, s.reader);
  }

  lemma ActKeepsCopy<T>(s: System<T>, a: Action<T>)
    requires CopyInv(s) && CanAct(s, a)
    ensures CopyInv(After(s, a))
  {
    var w, rd := s.world, s.reader;
    match a
    case Write(st) => WriteKeepsCopy(s, st);
    case NextFollowing =>
      var next := Succ(rd.tail.idx, w.ring.size);
      if w.ring.cnt0[next] == rd.tail.cnt0 + 1 {
        CountAnchors(w, next);
        TailMoves(w, rd, Tail(next, rd.tail.cnt0 + 1), Delivered(rd.tail.cnt0 + 1));
      } else {
        WithinCall(s, rd.(pc := NewestSlot));
      }
    case NewestLoad =>
      var c := w.ring.cnt0[rd.pc.slot];
      CountAnchors(w, rd.pc.slot);
      TailMoves(w, rd, Tail(rd.pc.slot, c), if rd.pc.rewind then Rewound(c) else Lapped(c));
    case CopyOut(j) => CopyOutKeeps(s, j);
    case CheckFlag => CheckKeepsCopy(s, a);
    case CheckCount => CheckKeepsCopy(s, a);
    case _ => WithinCall(s, AfterRead(s, a));
  }

  lemma {:induction false} RunKeepsCopy<T>(s: System<T>, acts: seq<Action<T>>)
    requires CopyInv(s) && CanRun(s, acts)
    ensures CopyInv(RunOf(s, acts))
    decreases |acts|
  {
    if acts != [] {
      ActKeepsCopy(s, acts[0]);
      RunKeepsCopy(After(s, acts[0]), acts[1..]);
    }
  }

  /**
   The overwrite check is a sound seqlock: wherever the reader's loads fell, a check that returned
   SUCCESS certifies that every element copied since the tail was set to counter c > 0 belongs to
   frame c, unless it loaded the `write` flag while the slot's new frame was half committed.
   */
  lemma SeqlockSound<T>(w: World<T>, acts: seq<Action<T>>)
    requires Inv(w) && CanRun(Opened(w), acts)
    ensures var s := RunOf(Opened(w), acts);
            && s.reader.tail.cnt0 <= |s.world.hist|
            && (s.reader.passed && !s.reader.blind && s.reader.tail.cnt0 > 0 ==> Faithful(s.world, s.reader))
  {
    CountAnchors(w, w.ring.last);
    assert Faithful(w, Opened(w).reader);
    RunKeepsCopy(Opened(w), acts);
  }

  // ---------------------------------------------------------------------------------
  // The results of the calls, over runs that load `fifo_last_written` outside the window
  // ---------------------------------------------------------------------------------

  /** The action does not look at `fifo_last_written` inside the commit window. */
  predicate Calm<T>(w: World<T>, a: Action<T>) {
    w.phase.Moved? ==> !a.NextLast? && !a.NextNewest? && !a.ResetLast?
  }

  ghost predicate CalmRun<T>(s: System<T>, acts: seq<Action<T>>)
    requires CanRun(s, acts)
    decreases |acts|
  {
    acts != [] ==> Calm(s.world, acts[0]) && CalmRun(After(s, acts[0]), acts[1..])
  }

  ghost predicate PcOk<T>(w: World<T>, rd: Reader<T>)
    requires 0 < w.ring.size && rd.tail.cnt0 <= |w.hist|
  {
    var n, W, c := w.ring.size, |w.hist|, rd.tail.cnt0;
    match rd.pc
    case OwnCount(at) => c <= at <= W && SlotOf(at, n) == rd.tail.idx
    case NextCount => c < W
    case NewestSlot => c + n < W
    case NewestCount(slot, at, rewind) =>
      at <= W && slot == SlotOf(at, n) && if rewind then c <= at else c + n < at
    case _ => true
  }

  ghost predicate RunInv<T>(s: System<T>, origin: nat) {
    var w, rd := s.world, s.reader;
    && Inv(w) && OnTrack(w, rd.tail) && PcOk(w, rd)
    && LogOk(origin, rd.log, w.ring.size) && Position(origin, rd.log) == rd.tail.cnt0
  }

  /** NOTREADY means caught up at the moment `fifo_last_written` was loaded. */
  lemma NextOwnKeeps<T>(s: System<T>, origin: nat)
    requires RunInv(s, origin) && CanAct(s, NextOwn)
    ensures RunInv(After(s, NextOwn), origin)
  {
    var w, rd := s.world, s.reader;
    var n, c := w.ring.size, rd.tail.cnt0;
    HeldUntilLapped(c, |w.hist|, n);
    if w.ring.cnt0[rd.tail.idx] == c {
      SameSlotSameFrame(c, rd.pc.written, n);
      LogGrows(origin, rd.log, UpToDate(c), n);
    }
  }

  lemma FollowingCount<T>(w: World<T>, t: Tail)
    requires Inv(w) && OnTrack(w, t) && t.cnt0 < |w.hist|
    ensures Succ(t.idx, w.ring.size) == SlotOf(t.cnt0 + 1, w.ring.size)
    ensures w.ring.cnt0[Succ(t.idx, w.ring.size)] == t.cnt0 + 1 <==> |w.hist| <= t.cnt0 + w.ring.size
  {
    HeldUntilLapped(t.cnt0 + 1, |w.hist|, w.ring.size);
  }

  /** A call that ends with a new tail and an honest event. */
  lemma CallEnds<T>(s: System<T>, t: Tail, e: Event, origin: nat)
    requires RunInv(s, origin) && OnTrack(s.world, t)
    requires e.cnt0 == t.cnt0 && EventOk(s.reader.tail.cnt0, e, s.world.ring.size)
    ensures RunInv(System(s.world, At(s.reader, t, e)), origin)
  {
    LogGrows(origin, s.reader.log, e, s.world.ring.size);
  }

  lemma NextFollowingKeeps<T>(s: System<T>, origin: nat)
    requires RunInv(s, origin) && CanAct(s, NextFollowing)
    ensures RunInv(After(s, NextFollowing), origin)
  {
    hide SlotOf, LatestIn, LogOk, Position;
    var w, t := s.world, s.reader.tail;
    var next := Tail(Succ(t.idx, w.ring.size), t.cnt0 + 1);
    FollowingCount(w, t);
    if w.ring.cnt0[next.idx] == next.cnt0 {
      CallEnds(s, next, Delivered(next.cnt0), origin);
      assert After(s, NextFollowing) == System(w, At(s.reader, next, Delivered(next.cnt0)));
    } else {
      assert After(s, NextFollowing) == System(w, s.reader.(pc := NewestSlot));
    }
  }

  lemma NewestLoadKeeps<T>(s: System<T>, origin: nat)
    requires RunInv(s, origin) && CanAct(s, NewestLoad)
    ensures RunInv(After(s, NewestLoad), origin)
  {
    var w, rd := s.world, s.reader;
    var n, W, at := w.ring.size, |w.hist|, rd.pc.written;
    var c := w.ring.cnt0[rd.pc.slot];
    HeldUntilLapped(at, at, n);
    LatestMonotone(at, W, n, rd.pc.slot);
    if c > 0 { LatestIsThere(W, n, rd.pc.slot); }
    CallEnds(s, Tail(rd.pc.slot, c), if rd.pc.rewind then Rewound(c) else Lapped(c), origin);
  }

  lemma ActKeepsInv<T>(s: System<T>, a: Action<T>, origin: nat)
    requires RunInv(s, origin) && CanAct(s, a) && Calm(s.world, a)
    ensures RunInv(After(s, a), origin)
  {
    match a
    case Write(st) => StoreKeepsInv(s.world, st);
    case NextOwn => NextOwnKeeps(s, origin);
    case NextFollowing => NextFollowingKeeps(s, origin);
    case NewestLoad => NewestLoadKeeps(s, origin);
    case _ =>
  }

  lemma {:induction false} RunKeepsInv<T>(s: System<T>, acts: seq<Action<T>>, origin: nat)
    requires RunInv(s, origin) && CanRun(s, acts) && CalmRun(s, acts)
    ensures RunInv(RunOf(s, acts), origin)
    ensures RunOf(s, acts).world.ring.size == s.world.ring.size
    decreases |acts|
  {
    if acts != [] {
      ActKeepsInv(s, acts[0], origin);
      if acts[0].Write? { StoreKeepsInv(s.world, acts[0].store); }
      RunKeepsInv(After(s, acts[0]), acts[1..], origin);
    }
  }

  /** Every run logs an honest sequence of results, and the tail is where the log says. */
  lemma RunDelivers<T>(w: World<T>, acts: seq<Action<T>>)
    requires Inv(w) && !w.phase.Moved? && CanRun(Opened(w), acts) && CalmRun(Opened(w), acts)
    ensures var s := RunOf(Opened(w), acts);
            && LogOk(|w.hist|, s.reader.log, w.ring.size) && Position(|w.hist|, s.reader.log) == s.reader.tail.cnt0
            && s.world.ring.size == w.ring.size && OnTrack(s.world, s.reader.tail)
  {
    NewestIsOnTrack(w);
    RunKeepsInv(Opened(w), acts, |w.hist|);
  }

  /**
   Delivery over a whole run: counters handed over strictly increase; without resets, frames handed
   over plus frames skipped is the advance of the tail, each OVERWRITE skipping at least N; and
   without OVERWRITE either, the frames are consecutive.
   */
  lemma DeliveryOverRuns<T>(w: World<T>, acts: seq<Action<T>>)
    requires Inv(w) && !w.phase.Moved? && CanRun(Opened(w), acts) && CalmRun(Opened(w), acts)
    ensures var s := RunOf(Opened(w), acts); var log, c0, n := s.reader.log, |w.hist|, w.ring.size;
            && s.reader.tail.cnt0 <= |s.world.hist|
            && (forall i, j :: 0 <= i < j < |log| && Delivery(log[j]) ==> log[i].cnt0 < log[j].cnt0)
            && ((forall i :: 0 <= i < |log| ==> !log[i].Rewound?) ==>
                  Handed(log) + Skipped(c0, log) == s.reader.tail.cnt0 - c0 && Skipped(c0, log) >= n * Laps(log))
            && ((forall i :: 0 <= i < |log| ==> !log[i].Lapped? && !log[i].Rewound?) ==>
                  forall i :: 0 <= i < |log| && Delivery(log[i]) ==> log[i].cnt0 == c0 + Handed(log[..i]) + 1)
  {
    RunDelivers(w, acts);
    var log, c0, n := RunOf(Opened(w), acts).reader.log, |w.hist|, w.ring.size;
    forall i, j | 0 <= i < j < |log| && Delivery(log[j]) ensures log[i].cnt0 < log[j].cnt0 {
      DeliveriesIncrease(c0, log, n, i, j);
    }
    if forall i :: 0 <= i < |log| ==> !log[i].Rewound? {
      HandedPlusSkipped(c0, log, n);
    }
    if forall i :: 0 <= i < |log| ==> !log[i].Lapped? && !log[i].Rewound? {
      ConsecutiveUnlessLapped(c0, log, n);
    }
  }

  // ---------------------------------------------------------------------------------
  // Waiting for a counter
  // ---------------------------------------------------------------------------------

  /** One poll of `daoShmWaitForTargetCounter`: load `last` in w, and the counter after `stores`. */
  ghost predicate Poll<T>(w: World<T>, stores: seq<Store<T>>, target: nat)
    requires Inv(w) && CanStoreAll(w, stores)
  {
    StoresKeepInv(w, stores);
    AfterStores(w, stores).ring.cnt0[w.ring.last] >= target
  }

  /**
   A poll succeeds only when the target was committed, whatever was stored between its loads;
   and it must succeed when the target was committed before its first load, outside the window.
   */
  lemma PollSound<T>(w: World<T>, stores: seq<Store<T>>, target: nat)
    requires Inv(w) && CanStoreAll(w, stores)
    ensures Poll(w, stores, target) ==> |AfterStores(w, stores).hist| >= target
    ensures !w.phase.Moved? && |w.hist| >= target ==> Poll(w, stores, target)
  {
    StoresKeepInv(w, stores);
    var w' := AfterStores(w, stores);
    var n := w.ring.size;
    assert w'.ring.cnt0[w.ring.last] == LatestIn(|w'.hist|, n, w.ring.last);
    if !w.phase.Moved? {
      HeldUntilLapped(|w.hist|, |w.hist|, n);
      LatestMonotone(|w.hist|, |w'.hist|, n, w.ring.last);
    }
  }

  /** After waiting for the next segment, the next-segment call never says NOTREADY. */
  lemma WaitThenGet<T>(w: World<T>, stores: seq<Store<T>>, t: Tail, more: seq<Store<T>>)
    requires Inv(w) && CanStoreAll(w, stores) && OnTrack(w, t)
    requires Poll(w, stores, t.cnt0 + 1)
    requires CanStoreAll(AfterStores(w, stores), more)
    requires !AfterStores(AfterStores(w, stores), more).phase.Moved?
    ensures var r := AfterStores(AfterStores(w, stores), more).ring;
            && Shaped(r) && t.idx < r.size
            && NextSegment(r, t).0 != NotReady && NextSegment(r, t).1.cnt0 > t.cnt0
  {
    PollSound(w, stores, t.cnt0 + 1);
    StoresKeepInv(w, stores);
    StoresKeepInv(AfterStores(w, stores), more);
    NextSegmentClassifiesIff(AfterStores(AfterStores(w, stores), more), t);
  }

  /** Something is committed beyond the tail, and the reader has not looked before that. */
  ghost predicate Behind<T>(s: System<T>) {
    s.reader.tail.cnt0 < |s.world.hist| && (s.reader.pc.OwnCount? ==> s.reader.tail.cnt0 < s.reader.pc.written)
  }

  lemma LogsOnlyGrow<T>(s: System<T>, a: Action<T>)
    requires CanAct(s, a)
    ensures s.reader.log <= After(s, a).reader.log
  {}

  lemma {:induction false} LogsOnlyGrowInRuns<T>(s: System<T>, acts: seq<Action<T>>)
    requires CanRun(s, acts)
    ensures s.reader.log <= RunOf(s, acts).reader.log
    decreases |acts|
  {
    if acts != [] {
      LogsOnlyGrow(s, acts[0]);
      LogsOnlyGrowInRuns(After(s, acts[0]), acts[1..]);
    }
  }

  /** A reader that is behind stays so until its call completes, and that is not with NOTREADY. */
  lemma BehindStep<T>(s: System<T>, a: Action<T>, origin: nat)
    requires RunInv(s, origin) && Behind(s) && CanAct(s, a)
    ensures var log, log' := s.reader.log, After(s, a).reader.log;
            if log' == log then Behind(After(s, a)) else !log'[|log|].UpToDate?
  {
    if a.Write? {
      StoreKeepsInv(s.world, a.store);
    } else if a.NextOwn? && s.world.ring.cnt0[s.reader.tail.idx] == s.reader.tail.cnt0 {
      HeldUntilLapped(s.reader.tail.cnt0, |s.world.hist|, s.world.ring.size);
      SameSlotSameFrame(s.reader.tail.cnt0, s.reader.pc.written, s.world.ring.size);
    }
  }

  lemma {:induction false} BehindRun<T>(s: System<T>, acts: seq<Action<T>>, origin: nat)
    requires RunInv(s, origin) && Behind(s) && CanRun(s, acts) && CalmRun(s, acts)
    ensures var log, log' := s.reader.log, RunOf(s, acts).reader.log;
            log <= log' && (log' != log ==> !log'[|log|].UpToDate?)
    decreases |acts|
  {
    LogsOnlyGrowInRuns(s, acts);
    if acts != [] {
      var s' := After(s, acts[0]);
      BehindStep(s, acts[0], origin);
      LogsOnlyGrow(s, acts[0]);
      LogsOnlyGrowInRuns(s', acts[1..]);
      if s'.reader.log == s.reader.log {
        ActKeepsInv(s, acts[0], origin);
        BehindRun(s', acts[1..], origin);
      } else {
        assert RunOf(s, acts).reader.log[|s.reader.log|] == s'.reader.log[|s.reader.log|];
      }
    }
  }

  /**
   The same with every load of the call a step of its own: whatever is stored during the poll and
   between the loads, the first call completed after the wait does not report NOTREADY.
   */
  lemma WaitThenCall<T>(s: System<T>, stores: seq<Store<T>>, acts: seq<Action<T>>, origin: nat)
    requires RunInv(s, origin) && s.reader.pc.Ready? && CanStoreAll(s.world, stores)
    requires Poll(s.world, stores, s.reader.tail.cnt0 + 1)
    requires var s' := System(AfterStores(s.world, stores), s.reader); CanRun(s', acts) && CalmRun(s', acts)
    ensures var log, log' := s.reader.log, RunOf(System(AfterStores(s.world, stores), s.reader), acts).reader.log;
            log <= log' && (log' != log ==> !log'[|log|].UpToDate?)
  {
    PollSound(s.world, stores, s.reader.tail.cnt0 + 1);
    StoresKeepInv(s.world, stores);
    BehindRun(System(AfterStores(s.world, stores), s.reader), acts, origin);
  }
}
