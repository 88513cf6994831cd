/**
 The FIFO ring as a value: N slots, each with a counter (`cnt0`), a `write` flag and a
 segment of one flat data array, plus `last` (`fifo_last_written`).  The functions below
 are what the C entry points compute on it; the classes and the step model both use them.
 */
module Ring {

  datatype Status = Success | Error | Overwrite | NotReady

  /** `IMAGE_METADATA[]` and the data array of one shared memory. */
  datatype Ring<T> = Ring(size: nat, nelement: nat, cnt0: seq<nat>, write: seq<bool>, data: seq<T>, last: nat)

  /** A reader's private position: `fifo_last_read` and `fifo_last_read_cnt0`. */
  datatype Tail = Tail(idx: nat, cnt0: nat)

  predicate Shaped<T>(r: Ring<T>) {
    && 0 < r.size
    && |r.cnt0| == |r.write| == r.size
    && |r.data| == Offset(r.size, r.nelement)
    && r.last < r.size
  }

  // ---------------------------------------------------------------------------------
  // Slot arithmetic, stated without products or remainders so that proofs stay linear; the
  // code's own `%` and `*` forms are tied to it by SlotIsMod, SuccIsMod and OffsetIsProduct.
  // ---------------------------------------------------------------------------------

  /** The slot after `slot`, going round. */
  function Succ(slot: nat, n: nat): (next: nat)
    requires slot < n
    ensures next < n
  {
    if slot + 1 == n then 0 else slot + 1
  }

  /** The slot that holds frame `frame`; "frame 0" (nothing written yet) sits in the last slot. */
  function SlotOf(frame: nat, n: nat): (slot: nat)
    requires 0 < n
    ensures slot < n
  {
    if frame == 0 then n - 1 else Succ(SlotOf(frame - 1, n), n)
  }

  /** The newest frame among 1..written that was stored in `slot`, or 0 when there is none. */
  function LatestIn(written: nat, n: nat, slot: nat): (frame: nat)
    requires 0 < n
    ensures frame <= written
  {
    if written == 0 then 0
    else if SlotOf(written, n) == slot then written
    else LatestIn(written - 1, n, slot)
  }

  lemma {:induction false} LatestIsThere(written: nat, n: nat, slot: nat)
    requires 0 < n && LatestIn(written, n, slot) > 0
    ensures SlotOf(LatestIn(written, n, slot), n) == slot
  {
    if SlotOf(written, n) != slot { LatestIsThere(written - 1, n, slot); }
  }

  lemma ModUnique(x: int, n: int, q: int, m: int)
    requires 0 <= m < n && x == q * n + m
    ensures x % n == m
  {
    var q' := x / n;
    assert x == q' * n + x % n;
    assert (q - q') * n == x % n - m;
    assert q - q' >= 1 ==> (q - q') * n >= n;
    assert q - q' <= -1 ==> (q - q') * n <= -n;
  }

  lemma SuccIsMod(slot: nat, n: nat)
    requires slot < n
    ensures (slot + 1) % n == Succ(slot, n)
  {
    if slot + 1 == n { ModUnique(slot + 1, n, 1, 0); } else { ModUnique(slot + 1, n, 0, slot + 1); }
  }

  /** Frame w lives in slot (w - 1) mod N; for w = 0 this is the remainder of -1, the last slot. */
  lemma {:induction false} SlotIsMod(frame: nat, n: nat)
    requires 0 < n
    ensures SlotOf(frame, n) == (frame - 1) % n
  {
    if frame == 0 {
      ModUnique(-1, n, -1, n - 1);
    } else {
      SlotIsMod(frame - 1, n);
      var q, m := (frame - 2) / n, (frame - 2) % n;
      assert frame - 2 == q * n + m;
      if m + 1 == n {
        assert frame - 1 == (q + 1) * n;
        ModUnique(frame - 1, n, q + 1, 0);
      } else {
        ModUnique(frame - 1, n, q, m + 1);
      }
    }
  }

  /** d steps after a slot (d at most N): the same slot only for d = N (or 0). */
  lemma {:induction false} SlotAfter(frame: nat, d: nat, n: nat)
    requires 0 < n && d <= n
    ensures SlotOf(frame + d, n) == if SlotOf(frame, n) + d < n then SlotOf(frame, n) + d else SlotOf(frame, n) + d - n
  {
    if d > 0 { SlotAfter(frame, d - 1, n); }
  }

  lemma SameSlotSameFrame(frame: nat, later: nat, n: nat)
    requires 0 < n && frame <= later < frame + n && SlotOf(frame, n) == SlotOf(later, n)
    ensures frame == later
  {
    SlotAfter(frame, later - frame, n);
  }

  lemma SlotShift(frame: nat, n: nat)
    requires 0 < n
    ensures SlotOf(frame + n, n) == SlotOf(frame, n)
  {
    SlotAfter(frame, n, n);
  }

  lemma {:induction false} LatestMonotone(written: nat, later: nat, n: nat, slot: nat)
    requires 0 < n && written <= later
    ensures LatestIn(written, n, slot) <= LatestIn(later, n, slot)
    decreases later
  {
    if written < later && SlotOf(later, n) != slot {
      LatestMonotone(written, later - 1, n, slot);
    }
  }

  /** A slot still holds frame w exactly until frame w + n is stored. */
  lemma {:induction false} HeldUntilLapped(frame: nat, written: nat, n: nat)
    requires 0 < n && frame <= written
    ensures LatestIn(written, n, SlotOf(frame, n)) == frame <==> written < frame + n
    decreases written
  {
    if written >= frame + n {
      SlotShift(frame, n);
      LatestMonotone(frame + n, written, n, SlotOf(frame, n));
    } else if frame < written {
      SlotAfter(frame, written - frame, n);
      HeldUntilLapped(frame, written - 1, n);
    }
  }

  /** The slot of a frame that is still held is the one written next only for the oldest frame. */
  lemma SlotIsNextIff(frame: nat, written: nat, n: nat)
    requires 0 < n && frame <= written < frame + n
    ensures SlotOf(frame, n) == SlotOf(written + 1, n) <==> written == frame + n - 1
  {
    SlotAfter(frame, written + 1 - frame, n);
  }

  /** What the slot that is written next held before: the frame n back, if there was one. */
  lemma OldestHeld(written: nat, n: nat)
    requires 0 < n
    ensures LatestIn(written, n, SlotOf(written + 1, n)) == if written < n then 0 else written - n + 1
  {
    if written < n {
      NeverUsed(written, n, SlotOf(written + 1, n));
    } else {
      SlotShift(written - n + 1, n);
      HeldUntilLapped(written - n + 1, written, n);
    }
  }

  lemma {:induction false} NeverUsed(written: nat, n: nat, slot: nat)
    requires 0 < n && written < n && (written <= slot || slot == SlotOf(written + 1, n))
    ensures slot < n ==> LatestIn(written, n, slot) == 0
    decreases written
  {
    SlotAfter(0, written, n);
    SlotAfter(0, written + 1, n);
    if written > 0 {
      NeverUsed(written - 1, n, slot);
    }
  }

  // ---------------------------------------------------------------------------------
  // Segments of the flat data array
  // ---------------------------------------------------------------------------------

  /** Where a slot's segment starts in the data array. */
  function Offset(slot: nat, nelement: nat): (at: nat) {
    if slot == 0 then 0 else Offset(slot - 1, nelement) + nelement
  }

  lemma {:induction false} OffsetIsProduct(slot: nat, nelement: nat)
    ensures Offset(slot, nelement) == slot * nelement == nelement * slot
  {
    if slot > 0 {
      OffsetIsProduct(slot - 1, nelement);
      assert slot * nelement == (slot - 1) * nelement + nelement;
    }
  }

  lemma {:induction false} OffsetsOrdered(slot: nat, size: nat, nelement: nat)
    requires slot < size
    ensures Offset(slot, nelement) + nelement <= Offset(size, nelement)
    decreases size
  {
    if slot + 1 < size { OffsetsOrdered(slot, size - 1, nelement); }
  }

  /** The data of one slot. */
  function Segment<T>(r: Ring<T>, slot: nat): (s: seq<T>)
    requires Shaped(r) && slot < r.size
    ensures |s| == r.nelement
  {
    OffsetsOrdered(slot, r.size, r.nelement);
    r.data[Offset(slot, r.nelement)..Offset(slot, r.nelement) + r.nelement]
  }

  lemma SameSegments<T>(r: Ring<T>, r': Ring<T>)
    requires Shaped(r) && Shaped(r') && r'.size == r.size && r'.nelement == r.nelement && r'.data == r.data
    ensures forall i: nat :: i < r.size ==> Segment(r', i) == Segment(r, i)
  {}

  /** The data array after `vals` was copied to element `pos` of slot `slot`. */
  function Patch<T>(r: Ring<T>, slot: nat, pos: nat, vals: seq<T>): (data: seq<T>)
    requires Shaped(r) && slot < r.size && pos + |vals| <= r.nelement
    ensures |data| == |r.data|
  {
    OffsetsOrdered(slot, r.size, r.nelement);
    var at := Offset(slot, r.nelement) + pos;
    r.data[..at] + vals + r.data[at + |vals|..]
  }

  /** A copy into one slot changes that segment as a local copy would, and no other segment. */
  lemma PatchSegments<T>(r: Ring<T>, slot: nat, pos: nat, vals: seq<T>, r': Ring<T>)
    requires Shaped(r) && slot < r.size && pos + |vals| <= r.nelement
    requires Shaped(r') && r'.size == r.size && r'.nelement == r.nelement
    requires r'.data == Patch(r, slot, pos, vals)
    ensures Segment(r', slot) == Segment(r, slot)[..pos] + vals + Segment(r, slot)[pos + |vals|..]
    ensures forall i: nat :: i < r.size && i != slot ==> Segment(r', i) == Segment(r, i)
  {
    var n := r.nelement;
    OffsetsOrdered(slot, r.size, n);
    forall i: nat | i < r.size && i != slot ensures Segment(r', i) == Segment(r, i) {
      OffsetsOrdered(i, r.size, n);
      if i < slot { OffsetsOrdered(i, slot, n); } else { OffsetsOrdered(slot, i, n); }
    }
  }

  /** Every element of the data array belongs to some segment. */
  lemma {:induction false} ElementInSegment(at: nat, size: nat, nelement: nat) returns (slot: nat)
    requires at < Offset(size, nelement)
    ensures slot < size && Offset(slot, nelement) <= at < Offset(slot, nelement) + nelement
    decreases size
  {
    if Offset(size - 1, nelement) <= at {
      slot := size - 1;
    } else {
      slot := ElementInSegment(at, size - 1, nelement);
    }
  }

  lemma SegmentsDetermineData<T>(r: Ring<T>, r': Ring<T>)
    requires Shaped(r) && Shaped(r') && r.size == r'.size && r.nelement == r'.nelement
    requires forall i: nat :: i < r.size ==> Segment(r, i) == Segment(r', i)
    ensures r.data == r'.data
  {
    forall at: nat | at < |r.data| ensures r.data[at] == r'.data[at] {
      var slot := ElementInSegment(at, r.size, r.nelement);
      var j := at - Offset(slot, r.nelement);
      OffsetsOrdered(slot, r.size, r.nelement);
      assert r.data[at] == Segment(r, slot)[j] && r'.data[at] == Segment(r', slot)[j];
    }
  }

  // ---------------------------------------------------------------------------------
  // What the writer's entry points do
  // ---------------------------------------------------------------------------------

  /** The slot the writer fills next. */
  function WritingSlot<T>(r: Ring<T>): (slot: nat)
    requires Shaped(r)
    ensures slot < r.size
  {
    Succ(r.last, r.size)
  }

  function PriorSlot<T>(r: Ring<T>): (slot: nat)
    requires Shaped(r)
    ensures slot < r.size
  {
    if r.last == 0 then r.size - 1 else r.last - 1
  }

  /** `daoShmTimestampShm`: number the last written slot one above the slot before it. */
  function Stamp<T>(r: Ring<T>): (r': Ring<T>)
    requires Shaped(r)
    ensures Shaped(r')
  {
    r.(cnt0 := r.cnt0[r.last := r.cnt0[PriorSlot(r)] + 1])
  }

  /** `daoShmImagePart2ShmFinalize`: clear the flag, move `last`, stamp. */
  function Finalized<T>(r: Ring<T>): (r': Ring<T>)
    requires Shaped(r)
    ensures Shaped(r')
  {
    var k := WritingSlot(r);
    Stamp(r.(write := r.write[k := false], last := k))
  }

  /** One packet: the flag ends up clear and the values are in the writing slot. */
  function Packeted<T>(r: Ring<T>, pos: nat, vals: seq<T>): (r': Ring<T>)
    requires Shaped(r) && pos + |vals| <= r.nelement
    ensures Shaped(r')
  {
    var k := WritingSlot(r);
    r.(write := r.write[k := false], data := Patch(r, k, pos, vals))
  }

  /** `daoShmImage2Shm`: the values go to the front of the writing slot, then commit. */
  function Published<T>(r: Ring<T>, vals: seq<T>): (r': Ring<T>)
    requires Shaped(r) && |vals| <= r.nelement
    ensures Shaped(r')
  {
    Finalized(Packeted(r, 0, vals))
  }

  // ---------------------------------------------------------------------------------
  // What the readers' entry points do
  // ---------------------------------------------------------------------------------

  /** `daoShmGetNewestSegment` and `daoShmResetTail`: the position they report. */
  function Newest<T>(r: Ring<T>): (t: Tail)
    requires Shaped(r)
    ensures t.idx < r.size
  {
    Tail(r.last, r.cnt0[r.last])
  }

  /** `daoShmGetNextSegment`: the status and the reader's new tail. */
  function NextSegment<T>(r: Ring<T>, t: Tail): (res: (Status, Tail))
    requires Shaped(r) && t.idx < r.size
    ensures res.1.idx < r.size
  {
    var next := Succ(t.idx, r.size);
    if t.idx == r.last && t.cnt0 == r.cnt0[t.idx] then (NotReady, t)
    else if r.cnt0[next] != t.cnt0 + 1 then (Overwrite, Newest(r))
    else (Success, Tail(next, t.cnt0 + 1))
  }

  /** `daoShmCheckSegmentOverwrite`. */
  function CheckOverwrite<T>(r: Ring<T>, t: Tail): Status
    requires Shaped(r) && t.idx < r.size
  {
    if r.write[t.idx] || r.cnt0[t.idx] != t.cnt0 then Overwrite else Success
  }

  // ---------------------------------------------------------------------------------
  // The ring and its history
  // ---------------------------------------------------------------------------------

  /** Frame number w of a history; frame 0 is the blank (zeroed) segment. */
  function FrameAt<T>(hist: seq<seq<T>>, blank: seq<T>, w: nat): seq<T>
    requires w <= |hist|
  {
    if w == 0 then blank else hist[w - 1]
  }

  /** Slot `slot` holds the newest frame that belongs there, whole and not being written. */
  ghost predicate SlotHolds<T>(r: Ring<T>, hist: seq<seq<T>>, blank: seq<T>, slot: nat)
    requires Shaped(r) && slot < r.size
  {
    && !r.write[slot]
    && Segment(r, slot) == FrameAt(hist, blank, LatestIn(|hist|, r.size, slot))
  }

  /** All but the slot to be written next agree with the history, and every counter does. */
  ghost predicate Tracks<T>(r: Ring<T>, hist: seq<seq<T>>, blank: seq<T>) {
    && Shaped(r)
    && |blank| == r.nelement
    && (forall k :: 0 <= k < |hist| ==> |hist[k]| == r.nelement)
    && (forall i: nat :: i < r.size ==> r.cnt0[i] == LatestIn(|hist|, r.size, i))
    && (forall i: nat :: i < r.size && i != SlotOf(|hist| + 1, r.size) ==> SlotHolds(r, hist, blank, i))
  }

  /** `Tracks` with `last` at the newest frame: the state between two commits. */
  ghost predicate Settled<T>(r: Ring<T>, hist: seq<seq<T>>, blank: seq<T>) {
    Tracks(r, hist, blank) && r.last == SlotOf(|hist|, r.size)
  }

  /** `Settled`, and nothing has been stored into the writing slot yet. */
  ghost predicate Quiet<T>(r: Ring<T>, hist: seq<seq<T>>, blank: seq<T>) {
    Settled(r, hist, blank) && SlotHolds(r, hist, blank, SlotOf(|hist| + 1, r.size))
  }

  lemma WritingSlotOf<T>(r: Ring<T>, hist: seq<seq<T>>, blank: seq<T>)
    requires Settled(r, hist, blank)
    ensures WritingSlot(r) == SlotOf(|hist| + 1, r.size)
    ensures r.cnt0[r.last] == |hist|
  {
    HeldUntilLapped(|hist|, |hist|, r.size);
  }

  /** The prior slot's counter is W, also for N = 1, where it is the slot's own old counter. */
  lemma StampCounts<T>(r: Ring<T>, hist: seq<seq<T>>, blank: seq<T>, i: nat)
    requires Tracks(r, hist, blank) && r.last == SlotOf(|hist| + 1, r.size) && i < r.size
    ensures Stamp(r).cnt0[i] == LatestIn(|hist| + 1, r.size, i)
  {
    if i == r.last {
      assert PriorSlot(r) == SlotOf(|hist|, r.size);
      HeldUntilLapped(|hist|, |hist|, r.size);
      assert r.cnt0[PriorSlot(r)] == |hist|;
    }
  }

  lemma {:induction false} StampHolds<T>(r: Ring<T>, hist: seq<seq<T>>, blank: seq<T>, frame: seq<T>, i: nat)
    requires Tracks(r, hist, blank) && r.last == SlotOf(|hist| + 1, r.size) && i < r.size
    requires !r.write[r.last] && Segment(r, r.last) == frame
    ensures SlotHolds(Stamp(r), hist + [frame], blank, i)
  {
    SameSegments(r, Stamp(r));
    var w := LatestIn(|hist| + 1, r.size, i);
    if i != r.last {
      assert SlotHolds(r, hist, blank, i);
      assert w == LatestIn(|hist|, r.size, i);
      assert FrameAt(hist + [frame], blank, w) == FrameAt(hist, blank, w);
    } else {
      assert FrameAt(hist + [frame], blank, w) == frame;
    }
  }

  /** The three commit stores number the new frame W + 1, for every N including N = 1. */
  lemma {:induction false} CommitCounts<T>(r: Ring<T>, hist: seq<seq<T>>, blank: seq<T>, frame: seq<T>, r': Ring<T>)
    requires Tracks(r, hist, blank) && r.last == SlotOf(|hist| + 1, r.size)
    requires !r.write[r.last] && Segment(r, r.last) == frame
    requires r' == Stamp(r)
    ensures Quiet(r', hist + [frame], blank)
  {
    forall i: nat | i < r.size
      ensures r'.cnt0[i] == LatestIn(|hist + [frame]|, r.size, i) && SlotHolds(r', hist + [frame], blank, i)
    {
      StampCounts(r, hist, blank, i);
      StampHolds(r, hist, blank, frame, i);
    }
  }

  /** Raising or clearing the writing slot's flag disturbs nothing else. */
  lemma FlagKeepsSettled<T>(r: Ring<T>, hist: seq<seq<T>>, blank: seq<T>, b: bool)
    requires Settled(r, hist, blank)
    ensures var k := WritingSlot(r); var r' := r.(write := r.write[k := b]);
            k == SlotOf(|hist| + 1, r.size) && Settled(r', hist, blank) && Segment(r', k) == Segment(r, k)
  {
    var k := WritingSlot(r);
    WritingSlotOf(r, hist, blank);
    var r' := r.(write := r.write[k := b]);
    SameSegments(r, r');
    forall i: nat | i < r.size && i != k ensures SlotHolds(r', hist, blank, i) {
      assert SlotHolds(r, hist, blank, i);
    }
  }

  /** Storing values into the writing slot keeps the rest. */
  lemma PatchKeeps<T>(r: Ring<T>, hist: seq<seq<T>>, blank: seq<T>, pos: nat, vals: seq<T>)
    requires Settled(r, hist, blank) && pos + |vals| <= r.nelement
    ensures var k := WritingSlot(r); var r' := r.(data := Patch(r, k, pos, vals));
            && k == SlotOf(|hist| + 1, r.size) && Settled(r', hist, blank)
            && Segment(r', k) == Segment(r, k)[..pos] + vals + Segment(r, k)[pos + |vals|..]
  {
    var k := WritingSlot(r);
    var r' := r.(data := Patch(r, k, pos, vals));
    WritingSlotOf(r, hist, blank);
    PatchSegments(r, k, pos, vals, r');
    forall i: nat | i < r.size && i != k ensures SlotHolds(r', hist, blank, i) {
      assert SlotHolds(r, hist, blank, i);
    }
  }

  /** A packet keeps everything but the slot being filled. */
  lemma {:induction false} PacketKeeps<T>(r: Ring<T>, hist: seq<seq<T>>, blank: seq<T>, pos: nat, vals: seq<T>)
    requires Settled(r, hist, blank) && pos + |vals| <= r.nelement
    ensures Settled(Packeted(r, pos, vals), hist, blank)
    ensures var k := SlotOf(|hist| + 1, r.size); var r' := Packeted(r, pos, vals);
            !r'.write[k] && Segment(r', k) == Segment(r, k)[..pos] + vals + Segment(r, k)[pos + |vals|..]
  {
    FlagKeepsSettled(r, hist, blank, false);
    var flagged := r.(write := r.write[WritingSlot(r) := false]);
    PatchKeeps(flagged, hist, blank, pos, vals);
    assert Packeted(r, pos, vals) == flagged.(data := Patch(flagged, WritingSlot(r), pos, vals));
  }

  /** `Finalized` appends whatever the writing slot holds to the history and settles the ring. */
  lemma {:induction false} FinalizeCommits<T>(r: Ring<T>, hist: seq<seq<T>>, blank: seq<T>)
    requires Settled(r, hist, blank)
    ensures Quiet(Finalized(r), hist + [Segment(r, SlotOf(|hist| + 1, r.size))], blank)
  {
    WritingSlotOf(r, hist, blank);
    var k := WritingSlot(r);
    var mid := r.(write := r.write[k := false], last := k);
    SameSegments(r, mid);
    assert Tracks(mid, hist, blank) by {
      forall i: nat | i < r.size && i != k ensures SlotHolds(mid, hist, blank, i) {
        assert SlotHolds(r, hist, blank, i);
      }
    }
    CommitCounts(mid, hist, blank, Segment(r, k), Finalized(r));
  }

  /** A full-frame write commits exactly the frame it was given. */
  lemma {:induction false} PublishCommits<T>(r: Ring<T>, hist: seq<seq<T>>, blank: seq<T>, vals: seq<T>)
    requires Settled(r, hist, blank) && |vals| <= r.nelement
    ensures var frame := vals + Segment(r, SlotOf(|hist| + 1, r.size))[|vals|..];
            Quiet(Published(r, vals), hist + [frame], blank)
  {
    var k := SlotOf(|hist| + 1, r.size);
    var filled := Packeted(r, 0, vals);
    PacketKeeps(r, hist, blank, 0, vals);
    assert Segment(filled, k) == vals + Segment(r, k)[|vals|..];
    FinalizeCommits(filled, hist, blank);
  }

  /** Between commits the history determines the whole ring, down to every flag and element. */
  lemma QuietDetermines<T>(r: Ring<T>, r': Ring<T>, hist: seq<seq<T>>, blank: seq<T>)
    requires Quiet(r, hist, blank) && Quiet(r', hist, blank)
    requires r.size == r'.size
    ensures r == r'
  {
    forall i: nat | i < r.size
      ensures r.write[i] == r'.write[i] && r.cnt0[i] == r'.cnt0[i] && Segment(r, i) == Segment(r', i)
    {
      assert SlotHolds(r, hist, blank, i) && SlotHolds(r', hist, blank, i);
    }
    assert r.cnt0 == r'.cnt0 && r.write == r'.write;
    SegmentsDetermineData(r, r');
  }

  /** The stages of a full-frame write: flag raised, values stored, then finalized. */
  lemma {:induction false} PublishStages<T>(r: Ring<T>, hist: seq<seq<T>>, blank: seq<T>, vals: seq<T>)
    requires Settled(r, hist, blank) && |vals| <= r.nelement
    ensures var k := WritingSlot(r);
            var filled := r.(write := r.write[k := true], data := Patch(r, k, 0, vals));
            && k == SlotOf(|hist| + 1, r.size) && Settled(filled, hist, blank)
            && Segment(filled, k) == vals + Segment(r, k)[|vals|..]
            && Finalized(filled) == Published(r, vals)
  {
    var k := WritingSlot(r);
    var flagged := r.(write := r.write[k := true]);
    FlagKeepsSettled(r, hist, blank, true);
    PatchKeeps(flagged, hist, blank, 0, vals);
    var filled := flagged.(data := Patch(flagged, k, 0, vals));
    assert filled == r.(write := r.write[k := true], data := Patch(r, k, 0, vals));
    assert filled.write[k := false] == r.write[k := false];
    assert Segment(flagged, k)[..0] + vals + Segment(flagged, k)[|vals|..] == vals + Segment(r, k)[|vals|..];
  }

  /** Every one of the newest N - 1 frames (all N when the ring is quiet) is whole in its slot. */
  lemma NewestFramesIntact<T>(r: Ring<T>, hist: seq<seq<T>>, blank: seq<T>, w: nat)
    requires Tracks(r, hist, blank)
    requires w <= |hist| < w + r.size
    requires |hist| < w + r.size - 1 || SlotHolds(r, hist, blank, SlotOf(|hist| + 1, r.size))
    ensures r.cnt0[SlotOf(w, r.size)] == w
    ensures !r.write[SlotOf(w, r.size)] && Segment(r, SlotOf(w, r.size)) == FrameAt(hist, blank, w)
  {
    var n := r.size;
    HeldUntilLapped(w, |hist|, n);
    var i := SlotOf(w, n);
    SlotIsNextIff(w, |hist|, n);
    assert SlotHolds(r, hist, blank, i);
  }

  // ---------------------------------------------------------------------------------
  // What the next-segment call promises
  // ---------------------------------------------------------------------------------

  predicate TailOnTrack(written: nat, n: nat, t: Tail)
    requires 0 < n
  {
    t.cnt0 <= written && t.idx == SlotOf(t.cnt0, n)
  }

  /** The promised result, in terms of how far the reader is behind. */
  function Classify(written: nat, n: nat, seen: nat): (res: (Status, Tail))
    requires 0 < n && seen <= written
  {
    var lag := written - seen;
    if lag == 0 then (NotReady, Tail(SlotOf(seen, n), seen))
    else if lag <= n then (Success, Tail(SlotOf(seen + 1, n), seen + 1))
    else (Overwrite, Tail(SlotOf(written, n), written))
  }

  /** The counters the call compares, by lag. */
  lemma ComparedCounts<T>(r: Ring<T>, hist: seq<seq<T>>, blank: seq<T>, t: Tail)
    requires Tracks(r, hist, blank) && TailOnTrack(|hist|, r.size, t)
    ensures var n, W, c := r.size, |hist|, t.cnt0;
            && Succ(t.idx, n) == SlotOf(c + 1, n)
            && (r.cnt0[t.idx] == c <==> W < c + n)
            && (r.cnt0[SlotOf(c + 1, n)] == c + 1 <==> c < W <= c + n)
            && r.cnt0[SlotOf(W, n)] == W
            && r.cnt0[SlotOf(W + 1, n)] == if W < n then 0 else W - n + 1
  {
    var n, W, c := r.size, |hist|, t.cnt0;
    HeldUntilLapped(c, W, n);
    HeldUntilLapped(W, W, n);
    OldestHeld(W, n);
    if c < W { HeldUntilLapped(c + 1, W, n); }
  }

  /** Between commits, or while a frame is being filled, the call is the lag classifier. */
  lemma SettledClassifies<T>(r: Ring<T>, hist: seq<seq<T>>, blank: seq<T>, t: Tail)
    requires Settled(r, hist, blank) && TailOnTrack(|hist|, r.size, t)
    ensures NextSegment(r, t) == Classify(|hist|, r.size, t.cnt0)
  {
    ComparedCounts(r, hist, blank, t);
    if |hist| < t.cnt0 + r.size && t.idx == r.last {
      SameSlotSameFrame(t.cnt0, |hist|, r.size);
    }
  }

  /** ... and the segment it names is the whole frame unless that slot is the one being filled. */
  lemma SettledDelivers<T>(r: Ring<T>, hist: seq<seq<T>>, blank: seq<T>, t: Tail)
    requires Settled(r, hist, blank) && TailOnTrack(|hist|, r.size, t)
    ensures var (status, t') := NextSegment(r, t);
            && (status, t') == Classify(|hist|, r.size, t.cnt0)
            && TailOnTrack(|hist|, r.size, t')
            && (!status.NotReady? && (|hist| < t'.cnt0 + r.size - 1 || Quiet(r, hist, blank)) ==>
                  Segment(r, t'.idx) == FrameAt(hist, blank, t'.cnt0))
  {
    SettledClassifies(r, hist, blank, t);
    var (status, t') := NextSegment(r, t);
    if !status.NotReady? && (|hist| < t'.cnt0 + r.size - 1 || Quiet(r, hist, blank)) {
      NewestFramesIntact(r, hist, blank, t'.cnt0);
    }
  }

  /**
   Between commits the overwrite check passes unless the slot was reused, or is the writing slot
   with its flag up.  What it passes is the whole frame unless that is the writing slot.
   */
  lemma {:induction false} SettledChecks<T>(r: Ring<T>, hist: seq<seq<T>>, blank: seq<T>, t: Tail)
    requires Settled(r, hist, blank) && TailOnTrack(|hist|, r.size, t)
    ensures CheckOverwrite(r, t).Success? <==>
              |hist| < t.cnt0 + r.size && (|hist| < t.cnt0 + r.size - 1 || !r.write[SlotOf(|hist| + 1, r.size)])
    ensures |hist| < t.cnt0 + r.size - 1 ==> Segment(r, t.idx) == FrameAt(hist, blank, t.cnt0)
    ensures |hist| == t.cnt0 + r.size - 1 ==> t.idx == SlotOf(|hist| + 1, r.size)
  {
    HeldUntilLapped(t.cnt0, |hist|, r.size);
    if |hist| < t.cnt0 + r.size {
      SlotIsNextIff(t.cnt0, |hist|, r.size);
      if |hist| < t.cnt0 + r.size - 1 { NewestFramesIntact(r, hist, blank, t.cnt0); }
    }
  }

  /**
   Calling `daoShmTimestampShm` by itself on a quiet ring, as its comment invites, renumbers
   nothing exactly when the ring has at least two slots and a frame has been written.
   */
  lemma StampAloneHarmlessIff<T>(r: Ring<T>, hist: seq<seq<T>>, blank: seq<T>)
    requires Settled(r, hist, blank)
    ensures Stamp(r) == r <==> r.size > 1 && |hist| > 0
  {
    var n, w := r.size, |hist|;
    WritingSlotOf(r, hist, blank);
    if w > 0 {
      HeldUntilLapped(w - 1, w, n);
    } else {
      forall i: nat | i < n ensures LatestIn(w, n, i) == 0 {}
    }
    if r.size > 1 && w > 0 {
      assert r.cnt0[PriorSlot(r)] == w - 1;
      assert r.cnt0[r.last := w] == r.cnt0;
    } else {
      assert Stamp(r).cnt0[r.last] != r.cnt0[r.last];
    }
  }
}
