/**
 The shared memory as the C code holds it: metadata copies and one flat data array, updated in
 place.  A ghost history of committed frames ties the arrays to the ring of module Ring, and each
 method is proved to compute the corresponding function on it.  A method runs between the
 writer's commits; interleaving inside one is the subject of RingProtocol and ReaderRuns.
 */
module SharedImage {
  import opened Ring
  import opened Wrappers

  /** `lastPos`, `lastNb`, `packetNb`, `packetTotal` and `lastNbArray` of one metadata copy. */
  datatype PacketInfo = PacketInfo(lastPos: nat, lastNb: nat, packetNb: nat, packetTotal: nat, frameNumbers: seq<nat>)

  const MAX_PACKETS := 512

  /** The memory-mapped region, shared by the writer and every reader. */
  class Shm<T> {
    const fifoSize: nat
    const nelement: nat
    const cnt0: array<nat>
    const write: array<bool>
    const data: array<T>
    const packets: array<PacketInfo>
    var lastWritten: nat

    ghost const blank: seq<T>
    ghost var hist: seq<seq<T>>
    ghost var touched: bool // something was stored in the writing slot since the last commit

    ghost predicate Shape()
      reads this, cnt0, write, data, packets
    {
      && cnt0 as object != packets && cnt0 as object != data && packets as object != data && write as object != data
      && 0 < fifoSize == cnt0.Length == write.Length == packets.Length
      && data.Length == Offset(fifoSize, nelement)
      && lastWritten < fifoSize
      && (forall i :: 0 <= i < packets.Length ==> |packets[i].frameNumbers| == MAX_PACKETS)
    }

    /** The ring that the arrays represent. */
    ghost function State(): (r: Ring<T>)
      requires Shape()
      reads this, cnt0, write, data, packets
      ensures Shaped(r)
    {
      Ring(fifoSize, nelement, cnt0[..], write[..], data[..], lastWritten)
    }

    /** Everything the region consists of. */
    ghost function Objects(): set<object> {
      {this, cnt0, write, data, packets}
    }

    /** The data of the last written slot. */
    ghost function NewestSegment(): (s: seq<T>)
      requires Shape()
      reads this, cnt0, write, data, packets
      ensures |s| == nelement
    {
      Segment(State(), lastWritten)
    }

    ghost predicate Valid()
      reads this, cnt0, write, data, packets
    {
      && Shape()
      && Settled(State(), hist, blank)
      && (!touched ==> Quiet(State(), hist, blank))
    }

    /** `daoShmImageCreate_FIFO`: zeroed counters, flags and data, `fifo_last_written` at the end. */
    constructor (size: nat, count: nat, zero: T)
      requires 0 < size
      ensures Valid() && !touched && hist == []
      ensures fifoSize == size && nelement == count && blank == seq(count, i => zero)
      ensures fresh(cnt0) && fresh(write) && fresh(data) && fresh(packets)
    {
      fifoSize, nelement := size, count;
      cnt0 := new nat[size](i => 0);
      write := new bool[size](i => false);
      OffsetIsProduct(size, count);
      data := new T[size * count](i => zero);
      packets := new PacketInfo[size](i => PacketInfo(0, 0, 0, 0, seq(MAX_PACKETS, k => 0)));
      lastWritten := size - 1;
      blank := seq(count, i => zero);
      hist, touched := [], false;
      new;
      forall i: nat | i < size ensures SlotHolds(State(), [], blank, i) {
        OffsetsOrdered(i, size, count);
        assert Segment(State(), i) == blank;
      }
    }

    /** The index the writer uses, and the place of its segment in the data array. */
    lemma WritingPlace()
      requires Valid()
      ensures (lastWritten + 1) % fifoSize == WritingSlot(State()) == SlotOf(|hist| + 1, fifoSize)
      ensures nelement * WritingSlot(State()) == Offset(WritingSlot(State()), nelement)
      ensures Offset(WritingSlot(State()), nelement) + nelement <= data.Length
    {
      SuccIsMod(lastWritten, fifoSize);
      WritingSlotOf(State(), hist, blank);
      OffsetIsProduct(WritingSlot(State()), nelement);
      OffsetsOrdered(WritingSlot(State()), fifoSize, nelement);
    }

    /** `memcpy` of the first nbVal values to offset `at`. */
    method CopyIn(at: nat, im: seq<T>, nbVal: nat)
      requires nbVal <= |im| && at + nbVal <= data.Length
      modifies data
      ensures data[..] == old(data[..at]) + im[..nbVal] + old(data[at + nbVal..])
    {
      for k := 0 to nbVal
        invariant data[..] == old(data[..at]) + im[..k] + old(data[at + k..])
      {
        data[at + k] := im[k];
      }
    }

    /** `daoShmTimestampShm`. */
    method Timestamp()
      requires Shape()
      modifies cnt0
      ensures Shape() && State() == Stamp(old(State()))
    {
      var prior := if lastWritten == 0 then fifoSize - 1 else lastWritten - 1;
      cnt0[lastWritten] := cnt0[prior] + 1;
    }

    /** `daoShmImagePart2ShmFinalize`: commit what the writing slot holds (semaphores: see Semaphores). */
    method Finalize()
      requires Valid()
      modifies this, cnt0, write
      ensures Valid() && !touched
      ensures State() == Finalized(old(State()))
      ensures hist == old(hist) + [old(Segment(State(), SlotOf(|hist| + 1, fifoSize)))]
    {
      WritingPlace();
      ghost var was := State();
      var writingIdx := (lastWritten + 1) % fifoSize;
      write[writingIdx] := false;
      lastWritten := writingIdx;
      Timestamp();
      assert State() == Finalized(was);
      FinalizeCommits(was, hist, blank);
      hist, touched := hist + [Segment(was, SlotOf(|hist| + 1, fifoSize))], false;
    }

    /** `daoShmImage2Shm`. */
    method Image2Shm(im: seq<T>, nbVal: nat) returns (status: Status)
      requires Valid() && nbVal <= |im| && nbVal <= nelement
      modifies this, cnt0, write, data
      ensures Valid() && !touched && status == Success
      ensures State() == Published(old(State()), im[..nbVal])
      ensures hist == old(hist) + [im[..nbVal] + old(Segment(State(), SlotOf(|hist| + 1, fifoSize)))[nbVal..]]
      ensures nbVal == nelement ==> hist == old(hist) + [im[..nbVal]]
    {
      WritingPlace();
      ghost var was := State();
      var writingIdx := (lastWritten + 1) % fifoSize;
      var offset := nelement * writingIdx;
      write[writingIdx] := true;
      CopyIn(offset, im, nbVal);
      PublishStages(was, hist, blank, im[..nbVal]);
      assert State() == was.(write := was.write[writingIdx := true], data := Patch(was, writingIdx, 0, im[..nbVal]));
      touched := true;
      Finalize();
      status := Success;
    }

    /** `daoShmImagePart2Shm`: one packet of a frame; nothing is committed. */
    method ImagePart2Shm(im: seq<T>, nbVal: nat, position: nat, packetId: nat, packetTotal: nat, frameNumber: nat)
      returns (status: Status)
      requires Valid() && nbVal <= |im| && position + nbVal <= nelement && packetId < MAX_PACKETS
      modifies this, write, data, packets
      ensures Valid() && status == Success && hist == old(hist)
      ensures State() == Packeted(old(State()), position, im[..nbVal])
      ensures var k := SlotOf(|hist| + 1, fifoSize);
              packets[..] == old(packets[..])[k := PacketInfo(position, nbVal, packetId, packetTotal,
                                                             old(packets[k]).frameNumbers[packetId := frameNumber])]
    {
      WritingPlace();
      ghost var was := State();
      var writingIdx := (lastWritten + 1) % fifoSize;
      var offset := nelement * writingIdx;
      write[writingIdx] := true;
      CopyIn(position + offset, im, nbVal);
      packets[writingIdx] := PacketInfo(position, nbVal, packetId, packetTotal,
                                        packets[writingIdx].frameNumbers[packetId := frameNumber]);
      write[writingIdx] := false;
      assert State() == Packeted(was, position, im[..nbVal]);
      PacketKeeps(was, hist, blank, position, im[..nbVal]);
      touched := true;
      status := Success;
    }

    /** The newest frame as `get_counter` and the newest-segment call find it. */
    lemma NewestFrame()
      requires Valid()
      ensures lastWritten == SlotOf(|hist|, fifoSize) && cnt0[lastWritten] == |hist|
      ensures !touched || fifoSize > 1 ==> Segment(State(), lastWritten) == FrameAt(hist, blank, |hist|)
    {
      WritingSlotOf(State(), hist, blank);
      if !touched || fifoSize > 1 { NewestFramesIntact(State(), hist, blank, |hist|); }
    }
  }

  /** A process's own handle: a pointer to the shared memory and the private reading tail. */
  class Image<T> {
    const shm: Shm<T>
    var fifoLastRead: nat
    var fifoLastReadCnt0: nat

    ghost predicate Valid()
      reads this, shm, shm.cnt0, shm.write, shm.data, shm.packets
    {
      && shm.Valid()
      && fifoLastReadCnt0 <= |shm.hist|
      && fifoLastRead == SlotOf(fifoLastReadCnt0, shm.fifoSize)
    }

    ghost function Position(): Tail
      reads this
    {
      Tail(fifoLastRead, fifoLastReadCnt0)
    }

    /** `daoShmShm2Img`: open an existing shared memory; the tail starts at the newest frame. */
    constructor (shm: Shm<T>)
      requires shm.Valid()
      ensures this.shm == shm && Valid() && fifoLastReadCnt0 == |shm.hist|
    {
      this.shm := shm;
      fifoLastRead := shm.lastWritten;
      fifoLastReadCnt0 := shm.cnt0[shm.lastWritten];
      new;
      shm.NewestFrame();
    }

    /** What a pointer to the segment of slot `idx` points at. */
    ghost predicate PointsAt(segment: nat, idx: nat)
      requires shm.Valid()
      reads this, shm, shm.cnt0, shm.write, shm.data, shm.packets
    {
      && idx < shm.fifoSize && segment + shm.nelement <= shm.data.Length
      && shm.data[segment..segment + shm.nelement] == Segment(shm.State(), idx)
    }

    /** The pointer arithmetic that every segment call ends with. */
    method SegmentPointer(idx: nat) returns (segment: nat)
      requires shm.Valid() && idx < shm.fifoSize
      ensures PointsAt(segment, idx)
    {
      OffsetIsProduct(idx, shm.nelement);
      OffsetsOrdered(idx, shm.fifoSize, shm.nelement);
      segment := idx * shm.nelement;
    }

    /** `daoShmGetNextSegment`; the out-parameters stay unset when the result is NOTREADY. */
    method GetNextSegment() returns (status: Status, out: Option<(nat, Tail)>)
      requires Valid()
      modifies this
      ensures Valid()
      ensures (status, Position()) == NextSegment(shm.State(), old(Position()))
      ensures (status, Position()) == Classify(|shm.hist|, shm.fifoSize, old(fifoLastReadCnt0))
      ensures out.Some? <==> status != NotReady
      ensures out.Some? ==> out.value.1 == Position() && PointsAt(out.value.0, fifoLastRead)
      ensures out.Some? && (!shm.touched || |shm.hist| < fifoLastReadCnt0 + shm.fifoSize - 1) ==>
                Segment(shm.State(), fifoLastRead) == FrameAt(shm.hist, shm.blank, fifoLastReadCnt0)
    {
      hide SlotOf, LatestIn;
      SuccIsMod(fifoLastRead, shm.fifoSize);
      SettledDelivers(shm.State(), shm.hist, shm.blank, Position());
      var nextIdx := (fifoLastRead + 1) % shm.fifoSize;
      var nextCnt0 := fifoLastReadCnt0 + 1;
      if fifoLastRead == shm.lastWritten && fifoLastReadCnt0 == shm.cnt0[fifoLastRead] {
        return NotReady, None;
      }
      status := Success;
      if shm.cnt0[nextIdx] != nextCnt0 {
        status := Overwrite;
        nextIdx := shm.lastWritten;
        nextCnt0 := shm.cnt0[nextIdx];
      }
      var segment := SegmentPointer(nextIdx);
      out := Some((segment, Tail(nextIdx, nextCnt0)));
      fifoLastRead := nextIdx;
      fifoLastReadCnt0 := nextCnt0;
    }

    /** `daoShmGetNewestSegment`. */
    method GetNewestSegment() returns (segment: nat, idx: nat, count: nat)
      requires shm.Valid()
      ensures Tail(idx, count) == Newest(shm.State()) && count == |shm.hist| && PointsAt(segment, idx)
      ensures !shm.touched || shm.fifoSize > 1 ==>
                shm.data[segment..segment + shm.nelement] == FrameAt(shm.hist, shm.blank, |shm.hist|)
    {
      shm.NewestFrame();
      idx := shm.lastWritten;
      count := shm.cnt0[idx];
      segment := SegmentPointer(idx);
    }

    /** `daoShmGetArbitrarySegment`: any index lands on a whole segment. */
    method GetArbitrarySegment(fifoIdx: nat) returns (segment: nat)
      requires shm.Valid()
      ensures PointsAt(segment, fifoIdx % shm.fifoSize)
    {
      var actualIdx := fifoIdx % shm.fifoSize;
      segment := SegmentPointer(actualIdx);
    }

    /**
     `daoShmCheckSegmentOverwrite`: passes iff the slot was not reused, and is not the writing slot
     with its flag up.  The segment is then the whole frame, unless values were stored into it.
     */
    method CheckSegmentOverwrite() returns (status: Status)
      requires Valid()
      ensures status == CheckOverwrite(shm.State(), Position())
      ensures status.Success? <==>
                && |shm.hist| < fifoLastReadCnt0 + shm.fifoSize
                && (|shm.hist| < fifoLastReadCnt0 + shm.fifoSize - 1 || !shm.write[fifoLastRead])
      ensures !shm.touched ==> (status.Success? <==> |shm.hist| < fifoLastReadCnt0 + shm.fifoSize)
      ensures status.Success? && (!shm.touched || |shm.hist| < fifoLastReadCnt0 + shm.fifoSize - 1) ==>
                Segment(shm.State(), fifoLastRead) == FrameAt(shm.hist, shm.blank, fifoLastReadCnt0)
    {
      SettledChecks(shm.State(), shm.hist, shm.blank, Position());
      if !shm.touched && |shm.hist| < fifoLastReadCnt0 + shm.fifoSize {
        NewestFramesIntact(shm.State(), shm.hist, shm.blank, fifoLastReadCnt0);
      }
      status := Success;
      if shm.write[fifoLastRead] || shm.cnt0[fifoLastRead] != fifoLastReadCnt0 {
        status := Overwrite;
      }
    }

    /** `daoShmResetTail`. */
    method ResetTail() returns (idx: nat, count: nat)
      requires shm.Valid()
      modifies this
      ensures Valid() && Position() == Tail(idx, count) == Newest(shm.State()) && count == |shm.hist|
    {
      shm.NewestFrame();
      idx := shm.lastWritten;
      count := shm.cnt0[idx];
      fifoLastRead, fifoLastReadCnt0 := idx, count;
    }
  }
}
