/** Sending one frame in packets is the same as sending it whole. */
module Packets {
  import opened Ring
  import opened SharedImage

  /** One `daoShmImagePart2Shm` call: where its values go, and its label. */
  datatype Packet<T> = Packet(position: nat, values: seq<T>, id: nat)

  /** Every packet is a slice of the frame; packets may overlap and come in any order. */
  ghost predicate SlicesOf<T>(packets: seq<Packet<T>>, frame: seq<T>) {
    forall i :: 0 <= i < |packets| ==>
      && packets[i].position + |packets[i].values| <= |frame|
      && packets[i].values == frame[packets[i].position..packets[i].position + |packets[i].values|]
  }

  predicate Covered<T>(packets: seq<Packet<T>>, j: nat) {
    exists i :: 0 <= i < |packets| && packets[i].position <= j < packets[i].position + |packets[i].values|
  }

  /** The ring after a sequence of packets. */
  ghost function AfterPackets<T>(r: Ring<T>, packets: seq<Packet<T>>, frame: seq<T>): (r': Ring<T>)
    requires Shaped(r) && |frame| == r.nelement && SlicesOf(packets, frame)
    ensures Shaped(r') && r'.size == r.size && r'.nelement == r.nelement && r'.last == r.last
    decreases |packets|
  {
    if packets == [] then r
    else
      var p := packets[|packets| - 1];
      Packeted(AfterPackets(r, packets[..|packets| - 1], frame), p.position, p.values)
  }

  /** The writing slot holds the frame wherever a packet reached, and nothing else changed. */
  lemma {:induction false} PacketsFill<T>(
      r: Ring<T>, hist: seq<seq<T>>, blank: seq<T>, packets: seq<Packet<T>>, frame: seq<T>)
    requires Settled(r, hist, blank) && |frame| == r.nelement && SlicesOf(packets, frame)
    ensures var r', k := AfterPackets(r, packets, frame), SlotOf(|hist| + 1, r.size);
            && Settled(r', hist, blank)
            && (forall j: nat :: j < r.nelement ==>
                  Segment(r', k)[j] == if Covered(packets, j) then frame[j] else Segment(r, k)[j])
    decreases |packets|
  {
    if packets != [] {
      var before, p := packets[..|packets| - 1], packets[|packets| - 1];
      var mid, k := AfterPackets(r, before, frame), SlotOf(|hist| + 1, r.size);
      PacketsFill(r, hist, blank, before, frame);
      PacketKeeps(mid, hist, blank, p.position, p.values);
      var after := Segment(AfterPackets(r, packets, frame), k);
      assert after == Segment(mid, k)[..p.position] + p.values + Segment(mid, k)[p.position + |p.values|..];
      forall j: nat | j < r.nelement
        ensures after[j] == if Covered(packets, j) then frame[j] else Segment(r, k)[j]
      {
        CoveredByLast(packets, j);
        SliceAt(Segment(mid, k), p, frame, after, j);
      }
    }
  }

  lemma SliceAt<T>(segment: seq<T>, p: Packet<T>, frame: seq<T>, after: seq<T>, j: nat)
    requires p.position + |p.values| <= |frame| == |segment| && j < |frame|
    requires p.values == frame[p.position..p.position + |p.values|]
    requires after == segment[..p.position] + p.values + segment[p.position + |p.values|..]
    ensures after[j] == if p.position <= j < p.position + |p.values| then frame[j] else segment[j]
  {}

  lemma CoveredByLast<T>(packets: seq<Packet<T>>, j: nat)
    requires packets != []
    ensures var p := packets[|packets| - 1];
            Covered(packets, j) <==> Covered(packets[..|packets| - 1], j) || p.position <= j < p.position + |p.values|
  {
    var before := packets[..|packets| - 1];
    if Covered(before, j) {
      var i :| 0 <= i < |before| && before[i].position <= j < before[i].position + |before[i].values|;
      assert packets[i] == before[i];
    }
    if Covered(packets, j) {
      var i :| 0 <= i < |packets| && packets[i].position <= j < packets[i].position + |packets[i].values|;
      assert i < |before| ==> before[i] == packets[i];
    }
  }

  /**
   Packets of one frame that together cover it, then `Finalize`: data, counters, flags and
   `fifo_last_written` are those of one full-frame write.
   */
  lemma {:induction false} PacketsPublish<T>(
      r: Ring<T>, hist: seq<seq<T>>, blank: seq<T>, packets: seq<Packet<T>>, frame: seq<T>)
    requires Settled(r, hist, blank) && |frame| == r.nelement && SlicesOf(packets, frame)
    requires forall j: nat :: j < r.nelement ==> Covered(packets, j)
    ensures Finalized(AfterPackets(r, packets, frame)) == Published(r, frame)
  {
    var r', k := AfterPackets(r, packets, frame), SlotOf(|hist| + 1, r.size);
    PacketsFill(r, hist, blank, packets, frame);
    assert Segment(r', k) == frame;
    FinalizeCommits(r', hist, blank);
    PublishCommits(r, hist, blank, frame);
    assert frame + Segment(r, k)[|frame|..] == frame;
    QuietDetermines(Finalized(r'), Published(r, frame), hist + [frame], blank);
  }

  /** The newest N - 1 frames stay readable while a frame is only partly sent. */
  lemma {:induction false} PartialFrameLeavesOthers<T>(
      r: Ring<T>, hist: seq<seq<T>>, blank: seq<T>, packets: seq<Packet<T>>, frame: seq<T>, w: nat)
    requires Settled(r, hist, blank) && |frame| == r.nelement && SlicesOf(packets, frame)
    requires w <= |hist| < w + r.size - 1
    ensures var r' := AfterPackets(r, packets, frame);
            && r'.cnt0[SlotOf(w, r.size)] == w && !r'.write[SlotOf(w, r.size)]
            && Segment(r', SlotOf(w, r.size)) == FrameAt(hist, blank, w)
  {
    PacketsFill(r, hist, blank, packets, frame);
    NewestFramesIntact(AfterPackets(r, packets, frame), hist, blank, w);
  }

  /**
   The overwrite check while a frame is partly sent: packets clear `write`, so the check passes on
   the slot being filled too.  What it passes there is still the reader's frame exactly when every
   element that a packet reached has the value it had before.
   */
  lemma {:induction false} CheckAmidPackets<T>(
      r: Ring<T>, hist: seq<seq<T>>, blank: seq<T>, packets: seq<Packet<T>>, frame: seq<T>, t: Tail)
    requires Settled(r, hist, blank) && |frame| == r.nelement && SlicesOf(packets, frame) && packets != []
    requires TailOnTrack(|hist|, r.size, t)
    ensures var r', c := AfterPackets(r, packets, frame), t.cnt0;
            && (CheckOverwrite(r', t).Success? <==> |hist| < c + r.size)
            && (|hist| < c + r.size - 1 ==> Segment(r', t.idx) == FrameAt(hist, blank, c))
            && (|hist| == c + r.size - 1 && Quiet(r, hist, blank) ==>
                  (Segment(r', t.idx) == FrameAt(hist, blank, c) <==>
                     forall j: nat :: j < r.nelement && Covered(packets, j) ==> frame[j] == FrameAt(hist, blank, c)[j]))
  {
    var r', c := AfterPackets(r, packets, frame), t.cnt0;
    PacketsFill(r, hist, blank, packets, frame);
    PacketsClearFlag(r, hist, blank, packets, frame);
    SettledChecks(r', hist, blank, t);
    if |hist| == c + r.size - 1 && Quiet(r, hist, blank) {
      SettledChecks(r, hist, blank, t);
      NewestFramesIntact(r, hist, blank, c);
      assert Segment(r, t.idx) == FrameAt(hist, blank, c);
      forall j: nat | j < r.nelement && Covered(packets, j) ensures Segment(r', t.idx)[j] == frame[j] {}
    }
  }

  lemma {:induction false} PacketsClearFlag<T>(
      r: Ring<T>, hist: seq<seq<T>>, blank: seq<T>, packets: seq<Packet<T>>, frame: seq<T>)
    requires Settled(r, hist, blank) && |frame| == r.nelement && SlicesOf(packets, frame) && packets != []
    ensures !AfterPackets(r, packets, frame).write[SlotOf(|hist| + 1, r.size)]
  {
    var before, p := packets[..|packets| - 1], packets[|packets| - 1];
    PacketsFill(r, hist, blank, before, frame);
    PacketKeeps(AfterPackets(r, before, frame), hist, blank, p.position, p.values);
  }

  lemma {:induction false} OneMorePacket<T>(r: Ring<T>, packets: seq<Packet<T>>, i: nat, frame: seq<T>)
    requires Shaped(r) && |frame| == r.nelement && SlicesOf(packets, frame) && i < |packets|
    ensures SlicesOf(packets[..i], frame) && SlicesOf(packets[..i + 1], frame)
    ensures AfterPackets(r, packets[..i + 1], frame)
         == Packeted(AfterPackets(r, packets[..i], frame), packets[i].position, packets[i].values)
  {
    assert packets[..i + 1][..i] == packets[..i];
  }

  /** A writer that sends some packets of a frame. */
  method SendPackets<T>(shm: Shm<T>, packets: seq<Packet<T>>, frameNumber: nat, ghost frame: seq<T>)
    requires shm.Valid() && |frame| == shm.nelement && SlicesOf(packets, frame)
    requires forall i :: 0 <= i < |packets| ==> packets[i].id < MAX_PACKETS
    modifies shm, shm.write, shm.data, shm.packets
    ensures shm.Valid() && shm.hist == old(shm.hist)
    ensures shm.State() == AfterPackets(old(shm.State()), packets, frame)
  {
    hide SlotOf, LatestIn;
    ghost var r, hist := shm.State(), shm.hist;
    for i := 0 to |packets|
      invariant shm.Valid() && shm.hist == hist
      invariant SlicesOf(packets[..i], frame) && shm.State() == AfterPackets(r, packets[..i], frame)
    {
      var p := packets[i];
      OneMorePacket(r, packets, i, frame);
      assert p.values[..|p.values|] == p.values;
      var _ := shm.ImagePart2Shm(p.values, |p.values|, p.position, p.id, |packets|, frameNumber);
    }
    assert packets[..|packets|] == packets;
  }

  /** A reader's check while a frame is partly sent, on the arrays. */
  method CheckWhileSending<T>(image: Image<T>, packets: seq<Packet<T>>, frameNumber: nat, ghost frame: seq<T>)
    returns (status: Status)
    requires image.Valid() && |frame| == image.shm.nelement && SlicesOf(packets, frame) && packets != []
    requires forall i :: 0 <= i < |packets| ==> packets[i].id < MAX_PACKETS
    modifies image.shm, image.shm.write, image.shm.data, image.shm.packets
    ensures image.Valid() && image.shm.hist == old(image.shm.hist) && image.Position() == old(image.Position())
    ensures status.Success? <==> |image.shm.hist| < image.fifoLastReadCnt0 + image.shm.fifoSize
    ensures var c, seen := image.fifoLastReadCnt0, FrameAt(image.shm.hist, image.shm.blank, image.fifoLastReadCnt0);
            && (|image.shm.hist| < c + image.shm.fifoSize - 1 ==>
                  Segment(image.shm.State(), image.fifoLastRead) == seen)
            && (|image.shm.hist| == c + image.shm.fifoSize - 1 && !old(image.shm.touched) ==>
                  (Segment(image.shm.State(), image.fifoLastRead) == seen <==>
                     forall j: nat :: j < |frame| && Covered(packets, j) ==> frame[j] == seen[j]))
  {
    CheckAmidPackets(image.shm.State(), image.shm.hist, image.shm.blank, packets, frame, image.Position());
    SendPackets(image.shm, packets, frameNumber, frame);
    status := image.CheckSegmentOverwrite();
  }

  /** A writer that sends a frame packet by packet and then finalizes. */
  method SendInPackets<T>(shm: Shm<T>, packets: seq<Packet<T>>, frameNumber: nat, ghost frame: seq<T>)
    requires shm.Valid() && |frame| == shm.nelement && SlicesOf(packets, frame)
    requires forall i :: 0 <= i < |packets| ==> packets[i].id < MAX_PACKETS
    requires forall j: nat :: j < shm.nelement ==> Covered(packets, j)
    modifies shm, shm.cnt0, shm.write, shm.data, shm.packets
    ensures shm.Valid() && !shm.touched
    ensures shm.State() == Published(old(shm.State()), frame)
    ensures shm.hist == old(shm.hist) + [frame]
  {
    ghost var r, hist := shm.State(), shm.hist;
    SendPackets(shm, packets, frameNumber, frame);
    PacketsFill(r, hist, shm.blank, packets, frame);
    assert Segment(shm.State(), SlotOf(|hist| + 1, shm.fifoSize)) == frame;
    PacketsPublish(r, hist, shm.blank, packets, frame);
    shm.Finalize();
  }
}
