/** `daoShmCombineShm2Shm`: the sum of the newest frames of many rings, in fixed-width integers. */
module Combine {
  import opened Ring
  import opened SharedImage

  const DAO_MAX_COMBINE_CHANNELS := 1024

  /**
   An integer element type with `modulus` values from `lowest` (0 if unsigned, -modulus/2 if
   signed).  `wraps` is false for the signed types whose overflow C leaves undefined.
   */
  datatype ElementType = ElementType(modulus: nat, lowest: int, wraps: bool) {
    predicate Ok() {
      0 < modulus && (lowest == 0 || 2 * lowest + modulus == 0)
    }

    predicate Fits(x: int) {
      lowest <= x < lowest + modulus
    }

    /** Conversion to the element type, keeping the low bits. */
    function Wrap(x: int): (y: int)
      requires 0 < modulus
      ensures Fits(y)
    {
      (x - lowest) % modulus + lowest
    }
  }

  lemma ModSame(x: int, y: int, n: int, k: int)
    requires 0 < n && y == x + k * n
    ensures y % n == x % n
  {
    assert y == (x / n + k) * n + x % n;
    ModUnique(y, n, x / n + k, x % n);
  }

  /** Truncating at every step is truncating once at the end. */
  lemma WrapAdd(t: ElementType, a: int, b: int)
    requires t.Ok()
    ensures t.Wrap(t.Wrap(a) + b) == t.Wrap(a + b)
  {
    var q := (a - t.lowest) / t.modulus;
    assert a - t.lowest == q * t.modulus + (a - t.lowest) % t.modulus;
    ModSame(t.Wrap(a) + b - t.lowest, a + b - t.lowest, t.modulus, q);
  }

  /** A sum that the element type can represent is not changed at all. */
  lemma WrapFits(t: ElementType, x: int)
    requires t.Ok() && t.Fits(x)
    ensures t.Wrap(x) == x
  {
    ModUnique(x - t.lowest, t.modulus, 0, x - t.lowest);
  }

  /** The exact sum of element p over the first k frames. */
  function ChannelSum(frames: seq<seq<int>>, k: nat, p: nat): int
    requires k <= |frames| && (forall i :: 0 <= i < k ==> p < |frames[i]|)
  {
    if k == 0 then 0 else ChannelSum(frames, k - 1, p) + frames[k - 1][p]
  }

  /** No addition of the inner loop leaves the range of the type. */
  ghost predicate PartialSumsFit(t: ElementType, frames: seq<seq<int>>, nbVal: nat)
    requires forall i :: 0 <= i < |frames| ==> nbVal <= |frames[i]|
  {
    forall k, p :: 0 <= k <= |frames| && 0 <= p < nbVal ==> t.Fits(ChannelSum(frames, k, p))
  }

  /** The inner loop: one output element becomes the wrapped sum over all channels. */
  method SumElement(t: ElementType, inputs: seq<Shm<int>>, output: Shm<int>, offsets: seq<nat>, at: nat, p: nat,
                    ghost frames: seq<seq<int>>)
    requires t.Ok() && |offsets| == |inputs| == |frames| && at < output.data.Length
    requires forall i :: 0 <= i < |inputs| ==>
               && inputs[i].data != output.data && offsets[i] + p < inputs[i].data.Length
               && p < |frames[i]| && inputs[i].data[offsets[i] + p] == frames[i][p]
    modifies output.data
    ensures output.data[..] == old(output.data[..])[at := t.Wrap(ChannelSum(frames, |inputs|, p))]
  {
    output.data[at] := 0;
    WrapFits(t, 0);
    for k := 0 to |inputs|
      invariant output.data[..] == old(output.data[..])[at := t.Wrap(ChannelSum(frames, k, p))]
      invariant forall i :: 0 <= i < |inputs| ==> inputs[i].data[offsets[i] + p] == frames[i][p]
    {
      WrapAdd(t, ChannelSum(frames, k, p), frames[k][p]);
      output.data[at] := t.Wrap(output.data[at] + inputs[k].data[offsets[k] + p]);
    }
  }

  /** Where each input's newest segment starts. */
  method ReadingOffsets(inputs: seq<Shm<int>>) returns (offsets: seq<nat>)
    requires forall i :: 0 <= i < |inputs| ==> inputs[i].Valid()
    ensures |offsets| == |inputs|
    ensures forall i :: 0 <= i < |inputs| ==>
              && inputs[i].Valid() && offsets[i] + inputs[i].nelement <= inputs[i].data.Length
              && inputs[i].data[offsets[i]..offsets[i] + inputs[i].nelement] == inputs[i].NewestSegment()
  {
    offsets := [];
    for k := 0 to |inputs|
      invariant |offsets| == k
      invariant forall i :: 0 <= i < k ==>
                  && inputs[i].Valid() && offsets[i] + inputs[i].nelement <= inputs[i].data.Length
                  && inputs[i].data[offsets[i]..offsets[i] + inputs[i].nelement] == inputs[i].NewestSegment()
    {
      var shm := inputs[k];
      OffsetIsProduct(shm.lastWritten, shm.nelement);
      OffsetsOrdered(shm.lastWritten, shm.fifoSize, shm.nelement);
      offsets := offsets + [shm.nelement * shm.lastWritten];
    }
  }

  /** The two nested loops: the first nbVal elements of the segment at `offset` become the sums. */
  method SumSegment(t: ElementType, inputs: seq<Shm<int>>, output: Shm<int>, offsets: seq<nat>, offset: nat, nbVal: nat,
                    ghost frames: seq<seq<int>>) returns (ghost sums: seq<int>)
    requires t.Ok() && |offsets| == |inputs| == |frames| && offset + nbVal <= output.data.Length
    requires forall i :: 0 <= i < |inputs| ==>
               && inputs[i].data != output.data && nbVal <= |frames[i]|
               && offsets[i] + |frames[i]| <= inputs[i].data.Length
               && inputs[i].data[offsets[i]..offsets[i] + |frames[i]|] == frames[i]
    modifies output.data
    ensures |sums| == nbVal && forall p :: 0 <= p < nbVal ==> sums[p] == t.Wrap(ChannelSum(frames, |inputs|, p))
    ensures output.data[..] == old(output.data[..offset]) + sums + old(output.data[offset + nbVal..])
  {
    sums := [];
    for p := 0 to nbVal
      invariant |sums| == p && forall q :: 0 <= q < p ==> sums[q] == t.Wrap(ChannelSum(frames, |inputs|, q))
      invariant output.data[..] == old(output.data[..offset]) + sums + old(output.data[offset + p..])
      invariant forall i :: 0 <= i < |inputs| ==> inputs[i].data[..] == old(inputs[i].data[..])
    {
      forall i | 0 <= i < |inputs| ensures inputs[i].data[offsets[i] + p] == frames[i][p] {
        assert inputs[i].data[..][offsets[i] + p] == old(inputs[i].data[..])[offsets[i] + p];
        assert frames[i][p] == old(inputs[i].data[offsets[i]..offsets[i] + |frames[i]|])[p];
      }
      SumElement(t, inputs, output, offsets, offset + p, p, frames);
      sums := sums + [t.Wrap(ChannelSum(frames, |inputs|, p))];
    }
  }

  /** The channel sums of the inputs' newest segments, stored at `offset`. */
  method SumNewest(t: ElementType, inputs: seq<Shm<int>>, output: Shm<int>, offset: nat, nbVal: nat,
                   ghost frames: seq<seq<int>>) returns (ghost sums: seq<int>)
    requires t.Ok() && |frames| == |inputs| && offset + nbVal <= output.data.Length
    requires forall i :: 0 <= i < |inputs| ==>
               && inputs[i].Valid() && inputs[i].data != output.data
               && frames[i] == inputs[i].NewestSegment() && nbVal <= |frames[i]|
    modifies output.data
    ensures |sums| == nbVal && forall p :: 0 <= p < nbVal ==> sums[p] == t.Wrap(ChannelSum(frames, |inputs|, p))
    ensures output.data[..] == old(output.data[..offset]) + sums + old(output.data[offset + nbVal..])
  {
    hide SlotOf, LatestIn;
    var offsets := ReadingOffsets(inputs);
    sums := SumSegment(t, inputs, output, offsets, offset, nbVal, frames);
  }

  /** Raise the writing slot's flag, the first thing the call does. */
  method RaiseFlag(output: Shm<int>) returns (offset: nat)
    requires output.Valid()
    modifies output`touched, output.write
    ensures output.Valid() && output.touched
    ensures var k := SlotOf(|output.hist| + 1, output.fifoSize);
            && k == WritingSlot(old(output.State())) && offset == Offset(k, output.nelement)
            && offset + output.nelement <= output.data.Length
            && output.State() == old(output.State()).(write := old(output.write[..])[k := true])
  {
    ghost var was := output.State();
    output.WritingPlace();
    var writingIdx := (output.lastWritten + 1) % output.fifoSize;
    offset := output.nelement * writingIdx;
    output.write[writingIdx] := true;
    FlagKeepsSettled(was, output.hist, output.blank, true);
    output.touched := true;
    assert output.State() == was.(write := was.write[writingIdx := true]);
  }

  /** The newest segments are the newest frames, unless the one slot of a ring is being refilled. */
  lemma NewestFrames(inputs: seq<Shm<int>>, frames: seq<seq<int>>)
    requires |frames| == |inputs|
    requires forall i :: 0 <= i < |inputs| ==> inputs[i].Valid() && frames[i] == inputs[i].NewestSegment()
    ensures forall i :: 0 <= i < |inputs| && (!inputs[i].touched || inputs[i].fifoSize > 1) ==>
              frames[i] == FrameAt(inputs[i].hist, inputs[i].blank, |inputs[i].hist|)
  {
    forall i | 0 <= i < |inputs| && (!inputs[i].touched || inputs[i].fifoSize > 1)
      ensures frames[i] == FrameAt(inputs[i].hist, inputs[i].blank, |inputs[i].hist|)
    {
      inputs[i].NewestFrame();
    }
  }

  /**
   With `frames` the inputs' newest segments, the committed frame is, element by element, their
   wrapped channel sum; beyond nbVal it keeps what the slot held.  Too many channels: ERROR,
   nothing committed, but the writing slot's flag stays raised.
   */
  method CombineShm2Shm(t: ElementType, inputs: seq<Shm<int>>, output: Shm<int>, nbVal: nat,
                        ghost frames: seq<seq<int>>)
    returns (status: Status)
    requires t.Ok() && output.Valid() && nbVal <= output.nelement
    requires |frames| == |inputs|
    requires forall i :: 0 <= i < |inputs| ==>
               && inputs[i].Valid() && inputs[i].Objects() !! output.Objects()
               && frames[i] == inputs[i].NewestSegment() && nbVal <= |frames[i]|
    requires t.wraps || PartialSumsFit(t, frames, nbVal)
    modifies output, output.cnt0, output.write, output.data
    ensures output.Valid()
    ensures forall i :: 0 <= i < |inputs| && (!old(inputs[i].touched) || inputs[i].fifoSize > 1) ==>
              frames[i] == FrameAt(old(inputs[i].hist), inputs[i].blank, |old(inputs[i].hist)|)
    ensures status == if |inputs| > 1024 then Error else Success
    ensures var k := SlotOf(|old(output.hist)| + 1, output.fifoSize);
            if status.Error? then
              && output.hist == old(output.hist)
              && output.State() == old(output.State()).(write := old(output.write[..])[k := true])
            else
              && |output.hist| == |old(output.hist)| + 1 && old(output.hist) <= output.hist
              && var frame := output.hist[|output.hist| - 1];
                 && |frame| == output.nelement
                 && (forall p :: 0 <= p < nbVal ==> frame[p] == t.Wrap(ChannelSum(frames, |inputs|, p)))
                 && frame[nbVal..] == old(Segment(output.State(), k))[nbVal..]
                 && output.State() == Published(old(output.State()), frame[..nbVal])
  {
    hide SlotOf, LatestIn, ChannelSum, Segment, Published, PartialSumsFit;
    ghost var was := output.State();
    NewestFrames(inputs, frames);
    var offset := RaiseFlag(output);
    if |inputs| > DAO_MAX_COMBINE_CHANNELS {
      return Error;
    }
    ghost var sums := SumNewest(t, inputs, output, offset, nbVal, frames);
    CommitSums(output, was, sums);
    return Success;
  }

  /** The commit at the end: what the loops stored becomes the next frame. */
  method CommitSums(output: Shm<int>, ghost was: Ring<int>, ghost sums: seq<int>)
    requires output.Shape() && Settled(was, output.hist, output.blank) && |sums| <= output.nelement
    requires was.nelement == output.nelement
    requires output.State() == was.(write := was.write[WritingSlot(was) := true],
                                    data := Patch(was, WritingSlot(was), 0, sums))
    modifies output, output.cnt0, output.write
    ensures output.Valid() && output.State() == Published(was, sums)
    ensures output.hist == old(output.hist) + [sums + Segment(was, SlotOf(|old(output.hist)| + 1, was.size))[|sums|..]]
  {
    PublishStages(was, output.hist, output.blank, sums);
    output.touched := true;
    output.Finalize();
  }

  /** The stored element is the exact sum exactly when the element type can represent that sum. */
  lemma SumExactIff(t: ElementType, frames: seq<seq<int>>, p: nat)
    requires t.Ok() && (forall i :: 0 <= i < |frames| ==> p < |frames[i]|)
    ensures t.Wrap(ChannelSum(frames, |frames|, p)) == ChannelSum(frames, |frames|, p)
            <==> t.Fits(ChannelSum(frames, |frames|, p))
  {
    var s := ChannelSum(frames, |frames|, p);
    if t.Fits(s) { WrapFits(t, s); }
  }
}
