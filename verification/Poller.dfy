/**
 The map-update thread of the Python component: it polls the counter of each shared memory and
 copies a new frame into a double buffer, while writers go on committing.
 */
module Poller {
  import opened Ring
  import opened SharedImage
  import opened Waiting
  import opened Wrappers

  class DoubleBuffer<D> {
    var buffer1: Option<D>
    var buffer2: Option<D>
    var currentBuffer: int
    var newData: bool

    constructor ()
      ensures Readable() == None && !newData && Valid()
    {
      buffer1, buffer2, currentBuffer, newData := None, None, 1, false;
    }

    ghost predicate Valid()
      reads this
    {
      currentBuffer == 1 || currentBuffer == 2
    }

    /** What `read` returns. */
    ghost function Readable(): Option<D>
      reads this
    {
      if currentBuffer == 1 then buffer2 else buffer1
    }

    /** The buffer the next write goes to. */
    ghost function Hidden(): Option<D>
      reads this
    {
      if currentBuffer == 1 then buffer1 else buffer2
    }

    /** The new data becomes readable; what a reader holds from before is not overwritten by it. */
    method Write(data: D)
      requires Valid()
      modifies this
      ensures Valid() && newData
      ensures Readable() == Some(data) && Hidden() == old(Readable())
    {
      if currentBuffer == 1 {
        buffer1 := Some(data);
        currentBuffer := 2;
      } else {
        buffer2 := Some(data);
        currentBuffer := 1;
      }
      newData := true;
    }

    /** Reading twice without a write between gives the same data. */
    method Read() returns (data: Option<D>)
      requires Valid()
      modifies this
      ensures Valid() && !newData
      ensures data == Readable() == old(Readable()) && Hidden() == old(Hidden())
    {
      newData := false;
      data := if currentBuffer == 1 then buffer2 else buffer1;
    }
  }

  /** One entry of `update_map_list`: the counter last recorded, the shared memory, the buffer. */
  class UpdateItem<T> {
    var counter: nat
    const image: Image<T>
    const buffer: DoubleBuffer<seq<T>>
    ghost var shown: nat // the number of the frame in the readable buffer

    constructor (image: Image<T>, buffer: DoubleBuffer<seq<T>>)
      ensures this.image == image && this.buffer == buffer && counter == 0
    {
      this.image, this.buffer, counter, shown := image, buffer, 0, 0;
    }

    /** The objects that the item's writer and the poller change. */
    ghost function Footprint(): set<object> {
      {this, buffer} + image.shm.Objects()
    }

    /** The newest frame can be copied out whole: no packets are in the only slot of its ring. */
    ghost predicate Ready()
      reads Footprint()
    {
      image.shm.Valid() && (!image.shm.touched || image.shm.fifoSize > 1) && buffer.Valid()
    }

    /** The readable frame is a committed one, numbered at least the recorded counter. */
    ghost predicate Fresh()
      reads Footprint()
    {
      && Ready()
      && counter <= shown <= |image.shm.hist|
      && buffer.Readable() == Some(FrameAt(image.shm.hist, image.shm.blank, shown))
    }

    /** The readable frame is the newest. */
    ghost predicate ShowsNewest()
      reads Footprint()
    {
      buffer.Readable() == Some(FrameAt(image.shm.hist, image.shm.blank, |image.shm.hist|))
    }

    /** `get_counter` (metadata of the newest segment). */
    method GetCounter() returns (count: nat)
      requires image.shm.Valid()
      ensures count == |image.shm.hist|
    {
      var _, _, c := image.GetNewestSegment();
      count := c;
    }

    /** `get_data`: a copy of the newest segment. */
    method GetData() returns (data: seq<T>)
      requires Ready()
      ensures data == FrameAt(image.shm.hist, image.shm.blank, |image.shm.hist|)
    {
      var segment, _, _ := image.GetNewestSegment();
      data := image.shm.data[segment..segment + image.shm.nelement];
    }

    /** Record the counter, then copy the data; the writer may commit in between. */
    method Refresh(between: seq<seq<T>>)
      requires Ready() && FramesFit(between, image.shm.nelement)
      modifies this, buffer, image.shm, image.shm.cnt0, image.shm.write, image.shm.data
      ensures Fresh() && image.shm.hist == old(image.shm.hist) + between
      ensures counter == |old(image.shm.hist)| && shown == |image.shm.hist|
      ensures buffer.Hidden() == old(buffer.Readable()) && buffer.newData
    {
      counter := GetCounter();
      CommitAll(image.shm, between);
      var data := GetData();
      buffer.Write(data);
      shown := |image.shm.hist|;
    }

    /** Later commits leave what is shown alone. */
    method CommitLater(frames: seq<seq<T>>)
      requires Fresh() && FramesFit(frames, image.shm.nelement)
      modifies image.shm, image.shm.cnt0, image.shm.write, image.shm.data
      ensures Fresh() && image.shm.hist == old(image.shm.hist) + frames
    {
      CommitAll(image.shm, frames);
      assert FrameAt(image.shm.hist, image.shm.blank, shown) == FrameAt(old(image.shm.hist), image.shm.blank, shown);
    }

    /** The three accesses of a visit, with commits before each: afterwards the newest frame is shown. */
    method Look(round: Round<T>)
      requires Fresh() && RoundFits(round, image.shm.nelement)
      modifies this, buffer, image.shm, image.shm.cnt0, image.shm.write, image.shm.data
      ensures Fresh() && shown == |image.shm.hist|
      ensures old(image.shm.hist) + round.first <= image.shm.hist
      ensures Silent(round) ==> image.shm.hist == old(image.shm.hist)
      ensures old(counter) <= counter && old(shown) <= shown
      ensures counter == if |old(image.shm.hist)| + |round.first| > old(counter)
                         then |old(image.shm.hist)| + |round.first| + |round.second| else old(counter)
      ensures |old(image.shm.hist)| + |round.first| > old(counter) ==>
                buffer.newData && buffer.Hidden() == old(buffer.Readable())
      ensures |old(image.shm.hist)| + |round.first| <= old(counter) ==>
                buffer.Readable() == old(buffer.Readable()) && buffer.Hidden() == old(buffer.Hidden())
    {
      hide SlotOf, LatestIn;
      CommitLater(round.first);
      var count := GetCounter();
      if count > counter {
        CommitAll(image.shm, round.second);
        Refresh(round.third);
      }
    }

    /** One visit of the polling loop, with commits after it too. */
    method Visit(round: Round<T>)
      requires Fresh() && RoundFits(round, image.shm.nelement)
      modifies this, buffer, image.shm, image.shm.cnt0, image.shm.write, image.shm.data
      ensures Fresh() && old(image.shm.hist) + round.first <= image.shm.hist
      ensures shown == |image.shm.hist| - |round.last|
      ensures Silent(round) ==> image.shm.hist == old(image.shm.hist)
      ensures old(counter) <= counter && old(shown) <= shown
      ensures counter == if |old(image.shm.hist)| + |round.first| > old(counter)
                         then |old(image.shm.hist)| + |round.first| + |round.second| else old(counter)
      ensures |old(image.shm.hist)| + |round.first| > old(counter) ==>
                buffer.newData && buffer.Hidden() == old(buffer.Readable())
      ensures |old(image.shm.hist)| + |round.first| <= old(counter) ==>
                buffer.Readable() == old(buffer.Readable()) && buffer.Hidden() == old(buffer.Hidden())
    {
      hide SlotOf, LatestIn;
      Look(round);
      CommitLater(round.last);
    }
  }

  /** The frames committed during one visit, by the accesses they fall between. */
  datatype Round<T> = Round(first: seq<seq<T>>, second: seq<seq<T>>, third: seq<seq<T>>, last: seq<seq<T>>)

  predicate RoundFits<T>(round: Round<T>, nelement: nat) {
    && FramesFit(round.first, nelement) && FramesFit(round.second, nelement)
    && FramesFit(round.third, nelement) && FramesFit(round.last, nelement)
  }

  predicate Silent<T>(round: Round<T>) {
    round.first == [] && round.second == [] && round.third == [] && round.last == []
  }

  /** The items have buffers of their own; two of them may watch the same shared memory. */
  ghost predicate Separate<T>(items: seq<UpdateItem<T>>) {
    && (forall i, j :: 0 <= i < j < |items| ==> items[i] != items[j] && items[i].buffer != items[j].buffer)
    && (forall i, j :: 0 <= i < j < |items| ==>
          items[i].image.shm == items[j].image.shm || items[i].image.shm.Objects() !! items[j].image.shm.Objects())
  }

  ghost predicate Within<T>(items: seq<UpdateItem<T>>, objects: set<object>) {
    forall i :: 0 <= i < |items| ==> items[i].Footprint() <= objects
  }

  ghost predicate PassFits<T>(items: seq<UpdateItem<T>>, pass: seq<Round<T>>) {
    |pass| == |items| && forall i :: 0 <= i < |items| ==> RoundFits(pass[i], items[i].image.shm.nelement)
  }

  /** After the visit to item i and up to that of `done`, nobody commits to its shared memory. */
  ghost predicate Undisturbed<T>(items: seq<UpdateItem<T>>, pass: seq<Round<T>>, i: nat, done: nat)
    requires i < done <= |items| == |pass|
  {
    pass[i].last == [] &&
    forall j :: i < j < done && items[j].image.shm == items[i].image.shm ==> Silent(pass[j])
  }

  /** The item is ready; fresh if it was filled; and if a pass visited it undisturbed, it shows the newest frame. */
  ghost predicate Reached<T>(items: seq<UpdateItem<T>>, i: nat, filled: bool, pass: seq<Round<T>>, done: nat)
    requires i < |items| && (pass == [] || (|pass| == |items| && i < done <= |items|))
    reads items[i].Footprint()
  {
    && items[i].Ready()
    && (filled ==> items[i].Fresh())
    && (pass != [] && Undisturbed(items, pass, i, done) ==> items[i].shown == |items[i].image.shm.hist|)
  }

  /** What a step on another item leaves of this one. */
  twostate predicate Kept<T>(item: UpdateItem<T>)
    reads item.Footprint()
  {
    && (old(item.Ready()) ==> item.Ready()) && (old(item.Fresh()) ==> item.Fresh())
    && old(item.shown) == item.shown && old(item.image.shm.hist) <= item.image.shm.hist
  }

  /** `Refresh` within the list. */
  method RefreshOne<T>(items: seq<UpdateItem<T>>, k: nat, between: seq<seq<T>>)
    requires Separate(items) && k < |items| && FramesFit(between, items[k].image.shm.nelement)
    requires items[k].Ready()
    modifies items[k].Footprint()
    ensures items[k].Fresh()
    ensures forall i :: 0 <= i < |items| && i != k ==> Kept(items[i])
  {
    hide SlotOf, LatestIn;
    items[k].Refresh(between);
  }

  /** `Visit` within the list. */
  method VisitOne<T>(items: seq<UpdateItem<T>>, k: nat, pass: seq<Round<T>>)
    requires Separate(items) && k < |items| && PassFits(items, pass) && items[k].Fresh()
    modifies items[k].Footprint()
    ensures items[k].Fresh() && (pass[k].last == [] ==> items[k].shown == |items[k].image.shm.hist|)
    ensures forall i :: 0 <= i < |items| && i != k ==> Kept(items[i])
    ensures forall i :: 0 <= i < |items| && i != k && (items[i].image.shm != items[k].image.shm || Silent(pass[k])) ==>
              items[i].image.shm.hist == old(items[i].image.shm.hist)
  {
    hide SlotOf, LatestIn;
    items[k].Visit(pass[k]);
  }

  /** One step of the first loop. */
  method RefreshAt<T>(items: seq<UpdateItem<T>>, k: nat, between: seq<seq<T>>)
    requires Separate(items) && k < |items| && FramesFit(between, items[k].image.shm.nelement)
    requires forall i :: 0 <= i < k ==> Reached(items, i, true, [], 0)
    requires forall i :: k <= i < |items| ==> Reached(items, i, false, [], 0)
    modifies items[k].Footprint()
    ensures forall i :: 0 <= i < k + 1 ==> Reached(items, i, true, [], 0)
    ensures forall i :: k + 1 <= i < |items| ==> Reached(items, i, false, [], 0)
  {
    hide SlotOf, LatestIn;
    assert Reached(items, k, false, [], 0);
    RefreshOne(items, k, between);
    forall i | 0 <= i < k ensures Reached(items, i, true, [], 0) {
      assert old(Reached(items, i, true, [], 0)) && Kept(items[i]);
    }
    forall i | k < i < |items| ensures Reached(items, i, false, [], 0) {
      assert old(Reached(items, i, false, [], 0)) && Kept(items[i]);
    }
  }

  /** One step of a pass. */
  method VisitAt<T>(items: seq<UpdateItem<T>>, k: nat, pass: seq<Round<T>>, ghost done: nat)
    requires Separate(items) && k + 1 == done <= |items| && PassFits(items, pass)
    requires forall i :: 0 <= i < k ==> Reached(items, i, true, pass, k)
    requires forall i :: k <= i < |items| ==> Reached(items, i, true, [], 0)
    modifies items[k].Footprint()
    ensures forall i :: 0 <= i < done ==> Reached(items, i, true, pass, done)
    ensures forall i :: done <= i < |items| ==> Reached(items, i, true, [], 0)
  {
    hide SlotOf, LatestIn;
    assert Reached(items, k, true, [], 0);
    VisitOne(items, k, pass);
    forall i | 0 <= i < k ensures Reached(items, i, true, pass, done) {
      assert old(Reached(items, i, true, pass, k)) && Kept(items[i]);
    }
    forall i | k < i < |items| ensures Reached(items, i, true, [], 0) {
      assert old(Reached(items, i, true, [], 0)) && Kept(items[i]);
    }
  }

  /** The loop before the polling starts: every buffer gets its first frame. */
  method FillAll<T>(items: seq<UpdateItem<T>>, between: seq<seq<seq<T>>>, ghost objects: set<object>)
    requires Separate(items) && Within(items, objects)
    requires forall i :: 0 <= i < |items| ==> Reached(items, i, false, [], 0)
    requires |between| == |items| && forall i :: 0 <= i < |items| ==> FramesFit(between[i], items[i].image.shm.nelement)
    modifies objects
    ensures forall i :: 0 <= i < |items| ==> Reached(items, i, true, [], 0)
  {
    hide Reached, SlotOf, LatestIn;
    for k := 0 to |items|
      invariant forall i :: 0 <= i < k ==> Reached(items, i, true, [], 0)
      invariant forall i :: k <= i < |items| ==> Reached(items, i, false, [], 0)
    {
      RefreshAt(items, k, between[k]);
    }
  }

  /** One pass over the list. */
  method PollAll<T>(items: seq<UpdateItem<T>>, pass: seq<Round<T>>, ghost objects: set<object>)
    requires Separate(items) && Within(items, objects) && PassFits(items, pass)
    requires forall i :: 0 <= i < |items| ==> Reached(items, i, true, [], 0)
    modifies objects
    ensures forall i :: 0 <= i < |items| ==> Reached(items, i, true, pass, |items|)
  {
    hide Reached, Undisturbed, RoundFits, SlotOf, LatestIn;
    for k := 0 to |items|
      invariant forall i :: 0 <= i < k ==> Reached(items, i, true, pass, k)
      invariant forall i :: k <= i < |items| ==> Reached(items, i, true, [], 0)
    {
      VisitAt(items, k, pass, k + 1);
    }
  }

  lemma ReachedForget<T>(items: seq<UpdateItem<T>>, i: nat, pass: seq<Round<T>>)
    requires i < |items| == |pass| && Reached(items, i, true, pass, |items|)
    ensures Reached(items, i, true, [], 0)
  {}

  /** What a pass leaves of an item. */
  lemma PolledShowsNewest<T>(items: seq<UpdateItem<T>>, i: nat, pass: seq<Round<T>>)
    requires i < |items| == |pass| && Reached(items, i, true, pass, |items|)
    ensures items[i].Fresh()
    ensures Undisturbed(items, pass, i, |items|) ==> items[i].ShowsNewest()
  {}

  lemma ReadyIsReached<T>(items: seq<UpdateItem<T>>, i: nat)
    requires i < |items| && items[i].Ready()
    ensures Reached(items, i, false, [], 0)
  {}

  /**
   `updateThread`, where the stop event is first seen set after the pass `final`: every item shows a
   committed frame, no older than its recorded counter, and the newest one if nobody committed to
   its shared memory after the last visit.
   */
  method UpdateThread<T>(items: seq<UpdateItem<T>>, between: seq<seq<seq<T>>>, passes: seq<seq<Round<T>>>,
                         final: seq<Round<T>>, ghost objects: set<object>)
    requires Separate(items) && Within(items, objects)
    requires forall i :: 0 <= i < |items| ==> items[i].Ready()
    requires |between| == |items| && forall i :: 0 <= i < |items| ==> FramesFit(between[i], items[i].image.shm.nelement)
    requires forall p :: 0 <= p < |passes| ==> PassFits(items, passes[p])
    requires PassFits(items, final)
    modifies objects
    ensures forall i :: 0 <= i < |items| ==> items[i].Fresh()
    ensures forall i :: 0 <= i < |items| && Undisturbed(items, final, i, |items|) ==> items[i].ShowsNewest()
  {
    hide Reached;
    forall i | 0 <= i < |items| ensures Reached(items, i, false, [], 0) { ReadyIsReached(items, i); }
    FillAll(items, between, objects);
    var pass := 0;
    var running := true;
    while running
      invariant 0 <= pass <= |passes| + 1
      invariant running <==> pass <= |passes|
      invariant running ==> forall i :: 0 <= i < |items| ==> Reached(items, i, true, [], 0)
      invariant !running ==> forall i :: 0 <= i < |items| ==> Reached(items, i, true, final, |items|)
      decreases |passes| + 1 - pass
    {
      PollAll(items, if pass < |passes| then passes[pass] else final, objects);
      pass := pass + 1;
      if pass > |passes| {
        running := false;
      } else {
        forall i | 0 <= i < |items|
          ensures Reached(items, i, true, [], 0)
        {
          ReachedForget(items, i, passes[pass - 1]);
        }
      }
    }
    forall i | 0 <= i < |items|
      ensures items[i].Fresh() && (Undisturbed(items, final, i, |items|) ==> items[i].ShowsNewest())
    {
      PolledShowsNewest(items, i, final);
    }
  }
}
