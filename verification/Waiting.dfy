/**
 The counter spin and the wait-then-get calls of the C++ and Python bindings, run against a
 writer whose commits fall between the loads of a poll and during the sleeps.
 */
module Waiting {
  import opened Ring
  import opened SharedImage
  import opened Wrappers

  /** What happens during one turn of the spin: commits between its two loads, and while it sleeps. */
  datatype Turn<T> = Turn(duringPoll: seq<seq<T>>, duringSleep: seq<seq<T>>, interrupted: bool)

  predicate FramesFit<T>(frames: seq<seq<T>>, nelement: nat) {
    forall k :: 0 <= k < |frames| ==> |frames[k]| == nelement
  }

  predicate TurnsFit<T>(turns: seq<Turn<T>>, nelement: nat) {
    forall k :: 0 <= k < |turns| ==>
      FramesFit(turns[k].duringPoll, nelement) && FramesFit(turns[k].duringSleep, nelement)
  }

  /** How many frames are committed by the end of some turns. */
  function Commits<T>(turns: seq<Turn<T>>): nat {
    if turns == [] then 0
    else
      var last := turns[|turns| - 1];
      Commits(turns[..|turns| - 1]) + |last.duringPoll| + |last.duringSleep|
  }

  /** The writer commits a full frame. */
  method Commit<T>(shm: Shm<T>, frame: seq<T>)
    requires shm.Valid() && |frame| == shm.nelement
    modifies shm, shm.cnt0, shm.write, shm.data
    ensures shm.Valid() && shm.hist == old(shm.hist) + [frame] && !shm.touched
  {
    assert frame[..shm.nelement] == frame;
    var _ := shm.Image2Shm(frame, shm.nelement);
  }

  /** The writer commits some full frames. */
  method CommitAll<T>(shm: Shm<T>, frames: seq<seq<T>>)
    requires shm.Valid() && FramesFit(frames, shm.nelement)
    modifies shm, shm.cnt0, shm.write, shm.data
    ensures shm.Valid() && shm.hist == old(shm.hist) + frames
    ensures shm.touched <==> old(shm.touched) && frames == []
  {
    for k := 0 to |frames|
      invariant shm.Valid() && shm.hist == old(shm.hist) + frames[..k]
      invariant shm.touched <==> old(shm.touched) && k == 0
    {
      Commit(shm, frames[k]);
    }
  }

  /** The counter one poll sees when `during` frames are committed between its two loads. */
  function CountSeen(n: nat, written: nat, during: nat): (count: nat)
    requires 0 < n
    ensures written <= count <= written + during
  {
    HeldUntilLapped(written, written, n);
    LatestMonotone(written, written + during, n, SlotOf(written, n));
    if n == 1 then written else LatestIn(written + during, n, SlotOf(written, n))
  }

  /** One poll: for a ring of one slot a single load, otherwise `last` and then its counter. */
  method Poll<T>(shm: Shm<T>, target: nat, during: seq<seq<T>>) returns (reached: bool)
    requires shm.Valid() && FramesFit(during, shm.nelement)
    modifies shm, shm.cnt0, shm.write, shm.data
    ensures shm.Valid() && shm.hist == old(shm.hist) + during
    ensures reached <==> CountSeen(shm.fifoSize, |old(shm.hist)|, |during|) >= target
    ensures reached ==> |shm.hist| >= target
    ensures |old(shm.hist)| >= target ==> reached
    ensures !old(shm.touched) ==> !shm.touched
  {
    shm.NewestFrame();
    if shm.fifoSize == 1 {
      reached := shm.cnt0[0] >= target;
      CommitAll(shm, during);
    } else {
      var lastWritten := shm.lastWritten;
      CommitAll(shm, during);
      assert shm.cnt0[lastWritten] == LatestIn(|shm.hist|, shm.fifoSize, lastWritten);
      reached := shm.cnt0[lastWritten] >= target;
    }
  }

  lemma {:induction false} CommitsMonotone<T>(turns: seq<Turn<T>>, i: nat, j: nat)
    requires i <= j <= |turns|
    ensures Commits(turns[..i]) <= Commits(turns[..j])
    ensures i < j ==> Commits(turns[..i]) + |turns[i].duringPoll| + |turns[i].duringSleep| <= Commits(turns[..j])
    decreases j
  {
    if i < j {
      assert turns[..j][..j - 1] == turns[..j - 1];
      CommitsMonotone(turns, i, j - 1);
    }
  }

  lemma CommitsNone<T>(turns: seq<Turn<T>>)
    ensures Commits(turns[..0]) == 0
  {}

  lemma CommitsNext<T>(turns: seq<Turn<T>>, k: nat)
    requires k < |turns|
    ensures Commits(turns[..k + 1]) == Commits(turns[..k]) + |turns[k].duringPoll| + |turns[k].duringSleep|
  {
    assert turns[..k + 1][..k] == turns[..k];
  }

  /** Turn k's sleep is interrupted, with the target not committed before its poll. */
  ghost predicate CutShort<T>(turns: seq<Turn<T>>, k: nat, written: nat, target: nat)
    requires k < |turns|
  {
    turns[k].interrupted && written + Commits(turns[..k]) < target
  }

  /** ... nor by the end of the poll. */
  ghost predicate CutOff<T>(turns: seq<Turn<T>>, k: nat, written: nat, target: nat)
    requires k < |turns|
  {
    turns[k].interrupted && written + Commits(turns[..k]) + |turns[k].duringPoll| < target
  }

  /** The turn whose poll sees the target is the first to do so, and comes before any interruption. */
  ghost predicate EndsAt<T>(turns: seq<Turn<T>>, k: nat, n: nat, written: nat, target: nat)
    requires k <= |turns| && 0 < n
  {
    forall j :: 0 <= j < k ==> !turns[j].interrupted && !SeenIn(turns, j, n, written, target)
  }

  ghost predicate SeenIn<T>(turns: seq<Turn<T>>, k: nat, n: nat, written: nat, target: nat)
    requires k < |turns| && 0 < n
  {
    CountSeen(n, written + Commits(turns[..k]), |turns[k].duringPoll|) >= target
  }

  /** The wait ended in turn `at` with that status, or is still spinning after all turns. */
  ghost predicate EndedAs<T>(status: Option<Status>, at: nat, turns: seq<Turn<T>>, n: nat, written: nat, target: nat)
    requires 0 < n
  {
    && at <= |turns| && EndsAt(turns, at, n, written, target)
    && if at == |turns| then status == None
       else if SeenIn(turns, at, n, written, target) then status == Some(Success)
       else status == Some(Error) && CutShort(turns, at, written, target)
  }

  ghost predicate WaitEnds<T>(status: Option<Status>, turns: seq<Turn<T>>, n: nat, written: nat, target: nat)
    requires 0 < n
  {
    exists at :: EndedAs(status, at, turns, n, written, target)
  }

  ghost predicate AnyCutOff<T>(turns: seq<Turn<T>>, written: nat, target: nat) {
    exists k :: 0 <= k < |turns| && CutOff(turns, k, written, target)
  }

  /** No turn in which the target stays uncommitted is interrupted once an earlier poll has reached it. */
  lemma NotCutOff<T>(turns: seq<Turn<T>>, k: nat, n: nat, written: nat, target: nat)
    requires k < |turns| && 0 < n && EndsAt(turns, k, n, written, target)
    requires written + Commits(turns[..k]) + |turns[k].duringPoll| >= target
    ensures !AnyCutOff(turns, written, target)
  {
    forall j | 0 <= j < |turns| ensures !CutOff(turns, j, written, target) {
      if k <= j { CommitsMonotone(turns, k, j); }
    }
  }

  lemma NoneCutOff<T>(turns: seq<Turn<T>>, written: nat, target: nat)
    requires forall k :: 0 <= k < |turns| ==> !turns[k].interrupted
    ensures !AnyCutOff(turns, written, target)
  {}

  /** One turn of the spin: poll, then sleep. */
  method TakeTurn<T>(shm: Shm<T>, target: nat, turn: Turn<T>) returns (status: Option<Status>)
    requires shm.Valid() && FramesFit(turn.duringPoll, shm.nelement) && FramesFit(turn.duringSleep, shm.nelement)
    modifies shm, shm.cnt0, shm.write, shm.data
    ensures shm.Valid()
    ensures shm.hist == old(shm.hist) + turn.duringPoll + if status.None? then turn.duringSleep else []
    ensures status == if CountSeen(shm.fifoSize, |old(shm.hist)|, |turn.duringPoll|) >= target then Some(Success)
                      else if turn.interrupted then Some(Error) else None
    ensures status == Some(Success) ==> |shm.hist| >= target
    ensures status != Some(Success) ==> |old(shm.hist)| < target
    ensures !old(shm.touched) ==> !shm.touched
  {
    hide SlotOf, LatestIn, CountSeen;
    var reached := Poll(shm, target, turn.duringPoll);
    if reached {
      return Some(Success);
    }
    if turn.interrupted {
      return Some(Error);
    }
    CommitAll(shm, turn.duringSleep);
    return None;
  }

  /**
   `daoShmWaitForTargetCounter`, for at most the given turns; None when it is still spinning.
   It ends with the first turn `at` whose poll sees the target (SUCCESS) or whose sleep is
   interrupted (ERROR).  An interruption while the target is not committed always ends it.
   */
  method WaitForTargetCounter<T>(shm: Shm<T>, target: nat, turns: seq<Turn<T>>)
    returns (status: Option<Status>, ghost at: nat)
    requires shm.Valid() && TurnsFit(turns, shm.nelement)
    modifies shm, shm.cnt0, shm.write, shm.data
    ensures shm.Valid() && old(shm.hist) <= shm.hist
    ensures EndedAs(status, at, turns, shm.fifoSize, |old(shm.hist)|, target)
    ensures |shm.hist| == |old(shm.hist)| + Commits(turns[..at]) + if at < |turns| then |turns[at].duringPoll| else 0
    ensures status == Some(Success) ==> |shm.hist| >= target
    ensures AnyCutOff(turns, |old(shm.hist)|, target) ==> status == Some(Error)
    ensures status.None? && turns != [] ==> |old(shm.hist)| + Commits(turns[..|turns| - 1]) < target
    ensures !old(shm.touched) ==> !shm.touched
  {
    hide SlotOf, LatestIn, CountSeen, AnyCutOff, Commits;
    CommitsNone(turns);
    ghost var start := |shm.hist|;
    for k := 0 to |turns|
      invariant shm.Valid() && old(shm.hist) <= shm.hist && |shm.hist| == start + Commits(turns[..k])
      invariant !old(shm.touched) ==> !shm.touched
      invariant EndsAt(turns, k, shm.fifoSize, start, target)
      invariant k > 0 ==> start + Commits(turns[..k - 1]) < target
    {
      CommitsNext(turns, k);
      status := TakeTurn(shm, target, turns[k]);
      if status == Some(Success) {
        NotCutOff(turns, k, shm.fifoSize, start, target);
      }
      if status.Some? {
        return status, k;
      }
    }
    NoneCutOff(turns, start, target);
    return None, |turns|;
  }

  lemma {:induction false} CommitsAtLeast<T>(turns: seq<Turn<T>>)
    requires forall k :: 0 <= k < |turns| ==> |turns[k].duringPoll| + |turns[k].duringSleep| >= 1
    ensures Commits(turns) >= |turns|
    decreases |turns|
  {
    if turns != [] { CommitsAtLeast(turns[..|turns| - 1]); }
  }

  /** With a writer that commits in every turn, target - W + 1 turns are enough. */
  method WaitTerminates<T>(shm: Shm<T>, target: nat, turns: seq<Turn<T>>)
    returns (status: Option<Status>)
    requires shm.Valid() && TurnsFit(turns, shm.nelement)
    requires forall k :: 0 <= k < |turns| ==>
             |turns[k].duringPoll| + |turns[k].duringSleep| >= 1 && !turns[k].interrupted
    requires |turns| > target - |shm.hist| && |turns| > 0
    modifies shm, shm.cnt0, shm.write, shm.data
    ensures shm.Valid() && status == Some(Success) && |shm.hist| >= target
  {
    CommitsAtLeast(turns[..|turns| - 1]);
    ghost var at;
    status, at := WaitForTargetCounter(shm, target, turns);
  }

  /**
   `get_next_frame`: wait for tail + 1 if asked, let the writer go on, then take the next segment.
   A waiting call never ends in NOTREADY, so the pointer it returns is always set.
   */
  method GetNextFrame<T>(image: Image<T>, wait: bool, turns: seq<Turn<T>>, after: seq<seq<T>>)
    returns (status: Option<Status>, out: Option<(nat, Tail)>)
    requires image.Valid() && TurnsFit(turns, image.shm.nelement) && FramesFit(after, image.shm.nelement)
    modifies image, image.shm, image.shm.cnt0, image.shm.write, image.shm.data
    ensures image.Valid() && old(image.shm.hist) <= image.shm.hist
    ensures status.Some? && !status.value.Error? ==>
              (status.value, image.Position())
              == Classify(|image.shm.hist|, image.shm.fifoSize, old(image.fifoLastReadCnt0))
    ensures wait ==>
              WaitEnds(if status == Some(Overwrite) then Some(Success) else status, turns, image.shm.fifoSize,
                       |old(image.shm.hist)|, old(image.fifoLastReadCnt0) + 1)
    ensures wait && AnyCutOff(turns, |old(image.shm.hist)|, old(image.fifoLastReadCnt0) + 1) ==> status == Some(Error)
    ensures !wait ==> status.Some? && status != Some(Error)
    ensures wait ==> status != Some(NotReady)
    ensures !wait ==> (status == Some(NotReady) <==> |image.shm.hist| == old(image.fifoLastReadCnt0))
    ensures status == Some(Success) || status == Some(Overwrite) <==> out.Some?
    ensures out.Some? ==>
              && out.value.1 == image.Position() && image.PointsAt(out.value.0, image.fifoLastRead)
              && image.fifoLastReadCnt0 > old(image.fifoLastReadCnt0)
    ensures status == Some(Success) ==> image.fifoLastReadCnt0 == old(image.fifoLastReadCnt0) + 1
    ensures out.None? ==> image.Position() == old(image.Position())
    ensures !old(image.shm.touched) ==> !image.shm.touched
    ensures out.Some? && (!image.shm.touched || |image.shm.hist| < image.fifoLastReadCnt0 + image.shm.fifoSize - 1) ==>
              Segment(image.shm.State(), image.fifoLastRead)
              == FrameAt(image.shm.hist, image.shm.blank, image.fifoLastReadCnt0)
  {
    hide SlotOf, LatestIn, AnyCutOff, EndsAt, SeenIn;
    var shm := image.shm;
    if wait {
      ghost var at;
      status, at := WaitForTargetCounter(shm, image.fifoLastReadCnt0 + 1, turns);
      if status != Some(Success) {
        return status, None;
      }
    }
    CommitAll(shm, after);
    var s;
    s, out := image.GetNextSegment();
    status := Some(s);
  }

  /** `get_data_next`: a copy of the next frame, or no data unless the status is SUCCESS or OVERWRITE. */
  method GetDataNext<T>(image: Image<T>, wait: bool, turns: seq<Turn<T>>, after: seq<seq<T>>)
    returns (status: Option<Status>, data: Option<seq<T>>)
    requires image.Valid()
    requires TurnsFit(turns, image.shm.nelement) && FramesFit(after, image.shm.nelement)
    modifies image, image.shm, image.shm.cnt0, image.shm.write, image.shm.data
    ensures image.Valid() && old(image.shm.hist) <= image.shm.hist
    ensures status.Some? && !status.value.Error? ==>
              (status.value, image.Position())
              == Classify(|image.shm.hist|, image.shm.fifoSize, old(image.fifoLastReadCnt0))
    ensures wait ==>
              WaitEnds(if status == Some(Overwrite) then Some(Success) else status, turns, image.shm.fifoSize,
                       |old(image.shm.hist)|, old(image.fifoLastReadCnt0) + 1)
    ensures wait && AnyCutOff(turns, |old(image.shm.hist)|, old(image.fifoLastReadCnt0) + 1) ==> status == Some(Error)
    ensures !wait ==> status.Some? && status != Some(Error)
    ensures wait ==> status != Some(NotReady)
    ensures !wait ==> (status == Some(NotReady) <==> |image.shm.hist| == old(image.fifoLastReadCnt0))
    ensures data.Some? <==> status == Some(Success) || status == Some(Overwrite)
    ensures data.Some? ==> data.value == Segment(image.shm.State(), image.fifoLastRead)
    ensures status == Some(Success) ==> image.fifoLastReadCnt0 == old(image.fifoLastReadCnt0) + 1
    ensures data.Some? && (!image.shm.touched || |image.shm.hist| < image.fifoLastReadCnt0 + image.shm.fifoSize - 1) ==>
              data.value == FrameAt(image.shm.hist, image.shm.blank, image.fifoLastReadCnt0)
    ensures !old(image.shm.touched) ==> !image.shm.touched
  {
    hide SlotOf, LatestIn, AnyCutOff, WaitEnds, Classify;
    var out;
    status, out := GetNextFrame(image, wait, turns, after);
    if out.None? {
      return status, None;
    }
    var segment := out.value.0;
    data := Some(image.shm.data[segment..segment + image.shm.nelement]);
  }
}
