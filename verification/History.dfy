/**
 `shm.get_history` of the Python binding: the newest frames, read backwards round the ring, while
 the writer may go on committing.
 */
module History {
  import opened Ring
  import opened SharedImage
  import opened Waiting
  import opened Wrappers

  /** Frame number w, where numbers that were never written stand for the blank frame. */
  function FrameOrBlank<T>(hist: seq<seq<T>>, blank: seq<T>, w: int): seq<T>
    requires w <= |hist|
  {
    if w <= 0 then blank else hist[w - 1]
  }

  /** The slot d steps before that of frame `written`. */
  function BackSlot(written: nat, n: nat, d: nat): (slot: nat)
    requires d < n
    ensures slot < n
  {
    if d <= SlotOf(written, n) then SlotOf(written, n) - d else SlotOf(written, n) - d + n
  }

  /** The floor remainder of a possibly negative index is that slot. */
  lemma {:induction false} BackSlotIsMod(written: nat, n: nat, d: nat)
    requires d < n
    ensures (SlotOf(written, n) - d) % n == BackSlot(written, n, d) == BackSlot(written, n, d) % n
  {
    var slot := SlotOf(written, n);
    ModUnique(slot - d, n, if d <= slot then 0 else -1, BackSlot(written, n, d));
    ModUnique(BackSlot(written, n, d), n, 0, BackSlot(written, n, d));
  }

  lemma SlotHeld(written: nat, n: nat, d: nat, m: nat)
    requires m + d < n && d <= written
    ensures LatestIn(written + m, n, BackSlot(written, n, d)) == written - d
    ensures BackSlot(written, n, d) == SlotOf(written + m + 1, n) <==> m + d == n - 1
  {
    hide SlotOf, LatestIn;
    SlotAfter(written - d, d, n);
    HeldUntilLapped(written - d, written + m, n);
    SlotIsNextIff(written - d, written + m, n);
  }

  lemma SlotUnused(written: nat, n: nat, d: nat, m: nat)
    requires m + d < n && written < d
    ensures LatestIn(written + m, n, BackSlot(written, n, d)) == 0
    ensures BackSlot(written, n, d) == SlotOf(written + m + 1, n) <==> m + d == n - 1
  {
    SlotAfter(0, written, n);
    SlotAfter(0, written + m + 1, n);
    NeverUsed(written + m, n, BackSlot(written, n, d));
  }

  lemma SlotReused(written: nat, n: nat, d: nat, m: nat)
    requires d < n <= m + d
    ensures LatestIn(written + m, n, BackSlot(written, n, d)) >= written - d + n
  {
    hide LatestIn;
    var first := written - d + n;
    if d <= written {
      SlotAfter(written - d, d, n);
      SlotShift(written - d, n);
    } else {
      SlotAfter(0, written, n);
      SlotAfter(0, first, n);
    }
    HeldUntilLapped(first, first, n);
    LatestMonotone(first, written + m, n, BackSlot(written, n, d));
  }

  /**
   With m more frames committed, that slot still holds frame W - d, or is still unused when W - d is
   not positive, while m + d < N; then it holds a frame at least N newer.
   */
  lemma SlotBack(written: nat, n: nat, d: nat, m: nat)
    requires d < n
    ensures var held := LatestIn(written + m, n, BackSlot(written, n, d));
            if m + d < n then held == (if d < written then written - d else 0) else held >= written - d + n
    ensures m + d < n ==> (BackSlot(written, n, d) == SlotOf(written + m + 1, n) <==> m + d == n - 1)
  {
    if m + d >= n {
      SlotReused(written, n, d, m);
    } else if d <= written {
      SlotHeld(written, n, d, m);
    } else {
      SlotUnused(written, n, d, m);
    }
  }

  /** The frame found d steps back once m more are committed, or 0. */
  function HeldBack(written: nat, n: nat, d: nat, m: nat): (frame: nat)
    requires d < n
    ensures if m + d < n then frame == (if d < written then written - d else 0) else frame >= written - d + n
    ensures frame <= written + m
  {
    SlotBack(written, n, d, m);
    LatestIn(written + m, n, BackSlot(written, n, d))
  }

  /**
   An item read d steps back from `before`, the history when the call looked, when the ring held
   `hist`: frame W - d unless its slot was reused, and then the newer frame that reused it.  Only
   the writing slot, while it is partly filled, holds neither.
   */
  ghost predicate ItemOk<T>(item: seq<T>, before: seq<seq<T>>, hist: seq<seq<T>>, blank: seq<T>, n: nat, d: nat,
                            quiet: bool)
    requires d < n && before <= hist
  {
    var m := |hist| - |before|;
    m + d != n - 1 || quiet ==> item == FrameAt(hist, blank, HeldBack(|before|, n, d, m))
  }

  /** The slot found d steps back from an earlier history. */
  lemma FrameBack<T>(r: Ring<T>, before: seq<seq<T>>, hist: seq<seq<T>>, blank: seq<T>, d: nat, quiet: bool)
    requires Settled(r, hist, blank) && d < r.size && before <= hist
    requires quiet || |hist| - |before| + d >= r.size ==> Quiet(r, hist, blank)
    ensures ItemOk(Segment(r, BackSlot(|before|, r.size, d)), before, hist, blank, r.size, d, quiet)
  {
    var slot, m := BackSlot(|before|, r.size, d), |hist| - |before|;
    SlotBack(|before|, r.size, d, m);
    if m + d != r.size - 1 || quiet {
      assert SlotHolds(r, hist, blank, slot);
    }
  }

  /** One pass of the loop: reduce the index, find the segment, copy it out. */
  method CopyItem<T>(image: Image<T>, index: int, ghost before: seq<seq<T>>, ghost d: nat) returns (item: seq<T>)
    requires image.shm.Valid() && before <= image.shm.hist && d < image.shm.fifoSize
    requires index == SlotOf(|before|, image.shm.fifoSize) - d
    requires |image.shm.hist| > |before| ==> !image.shm.touched
    ensures ItemOk(item, before, image.shm.hist, image.shm.blank, image.shm.fifoSize, d, !image.shm.touched)
  {
    hide SlotOf, LatestIn;
    var shm := image.shm;
    var currentIdx := index % shm.fifoSize;
    BackSlotIsMod(|before|, shm.fifoSize, d);
    FrameBack(shm.State(), before, shm.hist, shm.blank, d, !shm.touched);
    var segment := image.GetArbitrarySegment(currentIdx);
    item := shm.data[segment..segment + shm.nelement];
  }

  /** The history when item k is copied: the commits listed up to k came before. */
  function HistoryAt<T>(before: seq<seq<T>>, commits: seq<seq<seq<T>>>, k: nat): (hist: seq<seq<T>>)
    requires k < |commits|
    ensures before <= hist
  {
    (if k == 0 then before else HistoryAt(before, commits, k - 1)) + commits[k]
  }

  /** Item k of n, as copied after `commits[k]`. */
  ghost predicate CopiedAt<T>(item: seq<T>, before: seq<seq<T>>, commits: seq<seq<seq<T>>>, k: nat, numItems: nat,
                              blank: seq<T>, n: nat, touched: bool)
    requires k < numItems <= |commits| && numItems <= n
  {
    var hist := HistoryAt(before, commits, k);
    ItemOk(item, before, hist, blank, n, numItems - 1 - k, !touched || |hist| > |before|)
  }

  /** The first j of the items are right. */
  ghost predicate AllCopied<T>(items: seq<seq<T>>, j: nat, before: seq<seq<T>>, commits: seq<seq<seq<T>>>,
                               blank: seq<T>, n: nat, touched: bool)
    requires j <= |items| <= |commits| && |items| <= n
  {
    j == 0 ||
    (&& AllCopied(items, j - 1, before, commits, blank, n, touched)
     && CopiedAt(items[j - 1], before, commits, j - 1, |items|, blank, n, touched))
  }

  lemma {:induction false} AllCopiedKept<T>(items: seq<seq<T>>, items': seq<seq<T>>, j: nat, before: seq<seq<T>>,
                                            commits: seq<seq<seq<T>>>, blank: seq<T>, n: nat, touched: bool)
    requires j <= |items| == |items'| <= |commits| && |items| <= n && items[..j] == items'[..j]
    requires AllCopied(items, j, before, commits, blank, n, touched)
    ensures AllCopied(items', j, before, commits, blank, n, touched)
  {
    if j > 0 {
      assert items[j - 1] == items[..j][j - 1] == items'[..j][j - 1];
      assert items[..j - 1] == items[..j][..j - 1] == items'[..j - 1];
      AllCopiedKept(items, items', j - 1, before, commits, blank, n, touched);
    }
  }

  lemma {:induction false} AllCopiedEach<T>(items: seq<seq<T>>, j: nat, k: nat, before: seq<seq<T>>,
                                            commits: seq<seq<seq<T>>>, blank: seq<T>, n: nat, touched: bool)
    requires k < j <= |items| <= |commits| && |items| <= n && AllCopied(items, j, before, commits, blank, n, touched)
    ensures CopiedAt(items[k], before, commits, k, |items|, blank, n, touched)
  {
    if k < j - 1 { AllCopiedEach(items, j - 1, k, before, commits, blank, n, touched); }
  }

  /** Commits, then one pass of the loop. */
  method CommitAndCopy<T>(image: Image<T>, index: int, ghost before: seq<seq<T>>, commits: seq<seq<seq<T>>>, k: nat,
                          ghost numItems: nat, ghost touched: bool) returns (item: seq<T>)
    requires image.shm.Valid() && k < numItems <= |commits| && numItems <= image.shm.fifoSize
    requires FramesFit(commits[k], image.shm.nelement)
    requires image.shm.hist == if k == 0 then before else HistoryAt(before, commits, k - 1)
    requires index == SlotOf(|before|, image.shm.fifoSize) - (numItems - 1 - k)
    requires image.shm.touched <==> touched && |image.shm.hist| == |before|
    modifies image.shm, image.shm.cnt0, image.shm.write, image.shm.data
    ensures image.shm.Valid() && image.shm.hist == HistoryAt(before, commits, k)
    ensures image.shm.touched <==> touched && |image.shm.hist| == |before|
    ensures CopiedAt(item, before, commits, k, numItems, image.shm.blank, image.shm.fifoSize, touched)
  {
    hide SlotOf, LatestIn, ItemOk, HeldBack;
    CommitAll(image.shm, commits[k]);
    item := CopyItem(image, index, before, numItems - 1 - k);
  }

  /** ... into its place in the result. */
  method StoreItem<T>(image: Image<T>, index: int, historyData: array<seq<T>>, ghost before: seq<seq<T>>,
                      commits: seq<seq<seq<T>>>, k: nat, ghost touched: bool)
    requires image.shm.Valid() && k < historyData.Length <= |commits| && historyData.Length <= image.shm.fifoSize
    requires historyData as object !in image.shm.Objects()
    requires FramesFit(commits[k], image.shm.nelement)
    requires image.shm.hist == if k == 0 then before else HistoryAt(before, commits, k - 1)
    requires index == SlotOf(|before|, image.shm.fifoSize) - (historyData.Length - 1 - k)
    requires image.shm.touched <==> touched && |image.shm.hist| == |before|
    requires AllCopied(historyData[..], k, before, commits, image.shm.blank, image.shm.fifoSize, touched)
    modifies image.shm, image.shm.cnt0, image.shm.write, image.shm.data, historyData
    ensures image.shm.Valid() && image.shm.hist == HistoryAt(before, commits, k)
    ensures image.shm.touched <==> touched && |image.shm.hist| == |before|
    ensures AllCopied(historyData[..], k + 1, before, commits, image.shm.blank, image.shm.fifoSize, touched)
  {
    ghost var was := historyData[..];
    var item := CommitAndCopy(image, index, before, commits, k, historyData.Length, touched);
    historyData[k] := item;
    AllCopiedKept(was, historyData[..], k, before, commits, image.shm.blank, image.shm.fifoSize, touched);
  }

  /** The index to start from, possibly negative. */
  method BaseIndex<T>(image: Image<T>, numItems: int) returns (idxBase: int)
    requires image.shm.Valid()
    ensures idxBase == SlotOf(|image.shm.hist|, image.shm.fifoSize) - numItems + 1
  {
    image.shm.NewestFrame();
    idxBase := image.shm.lastWritten - numItems + 1;
  }

  /** The loop over the items. */
  method FillHistory<T>(image: Image<T>, historyData: array<seq<T>>, commits: seq<seq<seq<T>>>)
    requires image.shm.Valid() && 0 < historyData.Length <= |commits| && historyData.Length <= image.shm.fifoSize
    requires historyData as object !in image.shm.Objects()
    requires forall k :: 0 <= k < |commits| ==> FramesFit(commits[k], image.shm.nelement)
    modifies image.shm, image.shm.cnt0, image.shm.write, image.shm.data, historyData
    ensures image.shm.Valid() && image.shm.hist == HistoryAt(old(image.shm.hist), commits, historyData.Length - 1)
    ensures AllCopied(historyData[..], historyData.Length, old(image.shm.hist), commits, image.shm.blank,
                      image.shm.fifoSize, old(image.shm.touched))
  {
    hide SlotOf, LatestIn, CopiedAt, HistoryAt;
    var shm, numItems := image.shm, historyData.Length;
    ghost var before, touched := shm.hist, shm.touched;
    var idxBase := BaseIndex(image, numItems);
    for idxOffset := 0 to numItems
      invariant shm.Valid() && shm.hist == if idxOffset == 0 then before else HistoryAt(before, commits, idxOffset - 1)
      invariant shm.touched <==> touched && |shm.hist| == |before|
      invariant AllCopied(historyData[..], idxOffset, before, commits, shm.blank, shm.fifoSize, touched)
    {
      StoreItem(image, idxBase + idxOffset, historyData, before, commits, idxOffset, touched);
    }
  }

  /**
   None when the request is out of range; otherwise numItems items, oldest first, read while the
   frames `commits[k]` are committed before item k is copied.
   */
  method GetHistory<T>(image: Image<T>, numItems: int, commits: seq<seq<seq<T>>>) returns (r: Option<seq<seq<T>>>)
    requires image.shm.Valid() && numItems <= |commits|
    requires forall k :: 0 <= k < |commits| ==> FramesFit(commits[k], image.shm.nelement)
    modifies image.shm, image.shm.cnt0, image.shm.write, image.shm.data
    ensures image.shm.Valid()
    ensures r.None? <==> numItems < 1 || numItems > image.shm.fifoSize
    ensures image.shm.hist == if r.None? then old(image.shm.hist)
              else HistoryAt(old(image.shm.hist), commits, numItems - 1)
    ensures r.Some? ==>
              && |r.value| == numItems
              && forall k :: 0 <= k < numItems ==>
                   CopiedAt(r.value[k], old(image.shm.hist), commits, k, numItems, image.shm.blank, image.shm.fifoSize,
                            old(image.shm.touched))
  {
    if numItems < 1 || numItems > image.shm.fifoSize {
      return None;
    }
    var historyData := new seq<T>[numItems];
    ghost var before, touched := image.shm.hist, image.shm.touched;
    FillHistory(image, historyData, commits);
    forall k | 0 <= k < numItems
      ensures CopiedAt(historyData[k], before, commits, k, numItems, image.shm.blank, image.shm.fifoSize, touched)
    {
      AllCopiedEach(historyData[..], numItems, k, before, commits, image.shm.blank, image.shm.fifoSize, touched);
    }
    return Some(historyData[..]);
  }

  /** With no commits before it, item k of n is frame W - n + 1 + k, or blank if that is not positive. */
  lemma CopiedQuietly<T>(item: seq<T>, before: seq<seq<T>>, commits: seq<seq<seq<T>>>, k: nat, numItems: nat,
                         blank: seq<T>, n: nat, touched: bool)
    requires k < numItems <= |commits| && numItems <= n && |HistoryAt(before, commits, k)| == |before|
    requires CopiedAt(item, before, commits, k, numItems, blank, n, touched) && (!touched || 0 < k || numItems < n)
    ensures item == FrameOrBlank(before, blank, |before| - numItems + 1 + k)
  {}

  /** With m commits before it, item k is still that frame whenever m + n - 1 - k < N - 1. */
  lemma CopiedInTime<T>(item: seq<T>, before: seq<seq<T>>, commits: seq<seq<seq<T>>>, k: nat, numItems: nat,
                        blank: seq<T>, n: nat, touched: bool)
    requires k < numItems <= |commits| && numItems <= n
    requires CopiedAt(item, before, commits, k, numItems, blank, n, touched)
    requires |HistoryAt(before, commits, k)| - |before| + numItems - 1 - k < n - 1
    ensures item == FrameOrBlank(before, blank, |before| - numItems + 1 + k)
  {}
}
