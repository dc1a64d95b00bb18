/** Page frames and the pure facts the buffer manager's scans compute over them:
    residency lookup, the unpinned-frame count, the FIFO victim, the LRU recency
    list moves, the statistics views and the flush of dirty frames. */
module Frames {
  import opened DbError
  import opened StorageMgr

  /** The page number of an empty frame (and the sentinel of an unused LRU slot). */
  const NO_PAGE: int := -1

  datatype Option<T> = None | Some(value: T)

  /** One page frame: the resident page, how many clients pin it, whether it
      was modified (0 or 1) and the frame's buffer. */
  datatype Frame = Frame(pageNum: int, pinCount: int, dirtyBit: int, data: Block)

  /** What a client holds: the page it asked for and the buffer it was handed. */
  datatype PageHandle = PageHandle(pageNum: int, data: Block)

  datatype ReplacementStrategy = RS_FIFO | RS_LRU | RS_CLOCK | RS_LFU | RS_LRU_K

  /** The part of a pool's state that pinning a page can change. */
  datatype PoolView = PoolView(
    frames: seq<Frame>, arr: seq<int>, front: int, rear: int, frameCnt: int,
    numRead: int, numWrite: int, disk: seq<Block>)

  /** A frame freshly loaded with page p: pinned once and clean. */
  function LoadedFrame(p: int, data: Block): Frame
  {
    Frame(p, 1, 0, data)
  }

  /** A frame reset by an eviction; its buffer is kept for the next load. */
  function ResetFrame(f: Frame): Frame
  {
    Frame(NO_PAGE, 0, 0, f.data)
  }

  /** The frames forceFlushPool writes back: unpinned and dirty. */
  predicate Flushable(f: Frame)
  {
    f.pinCount == 0 && f.dirtyBit == 1
  }

  /** No page is resident in two frames. */
  predicate NoDuplicatePages(fs: seq<Frame>)
  {
    forall i, j {:trigger DistinctAt(fs, i, j)} :: 0 <= i < j < |fs| ==> DistinctAt(fs, i, j)
  }

  /** Frames i and j, i < j, do not hold the same page. */
  predicate DistinctAt(fs: seq<Frame>, i: int, j: int)
    requires 0 <= i < j < |fs|
  {
    fs[i].pageNum != NO_PAGE ==> fs[i].pageNum != fs[j].pageNum
  }

  // ---------------------------------------------------------------------------
  // Residency lookup (searchPageFromBuffer)

  /** The first frame at index i or later that holds page p. */
  function FindFrom(fs: seq<Frame>, p: int, i: nat): (r: Option<nat>)
    requires i <= |fs|
    decreases |fs| - i
    ensures r.Some? ==> i <= r.value < |fs| && fs[r.value].pageNum == p
    ensures r.Some? ==> forall j :: i <= j < r.value ==> fs[j].pageNum != p
    ensures r.None? ==> forall j :: i <= j < |fs| ==> fs[j].pageNum != p
  {
    if i == |fs| then None
    else if fs[i].pageNum == p then Some(i)
    else FindFrom(fs, p, i + 1)
  }

  /** The first frame that holds page p, if any. Note that p may be NO_PAGE,
      in which case the first empty frame is found. */
  function FindFrame(fs: seq<Frame>, p: int): (r: Option<nat>)
    ensures r.Some? ==> r.value < |fs| && fs[r.value].pageNum == p
    ensures r.Some? ==> forall j :: 0 <= j < r.value ==> fs[j].pageNum != p
    ensures r.None? <==> forall j :: 0 <= j < |fs| ==> fs[j].pageNum != p
  {
    FindFrom(fs, p, 0)
  }

  /** Without duplicate residency, the frame found for a real page is the only one holding it. */
  lemma FindFrameUnique(fs: seq<Frame>, p: int, i: nat)
    requires NoDuplicatePages(fs) && p != NO_PAGE
    requires i < |fs| && fs[i].pageNum == p
    ensures FindFrame(fs, p) == Some(i)
  {
    forall j | 0 <= j < i
      ensures fs[j].pageNum != p
    {
      assert DistinctAt(fs, j, i);
    }
  }

  // ---------------------------------------------------------------------------
  // Unpinned-frame count (the loops at the head of both eviction routines)

  /** The number of frames whose pin count is exactly 0. */
  function CountUnpinned(fs: seq<Frame>): (n: nat)
    ensures n <= |fs|
    ensures n > 0 <==> exists i :: 0 <= i < |fs| && fs[i].pinCount == 0
  {
    if |fs| == 0 then 0
    else CountUnpinned(fs[..|fs| - 1]) + (if fs[|fs| - 1].pinCount == 0 then 1 else 0)
  }

  // ---------------------------------------------------------------------------
  // FIFO victim: the skip loop of removePageWithFIFO

  /** Index reached after d circular steps from start in a pool of n frames. */
  function Circ(start: nat, d: nat, n: nat): (k: nat)
    requires start < n && d < n
    ensures k < n
  {
    if start + d < n then start + d else start + d - n
  }

  /** The offset of the first frame, scanning circularly from start and
      beginning at offset d, that the skip loop stops at (pin count not
      positive), or None if every remaining frame is pinned. */
  function ScanUnpinned(fs: seq<Frame>, start: nat, d: nat): (r: Option<nat>)
    requires start < |fs| && d <= |fs|
    decreases |fs| - d
    ensures r.Some? ==> d <= r.value < |fs| && fs[Circ(start, r.value, |fs|)].pinCount <= 0
    ensures r.Some? ==> forall e :: d <= e < r.value ==> fs[Circ(start, e, |fs|)].pinCount > 0
    ensures r.None? ==> forall e :: d <= e < |fs| ==> fs[Circ(start, e, |fs|)].pinCount > 0
  {
    if d == |fs| then None
    else if fs[Circ(start, d, |fs|)].pinCount <= 0 then Some(d)
    else ScanUnpinned(fs, start, d + 1)
  }

  /** Every frame index is reached from start by some circular offset. */
  lemma CircCovers(start: nat, k: nat, n: nat)
    requires start < n && k < n
    ensures Circ(start, if start <= k then k - start else k + n - start, n) == k
  {
  }

  /** The unpinned-frame check that precedes the skip loop guarantees that
      the loop finds a frame: the termination argument of removePageWithFIFO. */
  lemma {:induction false} ScanFindsUnpinned(fs: seq<Frame>, start: nat)
    requires start < |fs|
    requires CountUnpinned(fs) > 0
    ensures ScanUnpinned(fs, start, 0).Some?
  {
    var i :| 0 <= i < |fs| && fs[i].pinCount == 0;
    var e := if start <= i then i - start else i + |fs| - start;
    CircCovers(start, i, |fs|);
    assert fs[Circ(start, e, |fs|)].pinCount <= 0;
  }

  /** The FIFO victim: the first frame at or after front, circularly, whose pin
      count is not positive; every frame passed over on the way is pinned. */
  function FifoVictim(fs: seq<Frame>, front: nat): (v: nat)
    requires front < |fs| && CountUnpinned(fs) > 0
    ensures v < |fs| && fs[v].pinCount <= 0
    ensures var dist := if front <= v then v - front else v + |fs| - front;
            forall e :: 0 <= e < dist ==> fs[Circ(front, e, |fs|)].pinCount > 0
  {
    ScanFindsUnpinned(fs, front);
    Circ(front, ScanUnpinned(fs, front, 0).value, |fs|)
  }

  // ---------------------------------------------------------------------------
  // LRU recency list (bmi->arr)

  /** The first position of x in s, if any. */
  function IndexFrom(s: seq<int>, x: int, i: nat): (r: Option<nat>)
    requires i <= |s|
    decreases |s| - i
    ensures r.Some? ==> i <= r.value < |s| && s[r.value] == x
    ensures r.Some? ==> forall j :: i <= j < r.value ==> s[j] != x
    ensures r.None? ==> forall j :: i <= j < |s| ==> s[j] != x
  {
    if i == |s| then None
    else if s[i] == x then Some(i)
    else IndexFrom(s, x, i + 1)
  }

  function IndexOf(s: seq<int>, x: int): (r: Option<nat>)
    ensures r.Some? ==> r.value < |s| && s[r.value] == x
    ensures r.Some? ==> forall j :: 0 <= j < r.value ==> s[j] != x
    ensures r.None? <==> x !in s
  {
    IndexFrom(s, x, 0)
  }

  /** updateLRUOrder as a function: the first entry equal to p moves to the
      most-recent end; a page absent from the list leaves it as it is. */
  function LruTouched(s: seq<int>, p: int): (r: seq<int>)
    ensures |r| == |s|
    ensures p in s ==> r[|s| - 1] == p
    ensures p !in s ==> r == s
  {
    match IndexOf(s, p)
    case None => s
    case Some(i) => MoveToBack(s, i)
  }

  /** A recency list of sentinels only, as initBufferPool creates it, has one
      free slot per entry. */
  lemma {:induction false} SentinelCount(s: seq<int>)
    requires forall j :: 0 <= j < |s| ==> s[j] == NO_PAGE
    ensures multiset(s)[NO_PAGE] == |s|
  {
    if |s| > 0 {
      SentinelCount(s[1..]);
      assert s == [s[0]] + s[1..];
    }
  }

  /** The LRU recency list initBufferPool allocates: n free slots. */
  function FreeSlots(n: nat): (s: seq<int>)
    ensures |s| == n && multiset(s)[NO_PAGE] == n
    ensures forall i :: 0 <= i < n ==> s[i] == NO_PAGE
  {
    SentinelCount(seq(n, _ => NO_PAGE));
    seq(n, _ => NO_PAGE)
  }

  /** The slot after index k in a circular queue of n slots. */
  function Next(k: int, n: int): int
  {
    if k + 1 < n then k + 1 else 0
  }

  /** Next is the source's (k + 1) % n on the indices the queue uses
      (rear starts at -1). */
  lemma NextIsMod(k: int, n: int)
    requires -1 <= k < n && 0 < n
    ensures Next(k, n) == (k + 1) % n
  {
  }

  /** The recency list after the entry at i is accessed: the entry moves to the
      most-recent end and the others keep their order. */
  function MoveToBack(s: seq<int>, i: nat): (r: seq<int>)
    requires i < |s|
    ensures |r| == |s| && r[|s| - 1] == s[i]
  {
    s[..i] + s[i + 1..] + [s[i]]
  }

  /** updateLRUOrder keeps the list a permutation of itself, of the same length,
      with the moved entry last and every other entry in its old relative order. */
  lemma MoveToBackPermutes(s: seq<int>, i: nat)
    requires i < |s|
    ensures |MoveToBack(s, i)| == |s|
    ensures MoveToBack(s, i)[|s| - 1] == s[i]
    ensures forall j :: 0 <= j < i ==> MoveToBack(s, i)[j] == s[j]
    ensures forall j :: i <= j < |s| - 1 ==> MoveToBack(s, i)[j] == s[j + 1]
    ensures multiset(MoveToBack(s, i)) == multiset(s)
  {
    assert s == s[..i] + [s[i]] + s[i + 1..];
  }

  /** The recency list after an LRU eviction: the least-recent entry leaves and
      the newly loaded page p becomes the most recent. */
  function ShiftIn(s: seq<int>, p: int): (r: seq<int>)
    requires |s| > 0
    ensures |r| == |s| && r[|s| - 1] == p
  {
    s[1..] + [p]
  }

  /** An LRU eviction drops exactly the entry at index 0 and adds p. */
  lemma ShiftInMultiset(s: seq<int>, p: int)
    requires |s| > 0
    ensures |ShiftIn(s, p)| == |s| && ShiftIn(s, p)[|s| - 1] == p
    ensures forall j :: 0 <= j < |s| - 1 ==> ShiftIn(s, p)[j] == s[j + 1]
    ensures multiset(ShiftIn(s, p)) == multiset(s) - multiset{s[0]} + multiset{p}
  {
    assert s == [s[0]] + s[1..];
  }

  /** updateLRUOrder only reorders the recency list. */
  lemma LruTouchedPermutes(s: seq<int>, p: int)
    ensures |LruTouched(s, p)| == |s| && multiset(LruTouched(s, p)) == multiset(s)
  {
    match IndexOf(s, p)
    case None =>
    case Some(i) => MoveToBackPermutes(s, i);
  }

  /** Storing page p in a free slot of the recency list uses up that slot. */
  lemma FillSlotCount(s: seq<int>, k: nat, p: int)
    requires k < |s| && s[k] == NO_PAGE && p != NO_PAGE
    ensures multiset(s[k := p])[NO_PAGE] == multiset(s)[NO_PAGE] - 1
  {
    assert s == s[..k] + [s[k]] + s[k + 1..];
    assert s[k := p] == s[..k] + [p] + s[k + 1..];
  }

  // ---------------------------------------------------------------------------
  // Statistics views (getFrameContents, getDirtyFlags, getFixCounts)

  function PageNums(fs: seq<Frame>): (r: seq<int>)
    ensures |r| == |fs| && forall i :: 0 <= i < |fs| ==> r[i] == fs[i].pageNum
  {
    seq(|fs|, i requires 0 <= i < |fs| => fs[i].pageNum)
  }

  function DirtyFlags(fs: seq<Frame>): (r: seq<int>)
    ensures |r| == |fs| && forall i :: 0 <= i < |fs| ==> r[i] == fs[i].dirtyBit
  {
    seq(|fs|, i requires 0 <= i < |fs| => fs[i].dirtyBit)
  }

  function FixCounts(fs: seq<Frame>): (r: seq<int>)
    ensures |r| == |fs| && forall i :: 0 <= i < |fs| ==> r[i] == fs[i].pinCount
  {
    seq(|fs|, i requires 0 <= i < |fs| => fs[i].pinCount)
  }

  /** Replacing one frame changes each projection at that index only. */
  lemma ProjectionsUpdate(fs: seq<Frame>, i: nat, f: Frame)
    requires i < |fs|
    ensures PageNums(fs[i := f]) == PageNums(fs)[i := f.pageNum]
    ensures FixCounts(fs[i := f]) == FixCounts(fs)[i := f.pinCount]
    ensures DirtyFlags(fs[i := f]) == DirtyFlags(fs)[i := f.dirtyBit]
  {
  }

  // ---------------------------------------------------------------------------
  // Occupancy

  /** The number of frames holding a page. */
  function CountOccupied(fs: seq<Frame>): (n: nat)
    ensures n <= |fs|
  {
    if |fs| == 0 then 0
    else CountOccupied(fs[..|fs| - 1]) + (if fs[|fs| - 1].pageNum != NO_PAGE then 1 else 0)
  }

  /** Frames filled from index 0 upwards: exactly the first k are occupied,
      so k counts the occupied frames. */
  lemma {:induction false} PrefixOccupancyCount(fs: seq<Frame>, k: nat)
    requires k <= |fs|
    requires forall i :: 0 <= i < |fs| ==> (fs[i].pageNum != NO_PAGE <==> i < k)
    ensures CountOccupied(fs) == k
  {
    if |fs| > 0 {
      var n := |fs| - 1;
      if k == |fs| {
        PrefixOccupancyCount(fs[..n], n);
      } else {
        PrefixOccupancyCount(fs[..n], k);
      }
    }
  }

  // ---------------------------------------------------------------------------
  // forcePage

  /** The result and the new page file of forcePage for the handle's page p:
      the first frame holding p is written to block p. */
  function ForcePageEffect(fs: seq<Frame>, disk: seq<Block>, p: int): (r: (RC, seq<Block>))
    ensures r.0 == RC_PAGE_NOT_EXIST <==> FindFrame(fs, p).None?
    ensures r.0 == RC_PAGE_NOT_EXIST ==> r.1 == disk
    ensures r.0 == RC_WRITE_PAGE_FAILED <==> FindFrame(fs, p).Some? && p < 0
    ensures r.0 == RC_OK ==> p < |r.1| && r.1[p] == fs[FindFrame(fs, p).value].data
    ensures r.0 in {RC_OK, RC_PAGE_NOT_EXIST, RC_WRITE_PAGE_FAILED}
    ensures |r.1| >= |disk| && forall k :: 0 <= k < |disk| && k != p ==> r.1[k] == disk[k]
  {
    match FindFrame(fs, p)
    case None => (RC_PAGE_NOT_EXIST, disk)
    case Some(i) =>
      var w := StoreBlock(disk, p, fs[i].data);
      (if w.0 == RC_OK then RC_OK else RC_WRITE_PAGE_FAILED, w.1)
  }

  // ---------------------------------------------------------------------------
  // forceFlushPool

  /** A frame after forceFlushPool has visited it. */
  function FlushFrame(f: Frame): Frame
  {
    if Flushable(f) then f.(dirtyBit := 0) else f
  }

  function FlushFrames(fs: seq<Frame>): (r: seq<Frame>)
    ensures |r| == |fs| && forall i :: 0 <= i < |fs| ==> r[i] == FlushFrame(fs[i])
  {
    seq(|fs|, i requires 0 <= i < |fs| => FlushFrame(fs[i]))
  }

  /** The number of frames forceFlushPool writes (and adds to numWrite). */
  function CountFlushable(fs: seq<Frame>): (n: nat)
    ensures n <= |fs|
  {
    if |fs| == 0 then 0
    else CountFlushable(fs[..|fs| - 1]) + (if Flushable(fs[|fs| - 1]) then 1 else 0)
  }

  /** The page file after forceFlushPool has visited the frames fs in order. */
  function FlushDisk(fs: seq<Frame>, disk: seq<Block>): (r: seq<Block>)
    ensures |r| >= |disk|
  {
    if |fs| == 0 then disk
    else
      var d := FlushDisk(fs[..|fs| - 1], disk);
      var f := fs[|fs| - 1];
      if Flushable(f) then StoreBlock(d, f.pageNum, f.data).1 else d
  }

  /** After a flush no frame is both unpinned and dirty; pinned or clean frames
      are untouched, so a pinned dirty frame stays dirty. */
  lemma {:induction false} FlushLeavesNothingFlushable(fs: seq<Frame>)
    ensures CountFlushable(FlushFrames(fs)) == 0
    ensures forall i :: 0 <= i < |fs| && !Flushable(fs[i]) ==> FlushFrames(fs)[i] == fs[i]
    ensures forall i :: 0 <= i < |fs| && Flushable(fs[i]) ==> FlushFrames(fs)[i].dirtyBit == 0
  {
    if |fs| > 0 {
      var n := |fs| - 1;
      FlushLeavesNothingFlushable(fs[..n]);
      assert FlushFrames(fs)[..n] == FlushFrames(fs[..n]);
    }
  }

  /** The page file only grows during a flush, and the blocks of pages no
      flushable frame holds keep their content. */
  lemma {:induction false} FlushDiskKeepsOthers(fs: seq<Frame>, disk: seq<Block>, k: nat)
    requires k < |disk|
    requires forall i :: 0 <= i < |fs| && Flushable(fs[i]) ==> fs[i].pageNum != k
    ensures |FlushDisk(fs, disk)| >= |disk| && FlushDisk(fs, disk)[k] == disk[k]
  {
    if |fs| > 0 {
      var n := |fs| - 1;
      FlushDiskKeepsOthers(fs[..n], disk, k);
    }
  }

  /** Coordinated write-back: after a flush, the block of every page held by a
      flushable frame holds that frame's buffer. */
  lemma {:induction false} FlushDiskStoresFrame(fs: seq<Frame>, disk: seq<Block>, i: nat)
    requires NoDuplicatePages(fs)
    requires i < |fs| && Flushable(fs[i]) && fs[i].pageNum >= 0
    ensures fs[i].pageNum < |FlushDisk(fs, disk)|
    ensures FlushDisk(fs, disk)[fs[i].pageNum] == fs[i].data
  {
    var n := |fs| - 1;
    if i < n {
      forall a, b | 0 <= a < b < n
        ensures DistinctAt(fs[..n], a, b)
      {
        assert DistinctAt(fs, a, b);
      }
      FlushDiskStoresFrame(fs[..n], disk, i);
      assert DistinctAt(fs, i, n);
    }
  }

  // ---------------------------------------------------------------------------
  // State transitions of the frame array

  /** Two frame arrays with the same page in every slot (only pins, dirty bits
      or buffers differ). */
  predicate SamePages(fs: seq<Frame>, gs: seq<Frame>)
  {
    |fs| == |gs| && forall i :: 0 <= i < |fs| ==> fs[i].pageNum == gs[i].pageNum
  }

  /** Residency and the FIFO queue shape depend on page numbers only. */
  lemma SamePagesKeepShape(fs: seq<Frame>, gs: seq<Frame>, cnt: int, front: int, rear: int)
    requires SamePages(fs, gs)
    ensures NoDuplicatePages(fs) ==> NoDuplicatePages(gs)
    ensures FifoShapeOf(fs, cnt, front, rear) ==> FifoShapeOf(gs, cnt, front, rear)
  {
    if NoDuplicatePages(fs) {
      forall i, j | 0 <= i < j < |gs|
        ensures DistinctAt(gs, i, j)
      {
        assert DistinctAt(fs, i, j);
      }
    }
  }

  /** Loading a page that no frame holds never creates duplicate residency. */
  lemma LoadKeepsNoDuplicates(fs: seq<Frame>, k: nat, f: Frame)
    requires NoDuplicatePages(fs) && k < |fs|
    requires FindFrame(fs, f.pageNum).None?
    ensures NoDuplicatePages(fs[k := f])
  {
    var gs := fs[k := f];
    forall i, j | 0 <= i < j < |gs|
      ensures DistinctAt(gs, i, j)
    {
      if i != k && j != k {
        assert DistinctAt(fs, i, j);
      }
    }
  }

  /** Emptying a frame never creates duplicate residency. */
  lemma ResetKeepsNoDuplicates(fs: seq<Frame>, k: nat)
    requires NoDuplicatePages(fs) && k < |fs|
    ensures NoDuplicatePages(fs[k := ResetFrame(fs[k])])
  {
    var gs := fs[k := ResetFrame(fs[k])];
    forall i, j | 0 <= i < j < |gs|
      ensures DistinctAt(gs, i, j)
    {
      assert DistinctAt(fs, i, j);
    }
  }

  /** The slot behind index k in a circular queue of n slots (rear behind front). */
  function Prev(k: int, n: int): int
  {
    if k == 0 then n - 1 else k - 1
  }

  /** The FIFO queue shape: frames are filled from slot 0 in order, so exactly
      the first cnt frames are occupied; until the pool fills, front is 0 and
      rear is the last occupied slot; once full, rear sits right behind front. */
  predicate FifoShapeOf(fs: seq<Frame>, cnt: int, front: int, rear: int)
  {
    && 0 < |fs| && 0 <= cnt <= |fs|
    && (forall i :: 0 <= i < |fs| ==> (fs[i].pageNum != NO_PAGE <==> i < cnt))
    && (cnt < |fs| ==> front == 0 && rear == cnt - 1)
    && (cnt == |fs| ==> 0 <= front < |fs| && rear == Prev(front, |fs|))
  }

  /** The frames initBufferPool allocates: all empty, with zeroed buffers. */
  function EmptyFrames(n: nat): (fs: seq<Frame>)
    ensures |fs| == n && forall i :: 0 <= i < n ==> fs[i] == Frame(NO_PAGE, 0, 0, ZeroBlock())
  {
    seq(n, _ => Frame(NO_PAGE, 0, 0, ZeroBlock()))
  }

  /** A freshly initialised pool of n > 0 frames has no duplicates and is an
      empty queue with front 0 and rear -1. */
  lemma EmptyFramesShape(n: nat)
    requires 0 < n
    ensures NoDuplicatePages(EmptyFrames(n)) && FifoShapeOf(EmptyFrames(n), 0, 0, -1)
  {
  }

  /** A load into a pool that is not full goes to slot Next(rear),
      which is the first empty frame, and keeps the shape. */
  lemma {:induction false} FifoLoadIntoFree(fs: seq<Frame>, cnt: int, front: int, rear: int, f: Frame)
    requires FifoShapeOf(fs, cnt, front, rear) && cnt < |fs|
    requires f.pageNum != NO_PAGE
    ensures Next(rear, |fs|) == cnt && fs[cnt].pageNum == NO_PAGE
    ensures FifoShapeOf(fs[cnt := f], cnt + 1, front, cnt)
  {
  }

  /** A FIFO eviction followed by the load of a new page into the victim's slot:
      rear moves onto the victim, front just past it, and the pool stays full. */
  lemma FifoEvictThenLoad(fs: seq<Frame>, front: int, rear: int, f: Frame)
    requires FifoShapeOf(fs, |fs|, front, rear) && CountUnpinned(fs) > 0
    requires f.pageNum != NO_PAGE
    ensures var v := FifoVictim(fs, front);
      && Next(Prev(v, |fs|), |fs|) == v
      && FifoShapeOf(fs[v := f], |fs|, Next(v, |fs|), v)
  {
  }
}
