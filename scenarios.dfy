/** Client runs of the buffer pool over a small pool, each with the outcome
    the replacement policy promises, proved from the operations' contracts. */
module BufferMgrScenarios {
  import opened DbError
  import opened StorageMgr
  import opened Frames
  import opened BufferMgr

  /** A client pins a page that is not resident into a FIFO pool with a free
      frame and unpins it again: the page lands in frame frameCnt, unpinned
      and clean, and costs one read. */
  method PinUnpinFifo(pool: BufferPool, p: int)
    requires pool.Valid() && pool.hasPageFile && pool.strategy == RS_FIFO && p >= 0
    requires p !in PageNums(pool.frames[..]) && pool.frameCnt < pool.capacity
    modifies pool.frames, pool.arr, pool`front, pool`rear, pool`frameCnt, pool`numRead, pool`numWrite, pool`disk
    ensures pool.Valid() && pool.frameCnt == old(pool.frameCnt) + 1 && pool.front == old(pool.front)
    ensures PageNums(pool.frames[..]) == PageNums(old(pool.frames[..]))[old(pool.frameCnt) := p]
    ensures FixCounts(pool.frames[..]) == FixCounts(old(pool.frames[..]))[old(pool.frameCnt) := 0]
    ensures DirtyFlags(pool.frames[..]) == DirtyFlags(old(pool.frames[..]))[old(pool.frameCnt) := 0]
    ensures pool.numRead == old(pool.numRead) + 1 && pool.numWrite == old(pool.numWrite)
  {
    var k: nat := pool.frameCnt;
    var h' := PinFifoFree(pool, p);
    UnpinAt(pool, p, k);
  }

  /** The start of the FIFO run: pages 1, 2 and 3 are pinned and unpinned in
      turn, filling a three-frame pool in order. */
  method FifoLoadThree() returns (pool: BufferPool)
    ensures fresh(pool) && fresh(pool.frames) && fresh(pool.arr)
    ensures pool.Valid() && pool.hasPageFile && pool.strategy == RS_FIFO
    ensures pool.capacity == 3 && pool.frameCnt == 3 && pool.front == 0
    ensures PageNums(pool.frames[..]) == [1, 2, 3] && FixCounts(pool.frames[..]) == [0, 0, 0]
    ensures pool.numRead == 3
  {
    pool := new BufferPool();
    var rc := pool.InitBufferPool(3, RS_FIFO, Some([]));
    PinUnpinFifo(pool, 1);
    PinUnpinFifo(pool, 2);
    PinUnpinFifo(pool, 3);
  }

  /** FIFO with three frames: pages 1, 2 and 3 are pinned and unpinned in
      turn, then page 4 evicts page 1, the oldest, and takes its frame. */
  method FifoOrder() returns (contents: seq<int>, readCount: int)
    ensures contents == [4, 2, 3] && readCount == 4
  {
    var pool := FifoLoadThree();
    var rc, h4;
    rc, h4 := pool.PinPageWithFIFO(PageHandle(NO_PAGE, []), 4);
    var a := pool.GetFrameContents();
    contents := a[..];
    readCount := pool.GetNumReadIO();
  }

  /** A client pins a page that is not resident into an LRU pool with at
      least two free slots and unpins it again: the page lands in frame k, the
      first free slot of the recency list, unpinned and clean, and arr records
      it in slot k. */
  method PinUnpinLruFree(pool: BufferPool, p: int, k: nat)
    requires pool.Valid() && pool.hasPageFile && pool.strategy == RS_LRU && p >= 0
    requires p !in PageNums(pool.frames[..]) && pool.frameCnt + 1 < pool.capacity
    requires k < pool.arr.Length && pool.arr[k] == NO_PAGE
    requires forall j :: 0 <= j < k ==> pool.arr[j] != NO_PAGE
    modifies pool.frames, pool.arr, pool`frameCnt, pool`numRead, pool`numWrite, pool`disk
    ensures pool.Valid() && pool.frameCnt == old(pool.frameCnt) + 1
    ensures pool.arr[..] == old(pool.arr[..])[k := p]
    ensures PageNums(pool.frames[..]) == PageNums(old(pool.frames[..]))[k := p]
    ensures FixCounts(pool.frames[..]) == FixCounts(old(pool.frames[..]))[k := 0]
  {
    PinLruFree(pool, p, k);
    UnpinAt(pool, p, k);
  }

  /** A client releases page p, which frame k holds, in a FIFO pool or one
      that is not full: the frame loses one pin and nothing else a client can see changes. */
  method UnpinAt(pool: BufferPool, p: int, k: nat)
    requires pool.Valid() && pool.hasPageFile && p >= 0
    requires pool.strategy == RS_FIFO || pool.frameCnt < pool.capacity
    requires k < pool.frames.Length && pool.frames[k].pageNum == p
    modifies pool.frames, pool.arr, pool`disk
    ensures pool.Valid() && pool.arr[..] == old(pool.arr[..])
    ensures PageNums(pool.frames[..]) == PageNums(old(pool.frames[..]))
    ensures FixCounts(pool.frames[..]) == FixCounts(old(pool.frames[..]))[k := old(pool.frames[k].pinCount) - 1]
    ensures DirtyFlags(pool.frames[..]) == DirtyFlags(old(pool.frames[..]))
  {
    ghost var fs := pool.frames[..];
    FindFrameUnique(fs, p, k);
    var rc := pool.UnpinPage(PageHandle(p, []));
    ghost var f := fs[k].(pinCount := fs[k].pinCount - 1);
    assert pool.frames[..] == fs[k := f];
    ProjectionsUpdate(fs, k, f);
    assert PageNums(fs)[k := f.pageNum] == PageNums(fs);
    assert DirtyFlags(fs)[k := f.dirtyBit] == DirtyFlags(fs);
  }

  /** A client pins a page that is not resident into an LRU pool that is not
      full and keeps it pinned: it lands in frame k, the first free slot of the
      recency list. */
  method PinLruFree(pool: BufferPool, p: int, k: nat)
    requires pool.Valid() && pool.hasPageFile && pool.strategy == RS_LRU && p >= 0
    requires p !in PageNums(pool.frames[..]) && pool.frameCnt < pool.capacity
    requires k < pool.arr.Length && pool.arr[k] == NO_PAGE
    requires forall j :: 0 <= j < k ==> pool.arr[j] != NO_PAGE
    modifies pool.frames, pool.arr, pool`frameCnt, pool`numRead, pool`numWrite, pool`disk
    ensures pool.Valid() && pool.frameCnt == old(pool.frameCnt) + 1
    ensures pool.arr[..] == old(pool.arr[..])[k := p]
    ensures PageNums(pool.frames[..]) == PageNums(old(pool.frames[..]))[k := p]
    ensures FixCounts(pool.frames[..]) == FixCounts(old(pool.frames[..]))[k := 1]
  {
    assert IndexOf(pool.arr[..], NO_PAGE) == Some(k);
    var rc, h' := pool.PinPageWithLRU(PageHandle(NO_PAGE, []), p);
  }

  /** A client pins page p again, which frame i holds and the recency list
      records first at pos: p gains a pin and becomes the most recent. */
  method PinLruHit(pool: BufferPool, p: int, i: nat, pos: nat)
    requires pool.Valid() && pool.hasPageFile && pool.strategy == RS_LRU && p >= 0
    requires i < pool.frames.Length && pool.frames[i].pageNum == p
    requires pos < pool.arr.Length && pool.arr[pos] == p
    requires forall j :: 0 <= j < pos ==> pool.arr[j] != p
    modifies pool.frames, pool.arr, pool`frameCnt, pool`numRead, pool`numWrite, pool`disk
    ensures pool.Valid() && pool.frameCnt == old(pool.frameCnt)
    ensures pool.arr[..] == MoveToBack(old(pool.arr[..]), pos)
    ensures pool.frames[..] == old(pool.frames[..])[i := old(pool.frames[i]).(pinCount := old(pool.frames[i].pinCount) + 1)]
  {
    FindFrameUnique(pool.frames[..], p, i);
    assert IndexOf(pool.arr[..], p) == Some(pos);
    var rc, h' := pool.PinPageWithLRU(PageHandle(NO_PAGE, []), p);
  }

  /** A client pins a page that is not resident into a full LRU pool whose
      least recently used page arr[0] sits in frame v while frame u is
      unpinned: frame v receives the page and arr shifts it in at the end. */
  method PinLruEvict(pool: BufferPool, p: int, v: nat, u: nat)
    requires pool.Valid() && pool.hasPageFile && pool.strategy == RS_LRU && p >= 0
    requires p !in PageNums(pool.frames[..]) && pool.frameCnt == pool.capacity
    requires v < pool.frames.Length && pool.arr.Length > 0
    requires pool.frames[v].pageNum == pool.arr[0] != NO_PAGE
    requires u < pool.frames.Length && pool.frames[u].pinCount == 0
    modifies pool.frames, pool.arr, pool`frameCnt, pool`numRead, pool`numWrite, pool`disk
    ensures pool.Valid() && pool.frameCnt == pool.capacity
    ensures pool.arr[..] == ShiftIn(old(pool.arr[..]), p)
    ensures PageNums(pool.frames[..]) == PageNums(old(pool.frames[..]))[v := p]
  {
    FindFrameUnique(pool.frames[..], pool.arr[0], v);
    assert CountUnpinned(pool.frames[..]) > 0;
    var rc, h' := pool.PinPageWithLRU(PageHandle(NO_PAGE, []), p);
  }

  /** The start of the LRU run: pages 1 and 2 are loaded and released into
      frames 0 and 1 of a three-frame pool. */
  method LruLoadTwo() returns (pool: BufferPool)
    ensures fresh(pool) && fresh(pool.frames) && fresh(pool.arr)
    ensures pool.Valid() && pool.hasPageFile && pool.strategy == RS_LRU
    ensures pool.capacity == 3 && pool.frameCnt == 2
    ensures pool.arr[..] == [1, 2, -1] && PageNums(pool.frames[..]) == [1, 2, -1]
    ensures FixCounts(pool.frames[..])[..2] == [0, 0]
  {
    pool := new BufferPool();
    var rc := pool.InitBufferPool(3, RS_LRU, Some([]));
    PinUnpinLruFree(pool, 1, 0);
    PinUnpinLruFree(pool, 2, 1);
  }

  /** The first half of the LRU run: then page 3 is loaded into frame 2 and
      stays pinned, filling the pool. */
  method LruLoadThree() returns (pool: BufferPool)
    ensures fresh(pool) && fresh(pool.frames) && fresh(pool.arr)
    ensures pool.Valid() && pool.hasPageFile && pool.strategy == RS_LRU
    ensures pool.capacity == 3 && pool.frameCnt == 3
    ensures pool.arr[..] == [1, 2, 3] && PageNums(pool.frames[..]) == [1, 2, 3]
    ensures FixCounts(pool.frames[..]) == [0, 0, 1]
  {
    pool := LruLoadTwo();
    PinLruFree(pool, 3, 2);
  }

  /** Page 1 is then used again and stays pinned: it becomes the most
      recently used. */
  method LruRefreshOne() returns (pool: BufferPool)
    ensures fresh(pool) && fresh(pool.frames) && fresh(pool.arr)
    ensures pool.Valid() && pool.hasPageFile && pool.strategy == RS_LRU
    ensures pool.capacity == 3 && pool.frameCnt == 3
    ensures pool.arr[..] == [2, 3, 1] && PageNums(pool.frames[..]) == [1, 2, 3]
    ensures pool.frames[1].pinCount == 0
  {
    pool := LruLoadThree();
    PinLruHit(pool, 1, 0, 0);
  }

  /** LRU with three frames: after pages 1, 2 and 3 are loaded and page 1 is
      used again, page 4 evicts page 2, the least recently used, not page 1,
      the oldest. */
  method LruOrder() returns (contents: seq<int>, recency: seq<int>)
    ensures contents == [1, 4, 3] && recency == [3, 1, 4]
  {
    var pool := LruRefreshOne();
    PinLruEvict(pool, 4, 1, 1);
    var a := pool.GetFrameContents();
    contents := a[..];
    recency := pool.arr[..];
  }

  /** Page 1 pinned twice into a three-frame LRU pool: frame 0 holds it with
      two pins, and the refresh moves it to the end of the recency list. */
  method LruPinTwice() returns (pool: BufferPool)
    ensures fresh(pool) && fresh(pool.frames) && fresh(pool.arr)
    ensures pool.Valid() && pool.hasPageFile && pool.strategy == RS_LRU
    ensures pool.capacity == 3 && pool.frameCnt == 1
    ensures pool.arr[..] == [-1, -1, 1] && PageNums(pool.frames[..]) == [1, -1, -1]
    ensures pool.frames[0].pinCount == 2
  {
    pool := new BufferPool();
    var rc := pool.InitBufferPool(3, RS_LRU, Some([]));
    PinLruFree(pool, 1, 0);
    PinLruHit(pool, 1, 0, 0);
  }

  /** LRU takes the first free slot of the recency list as the frame index.
      Page 1 is pinned twice, which moves it to the end of arr and frees
      slot 0, so page 2 is loaded into frame 0 over page 1, which stays in
      arr although no frame holds it any more. */
  method LruSlotReuse() returns (contents: seq<int>, recency: seq<int>, occupied: int)
    ensures contents == [2, -1, -1] && recency == [2, -1, 1] && occupied == 2
  {
    var pool := LruPinTwice();
    PinLruFree(pool, 2, 0);
    var a := pool.GetFrameContents();
    contents := a[..];
    recency := pool.arr[..];
    occupied := pool.frameCnt;
  }

  /** A client pins a page that is not resident into a FIFO pool with a free
      frame and keeps it pinned. */
  method PinFifoFree(pool: BufferPool, p: int) returns (h': PageHandle)
    requires pool.Valid() && pool.hasPageFile && pool.strategy == RS_FIFO && p >= 0
    requires p !in PageNums(pool.frames[..]) && pool.frameCnt < pool.capacity
    modifies pool.frames, pool`front, pool`rear, pool`frameCnt, pool`numRead, pool`numWrite, pool`disk
    ensures pool.Valid() && pool.frameCnt == old(pool.frameCnt) + 1 && pool.front == old(pool.front)
    ensures PageNums(pool.frames[..]) == PageNums(old(pool.frames[..]))[old(pool.frameCnt) := p]
    ensures FixCounts(pool.frames[..]) == FixCounts(old(pool.frames[..]))[old(pool.frameCnt) := 1]
    ensures DirtyFlags(pool.frames[..]) == DirtyFlags(old(pool.frames[..]))[old(pool.frameCnt) := 0]
    ensures pool.numRead == old(pool.numRead) + 1 && pool.numWrite == old(pool.numWrite) && h'.pageNum == p
  {
    var rc;
    rc, h' := pool.PinPageWithFIFO(PageHandle(NO_PAGE, []), p);
  }

  /** FIFO with two frames, both pinned: a third page cannot be loaded, and
      the pool stays as it was. */
  method FifoAllPinned() returns (rc: RC, contents: seq<int>)
    ensures rc == RC_NO_FREE_PIN_PAGE && contents == [1, 2]
  {
    var pool := new BufferPool();
    rc := pool.InitBufferPool(2, RS_FIFO, Some([]));
    var h1 := PinFifoFree(pool, 1);
    var h2 := PinFifoFree(pool, 2);
    assert FixCounts(pool.frames[..]) == [1, 1];
    var h3;
    rc, h3 := pool.PinPageWithFIFO(PageHandle(NO_PAGE, []), 3);
    var a := pool.GetFrameContents();
    contents := a[..];
  }

  /** A one-frame FIFO pool holding page 1, which the client modified with
      content d, marked dirty and unpinned. The unpin already forces the page
      out but leaves it dirty and uncounted. */
  method DirtyUnpinned(d: Block) returns (pool: BufferPool)
    ensures fresh(pool) && fresh(pool.frames) && fresh(pool.arr)
    ensures pool.Valid() && pool.hasPageFile && pool.strategy == RS_FIFO
    ensures pool.capacity == 1 && pool.frameCnt == 1 && pool.numWrite == 0
    ensures pool.frames[..] == [Frame(1, 0, 1, d)]
  {
    pool := new BufferPool();
    var rc := pool.InitBufferPool(1, RS_FIFO, Some([]));
    var h1 := PinFifoFree(pool, 1);
    rc := pool.MarkDirty(PageHandle(1, d));
    rc := pool.UnpinPage(h1);
  }

  /** Dirty write-back on eviction: loading page 2 into the one-frame pool
      evicts page 1, writes its latest content d to the page file and counts
      one write. */
  method DirtyWriteBack(d: Block) returns (writes: int, stored: Block, contents: seq<int>)
    ensures writes == 1 && stored == d && contents == [2]
  {
    var pool := DirtyUnpinned(d);
    var rc, h2 := pool.PinPageWithFIFO(PageHandle(1, d), 2);
    writes := pool.GetNumWriteIO();
    stored := pool.disk[1];
    var a := pool.GetFrameContents();
    contents := a[..];
  }

  /** Shutdown flush: shutting down the same pool writes page 1 once more,
      since its dirty flag survived the unpin, and counts exactly that write. */
  method ShutdownFlush(d: Block) returns (writes: int, stored: Block, attached: bool)
    ensures writes == 1 && stored == d && !attached
  {
    var pool := DirtyUnpinned(d);
    var rc := pool.ShutdownBufferPool();
    writes := pool.numWrite;
    stored := pool.disk[1];
    attached := pool.hasPageFile;
  }
}
