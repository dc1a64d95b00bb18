/** The buffer pool manager: a fixed number of page frames over one page file,
    served through pin/unpin, with FIFO or LRU replacement. The pool object
    combines the caller's pool record and the manager's bookkeeping record
    (front, rear, frameCnt, capacity, numRead, numWrite and the LRU list arr). */
module BufferMgr {
  import opened DbError
  import opened StorageMgr
  import opened Frames

  /** The frames initBufferPool allocates: all empty, with zeroed buffers. */
  method NewFrames(n: nat) returns (fs: array<Frame>)
    ensures fresh(fs) && fs[..] == EmptyFrames(n)
  {
    var empty := Frame(NO_PAGE, 0, 0, ZeroBlock());
    fs := new Frame[n];
    for i := 0 to n
      invariant forall j :: 0 <= j < i ==> fs[j] == empty
    {
      fs[i] := empty;
    }
    assert fs[..] == EmptyFrames(n);
  }

  /** The LRU recency list initBufferPool allocates: every slot free. */
  method NewRecencyList(n: nat) returns (a: array<int>)
    ensures fresh(a) && a[..] == FreeSlots(n)
  {
    a := new int[n];
    for i := 0 to n
      invariant forall j :: 0 <= j < i ==> a[j] == NO_PAGE
    {
      a[i] := NO_PAGE;
    }
    assert a[..] == FreeSlots(n);
  }

  class BufferPool {
    /** Whether a page file is attached (the pool was initialised and not shut down). */
    var hasPageFile: bool
    var strategy: ReplacementStrategy
    /** The page frames; their number is the capacity. */
    var frames: array<Frame>
    /** FIFO queue: index of the oldest frame and of the newest one. */
    var front: int
    var rear: int
    /** Number of loads minus number of evictions. */
    var frameCnt: int
    var capacity: int
    /** I/O counters since initialisation. */
    var numRead: int
    var numWrite: int
    /** LRU recency list of page numbers, least recent first; NO_PAGE marks a free slot. */
    var arr: array<int>
    /** The blocks of the attached page file. */
    var disk: seq<Block>

    /** The structure every reachable state of an initialised pool has, also
        in the middle of a pin (between an eviction and the load that follows). */
    ghost predicate Wf()
      reads this, frames, arr
    {
      && capacity > 0
      && frames.Length == capacity
      && (strategy == RS_LRU ==> arr.Length == capacity)
      && 0 <= front < capacity
      && -1 <= rear < capacity
      && 0 <= frameCnt <= capacity
      && numRead >= 0 && numWrite >= 0
      && NoDuplicatePages(frames[..])
    }

    /** The FIFO queue shape of the frames, front, rear and frameCnt. */
    ghost predicate FifoShape()
      reads this, frames
    {
      FifoShapeOf(frames[..], frameCnt, front, rear)
    }

    /** LRU keeps one free slot of arr per frame not counted in frameCnt. */
    ghost predicate LruShape()
      reads this, arr
    {
      multiset(arr[..])[NO_PAGE] == capacity - frameCnt
    }

    /** The pool invariant. Every operation preserves it except the two
        eviction routines, removePageWithFIFO and removePageWithLRU, which
        keep only Wf: they run between the full-pool test of a pin and the
        load that restores the invariant. */
    ghost predicate Valid()
      reads this, frames, arr
    {
      hasPageFile ==>
        && Wf()
        && (strategy == RS_FIFO ==> FifoShape())
        && (strategy == RS_LRU ==> LruShape())
    }

    predicate IsFull()
      reads this
    {
      frameCnt == capacity
    }

    predicate IsEmpty()
      reads this
    {
      frameCnt == 0
    }

    /** A pool record before initBufferPool: no page file attached. */
    constructor ()
      ensures Valid() && !hasPageFile
    {
      hasPageFile := false;
      strategy := RS_FIFO;
      frames := new Frame[0];
      front, rear, frameCnt, capacity := 0, -1, 0, 0;
      numRead, numWrite := 0, 0;
      arr := new int[0];
      disk := [];
    }

    /** initBufferPool. pageFile is the content of the named page file, or None
        when no such file exists. */
    method InitBufferPool(numPages: int, strat: ReplacementStrategy, pageFile: Option<seq<Block>>)
      returns (rc: RC)
      requires Valid()
      modifies this
      ensures Valid()
      ensures numPages <= 0 ==> rc == RC_PARAMS_ERROR && unchanged(this)
      ensures numPages > 0 && pageFile.None? ==> rc == RC_FILE_NOT_FOUND && unchanged(this)
      ensures numPages > 0 && pageFile.Some? ==>
        && rc == RC_OK
        && hasPageFile && strategy == strat && capacity == numPages
        && fresh(frames) && frames[..] == EmptyFrames(numPages)
        && front == 0 && rear == -1 && frameCnt == 0
        && numRead == 0 && numWrite == 0
        && disk == pageFile.value
        && fresh(arr) && (strat == RS_LRU ==> arr[..] == FreeSlots(numPages))
    {
      if numPages <= 0 {
        return RC_PARAMS_ERROR;
      }
      if pageFile.None? {
        return RC_FILE_NOT_FOUND;
      }
      Attach(numPages, strat, pageFile.value);
      InitialPoolValid();
      rc := RC_OK;
    }

    /** The successful part of initBufferPool: numPages empty frames with
        zeroed buffers, an empty queue, zero I/O counters, and for LRU a
        recency list of numPages free slots. */
    method Attach(numPages: int, strat: ReplacementStrategy, file: seq<Block>)
      requires numPages > 0
      modifies this
      ensures && hasPageFile && strategy == strat && capacity == numPages
        && fresh(frames) && frames[..] == EmptyFrames(numPages)
        && front == 0 && rear == -1 && frameCnt == 0
        && numRead == 0 && numWrite == 0
        && disk == file
        && fresh(arr) && (strat == RS_LRU ==> arr[..] == FreeSlots(numPages))
    {
      hasPageFile, capacity, strategy := true, numPages, strat;
      front, rear, frameCnt, numRead, numWrite, disk := 0, -1, 0, 0, 0, file;
      frames := NewFrames(numPages);
      if strat == RS_LRU {
        arr := NewRecencyList(numPages);
      } else {
        arr := new int[0];
      }
    }

    /** A pool as initBufferPool leaves it satisfies the pool invariant. */
    lemma InitialPoolValid()
      requires hasPageFile && capacity > 0
      requires frames[..] == EmptyFrames(capacity)
      requires front == 0 && rear == -1 && frameCnt == 0 && numRead == 0 && numWrite == 0
      requires strategy == RS_LRU ==> arr[..] == FreeSlots(capacity)
      ensures Valid()
    {
      EmptyFramesShape(capacity);
    }

    /** searchPageFromBuffer: the index of the first frame holding page p. */
    method SearchPageFromBuffer(p: int) returns (r: Option<nat>)
      requires hasPageFile && Wf()
      ensures r == FindFrame(frames[..], p)
    {
      var i := 0;
      while i < capacity
        invariant 0 <= i <= capacity
        invariant FindFrame(frames[..], p) == FindFrom(frames[..], p, i)
      {
        if frames[i].pageNum == p {
          return Some(i);
        }
        i := i + 1;
      }
      return None;
    }

    /** The loop at the head of both eviction routines: how many frames have
        pin count 0. */
    method CountUnpinnedFrames() returns (cnt: nat)
      requires hasPageFile && Wf()
      ensures cnt == CountUnpinned(frames[..])
    {
      cnt := 0;
      var i := 0;
      while i < capacity
        invariant 0 <= i <= capacity
        invariant cnt == CountUnpinned(frames[..i])
      {
        assert frames[..i + 1][..i] == frames[..i];
        if frames[i].pinCount == 0 {
          cnt := cnt + 1;
        }
        i := i + 1;
      }
      assert frames[..capacity] == frames[..];
    }

    /** forcePage: writes the frame holding the handle's page to the page file.
        The dirty bit and numWrite are left as they are. */
    method ForcePage(h: PageHandle) returns (rc: RC)
      requires hasPageFile && Wf()
      modifies this`disk
      ensures rc == ForcePageEffect(frames[..], old(disk), h.pageNum).0
      ensures disk == ForcePageEffect(frames[..], old(disk), h.pageNum).1
    {
      var fi := SearchPageFromBuffer(h.pageNum);
      if fi.None? {
        return RC_PAGE_NOT_EXIST;
      }
      var frame := frames[fi.value];
      var w := WriteBlock(EnsureCapacity(disk, h.pageNum + 1), frame.pageNum, frame.data);
      disk := w.1;
      if w.0 != RC_OK {
        return RC_WRITE_PAGE_FAILED;
      }
      rc := RC_OK;
    }

    /** forceFlushPool: every unpinned dirty frame is written back, made clean
        and counted as one write; all other frames are left alone. */
    method ForceFlushPool() returns (rc: RC)
      requires Valid()
      modifies frames, this`numWrite, this`disk
      ensures Valid()
      ensures !hasPageFile ==> rc == RC_BUFFER_NOT_INIT && unchanged(this, frames)
      ensures hasPageFile ==>
        && rc == RC_OK
        && frames[..] == FlushFrames(old(frames[..]))
        && numWrite == old(numWrite) + CountFlushable(old(frames[..]))
        && disk == FlushDisk(old(frames[..]), old(disk))
    {
      if !hasPageFile {
        return RC_BUFFER_NOT_INIT;
      }
      ghost var fs := frames[..];
      FlushAll();
      SamePagesKeepShape(fs, frames[..], frameCnt, front, rear);
      rc := RC_OK;
    }

    /** The loop of forceFlushPool: each frame that is unpinned and dirty is
        written to its page (ensureCapacity, then writeBlock, whose result is
        not inspected), marked clean and counted as a write. */
    method FlushAll()
      requires frames.Length == capacity
      modifies frames, this`numWrite, this`disk
      ensures frames[..] == FlushFrames(old(frames[..]))
      ensures numWrite == old(numWrite) + CountFlushable(old(frames[..]))
      ensures disk == FlushDisk(old(frames[..]), old(disk))
    {
      ghost var fs := frames[..];
      for i := 0 to capacity
        invariant forall j :: 0 <= j < i ==> frames[j] == FlushFrame(fs[j])
        invariant forall j :: i <= j < capacity ==> frames[j] == fs[j]
        invariant numWrite == old(numWrite) + CountFlushable(fs[..i])
        invariant disk == FlushDisk(fs[..i], old(disk))
      {
        assert fs[..i + 1][..i] == fs[..i];
        var frame := frames[i];
        if frame.pinCount == 0 && frame.dirtyBit == 1 {
          disk := StoreBlock(disk, frame.pageNum, frame.data).1;
          frames[i] := frame.(dirtyBit := 0);
          numWrite := numWrite + 1;
        }
      }
      assert fs[..capacity] == fs;
      assert frames[..] == FlushFrames(fs);
    }

    /** shutdownBufferPool: flushes the pool and detaches the page file. The
        frames are not checked for outstanding pins. */
    method ShutdownBufferPool() returns (rc: RC)
      requires Valid()
      modifies frames, this`numWrite, this`disk, this`hasPageFile
      ensures Valid()
      ensures !old(hasPageFile) ==> rc == RC_BUFFER_NOT_INIT && unchanged(this, frames)
      ensures old(hasPageFile) ==>
        && rc == RC_OK
        && !hasPageFile
        && numWrite == old(numWrite) + CountFlushable(old(frames[..]))
        && disk == FlushDisk(old(frames[..]), old(disk))
    {
      if !hasPageFile {
        return RC_BUFFER_NOT_INIT;
      }
      var ignored := ForceFlushPool();
      hasPageFile := false;
      rc := RC_OK;
    }

    /** markDirty: the frame holding the handle's page becomes dirty and takes
        the handle's buffer as its content. */
    method MarkDirty(h: PageHandle) returns (rc: RC)
      requires Valid() && hasPageFile
      modifies frames
      ensures Valid()
      ensures var fi := FindFrame(old(frames[..]), h.pageNum);
        && (fi.None? ==> rc == RC_PAGE_NOT_EXIST && unchanged(frames))
        && (fi.Some? ==>
              && rc == RC_OK
              && frames[..] == old(frames[..])[fi.value := old(frames[fi.value]).(dirtyBit := 1, data := h.data)])
    {
      var fi := SearchPageFromBuffer(h.pageNum);
      if fi.None? {
        return RC_PAGE_NOT_EXIST;
      }
      var i := fi.value;
      frames[i] := frames[i].(dirtyBit := 1, data := h.data);
      SamePagesKeepShape(old(frames[..]), frames[..], frameCnt, front, rear);
      rc := RC_OK;
    }

    /** updateLRUOrder: the first entry of arr equal to pageNum moves to the
        most-recent end, shifting the entries after it one place forward. */
    method UpdateLRUOrder(pageNum: int) returns (rc: RC)
      requires Valid() && hasPageFile && strategy == RS_LRU
      modifies arr
      ensures pageNum !in old(arr[..]) ==> rc == RC_PAGE_NOT_EXIST
      ensures pageNum in old(arr[..]) ==> rc == RC_OK
      ensures Valid()
      ensures arr[..] == LruTouched(old(arr[..]), pageNum)
    {
      var index := -1;
      var i := 0;
      while i < capacity
        invariant 0 <= i <= capacity
        invariant forall j :: 0 <= j < i ==> arr[j] != pageNum
      {
        if arr[i] == pageNum {
          index := i;
          break;
        }
        i := i + 1;
      }
      if index == -1 {
        return RC_PAGE_NOT_EXIST;
      }
      ghost var s := arr[..];
      assert IndexOf(s, pageNum) == Some(index);
      MoveToBackAt(index);
      MoveToBackPermutes(s, index);
      rc := RC_OK;
    }

    /** The shifting loop of updateLRUOrder: the entry at index moves to the
        most-recent end and the entries after it move one place forward. */
    method MoveToBackAt(index: nat)
      requires hasPageFile && Wf() && strategy == RS_LRU && index < capacity
      modifies arr
      ensures Wf()
      ensures arr[..] == MoveToBack(old(arr[..]), index)
    {
      ghost var s := arr[..];
      var updatePageNum := arr[index];
      var i := index;
      while i < capacity - 1
        invariant index <= i <= capacity - 1
        invariant forall j :: 0 <= j < index ==> arr[j] == s[j]
        invariant forall j :: index <= j < i ==> arr[j] == s[j + 1]
        invariant forall j :: i <= j < capacity ==> arr[j] == s[j]
      {
        arr[i] := arr[i + 1];
        i := i + 1;
      }
      arr[capacity - 1] := updatePageNum;
      assert arr[..] == MoveToBack(s, index);
    }

    /** unpinPage: the frame holding the handle's page loses one pin (the count
        may go below zero). Under LRU a full pool also refreshes the page's
        recency. A frame left unpinned and dirty is forced to disk, but stays
        dirty and is not counted as a write. */
    method UnpinPage(h: PageHandle) returns (rc: RC)
      requires Valid() && hasPageFile
      modifies frames, arr, this`disk
      ensures Valid()
      ensures var fi := FindFrame(old(frames[..]), h.pageNum);
        && (fi.None? ==> rc == RC_PAGE_NOT_EXIST && unchanged(frames, arr) && disk == old(disk))
        && (fi.Some? ==>
              && rc == RC_OK
              && frames[..] == old(frames[..])[fi.value := old(frames[fi.value]).(pinCount := old(frames[fi.value].pinCount) - 1)]
              && (if strategy == RS_LRU && frameCnt == capacity
                  then arr[..] == LruTouched(old(arr[..]), h.pageNum)
                  else arr[..] == old(arr[..]))
              && disk == (if Flushable(frames[fi.value])
                          then ForcePageEffect(frames[..], old(disk), h.pageNum).1
                          else old(disk)))
    {
      var fi := SearchPageFromBuffer(h.pageNum);
      if fi.None? {
        return RC_PAGE_NOT_EXIST;
      }
      var i := fi.value;
      ReleasePin(i);
      if strategy == RS_LRU && frameCnt == capacity {
        var ignored := UpdateLRUOrder(h.pageNum);
      }
      if frames[i].pinCount == 0 && frames[i].dirtyBit == 1 {
        var ignored := ForcePage(h);
      }
      rc := RC_OK;
    }

    /** The fix-count update of unpinPage: frame i loses one pin, with no
        lower bound. */
    method ReleasePin(i: nat)
      requires Valid() && hasPageFile && i < frames.Length
      modifies frames
      ensures Valid()
      ensures frames[..] == old(frames[..])[i := old(frames[i]).(pinCount := old(frames[i].pinCount) - 1)]
    {
      frames[i] := frames[i].(pinCount := frames[i].pinCount - 1);
      SamePagesKeepShape(old(frames[..]), frames[..], frameCnt, front, rear);
    }

    /** Reads page pageNum into frame slot after ensureCapacity(pageNum + 1):
        the frame now holds the page once pinned and clean, and numRead counts
        the read. */
    method LoadIntoFrame(slot: nat, pageNum: int) returns (data: Block)
      requires hasPageFile && slot < frames.Length && pageNum >= 0
      modifies frames, this`disk, this`numRead
      ensures disk == EnsureCapacity(old(disk), pageNum + 1)
      ensures data == disk[pageNum]
      ensures frames[..] == old(frames[..])[slot := LoadedFrame(pageNum, data)]
      ensures numRead == old(numRead) + 1
    {
      disk := EnsureCapacity(disk, pageNum + 1);
      data := disk[pageNum];
      numRead := numRead + 1;
      frames[slot] := LoadedFrame(pageNum, data);
    }

    /** The page file after an eviction whose victim's dirty state triggers a
        write-back: forcePage is called with the caller's handle, so the frame
        written is the one holding the handle's page, not necessarily the victim. */
    ghost function EvictionDisk(fs: seq<Frame>, v: nat, h: PageHandle, d: seq<Block>): seq<Block>
      requires v < |fs|
    {
      if Flushable(fs[v]) then ForcePageEffect(fs, d, h.pageNum).1 else d
    }

    /** removePageWithFIFO: with something resident and some frame unpinned,
        front skips the pinned frames, the frame it stops at is reset, numWrite
        counts a write-back if that frame was unpinned and dirty, front moves
        past the victim and rear sits right behind it. */
    method RemovePageWithFIFO(h: PageHandle) returns (rc: RC)
      requires Valid() && hasPageFile && strategy == RS_FIFO
      modifies frames, this`front, this`rear, this`frameCnt, this`numWrite, this`disk
      ensures Wf()
      ensures old(frameCnt) == 0 ==> rc == RC_BUFFER_EMPTY && unchanged(this, frames)
      ensures old(frameCnt) > 0 && CountUnpinned(old(frames[..])) == 0 ==>
                rc == RC_NO_FREE_PIN_PAGE && unchanged(this, frames)
      ensures old(frameCnt) > 0 && CountUnpinned(old(frames[..])) > 0 ==>
        var v := FifoVictim(old(frames[..]), old(front));
        && rc == RC_OK
        && frames[..] == old(frames[..])[v := ResetFrame(old(frames[v]))]
        && front == Next(v, capacity)
        && rear == Prev(v, capacity)
        && frameCnt == old(frameCnt) - 1
        && numWrite == old(numWrite) + (if Flushable(old(frames[v])) then 1 else 0)
        && disk == EvictionDisk(old(frames[..]), v, h, old(disk))
    {
      if IsEmpty() {
        return RC_BUFFER_EMPTY;
      }
      var cnt := CountUnpinnedFrames();
      if cnt == 0 {
        return RC_NO_FREE_PIN_PAGE;
      }
      SkipPinned();
      EvictAtFront(h);
      rc := RC_OK;
    }

    /** The skip loop of removePageWithFIFO: front advances circularly past
        every pinned frame and stops at the first frame whose fix count is not
        positive, which exists because some frame is unpinned. */
    method SkipPinned()
      requires hasPageFile && Wf() && CountUnpinned(frames[..]) > 0
      modifies this`front
      ensures front == FifoVictim(frames[..], old(front))
    {
      ghost var fs := frames[..];
      ghost var f0: nat := front;
      ghost var v := FifoVictim(fs, f0);
      ghost var dist := if f0 <= v then v - f0 else v + capacity - f0;
      ghost var d := 0;
      // terminates because the frame v is reached after dist steps
      while frames[front].pinCount > 0
        invariant 0 <= d <= dist && front == Circ(f0, d, capacity)
        decreases dist - d
      {
        front := Next(front, capacity);
        d := d + 1;
      }
      assert d == dist;
    }

    /** The eviction step of removePageWithFIFO once front names the victim:
        rear moves right behind it, a dirty unpinned victim triggers a
        write-back through forcePage with the caller's handle, front moves past
        it, and the victim frame is emptied. */
    method EvictAtFront(h: PageHandle)
      requires hasPageFile && Wf() && frameCnt > 0
      modifies frames, this`front, this`rear, this`frameCnt, this`numWrite, this`disk
      ensures Wf()
      ensures var v := old(front);
        && frames[..] == old(frames[..])[v := ResetFrame(old(frames[v]))]
        && front == Next(v, capacity)
        && rear == Prev(v, capacity)
        && frameCnt == old(frameCnt) - 1
        && numWrite == old(numWrite) + (if Flushable(old(frames[v])) then 1 else 0)
        && disk == EvictionDisk(old(frames[..]), v, h, old(disk))
    {
      if front == 0 {
        rear := capacity - 1;
      } else {
        rear := front - 1;
      }
      EvictFrame(h, front);
      front := Next(front, capacity);
    }

    /** The eviction step shared by both strategies: a write-back through the
        caller's handle when frame v is unpinned and dirty, then frame v is
        reset and frameCnt drops by one. */
    method EvictFrame(h: PageHandle, v: nat)
      requires hasPageFile && Wf() && frameCnt > 0 && v < capacity
      modifies frames, this`frameCnt, this`numWrite, this`disk
      ensures Wf()
      ensures frames[..] == old(frames[..])[v := ResetFrame(old(frames[v]))]
      ensures frameCnt == old(frameCnt) - 1
      ensures numWrite == old(numWrite) + (if Flushable(old(frames[v])) then 1 else 0)
      ensures disk == EvictionDisk(old(frames[..]), v, h, old(disk))
    {
      var frame := frames[v];
      if frame.pinCount == 0 && frame.dirtyBit == 1 {
        var ignored := ForcePage(h);
        numWrite := numWrite + 1;
      }
      frameCnt := frameCnt - 1;
      frames[v] := ResetFrame(frame);
      ResetKeepsNoDuplicates(old(frames[..]), v);
    }

    /** What every successful or failed pin through pinPage promises, for
        FIFO and LRU alike: a successful pin leaves the page resident in the
        frame whose data the handle carries; a hit does no I/O and adds one pin,
        a miss reads the page once into a frame with one pin and a clear dirty
        flag. Only FIFO can fail, when the pool is full and every frame is
        pinned, and then nothing changes. */
    twostate predicate PinOutcome(h: PageHandle, pageNum: int, rc: RC, h': PageHandle)
      reads this, frames, arr
      requires frames.Length == old(frames.Length)
    {
      var hit := FindFrame(old(frames[..]), pageNum);
      && (rc == RC_OK <==>
            strategy == RS_LRU || hit.Some? || old(frameCnt) < old(capacity) || CountUnpinned(old(frames[..])) > 0)
      && (rc != RC_OK ==>
            && rc == RC_NO_FREE_PIN_PAGE && h' == h && frames[..] == old(frames[..])
            && frameCnt == old(frameCnt) && numRead == old(numRead) && numWrite == old(numWrite)
            && disk == old(disk))
      && (rc == RC_OK ==>
            && h'.pageNum == pageNum
            && FindFrame(frames[..], pageNum).Some?
            && frames[FindFrame(frames[..], pageNum).value].data == h'.data)
      && (hit.Some? ==>
            && FindFrame(frames[..], pageNum) == hit
            && frames[hit.value].pinCount == old(frames[hit.value].pinCount) + 1
            && numRead == old(numRead) && numWrite == old(numWrite) && disk == old(disk))
      && (hit.None? && rc == RC_OK ==>
            && numRead == old(numRead) + 1
            && frames[FindFrame(frames[..], pageNum).value].pinCount == 1
            && frames[FindFrame(frames[..], pageNum).value].dirtyBit == 0)
    }

    /** pinPage: rejects a negative page number and an uninitialised pool,
        then dispatches on the replacement strategy. */
    method PinPage(h: PageHandle, pageNum: int) returns (rc: RC, h': PageHandle)
      requires Valid()
      requires (hasPageFile && strategy == RS_LRU && pageNum >= 0 &&
                FindFrame(frames[..], pageNum).None? && frameCnt == capacity) ==> LruVictimDefined()
      modifies frames, arr, this`front, this`rear, this`frameCnt, this`numRead, this`numWrite, this`disk
      ensures Valid()
      ensures pageNum < 0 ==> rc == RC_PARAMS_ERROR && h' == h && unchanged(this, frames, arr)
      ensures pageNum >= 0 && !old(hasPageFile) ==>
                rc == RC_BUFFER_NOT_INIT && h' == h && unchanged(this, frames, arr)
      ensures pageNum >= 0 && old(hasPageFile) && strategy != RS_FIFO && strategy != RS_LRU ==>
                rc == RC_NOT_SUPPORT_STRATEGY && h' == h && unchanged(this, frames, arr)
      ensures pageNum >= 0 && old(hasPageFile) && (strategy == RS_FIFO || strategy == RS_LRU) ==>
                frames.Length == old(frames.Length) && PinOutcome(h, pageNum, rc, h')
      ensures pageNum >= 0 && old(hasPageFile) && strategy == RS_FIFO ==>
                FifoPinOutcome(old(Snapshot()), h, pageNum, rc, h')
      ensures pageNum >= 0 && old(hasPageFile) && strategy == RS_LRU ==>
                LruPinOutcome(old(Snapshot()), h, pageNum, rc, h')
    {
      if pageNum < 0 {
        return RC_PARAMS_ERROR, h;
      }
      if !hasPageFile {
        return RC_BUFFER_NOT_INIT, h;
      }
      if strategy == RS_FIFO {
        rc, h' := PinFifoOutcome(h, pageNum);
      } else if strategy == RS_LRU {
        rc, h' := PinLruOutcome(h, pageNum);
      } else {
        return RC_NOT_SUPPORT_STRATEGY, h;
      }
    }

    /** pinPage under FIFO, summarised as PinOutcome. */
    method PinFifoOutcome(h: PageHandle, pageNum: int) returns (rc: RC, h': PageHandle)
      requires Valid() && hasPageFile && strategy == RS_FIFO && pageNum >= 0
      modifies frames, this`front, this`rear, this`frameCnt, this`numRead, this`numWrite, this`disk
      ensures Valid()
      ensures frames.Length == old(frames.Length) && PinOutcome(h, pageNum, rc, h')
      ensures FifoPinOutcome(old(Snapshot()), h, pageNum, rc, h')
    {
      ghost var fs := frames[..];
      ghost var hit := FindFrame(fs, pageNum);
      ghost var k: nat := if hit.Some? then hit.value
                          else if frameCnt < capacity then frameCnt
                          else if CountUnpinned(fs) > 0 then FifoVictim(fs, front)
                          else 0;
      rc, h' := PinPageWithFIFO(h, pageNum);
      if rc == RC_OK {
        FindFrameUnique(frames[..], pageNum, k);
      }
    }

    /** pinPage under LRU, summarised as PinOutcome. */
    method PinLruOutcome(h: PageHandle, pageNum: int) returns (rc: RC, h': PageHandle)
      requires Valid() && hasPageFile && strategy == RS_LRU && pageNum >= 0
      requires FindFrame(frames[..], pageNum).None? && frameCnt == capacity ==> LruVictimDefined()
      modifies frames, arr, this`frameCnt, this`numRead, this`numWrite, this`disk
      ensures Valid()
      ensures frames.Length == old(frames.Length) && PinOutcome(h, pageNum, rc, h')
      ensures LruPinOutcome(old(Snapshot()), h, pageNum, rc, h')
    {
      ghost var fs := frames[..];
      ghost var hit := FindFrame(fs, pageNum);
      ghost var k: nat := if hit.Some? then hit.value
                          else if frameCnt == capacity then FindFrame(fs, arr[0]).value
                          else IndexOf(arr[..], NO_PAGE).value;
      rc, h' := PinPageWithLRU(h, pageNum);
      FindFrameUnique(frames[..], pageNum, k);
    }

    /** pinPageWithFIFO: a resident page gains a pin with no I/O; a miss loads
        the page into the next free slot behind rear, or, in a full pool,
        into the frame removePageWithFIFO evicts, and fails with
        RC_NO_FREE_PIN_PAGE, changing nothing, when every frame is pinned. */
    method PinPageWithFIFO(h: PageHandle, pageNum: int) returns (rc: RC, h': PageHandle)
      requires Valid() && hasPageFile && strategy == RS_FIFO
      modifies frames, this`front, this`rear, this`frameCnt, this`numRead, this`numWrite, this`disk
      ensures Valid()
      ensures pageNum < 0 ==> rc == RC_PARAMS_ERROR && h' == h && unchanged(this, frames)
      ensures pageNum >= 0 && FindFrame(old(frames[..]), pageNum).Some? ==>
        var i := FindFrame(old(frames[..]), pageNum).value;
        && rc == RC_OK
        && h' == PageHandle(pageNum, old(frames[i].data))
        && frames[..] == old(frames[..])[i := old(frames[i]).(pinCount := old(frames[i].pinCount) + 1)]
        && front == old(front) && rear == old(rear) && frameCnt == old(frameCnt)
        && numRead == old(numRead) && numWrite == old(numWrite) && disk == old(disk)
      ensures pageNum >= 0 && FindFrame(old(frames[..]), pageNum).None? && old(frameCnt) < capacity ==>
        && rc == RC_OK
        && disk == EnsureCapacity(old(disk), pageNum + 1)
        && h' == PageHandle(pageNum, disk[pageNum])
        && frames[..] == old(frames[..])[old(frameCnt) := LoadedFrame(pageNum, disk[pageNum])]
        && front == old(front) && rear == old(frameCnt) && frameCnt == old(frameCnt) + 1
        && numRead == old(numRead) + 1 && numWrite == old(numWrite)
      ensures pageNum >= 0 && FindFrame(old(frames[..]), pageNum).None? && old(frameCnt) == capacity &&
              CountUnpinned(old(frames[..])) == 0 ==>
                rc == RC_NO_FREE_PIN_PAGE && h' == h && unchanged(this, frames)
      ensures pageNum >= 0 && FindFrame(old(frames[..]), pageNum).None? && old(frameCnt) == capacity &&
              CountUnpinned(old(frames[..])) > 0 ==>
        var v := FifoVictim(old(frames[..]), old(front));
        && rc == RC_OK
        && disk == EnsureCapacity(EvictionDisk(old(frames[..]), v, h, old(disk)), pageNum + 1)
        && h' == PageHandle(pageNum, disk[pageNum])
        && frames[..] == old(frames[..])[v := LoadedFrame(pageNum, disk[pageNum])]
        && front == Next(v, capacity) && rear == v && frameCnt == capacity
        && numRead == old(numRead) + 1
        && numWrite == old(numWrite) + (if Flushable(old(frames[v])) then 1 else 0)
    {
      if pageNum < 0 {
        return RC_PARAMS_ERROR, h;
      }
      var fi := SearchPageFromBuffer(pageNum);
      if fi.Some? {
        var data := PinResident(fi.value);
        return RC_OK, PageHandle(pageNum, data);
      }
      if IsFull() {
        rc, h' := PinEvictFIFO(h, pageNum);
      } else {
        rc, h' := PinFreeFIFO(pageNum);
      }
    }

    /** A FIFO miss in a full pool: removePageWithFIFO either finds every
        frame pinned or frees the victim's slot, which rear then reaches and
        the page is loaded into. */
    method PinEvictFIFO(h: PageHandle, pageNum: int) returns (rc: RC, h': PageHandle)
      requires Valid() && hasPageFile && strategy == RS_FIFO && frameCnt == capacity
      requires pageNum >= 0 && FindFrame(frames[..], pageNum).None?
      modifies frames, this`front, this`rear, this`frameCnt, this`numRead, this`numWrite, this`disk
      ensures Valid()
      ensures CountUnpinned(old(frames[..])) == 0 ==>
                rc == RC_NO_FREE_PIN_PAGE && h' == h && unchanged(this, frames)
      ensures CountUnpinned(old(frames[..])) > 0 ==>
        var v := FifoVictim(old(frames[..]), old(front));
        && rc == RC_OK
        && disk == EnsureCapacity(EvictionDisk(old(frames[..]), v, h, old(disk)), pageNum + 1)
        && h' == PageHandle(pageNum, disk[pageNum])
        && frames[..] == old(frames[..])[v := LoadedFrame(pageNum, disk[pageNum])]
        && front == Next(v, capacity) && rear == v && frameCnt == capacity
        && numRead == old(numRead) + 1
        && numWrite == old(numWrite) + (if Flushable(old(frames[v])) then 1 else 0)
    {
      ghost var fs := frames[..];
      var r := RemovePageWithFIFO(h);
      if r != RC_OK {
        return RC_NO_FREE_PIN_PAGE, h;
      }
      ghost var v := FifoVictim(fs, old(front));
      FifoEvictThenLoad(fs, old(front), old(rear), LoadedFrame(pageNum, []));
      var data := LoadAtNextRear(pageNum);
      h' := PageHandle(pageNum, data);
      assert frames[..] == fs[v := LoadedFrame(pageNum, data)];
      FifoEvictThenLoad(fs, old(front), old(rear), LoadedFrame(pageNum, data));
      rc := RC_OK;
    }

    /** A FIFO miss in a pool with a free frame: rear + 1 is slot frameCnt,
        which is empty, and the page is loaded there. */
    method PinFreeFIFO(pageNum: int) returns (rc: RC, h': PageHandle)
      requires Valid() && hasPageFile && strategy == RS_FIFO && frameCnt < capacity
      requires pageNum >= 0 && FindFrame(frames[..], pageNum).None?
      modifies frames, this`rear, this`frameCnt, this`numRead, this`disk
      ensures Valid()
      ensures rc == RC_OK
      ensures disk == EnsureCapacity(old(disk), pageNum + 1)
      ensures h' == PageHandle(pageNum, disk[pageNum])
      ensures frames[..] == old(frames[..])[old(frameCnt) := LoadedFrame(pageNum, disk[pageNum])]
      ensures rear == old(frameCnt) && frameCnt == old(frameCnt) + 1
      ensures numRead == old(numRead) + 1
    {
      ghost var fs := frames[..];
      FifoLoadIntoFree(fs, frameCnt, front, rear, LoadedFrame(pageNum, []));
      var data := LoadAtNextRear(pageNum);
      h' := PageHandle(pageNum, data);
      FifoLoadIntoFree(fs, old(frameCnt), old(front), old(rear), LoadedFrame(pageNum, data));
      rc := RC_OK;
    }

    /** The hit path of pinPage: the resident frame's fix count goes up by one
        and nothing else changes. */
    method PinResident(i: nat) returns (data: Block)
      requires Valid() && hasPageFile && i < frames.Length
      modifies frames
      ensures Valid()
      ensures data == old(frames[i].data)
      ensures frames[..] == old(frames[..])[i := old(frames[i]).(pinCount := old(frames[i].pinCount) + 1)]
    {
      frames[i] := frames[i].(pinCount := frames[i].pinCount + 1);
      SamePagesKeepShape(old(frames[..]), frames[..], frameCnt, front, rear);
      data := frames[i].data;
    }

    /** The load path of pinPageWithFIFO: rear advances to the next slot,
        which is free, and the page is read into it. */
    method LoadAtNextRear(pageNum: int) returns (data: Block)
      requires hasPageFile && Wf() && pageNum >= 0 && frameCnt < capacity
      requires FindFrame(frames[..], pageNum).None?
      requires frames[Next(rear, capacity)].pageNum == NO_PAGE
      modifies frames, this`rear, this`frameCnt, this`numRead, this`disk
      ensures Wf()
      ensures rear == Next(old(rear), capacity) && frameCnt == old(frameCnt) + 1
      ensures disk == EnsureCapacity(old(disk), pageNum + 1) && data == disk[pageNum]
      ensures frames[..] == old(frames[..])[rear := LoadedFrame(pageNum, data)]
      ensures numRead == old(numRead) + 1
    {
      rear := Next(rear, capacity);
      data := LoadIntoFrame(rear, pageNum);
      frameCnt := frameCnt + 1;
      LoadKeepsNoDuplicates(old(frames[..]), rear, LoadedFrame(pageNum, data));
    }

    /** The LRU victim that pinPageWithLRU needs on a miss in a full pool
        exists: some frame is unpinned and the least recently used page arr[0]
        is resident. Otherwise removePageWithLRU returns NULL and the load that
        follows dereferences it. */
    ghost predicate LruVictimDefined()
      reads this, frames, arr
    {
      && CountUnpinned(frames[..]) > 0
      && arr.Length > 0
      && FindFrame(frames[..], arr[0]).Some?
    }

    /** removePageWithLRU: with something resident, some frame unpinned and
        leastUsedPage resident, the frame holding leastUsedPage is emptied
        (whatever its own fix count), a write-back through the caller's handle
        happens when that frame was unpinned and dirty, and frameCnt drops by
        one; otherwise nothing changes and there is no victim. */
    method RemovePageWithLRU(h: PageHandle, leastUsedPage: int) returns (victim: Option<nat>)
      requires hasPageFile && Wf()
      modifies frames, this`frameCnt, this`numWrite, this`disk
      ensures Wf()
      ensures old(frameCnt) == 0 || CountUnpinned(old(frames[..])) == 0 ||
              FindFrame(old(frames[..]), leastUsedPage).None? ==>
                victim.None? && unchanged(this, frames)
      ensures old(frameCnt) > 0 && CountUnpinned(old(frames[..])) > 0 &&
              FindFrame(old(frames[..]), leastUsedPage).Some? ==>
        var v := FindFrame(old(frames[..]), leastUsedPage).value;
        && victim == Some(v)
        && frames[..] == old(frames[..])[v := ResetFrame(old(frames[v]))]
        && frameCnt == old(frameCnt) - 1
        && numWrite == old(numWrite) + (if Flushable(old(frames[v])) then 1 else 0)
        && disk == EvictionDisk(old(frames[..]), v, h, old(disk))
    {
      if IsEmpty() {
        return None;
      }
      var cnt := CountUnpinnedFrames();
      if cnt == 0 {
        return None;
      }
      var found := SearchPageFromBuffer(leastUsedPage);
      if found.None? {
        return None;
      }
      EvictFrame(h, found.value);
      victim := found;
    }

    /** The recency update of pinPageWithLRU after an eviction: every entry
        moves one slot towards the front, dropping arr[0], and pageNum goes
        last. */
    method ShiftInRecency(pageNum: int)
      requires Valid() && hasPageFile && strategy == RS_LRU && frameCnt == capacity && pageNum >= 0
      modifies arr
      ensures Valid()
      ensures arr[..] == ShiftIn(old(arr[..]), pageNum)
    {
      ghost var s := arr[..];
      for i := 0 to capacity - 1
        invariant forall j :: 0 <= j < i ==> arr[j] == s[j + 1]
        invariant forall j :: i <= j < capacity ==> arr[j] == s[j]
      {
        arr[i] := arr[i + 1];
      }
      arr[capacity - 1] := pageNum;
      assert arr[..] == ShiftIn(s, pageNum);
      ShiftInMultiset(s, pageNum);
    }

    /** The free-slot search of pinPageWithLRU: the first entry of arr that is
        NO_PAGE. */
    method FindFreeSlot() returns (k: Option<nat>)
      requires hasPageFile && Wf() && strategy == RS_LRU
      ensures k == IndexOf(arr[..], NO_PAGE)
    {
      var i := 0;
      while i < capacity
        invariant 0 <= i <= capacity
        invariant IndexOf(arr[..], NO_PAGE) == IndexFrom(arr[..], NO_PAGE, i)
      {
        if arr[i] == NO_PAGE {
          return Some(i);
        }
        i := i + 1;
      }
      return None;
    }

    /** The part of the pool a pin can change, as one value. */
    ghost function Snapshot(): PoolView
      reads this, frames, arr
    {
      PoolView(frames[..], arr[..], front, rear, frameCnt, numRead, numWrite, disk)
    }

    /** The outcome of an LRU pin of a resident page, against the state s0 before
        it: the page's frame gains a pin, the page becomes the most recently
        used, and there is no I/O. */
    ghost predicate LruHitOutcome(s0: PoolView, pageNum: int, rc: RC, h': PageHandle)
      reads this, frames, arr
    {
      && FindFrame(s0.frames, pageNum).Some?
      && var i := FindFrame(s0.frames, pageNum).value;
      && rc == RC_OK
      && h' == PageHandle(pageNum, s0.frames[i].data)
      && frames[..] == s0.frames[i := s0.frames[i].(pinCount := s0.frames[i].pinCount + 1)]
      && arr[..] == LruTouched(s0.arr, pageNum)
      && frameCnt == s0.frameCnt
      && numRead == s0.numRead && numWrite == s0.numWrite && disk == s0.disk
    }

    /** The outcome of an LRU miss in a full pool: the frame holding the least
        recently used page (the head of the recency list) is evicted and
        receives the page, and the page enters the list at the most-recent end. */
    ghost predicate LruFullOutcome(s0: PoolView, h: PageHandle, pageNum: int, rc: RC, h': PageHandle)
      reads this, frames, arr
    {
      && |s0.arr| > 0
      && FindFrame(s0.frames, s0.arr[0]).Some?
      && var v := FindFrame(s0.frames, s0.arr[0]).value;
      && rc == RC_OK
      && disk == EnsureCapacity(EvictionDisk(s0.frames, v, h, s0.disk), pageNum + 1)
      && 0 <= pageNum < |disk|
      && h' == PageHandle(pageNum, disk[pageNum])
      && frames[..] == s0.frames[v := LoadedFrame(pageNum, disk[pageNum])]
      && arr[..] == ShiftIn(s0.arr, pageNum)
      && frameCnt == s0.frameCnt
      && numRead == s0.numRead + 1
      && numWrite == s0.numWrite + (if Flushable(s0.frames[v]) then 1 else 0)
    }

    /** The outcome of an LRU miss in a pool that is not full: the first free
        slot k of the recency list receives the page, and so does frame k. */
    ghost predicate LruFreeOutcome(s0: PoolView, pageNum: int, rc: RC, h': PageHandle)
      reads this, frames, arr
    {
      && IndexOf(s0.arr, NO_PAGE).Some?
      && var k := IndexOf(s0.arr, NO_PAGE).value;
      && k < |s0.frames|
      && rc == RC_OK
      && disk == EnsureCapacity(s0.disk, pageNum + 1)
      && 0 <= pageNum < |disk|
      && h' == PageHandle(pageNum, disk[pageNum])
      && frames[..] == s0.frames[k := LoadedFrame(pageNum, disk[pageNum])]
      && arr[..] == s0.arr[k := pageNum]
      && frameCnt == s0.frameCnt + 1
      && numRead == s0.numRead + 1 && numWrite == s0.numWrite
    }

    /** The outcome of an LRU pin of a non-negative page number against the
        state s0 before it, by case: hit, miss in a full pool, miss in a pool
        that is not full. */
    ghost predicate LruPinOutcome(s0: PoolView, h: PageHandle, pageNum: int, rc: RC, h': PageHandle)
      reads this, frames, arr
    {
      var hit := FindFrame(s0.frames, pageNum);
      && (hit.Some? ==> LruHitOutcome(s0, pageNum, rc, h'))
      && (hit.None? && s0.frameCnt == capacity ==> LruFullOutcome(s0, h, pageNum, rc, h'))
      && (hit.None? && s0.frameCnt < capacity ==> LruFreeOutcome(s0, pageNum, rc, h'))
    }

    /** The outcome of a FIFO pin of a non-negative page number against the
        state s0 before it, by case: a hit adds one pin and does no I/O; a miss
        in a pool that is not full loads the page into slot frameCnt behind
        rear; a miss in a full pool fails, changing nothing, when every frame
        is pinned, and otherwise replaces the FIFO victim, front moving past
        it and rear onto it. */
    ghost predicate FifoPinOutcome(s0: PoolView, h: PageHandle, pageNum: int, rc: RC, h': PageHandle)
      reads this, frames, arr
    {
      var hit := FindFrame(s0.frames, pageNum);
      && arr[..] == s0.arr
      && (hit.Some? ==>
            var i := hit.value;
            && rc == RC_OK
            && h' == PageHandle(pageNum, s0.frames[i].data)
            && frames[..] == s0.frames[i := s0.frames[i].(pinCount := s0.frames[i].pinCount + 1)]
            && front == s0.front && rear == s0.rear && frameCnt == s0.frameCnt
            && numRead == s0.numRead && numWrite == s0.numWrite && disk == s0.disk)
      && (hit.None? && 0 <= s0.frameCnt < capacity == |s0.frames| ==>
            && rc == RC_OK
            && disk == EnsureCapacity(s0.disk, pageNum + 1)
            && 0 <= pageNum < |disk|
            && h' == PageHandle(pageNum, disk[pageNum])
            && frames[..] == s0.frames[s0.frameCnt := LoadedFrame(pageNum, disk[pageNum])]
            && front == s0.front && rear == s0.frameCnt && frameCnt == s0.frameCnt + 1
            && numRead == s0.numRead + 1 && numWrite == s0.numWrite)
      && (hit.None? && s0.frameCnt == capacity && CountUnpinned(s0.frames) == 0 ==>
            && rc == RC_NO_FREE_PIN_PAGE && h' == h && frames[..] == s0.frames
            && front == s0.front && rear == s0.rear && frameCnt == s0.frameCnt
            && numRead == s0.numRead && numWrite == s0.numWrite && disk == s0.disk)
      && (hit.None? && s0.frameCnt == capacity && CountUnpinned(s0.frames) > 0 &&
          0 <= s0.front < |s0.frames| ==>
            var v := FifoVictim(s0.frames, s0.front);
            && rc == RC_OK
            && disk == EnsureCapacity(EvictionDisk(s0.frames, v, h, s0.disk), pageNum + 1)
            && 0 <= pageNum < |disk|
            && h' == PageHandle(pageNum, disk[pageNum])
            && frames[..] == s0.frames[v := LoadedFrame(pageNum, disk[pageNum])]
            && front == Next(v, capacity) && rear == v && frameCnt == capacity
            && numRead == s0.numRead + 1
            && numWrite == s0.numWrite + (if Flushable(s0.frames[v]) then 1 else 0))
    }

    /** pinPageWithLRU: a resident page gains a pin and becomes the most
        recently used; a miss evicts the least recently used page when the
        pool is full and takes the first free slot otherwise. */
    method PinPageWithLRU(h: PageHandle, pageNum: int) returns (rc: RC, h': PageHandle)
      requires Valid() && hasPageFile && strategy == RS_LRU
      requires (pageNum >= 0 && FindFrame(frames[..], pageNum).None? && frameCnt == capacity) ==>
                 LruVictimDefined()
      modifies frames, arr, this`frameCnt, this`numRead, this`numWrite, this`disk
      ensures Valid()
      ensures pageNum < 0 ==> rc == RC_PARAMS_ERROR && h' == h && unchanged(this, frames, arr)
      ensures pageNum >= 0 && FindFrame(old(frames[..]), pageNum).Some? ==>
        LruHitOutcome(old(Snapshot()), pageNum, rc, h')
      ensures pageNum >= 0 && FindFrame(old(frames[..]), pageNum).None? && old(frameCnt) == capacity ==>
        LruFullOutcome(old(Snapshot()), h, pageNum, rc, h')
      ensures pageNum >= 0 && FindFrame(old(frames[..]), pageNum).None? && old(frameCnt) < capacity ==>
        LruFreeOutcome(old(Snapshot()), pageNum, rc, h')
    {
      if pageNum < 0 {
        return RC_PARAMS_ERROR, h;
      }
      var fi := SearchPageFromBuffer(pageNum);
      if fi.Some? {
        rc, h' := PinHitLRU(fi.value, pageNum);
        return;
      }
      if IsFull() {
        rc, h' := PinFullLRU(h, pageNum);
      } else {
        rc, h' := PinFreeLRU(pageNum);
      }
    }

    /** The miss path of pinPageWithLRU in a full pool: the least recently used
        page is evicted and the new page is loaded into its frame and recorded
        as the most recent. */
    method PinFullLRU(h: PageHandle, pageNum: int) returns (rc: RC, h': PageHandle)
      requires Valid() && hasPageFile && strategy == RS_LRU && frameCnt == capacity
      requires pageNum >= 0 && FindFrame(frames[..], pageNum).None? && LruVictimDefined()
      modifies frames, arr, this`frameCnt, this`numRead, this`numWrite, this`disk
      ensures Valid()
      ensures LruFullOutcome(old(Snapshot()), h, pageNum, rc, h')
    {
      var data;
      ghost var v;
      v, data := ReplaceLeastRecent(h, arr[0], pageNum);
      h' := PageHandle(pageNum, data);
      ShiftInRecency(pageNum);
      rc := RC_OK;
    }

    /** The frame side of a full-pool miss under LRU: the frame holding the
        least recently used page is evicted and then receives pageNum. */
    method ReplaceLeastRecent(h: PageHandle, least: int, pageNum: int) returns (v: nat, data: Block)
      requires Valid() && hasPageFile && strategy == RS_LRU && frameCnt == capacity
      requires pageNum >= 0 && FindFrame(frames[..], pageNum).None?
      requires CountUnpinned(frames[..]) > 0 && FindFrame(frames[..], least).Some?
      modifies frames, this`frameCnt, this`numRead, this`numWrite, this`disk
      ensures Valid()
      ensures v == FindFrame(old(frames[..]), least).value
      ensures disk == EnsureCapacity(EvictionDisk(old(frames[..]), v, h, old(disk)), pageNum + 1)
      ensures data == disk[pageNum]
      ensures frames[..] == old(frames[..])[v := LoadedFrame(pageNum, data)]
      ensures frameCnt == old(frameCnt)
      ensures numRead == old(numRead) + 1
      ensures numWrite == old(numWrite) + (if Flushable(old(frames[v])) then 1 else 0)
    {
      ghost var fs := frames[..];
      var victim := RemovePageWithLRU(h, least);
      v := victim.value;
      data := LoadIntoFrame(v, pageNum);
      frameCnt := frameCnt + 1;
      assert frames[..] == fs[v := LoadedFrame(pageNum, data)];
      LoadKeepsNoDuplicates(fs, v, LoadedFrame(pageNum, data));
    }

    /** The hit path of pinPageWithLRU: frame i, which holds pageNum, gains a
        pin and pageNum becomes the most recently used entry of arr. */
    method PinHitLRU(i: nat, pageNum: int) returns (rc: RC, h': PageHandle)
      requires Valid() && hasPageFile && strategy == RS_LRU
      requires FindFrame(frames[..], pageNum) == Some(i)
      modifies frames, arr
      ensures Valid()
      ensures LruHitOutcome(old(Snapshot()), pageNum, rc, h')
    {
      var data := PinResident(i);
      var ignored := UpdateLRUOrder(pageNum);
      return RC_OK, PageHandle(pageNum, data);
    }

    /** The miss path of pinPageWithLRU in a pool that is not full: the first
        free slot k of arr is taken, and frame k, which is a frame index the
        recency list happens to share, receives the new page. */
    method PinFreeLRU(pageNum: int) returns (rc: RC, h': PageHandle)
      requires Valid() && hasPageFile && strategy == RS_LRU && frameCnt < capacity
      requires pageNum >= 0 && FindFrame(frames[..], pageNum).None?
      modifies frames, arr, this`frameCnt, this`numRead, this`disk
      ensures Valid()
      ensures LruFreeOutcome(old(Snapshot()), pageNum, rc, h')
    {
      ghost var fs := frames[..];
      ghost var s := arr[..];
      LruFreeSlotExists();
      var k := FindFreeSlot();
      if k.None? {
        // unreachable: the pool invariant keeps a free slot per free frame
        assert false;
      }
      var slot := k.value;
      var data := LoadIntoFrame(slot, pageNum);
      h' := PageHandle(pageNum, data);
      frameCnt := frameCnt + 1;
      arr[slot] := pageNum;
      FillSlotCount(s, slot, pageNum);
      LoadKeepsNoDuplicates(fs, slot, LoadedFrame(pageNum, data));
      rc := RC_OK;
    }

    /** Under FIFO, frameCnt is the number of occupied frames, so isFull and
        isEmpty agree with the frames: full exactly when no frame is empty,
        empty exactly when every frame is. */
    lemma FifoOccupancy()
      requires Valid() && hasPageFile && strategy == RS_FIFO
      ensures frameCnt == CountOccupied(frames[..])
      ensures IsFull() <==> forall i :: 0 <= i < capacity ==> frames[i].pageNum != NO_PAGE
      ensures IsEmpty() <==> forall i :: 0 <= i < capacity ==> frames[i].pageNum == NO_PAGE
    {
      PrefixOccupancyCount(frames[..], frameCnt);
      if !IsFull() {
        assert frames[frameCnt].pageNum == NO_PAGE;
      }
      if !IsEmpty() {
        assert frames[0].pageNum != NO_PAGE;
      }
    }

    /** Under LRU a pool that is not full always has a free entry in arr, so
        the free-slot search of pinPageWithLRU never fails. */
    lemma LruFreeSlotExists()
      requires Valid() && hasPageFile && strategy == RS_LRU && !IsFull()
      ensures NO_PAGE in arr[..] && IndexOf(arr[..], NO_PAGE).Some?
    {
      assert NO_PAGE in multiset(arr[..]);
    }

    /** getFrameContents. */
    method GetFrameContents() returns (a: array<int>)
      requires Valid() && hasPageFile
      ensures fresh(a) && a[..] == PageNums(frames[..])
    {
      a := new int[capacity];
      for i := 0 to capacity
        invariant forall j :: 0 <= j < i ==> a[j] == frames[j].pageNum
      {
        a[i] := frames[i].pageNum;
      }
    }

    /** getDirtyFlags. */
    method GetDirtyFlags() returns (a: array<int>)
      requires Valid() && hasPageFile
      ensures fresh(a) && a[..] == DirtyFlags(frames[..])
    {
      a := new int[capacity];
      for i := 0 to capacity
        invariant forall j :: 0 <= j < i ==> a[j] == frames[j].dirtyBit
      {
        a[i] := frames[i].dirtyBit;
      }
    }

    /** getFixCounts. */
    method GetFixCounts() returns (a: array<int>)
      requires Valid() && hasPageFile
      ensures fresh(a) && a[..] == FixCounts(frames[..])
    {
      a := new int[capacity];
      for i := 0 to capacity
        invariant forall j :: 0 <= j < i ==> a[j] == frames[j].pinCount
      {
        a[i] := frames[i].pinCount;
      }
    }

    /** getNumReadIO: the number of pages loaded since initialisation. */
    function GetNumReadIO(): (n: int)
      reads this, frames, arr
      requires Valid() && hasPageFile
      ensures n == numRead && n >= 0
    {
      numRead
    }

    /** getNumWriteIO: the number of write-backs counted since initialisation. */
    function GetNumWriteIO(): (n: int)
      reads this, frames, arr
      requires Valid() && hasPageFile
      ensures n == numWrite && n >= 0
    {
      numWrite
    }
  }
}
