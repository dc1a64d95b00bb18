# Buffer pool manager (assign2)

A Dafny model of the buffer pool manager of a small teaching database
system. The manager keeps a fixed number of page frames in memory.
Pages of one page file are served through a pin/unpin protocol. When the
pool is full, a page is evicted with one of two strategies:

- FIFO, with circular `front`/`rear` indices;
- LRU, with a recency list `arr` that holds the least recently used page first.

The model has four modules:

- `DbError` holds the page size and the return codes.
- `StorageMgr` holds the page file as the buffer manager sees it: a
  sequence of blocks, with `ensureCapacity` and `writeBlock` as functions.
- `Frames` holds the frame and handle values. It also has the pure
  specification functions: residency lookup, the FIFO victim, the
  recency-list updates, the flush effect and the statistics views. The
  lemmas about them are there too.
- `BufferMgr` holds the class `BufferPool`. It joins the caller's pool
  record (page file, strategy, frames) and the manager's bookkeeping
  record (`front`, `rear`, `frameCnt`, `capacity`, `numRead`, `numWrite`,
  `arr`). Each public operation is a method that mutates these fields in
  place, has a loop wherever the C code has one, and is proved against
  the functions of `Frames`.

The pool invariant `Valid` says the following:

- `0 <= frameCnt <= capacity`.
- No two frames hold the same page.
- Under FIFO, exactly the first `frameCnt` frames are occupied. `rear` is
  the last occupied frame until the pool fills, and from then on it sits
  right behind `front`.
- Under LRU, `arr` has one free slot (`NO_PAGE`) for each frame that is
  not counted in `frameCnt`.

Every operation preserves `Valid`, except the two eviction routines,
`removePageWithFIFO` and `removePageWithLRU`. They keep only the structural
part `Wf` (bounds and no duplicate residency). Inside a pin they run
between the full-pool test and the load that follows, and that load
restores `Valid`. Both are also declared in assign2/buffer_mgr.h, so a
client may call them on their own; afterwards the pool satisfies only
`Wf`, and the other operations, which require `Valid`, are not modelled
from such a state.

`BufferMgrScenarios` replays concrete call sequences, such as the FIFO
and LRU eviction orders, the dirty write-back on eviction and the flush
at shutdown, and proves their outcomes.

The model follows what the code does, including these behaviours:

- `forcePage` neither clears the dirty bit nor counts a write. A frame
  written out by `unpinPage` therefore stays dirty. The next flush or
  eviction writes it again and counts that write once.
- `unpinPage` does not reject a frame whose pin count is already 0. The
  count goes negative.
- `shutdownBufferPool` does not check for pinned frames, although the
  comment above it (assign2/buffer_mgr.c:77) says that it should raise an
  error when pinned pages remain.
- A failed pin leaves no partial change in the model. This is because the
  failing read paths of the C code cannot happen for the abstract page
  file (see Left out).

## Model

| member | source | states |
|---|---|---|
| DbError.Code | assign2/dberror.h:12-27 | the numeric code of a return code: 0 exactly for RC_OK, the storage-manager codes exactly the ones between 1 and 99, every code below 200 |
| StorageMgr.ZeroBlock | assign2/buffer_mgr.c:42 | a fresh frame buffer and an appended block are PAGE_SIZE zero bytes |
| StorageMgr.EnsureCapacity | assign2/buffer_mgr.c:146 | the page file afterwards has at least n blocks; existing blocks keep their content and the appended ones are zero blocks |
| StorageMgr.WriteBlock | assign2/buffer_mgr.c:265-267 | the write succeeds exactly when the page is a block of the file, and then stores the buffer there; otherwise RC_WRITE_NON_EXISTING_PAGE and the file is unchanged; other blocks never change |
| StorageMgr.StoreBlock | assign2/buffer_mgr.c:146-148 | ensureCapacity(p + 1) then writeBlock(p) succeeds exactly for p >= 0, and then block p holds the buffer; the file never shrinks and other blocks keep their content |
| Frames.FindFrom | assign2/buffer_mgr.c:544-549 | the scan from index i returns the first frame at or after i holding page p, or None exactly when no such frame exists |
| Frames.FindFrame | assign2/buffer_mgr.c:542-550 | the first frame holding page p, with no earlier frame holding it; None exactly when no frame holds p |
| Frames.FindFrameUnique | assign2/buffer_mgr.c:542-550 | without duplicate residency, any frame holding a real page is the one the lookup returns |
| Frames.CountUnpinned | assign2/buffer_mgr.c:500-509 | the number of frames with pin count 0, positive exactly when some frame has pin count 0 |
| Frames.ScanUnpinned | assign2/buffer_mgr.c:512-517 | the circular offset from front at which the skip loop stops (first frame whose pin count is not positive, every frame passed being pinned), or None when all remaining frames are pinned |
| Frames.ScanFindsUnpinned | assign2/buffer_mgr.c:500-517 | once the count check finds an unpinned frame, the circular skip loop stops within one turn (its termination argument) |
| Frames.CircCovers | assign2/buffer_mgr.c:515 | stepping circularly from front reaches every frame index within capacity steps |
| Frames.FifoVictim | assign2/buffer_mgr.c:512-517 | the FIFO victim has a pin count that is not positive, and every frame between front and it, circularly, is pinned |
| Frames.IndexFrom | assign2/buffer_mgr.c:337-342 | the first position of x in the recency list at or after i, or None exactly when x does not occur there |
| Frames.IndexOf | assign2/buffer_mgr.c:335-346 | the first position of x in the recency list; None exactly when x is not in it |
| Frames.SentinelCount | assign2/buffer_mgr.c:63-65 | a list of sentinels only has one free slot per entry |
| Frames.FreeSlots | assign2/buffer_mgr.c:62-66 | the recency list initBufferPool creates: n entries, all NO_PAGE, i.e. n free slots |
| Frames.NextIsMod | assign2/buffer_mgr.c:301 | the circular successor used by the model is (k + 1) % n on every index the queue uses, including rear = -1 |
| Frames.LruTouched | assign2/buffer_mgr.c:332-354 | updateLRUOrder as a function: the list keeps its length, a page that occurs in it ends up last, and a page that does not occur leaves it unchanged |
| Frames.MoveToBack | assign2/buffer_mgr.c:348-352 | the list after the entry at i is moved to the most-recent end: same length, that entry last |
| Frames.ShiftIn | assign2/buffer_mgr.c:466-470 | the list after an LRU eviction: same length, the new page last |
| Frames.MoveToBackPermutes | assign2/buffer_mgr.c:348-352 | moving the entry at i to the end keeps the length, puts that entry last, keeps every other entry in its relative order and is a permutation |
| Frames.LruTouchedPermutes | assign2/buffer_mgr.c:332-354 | updateLRUOrder only reorders the recency list: same length, same multiset |
| Frames.ShiftInMultiset | assign2/buffer_mgr.c:466-470 | the eviction shift drops exactly arr[0], moves every other entry one place towards the front and adds the new page at the end |
| Frames.FillSlotCount | assign2/buffer_mgr.c:472 | storing a page into a free slot of the recency list uses up exactly one free slot |
| Frames.PageNums | assign2/buffer_mgr.c:565-567 | entry i is the page number of frame i |
| Frames.DirtyFlags | assign2/buffer_mgr.c:584-587 | entry i is the dirty bit of frame i |
| Frames.FixCounts | assign2/buffer_mgr.c:604-606 | entry i is the fix count of frame i |
| Frames.ProjectionsUpdate | assign2/buffer_mgr.c:555-609 | replacing one frame changes the three statistics views at that index only |
| Frames.CountOccupied | assign2/buffer_mgr.c:480-489 | the number of frames holding a page is at most the number of frames |
| Frames.PrefixOccupancyCount | assign2/buffer_mgr.c:301-327 | when exactly the first k frames are occupied, k is the number of occupied frames |
| Frames.ForcePageEffect | assign2/buffer_mgr.c:240-272 | RC_PAGE_NOT_EXIST exactly when no frame holds the page (file unchanged); RC_WRITE_PAGE_FAILED exactly for a resident page whose number is negative; on RC_OK the page's block holds the frame's buffer; other blocks never change |
| Frames.FlushFrames | assign2/buffer_mgr.c:143-154 | frame i after the flush loop is frame i made clean exactly when it was unpinned and dirty |
| Frames.CountFlushable | assign2/buffer_mgr.c:144-152 | the number of writes the flush loop counts is at most the number of frames |
| Frames.FlushDisk | assign2/buffer_mgr.c:143-154 | the page file after the flush loop has visited the frames in order; it never shrinks |
| Frames.FlushLeavesNothingFlushable | assign2/buffer_mgr.c:143-154 | after a flush no frame is both unpinned and dirty; frames that were not flushable, including pinned dirty ones, are untouched |
| Frames.FlushDiskKeepsOthers | assign2/buffer_mgr.c:143-154 | the flush never shrinks the page file and leaves the block of every page no flushable frame holds as it was |
| Frames.FlushDiskStoresFrame | assign2/buffer_mgr.c:143-154 | after the flush, the block of every page held by a flushable frame holds that frame's buffer |
| Frames.SamePagesKeepShape | assign2/buffer_mgr.c:176-177 | changing pins, dirty bits or buffers only keeps both no duplicate residency and the FIFO queue shape |
| Frames.LoadKeepsNoDuplicates | assign2/buffer_mgr.c:318 | loading a page that no frame holds never creates duplicate residency |
| Frames.ResetKeepsNoDuplicates | assign2/buffer_mgr.c:535-537 | emptying a frame never creates duplicate residency |
| Frames.EmptyFrames | assign2/buffer_mgr.c:35-44 | initBufferPool's frames: n frames with NO_PAGE, pin count 0, dirty bit 0 and a zeroed buffer |
| Frames.EmptyFramesShape | assign2/buffer_mgr.c:35-60 | a fresh pool has no duplicates and is an empty FIFO queue with front 0 and rear -1 |
| Frames.FifoLoadIntoFree | assign2/buffer_mgr.c:301-327 | in a non-full FIFO pool, (rear + 1) is slot frameCnt, that frame is empty, and loading there keeps the queue shape with rear on the new frame |
| Frames.FifoEvictThenLoad | assign2/buffer_mgr.c:518-529 | after a FIFO eviction, (rear + 1) is the victim's index, so the following load reuses the victim's slot, leaves the pool full with front right after it, and keeps the queue shape |
| BufferMgr.NewFrames | assign2/buffer_mgr.c:35-44 | a fresh frame array whose every frame is empty, unpinned, clean and zeroed |
| BufferMgr.NewRecencyList | assign2/buffer_mgr.c:62-66 | a fresh recency array whose every slot is -1 |
| BufferMgr.BufferPool.Valid | assign2/buffer_mgr.c:47-68 | the pool invariant of an initialised pool: 0 <= frameCnt <= capacity, one frame per capacity slot, no page in two frames, the FIFO queue shape under FIFO, and one free arr slot per uncounted frame under LRU |
| BufferMgr.BufferPool.IsFull | assign2/buffer_mgr.c:480-483 | isFull: frameCnt has reached capacity; FifoOccupancy proves that under FIFO this means no frame is empty |
| BufferMgr.BufferPool.IsEmpty | assign2/buffer_mgr.c:486-489 | isEmpty: frameCnt is 0; FifoOccupancy proves that under FIFO this means every frame is empty |
| BufferMgr.BufferPool.constructor | assign2/buffer_mgr.h:23-29 | a pool record before initialisation has no page file attached and satisfies the invariant |
| BufferMgr.BufferPool.InitBufferPool | assign2/buffer_mgr.c:18-71 | RC_PARAMS_ERROR for numPages <= 0 and RC_FILE_NOT_FOUND for a missing file, both changing nothing; otherwise RC_OK with every frame NO_PAGE/0/0, front 0, rear -1, frameCnt 0, both counters 0, every LRU slot -1, and the invariant established |
| BufferMgr.BufferPool.Attach | assign2/buffer_mgr.c:34-68 | the successful part of initialisation sets exactly the initial state listed for InitBufferPool |
| BufferMgr.BufferPool.InitialPoolValid | assign2/buffer_mgr.c:47-68 | the initial state satisfies the pool invariant |
| BufferMgr.BufferPool.SearchPageFromBuffer | assign2/buffer_mgr.c:542-550 | the linear scan returns the first frame holding the page, or None when no frame holds it |
| BufferMgr.BufferPool.CountUnpinnedFrames | assign2/buffer_mgr.c:500-506 | the count loop returns the number of frames with pin count 0 |
| BufferMgr.BufferPool.ForcePage | assign2/buffer_mgr.c:240-272 | the return code and new page file of forcePage are ForcePageEffect: RC_PAGE_NOT_EXIST for an absent page, otherwise the frame's buffer is written to its page; frames and counters do not change |
| BufferMgr.BufferPool.ForceFlushPool | assign2/buffer_mgr.c:124-157 | RC_BUFFER_NOT_INIT without a page file, changing nothing; otherwise exactly the unpinned dirty frames are made clean and written back, numWrite grows by their number, and the invariant is kept |
| BufferMgr.BufferPool.FlushAll | assign2/buffer_mgr.c:143-154 | the flush loop produces FlushFrames, adds CountFlushable to numWrite, and leaves the page file as FlushDisk |
| BufferMgr.BufferPool.ShutdownBufferPool | assign2/buffer_mgr.c:78-120 | RC_BUFFER_NOT_INIT when not initialised, changing nothing; otherwise the pool is flushed (the same writes and count as forceFlushPool) and the page file is detached, whatever the pins |
| BufferMgr.BufferPool.MarkDirty | assign2/buffer_mgr.c:160-179 | RC_PAGE_NOT_EXIST when no frame holds the page, frames unchanged; otherwise only that frame changes, becoming dirty with the handle's buffer |
| BufferMgr.BufferPool.UpdateLRUOrder | assign2/buffer_mgr.c:332-354 | RC_PAGE_NOT_EXIST exactly when the page is absent from arr, which then stays as it was; otherwise its first occurrence moves to the end and the other entries keep their order; the invariant is kept |
| BufferMgr.BufferPool.MoveToBackAt | assign2/buffer_mgr.c:348-352 | the shifting loop turns arr into MoveToBack of the old list at index |
| BufferMgr.BufferPool.UnpinPage | assign2/buffer_mgr.c:210-237 | RC_PAGE_NOT_EXIST when no frame holds the page, nothing changes; otherwise only that frame loses one pin (no lower bound), under LRU a full pool refreshes the page's recency, and a frame left unpinned and dirty is forced to the page file while staying dirty |
| BufferMgr.BufferPool.ReleasePin | assign2/buffer_mgr.c:226 | frame i loses exactly one pin, nothing else changes, and the invariant is kept |
| BufferMgr.BufferPool.LoadIntoFrame | assign2/buffer_mgr.c:304-320 | the page file is extended to pageNum + 1 blocks, the frame receives block pageNum pinned once and clean, and numRead grows by one |
| BufferMgr.BufferPool.RemovePageWithFIFO | assign2/buffer_mgr.c:493-539 | RC_BUFFER_EMPTY for an empty pool and RC_NO_FREE_PIN_PAGE when every frame is pinned, both changing nothing; otherwise the FIFO victim is reset, frameCnt drops by one, numWrite counts a write-back exactly when the victim was unpinned and dirty, front moves past the victim and rear sits right behind it |
| BufferMgr.BufferPool.SkipPinned | assign2/buffer_mgr.c:512-517 | the skip loop terminates with front on the FIFO victim |
| BufferMgr.BufferPool.EvictAtFront | assign2/buffer_mgr.c:518-537 | the frame at front is reset, rear goes right behind it, front goes right after it, and the write-back is counted when the frame was unpinned and dirty |
| BufferMgr.BufferPool.EvictFrame | assign2/buffer_mgr.c:381-391 | frame v is reset, frameCnt drops by one, and numWrite counts a write-back (through the caller's handle) exactly when v was unpinned and dirty |
| BufferMgr.BufferPool.PinPage | assign2/buffer_mgr.c:183-206 | RC_PARAMS_ERROR for a negative page, RC_BUFFER_NOT_INIT without a page file and RC_NOT_SUPPORT_STRATEGY for other strategies, all changing nothing. Otherwise it has the full outcome of the strategy's pin routine, case by case (FifoPinOutcome, LruPinOutcome): a hit changes only that frame's pin count (and under LRU moves the page to the end of arr) and keeps frameCnt, a miss in a non-full pool raises frameCnt by one, and only the loaded frame changes. The common summary PinOutcome adds that a successful pin leaves the page resident with the handle carrying its frame's buffer, and that only FIFO can fail, with RC_NO_FREE_PIN_PAGE and no change |
| BufferMgr.BufferPool.PinFifoOutcome | assign2/buffer_mgr.c:198-199 | the FIFO dispatch of pinPage has the full case-by-case outcome of pinPageWithFIFO (FifoPinOutcome) and the common pin outcome stated for PinPage |
| BufferMgr.BufferPool.PinLruOutcome | assign2/buffer_mgr.c:200-201 | the LRU dispatch of pinPage has the full case-by-case outcome of pinPageWithLRU (LruPinOutcome) and the common pin outcome stated for PinPage |
| BufferMgr.BufferPool.PinPageWithFIFO | assign2/buffer_mgr.c:274-330 | a hit adds one pin to the resident frame with no I/O and no other change; a miss in a non-full pool loads the page into slot frameCnt (rear + 1), pinned once and clean, with one read; in a full pool it fails with RC_NO_FREE_PIN_PAGE, changing nothing, when every frame is pinned, and otherwise loads the page into the FIFO victim's slot, counting the victim's write-back |
| BufferMgr.BufferPool.PinEvictFIFO | assign2/buffer_mgr.c:295-327 | a full-pool FIFO miss either fails with nothing changed or replaces the FIFO victim by the page, with one read and the victim's write-back counted |
| BufferMgr.BufferPool.PinFreeFIFO | assign2/buffer_mgr.c:301-327 | a FIFO miss in a non-full pool loads the page into slot frameCnt with one read and keeps the invariant |
| BufferMgr.BufferPool.PinResident | assign2/buffer_mgr.c:287-291 | the resident frame gains exactly one pin and the handle gets its buffer; nothing else changes |
| BufferMgr.BufferPool.LoadAtNextRear | assign2/buffer_mgr.c:301-327 | rear advances circularly, the page is read into that empty frame, frameCnt and numRead grow by one, and no duplicate residency arises |
| BufferMgr.BufferPool.RemovePageWithLRU | assign2/buffer_mgr.c:356-394 | no victim and no change for an empty pool, an all-pinned pool or a least-used page that is not resident; otherwise the frame holding that page is reset whatever its own pin count, frameCnt drops by one and the write-back is counted when it was unpinned and dirty |
| BufferMgr.BufferPool.ShiftInRecency | assign2/buffer_mgr.c:466-470 | the shift loop drops arr[0], moves the other entries one place forward and puts the page last, keeping the invariant |
| BufferMgr.BufferPool.FindFreeSlot | assign2/buffer_mgr.c:425-430 | the search loop returns the first free slot of arr, or None when there is none |
| BufferMgr.BufferPool.PinPageWithLRU | assign2/buffer_mgr.c:396-476 | RC_PARAMS_ERROR for a negative page, changing nothing; a hit adds one pin and makes the page the most recent, with no I/O; a miss in a full pool evicts the frame holding arr[0], loads the page there, shifts it into arr as most recent, and counts the write-back; a miss in a non-full pool takes the first free slot k of arr and loads the page into frame k |
| BufferMgr.BufferPool.PinFullLRU | assign2/buffer_mgr.c:420-423 | a full-pool LRU miss has the outcome stated for that case of PinPageWithLRU |
| BufferMgr.BufferPool.ReplaceLeastRecent | assign2/buffer_mgr.c:420-463 | the frame holding the least recently used page is evicted and then receives the page pinned once and clean, with one read and the victim's write-back counted |
| BufferMgr.BufferPool.PinHitLRU | assign2/buffer_mgr.c:408-415 | an LRU hit adds one pin to the resident frame and moves the page to the most-recent end of arr |
| BufferMgr.BufferPool.PinFreeLRU | assign2/buffer_mgr.c:425-472 | an LRU miss in a non-full pool finds a free slot k (the not-found branch cannot happen), loads the page into frame k and records it in slot k |
| BufferMgr.BufferPool.FifoOccupancy | assign2/buffer_mgr.c:480-489 | under FIFO, frameCnt is the number of occupied frames, so isFull holds exactly when no frame is empty and isEmpty exactly when every frame is |
| BufferMgr.BufferPool.LruFreeSlotExists | assign2/buffer_mgr.c:425-433 | under LRU a pool that is not full always has a free slot in arr |
| BufferMgr.BufferPool.GetFrameContents | assign2/buffer_mgr.c:555-569 | a fresh array whose entry i is the page number of frame i |
| BufferMgr.BufferPool.GetDirtyFlags | assign2/buffer_mgr.c:573-589 | a fresh array whose entry i is the dirty bit of frame i |
| BufferMgr.BufferPool.GetFixCounts | assign2/buffer_mgr.c:593-609 | a fresh array whose entry i is the fix count of frame i |
| BufferMgr.BufferPool.GetNumReadIO | assign2/buffer_mgr.c:610-615 | the read counter, never negative |
| BufferMgr.BufferPool.GetNumWriteIO | assign2/buffer_mgr.c:616-621 | the write counter, never negative |
| BufferMgrScenarios.PinUnpinFifo | assign2/buffer_mgr.c:301-327 | pinning and unpinning a new page in a non-full FIFO pool fills slot frameCnt with that page, unpinned and clean, with one read |
| BufferMgrScenarios.FifoLoadThree | assign2/buffer_mgr.c:274-330 | three pin/unpin pairs fill a three-frame FIFO pool with pages 1, 2, 3 in order, with three reads |
| BufferMgrScenarios.FifoOrder | assign2/buffer_mgr.c:493-539 | after pages 1, 2, 3, pinning page 4 evicts page 1, the oldest, giving contents [4, 2, 3] and four reads |
| BufferMgrScenarios.PinUnpinLruFree | assign2/buffer_mgr.c:425-472 | pinning and unpinning a new page in a non-full LRU pool puts it in frame k and slot k, the first free slot |
| BufferMgrScenarios.UnpinAt | assign2/buffer_mgr.c:210-237 | unpinning a resident page in a FIFO pool or a non-full pool lowers its frame's pin count by one and leaves the page numbers, the dirty flags and arr as they were |
| BufferMgrScenarios.PinLruFree | assign2/buffer_mgr.c:425-472 | an LRU miss in a non-full pool puts the page in frame k and slot k, pinned once |
| BufferMgrScenarios.PinLruHit | assign2/buffer_mgr.c:408-415 | an LRU hit adds one pin and moves the page to the end of arr |
| BufferMgrScenarios.PinLruEvict | assign2/buffer_mgr.c:420-470 | an LRU miss in a full pool replaces the frame holding arr[0] and shifts the page into arr |
| BufferMgrScenarios.LruLoadTwo | assign2/buffer_mgr.c:396-476 | two pin/unpin pairs in a three-frame LRU pool give arr [1, 2, -1] and frames [1, 2, -1] |
| BufferMgrScenarios.LruLoadThree | assign2/buffer_mgr.c:396-476 | pinning page 3 as well fills the pool: arr [1, 2, 3], frames [1, 2, 3], fix counts [0, 0, 1] |
| BufferMgrScenarios.LruRefreshOne | assign2/buffer_mgr.c:408-415 | pinning page 1 again in the full pool makes it the most recent: arr [2, 3, 1], frames unchanged |
| BufferMgrScenarios.LruOrder | assign2/buffer_mgr.c:420-470 | after page 1 is used again, page 4 evicts page 2, the least recently used, not page 1: contents [1, 4, 3], arr [3, 1, 4] |
| BufferMgrScenarios.LruPinTwice | assign2/buffer_mgr.c:408-415 | pinning page 1 twice gives frame 0 two pins and arr [-1, -1, 1] |
| BufferMgrScenarios.LruSlotReuse | assign2/buffer_mgr.c:425-434 | since the first free slot of arr is taken as the frame index, page 2 is then loaded into frame 0 over page 1: contents [2, -1, -1], arr [2, -1, 1], frameCnt 2 |
| BufferMgrScenarios.PinFifoFree | assign2/buffer_mgr.c:301-327 | a FIFO miss in a non-full pool puts the page in slot frameCnt, pinned once and clean, with one read |
| BufferMgrScenarios.FifoAllPinned | assign2/buffer_mgr.c:295-298 | with both frames of a FIFO pool pinned, a third page fails with RC_NO_FREE_PIN_PAGE and the contents stay [1, 2] |
| BufferMgrScenarios.DirtyUnpinned | assign2/buffer_mgr.c:160-237 | pin, markDirty with buffer d and unpin leave the frame unpinned, still dirty, holding d, with no write counted |
| BufferMgrScenarios.DirtyWriteBack | assign2/buffer_mgr.c:524-527 | evicting that dirty page counts one write, and the page file holds d for page 1 |
| BufferMgrScenarios.ShutdownFlush | assign2/buffer_mgr.c:78-120 | shutting that pool down counts one write, stores d for page 1 and detaches the page file |

## Left out

- The file-existence check (`fopen`/`fclose`) is a parameter: `InitBufferPool` takes the file's content, or None for a missing file.
- The storage manager's source is not part of this model. `openPageFile` and `closePageFile` have no counterpart. `ensureCapacity` and `writeBlock` are the functions of `StorageMgr`. `readBlock` after `ensureCapacity(pageNum + 1)` always returns block `pageNum`.
- The RC_READ_NON_EXISTING_PAGE and RC_READ_PAGE_FALIED returns of both pin routines are not modelled. Over the abstract page file, `ensureCapacity` and `readBlock` cannot fail.
- Memory allocation and release (`calloc`, `malloc`, `free`, resetting references to NULL) are not modelled. Shutdown is modelled as the flush plus detaching the page file. `numPages` is represented by `capacity`.
- Aliasing of frame buffers is not modelled. Buffers are values: a handle receives a copy of its frame's buffer, and markDirty copies the handle's buffer into the frame. A write through a handle without markDirty therefore does not reach the frame.
- The NULL checks on `bm` and `page` (RC_PARAMS_ERROR, and -1 from the counter getters) are not modelled. Object references in Dafny are never null.
- `unpinPage`, `markDirty`, `forcePage` and the statistics getters dereference the pool's bookkeeping without checking that a page file is attached. The model requires an initialised pool for them.
- PinPageWithLRU, PinPage: an LRU miss in a full pool needs `LruVictimDefined` (some frame unpinned and `arr[0]` resident). Otherwise `removePageWithLRU` returns NULL, and the code that follows dereferences it.
- The `stratData` parameter and the CLOCK, LFU and LRU_K strategies are not modelled. They exist only as the RC_NOT_SUPPORT_STRATEGY branch of `pinPage`.
- RemovePageWithFIFO, RemovePageWithLRU: they promise only `Wf`, not `Valid`. A successful FIFO removal leaves `frameCnt < capacity` while `front` may be non-zero, and an LRU removal lowers `frameCnt` without freeing a slot of `arr`. So the model does not cover a client that calls them outside a pin and then continues with other operations.
- The bookkeeping record is one process-wide global in the C code (`bmi`, assign2/buffer_mgr.c:12, 54, 111-112). The model gives each `BufferPool` its own `front`, `rear`, `frameCnt`, `capacity`, counters and `arr`. So interference between pools is not captured: a second `initBufferPool` resetting the first pool's queue and counters, or one `shutdownBufferPool` freeing the record of every pool.
- The C `int` counters, pin counts and page numbers are unbounded integers in the model. Overflow is not modelled.
- Console output, the error macros and the statistics printing functions are not modelled.
- Residency lookup compares page numbers as the C code does, including `NO_PAGE`. A handle whose page number is -1 therefore finds the first empty frame.
- FIFO occupancy (`FifoOccupancy`) is proved for FIFO only. Under LRU, `LruSlotReuse` shows that `frameCnt` can exceed the number of occupied frames, so the statement does not hold there.
