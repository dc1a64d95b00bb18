/** The page file as the buffer manager sees it: a sequence of fixed-size blocks.
    The storage manager itself is not part of this model; these functions state
    the behaviour the buffer manager relies on. */
module StorageMgr {
  import opened DbError

  type Byte = bv8

  /** The content of one disk block. */
  type Block = seq<Byte>

  /** A block of PAGE_SIZE zero bytes, as appended by ensureCapacity. */
  function ZeroBlock(): (b: Block)
    ensures |b| == PAGE_SIZE
    ensures forall k :: 0 <= k < |b| ==> b[k] == 0
  {
    seq(PAGE_SIZE, _ => 0)
  }

  /** ensureCapacity: the file afterwards holds at least n blocks; existing
      blocks are kept and the missing ones are appended as zero blocks. */
  function EnsureCapacity(disk: seq<Block>, n: int): (d: seq<Block>)
    ensures |d| == if n <= |disk| then |disk| else n
    ensures d[..|disk|] == disk
    ensures forall k :: |disk| <= k < |d| ==> d[k] == ZeroBlock()
  {
    if n <= |disk| then disk else disk + seq(n - |disk|, _ => ZeroBlock())
  }

  /** writeBlock: stores b as block p, or fails when p is not a block of the file. */
  function WriteBlock(disk: seq<Block>, p: int, b: Block): (r: (RC, seq<Block>))
    ensures r.0 == RC_OK <==> 0 <= p < |disk|
    ensures r.0 != RC_OK ==> r.0 == RC_WRITE_NON_EXISTING_PAGE && r.1 == disk
    ensures r.0 == RC_OK ==> |r.1| == |disk| && r.1[p] == b
    ensures forall k :: 0 <= k < |disk| && k != p ==> r.1[k] == disk[k]
  {
    if 0 <= p < |disk| then (RC_OK, disk[p := b]) else (RC_WRITE_NON_EXISTING_PAGE, disk)
  }

  /** ensureCapacity(p + 1) followed by writeBlock(p): the write-back step the
      buffer manager performs for a frame holding page p. */
  function StoreBlock(disk: seq<Block>, p: int, b: Block): (r: (RC, seq<Block>))
    ensures r.0 == RC_OK <==> p >= 0
    ensures p >= 0 ==> p < |r.1| && r.1[p] == b
    ensures |r.1| >= |disk|
    ensures forall k :: 0 <= k < |disk| && k != p ==> r.1[k] == disk[k]
  {
    WriteBlock(EnsureCapacity(disk, p + 1), p, b)
  }
}
