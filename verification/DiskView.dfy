/** The file system that a disk holds: typed blocks in the regions of the layout,
    read as inodes, entries and allocation sets. */
module DiskView {
  import opened FileTree
  import opened DiskLayout
  import opened Bitmap

  /** Each region holds blocks of its kind. */
  ghost predicate WellTyped(d: seq<Block>, l: Layout) {
    && Contiguous(l, |d|) && d[0] == Super
    && IsBitmap(d, l.dataBitmapStart, l.dataBitmapBlocks)
    && IsBitmap(d, l.inodeBitmapStart, l.inodeBitmapBlocks)
    && forall k :: l.inodeBlocksStart <= k < l.dataBlocksStart ==> d[k].Inodes? && |d[k].list| == INODES_PER_BLOCK
  }

  /** Block of inode n within the inode region, and its place in that block. */
  function InodeBlock(n: nat): (b: nat)
    ensures 8 * b <= n < 8 * b + 8
  {
    n / INODES_PER_BLOCK
  }

  function InodeOffset(n: nat): (o: nat)
    ensures o < 8 && n == 8 * InodeBlock(n) + o
  {
    n - INODES_PER_BLOCK * InodeBlock(n)
  }

  ghost function InodeAt(d: seq<Block>, l: Layout, n: nat): Inode
    requires WellTyped(d, l) && n < l.totalInodes
  {
    d[l.inodeBlocksStart + InodeBlock(n)].list[InodeOffset(n)]
  }

  /** The inode has a bit, and it is set. */
  ghost predicate InodeUsed(d: seq<Block>, l: Layout, n: nat)
    requires WellTyped(d, l)
  {
    && n < BITS_PER_BLOCK * l.inodeBitmapBlocks
    && (InBitmap(d, l.inodeBitmapStart, l.inodeBitmapBlocks, n);
        Status(d, l.inodeBitmapStart, n) == 1)
  }

  /** How many inodes have a bit. */
  function InodesWithBits(l: Layout): int {
    if InodesHaveBits(l) then l.totalInodes else BITS_PER_BLOCK * l.inodeBitmapBlocks
  }

  ghost predicate BlockUsed(d: seq<Block>, l: Layout, n: nat)
    requires WellTyped(d, l) && n < l.dataBlocks
  {
    InBitmap(d, l.dataBitmapStart, l.dataBitmapBlocks, n);
    Status(d, l.dataBitmapStart, n) == 1
  }

  ghost function View(d: seq<Block>, l: Layout): Fs
    requires WellTyped(d, l)
  {
    Fs(l.dataBlocksStart,
       seq(l.totalInodes, n requires 0 <= n < l.totalInodes && WellTyped(d, l) => InodeAt(d, l, n)),
       d[l.dataBlocksStart..],
       set n: nat | n < l.totalInodes && InodeUsed(d, l, n),
       set n: nat | n < l.dataBlocks && BlockUsed(d, l, n))
  }

  /** Two disks that agree on a region hold the same there. */
  ghost predicate Agree(d: seq<Block>, d': seq<Block>, lo: int, hi: int) {
    |d| == |d'| && forall k :: 0 <= k < |d| && lo <= k < hi ==> d[k] == d'[k]
  }

  lemma SameInodes(d: seq<Block>, d': seq<Block>, l: Layout)
    requires WellTyped(d, l) && WellTyped(d', l) && Agree(d, d', l.inodeBlocksStart, l.dataBlocksStart)
    ensures View(d', l).inodes == View(d, l).inodes
  {
    forall n: nat | n < l.totalInodes
      ensures InodeAt(d', l, n) == InodeAt(d, l, n)
    {
    }
  }

  lemma SameInodeBits(d: seq<Block>, d': seq<Block>, l: Layout)
    requires WellTyped(d, l) && WellTyped(d', l) && Agree(d, d', l.inodeBitmapStart, l.inodeBlocksStart)
    ensures View(d', l).usedInodes == View(d, l).usedInodes
  {
    forall n: nat | n < l.totalInodes
      ensures InodeUsed(d', l, n) == InodeUsed(d, l, n)
    {
      if n < BITS_PER_BLOCK * l.inodeBitmapBlocks {
        InBitmap(d, l.inodeBitmapStart, l.inodeBitmapBlocks, n);
      }
    }
  }

  lemma SameBlockBits(d: seq<Block>, d': seq<Block>, l: Layout)
    requires WellTyped(d, l) && WellTyped(d', l) && Agree(d, d', l.dataBitmapStart, l.inodeBitmapStart)
    ensures View(d', l).usedBlocks == View(d, l).usedBlocks
  {
    forall n: nat | n < l.dataBlocks
      ensures BlockUsed(d', l, n) == BlockUsed(d, l, n)
    {
      InBitmap(d, l.dataBitmapStart, l.dataBitmapBlocks, n);
    }
  }

  /** set_inode on the disk is an update of one inode. */
  lemma PutInode(d: seq<Block>, d': seq<Block>, l: Layout, n: nat, node: Inode)
    requires WellTyped(d, l) && n < l.totalInodes
    requires var k := l.inodeBlocksStart + InodeBlock(n); d' == d[k := Inodes(d[k].list[InodeOffset(n) := node])]
    ensures WellTyped(d', l) && View(d', l) == View(d, l).(inodes := View(d, l).inodes[n := node])
  {
    SameInodeBits(d, d', l);
    SameBlockBits(d, d', l);
    assert d'[l.dataBlocksStart..] == d[l.dataBlocksStart..];
    forall m: nat | m < l.totalInodes
      ensures InodeAt(d', l, m) == if m == n then node else InodeAt(d, l, m)
    {
    }
    assert View(d', l).inodes == View(d, l).inodes[n := node];
  }

  /** Setting an inode bit allocates that inode. */
  lemma PutInodeBit(d: seq<Block>, l: Layout, n: nat)
    requires WellTyped(d, l) && n < l.totalInodes && Locate(n).block < l.inodeBitmapBlocks
    ensures var d' := Assigned(d, l.inodeBitmapStart, n, 1);
            WellTyped(d', l) && View(d', l) == View(d, l).(usedInodes := View(d, l).usedInodes + {n})
  {
    var d' := Assigned(d, l.inodeBitmapStart, n, 1);
    SameInodes(d, d', l);
    SameBlockBits(d, d', l);
    assert d'[l.dataBlocksStart..] == d[l.dataBlocksStart..];
    forall m: nat | m < l.totalInodes
      ensures InodeUsed(d', l, m) == (m == n || InodeUsed(d, l, m))
    {
      if m < BITS_PER_BLOCK * l.inodeBitmapBlocks {
        AssignOne(d, l.inodeBitmapStart, l.inodeBitmapBlocks, n, 1, m);
      }
    }
    assert View(d', l).usedInodes == View(d, l).usedInodes + {n};
  }

  /** Setting a data bit allocates that block. */
  lemma PutBlockBit(d: seq<Block>, l: Layout, n: nat)
    requires WellTyped(d, l) && n < l.dataBlocks && Locate(n).block < l.dataBitmapBlocks
    ensures var d' := Assigned(d, l.dataBitmapStart, n, 1);
            WellTyped(d', l) && View(d', l) == View(d, l).(usedBlocks := View(d, l).usedBlocks + {n})
  {
    var d' := Assigned(d, l.dataBitmapStart, n, 1);
    SameInodes(d, d', l);
    SameInodeBits(d, d', l);
    assert d'[l.dataBlocksStart..] == d[l.dataBlocksStart..];
    forall m: nat | m < l.dataBlocks
      ensures BlockUsed(d', l, m) == (m == n || BlockUsed(d, l, m))
    {
      AssignOne(d, l.dataBitmapStart, l.dataBitmapBlocks, n, 1, m);
    }
    assert View(d', l).usedBlocks == View(d, l).usedBlocks + {n};
  }

  /** Writing a data block. */
  lemma PutBlock(d: seq<Block>, l: Layout, n: nat, block: Block)
    requires WellTyped(d, l) && n < l.dataBlocks
    ensures var d' := d[l.dataBlocksStart + n := block];
            WellTyped(d', l) && View(d', l) == View(d, l).(data := View(d, l).data[n := block])
  {
    var d' := d[l.dataBlocksStart + n := block];
    SameInodes(d, d', l);
    SameInodeBits(d, d', l);
    SameBlockBits(d, d', l);
    assert d'[l.dataBlocksStart..] == d[l.dataBlocksStart..][n := block];
  }
}
