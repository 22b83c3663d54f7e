/** The block file system over its disk. */
module FileSystem {
  import opened Options
  import opened FileTree
  import opened DiskLayout
  import opened Bitmap
  import opened DiskView
  import Paths

  const NAME_SIZE := 508

  class FileSystem {
    const disk: array<Block>
    var info: Layout
    var buffer: seq<bv8>

    ghost predicate Typed()
      reads this, disk
    {
      WellTyped(disk[..], info)
    }

    ghost function Fs(): Fs
      reads this, disk
      requires Typed()
    {
      View(disk[..], info)
    }

    /** The disk holds a tree. */
    ghost predicate Valid()
      reads this, disk
    {
      Typed() && Inv(Fs())
    }

    // -------------------------------------------------------- sfs_init

    /** A disk of m times 8 MB that nothing has been written to, formatted. */
    constructor (m: nat)
      requires 1 <= m && EIGHT_MB * m <= INT_MAX
      ensures Valid() && info == GetMetadataInfo(EIGHT_MB * m) && fresh(disk)
      ensures Fs().usedInodes == {0} && Fs().usedBlocks == {0} && NoPointers(Fs())
      ensures disk[0] == Super && FreshInodes(Fs())
      ensures forall comps :: comps != [] ==> Walk(Fs(), comps) == None
    {
      LayoutTilesDisk(m);
      disk := new Block[EIGHT_MB * m / BLOCK_SIZE](i => Raw);
      info := GetMetadataInfo(EIGHT_MB * m);
      buffer := seq(BLOCK_SIZE, i => 0);
      new;
      WriteMetadata();
      WriteRoot();
      forall comps | comps != []
        ensures Walk(Fs(), comps) == None
      {
        EmptyTree(Fs(), comps);
      }
    }

    /** The superblock, both bitmaps from the zeroed buffer, and blank inodes. */
    method WriteMetadata()
      requires Contiguous(info, disk.Length) && buffer == seq(BLOCK_SIZE, i => 0)
      modifies disk
      ensures Typed() && Formatted(disk[..], info)
    {
      var node := BLANK;
      disk[0] := Super;
      var count := 1;
      while count < info.inodeBlocksStart
        invariant 1 <= count <= info.inodeBlocksStart && disk[0] == Super
        invariant forall k :: 1 <= k < count ==> disk[k] == Bits(buffer)
      {
        disk[count] := Bits(buffer);
        count := count + 1;
      }
      while count < info.dataBlocksStart
        invariant info.inodeBlocksStart <= count <= info.dataBlocksStart && disk[0] == Super
        invariant forall k :: 1 <= k < info.inodeBlocksStart ==> disk[k] == Bits(buffer)
        invariant forall k :: info.inodeBlocksStart <= k < count ==>
                                disk[k] == Inodes(seq(INODES_PER_BLOCK, i => BLANK))
      {
        disk[count] := Inodes(seq(INODES_PER_BLOCK, i => node));
        assert disk[count].list == seq(INODES_PER_BLOCK, i => BLANK);
        count := count + 1;
      }
    }

    /** The root directory: inode 0 and data block 0. */
    method WriteRoot()
      requires Typed() && Formatted(disk[..], info)
      modifies this`buffer, disk
      ensures Valid() && Fs().usedInodes == {0} && Fs().usedBlocks == {0}
      ensures NoPointers(Fs()) && FreshInodes(Fs())
    {
      FormattedView(disk[..], info);
      ghost var s := Fs();
      var root := GetInode(0);
      assert root == s.inodes[0];
      SetInode(0, root.(size := 12 * BLOCK_SIZE, flags := 1));
      MarkRoot();
      WriteBlock(0, Entry("", 0));
      RootOnly(s, Fs());
    }

    method MarkRoot()
      requires Typed()
      modifies this`buffer, disk
      ensures Typed() && Fs() == Taken(old(Fs()), 0, 0)
    {
      ghost var d := disk[..];
      SetStatus(info.inodeBitmapStart, 0, 1, info.inodeBitmapBlocks);
      PutInodeBit(d, info, 0);
      d := disk[..];
      SetStatus(info.dataBitmapStart, 0, 1, info.dataBitmapBlocks);
      PutBlockBit(d, info, 0);
    }

    // -------------------------------------------------------- bitmaps

    /** check_inode_status and check_dataregion_status; start is the first block of
        the bitmap in question. */
    method CheckStatus(start: nat, n: nat, ghost blocks: nat) returns (bit: int)
      requires IsBitmap(disk[..], start, blocks) && n < BITS_PER_BLOCK * blocks
      modifies this`buffer
      ensures Locate(n).block < blocks && bit == Status(disk[..], start, n)
    {
      InBitmap(disk[..], start, blocks, n);
      var blkNumber := n / BITS_PER_BLOCK;
      buffer := disk[start + blkNumber].bytes;
      var byteOffset := (n - BITS_PER_BLOCK * blkNumber) / 8;
      var dataBits := buffer[byteOffset];
      var bitOffset := n - BITS_PER_BLOCK * blkNumber - byteOffset * 8;
      bit := GetBit(dataBits, 7 - bitOffset);
    }

    /** set_inode_status and set_dataregion_status. */
    method SetStatus(start: nat, n: nat, status: int, ghost blocks: nat)
      requires IsBitmap(disk[..], start, blocks) && n < BITS_PER_BLOCK * blocks && 0 <= status <= 1
      modifies this`buffer, disk
      ensures Locate(n).block < blocks && IsBitmap(old(disk[..]), start, blocks)
      ensures disk[..] == Assigned(old(disk[..]), start, n, status)
    {
      InBitmap(disk[..], start, blocks, n);
      var blkNumber := n / BITS_PER_BLOCK;
      buffer := disk[start + blkNumber].bytes;
      var byteOffset := (n - BITS_PER_BLOCK * blkNumber) / 8;
      var dataBits := buffer[byteOffset];
      var bitOffset := n - BITS_PER_BLOCK * blkNumber - byteOffset * 8;
      buffer := buffer[byteOffset := SetBit(dataBits, 7 - bitOffset, status)];
      disk[start + blkNumber] := Bits(buffer);
    }

    /** find_free_inode and find_free_datablock: the least index below total whose
        bit is clear, or -1 when there is none. Where there are fewer bits than
        indices, one of the bits has to be clear. */
    method FindFree(start: nat, total: nat, ghost blocks: nat) returns (r: int)
      requires IsBitmap(disk[..], start, blocks)
      requires total <= BITS_PER_BLOCK * blocks || SomeClear(disk[..], start, BITS_PER_BLOCK * blocks)
      modifies this`buffer
      ensures -1 <= r < total
      ensures forall n: nat :: n < (if r == -1 then total else r) ==>
                                 Locate(n).block < blocks && Status(disk[..], start, n) == 1
      ensures r != -1 ==> Locate(r).block < blocks && Status(disk[..], start, r) == 0
    {
      for i := 0 to total
        invariant forall n: nat :: n < i ==> Locate(n).block < blocks && Status(disk[..], start, n) == 1
      {
        assert i < BITS_PER_BLOCK * blocks;
        var bit := CheckStatus(start, i, blocks);
        if bit == 0 {
          return i;
        }
      }
      return -1;
    }

    // -------------------------------------------------------- inodes

    method GetInode(n: nat) returns (node: Inode)
      requires Typed() && n < info.totalInodes
      ensures node == InodeAt(disk[..], info, n)
    {
      var blkNumber := InodeBlock(n);
      var offset := n - INODES_PER_BLOCK * blkNumber;
      node := disk[info.inodeBlocksStart + blkNumber].list[offset];
    }

    method SetInode(n: nat, node: Inode)
      requires Typed() && n < info.totalInodes
      modifies disk
      ensures Typed() && Fs() == old(Fs()).(inodes := old(Fs()).inodes[n := node])
    {
      ghost var d := disk[..];
      var blkNumber := InodeBlock(n);
      var block := disk[info.inodeBlocksStart + blkNumber];
      var offset := n - INODES_PER_BLOCK * blkNumber;
      disk[info.inodeBlocksStart + blkNumber] := Inodes(block.list[offset := node]);
      PutInode(d, disk[..], info, n, node);
    }

    // -------------------------------------------------------- lookup

    /** The loop over the direct pointers in find_path_block. */
    method SearchFolder(n: nat, node: Inode, name: string) returns (found: Option<Block>, ghost at: nat)
      requires Valid() && n < info.totalInodes && node == InodeAt(disk[..], info, n)
      ensures found.None? ==> Child(Fs(), n, name) == None
      ensures found.Some? ==> Child(Fs(), n, name) == Some(at) && at < |Fs().data| && found.value == Fs().data[at]
    {
      ghost var s := Fs();
      at := 0;
      for j := 0 to DIRECT
        invariant ChildFrom(s, n, name, j) == Child(s, n, name)
      {
        SlotOnDisk(disk[..], info, n, name, j);
        if node.direct[j] != 0 {
          var block := disk[node.direct[j]];
          if block.name == name {
            at := s.Ptr(n, j);
            return Some(block), at;
          }
        }
      }
      found := None;
    }

    /** find_path_block: the entry of the longest prefix of the path that exists. */
    method FindPathBlock(path: string) returns (block: Block, ghost at: nat, ghost depth: nat)
      requires Valid()
      ensures Deepest(Fs(), Paths.Components(path), at, depth)
      ensures at < |Fs().data| && block == Fs().data[at] && block.Entry?
    {
      var fldrs := Paths.ParsePath(path);
      block, at, depth := FindEntry(fldrs);
    }

    /** The descent, component by component. */
    method FindEntry(fldrs: seq<string>) returns (block: Block, ghost at: nat, ghost depth: nat)
      requires Valid()
      ensures Deepest(Fs(), fldrs, at, depth)
      ensures at < |Fs().data| && block == Fs().data[at] && block.Entry?
    {
      ghost var s := Fs();
      block := disk[info.dataBlocksStart];
      assert block == s.data[0];
      at, depth := 0, 0;
      var i := 0;
      StartsAtRoot(s, fldrs);
      while i < |fldrs|
        invariant 0 <= i <= |fldrs| && depth == i
        invariant Reached(s, fldrs, i, at, block)
      {
        WalkEnds(s, fldrs[..i], at);
        WalkSnoc(s, fldrs, i, at);
        var node := GetInode(block.inode);
        var found;
        ghost var child;
        found, child := SearchFolder(block.inode, node, fldrs[i]);
        if found.None? {
          return;
        }
        block, at, depth, i := found.value, child, depth + 1, i + 1;
        WalkEnds(s, fldrs[..i], at);
      }
    }

    // -------------------------------------------------------- create

    /** A free inode is found and allocated. */
    method TakeInode() returns (n: nat)
      requires Typed() && SomeUnused(Fs().usedInodes, InodesWithBits(info))
      modifies this`buffer, disk
      ensures LeastUnused(old(Fs()).usedInodes, info.totalInodes, n)
      ensures Typed() && Fs() == old(Fs()).(usedInodes := old(Fs()).usedInodes + {n})
    {
      ghost var d := disk[..];
      ClearInode(d, info);
      var r := FindFree(info.inodeBitmapStart, info.totalInodes, info.inodeBitmapBlocks);
      FirstClearInode(d, info, r);
      n := r;
      SetStatus(info.inodeBitmapStart, n, 1, info.inodeBitmapBlocks);
      PutInodeBit(d, info, n);
    }

    /** A free data block is found and allocated. */
    method TakeBlock() returns (n: nat)
      requires Typed() && SomeUnused(Fs().usedBlocks, info.dataBlocks)
      modifies this`buffer, disk
      ensures LeastUnused(old(Fs()).usedBlocks, info.dataBlocks, n)
      ensures Typed() && Fs() == old(Fs()).(usedBlocks := old(Fs()).usedBlocks + {n})
    {
      ghost var d := disk[..];
      var r := FindFree(info.dataBitmapStart, info.dataBlocks, info.dataBitmapBlocks);
      forall i: nat | i < info.dataBlocks && Locate(i).block < info.dataBitmapBlocks
        ensures i in Fs().usedBlocks <==> Status(d, info.dataBitmapStart, i) == 1
      {
        assert i in Fs().usedBlocks <==> BlockUsed(d, info, i);
      }
      n := r;
      SetStatus(info.dataBitmapStart, n, 1, info.dataBitmapBlocks);
      PutBlockBit(d, info, n);
    }

    /** The search for an unused direct pointer. */
    method FreeSlot(node: Inode) returns (slot: nat)
      requires |node.direct| == DIRECT && 0 in node.direct
      ensures slot < DIRECT && node.direct[slot] == 0
      ensures forall j :: 0 <= j < slot ==> node.direct[j] != 0
    {
      ghost var w :| 0 <= w < DIRECT && node.direct[w] == 0;
      slot := 0;
      while node.direct[slot] != 0
        invariant slot <= w
        invariant forall j :: 0 <= j < slot ==> node.direct[j] != 0
        decreases w - slot
      {
        slot := slot + 1;
      }
    }

    /** create: refused exactly when the entry of the longest existing prefix has the
        name of the last component; otherwise that entry's directory gets it. */
    method Create(path: string)
      returns (r: int, ghost at: nat, ghost depth: nat, ghost slot: nat, ghost inode: nat, ghost block: nat)
      requires Valid() && Paths.Components(path) != []
      requires AlwaysCreatable(Fs(), InodesWithBits(info), Paths.Components(path))
      modifies this`buffer, disk
      ensures Valid() && Created(old(Fs()), Fs(), Paths.Components(path), r, at, depth, slot, inode, block)
      ensures r == -1 ==> disk[..] == old(disk[..])
    {
      var name := LastName(path);
      var entry;
      entry, at, depth := FindPathBlock(path);
      r, slot, inode, block := CreateUnder(entry, name, Paths.Components(path), at, depth);
    }

    method LastName(path: string) returns (name: string)
      requires Paths.Components(path) != []
      ensures name == Paths.Components(path)[|Paths.Components(path)| - 1]
    {
      var numOfDirs := Paths.GetNumDirs(path);
      var fldrs := Paths.ParsePath(path);
      name := fldrs[numOfDirs - 1];
    }

    /** What create does with the entry that it has found. */
    method CreateUnder(entry: Block, name: string, ghost comps: seq<string>, ghost at: nat, ghost depth: nat)
      returns (r: int, ghost slot: nat, ghost inode: nat, ghost block: nat)
      requires Valid() && comps != [] && name == comps[|comps| - 1] && Deepest(Fs(), comps, at, depth)
      requires at < |Fs().data| && entry == Fs().data[at] && entry.Entry?
      requires AlwaysCreatable(Fs(), InodesWithBits(info), comps)
      modifies this`buffer, disk
      ensures Valid() && Created(old(Fs()), Fs(), comps, r, at, depth, slot, inode, block)
      ensures r == -1 ==> disk[..] == old(disk[..])
    {
      slot, inode, block := 0, 0, 0;
      if name == entry.name {
        return -1, slot, inode, block;
      }
      WalkEnds(Fs(), comps[..depth], at);
      assert Creatable(Fs(), InodesWithBits(info), comps, at);
      var newInode, newBlock, ptr := AddEntry(entry.inode, name);
      slot, inode, block := ptr, newInode, newBlock;
      r := 0;
    }

    /** The writes of create. */
    method AddEntry(dir: nat, name: string) returns (inode: nat, block: nat, slot: nat)
      requires Valid() && HasRoom(Fs(), InodesWithBits(info), dir)
      modifies this`buffer, disk
      ensures Valid() && Addable(old(Fs()), dir, slot, inode, block)
      ensures LeastFree(old(Fs()), dir, slot, inode, block)
      ensures Fs() == Add(old(Fs()), dir, slot, name, inode, block)
    {
      inode, block, slot := WriteEntry(dir, name);
      AddKeepsInv(old(Fs()), dir, slot, name, inode, block);
    }

    /** The same on any typed disk. */
    method WriteEntry(dir: nat, name: string) returns (inode: nat, block: nat, slot: nat)
      requires Typed() && HasRoom(Fs(), InodesWithBits(info), dir) && |Fs().inodes[dir].direct| == DIRECT
      modifies this`buffer, disk
      ensures Typed() && Addable(old(Fs()), dir, slot, inode, block)
      ensures LeastFree(old(Fs()), dir, slot, inode, block)
      ensures Fs() == Add(old(Fs()), dir, slot, name, inode, block)
    {
      ghost var s := Fs();
      inode, block := TakeBoth();
      slot := Attach(dir, block, Entry(name, inode));
      AddInSteps(s, Fs(), dir, slot, name, inode, block);
    }

    /** The least free inode and the least free data block are allocated. */
    method TakeBoth() returns (inode: nat, block: nat)
      requires Typed()
      requires SomeUnused(Fs().usedInodes, InodesWithBits(info)) && SomeUnused(Fs().usedBlocks, info.dataBlocks)
      modifies this`buffer, disk
      ensures LeastUnused(old(Fs()).usedInodes, info.totalInodes, inode)
      ensures LeastUnused(old(Fs()).usedBlocks, info.dataBlocks, block)
      ensures Typed() && Fs() == Taken(old(Fs()), inode, block)
    {
      inode := TakeInode();
      block := TakeBlock();
    }

    /** The directory's pointer and the entry block it leads to. */
    method Attach(dir: nat, block: nat, entry: Block) returns (slot: nat)
      requires Typed() && dir < info.totalInodes && block < info.dataBlocks
      requires |Fs().inodes[dir].direct| == DIRECT && 0 in Fs().inodes[dir].direct
      modifies disk
      ensures Typed() && slot < DIRECT && old(Fs().inodes[dir].direct[slot]) == 0
      ensures forall j :: 0 <= j < slot ==> old(Fs()).inodes[dir].direct[j] != 0
      ensures Fs() == Linked(old(Fs()), dir, slot, block).(data := old(Fs()).data[block := entry])
    {
      slot := Link(dir, block);
      WriteBlock(block, entry);
    }

    /** The directory's first unused direct pointer is set to the new block. */
    method Link(dir: nat, block: nat) returns (slot: nat)
      requires Typed() && dir < info.totalInodes && |Fs().inodes[dir].direct| == DIRECT && 0 in Fs().inodes[dir].direct
      modifies disk
      ensures Typed() && slot < DIRECT && old(Fs().inodes[dir].direct[slot]) == 0
      ensures forall j :: 0 <= j < slot ==> old(Fs()).inodes[dir].direct[j] != 0
      ensures Fs() == Linked(old(Fs()), dir, slot, block)
    {
      var node := GetInode(dir);
      assert node == Fs().inodes[dir];
      slot := FreeSlot(node);
      SetInode(dir, node.(direct := node.direct[slot := info.dataBlocksStart + block]));
    }

    method WriteBlock(n: nat, block: Block)
      requires Typed() && n < info.dataBlocks
      modifies disk
      ensures Typed() && Fs() == old(Fs()).(data := old(Fs()).data[n := block])
    {
      PutBlock(disk[..], info, n, block);
      disk[info.dataBlocksStart + n] := block;
    }
  }

  /** A direct pointer and the entry block it leads to, on the disk and in the tree. */
  lemma SlotOnDisk(d: seq<Block>, l: Layout, n: nat, name: string, j: nat)
    requires WellTyped(d, l) && Inv(View(d, l)) && n < l.totalInodes && j < DIRECT
    ensures var s := View(d, l); var node := InodeAt(d, l, n);
            && |node.direct| == DIRECT
            && (s.Slot(n, j) <==> node.direct[j] != 0)
            && (s.Slot(n, j) ==>
                  && 0 <= s.Ptr(n, j) < |s.data| && 0 <= node.direct[j] < |d|
                  && d[node.direct[j]] == s.data[s.Ptr(n, j)]
                  && d[node.direct[j]].Entry?)
  {
    var s := View(d, l);
    assert s.inodes[n] == InodeAt(d, l, n);
    if s.Slot(n, j) {
      assert s.PointsWell(n, j);
    }
  }

  /** A free inode with a bit is a clear bit. */
  lemma ClearInode(d: seq<Block>, l: Layout)
    requires WellTyped(d, l) && SomeUnused(View(d, l).usedInodes, InodesWithBits(l))
    ensures SomeClear(d, l.inodeBitmapStart, InodesWithBits(l))
  {
    var i: nat :| i < InodesWithBits(l) && i !in View(d, l).usedInodes;
    InBitmap(d, l.inodeBitmapStart, l.inodeBitmapBlocks, i);
    assert !InodeUsed(d, l, i);
  }

  /** The first clear bit is the least free inode. */
  lemma FirstClearInode(d: seq<Block>, l: Layout, r: int)
    requires WellTyped(d, l) && -1 <= r < l.totalInodes
    requires SomeClear(d, l.inodeBitmapStart, InodesWithBits(l))
    requires forall n: nat :: n < (if r == -1 then l.totalInodes else r) ==>
                                Locate(n).block < l.inodeBitmapBlocks && Status(d, l.inodeBitmapStart, n) == 1
    requires r != -1 ==> Locate(r).block < l.inodeBitmapBlocks && Status(d, l.inodeBitmapStart, r) == 0
    ensures r >= 0 && LeastUnused(View(d, l).usedInodes, l.totalInodes, r)
  {
    forall n: nat | n < r
      ensures n in View(d, l).usedInodes
    {
      assert InodeUsed(d, l, n);
    }
  }

  ghost function Linked(s: Fs, dir: nat, slot: nat, block: nat): Fs
    requires dir < |s.inodes| && slot < |s.inodes[dir].direct|
  {
    s.(inodes := s.inodes[dir := s.inodes[dir].(direct := s.inodes[dir].direct[slot := s.base + block])])
  }

  ghost function Taken(s: Fs, inode: nat, block: nat): Fs {
    s.(usedInodes := s.usedInodes + {inode}, usedBlocks := s.usedBlocks + {block})
  }

  /** What the allocations, the link and the entry block amount to. */
  lemma AddInSteps(s: Fs, s': Fs, dir: nat, slot: nat, name: string, inode: nat, block: nat)
    requires dir < |s.inodes| && slot < |s.inodes[dir].direct| && block < |s.data|
    requires s' == Linked(Taken(s, inode, block), dir, slot, block).(data := s.data[block := Entry(name, inode)])
    ensures s' == Add(s, dir, slot, name, inode, block)
  {
  }

  /** The test of create for an existing file. */
  ghost predicate Refused(s: Fs, comps: seq<string>, at: nat)
    requires comps != []
  {
    at < |s.data| && s.data[at].Entry? && s.data[at].name == comps[|comps| - 1]
  }

  /** What create takes for granted once it goes ahead. */
  ghost predicate Creatable(s: Fs, inodes: int, comps: seq<string>, at: nat)
    requires comps != []
  {
    Refused(s, comps, at) ||
    (|comps[|comps| - 1]| < NAME_SIZE && HasRoom(s, inodes, InodeOf(s, at)))
  }

  ghost predicate SomeClear(d: seq<Block>, start: nat, bits: int) {
    exists n: nat :: n < bits && HasBit(d, start, n) && Status(d, start, n) == 0
  }

  ghost predicate SomeUnused(used: set<nat>, total: int) {
    exists i: nat :: i < total && i !in used
  }

  ghost predicate LeastUnused(used: set<nat>, total: int, n: nat) {
    n < total && n !in used && forall i: nat :: i < n ==> i in used
  }

  /** Wherever the lookup of the path ends, create can go ahead or refuses. */
  ghost predicate AlwaysCreatable(s: Fs, inodes: int, comps: seq<string>)
    requires comps != []
  {
    forall a, k :: Deepest(s, comps, a, k) ==> Creatable(s, inodes, comps, a)
  }

  /** A directory with an unused pointer, a free one of the inodes that have a bit, and
      a free data block. */
  ghost predicate HasRoom(s: Fs, inodes: int, dir: int) {
    && 0 <= dir < |s.inodes| && dir in s.usedInodes && 0 in s.inodes[dir].direct
    && SomeUnused(s.usedInodes, inodes) && SomeUnused(s.usedBlocks, |s.data|)
  }

  /** The first unused pointer, the least free inode and the least free data block. */
  ghost predicate LeastFree(s: Fs, dir: nat, slot: nat, inode: nat, block: nat) {
    && dir < |s.inodes| && slot < |s.inodes[dir].direct|
    && (forall j :: 0 <= j < slot ==> s.inodes[dir].direct[j] != 0)
    && LeastUnused(s.usedInodes, |s.inodes|, inode) && LeastUnused(s.usedBlocks, |s.data|, block)
  }

  ghost predicate EntryAdded(s: Fs, s': Fs, comps: seq<string>, at: nat, slot: nat, inode: nat, block: nat)
    requires comps != []
  {
    && InodeOf(s, at) >= 0
    && Addable(s, InodeOf(s, at), slot, inode, block) && LeastFree(s, InodeOf(s, at), slot, inode, block)
    && s' == Add(s, InodeOf(s, at), slot, comps[|comps| - 1], inode, block)
  }

  /** The outcome of create. */
  ghost predicate Created(s: Fs, s': Fs, comps: seq<string>, r: int, at: nat, depth: nat,
                          slot: nat, inode: nat, block: nat)
    requires comps != []
  {
    && Deepest(s, comps, at, depth)
    && (r == 0 || r == -1)
    && (r == -1 <==> Refused(s, comps, at))
    && (r == -1 ==> s' == s)
    && (r == 0 ==> EntryAdded(s, s', comps, at, slot, inode, block))
  }

  /** The walk has consumed i components and stands at the given entry. */
  ghost predicate Reached(s: Fs, comps: seq<string>, i: nat, at: nat, block: Block) {
    i <= |comps| && Walk(s, comps[..i]) == Some(at) && at < |s.data| && block == s.data[at] && block.Entry?
  }

  lemma StartsAtRoot(s: Fs, comps: seq<string>)
    requires Shaped(s)
    ensures Reached(s, comps, 0, 0, s.data[0])
  {
    assert comps[..0] == [];
  }

  /** depth components resolve, to block at, and the next one does not. */
  ghost predicate Deepest(s: Fs, comps: seq<string>, at: nat, depth: nat) {
    && depth <= |comps|
    && Walk(s, comps[..depth]) == Some(at)
    && (depth < |comps| ==> Walk(s, comps[..depth + 1]) == None)
  }

  // ------------------------------------------------------------ a fresh disk

  ghost predicate Formatted(d: seq<Block>, l: Layout)
    requires WellTyped(d, l)
  {
    && (forall k :: 1 <= k < l.inodeBlocksStart ==> d[k] == Bits(seq(BLOCK_SIZE, i => 0)))
    && (forall k :: l.inodeBlocksStart <= k < l.dataBlocksStart ==> d[k] == Inodes(seq(INODES_PER_BLOCK, i => BLANK)))
  }

  lemma FormattedView(d: seq<Block>, l: Layout)
    requires WellTyped(d, l) && Formatted(d, l)
    ensures forall n :: 0 <= n < |View(d, l).inodes| ==> View(d, l).inodes[n] == BLANK
    ensures View(d, l).usedInodes == {} && View(d, l).usedBlocks == {}
  {
    forall n: nat | n < l.totalInodes
      ensures InodeAt(d, l, n) == BLANK && !InodeUsed(d, l, n)
    {
      if n < BITS_PER_BLOCK * l.inodeBitmapBlocks {
        InBitmap(d, l.inodeBitmapStart, l.inodeBitmapBlocks, n);
      }
    }
    forall n: nat | n < l.dataBlocks
      ensures !BlockUsed(d, l, n)
    {
      InBitmap(d, l.dataBitmapStart, l.dataBitmapBlocks, n);
    }
  }

  /** BLANK inodes plus the root's three writes make a tree without children. */
  lemma RootOnly(s: Fs, s': Fs)
    requires 0 < s.base && 0 < |s.inodes| && 0 < |s.data| && s.usedInodes == {} && s.usedBlocks == {}
    requires forall n :: 0 <= n < |s.inodes| ==> s.inodes[n] == BLANK
    requires s' == s.(inodes := s.inodes[0 := BLANK.(size := 12 * BLOCK_SIZE, flags := 1)],
                      usedInodes := {0}, usedBlocks := {0}, data := s.data[0 := Entry("", 0)])
    ensures NoPointers(s') && Inv(s') && FreshInodes(s')
  {
  }

  /** The root's inode has the size of twelve blocks and is a directory; all other inodes
      hold nothing but zeros. */
  ghost predicate FreshInodes(s: Fs) {
    && 0 < |s.inodes|
    && s.inodes[0].size == 6144 && s.inodes[0].flags == 1
    && (forall n :: 0 < n < |s.inodes| ==> s.inodes[n].size == 0 && s.inodes[n].flags == 0)
    && (forall n :: 0 <= n < |s.inodes| ==> s.inodes[n].indirect == 0 && s.inodes[n].test == 0
                                            && s.inodes[n].direct == [0, 0, 0, 0, 0, 0, 0, 0, 0, 0, 0, 0])
  }

  ghost predicate NoPointers(s: Fs) {
    forall n, j :: !s.Slot(n, j)
  }

  lemma {:induction false} EmptyTree(s: Fs, comps: seq<string>)
    requires NoPointers(s) && comps != []
    ensures Walk(s, comps) == None
    decreases |comps|
  {
    var front := comps[..|comps| - 1];
    if front != [] {
      EmptyTree(s, front);
    } else if Walk(s, comps).Some? {
      var i := ChildFound(s, InodeOf(s, 0), comps[|comps| - 1], 0);
    }
  }

  // ------------------------------------------------------------ what create means

  lemma {:induction false} NoneStays(s: Fs, comps: seq<string>, k: nat)
    requires k <= |comps| && Walk(s, comps[..k]) == None
    ensures Walk(s, comps) == None
    decreases |comps|
  {
    if k == |comps| {
      assert comps[..k] == comps;
    } else {
      var front := comps[..|comps| - 1];
      assert front[..k] == comps[..k];
      NoneStays(s, front, k);
    }
  }

  /** When the parent exists, a successful create adds one leaf: the path leads to
      the new entry, whose inode is blank; any path that does not extend it is
      looked up with the same outcome, to the same block with the same contents. */
  lemma CreateMakesLeaf(s: Fs, s': Fs, comps: seq<string>, at: nat, depth: nat, slot: nat, inode: nat, block: nat)
    requires Inv(s) && comps != [] && Created(s, s', comps, 0, at, depth, slot, inode, block) && depth == |comps| - 1
    ensures Walk(s', comps) == Some(block) && block < |s'.data| && s'.data[block] == Entry(comps[|comps| - 1], inode)
    ensures inode < |s'.inodes| && s'.inodes[inode] == BLANK
    ensures forall other, a: nat, k: nat :: !(comps <= other) && Deepest(s, other, a, k) ==>
                                              SameOutcome(s, s', other, a, k)
  {
    var parent, name := comps[..depth], comps[depth];
    assert comps == parent + [name];
    assert comps[..depth + 1] == comps;
    AddIsNewLeaf(s, InodeOf(s, at), slot, name, inode, block, parent, at);
    forall other, a: nat, k: nat | !(comps <= other) && Deepest(s, other, a, k)
      ensures SameOutcome(s, s', other, a, k)
    {
      OtherPathsKept(s, InodeOf(s, at), slot, name, inode, block, parent, at, other, a, k);
    }
  }

  /** The path is looked up with the same outcome, to a block with the same contents. */
  ghost predicate SameOutcome(s: Fs, s': Fs, path: seq<string>, at: nat, depth: nat) {
    && Deepest(s', path, at, depth)
    && at < |s.data| == |s'.data| && s'.data[at] == s.data[at]
  }

  lemma OtherPathsKept(s: Fs, dir: nat, slot: nat, name: string, inode: nat, block: nat, parent: seq<string>, at: nat,
                       other: seq<string>, a: nat, k: nat)
    requires Inv(s) && Addable(s, dir, slot, inode, block) && Walk(s, parent) == Some(at) && InodeOf(s, at) == dir
    requires !(parent + [name] <= other) && Deepest(s, other, a, k)
    ensures SameOutcome(s, Add(s, dir, slot, name, inode, block), other, a, k)
  {
    WalkEnds(s, other[..k], a);
    PrefixToo(parent + [name], other, k);
    WalkFrame(s, dir, slot, name, inode, block, parent, at, other[..k]);
    if k < |other| {
      PrefixToo(parent + [name], other, k + 1);
      WalkFrame(s, dir, slot, name, inode, block, parent, at, other[..k + 1]);
    }
  }

  lemma PrefixToo(path: seq<string>, other: seq<string>, k: nat)
    requires k <= |other| && !(path <= other)
    ensures !(path <= other[..k])
  {
  }

  /** Without a parent the new entry lies elsewhere. */
  lemma LostWithoutParent(s: Fs, s': Fs, comps: seq<string>, at: nat, depth: nat, slot: nat, inode: nat, block: nat)
    requires Inv(s) && comps != [] && EntryAdded(s, s', comps, at, slot, inode, block)
    requires Deepest(s, comps, at, depth) && depth < |comps| - 1
    ensures Walk(s, comps[..|comps| - 1]).None? && Walk(s', comps).None?
  {
    var parent, name, front := comps[..depth], comps[|comps| - 1], comps[..|comps| - 1];
    assert front[..depth + 1] == comps[..depth + 1];
    NoneStays(s, front, depth + 1);
    NoneStays(s, comps, depth + 1);
    if parent + [name] <= comps {
      assert comps[..depth + 1] == parent + [name];
      NoneBelowNew(s, InodeOf(s, at), slot, name, inode, block, parent, at, comps);
    } else {
      WalkFrame(s, InodeOf(s, at), slot, name, inode, block, parent, at, comps);
    }
  }

  lemma NoneBelowNew(s: Fs, dir: nat, slot: nat, name: string, inode: nat, block: nat, parent: seq<string>, at: nat,
                     comps: seq<string>)
    requires Inv(s) && Addable(s, dir, slot, inode, block) && Walk(s, parent) == Some(at) && InodeOf(s, at) == dir
    requires Walk(s, parent + [name]) == None && parent + [name] < comps
    ensures Walk(Add(s, dir, slot, name, inode, block), comps) == None
  {
    NewPathResolves(s, dir, slot, name, inode, block, parent, at);
    NothingBelow(Add(s, dir, slot, name, inode, block), parent + [name], block, comps);
  }

  /** A successful create makes its path resolvable exactly when the parent existed. */
  lemma CreateFindsIff(s: Fs, s': Fs, comps: seq<string>, at: nat, depth: nat, slot: nat, inode: nat, block: nat)
    requires Inv(s) && comps != [] && Created(s, s', comps, 0, at, depth, slot, inode, block)
    ensures Walk(s', comps).Some? <==> Walk(s, comps[..|comps| - 1]).Some?
  {
    ExistingIsRefused(s, comps, at, depth);
    if depth == |comps| - 1 {
      CreateMakesLeaf(s, s', comps, at, depth, slot, inode, block);
    } else {
      LostWithoutParent(s, s', comps, at, depth, slot, inode, block);
    }
  }

  /** An existing path is always refused. */
  lemma ExistingIsRefused(s: Fs, comps: seq<string>, at: nat, depth: nat)
    requires Inv(s) && comps != [] && Deepest(s, comps, at, depth)
    ensures depth == |comps| ==> Refused(s, comps, at)
  {
    if depth == |comps| {
      assert comps[..depth] == comps;
      WalkEnds(s, comps, at);
    }
  }

  /** But so is a new child with the name of its own directory, in every tree. */
  lemma NamesakeIsRefused(s: Fs, dir: seq<string>, at: nat)
    requires Inv(s) && dir != [] && Walk(s, dir) == Some(at) && Walk(s, dir + [dir[|dir| - 1]]) == None
    ensures Deepest(s, dir + [dir[|dir| - 1]], at, |dir|) && Refused(s, dir + [dir[|dir| - 1]], at)
  {
    var comps := dir + [dir[|dir| - 1]];
    assert comps[..|dir|] == dir && comps[..|dir| + 1] == comps;
    WalkEnds(s, dir, at);
  }
}
