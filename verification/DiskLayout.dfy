/** Where the regions of the file system lie on the disk. */
module DiskLayout {

  const BLOCK_SIZE := 512
  const BITS_PER_BLOCK := 4096
  const INODES_PER_BLOCK := 8
  const VALUE := 513
  const EIGHT_MB := 8388608
  const INT_MAX := 0x7fff_ffff

  datatype Layout = Layout(
    dataBitmapBlocks: int, dataBitmapStart: int,
    inodeBitmapBlocks: int, inodeBitmapStart: int,
    inodeBlocks: int, inodeBlocksStart: int,
    totalInodes: int,
    dataBlocks: int, dataBlocksStart: int,
    diskSize: int)

  /** C division of ints. */
  function Div(a: int, b: nat): int
    requires b > 0
  {
    if a >= 0 then a / b else -(-a / b)
  }

  /** C remainder of ints. */
  function Mod(a: int, b: nat): int
    requires b > 0
  {
    a - b * Div(a, b)
  }

  /** Blocks left for inodes and their bitmap. */
  function InodeSpace(totalSize: nat): int {
    var dataSize := 3 * totalSize / 4;
    Div(totalSize - dataSize, BLOCK_SIZE) - dataSize / BLOCK_SIZE / BITS_PER_BLOCK - 1
  }

  /** The round-up of the inode bitmap fires. */
  predicate RoundsUp(totalSize: nat) {
    Mod(Div(InodeSpace(totalSize), VALUE), VALUE) != 0
  }

  function GetMetadataInfo(totalSize: nat): Layout {
    var dataSize := 3 * totalSize / 4;
    var dataBlocks := dataSize / BLOCK_SIZE;
    var dataBitmapBlocks := dataBlocks / BITS_PER_BLOCK;
    var space := InodeSpace(totalSize);
    var inodeBitmap := Div(space, VALUE) + if RoundsUp(totalSize) then 1 else 0;
    var inodeBlocks := space - inodeBitmap;
    Layout(dataBitmapBlocks, 1, inodeBitmap, 1 + dataBitmapBlocks,
           inodeBlocks, 1 + dataBitmapBlocks + inodeBitmap,
           inodeBlocks * INODES_PER_BLOCK,
           dataBlocks, 1 + dataBitmapBlocks + inodeBitmap + inodeBlocks, totalSize)
  }

  /** Regions follow each other from block 1 to the end of the disk, and every
      data block has a bit. */
  ghost predicate Contiguous(l: Layout, blocks: int) {
    && l.dataBitmapStart == 1 && 0 < l.dataBitmapBlocks
    && l.inodeBitmapStart == l.dataBitmapStart + l.dataBitmapBlocks && 0 < l.inodeBitmapBlocks
    && l.inodeBlocksStart == l.inodeBitmapStart + l.inodeBitmapBlocks && 0 < l.inodeBlocks
    && l.dataBlocksStart == l.inodeBlocksStart + l.inodeBlocks && 0 < l.dataBlocks
    && l.dataBlocksStart + l.dataBlocks == blocks
    && l.totalInodes == 8 * l.inodeBlocks
    && l.dataBlocks == BITS_PER_BLOCK * l.dataBitmapBlocks
  }

  /** Every inode has a bit. */
  predicate InodesHaveBits(l: Layout) {
    l.totalInodes <= BITS_PER_BLOCK * l.inodeBitmapBlocks
  }

  /** The numbers for m times 8 MB. */
  lemma SpaceOf(m: nat)
    requires 1 <= m
    ensures InodeSpace(EIGHT_MB * m) == 4093 * m - 1
    ensures 3 * (EIGHT_MB * m) / 4 == 6291456 * m
    ensures 6291456 * m / BLOCK_SIZE == 12288 * m
    ensures 12288 * m / BITS_PER_BLOCK == 3 * m
  {
    assert 3 * (EIGHT_MB * m) == 4 * (6291456 * m);
    assert 6291456 * m == BLOCK_SIZE * (12288 * m);
    assert 12288 * m == BITS_PER_BLOCK * (3 * m);
    assert EIGHT_MB * m - 6291456 * m == BLOCK_SIZE * (4096 * m);
  }

  /** For every positive multiple of 8 MB the regions tile the disk exactly. */
  lemma LayoutTilesDisk(m: nat)
    requires 1 <= m && EIGHT_MB * m <= INT_MAX
    ensures Contiguous(GetMetadataInfo(EIGHT_MB * m), EIGHT_MB * m / BLOCK_SIZE)
  {
    SpaceOf(m);
    assert EIGHT_MB * m == BLOCK_SIZE * (16384 * m);
  }

  /** Every inode has a bitmap bit exactly when the round-up fires, which it does
      for every representable size but one: 193 times 8 MB. */
  lemma InodeBitsExactly(m: nat)
    requires 1 <= m && EIGHT_MB * m <= INT_MAX
    ensures InodesHaveBits(GetMetadataInfo(EIGHT_MB * m)) <==> RoundsUp(EIGHT_MB * m)
    ensures RoundsUp(EIGHT_MB * m) <==> m != 193
  {
    SpaceOf(m);
    var q := (4093 * m - 1) / VALUE;
    var r := (4093 * m - 1) % VALUE;
    assert 4093 * m - 1 == VALUE * q + r;
    assert q < 2052;
    var k := q / VALUE;
    assert Mod(q, VALUE) == 0 <==> q == VALUE * k;
    if q == VALUE * k {
      assert k == 0 || k == 1 || k == 2 || k == 3;
    }
  }

  lemma OddSize()
    ensures !InodesHaveBits(GetMetadataInfo(1619001344))
  {
    InodeBitsExactly(193);
  }

  /** The sizes of all regions, from the fields alone: three quarters of the disk are
      data; of the rest, less the superblock and the data bitmap, one block in 513 is
      inode bitmap, rounded up, except for 193 times 8 MB. */
  lemma LayoutSizes(m: nat)
    requires 1 <= m && EIGHT_MB * m <= INT_MAX
    ensures var l := GetMetadataInfo(EIGHT_MB * m);
            && l.diskSize == 8388608 * m
            && 4 * 512 * l.dataBlocks == 3 * l.diskSize
            && l.dataBlocks == 4096 * l.dataBitmapBlocks
            && 1 + l.dataBitmapBlocks + l.inodeBitmapBlocks + l.inodeBlocks + l.dataBlocks == 16384 * m
            && l.totalInodes == 8 * l.inodeBlocks
            && (m != 193 ==>
                  513 * (l.inodeBitmapBlocks - 1) <= l.inodeBitmapBlocks + l.inodeBlocks < 513 * l.inodeBitmapBlocks)
            && (m == 193 ==>
                  513 * l.inodeBitmapBlocks <= l.inodeBitmapBlocks + l.inodeBlocks < 513 * (l.inodeBitmapBlocks + 1))
  {
    SpaceOf(m);
    InodeBitsExactly(m);
    assert EIGHT_MB * m == BLOCK_SIZE * (16384 * m);
  }

  /** The smallest disk. */
  lemma SmallestDisk()
    ensures GetMetadataInfo(8388608) == Layout(3, 1, 8, 4, 4084, 12, 32672, 12288, 4096, 8388608)
  {
  }
}
