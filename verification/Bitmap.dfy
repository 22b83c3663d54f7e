/** Allocation bitmaps: bit n of a region of 512-byte blocks, most significant bit
    first within each byte. */
module Bitmap {
  import opened FileTree
  import opened DiskLayout

  /** 1 << bit. */
  function Mask(bit: nat): bv8
    requires bit < 8
  {
    if bit == 0 then 1 else if bit == 1 then 2 else if bit == 2 then 4 else if bit == 3 then 8
    else if bit == 4 then 16 else if bit == 5 then 32 else if bit == 6 then 64 else 128
  }

  /** (byte & (1 << bit)) >> bit, which is 0 or 1. */
  function GetBit(b: bv8, bit: nat): int
    requires bit < 8
  {
    if b & Mask(bit) == 0 then 0 else 1
  }

  /** byte ^ ((-status ^ byte) & (1 << bit)). */
  function SetBit(b: bv8, bit: nat, status: int): bv8
    requires bit < 8 && 0 <= status <= 1
  {
    b ^ (((if status == 0 then 0 else 0xff) ^ b) & Mask(bit))
  }

  lemma SetBitSame(b: bv8, bit: nat, status: int)
    requires bit < 8 && 0 <= status <= 1
    ensures GetBit(SetBit(b, bit, status), bit) == status
  {
  }

  lemma MasksApart(i: nat, j: nat)
    requires i < 8 && j < 8 && i != j
    ensures Mask(i) & Mask(j) == 0
  {
  }

  lemma KeepOthers(b: bv8, v: bv8, m: bv8, k: bv8)
    requires m & k == 0
    ensures (b ^ ((v ^ b) & m)) & k == b & k
  {
  }

  lemma SetBitOther(b: bv8, i: nat, status: int, j: nat)
    requires i < 8 && j < 8 && i != j && 0 <= status <= 1
    ensures GetBit(SetBit(b, i, status), j) == GetBit(b, j)
  {
    MasksApart(i, j);
    KeepOthers(b, if status == 0 then 0 else 0xff, Mask(i), Mask(j));
  }

  // ------------------------------------------------------------ where bit n is

  datatype Place = Place(block: nat, byte: nat, bit: nat)

  /** Block, byte in the block, and bit counted from the most significant one. */
  function Locate(n: nat): (p: Place)
    ensures p.byte < BLOCK_SIZE && p.bit < 8 && n == BITS_PER_BLOCK * p.block + 8 * p.byte + (7 - p.bit)
  {
    var block := n / BITS_PER_BLOCK;
    var byte := (n - BITS_PER_BLOCK * block) / 8;
    Place(block, byte, 7 - (n - BITS_PER_BLOCK * block - 8 * byte))
  }

  /** The blocks from start on are bitmap blocks. */
  ghost predicate IsBitmap(d: seq<Block>, start: nat, blocks: nat) {
    && start + blocks <= |d|
    && forall k :: start <= k < start + blocks ==> d[k].Bits? && |d[k].bytes| == BLOCK_SIZE
  }

  /** Bit n lies in a bitmap block. */
  predicate HasBit(d: seq<Block>, start: nat, n: nat) {
    var k := start + Locate(n).block;
    k < |d| && d[k].Bits? && |d[k].bytes| == BLOCK_SIZE
  }

  /** The status of bit n. */
  function Status(d: seq<Block>, start: nat, n: nat): int
    requires HasBit(d, start, n)
  {
    var p := Locate(n);
    GetBit(d[start + p.block].bytes[p.byte], p.bit)
  }

  lemma InBitmap(d: seq<Block>, start: nat, blocks: nat, n: nat)
    requires IsBitmap(d, start, blocks) && n < BITS_PER_BLOCK * blocks
    ensures Locate(n).block < blocks && HasBit(d, start, n)
  {
  }

  /** The block after bit n was assigned. */
  function Assigned(d: seq<Block>, start: nat, n: nat, status: int): seq<Block>
    requires HasBit(d, start, n)
    requires 0 <= status <= 1
  {
    var p := Locate(n);
    var bytes := d[start + p.block].bytes;
    d[start + p.block := Bits(bytes[p.byte := SetBit(bytes[p.byte], p.bit, status)])]
  }

  /** Assigning a bit assigns that bit and no other, across blocks, bytes and bits. */
  lemma AssignOne(d: seq<Block>, start: nat, blocks: nat, n: nat, status: int, m: nat)
    requires IsBitmap(d, start, blocks) && 0 <= status <= 1
    requires n < BITS_PER_BLOCK * blocks && m < BITS_PER_BLOCK * blocks
    requires var p := Locate(n); p.block < blocks
    ensures var d' := Assigned(d, start, n, status);
            && IsBitmap(d', start, blocks)
            && Locate(m).block < blocks
            && Status(d', start, m) == if m == n then status else Status(d, start, m)
  {
    var p, q := Locate(n), Locate(m);
    var b := d[start + p.block].bytes[p.byte];
    if m == n {
      SetBitSame(b, p.bit, status);
    } else if q.block == p.block && q.byte == p.byte {
      SetBitOther(b, p.bit, status, q.bit);
    }
  }

  // ------------------------------------------------------------ what is stored

  function Pow2(k: nat): (p: nat)
    ensures p > 0
  {
    if k == 0 then 1 else 2 * Pow2(k - 1)
  }

  lemma Powers()
    ensures Pow2(0) == 1 && Pow2(1) == 2 && Pow2(2) == 4 && Pow2(3) == 8
    ensures Pow2(4) == 16 && Pow2(5) == 32 && Pow2(6) == 64 && Pow2(7) == 128
  {
    assert Pow2(3) == 8 && Pow2(6) == 64;
  }

  /** Bit k of a byte has the weight 2 to the k. */
  lemma GetBitWeight(b: bv8, bit: nat)
    requires bit < 8
    ensures GetBit(b, bit) == b as int / Pow2(bit) % 2
  {
    Powers();
    LowBits(b);
    ThirdBit(b);
    FourthBit(b);
    HighBits(b);
  }

  lemma LowBits(b: bv8)
    ensures (if b & 1 == 0 then 0 else 1) == b as int / 1 % 2
    ensures (if b & 2 == 0 then 0 else 1) == b as int / 2 % 2
  {
  }

  lemma ThirdBit(b: bv8)
    ensures (if b & 4 == 0 then 0 else 1) == b as int / 4 % 2
  {
  }

  lemma FourthBit(b: bv8)
    ensures (if b & 8 == 0 then 0 else 1) == b as int / 8 % 2
  {
  }

  lemma HighBits(b: bv8)
    ensures (if b & 16 == 0 then 0 else 1) == b as int / 16 % 2
    ensures (if b & 32 == 0 then 0 else 1) == b as int / 32 % 2
    ensures (if b & 64 == 0 then 0 else 1) == b as int / 64 % 2
    ensures (if b & 128 == 0 then 0 else 1) == b as int / 128 % 2
  {
  }

  /** Binary digit k of the byte after bit `bit` was set to status. */
  lemma SetBitDigit(b: bv8, bit: nat, status: int, k: nat)
    requires bit < 8 && 0 <= status <= 1 && k < 8
    ensures SetBit(b, bit, status) as int / Pow2(k) % 2 == if k == bit then status else b as int / Pow2(k) % 2
  {
    GetBitWeight(SetBit(b, bit, status), k);
    GetBitWeight(b, k);
    if k == bit {
      SetBitSame(b, bit, status);
    } else {
      SetBitOther(b, bit, status, k);
    }
  }

  /** The stored byte of bit n: eight bits to a byte, 512 bytes to a block. */
  function ByteOf(d: seq<Block>, start: nat, n: nat): bv8
    requires HasBit(d, start, n)
  {
    d[start + n / 4096].bytes[n % 4096 / 8]
  }

  /** check in terms of the stored byte: the most significant bit comes first. */
  lemma StatusMeans(d: seq<Block>, start: nat, n: nat)
    requires HasBit(d, start, n)
    ensures Status(d, start, n) == ByteOf(d, start, n) as int / Pow2(7 - n % 8) % 2
  {
    LocateMeans(n);
    GetBitWeight(ByteOf(d, start, n), 7 - n % 8);
  }

  lemma LocateMeans(n: nat)
    ensures Locate(n) == Place(n / 4096, n % 4096 / 8, 7 - n % 8)
  {
    var p := Locate(n);
    ByBlocks(n, p.block, 8 * p.byte + (7 - p.bit));
    ByBytes(8 * p.byte + (7 - p.bit), p.byte, 7 - p.bit);
    ByBytes(n, 512 * p.block + p.byte, 7 - p.bit);
  }

  lemma ByBlocks(n: nat, q: nat, r: nat)
    requires r < 4096 && n == 4096 * q + r
    ensures n / 4096 == q && n % 4096 == r
  {
  }

  lemma ByBytes(n: nat, q: nat, r: nat)
    requires r < 8 && n == 8 * q + r
    ensures n / 8 == q && n % 8 == r
  {
  }

  /** set in terms of the stored bytes: one byte changes, in one binary digit. */
  lemma AssignedMeans(d: seq<Block>, start: nat, n: nat, status: int)
    requires HasBit(d, start, n) && 0 <= status <= 1
    ensures var d' := Assigned(d, start, n, status);
            && HasBit(d', start, n)
            && d' == d[start + n / 4096 := Bits(d[start + n / 4096].bytes[n % 4096 / 8 := ByteOf(d', start, n)])]
            && forall k: nat :: k < 8 ==>
                 ByteOf(d', start, n) as int / Pow2(k) % 2
                 == if k == 7 - n % 8 then status else ByteOf(d, start, n) as int / Pow2(k) % 2
  {
    LocateMeans(n);
    forall k: nat | k < 8
      ensures ByteOf(Assigned(d, start, n, status), start, n) as int / Pow2(k) % 2
              == if k == 7 - n % 8 then status else ByteOf(d, start, n) as int / Pow2(k) % 2
    {
      SetBitDigit(ByteOf(d, start, n), 7 - n % 8, status, k);
    }
  }
}
