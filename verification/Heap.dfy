/** The boundary-tag allocator over its arena of words. */
module Heap {
  import opened HeapLayout
  import opened Options

  const HDRSIZE := 4

  /** The padded size of every request up to the arena size fits a C int. */
  const MAX_MEMSIZE := 0x7fff_ffff - 2 * HDRSIZE

  /** Abstract heap: the words of the arena and the block list they encode. */
  datatype HeapState = HeapState(mem: seq<int>, blocks: seq<Block>)

  ghost predicate Inv(s: HeapState) {
    |s.mem| >= 5 && Encodes(s.mem, s.blocks) && Coalesced(s.blocks)
  }

  ghost predicate SameOutside(m: seq<int>, m': seq<int>, lo: nat, hi: nat) {
    |m'| == |m| && forall i :: 0 <= i < |m| && !(lo <= i < hi) ==> m'[i] == m[i]
  }

  /** A malloc call: nothing happens when the request is out of range or nothing
      fits, otherwise the first fitting block is used and only its words change. */
  ghost predicate MallocStep(s: HeapState, bytes: nat, r: Option<int>, s': HeapState) {
    if bytes == 0 || bytes > 4 * |s.mem| || NoFit(s.blocks, PaddedWords(bytes))
    then r == None && s' == s
    else exists k :: PlacedIn(s, PaddedWords(bytes), k, s') && r == Some(Address(s.blocks, k))
  }

  ghost predicate PlacedIn(s: HeapState, words: nat, k: nat, s': HeapState) {
    && IsFirstFit(s.blocks, words, k)
    && s'.blocks == Allocate(s.blocks, k, words)
    && Encodes(s'.mem, s'.blocks)
    && SameOutside(s.mem, s'.mem, HeaderAt(s.blocks, k), HeaderAt(s.blocks, k + 1))
  }

  /** Block k is given back and merged with its free neighbours. */
  ghost predicate FreeStep(s: HeapState, k: nat, s': HeapState) {
    && k < |s.blocks|
    && s.blocks[k].used
    && s'.blocks == Release(s.blocks, k)
    && Encodes(s'.mem, s'.blocks)
    && SameOutside(s.mem, s'.mem, HeaderAt(s.blocks, MergeFrom(s.blocks, k)), HeaderAt(s.blocks, MergeTo(s.blocks, k)))
  }

  /** The arena right after initialize. */
  function FreshArena(n: nat): seq<int> {
    seq(n, i => if i == 0 || i == n - 1 then 1 else if i == 1 || i == n - 2 then 4 * (n - 2) else 0)
  }

  // ------------------------------------------------------------ reading tags

  /** Index of the 4-byte word that holds byte a. */
  function WordOf(a: int): nat {
    if a < 0 then 0 else a / 4
  }

  /** The lowest bit of a word, `w & 1`. */
  function LowBit(w: int): int {
    w % 2
  }

  lemma WordOfMultiple(w: nat)
    ensures WordOf(4 * w) == w
  {
  }

  lemma LowBitOfEven(k: int, w: int, bit: int)
    requires w == k + k + bit && 0 <= bit <= 1
    ensures LowBit(w) == bit
  {
  }

  lemma LowBitOfTag(n: nat, bit: int)
    requires 0 <= bit <= 1
    ensures LowBit(4 * n + bit) == bit
  {
    LowBitOfEven(2 * n, 4 * n + bit, bit);
  }

  /** A word-aligned address inside the arena. */
  predicate Readable(m: seq<int>, a: int) {
    0 <= a < 4 * |m| && a == 4 * WordOf(a) && WordOf(a) < |m|
  }

  function Load(m: seq<int>, a: int): int
    requires Readable(m, a)
  {
    m[WordOf(a)]
  }

  /** getSize: the header word without its lowest bit. */
  function GetSize(m: seq<int>, p: int): int
    requires Readable(m, p - HDRSIZE)
  {
    Load(m, p - HDRSIZE) - LowBit(Load(m, p - HDRSIZE))
  }

  /** getAllocation: the lowest bit of the header word. */
  function GetAllocation(m: seq<int>, p: int): int
    requires Readable(m, p - HDRSIZE)
  {
    LowBit(Load(m, p - HDRSIZE))
  }

  function GetFooter(m: seq<int>, p: int): int
    requires Readable(m, p - HDRSIZE)
  {
    p + GetSize(m, p) - 2 * HDRSIZE
  }

  /** getPrevious: through the footer just below the header. */
  function GetPrevious(m: seq<int>, p: int): Option<int>
    requires Readable(m, p - 8)
  {
    var size := Load(m, p - 8) - LowBit(Load(m, p - 8));
    if size == 0 then None else Some(p - size)
  }

  function GetNext(m: seq<int>, p: int): Option<int>
    requires Readable(m, p - HDRSIZE) && Readable(m, p + GetSize(m, p) - HDRSIZE)
  {
    var next := p + GetSize(m, p);
    if GetSize(m, next) == 0 && GetAllocation(m, next) == 1 then None else Some(next)
  }

  /** Reading the tag of n words and the given bit at word h. */
  lemma ReadTag(m: seq<int>, p: int, h: nat, n: nat, bit: int)
    requires p == 4 * h + 4 && h < |m| && 0 <= bit <= 1 && m[h] == 4 * n + bit
    ensures Readable(m, p - HDRSIZE)
    ensures GetSize(m, p) == 4 * n && GetAllocation(m, p) == bit && GetFooter(m, p) == 4 * (h + n - 1)
  {
    WordOfMultiple(h);
    LowBitOfTag(n, bit);
  }

  function Bit(b: Block): int {
    if b.used then 1 else 0
  }

  /** Reading the tags of a block gives its size and its allocation bit. */
  lemma ReadTags(m: seq<int>, bs: seq<Block>, k: nat)
    requires Encodes(m, bs) && k < |bs|
    ensures bs[k].words >= 3
    ensures Readable(m, Address(bs, k) - 4)
    ensures GetSize(m, Address(bs, k)) == 4 * bs[k].words
    ensures GetAllocation(m, Address(bs, k)) == Bit(bs[k])
    ensures GetFooter(m, Address(bs, k)) == 4 * (HeaderAt(bs, k) + bs[k].words - 1)
    ensures HeaderAt(bs, k) + bs[k].words == HeaderAt(bs, k + 1) < |m|
  {
    assert Tagged(m, bs, k);
    ReadTag(m, Address(bs, k), HeaderAt(bs, k), bs[k].words, Bit(bs[k]));
  }

  /** getPrevious for a footer of n words just below the header at h. */
  lemma ReadPrevious(m: seq<int>, h: nat, n: nat, bit: int)
    requires 1 <= h < |m| && 0 <= bit <= 1 && m[h - 1] == 4 * n + bit
    ensures Readable(m, 4 * h + 4 - 8)
    ensures GetPrevious(m, 4 * h + 4) == if n == 0 then None else Some(4 * (h - n) + 4)
  {
    WordOfMultiple(h - 1);
    LowBitOfTag(n, bit);
  }

  /** getNext for a block of n words at h followed by a tag of n' words. */
  lemma ReadNext(m: seq<int>, h: nat, n: nat, bit: int, n': nat, bit': int)
    requires h + n < |m| && 0 <= bit <= 1 && m[h] == 4 * n + bit
    requires 0 <= bit' <= 1 && m[h + n] == 4 * n' + bit'
    ensures Readable(m, 4 * h + 4 - 4) && Readable(m, 4 * h + 4 + GetSize(m, 4 * h + 4) - 4)
    ensures GetNext(m, 4 * h + 4) == if n' == 0 && bit' == 1 then None else Some(4 * (h + n) + 4)
  {
    ReadTag(m, 4 * h + 4, h, n, bit);
    ReadTag(m, 4 * (h + n) + 4, h + n, n', bit');
  }

  lemma NeighbourBelow(m: seq<int>, bs: seq<Block>, k: nat)
    requires Encodes(m, bs) && k < |bs|
    ensures Readable(m, Address(bs, k) - 8)
    ensures GetPrevious(m, Address(bs, k)) == if k == 0 then None else Some(Address(bs, k - 1))
  {
    var h := HeaderAt(bs, k);
    assert Tagged(m, bs, k);
    if k == 0 {
      ReadPrevious(m, h, 0, 1);
    } else {
      assert Tagged(m, bs, k - 1);
      ReadPrevious(m, h, bs[k - 1].words, Bit(bs[k - 1]));
    }
  }

  lemma NeighbourAbove(m: seq<int>, bs: seq<Block>, k: nat)
    requires Encodes(m, bs) && k < |bs|
    ensures Readable(m, Address(bs, k) - 4) && Readable(m, Address(bs, k) + GetSize(m, Address(bs, k)) - 4)
    ensures GetNext(m, Address(bs, k)) == if k + 1 == |bs| then None else Some(Address(bs, k + 1))
  {
    var h := HeaderAt(bs, k);
    assert Tagged(m, bs, k);
    if k + 1 == |bs| {
      ReadNext(m, h, bs[k].words, Bit(bs[k]), 0, 1);
    } else {
      assert Tagged(m, bs, k + 1);
      ReadNext(m, h, bs[k].words, Bit(bs[k]), bs[k + 1].words, Bit(bs[k + 1]));
    }
  }

  /** The footer below a block leads to the block before it, the header leads to
      the block after it; the two ends of the list are recognised. */
  lemma Neighbours(m: seq<int>, bs: seq<Block>, k: nat)
    requires Encodes(m, bs) && k < |bs|
    ensures Readable(m, Address(bs, k) - 4) && Readable(m, Address(bs, k) - 8)
    ensures Readable(m, Address(bs, k) + GetSize(m, Address(bs, k)) - 4)
    ensures GetPrevious(m, Address(bs, k)) == if k == 0 then None else Some(Address(bs, k - 1))
    ensures GetNext(m, Address(bs, k)) == if k + 1 == |bs| then None else Some(Address(bs, k + 1))
  {
    NeighbourBelow(m, bs, k);
    NeighbourAbove(m, bs, k);
  }

  // ------------------------------------------------------------ the allocator

  class Arena {
    const memsize: int
    const mem: array<int>
    var isInitialized: bool
    ghost var blocks: seq<Block>

    ghost predicate Valid()
      reads this, mem
    {
      && memsize == 4 * mem.Length
      && 20 <= memsize <= MAX_MEMSIZE
      && (isInitialized ==> Inv(HeapState(mem[..], blocks)))
      && (!isInitialized ==> blocks == [Block(mem.Length - 2, false)])
      && (!isInitialized ==> forall i :: 0 <= i < mem.Length ==> mem[i] == 0)
    }

    /** What the heap stands for; before the first malloc, the fresh heap. */
    ghost function State(): HeapState
      reads this, mem
    {
      HeapState(if isInitialized then mem[..] else FreshArena(mem.Length), blocks)
    }

    constructor (memsize: int)
      requires memsize % 4 == 0 && 20 <= memsize <= MAX_MEMSIZE
      ensures Valid() && State() == HeapState(FreshArena(memsize / 4), [Block(memsize / 4 - 2, false)])
      ensures fresh(mem) && this.memsize == memsize && !isInitialized
    {
      this.memsize := memsize;
      mem := new int[memsize / 4](i => 0);
      isInitialized := false;
      blocks := [Block(memsize / 4 - 2, false)];
    }

    /** setValue: `size | allocation`, for a size that is a multiple of 4 and an
        allocation bit. w is the word at p, n the size in words. */
    method SetValue(p: int, size: int, allocation: int, ghost w: nat, ghost n: nat)
      requires p == 4 * w && w < mem.Length && size == 4 * n && 0 <= allocation <= 1
      modifies mem
      ensures mem[..] == old(mem[..])[w := 4 * n + allocation]
    {
      WordOfMultiple(w);
      mem[WordOf(p)] := size + allocation;
    }

    method Initialize()
      requires Valid() && !isInitialized
      modifies this, mem
      ensures isInitialized && Valid() && State() == old(State())
    {
      SetValue(0, 0, 1, 0, 0);
      var epilogue := memsize - HDRSIZE;
      SetValue(epilogue, 0, 1, mem.Length - 1, 0);
      var memorySize := memsize - 2 * HDRSIZE;
      SetValue(HDRSIZE, memorySize, 0, 1, mem.Length - 2);
      SetValue(epilogue - HDRSIZE, memorySize, 0, mem.Length - 2, mem.Length - 2);
      isInitialized := true;
      assert mem[..] == FreshArena(mem.Length);
      assert Tagged(mem[..], blocks, 0);
    }

    /** findFit: the first free block that is large enough, by address. */
    method FindFit(extendedSize: int, ghost words: nat) returns (r: Option<int>, ghost k: nat)
      requires Valid() && isInitialized && extendedSize == 4 * words
      ensures r.None? ==> NoFit(blocks, words)
      ensures r.Some? ==> IsFirstFit(blocks, words, k) && r.value == Address(blocks, k)
    {
      var ptr := 2 * HDRSIZE;
      k := 0;
      NextTag(k);
      var blockSize := GetSize(mem[..], ptr);
      var allocBit := GetAllocation(mem[..], ptr);
      while blockSize != 0
        invariant k <= |blocks| && ptr == Address(blocks, k)
        invariant Readable(mem[..], ptr - 4)
        invariant blockSize == GetSize(mem[..], ptr) && allocBit == GetAllocation(mem[..], ptr)
        invariant blockSize == if k < |blocks| then 4 * blocks[k].words else 0
        invariant k < |blocks| ==> blocks[k].words > 0 && allocBit == if blocks[k].used then 1 else 0
        invariant forall j :: 0 <= j < k ==> !Fits(blocks[j], words)
        decreases memsize - ptr
      {
        if allocBit != 1 && blockSize >= extendedSize {
          return Some(ptr), k;
        }
        NextTag(k);
        ptr := ptr + blockSize;
        k := k + 1;
        NextTag(k);
        blockSize := GetSize(mem[..], ptr);
        allocBit := GetAllocation(mem[..], ptr);
      }
      r := None;
    }

    /** What the walk reads at block k, or at the epilogue. */
    lemma NextTag(k: nat)
      requires Valid() && isInitialized && k <= |blocks|
      ensures Readable(mem[..], Address(blocks, k) - 4)
      ensures GetSize(mem[..], Address(blocks, k)) == if k < |blocks| then 4 * blocks[k].words else 0
      ensures k < |blocks| ==> blocks[k].words > 0
      ensures k < |blocks| ==> GetAllocation(mem[..], Address(blocks, k)) == if blocks[k].used then 1 else 0
      ensures k < |blocks| ==> HeaderAt(blocks, k + 1) == HeaderAt(blocks, k) + blocks[k].words < mem.Length
    {
      if k < |blocks| {
        ReadTags(mem[..], blocks, k);
      } else {
        ReadTag(mem[..], Address(blocks, k), HeaderAt(blocks, k), 0, 1);
      }
    }

    method Malloc(size: nat) returns (r: Option<int>)
      requires Valid()
      modifies this, mem
      ensures Valid() && isInitialized
      ensures MallocStep(old(State()), size, r, State())
    {
      if !isInitialized {
        Initialize();
      }
      if size == 0 {
        return None;
      } else if size > memsize {
        return None;
      }
      var extendedSize := ExtendedSize(size);
      ghost var k: nat;
      r, k := FindFit(extendedSize, PaddedWords(size));
      if r.Some? {
        Place(r.value, extendedSize, k, PaddedWords(size));
        assert PlacedIn(old(State()), PaddedWords(size), k, State());
      }
    }

    /** Malloc's padding of a request and the room for two tags. */
    method ExtendedSize(size: nat) returns (extendedSize: int)
      ensures extendedSize == 4 * PaddedWords(size)
    {
      var adjustedSize := (HDRSIZE - size % HDRSIZE) % HDRSIZE;
      extendedSize := size + adjustedSize + 2 * HDRSIZE;
    }

    /** Malloc's placement into the free block it has found. */
    method Place(ptr: int, extendedSize: int, ghost k: nat, ghost words: nat)
      requires Valid() && isInitialized && extendedSize == 4 * words && 3 <= words
      requires IsFirstFit(blocks, words, k) && ptr == Address(blocks, k)
      modifies this, mem
      ensures Valid() && isInitialized
      ensures PlacedIn(old(State()), words, k, State())
    {
      AllocateCoalesced(blocks, k, words);
      WritePlaced(ptr, extendedSize, blocks, k, words);
      blocks := Allocate(blocks, k, words);
    }

    /** The tag writes, with and without a split. */
    method WritePlaced(ptr: int, extendedSize: int, ghost bs: seq<Block>, ghost k: nat, ghost words: nat)
      requires Encodes(mem[..], bs) && k < |bs| && ptr == Address(bs, k)
      requires extendedSize == 4 * words && 3 <= words && Fits(bs[k], words)
      modifies mem
      ensures Encodes(mem[..], Allocate(bs, k, words))
      ensures SameOutside(old(mem[..]), mem[..], HeaderAt(bs, k), HeaderAt(bs, k + 1))
    {
      ghost var m := mem[..];
      ReadTags(m, bs, k);
      assert Tagged(m, bs, k);
      var oldSize := GetSize(mem[..], ptr);
      var difference := oldSize - extendedSize;
      if oldSize > extendedSize && difference > 2 * HDRSIZE {
        WriteSplit(ptr, extendedSize, difference, HeaderAt(bs, k), bs[k].words, words);
        SplitEncodes(m, mem[..], bs, k, words);
      } else {
        WriteWhole(ptr, oldSize, HeaderAt(bs, k), bs[k].words);
        WholeEncodes(m, mem[..], bs, k, words);
      }
    }

    /** The tag writes when the remainder is split off, in the order of the code. */
    method WriteSplit(ptr: int, extendedSize: int, difference: int, ghost h: nat, ghost n: nat, ghost words: nat)
      requires ptr == 4 * h + 4 && extendedSize == 4 * words && difference == 4 * (n - words)
      requires 3 <= words <= n - 3 && h + n < mem.Length && mem[h] == 4 * n
      modifies mem
      ensures mem[..] == old(mem[..])[h + n - 1 := 4 * (n - words)][h := 4 * words + 1]
                                     [h + words - 1 := 4 * words + 1][h + words := 4 * (n - words)]
    {
      ReadTag(mem[..], ptr, h, n, 0);
      SetValue(GetFooter(mem[..], ptr), difference, 0, h + n - 1, n - words);
      SetValue(ptr - HDRSIZE, extendedSize, 1, h, words);
      var footerPointer := ptr + extendedSize - 2 * HDRSIZE;
      SetValue(footerPointer, extendedSize, 1, h + words - 1, words);
      SetValue(footerPointer + 4, difference, 0, h + words, n - words);
    }

    /** The tag writes when the block is used whole. */
    method WriteWhole(ptr: int, oldSize: int, ghost h: nat, ghost n: nat)
      requires ptr == 4 * h + 4 && oldSize == 4 * n && 3 <= n && h + n < mem.Length
      modifies mem
      ensures mem[..] == old(mem[..])[h := 4 * n + 1][h + n - 1 := 4 * n + 1]
    {
      SetValue(ptr - HDRSIZE, oldSize, 1, h, n);
      ReadTag(mem[..], ptr, h, n, 1);
      SetValue(GetFooter(mem[..], ptr), oldSize, 1, h + n - 1, n);
    }

    // -------------------------------------------------------- giving back

    predicate OutOfRange(ptr: int) {
      ptr > memsize - 2 * HDRSIZE || ptr < HDRSIZE
    }

    /** What a caller may pass to free: an address outside the arena, the address
        of a block, or an address whose tags were wiped by an earlier merge. */
    ghost predicate Freeable(ptr: int)
      reads this, mem
    {
      OutOfRange(ptr) || Wiped(mem[..], ptr) || (isInitialized && IsBlock(blocks, ptr))
    }

    /** myfree. A live block is given back and merged; every other freeable
        argument, in particular the same pointer again, changes no word. */
    method Free(ptr: Option<int>)
      requires Valid()
      requires ptr.Some? ==> Freeable(ptr.value)
      modifies this, mem
      ensures Valid() && isInitialized == old(isInitialized)
      ensures if ptr.Some? && old(isInitialized && IsLive(blocks, ptr.value))
              then exists k :: FreeStep(old(State()), k, State()) && ptr.value == Address(old(blocks), k)
              else State() == old(State()) && mem[..] == old(mem[..])
      ensures ptr.Some? ==> Freeable(ptr.value) && !IsLive(blocks, ptr.value)
      ensures forall q :: old(Freeable(q)) ==> Freeable(q)
      ensures forall q :: IsLive(blocks, q) ==> old(IsLive(blocks, q))
    {
      if ptr.None? {
        return;
      }
      var p := ptr.value;
      if OutOfRange(p) {
        if isInitialized {
          LiveInRange(mem[..], blocks, p);
        }
        return;
      }
      FreeInside(p);
    }

    /** myfree of an address within the range. */
    method FreeInside(p: int)
      requires Valid() && Freeable(p) && !OutOfRange(p)
      modifies this, mem
      ensures Valid() && isInitialized == old(isInitialized)
      ensures if old(isInitialized && IsLive(blocks, p))
              then exists k :: FreeStep(old(State()), k, State()) && p == Address(old(blocks), k)
              else State() == old(State()) && mem[..] == old(mem[..])
      ensures Freeable(p) && !IsLive(blocks, p)
      ensures forall q :: old(Freeable(q)) ==> Freeable(q)
      ensures forall q :: IsLive(blocks, q) ==> old(IsLive(blocks, q))
    {
      ghost var wiped := Wiped(mem[..], p);
      ghost var k: nat := 0;
      if wiped {
        if isInitialized {
          WipedNotBlock(mem[..], blocks, p);
        }
      } else {
        k :| k < |blocks| && p == Address(blocks, k);
      }
      FreeInRange(p, wiped, blocks, k);
      if !wiped {
        FreedOutcome(old(mem[..]), mem[..], blocks, k);
        forall q | old(Freeable(q)) && !OutOfRange(q)
          ensures Wiped(mem[..], q) || IsBlock(Release(blocks, k), q)
        {
          StaysFreeable(old(mem[..]), mem[..], blocks, k, q);
        }
        LiveShrinks(blocks, k);
        blocks := Release(blocks, k);
        assert old(blocks)[k].used ==> FreeStep(old(State()), k, State());
      }
    }

    /** The part of myfree behind the range check. */
    method FreeInRange(p: int, ghost wiped: bool, ghost bs: seq<Block>, ghost k: nat)
      requires if wiped then Wiped(mem[..], p)
               else Encodes(mem[..], bs) && k < |bs| && p == Address(bs, k)
      modifies mem
      ensures wiped ==> mem[..] == old(mem[..])
      ensures !wiped ==> MergedInto(old(mem[..]), mem[..], bs, k)
      ensures !wiped && bs == Release(bs, k) ==> mem[..] == old(mem[..])
    {
      ghost var m := mem[..];
      ghost var around := if wiped then WipedAround(p) else AroundBlock(bs, k);
      if wiped {
        WipedTags(m, p);
      } else {
        BlockSpan(m, bs, k);
        BlockTags(m, bs, k);
      }
      ClearBits(p, around);
      Coalesce(p, around);
      if wiped {
        assert mem[..] == m;
      } else {
        FreeEncodes(m, mem[..], bs, k);
      }
    }

    /** Header and footer rewritten with the allocation bit off. */
    method ClearBits(p: int, ghost around: Around)
      requires p == 4 * around.h + 4 && around.Bounds(mem.Length)
      requires mem[around.h] == 4 * around.n || mem[around.h] == 4 * around.n + 1
      modifies mem
      ensures mem[..] == Cleared(old(mem[..]), around)
    {
      ghost var h, n := around.h, around.n;
      ReadTag(mem[..], p, h, n, if mem[h] == 4 * n then 0 else 1);
      var size := GetSize(mem[..], p);
      SetValue(p - HDRSIZE, size, 0, h, n);
      ReadTag(mem[..], p, h, n, 0);
      SetValue(GetFooter(mem[..], p), size, 0, h + n - 1, n);
    }

    /** coalesce: four cases on the allocation bits of the neighbours. */
    method Coalesce(p: int, ghost around: Around)
      requires p == 4 * around.h + 4 && around.Tags(mem[..])
      modifies mem
      ensures mem[..] == MergeWrites(old(mem[..]), around)
    {
      ghost var h, n, below, above := around.h, around.n, around.below, around.above;
      var previous, next, allocPrevious, allocNext := NeighbourBits(p, around);
      if allocPrevious == 1 && allocNext == 1 {
        return;
      } else if allocPrevious == 0 && allocNext == 1 {
        WriteLeft(p, previous.value, h, n, below.words);
      } else if allocPrevious == 1 && allocNext == 0 {
        WriteRight(p, next.value, h, n, above.words);
      } else if allocPrevious == 0 && allocNext == 0 {
        WriteBoth(p, previous.value, next.value, h, n, below.words, above.words);
      }
    }

    /** The reads at the start of coalesce. */
    method NeighbourBits(p: int, ghost around: Around)
      returns (previous: Option<int>, next: Option<int>, allocPrevious: int, allocNext: int)
      requires p == 4 * around.h + 4 && around.Tags(mem[..])
      ensures allocPrevious == if around.MergesLeft() then 0 else 1
      ensures allocNext == if around.MergesRight() then 0 else 1
      ensures around.MergesLeft() ==> previous == Some(p - 4 * around.below.words)
      ensures around.MergesRight() ==> next == Some(p + 4 * around.n)
    {
      ReadAround(mem[..], p, around);
      previous := GetPrevious(mem[..], p);
      next := GetNext(mem[..], p);
      allocPrevious := if previous.Some? then GetAllocation(mem[..], previous.value) else 1;
      allocNext := if next.Some? then GetAllocation(mem[..], next.value) else 1;
    }

    /** Case 2: the tag writes when the block before is free. */
    method WriteLeft(p: int, previous: int, ghost h: nat, ghost n: nat, ghost a: nat)
      requires p == 4 * h + 4 && previous == p - 4 * a
      requires 3 <= n && 3 <= a <= h && h + n < mem.Length && mem[h] == 4 * n && mem[h - a] == 4 * a
      modifies mem
      ensures mem[..] == old(mem[..])[h - 1 := 0][h - a := 4 * (a + n)][h + n - 1 := 4 * (a + n)][h := 0]
    {
      ReadTag(mem[..], p, h, n, 0);
      ReadTag(mem[..], previous, h - a, a, 0);
      var size := GetSize(mem[..], p) + GetSize(mem[..], previous);
      SetValue(GetFooter(mem[..], previous), 0, 0, h - 1, 0);
      SetValue(previous - HDRSIZE, size, 0, h - a, a + n);
      ReadTag(mem[..], p, h, n, 0);
      SetValue(GetFooter(mem[..], p), size, 0, h + n - 1, a + n);
      SetValue(p - HDRSIZE, 0, 0, h, 0);
    }

    /** Case 3: the tag writes when the block after is free; with wiped tags the
        "block after" is the block itself and every write stores the 0 it finds. */
    method WriteRight(p: int, next: int, ghost h: nat, ghost n: nat, ghost b: nat)
      requires p == 4 * h + 4 && next == p + 4 * n
      requires 1 <= h && ((3 <= n && 3 <= b) || (n == 0 && b == 0))
      requires h + n + b < mem.Length && mem[h] == 4 * n && mem[h + n] == 4 * b
      modifies mem
      ensures mem[..] == old(mem[..])[h + n - 1 := 0][h := 4 * (n + b)][h + n + b - 1 := 4 * (n + b)][h + n := 0]
    {
      ReadTag(mem[..], p, h, n, 0);
      ReadTag(mem[..], next, h + n, b, 0);
      var size := GetSize(mem[..], p) + GetSize(mem[..], next);
      SetValue(GetFooter(mem[..], p), 0, 0, h + n - 1, 0);
      SetValue(p - HDRSIZE, size, 0, h, n + b);
      ReadTag(mem[..], next, h + n, b, 0);
      SetValue(GetFooter(mem[..], next), size, 0, h + n + b - 1, n + b);
      SetValue(next - HDRSIZE, 0, 0, h + n, 0);
    }

    /** The block's own footer and header are set to 0. */
    method WipeOwn(p: int, ghost h: nat, ghost n: nat)
      requires p == 4 * h + 4 && 3 <= n && h + n < mem.Length && mem[h] == 4 * n
      modifies mem
      ensures mem[..] == old(mem[..])[h + n - 1 := 0][h := 0]
    {
      ReadTag(mem[..], p, h, n, 0);
      SetValue(GetFooter(mem[..], p), 0, 0, h + n - 1, 0);
      SetValue(p - HDRSIZE, 0, 0, h, 0);
    }

    /** Case 4: the tag writes when both neighbours are free. */
    method WriteBoth(p: int, previous: int, next: int, ghost h: nat, ghost n: nat, ghost a: nat, ghost b: nat)
      requires p == 4 * h + 4 && previous == p - 4 * a && next == p + 4 * n
      requires 3 <= n && 3 <= a <= h && 3 <= b && h + n + b < mem.Length
      requires mem[h] == 4 * n && mem[h - a] == 4 * a && mem[h + n] == 4 * b
      modifies mem
      ensures mem[..] == old(mem[..])[h - 1 := 0][h - a := 4 * (a + n + b)][h + n - 1 := 0][h := 0]
                                     [h + n + b - 1 := 4 * (a + n + b)][h + n := 0]
    {
      ReadTag(mem[..], p, h, n, 0);
      ReadTag(mem[..], previous, h - a, a, 0);
      ReadTag(mem[..], next, h + n, b, 0);
      var size := GetSize(mem[..], p) + GetSize(mem[..], previous) + GetSize(mem[..], next);
      SetValue(GetFooter(mem[..], previous), 0, 0, h - 1, 0);
      SetValue(previous - HDRSIZE, size, 0, h - a, a + n + b);
      WipeOwn(p, h, n);
      ReadTag(mem[..], next, h + n, b, 0);
      SetValue(GetFooter(mem[..], next), size, 0, h + n + b - 1, a + n + b);
      SetValue(next - HDRSIZE, 0, 0, h + n, 0);
    }
  }

  // ------------------------------------------------------------ tags around a block

  /** A header at word h of n words, the tag below it and the tag above its end;
      the prologue and the epilogue read as a used block of no words. */
  datatype Around = Around(h: nat, n: nat, below: Block, above: Block) {

    predicate MergesLeft() {
      !below.used && below.words > 0
    }

    predicate MergesRight() {
      !above.used
    }

    ghost predicate Bounds(length: nat) {
      && 1 <= h
      && h + n + above.words < length
      && (MergesLeft() ==> 3 <= n && 3 <= below.words)
      && below.words <= h
      && (MergesRight() ==> (3 <= n && 3 <= above.words) || (n == 0 && above.words == 0))
    }

    /** The words read by coalesce. */
    ghost predicate Tags(m: seq<int>) {
      && Bounds(|m|)
      && m[h] == 4 * n
      && m[h - 1] == Tag(below)
      && (below.words > 0 ==> m[h - below.words] == Tag(below))
      && m[h + n] == Tag(above)
    }
  }

  lemma ReadAround(m: seq<int>, p: int, around: Around)
    requires p == 4 * around.h + 4 && around.Tags(m)
    ensures Readable(m, p - 4) && Readable(m, p - 8) && Readable(m, p + GetSize(m, p) - 4)
    ensures GetSize(m, p) == 4 * around.n
    ensures match GetPrevious(m, p)
            case None => around.below.words == 0
            case Some(q) => around.below.words > 0 && q == p - 4 * around.below.words && Readable(m, q - 4)
                            && GetSize(m, q) == 4 * around.below.words && GetAllocation(m, q) == Bit(around.below)
    ensures match GetNext(m, p)
            case None => around.above == Block(0, true)
            case Some(q) => around.above != Block(0, true) && q == p + 4 * around.n && Readable(m, q - 4)
                            && GetSize(m, q) == 4 * around.above.words && GetAllocation(m, q) == Bit(around.above)
  {
    var h, n, below, above := around.h, around.n, around.below, around.above;
    ReadTag(m, p, h, n, 0);
    ReadPrevious(m, h, below.words, Bit(below));
    if below.words > 0 {
      ReadTag(m, p - 4 * below.words, h - below.words, below.words, Bit(below));
    }
    ReadNext(m, h, n, 0, above.words, Bit(above));
    ReadTag(m, p + 4 * n, h + n, above.words, Bit(above));
  }

  ghost function Cleared(m: seq<int>, around: Around): seq<int>
    requires around.Bounds(|m|)
  {
    m[around.h := 4 * around.n][around.h + around.n - 1 := 4 * around.n]
  }

  /** The words after the tag writes of the four cases. */
  ghost function MergeWrites(m: seq<int>, around: Around): seq<int>
    requires around.Bounds(|m|)
  {
    var h, n, a, b := around.h, around.n, around.below.words, around.above.words;
    if around.MergesLeft() then
      if around.MergesRight() then
        m[h - 1 := 0][h - a := 4 * (a + n + b)][h + n - 1 := 0][h := 0][h + n + b - 1 := 4 * (a + n + b)][h + n := 0]
      else
        m[h - 1 := 0][h - a := 4 * (a + n)][h + n - 1 := 4 * (a + n)][h := 0]
    else if around.MergesRight() then
      m[h + n - 1 := 0][h := 4 * (n + b)][h + n + b - 1 := 4 * (n + b)][h + n := 0]
    else
      m
  }

  ghost function AroundBlock(bs: seq<Block>, k: nat): Around
    requires k < |bs|
  {
    Around(HeaderAt(bs, k), bs[k].words,
           if k == 0 then Block(0, true) else bs[k - 1],
           if k + 1 == |bs| then Block(0, true) else bs[k + 1])
  }

  ghost function WipedAround(p: int): Around {
    Around(WordOf(p - 4), 0, Block(0, false), Block(0, false))
  }

  lemma WipedTags(m: seq<int>, p: int)
    requires Wiped(m, p)
    ensures p == 4 * WipedAround(p).h + 4 && WipedAround(p).Tags(m)
    ensures Cleared(m, WipedAround(p)) == m && MergeWrites(m, WipedAround(p)) == m
  {
    var h := WordOf(p - 4);
    WordOfMultiple(h - 1);
    assert m[h - 1] == 0;
  }

  /** Where the merged run begins and ends, in words. */
  lemma BlockSpan(m: seq<int>, bs: seq<Block>, k: nat)
    requires Encodes(m, bs) && k < |bs|
    ensures var around := AroundBlock(bs, k);
            && 3 <= around.n
            && around.Bounds(|m|)
            && (around.MergesLeft() <==> MergeFrom(bs, k) < k)
            && around.h - (if around.MergesLeft() then around.below.words else 0) == HeaderAt(bs, MergeFrom(bs, k))
            && HeaderAt(bs, MergeTo(bs, k)) < |m|
            && around.h + around.n + (if around.MergesRight() then around.above.words else 0)
               == HeaderAt(bs, MergeTo(bs, k))
  {
    assert Tagged(m, bs, k);
    if k > 0 {
      assert Tagged(m, bs, k - 1);
    }
    if k + 1 < |bs| {
      assert Tagged(m, bs, k + 1);
    }
  }

  /** The tags around a block of the list, before its bits are cleared. */
  lemma BlockTags(m: seq<int>, bs: seq<Block>, k: nat)
    requires Encodes(m, bs) && k < |bs| && AroundBlock(bs, k).Bounds(|m|) && 3 <= bs[k].words
    ensures AroundBlock(bs, k).Tags(Cleared(m, AroundBlock(bs, k)))
    ensures m[AroundBlock(bs, k).h] == Tag(bs[k])
  {
    assert Tagged(m, bs, k);
    if k > 0 {
      assert Tagged(m, bs, k - 1);
    }
    if k + 1 < |bs| {
      assert Tagged(m, bs, k + 1);
    }
  }

  // ------------------------------------------------------------ what may be freed

  ghost predicate IsBlock(bs: seq<Block>, p: int) {
    exists k: nat :: k < |bs| && p == Address(bs, k)
  }

  ghost predicate IsLive(bs: seq<Block>, p: int) {
    exists k: nat :: k < |bs| && p == Address(bs, k) && bs[k].used
  }

  /** The header at p and the footer below it both hold 0. */
  predicate Wiped(m: seq<int>, p: int) {
    Readable(m, p - 8) && Readable(m, p - 4) && Load(m, p - 4) == 0 && Load(m, p - 8) == 0
  }

  lemma WipedNotBlock(m: seq<int>, bs: seq<Block>, p: int)
    requires Encodes(m, bs) && Wiped(m, p)
    ensures !IsBlock(bs, p)
  {
    if k: nat :| k < |bs| && p == Address(bs, k) {
      ReadTags(m, bs, k);
    }
  }

  lemma LiveInRange(m: seq<int>, bs: seq<Block>, p: int)
    requires Encodes(m, bs)
    ensures IsBlock(bs, p) ==> 8 <= p <= 4 * |m| - 12
  {
    if k: nat :| k < |bs| && p == Address(bs, k) {
      ReadTags(m, bs, k);
      HeadersAscend(bs, 0, k);
    }
  }

  /** The outcome of freeing block k: merged with its free neighbours, no word
      outside the merged run touched, no word that was 0 made a tag, and the tags at
      every address that is no block any more wiped. */
  ghost predicate MergedInto(m: seq<int>, m': seq<int>, bs: seq<Block>, k: nat)
    requires k < |bs|
  {
    && Encodes(m', Release(bs, k))
    && SameOutside(m, m', HeaderAt(bs, MergeFrom(bs, k)), HeaderAt(bs, MergeTo(bs, k)))
    && (MergeFrom(bs, k) < k ==> Wiped(m', Address(bs, k)))
    && (MergeTo(bs, k) > k + 1 ==> Wiped(m', Address(bs, k + 1)))
    && forall i :: 0 <= i < |m| ==> ZeroStays(m, m', i)
  }

  predicate ZeroStays(m: seq<int>, m': seq<int>, i: nat)
    requires i < |m| == |m'|
  {
    m[i] == 0 ==> m'[i] == 0
  }

  /** What clearing the bits and the merge writes leave behind, in words. */
  lemma WritesOutcome(m: seq<int>, around: Around)
    requires around.Bounds(|m|) && 3 <= around.n
    ensures var m' := MergeWrites(Cleared(m, around), around);
            var lo := around.h - if around.MergesLeft() then around.below.words else 0;
            var hi := around.h + around.n + if around.MergesRight() then around.above.words else 0;
            && SameOutside(m, m', lo, hi)
            && m'[lo] == 4 * (hi - lo) && m'[hi - 1] == 4 * (hi - lo)
            && (around.MergesLeft() ==> m'[around.h] == 0 && m'[around.h - 1] == 0)
            && (around.MergesRight() ==> m'[around.h + around.n] == 0 && m'[around.h + around.n - 1] == 0)
            && (m[lo] != 0 && m[hi - 1] != 0 ==> forall i :: 0 <= i < |m| ==> ZeroStays(m, m', i))
  {
  }

  lemma FreeEncodes(m: seq<int>, m': seq<int>, bs: seq<Block>, k: nat)
    requires Encodes(m, bs) && k < |bs| && AroundBlock(bs, k).Bounds(|m|)
    requires m' == MergeWrites(Cleared(m, AroundBlock(bs, k)), AroundBlock(bs, k))
    ensures MergedInto(m, m', bs, k)
    ensures Release(bs, k) == bs ==> m' == m
  {
    BlockSpan(m, bs, k);
    OuterTags(m, bs, k);
    WritesOutcome(m, AroundBlock(bs, k));
    OutcomeEncodes(m, m', bs, k);
    if Release(bs, k) == bs {
      ReleaseFixed(bs, k);
      assert Tagged(m, bs, k);
    }
  }

  lemma OutcomeEncodes(m: seq<int>, m': seq<int>, bs: seq<Block>, k: nat)
    requires Encodes(m, bs) && k < |bs|
    requires var lo, hi := HeaderAt(bs, MergeFrom(bs, k)), HeaderAt(bs, MergeTo(bs, k));
             && lo + 3 <= hi < |m|
             && SameOutside(m, m', lo, hi)
             && m'[lo] == 4 * (hi - lo) && m'[hi - 1] == 4 * (hi - lo)
    requires var h := HeaderAt(bs, k);
             MergeFrom(bs, k) < k ==> 1 <= h < |m| && m'[h] == 0 && m'[h - 1] == 0
    requires var h := HeaderAt(bs, k + 1);
             MergeTo(bs, k) > k + 1 ==> 1 <= h < |m| && m'[h] == 0 && m'[h - 1] == 0
    requires forall i :: 0 <= i < |m| ==> ZeroStays(m, m', i)
    ensures MergedInto(m, m', bs, k)
  {
    MergedEncodes(m, m', bs, MergeFrom(bs, k), MergeTo(bs, k));
    if MergeFrom(bs, k) < k {
      ZeroTags(m', bs, k);
    }
    if MergeTo(bs, k) > k + 1 {
      ZeroTags(m', bs, k + 1);
    }
  }

  lemma ZeroTags(m: seq<int>, bs: seq<Block>, k: nat)
    requires k <= |bs| && 1 <= HeaderAt(bs, k) < |m| && m[HeaderAt(bs, k)] == 0 && m[HeaderAt(bs, k) - 1] == 0
    ensures Wiped(m, Address(bs, k))
  {
    WordOfMultiple(HeaderAt(bs, k));
    WordOfMultiple(HeaderAt(bs, k) - 1);
  }

  /** The run that a free merges begins and ends with a tag. */
  lemma OuterTags(m: seq<int>, bs: seq<Block>, k: nat)
    requires Encodes(m, bs) && k < |bs|
    ensures HeaderAt(bs, MergeFrom(bs, k)) < HeaderAt(bs, MergeTo(bs, k)) < |m|
    ensures m[HeaderAt(bs, MergeFrom(bs, k))] != 0 && m[HeaderAt(bs, MergeTo(bs, k)) - 1] != 0
  {
    var lo, hi := MergeFrom(bs, k), MergeTo(bs, k);
    assert Tagged(m, bs, lo) && Tagged(m, bs, hi - 1);
    HeadersAscend(bs, lo, hi);
    HeadersAscend(bs, hi - 1, hi);
  }

  /** Whatever could be freed before a free can be freed after it: an address is a
      block still, or its tags are wiped. */
  lemma StaysFreeable(m: seq<int>, m': seq<int>, bs: seq<Block>, k: nat, q: int)
    requires Encodes(m, bs) && k < |bs| && MergedInto(m, m', bs, k)
    requires Wiped(m, q) || IsBlock(bs, q)
    ensures Wiped(m', q) || IsBlock(Release(bs, k), q)
  {
    if Wiped(m, q) {
      assert ZeroStays(m, m', WordOf(q - 4)) && ZeroStays(m, m', WordOf(q - 8));
    } else {
      var j: nat :| j < |bs| && q == Address(bs, j);
      BlockStays(m', bs, k, j);
    }
  }

  /** No address becomes live by a free. */
  lemma LiveShrinks(bs: seq<Block>, k: nat)
    requires k < |bs|
    ensures forall q :: IsLive(Release(bs, k), q) ==> IsLive(bs, q)
  {
    var lo, hi, cs := MergeFrom(bs, k), MergeTo(bs, k), Release(bs, k);
    MergedSplices(bs, lo, hi);
    forall i: nat | i < |cs| && cs[i].used
      ensures IsLive(bs, Address(cs, i))
    {
      var j := if i < lo then i else i - 1 + (hi - lo);
      if i < lo {
        SamePrefix(bs, cs, i);
      } else {
        SplicedTail(bs, cs, lo, hi, 1, i);
      }
      assert bs[j] == cs[i] && Address(bs, j) == Address(cs, i);
    }
  }

  lemma BlockStays(m': seq<int>, bs: seq<Block>, k: nat, j: nat)
    requires k < |bs| && j < |bs|
    requires MergeFrom(bs, k) < k ==> Wiped(m', Address(bs, k))
    requires MergeTo(bs, k) > k + 1 ==> Wiped(m', Address(bs, k + 1))
    ensures Wiped(m', Address(bs, j)) || IsBlock(Release(bs, k), Address(bs, j))
  {
    var lo, hi, cs := MergeFrom(bs, k), MergeTo(bs, k), Release(bs, k);
    MergedSplices(bs, lo, hi);
    if j <= lo {
      SamePrefix(bs, cs, j);
      assert Address(cs, j) == Address(bs, j);
    } else if j >= hi {
      SplicedTail(bs, cs, lo, hi, 1, j - (hi - lo) + 1);
      assert Address(cs, j - (hi - lo) + 1) == Address(bs, j);
    }
  }

  /** Only a free block between used ones is left alone by release. */
  lemma ReleaseFixed(bs: seq<Block>, k: nat)
    requires k < |bs| && Release(bs, k) == bs
    ensures !bs[k].used && MergeFrom(bs, k) == k && MergeTo(bs, k) == k + 1
  {
    MergedSplices(bs, MergeFrom(bs, k), MergeTo(bs, k));
  }

  /** A run of blocks becomes one free block once its outer tags say so. */
  lemma MergedEncodes(m: seq<int>, m': seq<int>, bs: seq<Block>, lo: nat, hi: nat)
    requires Encodes(m, bs) && lo < hi <= |bs|
    requires SameOutside(m, m', HeaderAt(bs, lo), HeaderAt(bs, hi))
    requires var n := HeaderAt(bs, hi) - HeaderAt(bs, lo);
             n >= 3 && HeaderAt(bs, hi) < |m| && m'[HeaderAt(bs, lo)] == 4 * n && m'[HeaderAt(bs, hi) - 1] == 4 * n
    ensures Encodes(m', Merged(bs, lo, hi))
  {
    MergedSplices(bs, lo, hi);
    assert Tagged(m', Merged(bs, lo, hi), lo);
    Replace(m, m', bs, Merged(bs, lo, hi), lo, hi, 1);
  }

  /** After the release of block k its address is spent: it belongs to a free
      block, or it was absorbed by the left neighbour. */
  lemma AfterFree(m: seq<int>, m': seq<int>, bs: seq<Block>, k: nat)
    requires Encodes(m, bs) && Coalesced(bs) && k < |bs| && MergedInto(m, m', bs, k)
    ensures Coalesced(Release(bs, k))
    ensures IsBlock(Release(bs, k), Address(bs, k)) || Wiped(m', Address(bs, k))
    ensures !IsLive(Release(bs, k), Address(bs, k))
  {
    ReleaseCoalesced(bs, k);
    var cs := Release(bs, k);
    MergedSplices(bs, MergeFrom(bs, k), MergeTo(bs, k));
    if MergeFrom(bs, k) < k {
      WipedNotBlock(m', cs, Address(bs, k));
    } else {
      assert Address(cs, k) == Address(bs, k);
      forall i: nat | i < |cs| && Address(cs, i) == Address(bs, k)
        ensures !cs[i].used
      {
        AddressOfOne(m', cs, i, k);
      }
    }
  }

  /** All that is known once block k has been freed. */
  lemma FreedOutcome(m: seq<int>, m': seq<int>, bs: seq<Block>, k: nat)
    requires Encodes(m, bs) && Coalesced(bs) && k < |bs| && MergedInto(m, m', bs, k)
    ensures Coalesced(Release(bs, k)) && IsLive(bs, Address(bs, k)) == bs[k].used
    ensures !bs[k].used ==> Release(bs, k) == bs
    ensures IsBlock(Release(bs, k), Address(bs, k)) || Wiped(m', Address(bs, k))
    ensures !IsLive(Release(bs, k), Address(bs, k))
  {
    AfterFree(m, m', bs, k);
    LiveAt(m, bs, k);
    if !bs[k].used {
      FreeAgain(bs, k);
    }
  }

  /** Freeing a free block changes nothing. */
  lemma FreeAgain(bs: seq<Block>, k: nat)
    requires Coalesced(bs) && k < |bs| && !bs[k].used
    ensures Release(bs, k) == bs
  {
    assert k > 0 ==> Apart(bs, k);
    assert k + 1 < |bs| ==> Apart(bs, k + 1);
    MergedAlone(bs, k);
  }

  /** An address belongs to at most one block. */
  lemma AddressOfOne(m: seq<int>, bs: seq<Block>, i: nat, j: nat)
    requires Encodes(m, bs) && i < |bs| && j < |bs| && Address(bs, i) == Address(bs, j)
    ensures i == j
  {
    assert Tagged(m, bs, i) && Tagged(m, bs, j);
    if i < j {
      AddressInjective(bs, i, j);
    } else if j < i {
      AddressInjective(bs, j, i);
    }
  }

  lemma LiveAt(m: seq<int>, bs: seq<Block>, k: nat)
    requires Encodes(m, bs) && k < |bs|
    ensures IsLive(bs, Address(bs, k)) == bs[k].used
  {
    if i: nat :| i < |bs| && Address(bs, k) == Address(bs, i) && bs[i].used {
      AddressOfOne(m, bs, k, i);
    }
  }

  lemma MergedAlone(bs: seq<Block>, k: nat)
    requires k < |bs| && !bs[k].used
    ensures Merged(bs, k, k + 1) == bs
  {
    assert bs == bs[..k] + [bs[k]] + bs[k + 1..];
  }

  /** The four tag writes of a split. */
  lemma SplitEncodes(m: seq<int>, m': seq<int>, bs: seq<Block>, k: nat, words: nat)
    requires Encodes(m, bs) && k < |bs| && 3 <= words && bs[k].words - words > 2
    requires var h, n := HeaderAt(bs, k), bs[k].words;
             h + n < |m| &&
             m' == m[h + n - 1 := 4 * (n - words)][h := 4 * words + 1]
                    [h + words - 1 := 4 * words + 1][h + words := 4 * (n - words)]
    ensures Encodes(m', Allocate(bs, k, words))
    ensures SameOutside(m, m', HeaderAt(bs, k), HeaderAt(bs, k + 1))
  {
    AllocateSplices(bs, k, words);
    var cs := Allocate(bs, k, words);
    assert cs[k + 0] == Block(words, true) && cs[k + 1] == Block(bs[k].words - words, false);
    assert Tagged(m', cs, k);
    assert Tagged(m', cs, k + 1);
    Replace(m, m', bs, cs, k, k + 1, 2);
  }

  /** The two tag writes when the block is used whole. */
  lemma WholeEncodes(m: seq<int>, m': seq<int>, bs: seq<Block>, k: nat, words: nat)
    requires Encodes(m, bs) && k < |bs| && words <= bs[k].words <= words + 2
    requires var h, n := HeaderAt(bs, k), bs[k].words;
             n >= 3 && h + n < |m| && m' == m[h := 4 * n + 1][h + n - 1 := 4 * n + 1]
    ensures Encodes(m', Allocate(bs, k, words))
    ensures SameOutside(m, m', HeaderAt(bs, k), HeaderAt(bs, k + 1))
  {
    AllocateSplices(bs, k, words);
    var cs := Allocate(bs, k, words);
    assert cs[k + 0] == Block(bs[k].words, true);
    assert Tagged(m', cs, k);
    Replace(m, m', bs, cs, k, k + 1, 1);
  }
}
