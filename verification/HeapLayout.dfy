/** The boundary-tag heap as a list of blocks, and what it means for an arena of
    4-byte words to encode such a list. Sizes are counted in words here; a tag
    stores the size in bytes together with the allocation bit. */
module HeapLayout {

  datatype Block = Block(words: nat, used: bool)

  /** The value of a header or a footer. */
  function Tag(b: Block): int {
    4 * b.words + if b.used then 1 else 0
  }

  /** Word index of the header of block k; for k == |bs| the end of the blocks.
      Word 0 is the prologue. */
  function HeaderAt(bs: seq<Block>, k: nat): nat
    requires k <= |bs|
  {
    if k == 0 then 1 else HeaderAt(bs, k - 1) + bs[k - 1].words
  }

  /** Byte address that malloc hands out for block k. */
  function Address(bs: seq<Block>, k: nat): int
    requires k <= |bs|
  {
    4 * (HeaderAt(bs, k) + 1)
  }

  /** At word `at` stands a block with equal header and footer. */
  ghost predicate BlockAt(m: seq<int>, at: nat, b: Block) {
    && b.words >= 3
    && at + b.words < |m|
    && m[at] == Tag(b)
    && m[at + b.words - 1] == Tag(b)
  }

  /** Block k of the list stands where the sizes before it put it. */
  ghost predicate Tagged(m: seq<int>, bs: seq<Block>, k: nat)
    requires k < |bs|
  {
    BlockAt(m, HeaderAt(bs, k), bs[k])
  }

  /** Prologue, blocks one after the other, epilogue, and nothing else. */
  ghost predicate Encodes(m: seq<int>, bs: seq<Block>) {
    && |m| == HeaderAt(bs, |bs|) + 1
    && m[0] == 1
    && m[|m| - 1] == 1
    && forall k :: 0 <= k < |bs| ==> Tagged(m, bs, k)
  }

  predicate Apart(bs: seq<Block>, k: nat)
    requires 0 < k < |bs|
  {
    bs[k - 1].used || bs[k].used
  }

  /** No two adjacent free blocks. */
  ghost predicate Coalesced(bs: seq<Block>) {
    forall k :: 0 < k < |bs| ==> Apart(bs, k)
  }

  lemma {:induction false} HeadersAscend(bs: seq<Block>, i: nat, j: nat)
    requires i <= j <= |bs|
    ensures HeaderAt(bs, i) <= HeaderAt(bs, j)
    ensures i < j ==> HeaderAt(bs, i) + bs[i].words <= HeaderAt(bs, j)
    decreases j
  {
    if i < j - 1 {
      HeadersAscend(bs, i, j - 1);
    }
  }

  // ------------------------------------------------------------ list edits

  /** cs is bs with the blocks lo..hi replaced by n blocks covering the same words. */
  ghost predicate Spliced(bs: seq<Block>, cs: seq<Block>, lo: nat, hi: nat, n: nat) {
    && lo <= hi <= |bs|
    && |cs| == |bs| - (hi - lo) + n
    && (forall k {:trigger cs[k]} :: 0 <= k < lo ==> cs[k] == bs[k])
    && (forall k {:trigger cs[k]} :: lo + n <= k < |cs| ==> cs[k] == bs[k - n + (hi - lo)])
    && HeaderAt(cs, lo + n) == HeaderAt(bs, hi)
  }

  lemma {:induction false} SamePrefix(bs: seq<Block>, cs: seq<Block>, k: nat)
    requires k <= |bs| && k <= |cs|
    requires forall i :: 0 <= i < k ==> bs[i] == cs[i]
    ensures HeaderAt(bs, k) == HeaderAt(cs, k)
  {
    if k > 0 {
      SamePrefix(bs, cs, k - 1);
    }
  }

  lemma {:induction false} SplicedTail(bs: seq<Block>, cs: seq<Block>, lo: nat, hi: nat, n: nat, k: nat)
    requires Spliced(bs, cs, lo, hi, n)
    requires lo + n <= k <= |cs|
    ensures HeaderAt(cs, k) == HeaderAt(bs, k - n + (hi - lo))
    decreases k
  {
    if k > lo + n {
      SplicedTail(bs, cs, lo, hi, n, k - 1);
      assert cs[k - 1] == bs[k - 1 - n + (hi - lo)];
    }
  }

  /** If memory changed only inside the replaced run, and the new blocks stand
      there, the new list is encoded. */
  lemma Replace(m: seq<int>, m': seq<int>, bs: seq<Block>, cs: seq<Block>, lo: nat, hi: nat, n: nat)
    requires Encodes(m, bs) && Spliced(bs, cs, lo, hi, n)
    requires |m'| == |m|
    requires forall i :: 0 <= i < |m| && !(HeaderAt(bs, lo) <= i < HeaderAt(bs, hi)) ==> m[i] == m'[i]
    requires forall k :: lo <= k < lo + n ==> Tagged(m', cs, k)
    ensures Encodes(m', cs)
  {
    SplicedTail(bs, cs, lo, hi, n, |cs|);
    HeadersAscend(bs, 0, lo);
    HeadersAscend(bs, hi, |bs|);
    forall k | 0 <= k < |cs|
      ensures Tagged(m', cs, k)
    {
      if k < lo {
        KeptLeft(m, m', bs, cs, lo, k);
      } else if k >= lo + n {
        KeptRight(m, m', bs, cs, lo, hi, n, k);
      }
    }
  }

  lemma KeptLeft(m: seq<int>, m': seq<int>, bs: seq<Block>, cs: seq<Block>, lo: nat, k: nat)
    requires Encodes(m, bs) && k < lo <= |bs| && lo <= |cs|
    requires forall i :: 0 <= i < lo ==> bs[i] == cs[i]
    requires |m'| == |m| && forall i :: 0 <= i < |m| && i < HeaderAt(bs, lo) ==> m[i] == m'[i]
    ensures Tagged(m', cs, k)
  {
    SamePrefix(bs, cs, k);
    HeadersAscend(bs, k, lo);
    assert Tagged(m, bs, k);
  }

  lemma KeptRight(m: seq<int>, m': seq<int>, bs: seq<Block>, cs: seq<Block>, lo: nat, hi: nat, n: nat, k: nat)
    requires Encodes(m, bs) && Spliced(bs, cs, lo, hi, n) && lo + n <= k < |cs|
    requires |m'| == |m| && forall i :: 0 <= i < |m| && HeaderAt(bs, hi) <= i ==> m[i] == m'[i]
    ensures Tagged(m', cs, k)
  {
    var j := k - n + (hi - lo);
    SplicedTail(bs, cs, lo, hi, n, k);
    HeadersAscend(bs, hi, j);
    assert Tagged(m, bs, j);
  }

  // ------------------------------------------------------------ operations

  /** Words taken by a request of the given number of bytes: padding to a
      multiple of 4, plus a header and a footer. */
  function PaddedWords(bytes: nat): nat {
    (bytes + 3) / 4 + 2
  }

  predicate Fits(b: Block, words: nat) {
    !b.used && b.words >= words
  }

  /** k is the lowest-addressed free block that is large enough. */
  ghost predicate IsFirstFit(bs: seq<Block>, words: nat, k: nat) {
    && k < |bs|
    && Fits(bs[k], words)
    && forall j :: 0 <= j < k ==> !Fits(bs[j], words)
  }

  ghost predicate NoFit(bs: seq<Block>, words: nat) {
    forall j :: 0 <= j < |bs| ==> !Fits(bs[j], words)
  }

  /** The blocks that replace a free block once a request is placed in it: the
      remainder is split off when it can hold two tags and a word. */
  function Placed(b: Block, words: nat): seq<Block>
    requires words <= b.words
  {
    if b.words - words > 2 then [Block(words, true), Block(b.words - words, false)]
    else [Block(b.words, true)]
  }

  function Allocate(bs: seq<Block>, k: nat, words: nat): seq<Block>
    requires k < |bs| && words <= bs[k].words
  {
    bs[..k] + Placed(bs[k], words) + bs[k + 1..]
  }

  /** First block of the run that block k merges into, looking one step left. */
  function MergeFrom(bs: seq<Block>, k: nat): nat
    requires k < |bs|
  {
    if k > 0 && !bs[k - 1].used then k - 1 else k
  }

  /** One past the last block of that run, looking one step right. */
  function MergeTo(bs: seq<Block>, k: nat): nat
    requires k < |bs|
  {
    if k + 1 < |bs| && !bs[k + 1].used then k + 2 else k + 1
  }

  /** The blocks lo..hi replaced by one free block. */
  function Merged(bs: seq<Block>, lo: nat, hi: nat): seq<Block>
    requires lo <= hi <= |bs|
  {
    HeadersAscend(bs, lo, hi);
    bs[..lo] + [Block(HeaderAt(bs, hi) - HeaderAt(bs, lo), false)] + bs[hi..]
  }

  /** Free block k and merge it with its free neighbours. */
  function Release(bs: seq<Block>, k: nat): seq<Block>
    requires k < |bs|
  {
    Merged(bs, MergeFrom(bs, k), MergeTo(bs, k))
  }

  lemma AllocateSplices(bs: seq<Block>, k: nat, words: nat)
    requires k < |bs| && words <= bs[k].words
    ensures var n := |Placed(bs[k], words)|;
            Spliced(bs, Allocate(bs, k, words), k, k + 1, n)
    ensures forall i :: 0 <= i < |Placed(bs[k], words)| ==> Allocate(bs, k, words)[k + i] == Placed(bs[k], words)[i]
    ensures HeaderAt(Allocate(bs, k, words), k) == HeaderAt(bs, k)
  {
    SamePrefix(bs, Allocate(bs, k, words), k);
  }

  lemma MergedSplices(bs: seq<Block>, lo: nat, hi: nat)
    requires lo <= hi <= |bs|
    ensures Spliced(bs, Merged(bs, lo, hi), lo, hi, 1)
    ensures HeaderAt(Merged(bs, lo, hi), lo) == HeaderAt(bs, lo)
    ensures !Merged(bs, lo, hi)[lo].used
    ensures Merged(bs, lo, hi)[lo].words == HeaderAt(bs, hi) - HeaderAt(bs, lo)
  {
    SamePrefix(bs, Merged(bs, lo, hi), lo);
  }

  lemma AllocateCoalesced(bs: seq<Block>, k: nat, words: nat)
    requires k < |bs| && Fits(bs[k], words) && Coalesced(bs)
    ensures Coalesced(Allocate(bs, k, words))
  {
    AllocateSplices(bs, k, words);
    var n := |Placed(bs[k], words)|;
    var cs := Allocate(bs, k, words);
    forall i | 0 < i < |cs|
      ensures Apart(cs, i)
    {
      if i < k {
        assert Apart(bs, i);
      } else if i >= k + n {
        assert Apart(bs, i - n + 1);
      }
    }
  }

  lemma ReleaseCoalesced(bs: seq<Block>, k: nat)
    requires k < |bs| && Coalesced(bs)
    ensures Coalesced(Release(bs, k))
  {
    var lo, hi := MergeFrom(bs, k), MergeTo(bs, k);
    MergedSplices(bs, lo, hi);
    var cs := Release(bs, k);
    forall i | 0 < i < |cs|
      ensures Apart(cs, i)
    {
      if i <= lo {
        assert Apart(bs, i);
        assert lo < k ==> Apart(bs, k);
      } else {
        assert Apart(bs, i - 1 + (hi - lo));
      }
    }
  }

  /** Freeing what was just allocated gives back exactly the partition before. */
  lemma FreeUndoesMalloc(bs: seq<Block>, k: nat, words: nat)
    requires k < |bs| && Fits(bs[k], words) && Coalesced(bs)
    ensures k < |Allocate(bs, k, words)|
    ensures Release(Allocate(bs, k, words), k) == bs
  {
    AllocateSplices(bs, k, words);
    var cs, n := Allocate(bs, k, words), |Placed(bs[k], words)|;
    assert k > 0 ==> Apart(bs, k);
    assert k + 1 < |bs| ==> Apart(bs, k + 1);
    PlacedRun(bs, cs, k, n);
    MergeBack(bs, cs, k, n);
  }

  /** The run that a freshly placed block merges into is the block it came from. */
  lemma PlacedRun(bs: seq<Block>, cs: seq<Block>, k: nat, n: nat)
    requires Spliced(bs, cs, k, k + 1, n) && 1 <= n <= 2 && (n == 2 ==> !cs[k + 1].used)
    requires k > 0 ==> bs[k - 1].used
    requires k + 1 < |bs| ==> bs[k + 1].used
    ensures MergeFrom(cs, k) == k && MergeTo(cs, k) == k + n
  {
    assert k > 0 ==> cs[k - 1] == bs[k - 1];
    assert k + n < |cs| ==> cs[k + n] == bs[k + 1];
  }

  lemma MergeBack(bs: seq<Block>, cs: seq<Block>, k: nat, n: nat)
    requires Spliced(bs, cs, k, k + 1, n) && !bs[k].used
    ensures Merged(cs, k, k + n) == bs
  {
    MergedSplices(cs, k, k + n);
    SamePrefix(bs, cs, k);
    SpliceBack(bs, cs, Merged(cs, k, k + n), k, n);
  }

  lemma SpliceBack(bs: seq<Block>, cs: seq<Block>, ds: seq<Block>, k: nat, n: nat)
    requires Spliced(bs, cs, k, k + 1, n) && Spliced(cs, ds, k, k + n, 1) && ds[k] == bs[k]
    ensures ds == bs
  {
    forall i | 0 <= i < |bs|
      ensures ds[i] == bs[i]
    {
      if i < k {
        assert ds[i] == cs[i];
      } else if i > k {
        assert ds[i] == cs[i - 1 + n];
      }
    }
  }

  // ------------------------------------------------------------ live regions

  /** What the user owns: the first payload word and the number of them. The
      address of a region is four times its first word. */
  datatype Region = Region(first: nat, words: int)

  function RegionOf(bs: seq<Block>, k: nat): Region
    requires k < |bs|
  {
    Region(HeaderAt(bs, k) + 1, bs[k].words - 2)
  }

  /** The regions of the used blocks. */
  ghost function Live(bs: seq<Block>): set<Region> {
    set k {:trigger RegionOf(bs, k)} | 0 <= k < |bs| && bs[k].used :: RegionOf(bs, k)
  }

  lemma LiveIsUsedBlock(bs: seq<Block>, r: Region) returns (k: nat)
    requires r in Live(bs)
    ensures k < |bs| && bs[k].used && r == RegionOf(bs, k)
  {
    k :| 0 <= k < |bs| && bs[k].used && r == RegionOf(bs, k);
  }

  /** Blocks outside the replaced run keep their regions. */
  lemma SplicedLive(bs: seq<Block>, cs: seq<Block>, lo: nat, hi: nat, n: nat)
    requires Spliced(bs, cs, lo, hi, n)
    ensures forall k {:trigger RegionOf(cs, k)} :: 0 <= k < lo ==> RegionOf(cs, k) == RegionOf(bs, k)
    ensures forall k {:trigger RegionOf(cs, k)} :: lo + n <= k < |cs| ==>
                                                     RegionOf(cs, k) == RegionOf(bs, k - n + (hi - lo))
  {
    forall k | 0 <= k < lo
      ensures RegionOf(cs, k) == RegionOf(bs, k)
    {
      SamePrefix(bs, cs, k);
    }
    forall k | lo + n <= k < |cs|
      ensures RegionOf(cs, k) == RegionOf(bs, k - n + (hi - lo))
    {
      SplicedTail(bs, cs, lo, hi, n, k);
    }
  }

  /** Address of a block determines the block, when blocks are not empty. */
  lemma AddressInjective(bs: seq<Block>, i: nat, j: nat)
    requires i < j < |bs| && bs[i].words > 0
    ensures Address(bs, i) < Address(bs, j)
  {
    HeadersAscend(bs, i, j);
  }

  /** Allocation adds one region, at the chosen block. */
  lemma AllocateLive(bs: seq<Block>, k: nat, words: nat)
    requires k < |bs| && Fits(bs[k], words)
    ensures var cs := Allocate(bs, k, words);
            && k < |cs|
            && cs[k].used
            && RegionOf(cs, k) == Region(HeaderAt(bs, k) + 1, Placed(bs[k], words)[0].words - 2)
            && Live(cs) == Live(bs) + {RegionOf(cs, k)}
  {
    AllocateSplices(bs, k, words);
    var n := |Placed(bs[k], words)|;
    var cs := Allocate(bs, k, words);
    assert cs[k + 0] == Placed(bs[k], words)[0];
    assert RegionOf(cs, k) in Live(cs);
    LiveKept(bs, cs, k, k + 1, n);
    forall r | r in Live(cs)
      ensures r in Live(bs) + {RegionOf(cs, k)}
    {
      var i := LiveIsUsedBlock(cs, r);
      if i != k {
        assert n == 2 ==> cs[k + 1] == Placed(bs[k], words)[1];
        LiveFromOutside(bs, cs, k, k + 1, n, i);
      }
    }
  }

  /** Live blocks outside the replaced run stay live. */
  lemma LiveKept(bs: seq<Block>, cs: seq<Block>, lo: nat, hi: nat, n: nat)
    requires Spliced(bs, cs, lo, hi, n)
    ensures forall i {:trigger RegionOf(bs, i)} :: 0 <= i < |bs| && bs[i].used && !(lo <= i < hi) ==>
                                                     RegionOf(bs, i) in Live(cs)
    ensures (forall i :: lo <= i < hi ==> !bs[i].used) ==> Live(bs) <= Live(cs)
  {
    SplicedLive(bs, cs, lo, hi, n);
    forall i | 0 <= i < |bs| && bs[i].used && !(lo <= i < hi)
      ensures RegionOf(bs, i) in Live(cs)
    {
      var j := if i < lo then i else i + n - (hi - lo);
      assert cs[j] == bs[i] && RegionOf(cs, j) == RegionOf(bs, i);
    }
  }

  lemma LiveFromOutside(bs: seq<Block>, cs: seq<Block>, lo: nat, hi: nat, n: nat, i: nat)
    requires Spliced(bs, cs, lo, hi, n) && i < |cs| && cs[i].used && !(lo <= i < lo + n)
    ensures RegionOf(cs, i) in Live(bs)
  {
    SplicedLive(bs, cs, lo, hi, n);
    var j := if i < lo then i else i - n + (hi - lo);
    assert cs[i] == bs[j] && RegionOf(cs, i) == RegionOf(bs, j);
  }

  /** Release removes exactly the region of the freed block. */
  lemma ReleaseLive(bs: seq<Block>, k: nat)
    requires k < |bs| && bs[k].used
    requires forall i :: 0 <= i < |bs| ==> bs[i].words > 0
    ensures Live(Release(bs, k)) == Live(bs) - {RegionOf(bs, k)}
  {
    var lo, hi := MergeFrom(bs, k), MergeTo(bs, k);
    MergedSplices(bs, lo, hi);
    var cs := Release(bs, k);
    SplicedLive(bs, cs, lo, hi, 1);
    forall r | r in Live(cs)
      ensures r in Live(bs) && r != RegionOf(bs, k)
    {
      var i := LiveIsUsedBlock(cs, r);
      LiveFromOutside(bs, cs, lo, hi, 1, i);
      if i < lo {
        AddressInjective(bs, i, k);
      } else {
        AddressInjective(bs, k, i - 1 + (hi - lo));
      }
    }
    LiveKept(bs, cs, lo, hi, 1);
    forall r | r in Live(bs) && r != RegionOf(bs, k)
      ensures r in Live(cs)
    {
      var i := LiveIsUsedBlock(bs, r);
    }
  }

  /** Two different live regions are apart by at least a footer and a header. */
  lemma LiveDisjoint(bs: seq<Block>, r: Region, q: Region)
    requires r in Live(bs) && q in Live(bs) && r != q
    ensures r.first + r.words + 2 <= q.first || q.first + q.words + 2 <= r.first
  {
    var i := LiveIsUsedBlock(bs, r);
    var j := LiveIsUsedBlock(bs, q);
    if i < j {
      HeadersAscend(bs, i, j);
    } else {
      HeadersAscend(bs, j, i);
    }
  }

  /** No header or footer of any block lies inside a live region. */
  lemma LiveAvoidsTags(bs: seq<Block>, r: Region, k: nat)
    requires r in Live(bs) && k < |bs| && bs[k].words >= 2
    ensures !(r.first <= HeaderAt(bs, k) < r.first + r.words)
    ensures !(r.first <= HeaderAt(bs, k) + bs[k].words - 1 < r.first + r.words)
  {
    var i := LiveIsUsedBlock(bs, r);
    if i < k {
      HeadersAscend(bs, i, k);
    } else if k < i {
      HeadersAscend(bs, k, i);
    }
  }

  /** A coalesced list with nothing live is one free block. */
  lemma NothingLive(bs: seq<Block>)
    requires Coalesced(bs) && Live(bs) == {} && |bs| > 0
    ensures |bs| == 1 && !bs[0].used && HeaderAt(bs, 1) == 1 + bs[0].words
  {
    forall k | 0 <= k < |bs|
      ensures !bs[k].used
    {
      assert RegionOf(bs, k) !in Live(bs);
    }
    assert |bs| > 1 ==> Apart(bs, 1);
  }
}
