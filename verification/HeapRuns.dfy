/** Whole runs of the allocator: any interleaving of malloc, free of a live
    pointer, and writes of the user into payloads. */
module HeapRuns {
  import opened HeapLayout
  import opened Heap
  import opened Options

  datatype Op =
    | Malloc(bytes: nat, result: Option<int>)
    | Free(ptr: int)
    | Write(word: nat, value: int)

  /** The word belongs to the payload of the region. */
  predicate Owns(r: Region, word: nat) {
    r.first <= word < r.first + r.words
  }

  ghost predicate Step(s: HeapState, op: Op, s': HeapState) {
    match op
    case Malloc(bytes, result) => MallocStep(s, bytes, result, s')
    case Free(ptr) => exists k :: FreeStep(s, k, s') && ptr == Address(s.blocks, k)
    case Write(word, value) =>
      word < |s.mem| && (exists r :: r in Live(s.blocks) && Owns(r, word)) && s' == s.(mem := s.mem[word := value])
  }

  ghost predicate IsRun(ss: seq<HeapState>, ops: seq<Op>) {
    && |ss| == |ops| + 1
    && forall i {:trigger ops[i]} :: 0 <= i < |ops| ==> Step(ss[i], ops[i], ss[i + 1])
  }

  /** The operation gives the region back, or overwrites a word of it. */
  predicate Touches(op: Op, r: Region) {
    match op
    case Malloc(_, _) => false
    case Free(ptr) => ptr == 4 * r.first
    case Write(word, _) => Owns(r, word)
  }

  ghost function Payload(s: HeapState, r: Region): seq<int>
    requires 0 <= r.words && r.first + r.words <= |s.mem|
  {
    s.mem[r.first..r.first + r.words]
  }

  // ------------------------------------------------------------ the heap invariant

  lemma LiveInside(s: HeapState, r: Region) returns (k: nat)
    requires Inv(s) && r in Live(s.blocks)
    ensures k < |s.blocks| && s.blocks[k].used && r == RegionOf(s.blocks, k)
    ensures 1 <= r.words && r.first + r.words < |s.mem|
    ensures r.first == HeaderAt(s.blocks, k) + 1 && r.first + r.words + 1 == HeaderAt(s.blocks, k + 1)
  {
    k := LiveIsUsedBlock(s.blocks, r);
    assert Tagged(s.mem, s.blocks, k);
  }

  lemma WriteKeepsInv(s: HeapState, r: Region, word: nat, value: int)
    requires Inv(s) && r in Live(s.blocks) && Owns(r, word) && word < |s.mem|
    ensures Inv(s.(mem := s.mem[word := value]))
  {
    var m' := s.mem[word := value];
    var i := LiveInside(s, r);
    HeadersAscend(s.blocks, 0, i);
    forall k | 0 <= k < |s.blocks|
      ensures Tagged(m', s.blocks, k)
    {
      assert Tagged(s.mem, s.blocks, k);
      LiveAvoidsTags(s.blocks, r, k);
    }
  }

  lemma StepKeepsInv(s: HeapState, op: Op, s': HeapState)
    requires Inv(s) && Step(s, op, s')
    ensures Inv(s') && |s'.mem| == |s.mem|
  {
    match op
    case Malloc(bytes, result) =>
      if result.Some? {
        var k: nat :| PlacedIn(s, PaddedWords(bytes), k, s');
        AllocateCoalesced(s.blocks, k, PaddedWords(bytes));
      }
    case Free(ptr) =>
      var k: nat :| FreeStep(s, k, s') && ptr == Address(s.blocks, k);
      ReleaseCoalesced(s.blocks, k);
    case Write(word, value) =>
      var r :| r in Live(s.blocks) && Owns(r, word);
      WriteKeepsInv(s, r, word, value);
  }

  /** Exact tiling, equal tags, no adjacent free blocks: in every state of every run. */
  lemma {:induction false} RunKeepsInv(ss: seq<HeapState>, ops: seq<Op>, i: nat)
    requires IsRun(ss, ops) && Inv(ss[0]) && i < |ss|
    ensures Inv(ss[i]) && |ss[i].mem| == |ss[0].mem|
    decreases i
  {
    if i > 0 {
      RunKeepsInv(ss, ops, i - 1);
      assert Step(ss[i - 1], ops[i - 1], ss[i - 1 + 1]);
      StepKeepsInv(ss[i - 1], ops[i - 1], ss[i]);
    }
  }

  lemma FreshInv(n: nat)
    requires n >= 5
    ensures Inv(HeapState(FreshArena(n), [Block(n - 2, false)]))
  {
    var s := HeapState(FreshArena(n), [Block(n - 2, false)]);
    assert HeaderAt(s.blocks, 1) == HeaderAt(s.blocks, 0) + s.blocks[0].words;
    assert Tagged(s.mem, s.blocks, 0);
  }

  // ------------------------------------------------------------ ownership

  /** The payload of the block holds that many bytes, besides its two tags. */
  predicate Holds(b: Block, bytes: nat) {
    !b.used && bytes <= 4 * (b.words - 2)
  }

  lemma PaddedIs(bytes: nat, words: nat)
    ensures PaddedWords(bytes) <= words <==> bytes <= 4 * (words - 2)
    ensures bytes <= 4 * (PaddedWords(bytes) - 2) < bytes + 4
  {
  }

  lemma FitsIs(bs: seq<Block>, bytes: nat, k: nat)
    requires k < |bs|
    ensures Fits(bs[k], PaddedWords(bytes)) <==> Holds(bs[k], bytes)
  {
    PaddedIs(bytes, bs[k].words);
  }

  /** Malloc returns NULL exactly if the request is empty or larger than the arena, or
      no free block holds it. */
  lemma MallocFailsIff(s: HeapState, bytes: nat, result: Option<int>, s': HeapState)
    requires MallocStep(s, bytes, result, s')
    ensures result == None
            <==> bytes == 0 || bytes > 4 * |s.mem| || forall k :: 0 <= k < |s.blocks| ==> !Holds(s.blocks[k], bytes)
    ensures result == None ==> s' == s
  {
    forall k | 0 <= k < |s.blocks|
      ensures Fits(s.blocks[k], PaddedWords(bytes)) <==> Holds(s.blocks[k], bytes)
    {
      FitsIs(s.blocks, bytes, k);
    }
  }

  /** The first free block that holds the request is used: cut to the request rounded up
      to a word if what is left over can be a block, and whole otherwise. */
  lemma MallocPlaces(s: HeapState, bytes: nat, p: int, s': HeapState) returns (k: nat)
    requires Inv(s) && MallocStep(s, bytes, Some(p), s')
    ensures k < |s.blocks| && p == 4 * (HeaderAt(s.blocks, k) + 1)
    ensures Holds(s.blocks[k], bytes) && forall j :: 0 <= j < k ==> !Holds(s.blocks[j], bytes)
    ensures Cut(s.blocks, s'.blocks, k, bytes) || Whole(s.blocks, s'.blocks, k, bytes)
  {
    k :| PlacedIn(s, PaddedWords(bytes), k, s') && Some(p) == Some(Address(s.blocks, k));
    forall j | 0 <= j <= k
      ensures Fits(s.blocks[j], PaddedWords(bytes)) <==> Holds(s.blocks[j], bytes)
    {
      FitsIs(s.blocks, bytes, j);
    }
    AllocatesExactly(s.blocks, k, bytes);
  }

  lemma AllocatesExactly(bs: seq<Block>, k: nat, bytes: nat)
    requires k < |bs| && Fits(bs[k], PaddedWords(bytes))
    ensures var cs := Allocate(bs, k, PaddedWords(bytes)); Cut(bs, cs, k, bytes) || Whole(bs, cs, k, bytes)
  {
    PaddedIs(bytes, bs[k].words);
  }

  /** Block k became a used block of the request rounded up, and a free rest. */
  ghost predicate Cut(bs: seq<Block>, cs: seq<Block>, k: nat, bytes: nat)
    requires k < |bs|
  {
    exists w: nat, rest: nat ::
      && w + rest == bs[k].words && rest >= 3
      && bytes <= 4 * (w - 2) < bytes + 4
      && cs == bs[..k] + [Block(w, true), Block(rest, false)] + bs[k + 1..]
  }

  /** Block k is used as it is, since less than a block would be left over. */
  ghost predicate Whole(bs: seq<Block>, cs: seq<Block>, k: nat, bytes: nat)
    requires k < |bs|
  {
    4 * (bs[k].words - 2) < bytes + 12 && cs == bs[k := Block(bs[k].words, true)]
  }

  /** A successful malloc grants one new region at the returned address, large
      enough, apart from everything live. */
  lemma MallocGrants(s: HeapState, bytes: nat, p: int, s': HeapState) returns (r: Region)
    requires Inv(s) && MallocStep(s, bytes, Some(p), s')
    ensures p == 4 * r.first && bytes <= 4 * r.words < bytes + 12
    ensures Live(s'.blocks) == Live(s.blocks) + {r}
    ensures forall q :: q in Live(s.blocks) ==> q.first != r.first
  {
    var words := PaddedWords(bytes);
    var k: nat :| PlacedIn(s, words, k, s') && Some(p) == Some(Address(s.blocks, k));
    AllocateLive(s.blocks, k, words);
    r := RegionOf(s'.blocks, k);
    PaddedIs(bytes, s.blocks[k].words);
    forall q | q in Live(s.blocks)
      ensures q.first != r.first
    {
      var i := LiveInside(s, q);
      assert Tagged(s.mem, s.blocks, k);
      if i < k {
        AddressInjective(s.blocks, i, k);
      } else {
        AddressInjective(s.blocks, k, i);
      }
    }
  }

  /** A free takes away the region at its address and nothing else. */
  lemma FreeRevokes(s: HeapState, ptr: int, s': HeapState) returns (r: Region)
    requires Inv(s) && Step(s, Free(ptr), s')
    ensures r in Live(s.blocks) && ptr == 4 * r.first
    ensures Live(s'.blocks) == Live(s.blocks) - {r}
  {
    var k: nat :| FreeStep(s, k, s') && ptr == Address(s.blocks, k);
    r := RegionOf(s.blocks, k);
    forall i | 0 <= i < |s.blocks|
      ensures s.blocks[i].words > 0
    {
      assert Tagged(s.mem, s.blocks, i);
    }
    ReleaseLive(s.blocks, k);
  }

  /** Two live regions at one address are the same region. */
  lemma OneRegionPerAddress(s: HeapState, r: Region, q: Region)
    requires Inv(s) && r in Live(s.blocks) && q in Live(s.blocks) && r.first == q.first
    ensures r == q
  {
    if r != q {
      var i := LiveInside(s, r);
      var j := LiveInside(s, q);
      LiveDisjoint(s.blocks, r, q);
    }
  }

  // ------------------------------------------------------------ payloads

  /** A block outside the run that changed keeps its words. */
  lemma OutsideKept(s: HeapState, s': HeapState, i: nat, lo: nat, hi: nat)
    requires Inv(s) && i < |s.blocks| && lo <= hi <= |s.blocks| && !(lo <= i < hi)
    requires SameOutside(s.mem, s'.mem, HeaderAt(s.blocks, lo), HeaderAt(s.blocks, hi))
    ensures HeaderAt(s.blocks, i) + s.blocks[i].words <= |s.mem|
    ensures forall w :: HeaderAt(s.blocks, i) <= w < HeaderAt(s.blocks, i) + s.blocks[i].words ==> s.mem[w] == s'.mem[w]
  {
    assert Tagged(s.mem, s.blocks, i);
    if i < lo {
      HeadersAscend(s.blocks, i, lo);
    } else {
      HeadersAscend(s.blocks, hi, i);
    }
  }

  lemma StepKeepsPayload(s: HeapState, op: Op, s': HeapState, r: Region)
    requires Inv(s) && Step(s, op, s') && r in Live(s.blocks) && !Touches(op, r)
    ensures r in Live(s'.blocks)
    ensures 0 <= r.words && r.first + r.words <= |s.mem| && |s'.mem| == |s.mem|
    ensures Payload(s', r) == Payload(s, r)
  {
    var i := LiveInside(s, r);
    match op
    case Malloc(bytes, result) =>
      if result.Some? {
        var k: nat :| PlacedIn(s, PaddedWords(bytes), k, s');
        MallocKeepsWords(s, PaddedWords(bytes), k, s', r, i);
      }
    case Free(ptr) =>
      var q := FreeRevokes(s, ptr, s');
      var k: nat :| FreeStep(s, k, s') && ptr == Address(s.blocks, k);
      FreeKeepsWords(s, k, s', r, i);
    case Write(word, value) =>
  }

  lemma MallocKeepsWords(s: HeapState, words: nat, k: nat, s': HeapState, r: Region, i: nat)
    requires Inv(s) && PlacedIn(s, words, k, s')
    requires i < |s.blocks| && s.blocks[i].used && r == RegionOf(s.blocks, i)
    ensures r in Live(s'.blocks)
    ensures 0 <= r.words && r.first + r.words <= |s.mem| && |s'.mem| == |s.mem|
    ensures Payload(s', r) == Payload(s, r)
  {
    assert r in Live(s.blocks);
    AllocateLive(s.blocks, k, words);
    PayloadKept(s, s', r, i, k, k + 1);
  }

  lemma FreeKeepsWords(s: HeapState, k: nat, s': HeapState, r: Region, i: nat)
    requires Inv(s) && FreeStep(s, k, s') && i != k
    requires i < |s.blocks| && s.blocks[i].used && r == RegionOf(s.blocks, i)
    ensures 0 <= r.words && r.first + r.words <= |s.mem| && |s'.mem| == |s.mem|
    ensures Payload(s', r) == Payload(s, r)
  {
    PayloadKept(s, s', r, i, MergeFrom(s.blocks, k), MergeTo(s.blocks, k));
  }

  lemma PayloadKept(s: HeapState, s': HeapState, r: Region, i: nat, lo: nat, hi: nat)
    requires Inv(s) && i < |s.blocks| && lo <= hi <= |s.blocks| && !(lo <= i < hi)
    requires r == RegionOf(s.blocks, i)
    requires SameOutside(s.mem, s'.mem, HeaderAt(s.blocks, lo), HeaderAt(s.blocks, hi))
    ensures 0 <= r.words && r.first + r.words <= |s.mem| && |s'.mem| == |s.mem|
    ensures Payload(s', r) == Payload(s, r)
  {
    assert Tagged(s.mem, s.blocks, i);
    OutsideKept(s, s', i, lo, hi);
  }

  /** Across any part of any run, a live region that nobody frees stays live, and
      each of its words that nobody writes keeps its value. */
  lemma {:induction false} RunKeepsWord(ss: seq<HeapState>, ops: seq<Op>, i: nat, j: nat, r: Region, word: nat)
    requires IsRun(ss, ops) && Inv(ss[0]) && i <= j < |ss|
    requires r in Live(ss[i].blocks) && Owns(r, word)
    requires forall t :: i <= t < j ==> ops[t] != Free(4 * r.first) && !(ops[t].Write? && ops[t].word == word)
    ensures r in Live(ss[j].blocks)
    ensures word < |ss[i].mem| == |ss[j].mem| && ss[j].mem[word] == ss[i].mem[word]
    decreases j
  {
    RunKeepsInv(ss, ops, i);
    var k := LiveInside(ss[i], r);
    if i < j {
      RunKeepsWord(ss, ops, i, j - 1, r, word);
      RunKeepsInv(ss, ops, j - 1);
      assert Step(ss[j - 1], ops[j - 1], ss[j - 1 + 1]);
      StepKeepsWord(ss[j - 1], ops[j - 1], ss[j], r, word);
    }
  }

  lemma StepKeepsWord(s: HeapState, op: Op, s': HeapState, r: Region, word: nat)
    requires Inv(s) && Step(s, op, s') && r in Live(s.blocks) && Owns(r, word)
    requires op != Free(4 * r.first) && !(op.Write? && op.word == word)
    ensures r in Live(s'.blocks)
    ensures word < |s.mem| == |s'.mem| && s'.mem[word] == s.mem[word]
  {
    var k := LiveInside(s, r);
    if !op.Write? {
      StepKeepsPayload(s, op, s', r);
      WordOfPayload(s, s', r, word);
    }
  }

  lemma WordOfPayload(s: HeapState, s': HeapState, r: Region, word: nat)
    requires Owns(r, word) && r.first + r.words <= |s.mem| == |s'.mem| && Payload(s', r) == Payload(s, r)
    ensures s'.mem[word] == s.mem[word]
  {
    assert Payload(s, r)[word - r.first] == Payload(s', r)[word - r.first];
  }

  /** In particular, a live region that nobody frees or writes keeps every word. */
  lemma RunKeepsPayload(ss: seq<HeapState>, ops: seq<Op>, i: nat, j: nat, r: Region)
    requires IsRun(ss, ops) && Inv(ss[0]) && i <= j < |ss|
    requires r in Live(ss[i].blocks)
    requires forall t :: i <= t < j ==> !Touches(ops[t], r)
    ensures r in Live(ss[j].blocks)
    ensures 0 <= r.words && r.first + r.words <= |ss[i].mem| == |ss[j].mem|
    ensures Payload(ss[j], r) == Payload(ss[i], r)
  {
    RunKeepsInv(ss, ops, i);
    var k := LiveInside(ss[i], r);
    RunKeepsWord(ss, ops, i, j, r, r.first);
    forall w | r.first <= w < r.first + r.words
      ensures ss[j].mem[w] == ss[i].mem[w]
    {
      RunKeepsWord(ss, ops, i, j, r, w);
    }
  }

  /** A payload word holds the value last written to it, for as long as its region
      is not freed, whatever else is allocated, freed and written meanwhile. */
  lemma LastWriteLasts(ss: seq<HeapState>, ops: seq<Op>, i: nat, j: nat, r: Region)
    requires IsRun(ss, ops) && Inv(ss[0]) && i < j < |ss|
    requires ops[i].Write? && r in Live(ss[i].blocks) && Owns(r, ops[i].word)
    requires forall t :: i < t < j ==> ops[t] != Free(4 * r.first) && !(ops[t].Write? && ops[t].word == ops[i].word)
    ensures r in Live(ss[j].blocks)
    ensures ops[i].word < |ss[j].mem| && ss[j].mem[ops[i].word] == ops[i].value
  {
    assert Step(ss[i], ops[i], ss[i + 1]);
    RunKeepsWord(ss, ops, i + 1, j, r, ops[i].word);
  }

  // ------------------------------------------------------------ undo and recovery

  /** Freeing the block that malloc just returned restores the partition. */
  lemma MallocFreeRestores(s: HeapState, bytes: nat, p: int, s1: HeapState, s2: HeapState)
    requires Inv(s) && MallocStep(s, bytes, Some(p), s1) && Step(s1, Free(p), s2)
    ensures s2.blocks == s.blocks
  {
    var k: nat :| PlacedIn(s, PaddedWords(bytes), k, s1) && Some(p) == Some(Address(s.blocks, k));
    var j: nat :| FreeStep(s1, j, s2) && p == Address(s1.blocks, j);
    StepKeepsInv(s, Malloc(bytes, Some(p)), s1);
    SameBlock(s, PaddedWords(bytes), k, s1, j);
    FreeUndoesMalloc(s.blocks, k, PaddedWords(bytes));
  }

  lemma SameBlock(s: HeapState, words: nat, k: nat, s1: HeapState, j: nat)
    requires PlacedIn(s, words, k, s1) && Inv(s1) && j < |s1.blocks|
    requires Address(s1.blocks, j) == Address(s.blocks, k)
    ensures j == k
  {
    AllocateSplices(s.blocks, k, words);
    AddressOfOne(s1.mem, s1.blocks, j, k);
  }

  /** Once nothing is live, the heap is one free block again. */
  lemma NothingLiveIsWhole(s: HeapState)
    requires Inv(s) && Live(s.blocks) == {}
    ensures s.blocks == [Block(|s.mem| - 2, false)]
  {
    NothingLive(s.blocks);
    assert s.blocks == [s.blocks[0]];
  }

  /** During a run of frees, what is live was live at the start and has not been freed. */
  lemma {:induction false} FreesOnlyRevoke(ss: seq<HeapState>, ops: seq<Op>, i: nat, r: Region)
    requires IsRun(ss, ops) && Inv(ss[0]) && i < |ss| && r in Live(ss[i].blocks)
    requires forall t :: 0 <= t < |ops| ==> ops[t].Free?
    ensures r in Live(ss[0].blocks)
    ensures forall t :: 0 <= t < i ==> ops[t] != Free(4 * r.first)
    decreases i
  {
    if i > 0 {
      RunKeepsInv(ss, ops, i - 1);
      assert Step(ss[i - 1], ops[i - 1], ss[i - 1 + 1]);
      var q := FreeRevokes(ss[i - 1], ops[i - 1].ptr, ss[i]);
      FreesOnlyRevoke(ss, ops, i - 1, r);
      if q.first == r.first {
        OneRegionPerAddress(ss[i - 1], q, r);
      }
    }
  }

  /** Freeing every live allocation, in whatever order, restores the single free block. */
  lemma FullRecovery(ss: seq<HeapState>, ops: seq<Op>)
    requires IsRun(ss, ops) && Inv(ss[0])
    requires forall t :: 0 <= t < |ops| ==> ops[t].Free?
    requires forall r :: r in Live(ss[0].blocks) ==> Free(4 * r.first) in ops
    ensures ss[|ops|].blocks == [Block(|ss[0].mem| - 2, false)]
  {
    RunKeepsInv(ss, ops, |ops|);
    forall r | r in Live(ss[|ops|].blocks)
      ensures false
    {
      FreesOnlyRevoke(ss, ops, |ops|, r);
    }
    NothingLiveIsWhole(ss[|ops|]);
  }

  // ------------------------------------------------------------ calls in sequence

  /** The user stores a word into a payload of their own. */
  method Store(heap: Arena, word: nat, value: int)
    requires heap.Valid() && heap.isInitialized && word < heap.mem.Length
    requires exists r :: r in Live(heap.blocks) && Owns(r, word)
    modifies heap.mem
    ensures heap.Valid() && Step(old(heap.State()), Write(word, value), heap.State())
  {
    ghost var s := heap.State();
    heap.mem[word] := value;
    StepKeepsInv(s, Write(word, value), HeapState(heap.mem[..], heap.blocks));
  }

  /** Any address outside the blocks' range may be passed to free. */
  lemma OutsideIsFreeable(heap: Arena, ptr: int)
    requires heap.Valid()
    ensures ptr < 4 || ptr > heap.memsize - 8 ==> heap.Freeable(ptr)
  {
  }

  /** Frees of addresses that can be freed stay harmless in any number and order: every
      address that could be freed before can be freed after, and none given is live. */
  method FreeMany(heap: Arena, ptrs: seq<int>)
    requires heap.Valid() && forall p :: p in ptrs ==> heap.Freeable(p)
    modifies heap, heap.mem
    ensures heap.Valid()
    ensures forall q :: old(heap.Freeable(q)) ==> heap.Freeable(q)
    ensures forall p :: p in ptrs ==> !IsLive(heap.blocks, p)
  {
    for i := 0 to |ptrs|
      invariant heap.Valid() && forall q :: old(heap.Freeable(q)) ==> heap.Freeable(q)
      invariant forall j :: 0 <= j < i ==> !IsLive(heap.blocks, ptrs[j])
    {
      heap.Free(Some(ptrs[i]));
    }
  }

  /** The second free of the same pointer changes no word, however the first one
      merged the block. */
  method FreeTwice(heap: Arena, ptr: int) returns (between: seq<int>)
    requires heap.Valid() && heap.Freeable(ptr)
    modifies heap, heap.mem
    ensures heap.Valid()
    ensures heap.mem[..] == between
    ensures old(heap.isInitialized && IsLive(heap.blocks, ptr))
            ==> exists k :: FreeStep(old(heap.State()), k, HeapState(between, heap.blocks))
                            && ptr == Address(old(heap.blocks), k)
  {
    heap.Free(Some(ptr));
    between := heap.mem[..];
    label First:
    heap.Free(Some(ptr));
    assert heap.State() == old@First(heap.State());
  }
}
