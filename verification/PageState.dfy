/** Page tables, the master table of frames, and frame contents as values, with
    the one operation that all displacement is made of: moving a page to a frame
    that nobody holds. */
module PageState {

  const SENTINEL := 6969

  function Units(n: nat): (us: seq<()>)
    ensures |us| == n
  {
    if n == 0 then [] else Units(n - 1) + [()]
  }

  /** tables[j][k] is the frame of page k of thread j, or the sentinel; used[f]
      is the mark of frame f in the master table; frames below the number of
      memory pages are RAM, the others are slots of the swap file. */
  datatype PageState<Page> = PageState(tables: seq<seq<int>>, used: seq<bool>, frames: seq<Page>) {

    ghost predicate Shaped(memoryPages: nat) {
      && 2 <= memoryPages <= |frames| <= SENTINEL
      && |used| == |frames|
      && forall j :: 0 <= j < |tables| ==> |tables[j]| == memoryPages
    }

    predicate Slot(j: int, k: int) {
      0 <= j < |tables| && 0 <= k < |tables[j]|
    }

    predicate Held(j: int, k: int) {
      Slot(j, k) && tables[j][k] != SENTINEL
    }

    predicate Free(f: int) {
      0 <= f < |used| && !used[f]
    }

    /** No page of any thread sits in frame f. */
    ghost predicate Unheld(f: int) {
      forall j, k :: Held(j, k) ==> tables[j][k] != f
    }

    /** Every page sits in a frame that is marked. */
    ghost predicate Marked() {
      && |used| == |frames|
      && forall j, k :: Held(j, k) ==> 0 <= tables[j][k] < |frames| && used[tables[j][k]]
    }

    /** Two slots hold the same frame. */
    predicate Share(j: int, k: int, j': int, k': int) {
      Held(j, k) && Held(j', k') && tables[j][k] == tables[j'][k']
    }

    ghost predicate Injective() {
      forall j, k, j', k' :: Share(j, k, j', k') ==> j == j' && k == k'
    }

    ghost predicate Consistent(memoryPages: nat) {
      Shaped(memoryPages) && Marked() && Injective()
    }

    /** Frame f is marked although nobody holds it; no page is displaced into it. */
    ghost predicate Reserved(f: int) {
      0 <= f < |used| && used[f] && Unheld(f)
    }

    /** The tables and marks without the contents. */
    function Marks(): PageState<()> {
      PageState(tables, used, Units(|used|))
    }
  }

  /** Every page of s is still there in s', with the same contents. */
  ghost predicate KeepsPages<Page>(s: PageState<Page>, s': PageState<Page>) {
    && s.Marked() && s'.Marked()
    && forall j, k :: s.Held(j, k) ==> s'.Held(j, k) && s'.frames[s'.tables[j][k]] == s.frames[s.tables[j][k]]
  }

  /** The same slots hold pages. */
  ghost predicate SameSlots<Page>(s: PageState<Page>, s': PageState<Page>) {
    && |s'.tables| == |s.tables|
    && (forall j :: 0 <= j < |s.tables| ==> |s'.tables[j]| == |s.tables[j]|)
    && forall j, k :: s.Held(j, k) <==> s'.Held(j, k)
  }

  /** Paging is invisible between s and s'. */
  ghost predicate Transparent<Page>(s: PageState<Page>, s': PageState<Page>) {
    KeepsPages(s, s') && SameSlots(s, s')
  }

  lemma TransparentTrans<Page>(a: PageState<Page>, b: PageState<Page>, c: PageState<Page>)
    requires Transparent(a, b) && Transparent(b, c)
    ensures Transparent(a, c)
  {
  }

  /** Slot (j, k) now points to frame `to`, which received the page's contents;
      other frames that are held kept theirs. */
  ghost predicate Moved<Page>(s: PageState<Page>, s': PageState<Page>, j: nat, k: nat, to: nat) {
    && s.Held(j, k)
    && s'.tables == s.tables[j := s.tables[j][k := to]]
    && |s'.frames| == |s.frames| == |s'.used| == |s.used|
    && to < |s.frames| && 0 <= s.tables[j][k] < |s.frames|
    && s'.frames[to] == s.frames[s.tables[j][k]]
    && (forall f :: 0 <= f < |s.frames| && f != to && f != s.tables[j][k] ==> s'.frames[f] == s.frames[f])
    && s'.used[to]
    && (forall f :: 0 <= f < |s.used| && f != to && f != s.tables[j][k] ==> s'.used[f] == s.used[f])
  }

  /** Moving a page to a frame nobody holds is transparent. */
  lemma MoveIsTransparent<Page>(s: PageState<Page>, s': PageState<Page>, memoryPages: nat, j: nat, k: nat, to: nat)
    requires s.Consistent(memoryPages) && s.Unheld(to) && Moved(s, s', j, k, to)
    ensures s'.Consistent(memoryPages)
    ensures Transparent(s, s')
    ensures s'.Unheld(s.tables[j][k])
    ensures forall f :: f != to && s.Unheld(f) ==> s'.Unheld(f)
  {
    forall j', k' | s'.Held(j', k')
      ensures s.Held(j', k')
      ensures s'.tables[j'][k'] == if j' == j && k' == k then to else s.tables[j'][k']
      ensures s'.tables[j'][k'] != s.tables[j][k]
    {
      if s'.tables[j'][k'] == s.tables[j][k] {
        assert s.Share(j', k', j, k);
      }
    }
    forall a, b, a', b' | s'.Share(a, b, a', b')
      ensures a == a' && b == b'
    {
      if (a == j && b == k) || (a' == j && b' == k) {
        assert s.Held(a, b) && s.Held(a', b');
      } else {
        assert s.Share(a, b, a', b');
      }
    }
  }

  // ------------------------------------------------------------ frames that nobody holds

  /** A slot that changes from one frame to another matters to these two alone. */
  lemma UnheldMoved<Page>(s: PageState<Page>, s': PageState<Page>, j: nat, k: nat, to: nat, g: int)
    requires s.Slot(j, k) && s'.tables == s.tables[j := s.tables[j][k := to]]
    requires g != to && (s.Held(j, k) ==> g != s.tables[j][k])
    ensures s'.Unheld(g) <==> s.Unheld(g)
  {
    if !s.Unheld(g) {
      var a, b :| s.Held(a, b) && s.tables[a][b] == g;
      assert s'.Held(a, b) && s'.tables[a][b] == g;
    }
    if !s'.Unheld(g) {
      var a, b :| s'.Held(a, b) && s'.tables[a][b] == g;
      assert s.Held(a, b) && s.tables[a][b] == g;
    }
  }

  /** RAM frames that nobody holds are blank. */
  ghost predicate Zeroed<Page>(s: PageState<Page>, zero: Page, memoryPages: nat) {
    memoryPages <= |s.frames| && forall f :: 0 <= f < memoryPages && s.Unheld(f) ==> s.frames[f] == zero
  }

  /** A move that blanks the RAM frame it leaves keeps it so. */
  lemma MoveKeepsZeroed<Page>(s: PageState<Page>, s': PageState<Page>, memoryPages: nat,
                              j: nat, k: nat, to: nat, zero: Page)
    requires Zeroed(s, zero, memoryPages) && Moved(s, s', j, k, to) && to != SENTINEL
    requires s.tables[j][k] < memoryPages ==> s'.frames[s.tables[j][k]] == zero
    ensures Zeroed(s', zero, memoryPages)
  {
    forall f | 0 <= f < memoryPages && s'.Unheld(f)
      ensures s'.frames[f] == zero
    {
      assert s'.Held(j, k);
      if f != s.tables[j][k] {
        UnheldMoved(s, s', j, k, to, f);
      }
    }
  }

  /** How many of the first n frames are marked but unheld. */
  ghost function ReservedBelow<Page>(s: PageState<Page>, n: nat): nat {
    if n == 0 then 0 else ReservedBelow(s, n - 1) + if s.Reserved(n - 1) then 1 else 0
  }

  lemma {:induction false} NoneReserved<Page>(s: PageState<Page>, n: nat)
    ensures ReservedBelow(s, n) == 0 <==> forall k :: 0 <= k < n ==> !s.Reserved(k)
  {
    if n > 0 {
      NoneReserved(s, n - 1);
    }
  }

  // ------------------------------------------------------------ the first free frame

  function FirstFree(used: seq<bool>, i: nat := 0): nat
    requires i <= |used|
    decreases |used| - i
  {
    if i < |used| && used[i] then FirstFree(used, i + 1) else i
  }

  lemma {:induction false} FirstFreeIs(used: seq<bool>, i: nat, f: nat)
    requires i <= f < |used| && !used[f] && forall k :: i <= k < f ==> used[k]
    ensures FirstFree(used, i) == f
    decreases f - i
  {
    if i < f {
      FirstFreeIs(used, i + 1, f);
    }
  }

  lemma {:induction false} FirstFreeAtMost(used: seq<bool>, i: nat, f: nat)
    requires i <= f < |used| && !used[f]
    ensures i <= FirstFree(used, i) <= f && !used[FirstFree(used, i)]
    decreases f - i
  {
    if used[i] {
      FirstFreeAtMost(used, i + 1, f);
    }
  }

  /** How many of the first n frames are free. */
  function FreeBelow(used: seq<bool>, n: nat): nat
    requires n <= |used|
  {
    if n == 0 then 0 else FreeBelow(used, n - 1) + if used[n - 1] then 0 else 1
  }

  lemma {:induction false} FreeBelowUpdate(used: seq<bool>, n: nat, f: nat, b: bool)
    requires n <= |used| && f < |used|
    ensures f >= n ==> FreeBelow(used[f := b], n) == FreeBelow(used, n)
    ensures f < n ==> FreeBelow(used[f := b], n)
                      == FreeBelow(used, n) + (if used[f] then 1 else 0) - (if b then 1 else 0)
  {
    if n > 0 {
      FreeBelowUpdate(used, n - 1, f, b);
    }
  }

  lemma {:induction false} FirstFreeBelow(used: seq<bool>, n: nat)
    requires n <= |used| && FreeBelow(used, n) > 0
    ensures FirstFree(used) < n && !used[FirstFree(used)]
  {
    if used[n - 1] {
      FirstFreeBelow(used, n - 1);
    } else {
      FirstFreeAtMost(used, 0, n - 1);
    }
  }

  // ------------------------------------------------------------ counting marks

  function Count(used: seq<bool>): nat {
    if used == [] then 0 else Count(used[..|used| - 1]) + if used[|used| - 1] then 1 else 0
  }

  lemma {:induction false} CountUpdate(used: seq<bool>, f: nat, b: bool)
    requires f < |used|
    ensures Count(used[f := b]) == Count(used) - (if used[f] then 1 else 0) + (if b then 1 else 0)
  {
    var n := |used| - 1;
    if f < n {
      assert used[f := b][..n] == used[..n][f := b];
      CountUpdate(used[..n], f, b);
    } else {
      assert used[f := b][..n] == used[..n];
    }
  }

  /** Fewer marks than frames: some frame is free. */
  lemma {:induction false} SomeFree(used: seq<bool>) returns (f: nat)
    requires Count(used) < |used|
    ensures f < |used| && !used[f]
  {
    var n := |used| - 1;
    if used[n] {
      f := SomeFree(used[..n]);
    } else {
      f := n;
    }
  }

  lemma {:induction false} CountAtMost(used: seq<bool>)
    ensures Count(used) <= |used|
    ensures (exists f :: 0 <= f < |used| && !used[f]) ==> Count(used) < |used|
  {
    if used != [] {
      CountAtMost(used[..|used| - 1]);
    }
  }
}
