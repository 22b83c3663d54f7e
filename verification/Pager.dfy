/** The displacing paths of the paging scheduler: bringing the pages of the
    thread that runs next to their home frames after an exit, and claiming frames
    for an allocation. */
module Pager {
  import opened PageState

  class Pager<Page(==)> {
    const memoryPages: nat
    const maxThreads: nat
    const zeroPage: Page
    /** The tables up to the first NULL entry of the table of tables. */
    var pageTables: seq<seq<int>>
    const masterTable: array<bool>
    const frames: array<Page>

    constructor (memoryPages: nat, totalPages: nat, maxThreads: nat, zeroPage: Page)
      requires 2 <= memoryPages <= totalPages <= SENTINEL && maxThreads > 0
      ensures View() == PageState([], seq(totalPages, i => false), seq(totalPages, i => zeroPage))
      ensures Valid() && Clean() && this.memoryPages == memoryPages && this.maxThreads == maxThreads
      ensures fresh(masterTable) && fresh(frames)
    {
      this.memoryPages := memoryPages;
      this.maxThreads := maxThreads;
      this.zeroPage := zeroPage;
      pageTables := [];
      masterTable := new bool[totalPages](i => false);
      frames := new Page[totalPages](i => zeroPage);
      new;
      assert masterTable[..] == seq(totalPages, i => false);
      assert frames[..] == seq(totalPages, i => zeroPage);
    }

    ghost function View(): PageState<Page>
      reads this, masterTable, frames
    {
      PageState(pageTables, masterTable[..], frames[..])
    }

    /** The master table and the frames are different memory. */
    ghost predicate Apart() {
      frames as object != masterTable
    }

    /** Consistent tables, and a NULL entry after the last of them. */
    ghost predicate Valid()
      reads this, masterTable, frames
    {
      Apart() && View().Consistent(memoryPages) && |pageTables| < maxThreads
    }

    /** No RAM frame that nobody holds has contents of anybody. */
    ghost predicate Clean()
      reads this, masterTable, frames
    {
      Zeroed(View(), zeroPage, memoryPages)
    }

    // -------------------------------------------------------- frames

    /** nextFreePage: the lowest unmarked frame. The code returns nothing useful
        when there is none, so its callers need one. */
    method NextFreePage() returns (f: nat)
      requires exists i :: View().Free(i)
      ensures View().Free(f) && (forall i :: 0 <= i < f ==> masterTable[i]) && f == FirstFree(masterTable[..])
    {
      ghost var w :| View().Free(w);
      f := 0;
      while masterTable[f]
        invariant f <= w < masterTable.Length
        invariant forall i :: 0 <= i < f ==> masterTable[i]
        decreases w - f
      {
        f := f + 1;
      }
      FirstFreeIs(masterTable[..], 0, f);
    }

    /** swap_out: copy a frame to the first free frame, in RAM or in the swap
        file, and clear it. The master table is left to the caller. */
    method SwapOut(page: nat) returns (freePage: nat)
      requires Apart() && page < frames.Length == masterTable.Length && masterTable[page]
      requires exists i :: View().Free(i)
      modifies frames
      ensures View().Free(freePage) && freePage == FirstFree(masterTable[..])
      ensures frames[..] == old(frames[..])[freePage := old(frames[page])][page := zeroPage]
    {
      freePage := NextFreePage();
      frames[freePage] := frames[page];
      frames[page] := zeroPage;
    }

    /** swap_in: copy a frame to a RAM frame; a RAM source is cleared, a swap
        slot keeps its bytes. */
    method SwapIn(newPage: nat, des: nat)
      requires newPage < frames.Length && des < frames.Length
      modifies frames
      ensures frames[..] == (if newPage < memoryPages
                             then old(frames[..])[des := old(frames[newPage])][newPage := zeroPage]
                             else old(frames[..])[des := old(frames[newPage])])
    {
      frames[des] := frames[newPage];
      if newPage < memoryPages {
        frames[newPage] := zeroPage;
      }
    }

    /** The body of the displacement: the page in slot (j, k) goes to a free frame. */
    method Displace(j: nat, k: nat)
      requires Valid() && View().Held(j, k) && exists i :: View().Free(i)
      modifies this`pageTables, masterTable, frames
      ensures Valid() && Transparent(old(View()), View())
      ensures View().Unheld(old(pageTables[j][k]))
      ensures Displaced(old(View()), View(), j, k)
      ensures 0 <= old(pageTables[j][k]) < frames.Length && frames[old(pageTables[j][k])] == zeroPage
      ensures old(Clean()) ==> Clean()
    {
      ghost var s := View();
      var i := pageTables[j][k];
      var newAddr := SwapOut(i);
      pageTables := pageTables[j := pageTables[j][k := newAddr]];
      masterTable[newAddr] := true;
      assert Displaced(s, View(), j, k);
      MoveIsTransparent(s, View(), memoryPages, j, k, newAddr);
      if Zeroed(s, zeroPage, memoryPages) {
        MoveKeepsZeroed(s, View(), memoryPages, j, k, newAddr, zeroPage);
      }
    }

    /** The search over all tables: whoever holds frame i is moved away. */
    method Evict(i: nat)
      requires Valid() && i < memoryPages
      requires View().Unheld(i) || exists f :: View().Free(f)
      modifies this`pageTables, masterTable, frames
      ensures Valid() && Transparent(old(View()), View())
      ensures View().Unheld(i)
      ensures Evicted(old(View()), View(), i)
      ensures old(!View().Unheld(i)) ==> frames[i] == zeroPage
      ensures old(Clean()) ==> Clean()
    {
      ghost var s := View();
      ghost var found := false;
      var j := 0;
      while j < |pageTables|
        invariant 0 <= j <= |pageTables|
        invariant Valid() && Transparent(s, View())
        invariant !found ==> View() == s
        invariant !found ==> forall j', k :: 0 <= j' < j && s.Held(j', k) ==> s.tables[j'][k] != i
        invariant found ==> View().Unheld(i)
        invariant found ==> !s.Unheld(i) && Evicted(s, View(), i)
        invariant found ==> frames[i] == zeroPage
        invariant found && Zeroed(s, zeroPage, memoryPages) ==> Clean()
      {
        var k := 0;
        while k < memoryPages
          invariant 0 <= k <= memoryPages
          invariant Valid() && Transparent(s, View()) && j < |pageTables|
          invariant !found ==> View() == s
          invariant !found ==> forall j', k' :: 0 <= j' < j && s.Held(j', k') ==> s.tables[j'][k'] != i
          invariant !found ==> forall k' :: 0 <= k' < k ==> s.tables[j][k'] != i
          invariant found ==> View().Unheld(i)
          invariant found ==> !s.Unheld(i) && Evicted(s, View(), i)
          invariant found ==> frames[i] == zeroPage
          invariant found && Zeroed(s, zeroPage, memoryPages) ==> Clean()
        {
          if pageTables[j][k] == i {
            assert View().Held(j, k);
            assert !found;
            assert !s.Unheld(i);
            Displace(j, k);
            found := true;
            break;
          }
          k := k + 1;
        }
        j := j + 1;
      }
    }

    /** The page in slot (t, i) comes home to frame i. It is a move, hence
        transparent, when nobody holds frame i. */
    method PullHome(t: nat, i: nat)
      requires Valid() && View().Held(t, i) && pageTables[t][i] != i && i < memoryPages
      modifies this`pageTables, masterTable, frames
      ensures Pulled(old(View()), View(), t, i)
      ensures old(View().Unheld(i)) ==> Valid() && Transparent(old(View()), View())
      ensures old(View().Unheld(i) && Clean()) ==> Clean()
    {
      ghost var s := View();
      var from := pageTables[t][i];
      SwapIn(from, i);
      masterTable[from] := false;
      pageTables := pageTables[t := pageTables[t][i := i]];
      masterTable[i] := true;
      if s.Unheld(i) {
        assert Moved(s, View(), t, i, i);
        MoveIsTransparent(s, View(), memoryPages, t, i, i);
        if Zeroed(s, zeroPage, memoryPages) {
          MoveKeepsZeroed(s, View(), memoryPages, t, i, i, zeroPage);
        }
      }
    }

    /** One round of the switch-in loop: page i of thread t ends in frame i. */
    method BringHome(t: nat, i: nat)
      requires Valid() && View().Held(t, i) && exists f :: View().Free(f)
      modifies this`pageTables, masterTable, frames
      ensures Valid() && Transparent(old(View()), View())
      ensures HomeStep(old(View()), View(), t, i) && View().Marks() == AfterRound(old(View()).Marks(), t, i)
      ensures (exists f :: View().Free(f)) && (old(Clean()) ==> Clean())
    {
      ghost var s := View();
      if pageTables[t][i] != i {
        Evict(i);
        ghost var s1 := View();
        PullHome(t, i);
        TransparentTrans(s, s1, View());
        HomeOutcome(s, s1, View(), t, i);
        RoundIs(s, s1, View(), t, i);
      } else {
        masterTable[i] := true;
        assert View() == s;
      }
    }

    /** The part of the switch-in for the last slot. Only last slots are searched
        for the holder of the last RAM frame. */
    method BringLastHome(t: nat)
      requires Valid() && View().Held(t, memoryPages - 1) && exists f :: View().Free(f)
      modifies this`pageTables, masterTable, frames
      ensures View().Held(t, memoryPages - 1) && pageTables[t][memoryPages - 1] == memoryPages - 1
      ensures LastClear(old(View()), t, memoryPages - 1) <==> View().Injective()
      ensures LastClear(old(View()), t, memoryPages - 1)
              ==> Valid() && Transparent(old(View()), View()) && HomeStep(old(View()), View(), t, memoryPages - 1)
      ensures LastClear(old(View()), t, memoryPages - 1) && old(Clean()) ==> Clean()
    {
      ghost var s := View();
      var last := memoryPages - 1;
      if pageTables[t][last] != last {
        var j := 0;
        while j < |pageTables|
          invariant 0 <= j <= |pageTables| && View() == s
          invariant forall j' :: 0 <= j' < j ==> s.tables[j'][last] != last
        {
          if pageTables[j][last] == last {
            break;
          }
          j := j + 1;
        }
        ghost var displaced := j < |pageTables|;
        if j < |pageTables| {
          Displace(j, last);
        }
        ghost var s1 := View();
        PullHome(t, last);
        if displaced {
          TransparentTrans(s, s1, View());
          PulledAfterDisplaced(s, s1, View(), t, last, j, last);
        } else if s.Unheld(last) {
          PulledOnly(s, View(), t, last);
        } else {
          assert !LastClear(s, t, last);
          ghost var a: nat, b: nat :| s.Held(a, b) && s.tables[a][b] == last;
          assert View().Held(a, b) && View().Held(t, last) && b != last;
          assert View().Share(a, b, t, last);
        }
      } else {
        masterTable[last] := true;
        assert View() == s;
      }
    }

    /** The switch-in of the thread chosen after an exit: all its pages go home. It
        keeps every page of every thread exactly if the state before it settles. */
    method SwitchIn(t: nat, ghost prefix: nat)
      requires Valid() && exists f :: View().Free(f)
      requires PrefixAndLast(View(), t, prefix, memoryPages)
      modifies this`pageTables, masterTable, frames
      ensures old(Settles(View(), t, prefix, memoryPages)) <==> View().Injective()
      ensures View().Injective() ==> Valid() && SwitchedIn(old(View()), View(), t, prefix, memoryPages)
      ensures View().Injective() && old(Clean()) ==> Clean()
      ensures old(LastHeldElsewhere(View(), t, memoryPages - 1)) ==> !View().Injective()
    {
      BringPrefixHome(t, prefix);
      BringLast(t, old(View()), prefix);
    }

    /** The last slot, seen from the start of the switch-in. */
    method BringLast(t: nat, ghost s: PageState<Page>, ghost prefix: nat)
      requires Valid() && (exists f :: View().Free(f)) && (exists f :: s.Free(f)) && |s.used| == |View().used|
      requires Progress(s, View(), t, prefix, prefix, memoryPages)
      modifies this`pageTables, masterTable, frames
      ensures old(LastClear(View(), t, memoryPages - 1)) <==> View().Injective()
      ensures View().Injective() ==> Valid() && SwitchedIn(s, View(), t, prefix, memoryPages)
      ensures View().Injective() && old(Clean()) ==> Clean()
    {
      ghost var mid := View();
      BringLastHome(t);
      if LastClear(mid, t, memoryPages - 1) {
        ProgressDone(s, mid, View(), t, prefix, memoryPages);
      }
    }

    /** The loop of the switch-in, and what it means for the last slot. */
    method BringPrefixHome(t: nat, ghost prefix: nat)
      requires Valid() && exists f :: View().Free(f)
      requires PrefixAndLast(View(), t, prefix, memoryPages)
      modifies this`pageTables, masterTable, frames
      ensures Valid() && (exists f :: View().Free(f))
      ensures Progress(old(View()), View(), t, prefix, prefix, memoryPages)
      ensures old(Settles(View(), t, prefix, memoryPages)) <==> LastClear(View(), t, memoryPages - 1)
      ensures old(LastHeldElsewhere(View(), t, memoryPages - 1)) ==> !LastClear(View(), t, memoryPages - 1)
      ensures old(Clean()) ==> Clean()
    {
      BringRounds(t, prefix);
      LooksAhead(old(View()), View(), t, prefix, memoryPages);
    }

    /** The loop, up to the first sentinel. */
    method BringRounds(t: nat, ghost prefix: nat)
      requires Valid() && exists f :: View().Free(f)
      requires PrefixAndLast(View(), t, prefix, memoryPages)
      modifies this`pageTables, masterTable, frames
      ensures Valid() && (exists f :: View().Free(f))
      ensures Progress(old(View()), View(), t, prefix, prefix, memoryPages)
      ensures View().Marks() == AfterRounds(old(View()).Marks(), t, prefix)
      ensures old(Clean()) ==> Clean()
    {
      ghost var s := View();
      var i := 0;
      while pageTables[t][i] != SENTINEL
        invariant Valid() && (exists f :: View().Free(f))
        invariant 0 <= i && Progress(s, View(), t, i, prefix, memoryPages)
        invariant View().Marks() == AfterRounds(s.Marks(), t, i)
        invariant old(Clean()) ==> Clean()
        decreases prefix - i
      {
        ghost var s1 := View();
        assert s1.Held(t, i);
        BringHome(t, i);
        ProgressStep(s, s1, View(), t, i, prefix, memoryPages);
        i := i + 1;
      }
      assert !View().Held(t, i);
    }

    /** The claim loop of myallocate: frames headerPage..footerPage become pages
        of the resident thread, other holders are moved away. */
    method Claim(current: nat, headerPage: nat, footerPage: nat)
      requires Valid() && current < |pageTables| && headerPage <= footerPage < memoryPages
      requires Resident(View(), current)
      requires Affordable(View(), current, headerPage, footerPage + 1)
      modifies this`pageTables, masterTable, frames
      ensures Valid() && Claiming(old(View()), View(), current, headerPage, footerPage + 1)
      ensures Paid(old(View()), View(), current, headerPage, footerPage + 1)
      ensures old(Clean()) ==> Clean() && BlankPages(old(View()), View(), current, headerPage, footerPage + 1, zeroPage)
    {
      ghost var s := View();
      ghost var now := s;
      var i := headerPage;
      ClaimingStart(s, current, headerPage);
      while i <= footerPage
        invariant headerPage <= i <= footerPage + 1
        invariant Valid() && now == View()
        invariant Claiming(s, now, current, headerPage, i) && Paid(s, now, current, headerPage, i)
        invariant old(Clean()) ==> Clean() && BlankPages(s, now, current, headerPage, i, zeroPage)
      {
        CanPay(s, now, current, headerPage, i, footerPage + 1);
        ClaimingIs(s, now, current, headerPage, i);
        ClaimOne(current, i);
        ClaimingStep(s, now, View(), current, headerPage, i);
        PaidStep(s, now, View(), current, headerPage, i);
        if old(Clean()) {
          BlankStep(s, now, View(), current, headerPage, i, zeroPage);
        }
        now := View();
        i := i + 1;
      }
    }

    /** One round of the claim loop. */
    method ClaimOne(current: nat, i: nat)
      requires Valid() && current < |pageTables| && i < memoryPages && Resident(View(), current)
      requires Costs(View(), current, i) ==> Count(View().used) < |View().used|
      modifies this`pageTables, masterTable, frames
      ensures Valid() && ClaimRound(old(View()), View(), current, i) && ClaimMarks(old(View()), View(), current, i)
      ensures old(Clean()) ==> Clean() && (old(!View().Held(current, i)) ==> frames[i] == zeroPage)
    {
      ghost var s := View();
      if masterTable[i] {
        if pageTables[current][i] == i {
          assert s.Held(current, i);
          return;
        }
        if !s.Unheld(i) {
          ghost var f := SomeFree(s.used);
          assert s.Free(f);
        }
        Evict(i);
      }
      ghost var s1 := View();
      assert s1.Unheld(i) && Evicted(s, s1, i);
      pageTables := pageTables[current := pageTables[current][i := i]];
      masterTable[i] := true;
      assert Claimed(s1, View(), current, i);
      ClaimOutcome(s, s1, View(), memoryPages, current, i);
      if Zeroed(s1, zeroPage, memoryPages) {
        ClaimKeepsZeroed(s1, View(), memoryPages, current, i, zeroPage);
      }
    }
  }

  /** A page moved to the first free frame, which is now marked; the frame it left
      stays marked. */
  ghost predicate Displaced<Page>(s: PageState<Page>, s': PageState<Page>, j: nat, k: nat) {
    var f := FirstFree(s.used);
    s.Free(f) && Moved(s, s', j, k, f) && s'.used == s.used[f := true]
  }

  ghost predicate Holds<Page>(s: PageState<Page>, j: int, k: int, i: int) {
    s.Held(j, k) && s.tables[j][k] == i
  }

  /** The holder of frame i, if there is one, moved to the first free frame. */
  ghost predicate Evicted<Page>(s: PageState<Page>, s': PageState<Page>, i: nat) {
    if s.Unheld(i) then s' == s
    else exists j: nat, k: nat :: Holds(s, j, k, i) && Displaced(s, s', j, k)
  }

  /** What one round does besides being transparent: slot (t, i) is home, slots
      that did not point to frame i are untouched, and the number of marked frames
      stays the same, unless frame i was marked without a holder. */
  ghost predicate HomeStep<Page>(s: PageState<Page>, s': PageState<Page>, t: nat, i: nat) {
    && s'.Held(t, i) && s'.tables[t][i] == i
    && (forall j, k :: s.Held(j, k) && s'.Held(j, k) && s.tables[j][k] != i && !(j == t && k == i) ==>
                         s'.tables[j][k] == s.tables[j][k])
    && Count(s'.used) == Count(s.used) - (if s.Reserved(i) then 1 else 0)
    && (forall g :: s'.Reserved(g) <==> g != i && s.Reserved(g))
  }

  ghost predicate Pulled<Page>(s: PageState<Page>, s': PageState<Page>, t: nat, i: nat) {
    && s.Held(t, i) && s'.tables == s.tables[t := s.tables[t][i := i]]
    && 0 <= s.tables[t][i] < |s.used| && i < |s.used|
    && s'.used == s.used[s.tables[t][i] := false][i := true]
  }

  lemma PulledOnly<Page>(s: PageState<Page>, s': PageState<Page>, t: nat, i: nat)
    requires s.Marked() && Pulled(s, s', t, i) && s.tables[t][i] != i && s.Unheld(i) && i < SENTINEL
    ensures HomeStep(s, s', t, i)
  {
    var from := s.tables[t][i];
    CountUpdate(s.used, from, false);
    CountUpdate(s.used[from := false], i, true);
    forall g
      ensures s'.Reserved(g) <==> g != i && s.Reserved(g)
    {
      if g == i {
        assert s'.Held(t, i);
      } else if g != from {
        UnheldMoved(s, s', t, i, i, g);
      }
    }
  }

  lemma PulledAfterDisplaced<Page>(s: PageState<Page>, s1: PageState<Page>, s': PageState<Page>,
                                   t: nat, i: nat, j: nat, k: nat)
    requires s.Marked() && s.Injective() && Holds(s, j, k, i) && Displaced(s, s1, j, k)
    requires Pulled(s1, s', t, i) && s.Held(t, i) && s.tables[t][i] != i && |s.used| <= SENTINEL
    ensures HomeStep(s, s', t, i)
  {
    var from := s.tables[t][i];
    assert s1.tables[t][i] == from;
    DisplacedPullCount(s.used, FirstFree(s.used), from, i);
    forall g
      ensures s'.Reserved(g) <==> g != i && s.Reserved(g)
    {
      DisplacedPullReserved(s, s1, s', t, i, j, k, g);
    }
  }

  lemma HomeOutcome<Page>(s: PageState<Page>, s1: PageState<Page>, s': PageState<Page>, t: nat, i: nat)
    requires s.Marked() && s.Injective() && Evicted(s, s1, i) && Pulled(s1, s', t, i)
    requires s.Held(t, i) && s.tables[t][i] != i && |s.used| <= SENTINEL && i < |s.used|
    ensures HomeStep(s, s', t, i) && s'.Free(s.tables[t][i])
  {
    if s.Unheld(i) {
      PulledOnly(s, s', t, i);
    } else {
      var j: nat, k: nat :| Holds(s, j, k, i) && Displaced(s, s1, j, k);
      PulledAfterDisplaced(s, s1, s', t, i, j, k);
    }
  }

  lemma DisplacedPullCount(used: seq<bool>, f: nat, from: nat, i: nat)
    requires f < |used| && from < |used| && i < |used| && !used[f] && used[from] && used[i] && from != i
    ensures Count(used[f := true][from := false][i := true]) == Count(used)
  {
    CountUpdate(used, f, true);
    CountUpdate(used[f := true], from, false);
    CountUpdate(used[f := true][from := false], i, true);
  }

  lemma DisplacedPullReserved<Page>(s: PageState<Page>, s1: PageState<Page>, s': PageState<Page>,
                                    t: nat, i: nat, j: nat, k: nat, g: int)
    requires s.Marked() && Holds(s, j, k, i) && Displaced(s, s1, j, k)
    requires Pulled(s1, s', t, i) && s.Held(t, i) && s.tables[t][i] != i && |s.used| <= SENTINEL
    ensures s'.Reserved(g) <==> g != i && s.Reserved(g)
  {
    var f, from := FirstFree(s.used), s.tables[t][i];
    assert s1.tables[t][i] == from;
    if g == i {
      assert s'.Held(t, i);
    } else if g == f {
      assert s'.Held(j, k) && s'.tables[j][k] == f;
    } else if g != from {
      UnheldMoved(s, s1, j, k, f, g);
      UnheldMoved(s1, s', t, i, i, g);
    }
  }

  /** The last RAM frame can be taken safely: the thread is home already, nobody
      holds the frame, or a last slot holds it. */
  ghost predicate LastClear<Page>(s: PageState<Page>, t: nat, last: nat) {
    && s.Held(t, last)
    && (s.tables[t][last] == last || s.Unheld(last) || LastHeldByLast(s, last))
  }

  /** Pages in the first slots, the sentinel after them, and a page in the last slot. */
  ghost predicate PrefixAndLast<Page>(s: PageState<Page>, t: nat, prefix: nat, memoryPages: nat) {
    && prefix < memoryPages - 1
    && (forall k :: 0 <= k < prefix ==> s.Held(t, k))
    && s.Slot(t, prefix) && !s.Held(t, prefix)
    && s.Held(t, memoryPages - 1)
  }

  ghost predicate OnlyPrefixAndLast<Page>(s: PageState<Page>, t: nat, prefix: nat, memoryPages: nat) {
    forall k :: s.Held(t, k) ==> k < prefix || k == memoryPages - 1
  }

  /** Some last slot holds the last RAM frame, as after the exit of a resident thread. */
  ghost predicate LastHeldByLast<Page>(s: PageState<Page>, last: nat) {
    exists j :: s.Held(j, last) && s.tables[j][last] == last
  }

  /** A slot of another thread that is not its last one holds the last RAM frame. */
  ghost predicate LastHeldElsewhere<Page>(s: PageState<Page>, t: nat, last: nat) {
    exists j, k :: s.Held(j, k) && j != t && k != last && s.tables[j][k] == last
  }

  /** When marks did not become more, a frame is still free. */
  lemma StillFree<Page>(s: PageState<Page>, s': PageState<Page>)
    requires |s.used| == |s'.used| && Count(s'.used) <= Count(s.used) && exists f :: s.Free(f)
    ensures exists f :: s'.Free(f)
  {
    CountAtMost(s.used);
    var f := SomeFree(s'.used);
    assert s'.Free(f);
  }

  /** Home frames of the thread, first slots and last, that are marked but unheld. */
  ghost function ReservedHomes<Page>(s: PageState<Page>, prefix: nat, memoryPages: nat): nat {
    ReservedBelow(s, prefix) + if s.Reserved(memoryPages - 1) then 1 else 0
  }

  /** Every page of every thread keeps its contents, thread t is home, the marks of
      home frames that nobody held are put to use, and a frame is free. */
  ghost predicate SwitchedIn<Page>(s: PageState<Page>, s': PageState<Page>, t: nat, prefix: nat, memoryPages: nat) {
    && Transparent(s, s')
    && (forall k :: 0 <= k < prefix || k == memoryPages - 1 ==> s'.Held(t, k) && s'.tables[t][k] == k)
    && (OnlyPrefixAndLast(s, t, prefix, memoryPages) ==> Resident(s', t))
    && (forall j, k :: s.Held(j, k) && j != t && prefix <= s.tables[j][k] != memoryPages - 1 ==>
                         s'.tables[j][k] == s.tables[j][k])
    && Count(s'.used) == Count(s.used) - ReservedHomes(s, prefix, memoryPages)
    && (forall g :: s'.Reserved(g) <==> prefix <= g != memoryPages - 1 && s.Reserved(g))
    && exists f :: s'.Free(f)
  }

  /** The number of used frames is unchanged exactly if no home frame was reserved. */
  lemma MarksUnchangedIff<Page>(s: PageState<Page>, s': PageState<Page>, t: nat, prefix: nat, memoryPages: nat)
    requires SwitchedIn(s, s', t, prefix, memoryPages)
    ensures Count(s'.used) <= Count(s.used)
    ensures Count(s'.used) == Count(s.used)
            <==> forall k :: 0 <= k < prefix || k == memoryPages - 1 ==> !s.Reserved(k)
  {
    NoneReserved(s, prefix);
  }

  /** Every page of the thread is at home. */
  ghost predicate Resident<Page>(s: PageState<Page>, t: nat) {
    forall k :: s.Held(t, k) ==> s.tables[t][k] == k
  }

  /** Page k of the thread costs a free frame: it is not at home, and its home frame
      is not marked without a holder. */
  ghost predicate Costs<Page>(s: PageState<Page>, t: nat, k: nat)
    requires s.Slot(t, k)
  {
    s.tables[t][k] != k && !s.Reserved(k)
  }

  /** How many pages of lo..hi cost a free frame. */
  ghost function Wanted<Page>(s: PageState<Page>, t: nat, lo: nat, hi: nat): nat
    requires t < |s.tables| && hi <= |s.tables[t]|
  {
    if hi <= lo then 0 else Wanted(s, t, lo, hi - 1) + if Costs(s, t, hi - 1) then 1 else 0
  }

  lemma {:induction false} WantedMono<Page>(s: PageState<Page>, t: nat, lo: nat, mid: nat, hi: nat)
    requires t < |s.tables| && mid <= hi <= |s.tables[t]|
    ensures Wanted(s, t, lo, mid) <= Wanted(s, t, lo, hi)
    decreases hi
  {
    if mid < hi {
      WantedMono(s, t, lo, mid, hi - 1);
    }
  }

  /** Enough free frames for the pages lo..hi. */
  ghost predicate Affordable<Page>(s: PageState<Page>, t: nat, lo: nat, hi: nat) {
    && t < |s.tables| && hi <= |s.tables[t]|
    && Count(s.used) + Wanted(s, t, lo, hi) <= |s.used|
  }

  // ------------------------------------------------------------ the switch-in loop

  /** After i rounds: pages 0..i are home and nothing is lost. */
  ghost predicate Progress<Page>(s: PageState<Page>, s1: PageState<Page>,
                                 t: nat, i: nat, prefix: nat, memoryPages: nat) {
    && i <= prefix
    && Transparent(s, s1)
    && PrefixAndLast(s1, t, prefix, memoryPages)
    && (forall k :: 0 <= k < i ==> s1.tables[t][k] == k)
    && (forall j, k :: s.Held(j, k) && i <= s.tables[j][k] && !(j == t && k < i) ==>
                         s1.tables[j][k] == s.tables[j][k])
    && Count(s1.used) == Count(s.used) - ReservedBelow(s, i)
    && (forall g :: s1.Reserved(g) <==> i <= g && s.Reserved(g))
  }

  lemma ProgressStep<Page>(s: PageState<Page>, s1: PageState<Page>, s2: PageState<Page>,
                           t: nat, i: nat, prefix: nat, memoryPages: nat)
    requires Progress(s, s1, t, i, prefix, memoryPages) && i < prefix
    requires Transparent(s1, s2) && HomeStep(s1, s2, t, i)
    ensures Progress(s, s2, t, i + 1, prefix, memoryPages)
  {
    TransparentTrans(s, s1, s2);
    forall k | 0 <= k < i + 1
      ensures s2.Held(t, k) && s2.tables[t][k] == k
    {
      assert s1.Held(t, k);
    }
    forall k | 0 <= k < prefix
      ensures s2.Held(t, k)
    {
      assert s1.Held(t, k);
    }
    assert s1.Held(t, memoryPages - 1) && !s1.Held(t, prefix);
  }

  lemma ProgressDone<Page>(s: PageState<Page>, mid: PageState<Page>, s2: PageState<Page>,
                           t: nat, prefix: nat, memoryPages: nat)
    requires Progress(s, mid, t, prefix, prefix, memoryPages) && (exists f :: s.Free(f)) && |s.used| == |s2.used|
    requires Transparent(mid, s2) && HomeStep(mid, s2, t, memoryPages - 1)
    ensures SwitchedIn(s, s2, t, prefix, memoryPages)
  {
    TransparentTrans(s, mid, s2);
    StillFree(s, s2);
    forall k | 0 <= k < prefix
      ensures s2.Held(t, k) && s2.tables[t][k] == k
    {
      assert mid.Held(t, k);
    }
  }

  // ------------------------------------------------------------ the claim loop

  /** Evicting a frame leaves a resident thread's table alone. */
  lemma EvictCount<Page>(s: PageState<Page>, s1: PageState<Page>, current: nat, i: nat)
    requires s.Marked() && Resident(s, current) && current < |s.tables| && i < |s.used|
    requires s.Slot(current, i) && s.tables[current][i] != i
    requires Evicted(s, s1, i)
    ensures |s1.tables| == |s.tables| && s1.tables[current] == s.tables[current] && |s1.used| == |s.used|
    ensures Count(s1.used[i := true]) == Count(s.used) + if s.Reserved(i) then 0 else 1
  {
    if s.Unheld(i) {
      CountUpdate(s.used, i, true);
    } else {
      var j: nat, k: nat :| Holds(s, j, k, i) && Displaced(s, s1, j, k);
      CountUpdate(s.used, FirstFree(s.used), true);
      CountUpdate(s1.used, i, true);
    }
  }

  lemma EvictReserved<Page>(s: PageState<Page>, s1: PageState<Page>, i: nat, g: int)
    requires s.Marked() && Evicted(s, s1, i) && g != i && |s.used| <= SENTINEL
    ensures s1.Reserved(g) <==> s.Reserved(g)
  {
    if !s.Unheld(i) {
      var j: nat, k: nat :| Holds(s, j, k, i) && Displaced(s, s1, j, k);
      if g == FirstFree(s.used) {
        assert s1.Held(j, k) && s1.tables[j][k] == g;
      } else {
        UnheldMoved(s, s1, j, k, FirstFree(s.used), g);
      }
    }
  }

  ghost predicate Claimed<Page>(s1: PageState<Page>, s2: PageState<Page>, current: nat, i: nat) {
    && s1.Slot(current, i)
    && i < |s1.used|
    && s2 == PageState(s1.tables[current := s1.tables[current][i := i]], s1.used[i := true], s1.frames)
  }

  /** Only the slot on frame i is moved by its eviction. */
  lemma EvictKeeps<Page>(s: PageState<Page>, s1: PageState<Page>, i: nat, j: int, k: int)
    requires Evicted(s, s1, i) && s.Held(j, k) && s.tables[j][k] != i
    ensures s1.Slot(j, k) && s1.tables[j][k] == s.tables[j][k]
  {
  }

  lemma ClaimedStep<Page>(s: PageState<Page>, s1: PageState<Page>, s2: PageState<Page>,
                          memoryPages: nat, current: nat, i: nat)
    requires s1.Consistent(memoryPages) && s1.Unheld(i) && i < memoryPages && Claimed(s1, s2, current, i)
    requires Transparent(s, s1) && Resident(s1, current) && s1.tables[current][i] != i && Evicted(s, s1, i)
    requires |s.tables| == |s1.tables| && s1.tables[current] == s.tables[current]
    ensures s2.Consistent(memoryPages) && ClaimRound(s, s2, current, i)
  {
    ClaimedConsistent(s1, s2, memoryPages, current, i);
    forall j, k
      ensures RoundSlot(s, s2, current, i, j, k)
    {
      if s.Held(j, k) && s.tables[j][k] != i {
        EvictKeeps(s, s1, i, j, k);
      }
    }
  }

  lemma ClaimedConsistent<Page>(s1: PageState<Page>, s2: PageState<Page>, memoryPages: nat, current: nat, i: nat)
    requires s1.Consistent(memoryPages) && s1.Unheld(i) && i < memoryPages && Claimed(s1, s2, current, i)
    requires Resident(s1, current) && s1.tables[current][i] != i
    ensures s2.Consistent(memoryPages) && !s1.Held(current, i)
    ensures forall j, k :: s2.Held(j, k) && !(j == current && k == i) ==>
                             s1.Held(j, k) && s2.tables[j][k] == s1.tables[j][k]
  {
    forall a, b, a', b' | s2.Share(a, b, a', b')
      ensures a == a' && b == b'
    {
      if !(a == current && b == i) && !(a' == current && b' == i) {
        assert s1.Share(a, b, a', b');
      }
    }
  }

  lemma ClaimOutcome<Page>(s: PageState<Page>, s1: PageState<Page>, s2: PageState<Page>,
                           memoryPages: nat, current: nat, i: nat)
    requires s.Consistent(memoryPages) && Resident(s, current) && s.Slot(current, i) && s.tables[current][i] != i
    requires Evicted(s, s1, i) && Transparent(s, s1) && s1.Consistent(memoryPages) && s1.Unheld(i)
    requires Claimed(s1, s2, current, i) && i < memoryPages
    ensures s2.Consistent(memoryPages) && ClaimRound(s, s2, current, i) && ClaimMarks(s, s2, current, i)
  {
    EvictCount(s, s1, current, i);
    ClaimedStep(s, s1, s2, memoryPages, current, i);
    forall g
      ensures s2.Reserved(g) <==> g != i && s.Reserved(g)
    {
      ClaimedReserved(s, s1, s2, memoryPages, current, i, g);
    }
  }

  lemma ClaimedReserved<Page>(s: PageState<Page>, s1: PageState<Page>, s2: PageState<Page>,
                              memoryPages: nat, current: nat, i: nat, g: int)
    requires s.Consistent(memoryPages) && Evicted(s, s1, i) && i < memoryPages
    requires Claimed(s1, s2, current, i) && !s1.Held(current, i)
    ensures s2.Reserved(g) <==> g != i && s.Reserved(g)
  {
    if g == i {
      assert s2.Held(current, i);
    } else {
      EvictReserved(s, s1, i, g);
      UnheldMoved(s1, s2, current, i, i, g);
    }
  }

  /** One round: page i of the thread is at home, every other page is kept. */
  ghost predicate ClaimRound<Page>(s: PageState<Page>, s': PageState<Page>, current: nat, i: nat) {
    && |s'.tables| == |s.tables|
    && s.Slot(current, i)
    && s'.tables[current] == s.tables[current][i := i]
    && KeepsPages(s, s')
    && Resident(s', current)
    && forall j, k :: RoundSlot(s, s', current, i, j, k)
  }

  /** A slot that does not point to frame i stays as it is, and slot i of the thread is
      the only one that may be new. */
  ghost predicate RoundSlot<Page>(s: PageState<Page>, s': PageState<Page>, current: nat, i: nat, j: int, k: int) {
    && (s.Held(j, k) ==> s'.Held(j, k) && (s.tables[j][k] != i ==> s'.tables[j][k] == s.tables[j][k]))
    && (s'.Held(j, k) && !s.Held(j, k) ==> j == current && k == i)
  }

  /** And the round costs what it says. */
  ghost predicate ClaimMarks<Page>(s: PageState<Page>, s': PageState<Page>, current: nat, i: nat)
    requires s.Slot(current, i)
  {
    && |s'.used| == |s.used|
    && Count(s'.used) == Count(s.used) + (if Costs(s, current, i) then 1 else 0)
    && (forall g :: s'.Reserved(g) <==> g != i && s.Reserved(g))
  }

  /** After the rounds lo..i: those pages belong to the thread, at home, and every
      page that anybody had before is still there with its contents. */
  ghost predicate Claiming<Page>(s: PageState<Page>, s': PageState<Page>, current: nat, lo: nat, i: nat) {
    && |s'.tables| == |s.tables| && current < |s.tables|
    && i <= |s'.tables[current]|
    && forall j, k :: RangeSlot(s, s', current, lo, i, j, k)
  }

  /** A page keeps its contents, and also its frame if that is not in the range; slots
      lo..i of the thread are the only new ones, and the thread is at home. */
  ghost predicate RangeSlot<Page>(s: PageState<Page>, s': PageState<Page>,
                                  current: nat, lo: nat, i: nat, j: int, k: int) {
    && (s.Held(j, k) ==> s'.Held(j, k) && SamePage(s, s', j, k))
    && (s.Held(j, k) && !(lo <= s.tables[j][k] < i) ==> s'.tables[j][k] == s.tables[j][k])
    && (s'.Held(j, k) && !s.Held(j, k) ==> j == current && lo <= k < i)
    && (j == current && lo <= k < i ==> s'.Held(j, k))
    && (j == current && s'.Held(j, k) ==> s'.tables[j][k] == k)
  }

  ghost predicate SamePage<Page>(s: PageState<Page>, s': PageState<Page>, j: int, k: int)
    requires s.Held(j, k) && s'.Held(j, k)
  {
    var f, f' := s.tables[j][k], s'.tables[j][k];
    0 <= f < |s.frames| && 0 <= f' < |s'.frames| && s'.frames[f'] == s.frames[f]
  }

  lemma ClaimKeepsZeroed<Page>(s1: PageState<Page>, s2: PageState<Page>, memoryPages: nat,
                               current: nat, i: nat, zero: Page)
    requires Zeroed(s1, zero, memoryPages) && Claimed(s1, s2, current, i) && !s1.Held(current, i) && i < SENTINEL
    ensures Zeroed(s2, zero, memoryPages)
  {
    forall f | 0 <= f < memoryPages && s2.Unheld(f)
      ensures s2.frames[f] == zero
    {
      assert s2.Held(current, i);
      UnheldMoved(s1, s2, current, i, i, f);
    }
  }

  /** The pages of lo..i that the thread did not have before are blank. */
  ghost predicate BlankPages<Page>(s: PageState<Page>, s': PageState<Page>, current: nat, lo: nat, i: nat, zero: Page) {
    i <= |s'.frames| && forall k :: lo <= k < i && !s.Held(current, k) ==> s'.frames[k] == zero
  }

  lemma BlankStep<Page>(s: PageState<Page>, s1: PageState<Page>, s2: PageState<Page>,
                        current: nat, lo: nat, i: nat, zero: Page)
    requires Claiming(s, s1, current, lo, i) && lo <= i && ClaimRound(s1, s2, current, i)
    requires BlankPages(s, s1, current, lo, i, zero) && i < |s2.frames| && |s.tables| == |s1.tables|
    requires i < SENTINEL && (!s1.Held(current, i) ==> s2.frames[i] == zero)
    ensures BlankPages(s, s2, current, lo, i + 1, zero)
  {
    forall k | lo <= k < i + 1 && !s.Held(current, k)
      ensures s2.frames[k] == zero
    {
      assert RangeSlot(s, s1, current, lo, i, current, k);
    }
  }

  /** The free frames used up so far, and what the remaining pages will cost. */
  ghost predicate Paid<Page>(s: PageState<Page>, s': PageState<Page>, current: nat, lo: nat, i: nat) {
    && current < |s.tables| && i <= |s.tables[current]|
    && current < |s'.tables| && |s'.tables[current]| == |s.tables[current]|
    && |s'.used| == |s.used|
    && Count(s'.used) == Count(s.used) + Wanted(s, current, lo, i)
    && (forall k :: i <= k < |s.tables[current]| ==> s'.tables[current][k] == s.tables[current][k])
    && forall g :: i <= g ==> SameReserve(s, s', g)
  }

  ghost predicate SameReserve<Page>(s: PageState<Page>, s': PageState<Page>, g: int) {
    s'.Reserved(g) <==> s.Reserved(g)
  }

  lemma PaidStep<Page>(s: PageState<Page>, s1: PageState<Page>, s2: PageState<Page>, current: nat, lo: nat, i: nat)
    requires Paid(s, s1, current, lo, i) && lo <= i < |s.tables[current]|
    requires ClaimRound(s1, s2, current, i) && ClaimMarks(s1, s2, current, i)
    ensures Paid(s, s2, current, lo, i + 1)
  {
    assert SameReserve(s, s1, i);
    assert Costs(s1, current, i) == Costs(s, current, i);
    forall g | i + 1 <= g
      ensures SameReserve(s, s2, g)
    {
      assert SameReserve(s, s1, g);
    }
  }

  /** A page that costs a frame finds one. */
  lemma CanPay<Page>(s: PageState<Page>, s1: PageState<Page>, current: nat, lo: nat, i: nat, hi: nat)
    requires Affordable(s, current, lo, hi) && lo <= i < hi && Paid(s, s1, current, lo, i)
    ensures Costs(s1, current, i) ==> Count(s1.used) < |s1.used|
  {
    WantedMono(s, current, lo, i + 1, hi);
    assert SameReserve(s, s1, i);
    assert Costs(s1, current, i) == Costs(s, current, i);
  }

  /** No claim loop can get through with fewer free frames. */
  lemma ClaimNeeds<Page>(s: PageState<Page>, s': PageState<Page>, current: nat, lo: nat, hi: nat)
    requires Paid(s, s', current, lo, hi)
    ensures Affordable(s, current, lo, hi)
  {
    CountAtMost(s'.used);
  }

  lemma ClaimingStart<Page>(s: PageState<Page>, current: nat, lo: nat)
    requires s.Marked() && Resident(s, current) && current < |s.tables| && lo <= |s.tables[current]|
    ensures Claiming(s, s, current, lo, lo)
  {
  }

  lemma ClaimingStep<Page>(s: PageState<Page>, s1: PageState<Page>, s2: PageState<Page>, current: nat, lo: nat, i: nat)
    requires Claiming(s, s1, current, lo, i) && lo <= i < SENTINEL && ClaimRound(s1, s2, current, i)
    ensures Claiming(s, s2, current, lo, i + 1)
  {
    var hi := i + 1;
    forall j, k
      ensures RangeSlot(s, s2, current, lo, hi, j, k)
    {
      assert RangeSlot(s, s1, current, lo, i, j, k) && RoundSlot(s1, s2, current, i, j, k);
    }
  }

  lemma ClaimingIs<Page>(s: PageState<Page>, s': PageState<Page>, current: nat, lo: nat, i: nat)
    requires Claiming(s, s', current, lo, i)
    ensures Resident(s', current)
  {
    forall k | s'.Held(current, k)
      ensures s'.tables[current][k] == k
    {
      assert RangeSlot(s, s', current, lo, i, current, k);
    }
  }

  // ------------------------------------------------------------ looking ahead on tables and marks

  /** The tables and marks after whoever holds frame i has moved away. */
  ghost function AfterEvict(m: PageState<()>, i: nat): PageState<()> {
    var f := FirstFree(m.used);
    if m.Free(f) && exists j: nat, k: nat :: Holds(m, j, k, i) then
      var j: nat, k: nat :| Holds(m, j, k, i);
      m.(tables := m.tables[j := m.tables[j][k := f]], used := m.used[f := true])
    else m
  }

  /** After round i of the switch-in of thread t. */
  ghost function AfterRound(m: PageState<()>, t: nat, i: nat): PageState<()> {
    if !m.Held(t, i) || m.tables[t][i] == i then m
    else
      var e := AfterEvict(m, i);
      if e.Slot(t, i) && 0 <= e.tables[t][i] < |e.used| && i < |e.used| then
        e.(tables := e.tables[t := e.tables[t][i := i]], used := e.used[e.tables[t][i] := false][i := true])
      else e
  }

  /** After the first n rounds. */
  ghost function AfterRounds(m: PageState<()>, t: nat, n: nat): PageState<()> {
    if n == 0 then m else AfterRound(AfterRounds(m, t, n - 1), t, n - 1)
  }

  /** Tables and marks say that the last RAM frame will be clear when its turn comes. */
  ghost predicate Settles<Page>(s: PageState<Page>, t: nat, prefix: nat, memoryPages: nat)
    requires memoryPages > 0
  {
    LastClear(AfterRounds(s.Marks(), t, prefix), t, memoryPages - 1)
  }

  lemma SameMarks<Page>(s: PageState<Page>, f: int)
    ensures s.Unheld(f) <==> s.Marks().Unheld(f)
    ensures forall j, k :: s.Held(j, k) <==> s.Marks().Held(j, k)
  {
  }

  lemma EvictIs<Page>(s: PageState<Page>, s1: PageState<Page>, i: nat)
    requires s.Injective() && Evicted(s, s1, i)
    ensures s1.Marks() == AfterEvict(s.Marks(), i)
  {
    if s.Unheld(i) {
      assert forall j: nat, k: nat :: Holds(s.Marks(), j, k, i) ==> s.Held(j, k);
    } else {
      var j: nat, k: nat :| Holds(s, j, k, i) && Displaced(s, s1, j, k);
      forall j': nat, k': nat | Holds(s.Marks(), j', k', i)
        ensures j' == j && k' == k
      {
        assert s.Share(j', k', j, k);
      }
      assert Holds(s.Marks(), j, k, i);
    }
  }

  lemma RoundIs<Page>(s: PageState<Page>, s1: PageState<Page>, s': PageState<Page>, t: nat, i: nat)
    requires s.Injective() && Evicted(s, s1, i) && Pulled(s1, s', t, i)
    requires s.Held(t, i) && s.tables[t][i] != i
    ensures s'.Marks() == AfterRound(s.Marks(), t, i)
  {
    EvictIs(s, s1, i);
  }

  /** A slot whose frame is not the one being vacated stays where it is. */
  lemma RoundKeeps(m: PageState<()>, t: nat, i: nat, j: nat, k: nat)
    requires m.Held(j, k) && m.tables[j][k] != i && !(j == t && k == i)
    ensures AfterRound(m, t, i).Held(j, k) && AfterRound(m, t, i).tables[j][k] == m.tables[j][k]
  {
  }

  /** A slot that holds the last RAM frame stays through the rounds before. */
  lemma {:induction false} RoundsKeep(m: PageState<()>, t: nat, n: nat, j: nat, k: nat)
    requires m.Held(j, k) && n <= m.tables[j][k] && (j == t ==> n <= k)
    ensures AfterRounds(m, t, n).Held(j, k) && AfterRounds(m, t, n).tables[j][k] == m.tables[j][k]
  {
    if n > 0 {
      RoundsKeep(m, t, n - 1, j, k);
      RoundKeeps(AfterRounds(m, t, n - 1), t, n - 1, j, k);
    }
  }

  /** Frames fit below the sentinel, and slot (j, k) holds a page. */
  ghost predicate Fits(m: PageState<()>, j: nat, k: nat) {
    |m.used| <= SENTINEL && m.Held(j, k)
  }

  lemma RoundHolds(m: PageState<()>, t: nat, i: nat, j: nat, k: nat)
    requires Fits(m, j, k) && i < SENTINEL
    ensures Fits(AfterRound(m, t, i), j, k)
  {
  }

  lemma {:induction false} RoundsHold(m: PageState<()>, t: nat, n: nat, j: nat, k: nat)
    requires Fits(m, j, k) && n < SENTINEL
    ensures Fits(AfterRounds(m, t, n), j, k)
  {
    if n > 0 {
      RoundsHold(m, t, n - 1, j, k);
      RoundHolds(AfterRounds(m, t, n - 1), t, n - 1, j, k);
    }
  }

  lemma RoundReserves(m: PageState<()>, t: nat, i: nat, g: nat)
    requires m.Reserved(g) && i != g
    ensures AfterRound(m, t, i).Reserved(g)
  {
    var e := AfterEvict(m, i);
    assert e.Reserved(g);
  }

  lemma {:induction false} RoundsReserve(m: PageState<()>, t: nat, n: nat, g: nat)
    requires m.Reserved(g) && n <= g
    ensures AfterRounds(m, t, n).Reserved(g)
  {
    if n > 0 {
      RoundsReserve(m, t, n - 1, g);
      RoundReserves(AfterRounds(m, t, n - 1), t, n - 1, g);
    }
  }

  /** The switch-in settles when a last slot holds the last RAM frame, as after the
      exit of a resident thread, and when that frame is marked but held by nobody. */
  lemma SettlesWhen<Page>(s: PageState<Page>, t: nat, prefix: nat, memoryPages: nat)
    requires prefix < memoryPages <= |s.used| <= SENTINEL && s.Held(t, memoryPages - 1)
    requires LastHeldByLast(s, memoryPages - 1) || s.Reserved(memoryPages - 1)
    ensures Settles(s, t, prefix, memoryPages)
  {
    var m, last := s.Marks(), memoryPages - 1;
    RoundsHold(m, t, prefix, t, last);
    if LastHeldByLast(s, last) {
      var j: nat :| s.Held(j, last) && s.tables[j][last] == last;
      RoundsKeep(m, t, prefix, j, last);
    } else {
      SameMarks(s, last);
      RoundsReserve(m, t, prefix, last);
    }
  }

  // ------------------------------------------------------------ room below the last RAM frame

  /** Pages lo..hi of a table that are away from home. */
  function Away(table: seq<int>, lo: nat, hi: nat): nat
    requires hi <= |table|
    decreases hi - lo
  {
    if hi <= lo then 0 else (if table[lo] == lo then 0 else 1) + Away(table, lo + 1, hi)
  }

  lemma {:induction false} AwayMono(table: seq<int>, table': seq<int>, lo: nat, hi: nat)
    requires hi <= |table| == |table'| && forall k :: lo <= k < hi && table[k] == k ==> table'[k] == k
    ensures Away(table', lo, hi) <= Away(table, lo, hi)
    decreases hi - lo
  {
    if lo < hi {
      AwayMono(table, table', lo + 1, hi);
    }
  }

  /** There are free frames below the last one for all prefix pages that are away, and
      the last frame is free, or held by one of these pages. */
  ghost predicate Roomy<Page>(s: PageState<Page>, t: nat, i: nat, prefix: nat, last: nat) {
    && t < |s.tables| && prefix <= |s.tables[t]| && prefix <= last < |s.used|
    && Away(s.tables[t], i, prefix) <= FreeBelow(s.used, last)
    && forall j, k :: Holds(s, j, k, last) ==> j == t && i <= k < prefix
  }

  /** The marks of one round away from home: at most one free frame below the last
      is used up. */
  lemma RoundRoom(used: seq<bool>, used': seq<bool>, last: nat, f: nat, from: nat, i: nat)
    requires f < |used| && from < |used| && i < last < |used| && used[from] && from != i
    requires used' == used[from := false][i := true]
             || (used[i] && f != from && used' == used[f := true][from := false][i := true])
    ensures |used'| == |used| && FreeBelow(used', last) + 1 >= FreeBelow(used, last)
  {
    FreeBelowUpdate(used, last, from, false);
    FreeBelowUpdate(used[from := false], last, i, true);
    FreeBelowUpdate(used, last, f, true);
    FreeBelowUpdate(used[f := true], last, from, false);
    FreeBelowUpdate(used[f := true][from := false], last, i, true);
  }

  /** After a round away from home, with a free frame f for whoever has to move. */
  ghost predicate RoundMoves(m: PageState<()>, e: PageState<()>, m': PageState<()>, t: nat, i: nat, f: nat) {
    && m.Held(t, i) && m.tables[t][i] != i && f < |m.used| && !m.used[f]
    && 0 <= m.tables[t][i] < |m.used| && i < |m.used|
    && (if m.Unheld(i) then e == m
        else exists j: nat, k: nat :: Holds(m, j, k, i)
               && e == m.(tables := m.tables[j := m.tables[j][k := f]], used := m.used[f := true]))
    && e.Held(t, i) && e.tables[t][i] == m.tables[t][i]
    && m' == e.(tables := e.tables[t := e.tables[t][i := i]], used := e.used[m.tables[t][i] := false][i := true])
  }

  lemma RoundDoes(m: PageState<()>, t: nat, i: nat, memoryPages: nat) returns (e: PageState<()>)
    requires m.Consistent(memoryPages) && i < memoryPages && m.Held(t, i) && m.tables[t][i] != i
    requires FirstFree(m.used) < |m.used| && !m.used[FirstFree(m.used)]
    ensures RoundMoves(m, e, AfterRound(m, t, i), t, i, FirstFree(m.used))
  {
    e := AfterEvict(m, i);
    if m.Unheld(i) {
      assert forall j: nat, k: nat :: Holds(m, j, k, i) ==> m.Held(j, k);
    } else {
      var j: nat, k: nat :| m.Held(j, k) && m.tables[j][k] == i;
      assert Holds(m, j, k, i);
    }
  }

  lemma RoundConsistent(m: PageState<()>, e: PageState<()>, m': PageState<()>, t: nat, i: nat, f: nat, memoryPages: nat)
    requires m.Consistent(memoryPages) && i < memoryPages && RoundMoves(m, e, m', t, i, f)
    ensures m'.Consistent(memoryPages)
  {
    if !m.Unheld(i) {
      var j: nat, k: nat :| Holds(m, j, k, i)
        && e == m.(tables := m.tables[j := m.tables[j][k := f]], used := m.used[f := true]);
      assert Moved(m, e, j, k, f);
      MoveIsTransparent(m, e, memoryPages, j, k, f);
    }
    assert Moved(e, m', t, i, i);
    MoveIsTransparent(e, m', memoryPages, t, i, i);
  }

  lemma RoundRoomy(m: PageState<()>, t: nat, i: nat, prefix: nat, memoryPages: nat)
    requires m.Consistent(memoryPages) && i < prefix < memoryPages && Roomy(m, t, i, prefix, memoryPages - 1)
    ensures AfterRound(m, t, i).Consistent(memoryPages)
    ensures Roomy(AfterRound(m, t, i), t, i + 1, prefix, memoryPages - 1)
  {
    if m.Held(t, i) && m.tables[t][i] != i {
      FirstFreeBelow(m.used, memoryPages - 1);
      var e := RoundDoes(m, t, i, memoryPages);
      RoundConsistent(m, e, AfterRound(m, t, i), t, i, FirstFree(m.used), memoryPages);
      MovesRoomy(m, e, AfterRound(m, t, i), t, i, prefix, memoryPages);
    }
  }

  lemma MovesRoomy(m: PageState<()>, e: PageState<()>, m': PageState<()>, t: nat, i: nat, prefix: nat, memoryPages: nat)
    requires m.Consistent(memoryPages) && i < prefix < memoryPages && Roomy(m, t, i, prefix, memoryPages - 1)
    requires FirstFree(m.used) < memoryPages - 1 && RoundMoves(m, e, m', t, i, FirstFree(m.used))
    ensures Roomy(m', t, i + 1, prefix, memoryPages - 1)
  {
    RoundRoom(m.used, m'.used, memoryPages - 1, FirstFree(m.used), m.tables[t][i], i);
    AwayMono(m.tables[t], m'.tables[t], i + 1, prefix);
    MovesPastLast(m, e, m', t, i, memoryPages - 1);
  }

  /** No page moves into the last frame, and page i has left it. */
  lemma MovesPastLast(m: PageState<()>, e: PageState<()>, m': PageState<()>, t: nat, i: nat, last: nat)
    requires FirstFree(m.used) < last && i < last && RoundMoves(m, e, m', t, i, FirstFree(m.used))
    ensures forall j, k :: Holds(m', j, k, last) ==> Holds(m, j, k, last) && !(j == t && k == i)
  {
  }

  lemma {:induction false} RoundsRoomy(m: PageState<()>, t: nat, n: nat, prefix: nat, memoryPages: nat)
    requires m.Consistent(memoryPages) && n <= prefix < memoryPages && Roomy(m, t, 0, prefix, memoryPages - 1)
    ensures AfterRounds(m, t, n).Consistent(memoryPages)
    ensures Roomy(AfterRounds(m, t, n), t, n, prefix, memoryPages - 1)
  {
    if n > 0 {
      RoundsRoomy(m, t, n - 1, prefix, memoryPages);
      RoundRoomy(AfterRounds(m, t, n - 1), t, n - 1, prefix, memoryPages);
    }
  }

  /** With the last RAM frame free, or held by a prefix page of the thread itself, the
      switch-in settles if there is a free frame below it for each prefix page that is
      away from home. */
  lemma RoomSettles<Page>(s: PageState<Page>, t: nat, prefix: nat, memoryPages: nat)
    requires s.Consistent(memoryPages) && prefix < memoryPages && s.Held(t, memoryPages - 1)
    requires Roomy(s, t, 0, prefix, memoryPages - 1)
    ensures Settles(s, t, prefix, memoryPages)
  {
    var m, last := s.Marks(), memoryPages - 1;
    assert forall j, k :: Holds(m, j, k, last) ==> Holds(s, j, k, last);
    MarksConsistent(s, memoryPages);
    RoundsHold(m, t, prefix, t, last);
    RoundsRoomy(m, t, prefix, prefix, memoryPages);
    var m' := AfterRounds(m, t, prefix);
    assert forall j, k :: m'.Held(j, k) && m'.tables[j][k] == last ==> Holds(m', j, k, last);
  }

  lemma MarksConsistent<Page>(s: PageState<Page>, memoryPages: nat)
    requires s.Consistent(memoryPages)
    ensures s.Marks().Consistent(memoryPages)
  {
    var m := s.Marks();
    assert forall j, k :: m.Held(j, k) ==> s.Held(j, k);
    assert forall a, b, a', b' :: m.Share(a, b, a', b') ==> s.Share(a, b, a', b');
  }

  /** The look-ahead decides what will be found after the rounds. */
  lemma LooksAhead<Page>(s: PageState<Page>, mid: PageState<Page>, t: nat, prefix: nat, memoryPages: nat)
    requires prefix < memoryPages && mid.Marks() == AfterRounds(s.Marks(), t, prefix)
    requires mid.Injective() && mid.Held(t, memoryPages - 1)
    ensures Settles(s, t, prefix, memoryPages) <==> LastClear(mid, t, memoryPages - 1)
    ensures LastHeldElsewhere(s, t, memoryPages - 1) ==> !LastClear(mid, t, memoryPages - 1)
  {
    var last := memoryPages - 1;
    ClearSame(mid, t, last);
    if LastHeldElsewhere(s, t, last) {
      var j: nat, k: nat :| s.Held(j, k) && j != t && k != last && s.tables[j][k] == last;
      RoundsKeep(s.Marks(), t, prefix, j, k);
      assert mid.Held(j, k) && mid.tables[j][k] == last;
      assert mid.tables[t][last] == last ==> mid.Share(j, k, t, last);
      assert forall j' :: mid.Held(j', last) && mid.tables[j'][last] == last ==> mid.Share(j, k, j', last);
    }
  }

  lemma ClearSame<Page>(s: PageState<Page>, t: nat, last: nat)
    ensures LastClear(s, t, last) <==> LastClear(s.Marks(), t, last)
  {
    SameMarks(s, last);
    if LastHeldByLast(s, last) {
      var j :| s.Held(j, last) && s.tables[j][last] == last;
      assert s.Marks().Held(j, last);
    }
  }

  const HELD_LAST: PageState<int> :=
    PageState([[0, SENTINEL, 3], [2, SENTINEL, 4]], [true, false, true, true, true], [10, 0, 12, 13, 14])

  /** The last slot is a real exception: a consistent state in which the last RAM
      frame is held by the first slot of another thread does not settle. */
  lemma LastNotClear()
    ensures HELD_LAST.Consistent(3) && PrefixAndLast(HELD_LAST, 0, 1, 3) && HELD_LAST.Free(1)
    ensures !Settles(HELD_LAST, 0, 1, 3)
  {
    assert forall k :: 0 <= k < 1 ==> HELD_LAST.Held(0, k);
    var m := AfterRounds(HELD_LAST.Marks(), 0, 1);
    assert AfterRounds(HELD_LAST.Marks(), 0, 0) == HELD_LAST.Marks();
    assert m == HELD_LAST.Marks();
    assert m.Held(1, 0) && m.tables[1][0] == 2;
  }

  const FREE_LAST: PageState<int> :=
    PageState([[0, SENTINEL, 3], [1, SENTINEL, 4]], [true, true, false, true, true], [10, 11, 0, 13, 14])

  lemma RoundTakesFreeLast()
    ensures var n := AfterRounds(FREE_LAST.Marks(), 1, 1);
            |n.tables| == 2 && n.tables[0] == [2, SENTINEL, 3] && n.tables[1] == [0, SENTINEL, 4]
  {
    var m := FREE_LAST.Marks();
    assert FirstFree(m.used, 2) == 2 && FirstFree(m.used, 1) == 2 && FirstFree(m.used) == 2;
    assert Holds(m, 0, 0, 0) && forall j: nat, k: nat :: Holds(m, j, k, 0) ==> j == 0 && k == 0;
    var e := AfterEvict(m, 0);
    assert e == m.(tables := m.tables[0 := m.tables[0][0 := 2]], used := m.used[2 := true]);
    assert e.tables[1] == [1, SENTINEL, 4] && e.tables[0] == [2, SENTINEL, 3];
    assert AfterRounds(m, 1, 0) == m;
  }

  /** Nor does a state whose last RAM frame is free: the first round displaces the
      page of the other thread into it. */
  lemma FreeIsNotClear()
    ensures FREE_LAST.Consistent(3) && PrefixAndLast(FREE_LAST, 1, 1, 3) && FREE_LAST.Free(2) && FREE_LAST.Unheld(2)
    ensures !Settles(FREE_LAST, 1, 1, 3)
  {
    FreeLastIsFine();
    RoundTakesFreeLast();
    var n := AfterRounds(FREE_LAST.Marks(), 1, 1);
    assert n.Held(0, 0) && n.tables[0][0] == 2;
  }

  lemma FreeLastIsFine()
    ensures FREE_LAST.Consistent(3) && PrefixAndLast(FREE_LAST, 1, 1, 3) && FREE_LAST.Free(2) && FREE_LAST.Unheld(2)
  {
    assert forall k :: 0 <= k < 1 ==> FREE_LAST.Held(1, k);
  }

  const RESERVED_HOME: PageState<int> := PageState([[1, SENTINEL, 2]], [true, true, true, false], [10, 11, 12, 0])

  /** A state that settles and in which the home frame of the first page is marked but
      held by nobody: the switch-in brings the page home and one mark falls. */
  lemma MarksCanFall()
    ensures RESERVED_HOME.Consistent(3) && PrefixAndLast(RESERVED_HOME, 0, 1, 3) && RESERVED_HOME.Free(3)
    ensures Settles(RESERVED_HOME, 0, 1, 3) && ReservedHomes(RESERVED_HOME, 1, 3) == 1
  {
    var s := RESERVED_HOME;
    assert forall k :: 0 <= k < 1 ==> s.Held(0, k);
    assert s.Held(0, 2) && s.tables[0][2] == 2;
    SettlesWhen(s, 0, 1, 3);
    assert s.Reserved(0) && !s.Reserved(2);
    assert ReservedBelow(s, 0) == 0;
  }
}
