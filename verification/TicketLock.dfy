/** The ticket mutex, interleaved at the grain of its memory accesses: the
    fetch-and-add of lock, each test of its spin loop, and the separate read and
    write of `turn` in unlock. Counters wrap around at `modulus`, 2^32 for a C int. */
module TicketLock {

  type Tid = nat

  /** Where a thread stands. `no` is its ticket counted without wrap-around, used
      only to state properties; `my` is the value in the thread's variable. */
  datatype Pc =
    | Idle
    | Spinning(no: nat, my: nat)
    | Holding(no: nat, my: nat)
    | Unlocking(no: nat, my: nat, read: nat)

  /** The mutex, the threads, and the history: who took tickets, who was let in,
      and how many unlocks have finished. */
  datatype Lock = Lock(ticket: nat, turn: nat, pc: map<Tid, Pc>, taken: seq<Tid>, granted: seq<Tid>, served: nat) {

    /** Thread t has a ticket that is not used up. */
    predicate Outstanding(t: Tid) {
      t in pc && !pc[t].Idle?
    }
  }

  datatype Op = TakeTicket | Test | ReadTurn | WriteTurn

  /** Increment of a machine counter. */
  function Bump(modulus: nat, x: nat): nat {
    if x + 1 >= modulus then 0 else x + 1
  }

  /** The counter after n increments from 0. */
  function Wrap(modulus: nat, n: nat): nat {
    if n == 0 then 0 else Bump(modulus, Wrap(modulus, n - 1))
  }

  function Init(threads: set<Tid>): Lock {
    Lock(0, 0, map t | t in threads :: Idle, [], [], 0)
  }

  predicate Inside(pc: Pc) {
    pc.Holding? || pc.Unlocking?
  }

  predicate Enabled(s: Lock, t: Tid, op: Op) {
    t in s.pc && match op
                 case TakeTicket => s.pc[t].Idle?
                 case Test => s.pc[t].Spinning?
                 case ReadTurn => s.pc[t].Holding?
                 case WriteTurn => s.pc[t].Unlocking?
  }

  /** One memory access by thread t. Only the holder unlocks. */
  function Step(modulus: nat, s: Lock, t: Tid, op: Op): Lock
    requires modulus > 0 && Enabled(s, t, op)
  {
    match op
    case TakeTicket =>
      s.(pc := s.pc[t := Spinning(|s.taken|, s.ticket)], ticket := Bump(modulus, s.ticket), taken := s.taken + [t])
    case Test =>
      if s.turn == s.pc[t].my then s.(pc := s.pc[t := Holding(s.pc[t].no, s.pc[t].my)], granted := s.granted + [t])
      else s
    case ReadTurn =>
      s.(pc := s.pc[t := Unlocking(s.pc[t].no, s.pc[t].my, s.turn)])
    case WriteTurn =>
      s.(pc := s.pc[t := Idle], turn := Bump(modulus, s.pc[t].read), served := s.served + 1)
  }

  ghost predicate MutualExclusion(s: Lock) {
    forall t, u :: t in s.pc && u in s.pc && Inside(s.pc[t]) && Inside(s.pc[u]) ==> t == u
  }

  /** Someone is in the critical section. */
  ghost predicate Busy(s: Lock) {
    exists t :: t in s.pc && Inside(s.pc[t])
  }

  ghost predicate Inv(modulus: nat, s: Lock)
    requires modulus > 0
  {
    && s.served <= |s.taken|
    && s.ticket == Wrap(modulus, |s.taken|)
    && s.turn == Wrap(modulus, s.served)
    && (forall t :: t in s.pc && !s.pc[t].Idle? ==> s.served <= s.pc[t].no < |s.taken| && s.taken[s.pc[t].no] == t)
    && (forall t :: t in s.pc && !s.pc[t].Idle? ==> s.pc[t].my == Wrap(modulus, s.pc[t].no))
    && (forall i :: s.served <= i < |s.taken| ==>
                      s.taken[i] in s.pc && !s.pc[s.taken[i]].Idle? && s.pc[s.taken[i]].no == i)
    && (forall t :: t in s.pc && Inside(s.pc[t]) ==> s.pc[t].no == s.served)
    && (forall t :: t in s.pc && s.pc[t].Unlocking? ==> s.pc[t].read == s.turn)
    && s.granted <= s.taken
    && |s.granted| == s.served + if Busy(s) then 1 else 0
  }

  // ------------------------------------------------------------ outstanding tickets

  /** The threads with tickets lo..hi. */
  ghost function Holders(s: Lock, lo: nat, hi: nat): set<Tid>
    requires lo <= hi <= |s.taken|
  {
    set i | lo <= i < hi :: s.taken[i]
  }

  lemma {:induction false} HoldersCount(s: Lock, lo: nat, hi: nat)
    requires lo <= hi <= |s.taken|
    requires forall i, j :: lo <= i < j < hi ==> s.taken[i] != s.taken[j]
    ensures |Holders(s, lo, hi)| == hi - lo
    decreases hi
  {
    if hi > lo {
      HoldersCount(s, lo, hi - 1);
      var x := s.taken[hi - 1];
      assert Holders(s, lo, hi) == Holders(s, lo, hi - 1) + {x};
      assert x !in Holders(s, lo, hi - 1);
    } else {
      assert Holders(s, lo, hi) == {};
    }
  }

  lemma SubsetCount(a: set<Tid>, b: set<Tid>)
    requires a <= b
    ensures |a| <= |b|
  {
    assert b == a + (b - a);
  }

  /** Outstanding tickets never outnumber the threads. */
  lemma OutstandingBound(modulus: nat, s: Lock)
    requires modulus > 0 && Inv(modulus, s)
    ensures |s.taken| - s.served <= |s.pc|
  {
    HoldersCount(s, s.served, |s.taken|);
    SubsetCount(Holders(s, s.served, |s.taken|), s.pc.Keys);
  }

  /** d increments from n, without reaching a full turn of the counter. */
  lemma {:induction false} WrapAhead(modulus: nat, n: nat, d: nat)
    requires d < modulus
    ensures Wrap(modulus, n) < modulus
    ensures Wrap(modulus, n + d) == Wrap(modulus, n) + d - if Wrap(modulus, n) + d < modulus then 0 else modulus
    decreases n, d
  {
    if d > 0 {
      WrapAhead(modulus, n, d - 1);
    } else if n > 0 {
      WrapAhead(modulus, n - 1, 0);
    }
  }

  /** Within a window of modulus numbers, equal counter values mean equal numbers. */
  lemma SameTicket(modulus: nat, a: nat, b: nat)
    requires a <= b < a + modulus && Wrap(modulus, a) == Wrap(modulus, b)
    ensures a == b
  {
    WrapAhead(modulus, a, b - a);
  }

  // ------------------------------------------------------------ steps keep the invariant

  lemma TakeKeepsInv(modulus: nat, s: Lock, t: Tid)
    requires modulus > 0 && Inv(modulus, s) && Enabled(s, t, TakeTicket)
    ensures Inv(modulus, Step(modulus, s, t, TakeTicket))
  {
    var s' := Step(modulus, s, t, TakeTicket);
    assert forall u :: u in s.pc && Inside(s.pc[u]) ==> u in s'.pc && Inside(s'.pc[u]);
    assert Busy(s') <==> Busy(s);
  }

  /** A successful test is the test of the next ticket, with nobody inside. */
  lemma TestMeansNext(modulus: nat, s: Lock, t: Tid)
    requires modulus > 0 && Inv(modulus, s) && |s.pc| <= modulus && Enabled(s, t, Test)
    ensures s.turn == s.pc[t].my <==> s.pc[t].no == s.served
    ensures s.pc[t].no == s.served ==> !Busy(s)
  {
    OutstandingBound(modulus, s);
    if s.turn == s.pc[t].my {
      SameTicket(modulus, s.served, s.pc[t].no);
    }
  }

  lemma TestKeepsInv(modulus: nat, s: Lock, t: Tid)
    requires modulus > 0 && Inv(modulus, s) && |s.pc| <= modulus && Enabled(s, t, Test)
    ensures Inv(modulus, Step(modulus, s, t, Test))
  {
    TestMeansNext(modulus, s, t);
    var s' := Step(modulus, s, t, Test);
    if s.turn == s.pc[t].my {
      assert Inside(s'.pc[t]);
      assert s.granted == s.taken[..s.served];
      assert s'.granted == s.taken[..s.served + 1];
    }
  }

  lemma ReadKeepsInv(modulus: nat, s: Lock, t: Tid)
    requires modulus > 0 && Inv(modulus, s) && Enabled(s, t, ReadTurn)
    ensures Inv(modulus, Step(modulus, s, t, ReadTurn))
  {
    var s' := Step(modulus, s, t, ReadTurn);
    assert Inside(s.pc[t]) && Inside(s'.pc[t]);
  }

  lemma WriteKeepsInv(modulus: nat, s: Lock, t: Tid)
    requires modulus > 0 && Inv(modulus, s) && Enabled(s, t, WriteTurn)
    ensures Inv(modulus, Step(modulus, s, t, WriteTurn))
  {
    var s' := Step(modulus, s, t, WriteTurn);
    assert Inside(s.pc[t]);
    assert forall u :: u in s.pc && Inside(s.pc[u]) ==> u == s.taken[s.served];
    assert !Busy(s');
  }

  lemma StepKeepsInv(modulus: nat, s: Lock, t: Tid, op: Op)
    requires modulus > 0 && Inv(modulus, s) && |s.pc| <= modulus && Enabled(s, t, op)
    ensures Inv(modulus, Step(modulus, s, t, op))
    ensures Step(modulus, s, t, op).pc.Keys == s.pc.Keys
  {
    match op
    case TakeTicket => TakeKeepsInv(modulus, s, t);
    case Test => TestKeepsInv(modulus, s, t);
    case ReadTurn => ReadKeepsInv(modulus, s, t);
    case WriteTurn => WriteKeepsInv(modulus, s, t);
  }

  // ------------------------------------------------------------ runs

  /** A run from a fresh mutex; sched[i] names the thread and the access of step i. */
  ghost predicate IsRun(modulus: nat, threads: set<Tid>, ss: seq<Lock>, sched: seq<(Tid, Op)>)
    requires modulus > 0
  {
    && |ss| == |sched| + 1
    && ss[0] == Init(threads)
    && forall i {:trigger sched[i]} :: 0 <= i < |sched| ==>
         Enabled(ss[i], sched[i].0, sched[i].1) && ss[i + 1] == Step(modulus, ss[i], sched[i].0, sched[i].1)
  }

  lemma {:induction false} RunKeepsInv(modulus: nat, threads: set<Tid>, ss: seq<Lock>, sched: seq<(Tid, Op)>, i: nat)
    requires modulus > 0 && |threads| <= modulus && IsRun(modulus, threads, ss, sched) && i < |ss|
    ensures Inv(modulus, ss[i]) && ss[i].pc.Keys == threads
    decreases i
  {
    if i > 0 {
      RunKeepsInv(modulus, threads, ss, sched, i - 1);
      var (t, op) := sched[i - 1];
      StepKeepsInv(modulus, ss[i - 1], t, op);
    } else {
      assert !Busy(ss[0]);
    }
  }

  /** The ticket of t lies between the tickets served and the tickets taken, and t's
      variable holds it. */
  ghost predicate InWindow(modulus: nat, s: Lock, t: Tid)
    requires s.Outstanding(t)
  {
    s.served <= s.pc[t].no < |s.taken| && s.pc[t].my == Wrap(modulus, s.pc[t].no)
  }

  /** On every interleaving of at most `modulus` threads: one thread at most is
      inside, outstanding tickets are distinct and lie between the tickets served
      and the tickets taken, and threads are let in in the order of their
      fetch-and-adds. */
  lemma LockIsSafe(modulus: nat, threads: set<Tid>, ss: seq<Lock>, sched: seq<(Tid, Op)>, i: nat)
    requires modulus > 0 && |threads| <= modulus && IsRun(modulus, threads, ss, sched) && i < |ss|
    ensures MutualExclusion(ss[i])
    ensures ss[i].turn == Wrap(modulus, ss[i].served) && ss[i].ticket == Wrap(modulus, |ss[i].taken|)
    ensures forall t :: ss[i].Outstanding(t) ==> InWindow(modulus, ss[i], t)
    ensures forall t, u :: ss[i].Outstanding(t) && ss[i].Outstanding(u) && ss[i].pc[t].my == ss[i].pc[u].my ==> t == u
    ensures ss[i].granted <= ss[i].taken && |ss[i].granted| == ss[i].served + if Busy(ss[i]) then 1 else 0
    ensures forall t :: t in ss[i].pc && Inside(ss[i].pc[t]) ==>
                          ss[i].served < |ss[i].granted| && ss[i].granted[ss[i].served] == t
  {
    RunKeepsInv(modulus, threads, ss, sched, i);
    var s := ss[i];
    OutstandingBound(modulus, s);
    forall t, u | s.Outstanding(t) && s.Outstanding(u) && s.pc[t].my == s.pc[u].my
      ensures t == u
    {
      if s.pc[t].no <= s.pc[u].no {
        SameTicket(modulus, s.pc[t].no, s.pc[u].no);
      } else {
        SameTicket(modulus, s.pc[u].no, s.pc[t].no);
      }
    }
  }

  /** The lock is never stuck: with nobody inside and tickets outstanding, the test
      of the next ticket succeeds. */
  lemma NextCanEnter(modulus: nat, s: Lock)
    requires modulus > 0 && Inv(modulus, s) && |s.pc| <= modulus && !Busy(s) && s.served < |s.taken|
    ensures var t := s.taken[s.served];
            Enabled(s, t, Test) && Inside(Step(modulus, s, t, Test).pc[t])
  {
    var t := s.taken[s.served];
    assert !Inside(s.pc[t]);
    TestMeansNext(modulus, s, t);
  }

  // ------------------------------------------------------------ the bound on threads is exact

  /** Some n threads of a large enough set. */
  lemma {:induction false} Pick(threads: set<Tid>, n: nat) returns (ids: seq<Tid>)
    requires n <= |threads|
    ensures |ids| == n && forall i :: 0 <= i < n ==> ids[i] in threads
    ensures forall i, j :: 0 <= i < j < n ==> ids[i] != ids[j]
  {
    ids := [];
    if n > 0 {
      var t :| t in threads;
      ids := Pick(threads - {t}, n - 1);
      ids := ids + [t];
    }
  }

  /** The first k of the threads have taken a ticket each, and nothing else happened. */
  ghost predicate Crowd(modulus: nat, s: Lock, ids: seq<Tid>, k: nat) {
    && k <= |ids|
    && s.turn == 0 && |s.taken| == k && s.ticket == Wrap(modulus, k)
    && forall i :: 0 <= i < |ids| ==>
         ids[i] in s.pc && s.pc[ids[i]] == if i < k then Spinning(i, Wrap(modulus, i)) else Idle
  }

  /** One more step of a run. */
  lemma Extend(modulus: nat, threads: set<Tid>, ss: seq<Lock>, sched: seq<(Tid, Op)>, t: Tid, op: Op)
    returns (ss': seq<Lock>, sched': seq<(Tid, Op)>)
    requires modulus > 0 && IsRun(modulus, threads, ss, sched) && Enabled(ss[|ss| - 1], t, op)
    ensures IsRun(modulus, threads, ss', sched')
    ensures ss'[|ss'| - 1] == Step(modulus, ss[|ss| - 1], t, op)
  {
    ss', sched' := ss + [Step(modulus, ss[|ss| - 1], t, op)], sched + [(t, op)];
    assert forall i :: 0 <= i < |sched| ==> sched'[i] == sched[i];
  }

  lemma {:induction false} CrowdRun(modulus: nat, threads: set<Tid>, ids: seq<Tid>, k: nat)
    returns (ss: seq<Lock>, sched: seq<(Tid, Op)>)
    requires 0 < modulus && k <= |ids|
    requires forall i :: 0 <= i < |ids| ==> ids[i] in threads
    requires forall i, j :: 0 <= i < j < |ids| ==> ids[i] != ids[j]
    ensures IsRun(modulus, threads, ss, sched) && Crowd(modulus, ss[|ss| - 1], ids, k)
  {
    if k == 0 {
      ss, sched := [Init(threads)], [];
    } else {
      ss, sched := CrowdRun(modulus, threads, ids, k - 1);
      ss, sched := Extend(modulus, threads, ss, sched, ids[k - 1], TakeTicket);
    }
  }

  /** With more threads than the counter has values, two can get in. */
  lemma TooManyThreads(modulus: nat, threads: set<Tid>) returns (ss: seq<Lock>, sched: seq<(Tid, Op)>)
    requires 0 < modulus < |threads|
    ensures IsRun(modulus, threads, ss, sched)
    ensures !MutualExclusion(ss[|ss| - 1])
  {
    var ids := Pick(threads, modulus + 1);
    ss, sched := CrowdRun(modulus, threads, ids, modulus + 1);
    assert Wrap(modulus, modulus) == 0 by {
      WrapAhead(modulus, 0, modulus - 1);
    }
    ss, sched := Extend(modulus, threads, ss, sched, ids[0], Test);
    ss, sched := Extend(modulus, threads, ss, sched, ids[modulus], Test);
    var s := ss[|ss| - 1];
    assert Inside(s.pc[ids[0]]) && Inside(s.pc[ids[modulus]]);
  }

  /** The lock excludes on every run exactly if there are no more threads than
      counter values. */
  lemma SafeIff(modulus: nat, threads: set<Tid>)
    requires modulus > 0
    ensures (forall ss, sched, i :: IsRun(modulus, threads, ss, sched) && 0 <= i < |ss| ==> MutualExclusion(ss[i]))
            <==> |threads| <= modulus
  {
    if |threads| <= modulus {
      forall ss, sched, i | IsRun(modulus, threads, ss, sched) && 0 <= i < |ss|
        ensures MutualExclusion(ss[i])
      {
        LockIsSafe(modulus, threads, ss, sched, i);
      }
    } else {
      var ss, sched := TooManyThreads(modulus, threads);
    }
  }
}
