/** The ticket lock under the scheduler: lock spins by yielding to a scheduler that
    rotates, so a waiting thread gets in within a bounded number of turns. */
module LockFairness {
  import opened Options
  import S = SchedulerModel
  import L = TicketLock

  /** acted: the running thread has accessed the mutex since it was dispatched.
      held: how often the holder of the lock has given up the processor while inside. */
  datatype System = System(sched: S.Sched, lock: L.Lock, acted: bool, held: nat) {

    /** The running thread, and it is one of the mutex's threads. */
    predicate Runs(t: nat) {
      sched.current == Some(t) && t in lock.pc
    }

    predicate Inside(t: nat) {
      t in lock.pc && L.Inside(lock.pc[t])
    }
  }

  datatype Op = Access(access: L.Op) | Switch(call: S.Op)

  /** A thread in the spin loop tests at least once per turn, a holder gives up the
      processor at most `patience` times, and threads exit outside lock and unlock. */
  predicate MaySwitch(patience: nat, s: System, t: nat, op: S.Op)
    requires s.Runs(t)
  {
    && S.Enabled(s.sched, op)
    && (s.lock.pc[t].Spinning? ==> s.acted)
    && (L.Inside(s.lock.pc[t]) ==> s.held < patience)
    && (op.ExitOp? ==> s.lock.pc[t].Idle?)
  }

  predicate Enabled(patience: nat, s: System, t: nat, op: Op) {
    s.Runs(t) && match op
                 case Access(access) => L.Enabled(s.lock, t, access)
                 case Switch(call) => MaySwitch(patience, s, t, call)
  }

  /** The threads of the mutex after a scheduler call: a created thread joins them,
      an exiting one leaves. */
  function Members(s: System, t: nat, op: S.Op): map<nat, L.Pc> {
    match op
    case CreateOp => s.lock.pc[s.sched.nextId := L.Idle]
    case YieldOp => s.lock.pc
    case ExitOp(_) => s.lock.pc - {t}
  }

  function Step(modulus: nat, patience: nat, s: System, t: nat, op: Op): System
    requires modulus > 0 && Enabled(patience, s, t, op)
  {
    match op
    case Access(access) =>
      var lock := L.Step(modulus, s.lock, t, access);
      var enters := !L.Inside(s.lock.pc[t]) && L.Inside(lock.pc[t]);
      s.(lock := lock, acted := true, held := if enters then 0 else s.held)
    case Switch(call) =>
      System(S.Apply(s.sched, call), s.lock.(pc := Members(s, t, call)), false,
             if L.Inside(s.lock.pc[t]) then s.held + 1 else s.held)
  }

  ghost predicate Inv(modulus: nat, patience: nat, s: System)
    requires modulus > 0
  {
    && S.Inv(s.sched) && s.sched.started
    && L.Inv(modulus, s.lock)
    && (forall t: nat :: t in s.lock.pc <==> t in S.Ready(s.sched))
    && (L.Busy(s.lock) ==> s.held <= patience)
  }

  // ------------------------------------------------------------ how many threads

  ghost function Elements(xs: seq<nat>): set<nat> {
    set x | x in xs
  }

  lemma {:induction false} ElementsCount(xs: seq<nat>)
    ensures |Elements(xs)| <= |xs|
  {
    if xs == [] {
      assert Elements(xs) == {};
    } else {
      ElementsCount(xs[1..]);
      assert Elements(xs) == {xs[0]} + Elements(xs[1..]);
    }
  }

  lemma MembersCount(modulus: nat, patience: nat, s: System)
    requires modulus > 0 && Inv(modulus, patience, s)
    ensures |s.lock.pc| <= |S.Ready(s.sched)|
  {
    assert s.lock.pc.Keys == Elements(S.Ready(s.sched));
    ElementsCount(S.Ready(s.sched));
  }

  /** A mutex that nobody has used yet, at any time of any run of the scheduler. */
  lemma FreshMutex(modulus: nat, patience: nat, sched: S.Sched)
    requires modulus > 0 && S.Inv(sched) && sched.started
    ensures Inv(modulus, patience, System(sched, L.Init(Elements(S.Ready(sched))), false, 0))
  {
    var lock := L.Init(Elements(S.Ready(sched)));
    assert !L.Busy(lock);
  }

  // ------------------------------------------------------------ steps keep the invariant

  /** Same tickets and same holders. */
  ghost predicate SameTickets(a: map<nat, L.Pc>, b: map<nat, L.Pc>) {
    forall t: nat :: (t in a && !a[t].Idle?) || (t in b && !b[t].Idle?) ==> t in a && t in b && a[t] == b[t]
  }

  lemma BusySame(lock: L.Lock, pc: map<nat, L.Pc>)
    requires SameTickets(lock.pc, pc)
    ensures L.Busy(lock.(pc := pc)) <==> L.Busy(lock)
  {
    var lock' := lock.(pc := pc);
    if L.Busy(lock) {
      var t :| t in lock.pc && L.Inside(lock.pc[t]);
      assert t in lock'.pc && L.Inside(lock'.pc[t]);
    }
  }

  /** Idle threads may come and go. */
  lemma IdleDoNotMatter(modulus: nat, lock: L.Lock, pc: map<nat, L.Pc>)
    requires modulus > 0 && L.Inv(modulus, lock) && SameTickets(lock.pc, pc)
    ensures L.Inv(modulus, lock.(pc := pc)) && (L.Busy(lock.(pc := pc)) <==> L.Busy(lock))
  {
    BusySame(lock, pc);
  }

  /** Who is ready after a call. */
  lemma ReadyAfter(s: S.Sched, op: S.Op, s': S.Sched, id: nat)
    requires S.Inv(s) && s.started && S.Next(s, op, s') && s.current.Some?
    ensures S.Inv(s') && s'.started && s.nextId !in S.Ready(s)
    ensures id in S.Ready(s') <==> match op
                                   case CreateOp => id in S.Ready(s) || id == s.nextId
                                   case YieldOp => id in S.Ready(s)
                                   case ExitOp(_) => id in S.Ready(s) && Some(id) != s.current
  {
    S.StepKeepsInv(s, op, s');
    match op
    case CreateOp =>
      S.CreateKeepsInv(s);
    case YieldOp =>
      S.YieldRotates(s);
    case ExitOp(value) =>
      S.ExitCompletesCaller(s, value);
  }

  lemma SwitchKeepsInv(modulus: nat, patience: nat, s: System, t: nat, op: S.Op)
    requires modulus > 0 && Inv(modulus, patience, s) && Enabled(patience, s, t, Switch(op))
    ensures Inv(modulus, patience, Step(modulus, patience, s, t, Switch(op)))
  {
    var s' := Step(modulus, patience, s, t, Switch(op));
    ReadyAfter(s.sched, op, s'.sched, t);
    IdleDoNotMatter(modulus, s.lock, s'.lock.pc);
    forall id: nat
      ensures id in s'.lock.pc <==> id in S.Ready(s'.sched)
    {
      ReadyAfter(s.sched, op, s'.sched, id);
    }
  }

  lemma AccessKeepsInv(modulus: nat, patience: nat, s: System, t: nat, op: L.Op)
    requires modulus > 0 && Inv(modulus, patience, s) && Enabled(patience, s, t, Access(op))
    requires |S.Ready(s.sched)| <= modulus
    ensures Inv(modulus, patience, Step(modulus, patience, s, t, Access(op)))
  {
    MembersCount(modulus, patience, s);
    L.StepKeepsInv(modulus, s.lock, t, op);
    var s' := Step(modulus, patience, s, t, Access(op));
    if L.Busy(s'.lock) && !L.Busy(s.lock) {
      assert !L.Inside(s.lock.pc[t]);
      var u :| u in s'.lock.pc && L.Inside(s'.lock.pc[u]);
      assert u == t;
    }
  }

  lemma StepKeepsInv(modulus: nat, patience: nat, s: System, t: nat, op: Op)
    requires modulus > 0 && Inv(modulus, patience, s) && Enabled(patience, s, t, op)
    requires |S.Ready(s.sched)| <= modulus
    ensures Inv(modulus, patience, Step(modulus, patience, s, t, op))
  {
    match op
    case Access(access) => AccessKeepsInv(modulus, patience, s, t, access);
    case Switch(call) => SwitchKeepsInv(modulus, patience, s, t, call);
  }

  // ------------------------------------------------------------ how long a waiter can wait

  function Place(xs: seq<nat>, id: nat): (p: nat)
    requires id in xs
    ensures p < |xs| && xs[p] == id
  {
    if xs[0] == id then 0 else 1 + Place(xs[1..], id)
  }

  /** Thread w has a ticket and is not let in. */
  predicate Waits(s: System, w: nat) {
    w in s.lock.pc && s.lock.pc[w].Spinning?
  }

  /** The thread whose ticket is served. */
  ghost function Served(modulus: nat, patience: nat, s: System, w: nat): (u: nat)
    requires modulus > 0 && Inv(modulus, patience, s) && Waits(s, w)
    ensures u in s.lock.pc && !s.lock.pc[u].Idle? && s.lock.pc[u].no == s.lock.served
    ensures u in S.Ready(s.sched)
  {
    s.lock.taken[s.lock.served]
  }

  /** Turns until thread u, whose ticket is served, has had its next turn; negative
      for what a holder has used up of its patience, in rounds of n turns. */
  ghost function Local(n: nat, s: System, u: nat): int
    requires u in s.lock.pc && u in S.Ready(s.sched)
  {
    var p := Place(S.Ready(s.sched), u);
    if L.Inside(s.lock.pc[u]) then p - Times(s.held, n) else if p == 0 && s.acted then n else p
  }

  /** Turns that each ticket ahead may cost, with at most n threads. */
  function Round(n: nat, patience: nat): nat {
    Times(patience + 1, n)
  }

  ghost function Ahead(modulus: nat, patience: nat, s: System, w: nat): (d: nat)
    requires modulus > 0 && Inv(modulus, patience, s) && Waits(s, w)
    ensures d == 0 <==> Served(modulus, patience, s, w) == w
  {
    var u := Served(modulus, patience, s, w);
    assert s.lock.taken[s.lock.pc[w].no] == w;
    s.lock.pc[w].no - s.lock.served
  }

  ghost function Budget(modulus: nat, patience: nat, n: nat, s: System, w: nat): int
    requires modulus > 0 && Inv(modulus, patience, s) && Waits(s, w)
  {
    Times(Ahead(modulus, patience, s, w), Round(n, patience)) + Local(n, s, Served(modulus, patience, s, w))
  }

  /** Nothing is owed, and not more than a round per ticket ahead and n turns. */
  lemma BudgetBounds(modulus: nat, patience: nat, n: nat, s: System, w: nat)
    requires modulus > 0 && Inv(modulus, patience, s) && Waits(s, w) && |S.Ready(s.sched)| <= n
    ensures 0 <= Budget(modulus, patience, n, s, w) <= Due(n, patience, Ahead(modulus, patience, s, w))
  {
    var u, d := Served(modulus, patience, s, w), Ahead(modulus, patience, s, w);
    if L.Inside(s.lock.pc[u]) {
      HolderWithinRound(modulus, patience, n, s, u);
      TimesMono(1, d, Round(n, patience));
    }
  }

  /** The turns within which a thread with d tickets ahead gets in. */
  function Due(n: nat, patience: nat, d: nat): nat {
    Times(d, Round(n, patience)) + n
  }

  lemma DueIs(n: nat, patience: nat, d: nat)
    ensures Due(n, patience, d) == d * ((patience + 1) * n) + n
  {
    TimesIs(patience + 1, n);
    TimesIs(d, Round(n, patience));
  }

  lemma HolderWithinRound(modulus: nat, patience: nat, n: nat, s: System, u: nat)
    requires modulus > 0 && Inv(modulus, patience, s) && s.Inside(u)
    ensures s.held <= patience && Times(s.held, n) + n <= Round(n, patience)
  {
    assert L.Busy(s.lock);
    TimesMono(s.held + 1, patience + 1, n);
  }

  /** The place of an id in a list without repetitions. */
  lemma PlaceIs(xs: seq<nat>, id: nat, p: nat)
    requires S.Distinct(xs) && p < |xs| && xs[p] == id
    ensures Place(xs, id) == p
  {
  }

  // ------------------------------------------------------------ what a step costs

  /** The thread still waits, with no larger budget, or it is let in. */
  ghost predicate NoDearer(modulus: nat, patience: nat, n: nat, s: System, s': System, w: nat)
    requires modulus > 0 && Inv(modulus, patience, s) && Inv(modulus, patience, s') && Waits(s, w)
  {
    if Waits(s', w) then Budget(modulus, patience, n, s', w) <= Budget(modulus, patience, n, s, w) else s'.Inside(w)
  }

  lemma TakeBudget(modulus: nat, patience: nat, n: nat, s: System, t: nat, s': System, w: nat)
    requires modulus > 0 && Inv(modulus, patience, s) && Inv(modulus, patience, s') && Waits(s, w)
    requires Enabled(patience, s, t, Access(L.TakeTicket)) && s' == Step(modulus, patience, s, t, Access(L.TakeTicket))
    ensures NoDearer(modulus, patience, n, s, s', w)
  {
    RunnerIsHead(s, t);
    var u := Served(modulus, patience, s, w);
    assert u == Served(modulus, patience, s', w) && u != t;
  }

  lemma TestBudget(modulus: nat, patience: nat, n: nat, s: System, t: nat, s': System, w: nat)
    requires modulus > 0 && Inv(modulus, patience, s) && Inv(modulus, patience, s') && Waits(s, w)
    requires Enabled(patience, s, t, Access(L.Test)) && s' == Step(modulus, patience, s, t, Access(L.Test))
    requires |S.Ready(s.sched)| <= modulus
    ensures NoDearer(modulus, patience, n, s, s', w)
  {
    RunnerIsHead(s, t);
    MembersCount(modulus, patience, s);
    L.TestMeansNext(modulus, s.lock, t);
    TestLeavesTickets(modulus, patience, s, t, s', w);
  }

  lemma TestLeavesTickets(modulus: nat, patience: nat, s: System, t: nat, s': System, w: nat)
    requires modulus > 0 && Inv(modulus, patience, s) && Inv(modulus, patience, s') && Waits(s, w)
    requires Enabled(patience, s, t, Access(L.Test)) && s' == Step(modulus, patience, s, t, Access(L.Test))
    ensures t == Served(modulus, patience, s, w) <==> s.lock.pc[t].no == s.lock.served
    ensures Waits(s', w) ==> Served(modulus, patience, s', w) == Served(modulus, patience, s, w)
    ensures Waits(s', w) ==> Ahead(modulus, patience, s', w) == Ahead(modulus, patience, s, w)
  {
    assert s.lock.taken[s.lock.pc[t].no] == t;
  }

  lemma ReadBudget(modulus: nat, patience: nat, n: nat, s: System, t: nat, s': System, w: nat)
    requires modulus > 0 && Inv(modulus, patience, s) && Inv(modulus, patience, s') && Waits(s, w)
    requires Enabled(patience, s, t, Access(L.ReadTurn)) && s' == Step(modulus, patience, s, t, Access(L.ReadTurn))
    ensures NoDearer(modulus, patience, n, s, s', w)
  {
    RunnerIsHead(s, t);
    assert s.lock.taken[s.lock.pc[t].no] == t;
  }

  /** The next thread costs less than what the holder leaves of its round. */
  lemma WriteBudget(modulus: nat, patience: nat, n: nat, s: System, t: nat, s': System, w: nat)
    requires modulus > 0 && Inv(modulus, patience, s) && Inv(modulus, patience, s') && Waits(s, w)
    requires Enabled(patience, s, t, Access(L.WriteTurn)) && s' == Step(modulus, patience, s, t, Access(L.WriteTurn))
    requires |S.Ready(s.sched)| <= n
    ensures NoDearer(modulus, patience, n, s, s', w)
  {
    RunnerIsHead(s, t);
    assert s.lock.taken[s.lock.pc[t].no] == t;
    HolderWithinRound(modulus, patience, n, s, t);
    var u' := Served(modulus, patience, s', w);
    assert u' != t && !L.Inside(s'.lock.pc[u']);
    assert Ahead(modulus, patience, s', w) == Ahead(modulus, patience, s, w) - 1;
  }

  /** No access to the mutex raises the budget of a thread that stays waiting. */
  lemma AccessBudget(modulus: nat, patience: nat, n: nat, s: System, t: nat, op: L.Op, s': System, w: nat)
    requires modulus > 0 && Inv(modulus, patience, s) && Inv(modulus, patience, s') && Waits(s, w)
    requires Enabled(patience, s, t, Access(op)) && s' == Step(modulus, patience, s, t, Access(op))
    requires |S.Ready(s.sched)| <= n <= modulus
    ensures NoDearer(modulus, patience, n, s, s', w)
  {
    match op
    case TakeTicket => TakeBudget(modulus, patience, n, s, t, s', w);
    case Test => TestBudget(modulus, patience, n, s, t, s', w);
    case ReadTurn => ReadBudget(modulus, patience, n, s, t, s', w);
    case WriteTurn => WriteBudget(modulus, patience, n, s, t, s', w);
  }

  lemma RunnerIsHead(s: System, t: nat)
    requires S.Inv(s.sched) && s.Runs(t)
    ensures S.Ready(s.sched) != [] && S.Ready(s.sched)[0] == t && Place(S.Ready(s.sched), t) == 0
  {
  }

  /** A yield or an exit costs one turn; a create adds at most one. */
  function Cost(op: S.Op): int {
    if op.CreateOp? then -1 else 1
  }

  /** Who holds the lock is served. */
  lemma HolderIsServed(modulus: nat, patience: nat, s: System, t: nat, w: nat)
    requires modulus > 0 && Inv(modulus, patience, s) && Waits(s, w) && s.Inside(t)
    ensures t == Served(modulus, patience, s, w)
  {
    assert s.lock.taken[s.lock.pc[t].no] == t;
  }

  /** A scheduler call leaves tickets alone. */
  lemma SwitchKeepsTickets(modulus: nat, patience: nat, s: System, t: nat, op: S.Op, s': System, w: nat)
    requires modulus > 0 && Inv(modulus, patience, s) && Inv(modulus, patience, s') && Waits(s, w)
    requires Enabled(patience, s, t, Switch(op)) && s' == Step(modulus, patience, s, t, Switch(op))
    ensures Waits(s', w) && Ahead(modulus, patience, s', w) == Ahead(modulus, patience, s, w)
    ensures var u := Served(modulus, patience, s, w);
            Served(modulus, patience, s', w) == u && s'.lock.pc[u] == s.lock.pc[u]
  {
    var u := Served(modulus, patience, s, w);
    assert s.sched.nextId !in S.Ready(s.sched);
  }

  /** The running thread is served: it goes to the end of a round or into the next. */
  lemma LocalOfRunner(n: nat, s: System, s': System, t: nat)
    requires t in s.lock.pc && t in s'.lock.pc && s'.lock.pc[t] == s.lock.pc[t]
    requires t in S.Ready(s.sched) && t in S.Ready(s'.sched) && Place(S.Ready(s.sched), t) == 0
    requires |S.Ready(s'.sched)| <= n && !s'.acted
    requires L.Inside(s.lock.pc[t]) ==> s'.held == s.held + 1
    requires !L.Inside(s.lock.pc[t]) ==> s.acted
    ensures Local(n, s', t) <= Local(n, s, t) - 1
  {
  }

  /** Another thread is served: it changes its place. */
  lemma LocalOfOther(n: nat, s: System, s': System, u: nat, p': nat)
    requires u in s.lock.pc && u in s'.lock.pc && s'.lock.pc[u] == s.lock.pc[u]
    requires u in S.Ready(s.sched) && u in S.Ready(s'.sched) && Place(S.Ready(s'.sched), u) == p'
    requires Place(S.Ready(s.sched), u) > 0 && !s'.acted && s'.held == s.held
    ensures Local(n, s', u) == Local(n, s, u) + p' - Place(S.Ready(s.sched), u)
  {
  }

  lemma OwnSwitch(modulus: nat, patience: nat, n: nat, s: System, t: nat, op: S.Op, s': System, w: nat)
    requires modulus > 0 && Inv(modulus, patience, s) && Inv(modulus, patience, s') && Waits(s, w)
    requires Enabled(patience, s, t, Switch(op)) && s' == Step(modulus, patience, s, t, Switch(op))
    requires |S.Ready(s'.sched)| <= n && t == Served(modulus, patience, s, w)
    ensures Waits(s', w) && Budget(modulus, patience, n, s', w) <= Budget(modulus, patience, n, s, w) - 1
  {
    RunnerIsHead(s, t);
    SwitchKeepsTickets(modulus, patience, s, t, op, s', w);
    LocalOfRunner(n, s, s', t);
  }

  lemma OtherSwitch(modulus: nat, patience: nat, n: nat, s: System, t: nat, op: S.Op, s': System, w: nat)
    requires modulus > 0 && Inv(modulus, patience, s) && Inv(modulus, patience, s') && Waits(s, w)
    requires Enabled(patience, s, t, Switch(op)) && s' == Step(modulus, patience, s, t, Switch(op))
    requires t != Served(modulus, patience, s, w)
    ensures Waits(s', w) && Budget(modulus, patience, n, s', w) <= Budget(modulus, patience, n, s, w) - Cost(op)
  {
    RunnerIsHead(s, t);
    SwitchKeepsTickets(modulus, patience, s, t, op, s', w);
    if s.Inside(t) {
      HolderIsServed(modulus, patience, s, t, w);
    }
    var u := Served(modulus, patience, s, w);
    var p' := OtherMoves(s.sched, op, s'.sched, u, t);
    LocalOfOther(n, s, s', u, p');
  }

  lemma OtherMoves(s: S.Sched, op: S.Op, s': S.Sched, u: nat, t: nat) returns (p': nat)
    requires S.Inv(s) && S.Inv(s') && s.started && S.Next(s, op, s') && u in S.Ready(s) && S.Ready(s)[0] == t != u
    ensures u in S.Ready(s') && p' == Place(S.Ready(s'), u)
    ensures Place(S.Ready(s), u) > 0 && p' <= Place(S.Ready(s), u) - Cost(op)
  {
    p' := S.WaitStep(s, op, s', u, Place(S.Ready(s), u));
    PlaceIs(S.Ready(s'), u, p');
  }

  // ------------------------------------------------------------ runs

  /** sched[i] names the running thread and what it does. */
  ghost predicate IsRun(modulus: nat, patience: nat, ss: seq<System>, sched: seq<(nat, Op)>)
    requires modulus > 0
  {
    && |ss| == |sched| + 1
    && forall i {:trigger sched[i]} :: 0 <= i < |sched| ==>
                                         Next(modulus, patience, ss[i], sched[i].0, sched[i].1, ss[i + 1])
  }

  ghost predicate Next(modulus: nat, patience: nat, s: System, t: nat, op: Op, s': System)
    requires modulus > 0
  {
    Enabled(patience, s, t, op) && s' == Step(modulus, patience, s, t, op)
  }

  /** Never more than n threads at a time. */
  ghost predicate Crowd(ss: seq<System>, n: nat) {
    forall i :: 0 <= i < |ss| ==> |S.Ready(ss[i].sched)| <= n
  }

  /** Yields and exits, less creates. */
  function Turns(sched: seq<(nat, Op)>): int {
    if sched == [] then 0
    else Turns(sched[..|sched| - 1]) + Charge(sched[|sched| - 1].1)
  }

  lemma {:induction false} RunKeepsInv(modulus: nat, patience: nat, n: nat,
                                       ss: seq<System>, sched: seq<(nat, Op)>, i: nat)
    requires modulus > 0 && IsRun(modulus, patience, ss, sched) && Crowd(ss, n) && n <= modulus
    requires Inv(modulus, patience, ss[0]) && i < |ss|
    ensures Inv(modulus, patience, ss[i])
    decreases i
  {
    if i > 0 {
      RunKeepsInv(modulus, patience, n, ss, sched, i - 1);
      NextOf(modulus, patience, ss, sched, i - 1);
      StepKeepsInv(modulus, patience, ss[i - 1], sched[i - 1].0, sched[i - 1].1);
    }
  }

  lemma NextOf(modulus: nat, patience: nat, ss: seq<System>, sched: seq<(nat, Op)>, i: nat)
    requires modulus > 0 && IsRun(modulus, patience, ss, sched) && i < |sched|
    ensures Next(modulus, patience, ss[i], sched[i].0, sched[i].1, ss[i + 1])
  {
  }

  /** Step by step: the budget pays for every turn. */
  lemma StepBudget(modulus: nat, patience: nat, n: nat, s: System, t: nat, op: Op, s': System, w: nat)
    requires modulus > 0 && Inv(modulus, patience, s) && Next(modulus, patience, s, t, op, s') && Waits(s, w)
    requires |S.Ready(s.sched)| <= n && |S.Ready(s'.sched)| <= n <= modulus
    ensures Inv(modulus, patience, s')
    ensures Waits(s', w) || s'.Inside(w)
    ensures Waits(s', w) ==> Budget(modulus, patience, n, s', w) + Charge(op) <= Budget(modulus, patience, n, s, w)
  {
    StepKeepsInv(modulus, patience, s, t, op);
    match op
    case Access(access) =>
      AccessBudget(modulus, patience, n, s, t, access, s', w);
    case Switch(call) =>
      if t == Served(modulus, patience, s, w) {
        OwnSwitch(modulus, patience, n, s, t, call, s', w);
      } else {
        OtherSwitch(modulus, patience, n, s, t, call, s', w);
      }
  }

  function Charge(op: Op): int {
    if op.Switch? then Cost(op.call) else 0
  }

  lemma TurnsSnoc(sched: seq<(nat, Op)>, i: nat)
    requires i < |sched|
    ensures Turns(sched[..i + 1]) == Turns(sched[..i]) + Charge(sched[i].1)
  {
    assert sched[..i + 1][..i] == sched[..i];
  }

  lemma NextBudget(modulus: nat, patience: nat, n: nat, ss: seq<System>, sched: seq<(nat, Op)>, i: nat, w: nat)
    requires modulus > 0 && IsRun(modulus, patience, ss, sched) && Crowd(ss, n) && n <= modulus && i < |sched|
    requires Inv(modulus, patience, ss[i]) && Waits(ss[i], w) && !ss[i + 1].Inside(w)
    ensures Inv(modulus, patience, ss[i + 1]) && Waits(ss[i + 1], w)
    ensures Budget(modulus, patience, n, ss[i + 1], w) + Charge(sched[i].1) <= Budget(modulus, patience, n, ss[i], w)
  {
    NextOf(modulus, patience, ss, sched, i);
    StepBudget(modulus, patience, n, ss[i], sched[i].0, sched[i].1, ss[i + 1], w);
  }

  /** A thread that has not been let in by step i still waits, and has paid for the
      turns so far out of its budget. */
  lemma {:induction false} RunBudget(modulus: nat, patience: nat, n: nat,
                                     ss: seq<System>, sched: seq<(nat, Op)>, i: nat, w: nat)
    requires modulus > 0 && IsRun(modulus, patience, ss, sched) && Crowd(ss, n) && n <= modulus
    requires Inv(modulus, patience, ss[0]) && Waits(ss[0], w) && i < |ss|
    requires forall j :: 0 <= j <= i ==> !ss[j].Inside(w)
    ensures Inv(modulus, patience, ss[i]) && Waits(ss[i], w)
    ensures Budget(modulus, patience, n, ss[i], w) + Turns(sched[..i]) <= Budget(modulus, patience, n, ss[0], w)
    decreases i
  {
    if i > 0 {
      RunBudget(modulus, patience, n, ss, sched, i - 1, w);
      NextBudget(modulus, patience, n, ss, sched, i - 1, w);
      TurnsSnoc(sched, i - 1);
    }
  }

  /** As long as a thread is not let in, the turns do not exceed what is due. */
  lemma WaitedWithinDue(modulus: nat, patience: nat, n: nat, ss: seq<System>, sched: seq<(nat, Op)>, w: nat)
    requires modulus > 0 && IsRun(modulus, patience, ss, sched) && Crowd(ss, n) && n <= modulus
    requires Inv(modulus, patience, ss[0]) && Waits(ss[0], w)
    requires forall i :: 0 <= i < |ss| ==> !ss[i].Inside(w)
    ensures Turns(sched) <= Due(n, patience, Ahead(modulus, patience, ss[0], w))
  {
    assert sched[..|sched|] == sched;
    RunBudget(modulus, patience, n, ss, sched, |sched|, w);
    BudgetBounds(modulus, patience, n, ss[0], w);
    BudgetBounds(modulus, patience, n, ss[|sched|], w);
  }

  /** Starvation freedom. On every run with at most n threads at a time, a thread with
      d tickets ahead of its own is let in before yields and exits, less creates,
      exceed d rounds of (patience + 1) * n turns and n more. */
  lemma NobodyStarves(modulus: nat, patience: nat, n: nat, ss: seq<System>, sched: seq<(nat, Op)>, w: nat)
    requires modulus > 0 && IsRun(modulus, patience, ss, sched) && Crowd(ss, n) && n <= modulus
    requires Inv(modulus, patience, ss[0]) && Waits(ss[0], w)
    requires Turns(sched) > Due(n, patience, Ahead(modulus, patience, ss[0], w))
    ensures exists i :: 0 <= i < |ss| && ss[i].Inside(w)
  {
    if forall i :: 0 <= i < |ss| ==> !ss[i].Inside(w) {
      WaitedWithinDue(modulus, patience, n, ss, sched, w);
    }
  }

  /** The loop of lock: a test lets the thread in, or it may yield at once. A holder
      that has patience left, and a thread outside, may give up the processor too. */
  lemma SpinLoop(modulus: nat, patience: nat, s: System, t: nat)
    requires modulus > 0 && Inv(modulus, patience, s) && s.Runs(t)
    ensures Waits(s, t) ==> && Enabled(patience, s, t, Access(L.Test))
                            && var s' := Step(modulus, patience, s, t, Access(L.Test));
                               s'.Inside(t) || Enabled(patience, s', t, Switch(S.YieldOp))
    ensures s.Inside(t) && s.held < patience ==> Enabled(patience, s, t, Switch(S.YieldOp))
    ensures s.lock.pc[t].Idle? ==> forall op :: Enabled(patience, s, t, Switch(op))
  {
  }

  /** And no state is a dead end. */
  lemma SomeStep(modulus: nat, patience: nat, s: System) returns (t: nat, op: Op)
    requires modulus > 0 && Inv(modulus, patience, s) && S.Ready(s.sched) != []
    ensures Enabled(patience, s, t, op)
  {
    t := S.Ready(s.sched)[0];
    assert t in S.Ready(s.sched);
    op := match s.lock.pc[t]
      case Idle => Access(L.TakeTicket)
      case Spinning(_, _) => Access(L.Test)
      case Holding(_, _) => Access(L.ReadTurn)
      case Unlocking(_, _, _) => Access(L.WriteTurn);
  }

  // ------------------------------------------------------------ products

  function Times(a: nat, k: nat): nat {
    if a == 0 then 0 else k + Times(a - 1, k)
  }

  lemma {:induction false} TimesMono(a: nat, b: nat, k: nat)
    requires a <= b
    ensures Times(a, k) <= Times(b, k)
  {
    if a < b {
      TimesMono(a, b - 1, k);
    }
  }

  lemma {:induction false} TimesIs(a: nat, k: nat)
    ensures Times(a, k) == a * k
  {
    if a > 0 {
      TimesIs(a - 1, k);
    }
  }
}
