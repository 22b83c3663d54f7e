/** The two-level scheduler over thread ids. Both queues are listed head first. */
module SchedulerModel {
  import opened Options

  /** completed maps the ids of completed threads to their return values. */
  datatype Sched = Sched(
    q1: seq<nat>, q2: seq<nat>, current: Option<nat>, nextId: nat, started: bool, completed: map<nat, Option<int>>)

  const BOOT := Sched([], [], None, 1, false, map[])

  /** The order in which the scheduler looks at threads: queue 1, then queue 2. */
  function Ready(s: Sched): seq<nat> {
    s.q1 + s.q2
  }

  /** my_pthread_yield. When the head is not the running thread, it is dispatched;
      otherwise the running thread goes to the end of queue 2 and the new head is
      dispatched. */
  function Yield(s: Sched): Sched {
    if Ready(s) == [] then s
    else if s.current != Some(Ready(s)[0]) then s.(current := Some(Ready(s)[0]))
    else
      var r := if s.q1 != [] then s.(q1 := s.q1[1..], q2 := s.q2 + [s.q1[0]])
               else s.(q2 := s.q2[1..] + [s.q2[0]]);
      r.(current := Some(Ready(r)[0]))
  }

  /** The cases of yield by queue. */
  lemma YieldCases(s: Sched)
    ensures s.q1 == [] && s.q2 == [] ==> Yield(s) == s
    ensures s.q1 != [] && s.current != Some(s.q1[0]) ==> Yield(s) == s.(current := Some(s.q1[0]))
    ensures s.q1 != [] && s.current == Some(s.q1[0])
            ==> Yield(s) == s.(q1 := s.q1[1..], q2 := s.q2 + [s.q1[0]],
                               current := Some((s.q1[1..] + (s.q2 + [s.q1[0]]))[0]))
    ensures s.q1 == [] && s.q2 != [] && s.current != Some(s.q2[0]) ==> Yield(s) == s.(current := Some(s.q2[0]))
    ensures s.q1 == [] && s.q2 != [] && s.current == Some(s.q2[0])
            ==> Yield(s) == s.(q2 := s.q2[1..] + [s.q2[0]], current := Some((s.q2[1..] + [s.q2[0]])[0]))
  {
    if s.q1 == [] {
      assert Ready(s) == s.q2;
      if s.q2 != [] {
        assert s.q1 + (s.q2[1..] + [s.q2[0]]) == s.q2[1..] + [s.q2[0]];
      }
    }
  }

  /** The new thread enters queue 1. The very first call also registers the main
      thread, with id 0, as the running one. */
  function Enroll(s: Sched): Sched {
    if s.started then s.(q1 := s.q1 + [s.nextId], nextId := s.nextId + 1)
    else s.(q1 := s.q1 + [s.nextId, 0], nextId := s.nextId + 1, started := true, current := Some(0))
  }

  function Create(s: Sched): Sched {
    Yield(Enroll(s))
  }

  /** What exit removes: the head of queue 1 if it is the caller, else the head of
      queue 2, whoever that is. */
  function Remove(s: Sched, value: Option<int>): Sched
    requires s.current.Some?
  {
    if s.q1 != [] && s.current == Some(s.q1[0]) then
      s.(q1 := s.q1[1..], completed := s.completed[s.q1[0] := value], current := None)
    else if s.q2 != [] then
      s.(q2 := s.q2[1..], completed := s.completed[s.q2[0] := value], current := None)
    else
      s.(current := None)
  }

  function Exit(s: Sched, value: Option<int>): Sched
    requires s.current.Some?
  {
    Yield(Remove(s, value))
  }

  ghost predicate Distinct(xs: seq<nat>) {
    forall i, j :: 0 <= i < j < |xs| ==> xs[i] != xs[j]
  }

  /** Each created, uncompleted thread is queued exactly once. */
  ghost predicate Queued(s: Sched) {
    && Distinct(Ready(s))
    && 0 < s.nextId
    && (forall id: nat :: id in s.completed ==> id < s.nextId)
    && (if s.started then forall id: nat :: id in Ready(s) <==> id < s.nextId && id !in s.completed
        else s == BOOT)
  }

  /** And the running thread is the head. */
  ghost predicate Inv(s: Sched) {
    Queued(s) && s.current == if Ready(s) == [] then None else Some(Ready(s)[0])
  }

  function Rotate(xs: seq<nat>, k: nat): seq<nat>
    requires k <= |xs|
  {
    xs[k..] + xs[..k]
  }

  // ------------------------------------------------------------ one step

  /** A yield of the head is a left rotation, whatever the split into two queues. */
  lemma RotatesReady(s: Sched)
    requires Ready(s) != [] && s.current == Some(Ready(s)[0])
    ensures Ready(Yield(s)) == Rotate(Ready(s), 1)
  {
    YieldCases(s);
    var xs := Ready(s);
    if s.q1 != [] {
      assert xs[1..] == s.q1[1..] + s.q2 && xs[..1] == [s.q1[0]];
      assert Ready(Yield(s)) == s.q1[1..] + (s.q2 + [s.q1[0]]);
    } else {
      assert xs == s.q2 && xs[..1] == [s.q2[0]];
      assert Ready(Yield(s)) == s.q2[1..] + [s.q2[0]];
    }
  }

  lemma YieldRotates(s: Sched)
    requires Inv(s) && Ready(s) != []
    ensures Ready(Yield(s)) == Rotate(Ready(s), 1)
    ensures Yield(s).current == Some(Rotate(Ready(s), 1)[0])
    ensures Yield(s).completed == s.completed && Yield(s).nextId == s.nextId && Yield(s).started == s.started
  {
    RotatesReady(s);
  }

  lemma RotateInv(s: Sched, s': Sched)
    requires Inv(s) && Ready(s) != [] && Ready(s') == Rotate(Ready(s), 1) && s'.current == Some(Ready(s')[0])
    requires s'.completed == s.completed && s'.nextId == s.nextId && s'.started == s.started
    ensures Inv(s')
  {
    var xs, ys := Ready(s), Ready(s');
    forall i, j | 0 <= i < j < |ys|
      ensures ys[i] != ys[j]
    {
      assert ys[i] == xs[i + 1];
      assert ys[j] == if j + 1 < |xs| then xs[j + 1] else xs[0];
    }
    forall id: nat
      ensures id in ys <==> id in xs
    {
      if id in xs {
        var i :| 0 <= i < |xs| && xs[i] == id;
        assert ys[if i == 0 then |xs| - 1 else i - 1] == id;
      }
    }
  }

  lemma YieldKeepsInv(s: Sched)
    requires Inv(s)
    ensures Inv(Yield(s))
  {
    if Ready(s) != [] {
      YieldRotates(s);
      RotateInv(s, Yield(s));
    }
  }

  /** The ready list after a create: the new thread sits at the end of queue 1;
      when queue 1 was empty it runs at once and nobody is rotated. */
  lemma CreateReady(s: Sched)
    requires Inv(s) && s.started
    ensures s.q1 != [] ==> Ready(Create(s)) == s.q1[1..] + [s.nextId] + s.q2 + [s.q1[0]]
    ensures s.q1 == [] ==> Ready(Create(s)) == [s.nextId] + s.q2
    ensures Create(s).current == Some(Ready(Create(s))[0])
    ensures Create(s).completed == s.completed && Create(s).nextId == s.nextId + 1 && Create(s).started
  {
    var e := Enroll(s);
    if s.q1 != [] {
      assert e.q1[1..] == s.q1[1..] + [s.nextId] && e.q1[0] == s.q1[0];
    } else {
      assert e.q1 == [s.nextId];
      if s.q2 != [] {
        assert s.q2[0] == Ready(s)[0];
        assert s.q2[0] in Ready(s);
      }
    }
  }

  /** Yield repairs the running thread, whoever it was. */
  lemma YieldDispatches(s: Sched)
    requires Queued(s) && (Ready(s) == [] ==> s.current == None)
    ensures Inv(Yield(s)) && Yield(s).completed == s.completed
    ensures Yield(s).nextId == s.nextId && Yield(s).started == s.started
  {
    if Ready(s) != [] && s.current == Some(Ready(s)[0]) {
      YieldRotates(s);
      YieldKeepsInv(s);
    }
  }

  /** ys is xs with one new id at place n. */
  lemma Inserted(xs: seq<nat>, ys: seq<nat>, n: nat, x: nat)
    requires n <= |xs| && ys == xs[..n] + [x] + xs[n..] && Distinct(xs) && x !in xs
    ensures Distinct(ys)
    ensures forall id: nat :: id in ys <==> id in xs || id == x
  {
    assert xs == xs[..n] + xs[n..];
    forall i, j | 0 <= i < j < |ys|
      ensures ys[i] != ys[j]
    {
      assert ys[i] == if i < n then xs[i] else if i == n then x else xs[i - 1];
      assert ys[j] == if j < n then xs[j] else if j == n then x else xs[j - 1];
    }
  }

  lemma EnrollQueues(s: Sched)
    requires Queued(s)
    ensures Queued(Enroll(s)) && Enroll(s).started && Ready(Enroll(s)) != []
    ensures Enroll(s).completed == s.completed && Enroll(s).nextId == s.nextId + 1
  {
    if s.started {
      var xs := Ready(s);
      assert xs[..|s.q1|] == s.q1 && xs[|s.q1|..] == s.q2;
      assert s.nextId !in xs;
      Inserted(xs, Ready(Enroll(s)), |s.q1|, s.nextId);
    } else {
      assert Ready(Enroll(s)) == [1, 0];
    }
  }

  lemma CreateKeepsInv(s: Sched)
    requires Inv(s)
    ensures Inv(Create(s)) && Create(s).completed == s.completed
    ensures Create(s).nextId == s.nextId + 1 && Create(s).started
  {
    EnrollQueues(s);
    YieldDispatches(Enroll(s));
  }

  /** With nobody running, yield dispatches the head. */
  lemma YieldFromNone(s: Sched)
    requires s.current == None
    ensures Yield(s) == s.(current := if Ready(s) == [] then None else Some(Ready(s)[0]))
  {
  }

  /** What exit removes is the caller. */
  lemma RemoveTakesCaller(s: Sched, value: Option<int>)
    requires Inv(s) && s.current.Some?
    ensures Ready(s) != [] && s.current == Some(Ready(s)[0])
    ensures Ready(Remove(s, value)) == Ready(s)[1..]
    ensures Remove(s, value).completed == s.completed[s.current.value := value]
  {
    if s.q1 != [] {
      assert Ready(s)[1..] == s.q1[1..] + s.q2;
    } else {
      assert Ready(s) == s.q2;
    }
  }

  /** Exit always removes and completes the thread that called it. */
  lemma ExitCompletesCaller(s: Sched, value: Option<int>)
    requires Inv(s) && s.current.Some?
    ensures Ready(s) != [] && s.current == Some(Ready(s)[0])
    ensures Ready(Exit(s, value)) == Ready(s)[1..]
    ensures Exit(s, value).completed == s.completed[s.current.value := value]
    ensures Exit(s, value).current == if Ready(Exit(s, value)) == [] then None else Some(Ready(Exit(s, value))[0])
    ensures Exit(s, value).nextId == s.nextId && Exit(s, value).started == s.started
  {
    RemoveTakesCaller(s, value);
    YieldFromNone(Remove(s, value));
  }

  /** The thread that exit takes off a queue is the caller, and is nowhere else. */
  ghost predicate CallerAtHead(s: Sched) {
    if s.q1 != [] then s.current == Some(s.q1[0]) && s.q1[0] !in s.q1[1..] && s.q1[0] !in s.q2
    else s.q2 != [] && s.current == Some(s.q2[0]) && s.q2[0] !in s.q2[1..]
  }

  lemma HeadOnce(s: Sched)
    requires Inv(s) && s.current.Some?
    ensures CallerAtHead(s)
  {
    var xs := Ready(s);
    assert xs != [] && s.current == Some(xs[0]);
    assert xs[0] !in xs[1..];
    if s.q1 != [] {
      assert xs[1..] == s.q1[1..] + s.q2;
    } else {
      assert xs == s.q2;
    }
  }

  lemma ExitKeepsInv(s: Sched, value: Option<int>)
    requires Inv(s) && s.current.Some?
    ensures Inv(Exit(s, value))
  {
    ExitCompletesCaller(s, value);
    var xs, ys := Ready(s), Ready(Exit(s, value));
    assert xs[0] in xs;
    forall id: nat
      ensures id in ys <==> id in xs && id != xs[0]
    {
      if id in xs && id != xs[0] {
        var i :| 0 <= i < |xs| && xs[i] == id;
        assert ys[i - 1] == id;
      }
    }
  }

  // ------------------------------------------------------------ the two queues

  /** The first create queues the new thread before the main thread, and runs it. */
  lemma FirstCreate()
    ensures Create(BOOT) == Sched([1, 0], [], Some(1), 2, true, map[])
  {
  }

  /** Later creates: the new thread ends queue 1, and the head of queue 1, if there
      was one, goes down to queue 2. */
  lemma CreateQueues(s: Sched)
    requires Inv(s) && s.started
    ensures s.q1 != [] ==> Create(s).q1 == s.q1[1..] + [s.nextId] && Create(s).q2 == s.q2 + [s.q1[0]]
    ensures s.q1 == [] ==> Create(s).q1 == [s.nextId] && Create(s).q2 == s.q2
    ensures Create(s).current == Some(Create(s).q1[0])
  {
    YieldCases(Enroll(s));
    if s.q1 != [] {
      assert s.current == Some(s.q1[0]);
    } else if s.q2 != [] {
      assert s.q2[0] == Ready(s)[0];
      assert s.q2[0] in Ready(s);
    }
  }

  /** A yield takes the running thread down to queue 2, or around queue 2. */
  lemma YieldQueues(s: Sched)
    requires Inv(s) && Ready(s) != []
    ensures s.q1 != [] ==> Yield(s).q1 == s.q1[1..] && Yield(s).q2 == s.q2 + [s.q1[0]]
    ensures s.q1 == [] ==> Yield(s).q1 == [] && Yield(s).q2 == s.q2[1..] + [s.q2[0]]
  {
    YieldCases(s);
  }

  /** An exit takes the running thread off its queue and moves nobody else. */
  lemma ExitQueues(s: Sched, value: Option<int>)
    requires Inv(s) && s.current.Some?
    ensures s.q1 != [] ==> Exit(s, value).q1 == s.q1[1..] && Exit(s, value).q2 == s.q2
    ensures s.q1 == [] ==> s.q2 != [] && Exit(s, value).q1 == [] && Exit(s, value).q2 == s.q2[1..]
  {
    YieldFromNone(Remove(s, value));
  }

  /** Whoever is in queue 2 stays there until it exits. */
  lemma StaysLow(s: Sched, op: Op, s': Sched, id: nat)
    requires Inv(s) && Next(s, op, s') && id in s.q2
    ensures id in s'.q2 || id in s'.completed
  {
    match op
    case CreateOp =>
      assert Ready(s) != [];
      CreateQueues(s);
    case YieldOp =>
      assert Ready(s) != [];
      YieldQueues(s);
      if s.q1 == [] {
        assert s.q2 == [s.q2[0]] + s.q2[1..];
      }
    case ExitOp(value) =>
      ExitQueues(s, value);
      ExitCompletesCaller(s, value);
      if s.q1 == [] {
        assert s.q2 == [s.q2[0]] + s.q2[1..];
      }
  }

  /** On every run a thread that has gone down to queue 2 never returns to queue 1. */
  lemma {:induction false} DemotedForGood(ss: seq<Sched>, ops: seq<Op>, i: nat, j: nat, id: nat)
    requires IsRun(ss, ops) && Inv(ss[0]) && i <= j < |ss| && id in ss[i].q2
    ensures id in ss[j].q2 || id in ss[j].completed
    ensures id !in ss[j].q1
    decreases j
  {
    RunKeepsInv(ss, ops, j);
    if i < j {
      DemotedForGood(ss, ops, i, j - 1, id);
      RunGrows(ss, ops, j - 1);
      if id in ss[j - 1].q2 {
        RunKeepsInv(ss, ops, j - 1);
        NextOf(ss, ops, j - 1);
        StaysLow(ss[j - 1], ops[j - 1], ss[j], id);
      }
    }
    NotInFirst(ss[j], id);
  }

  lemma NotInFirst(s: Sched, id: nat)
    requires Inv(s) && (id in s.q2 || id in s.completed)
    ensures id !in s.q1
  {
    var xs := Ready(s);
    assert id in s.completed ==> id !in xs;
    var j := if id in s.q2 then var j :| 0 <= j < |s.q2| && s.q2[j] == id; j else 0;
    assert id in s.q2 ==> xs[|s.q1| + j] == id;
    forall i | 0 <= i < |s.q1|
      ensures s.q1[i] != id
    {
      assert xs[i] == s.q1[i] && xs[i] in xs;
    }
  }

  // ------------------------------------------------------------ runs

  datatype Op = CreateOp | YieldOp | ExitOp(value: Option<int>)

  predicate Enabled(s: Sched, op: Op) {
    op.ExitOp? ==> s.current.Some?
  }

  function Apply(s: Sched, op: Op): Sched
    requires Enabled(s, op)
  {
    match op
    case CreateOp => Create(s)
    case YieldOp => Yield(s)
    case ExitOp(value) => Exit(s, value)
  }

  ghost predicate Next(s: Sched, op: Op, s': Sched) {
    Enabled(s, op) && s' == Apply(s, op)
  }

  ghost predicate IsRun(ss: seq<Sched>, ops: seq<Op>) {
    && |ss| == |ops| + 1
    && forall i {:trigger ops[i]} :: 0 <= i < |ops| ==> Next(ss[i], ops[i], ss[i + 1])
  }

  /** Completed threads stay completed, with their values, and a started scheduler
      stays started. */
  ghost predicate Grows(s: Sched, s': Sched) {
    && (forall id: nat :: id in s.completed ==> id in s'.completed && s'.completed[id] == s.completed[id])
    && (s.started ==> s'.started)
  }

  lemma StepKeepsInv(s: Sched, op: Op, s': Sched)
    requires Inv(s) && Next(s, op, s')
    ensures Inv(s') && Grows(s, s')
    ensures op == CreateOp ==> s'.started
  {
    match op
    case CreateOp =>
      CreateKeepsInv(s);
    case YieldOp =>
      YieldKeepsInv(s);
      if Ready(s) != [] {
        YieldRotates(s);
      }
    case ExitOp(value) =>
      ExitKeepsInv(s, value);
      ExitCompletesCaller(s, value);
      assert s.current.value in Ready(s);
  }

  /** In every state of every run each created, uncompleted thread is queued
      exactly once and the head runs. */
  lemma {:induction false} RunKeepsInv(ss: seq<Sched>, ops: seq<Op>, i: nat)
    requires IsRun(ss, ops) && Inv(ss[0]) && i < |ss|
    ensures Inv(ss[i])
    decreases i
  {
    if i > 0 {
      RunKeepsInv(ss, ops, i - 1);
      NextOf(ss, ops, i - 1);
      StepKeepsInv(ss[i - 1], ops[i - 1], ss[i]);
    }
  }

  /** One more step of a run. */
  lemma ExtendRun(ss: seq<Sched>, ops: seq<Op>, n: nat, s: Sched)
    requires n < |ops| && IsRun(ss, ops[..n]) && Next(ss[n], ops[n], s)
    ensures IsRun(ss + [s], ops[..n + 1])
  {
    var ss', ops' := ss + [s], ops[..n + 1];
    forall i | 0 <= i < |ops'|
      ensures Next(ss'[i], ops'[i], ss'[i + 1])
    {
      if i < n {
        assert ops'[i] == ops[..n][i];
      }
    }
  }

  lemma NextOf(ss: seq<Sched>, ops: seq<Op>, i: nat)
    requires IsRun(ss, ops) && i < |ops|
    ensures Next(ss[i], ops[i], ss[i + 1])
  {
  }

  lemma RunGrows(ss: seq<Sched>, ops: seq<Op>, i: nat)
    requires IsRun(ss, ops) && Inv(ss[0]) && i < |ops|
    ensures Grows(ss[i], ss[i + 1])
  {
    RunKeepsInv(ss, ops, i);
    NextOf(ss, ops, i);
    StepKeepsInv(ss[i], ops[i], ss[i + 1]);
  }

  lemma GrowsTrans(a: Sched, b: Sched, c: Sched)
    requires Grows(a, b) && Grows(b, c)
    ensures Grows(a, c)
  {
  }

  /** A thread that has completed stays completed and keeps its return value. */
  lemma {:induction false} CompletedForGood(ss: seq<Sched>, ops: seq<Op>, i: nat, j: nat)
    requires IsRun(ss, ops) && Inv(ss[0]) && i <= j < |ss|
    ensures Grows(ss[i], ss[j])
    decreases j
  {
    if i < j {
      CompletedForGood(ss, ops, i, j - 1);
      RunGrows(ss, ops, j - 1);
      GrowsTrans(ss[i], ss[j - 1], ss[j]);
    }
  }

  /** The value given to exit is what a join finds at any later time. */
  lemma ExitValueLasts(ss: seq<Sched>, ops: seq<Op>, i: nat, j: nat, id: nat)
    requires IsRun(ss, ops) && Inv(ss[0]) && i < j < |ss|
    requires ops[i].ExitOp? && ss[i].current == Some(id)
    ensures id in ss[j].completed && ss[j].completed[id] == ops[i].value
  {
    RunKeepsInv(ss, ops, i);
    NextOf(ss, ops, i);
    ExitCompletesCaller(ss[i], ops[i].value);
    CompletedForGood(ss, ops, i + 1, j);
  }

  lemma BootInv()
    ensures Inv(BOOT)
  {
  }

  // ------------------------------------------------------------ round robin

  /** k yields rotate the ready list by k. */
  lemma {:induction false} YieldsRotate(ss: seq<Sched>, ops: seq<Op>, k: nat)
    requires IsRun(ss, ops) && Inv(ss[0]) && k < |ss|
    requires forall i :: 0 <= i < k ==> ops[i] == YieldOp
    requires k <= |Ready(ss[0])|
    ensures Ready(ss[k]) == Rotate(Ready(ss[0]), k)
    decreases k
  {
    var xs := Ready(ss[0]);
    if k > 0 {
      YieldsRotate(ss, ops, k - 1);
      RunKeepsInv(ss, ops, k - 1);
      NextOf(ss, ops, k - 1);
      YieldRotates(ss[k - 1]);
      RotateOnce(xs, k - 1);
    } else {
      assert Rotate(xs, 0) == xs;
    }
  }

  lemma RotateOnce(xs: seq<nat>, k: nat)
    requires k < |xs|
    ensures |Rotate(xs, k)| == |xs| && Rotate(Rotate(xs, k), 1) == Rotate(xs, k + 1)
  {
    assert Rotate(xs, k)[0] == xs[k];
    assert Rotate(xs, k)[1..] == xs[k + 1..] + xs[..k];
    assert xs[..k + 1] == xs[..k] + [xs[k]];
  }

  /** n consecutive yields over n threads run each of them exactly once: after k
      of them thread k of the list runs, and after n the list is as before. */
  lemma YieldRound(ss: seq<Sched>, ops: seq<Op>)
    requires IsRun(ss, ops) && Inv(ss[0]) && |ops| == |Ready(ss[0])|
    requires forall i :: 0 <= i < |ops| ==> ops[i] == YieldOp
    ensures forall k :: 0 <= k < |ops| ==> ss[k].current == Some(Ready(ss[0])[k])
    ensures forall id: nat :: id in Ready(ss[0]) ==> exists k :: 0 <= k < |ops| && ss[k].current == Some(id)
    ensures forall k, k' :: 0 <= k < k' < |ops| ==> ss[k].current != ss[k'].current
    ensures Ready(ss[|ops|]) == Ready(ss[0])
  {
    var xs := Ready(ss[0]);
    forall k | 0 <= k < |ops|
      ensures ss[k].current == Some(xs[k])
    {
      YieldsRotate(ss, ops, k);
      RunKeepsInv(ss, ops, k);
      assert Rotate(xs, k)[0] == xs[k];
    }
    YieldsRotate(ss, ops, |ops|);
    assert Rotate(xs, |xs|) == xs;
    forall id: nat | id in xs
      ensures exists k :: 0 <= k < |ops| && ss[k].current == Some(id)
    {
      var k :| 0 <= k < |xs| && xs[k] == id;
      assert ss[k].current == Some(xs[k]);
    }
  }

  // ------------------------------------------------------------ bounded waiting

  function Creates(ops: seq<Op>): nat {
    if ops == [] then 0 else Creates(ops[..|ops| - 1]) + if ops[|ops| - 1] == CreateOp then 1 else 0
  }

  ghost predicate Waits(s: Sched, id: nat, p: nat) {
    0 < p < |Ready(s)| && Ready(s)[p] == id
  }

  /** One step of a waiting thread: a yield or an exit of another thread brings it
      one place forward, a create sets it back by at most one. */
  lemma WaitStep(s: Sched, op: Op, s': Sched, id: nat, p: nat) returns (p': nat)
    requires Inv(s) && s.started && Next(s, op, s') && Waits(s, id, p)
    ensures p' < |Ready(s')| && Ready(s')[p'] == id
    ensures op != CreateOp ==> p' == p - 1
    ensures op == CreateOp ==> p' <= p + 1
  {
    match op
    case YieldOp =>
      YieldRotates(s);
      p' := p - 1;
    case ExitOp(value) =>
      ExitCompletesCaller(s, value);
      p' := p - 1;
    case CreateOp =>
      CreateReady(s);
      p' := if s.q1 == [] then p + 1 else if p < |s.q1| then p - 1 else p;
  }

  /** The same for step i of a run, when the thread does not run after it. */
  lemma WaitNext(ss: seq<Sched>, ops: seq<Op>, id: nat, p: nat, i: nat) returns (q: nat)
    requires IsRun(ss, ops) && Inv(ss[0]) && ss[0].started && i < |ops|
    requires Waits(ss[i], id, p) && ss[i + 1].current != Some(id)
    ensures Waits(ss[i + 1], id, q)
    ensures ops[i] != CreateOp ==> q == p - 1
    ensures ops[i] == CreateOp ==> q <= p + 1
  {
    RunKeepsInv(ss, ops, i);
    CompletedForGood(ss, ops, 0, i);
    NextOf(ss, ops, i);
    q := WaitStep(ss[i], ops[i], ss[i + 1], id, p);
    StepKeepsInv(ss[i], ops[i], ss[i + 1]);
  }

  /** Either the thread has run by step i, or its place plus the yields and exits
      so far is at most its first place plus the creates so far. */
  lemma {:induction false} WaitBound(ss: seq<Sched>, ops: seq<Op>, id: nat, p: nat, i: nat) returns (q: nat)
    requires IsRun(ss, ops) && Inv(ss[0]) && ss[0].started && i < |ss|
    requires p < |Ready(ss[0])| && Ready(ss[0])[p] == id
    requires forall j :: 0 <= j <= i ==> ss[j].current != Some(id)
    ensures Waits(ss[i], id, q)
    ensures q + (i - Creates(ops[..i])) <= p + Creates(ops[..i])
    decreases i
  {
    if i == 0 {
      q := p;
    } else {
      var q0 := WaitBound(ss, ops, id, p, i - 1);
      q := WaitNext(ss, ops, id, q0, i - 1);
      assert ops[..i][..i - 1] == ops[..i - 1];
    }
  }

  /** A thread at place p has run by the time yields and exits reach p plus the
      number of creates. */
  lemma BoundedWaiting(ss: seq<Sched>, ops: seq<Op>, id: nat, p: nat)
    requires IsRun(ss, ops) && Inv(ss[0]) && ss[0].started
    requires p < |Ready(ss[0])| && Ready(ss[0])[p] == id
    requires |ops| - Creates(ops) >= p + Creates(ops)
    ensures exists i :: 0 <= i < |ss| && ss[i].current == Some(id)
  {
    assert ops[..|ops|] == ops;
    if forall i :: 0 <= i < |ss| ==> ss[i].current != Some(id) {
      var q := WaitBound(ss, ops, id, p, |ops|);
    }
  }
}
