/** The user-level thread scheduler: two linked queues, the running thread, and
    the records of all threads that have not been joined. */
module Scheduler {
  import opened Options
  import opened ThreadQueue
  import Model = SchedulerModel

  datatype ThreadState = ACTIVE | WAITING | COMPLETED

  datatype Thread = Thread(state: ThreadState, returnValue: Option<int>)

  class Scheduler {
    const q1: Queue
    const q2: Queue
    var current: Option<nat>
    var threadIDS: nat
    var isInitialized: bool
    var threads: map<nat, Thread>
    /** Every thread that has exited, with its return value, joined or not. */
    ghost var finished: map<nat, Option<int>>

    constructor ()
      ensures Valid() && View() == Model.BOOT
      ensures fresh(q1) && fresh(q2) && fresh(q1.repr) && fresh(q2.repr)
    {
      q1 := new Queue();
      q2 := new Queue();
      current := None;
      threadIDS := 1;
      isInitialized := false;
      threads := map[];
      finished := map[];
    }

    /** The nodes of a queue carry the queue's priority. */
    ghost predicate Carries(q: Queue, priority: int)
      reads q, q.repr
    {
      forall i :: 0 <= i < |q.nodes| ==> q.nodes[i] in q.repr && q.nodes[i].priority == priority
    }

    ghost predicate AllActive(ids: seq<nat>)
      reads this`threads
    {
      forall i :: 0 <= i < |ids| ==> IsActive(ids[i])
    }

    /** Active, and without a return value so far. */
    ghost predicate IsActive(id: nat)
      reads this`threads
    {
      id in threads && threads[id] == Thread(ACTIVE, None)
    }

    ghost predicate Shaped()
      reads this`threads, q1, q2, q1.repr, q2.repr
    {
      && q1 != q2 && q1.Valid() && q2.Valid()
      && q1.repr !! q2.repr
      && Carries(q1, 1) && Carries(q2, 2)
      && AllActive(q1.ids) && AllActive(q2.ids)
    }

    /** What holds between calls: the records are right, every uncompleted thread is
        queued once, and the head runs. */
    ghost predicate Valid()
      reads this, q1, q2, q1.repr, q2.repr
    {
      Shaped() && Registered() && Model.Inv(View())
    }

    /** Ids were handed out in order, and a record says whether its thread has exited. */
    ghost predicate Registered()
      reads this`threads, this`finished, this`threadIDS, this`isInitialized
    {
      && 1 <= threadIDS
      && (forall id :: id in threads || id in finished ==> isInitialized && id < threadIDS)
      && (forall id :: id in threads ==> threads[id] == RecordOf(id))
    }

    /** The record of a thread that has not been joined. */
    ghost function RecordOf(id: nat): Thread
      reads this`finished
    {
      if id in finished then Thread(COMPLETED, finished[id]) else Thread(ACTIVE, None)
    }

    ghost function View(): Model.Sched
      reads this, q1, q2
    {
      Model.Sched(q1.ids, q2.ids, current, threadIDS, isInitialized, finished)
    }

    // -------------------------------------------------------- yield

    /** A node that is in neither queue and carries an active thread. */
    ghost predicate Loose(node: Node)
      reads this`threads, q1, q2
    {
      node !in q1.repr && node !in q2.repr && IsActive(node.thread)
    }

    method TakeFirst() returns (node: Node)
      requires Shaped() && q1.ids != []
      modifies q1, q1.repr`next
      ensures Shaped() && Loose(node) && node in old(q1.repr) && q1.repr == old(q1.repr) - {node}
      ensures node.thread == old(q1.ids[0]) && q1.ids == old(q1.ids)[1..]
    {
      node := q1.Dequeue();
    }

    method TakeSecond() returns (node: Node)
      requires Shaped() && q2.ids != []
      modifies q2, q2.repr`next
      ensures Shaped() && Loose(node) && node in old(q2.repr) && q2.repr == old(q2.repr) - {node}
      ensures node.thread == old(q2.ids[0]) && q2.ids == old(q2.ids)[1..]
    {
      node := q2.Dequeue();
    }

    /** An active thread that has had its turn goes to the end of queue 2. */
    method Requeue(node: Node)
      requires Shaped() && Loose(node)
      modifies this`threads, q2, node
      ensures Shaped() && q2.repr == old(q2.repr) + {node} && q2.ids == old(q2.ids) + [node.thread]
      ensures threads == old(threads)
    {
      if threads[node.thread].state == ACTIVE && threads[node.thread].state != COMPLETED {
        Activate(node.thread);
        node.priority := 2;
        q2.Enqueue(node);
      }
    }

    /** `state = ACTIVE` on a thread of a queue changes nothing, in particular it
        never revives a completed one. */
    method Activate(id: nat)
      requires IsActive(id)
      modifies this`threads
      ensures threads == old(threads)
    {
      threads := threads[id := threads[id].(state := ACTIVE)];
    }

    /** yield, running thread in queue 1: it leaves for the end of queue 2. */
    method YieldFirst()
      requires Shaped() && q1.ids != []
      modifies this`current, this`threads, q1, q2, q1.repr
      ensures Shaped() && threads == old(threads)
      ensures q1.ids == old(q1.ids)[1..] && q2.ids == old(q2.ids + [q1.ids[0]])
      ensures current == Some((q1.ids + q2.ids)[0])
      ensures q1.repr <= old(q1.repr) && q2.repr <= old(q1.repr + q2.repr)
    {
      var node := TakeFirst();
      Requeue(node);
      RunHead();
    }

    method Dispatch(next: Node)
      requires IsActive(next.thread)
      modifies this`current, this`threads
      ensures threads == old(threads) && current == Some(next.thread)
    {
      Activate(next.thread);
      current := Some(next.thread);
    }

    /** The head of queue 1, or of queue 2 when queue 1 is empty, is dispatched. */
    method RunHead()
      requires Shaped() && (q1.ids != [] || q2.ids != [])
      modifies this`current, this`threads
      ensures threads == old(threads) && current == Some((q1.ids + q2.ids)[0])
    {
      var next := q1.Peek();
      if next == null {
        next := q2.Peek();
      }
      Dispatch(next);
    }

    /** yield, running thread in queue 2: it goes back to the end of queue 2. */
    method YieldSecond()
      requires Shaped() && q1.ids == [] && q2.ids != []
      modifies this`current, this`threads, q2, q2.repr
      ensures Shaped() && threads == old(threads)
      ensures q2.ids == old(q2.ids[1..] + [q2.ids[0]])
      ensures current == Some(q2.ids[0])
      ensures q2.repr <= old(q2.repr)
    {
      var node := TakeSecond();
      Requeue(node);
      var next := q2.Peek();
      Dispatch(next);
    }

    method Yield()
      requires Shaped()
      modifies this`current, this`threads, q1, q2, q1.repr, q2.repr
      ensures Shaped() && View() == Model.Yield(old(View())) && threads == old(threads)
      ensures q1.repr <= old(q1.repr) && q2.repr <= old(q1.repr + q2.repr)
    {
      Model.YieldCases(View());
      var headNode := q1.Peek();
      if headNode != null {
        if current != Some(headNode.thread) {
          current := Some(headNode.thread);
        } else {
          YieldFirst();
        }
      } else {
        YieldLower();
      }
    }

    /** The branch of yield for an empty queue 1. */
    method YieldLower()
      requires Shaped() && q1.ids == []
      modifies this`current, this`threads, q2, q2.repr
      ensures Shaped() && View() == Model.Yield(old(View())) && threads == old(threads)
      ensures q2.repr <= old(q2.repr)
    {
      Model.YieldCases(View());
      var headNode := q2.Peek();
      if headNode != null {
        if current != Some(headNode.thread) {
          current := Some(headNode.thread);
        } else {
          YieldSecond();
        }
      }
    }

    /** The timer signal, and an explicit yield by the running thread. */
    method TimerHandler()
      requires Valid()
      modifies this`current, this`threads, q1, q2, q1.repr, q2.repr
      ensures Valid() && View() == Model.Yield(old(View())) && threads == old(threads)
      ensures q1.repr <= old(q1.repr) && q2.repr <= old(q1.repr + q2.repr)
    {
      Model.YieldKeepsInv(View());
      Yield();
    }

    // -------------------------------------------------------- create

    /** my_pthread_create: the new thread enters queue 1; the first call also
        enrolls the main thread behind it, as the running one. */
    method Create() returns (id: nat)
      requires Valid()
      modifies this, q1, q2, q1.repr, q2.repr
      ensures Valid() && View() == Model.Create(old(View()))
      ensures id == old(threadIDS) && id !in old(threads) && IsActive(id)
      ensures forall k :: k in old(threads) ==> k in threads && threads[k] == old(threads)[k]
      ensures fresh(q1.repr - old(q1.repr)) && fresh(q2.repr - old(q1.repr + q2.repr))
    {
      Model.CreateKeepsInv(View());
      id := Enroll();
      Yield();
    }

    method Enroll() returns (id: nat)
      requires Shaped() && Registered()
      modifies this, q1
      ensures Shaped() && Registered() && View() == Model.Enroll(old(View()))
      ensures id == old(threadIDS) && IsActive(id) && id !in old(threads)
      ensures forall k :: k in old(threads) ==> k in threads && threads[k] == old(threads)[k]
      ensures fresh(q1.repr - old(q1.repr))
    {
      id := EnrollNew();
      if !isInitialized {
        EnrollMain();
      }
    }

    /** The new thread gets the next id. */
    method EnrollNew() returns (id: nat)
      requires Shaped() && Registered()
      modifies this`threads, this`threadIDS, q1
      ensures Shaped() && id == old(threadIDS) && id !in old(threads)
      ensures threads == old(threads)[id := Thread(ACTIVE, None)]
      ensures View() == old(View()).(q1 := old(q1.ids) + [id], nextId := id + 1)
      ensures fresh(q1.repr - old(q1.repr))
    {
      id := threadIDS;
      threadIDS := threadIDS + 1;
      AddThread(id);
    }

    /** The main thread enters behind the first created one and is the running thread. */
    method EnrollMain()
      requires Shaped() && !isInitialized && 0 !in threads
      modifies this`isInitialized, this`current, this`threads, q1
      ensures Shaped() && threads == old(threads)[0 := Thread(ACTIVE, None)]
      ensures View() == old(View()).(q1 := old(q1.ids) + [0], started := true, current := Some(0))
      ensures fresh(q1.repr - old(q1.repr))
    {
      isInitialized := true;
      current := Some(0);
      AddThread(0);
    }

    /** A new active record, enqueued in queue 1. */
    method AddThread(id: nat)
      requires Shaped() && id !in threads
      modifies this`threads, q1
      ensures Shaped()
      ensures q1.ids == old(q1.ids) + [id] && threads == old(threads)[id := Thread(ACTIVE, None)]
      ensures fresh(q1.repr - old(q1.repr))
    {
      Register(id);
      var node := new Node(id, 1);
      q1.Enqueue(node);
    }

    method Register(id: nat)
      requires Shaped() && id !in threads
      modifies this`threads
      ensures Shaped() && threads == old(threads)[id := Thread(ACTIVE, None)]
    {
      threads := threads[id := Thread(ACTIVE, None)];
    }

    // -------------------------------------------------------- exit and join

    /** my_pthread_exit. The branch for queue 2 removes its head without looking
        at the id; the invariant makes that head the caller. */
    method Exit(value: Option<int>)
      requires Valid() && current.Some?
      modifies this, q1, q2, q1.repr, q2.repr
      ensures Valid() && View() == Model.Exit(old(View()), value)
      ensures old(current.value in threads)
      ensures threads == old(threads)[old(current.value) := Thread(COMPLETED, value)]
      ensures q1.repr <= old(q1.repr) && q2.repr <= old(q1.repr + q2.repr)
    {
      Model.HeadOnce(View());
      Model.ExitKeepsInv(View(), value);
      RemoveCaller(value);
      Yield();
    }

    method RemoveCaller(value: Option<int>)
      requires Shaped() && Registered() && current.Some? && Model.CallerAtHead(View())
      modifies this`threads, this`finished, this`current, q1, q2, q1.repr`next, q2.repr`next
      ensures Shaped() && Registered() && View() == Model.Remove(old(View()), value)
      ensures old(current.value in threads)
      ensures threads == old(threads)[old(current.value) := Thread(COMPLETED, value)]
      ensures q1.repr <= old(q1.repr) && q2.repr <= old(q2.repr)
    {
      var head1 := q1.Peek();
      var head2 := q2.Peek();
      if head1 != null && current == Some(head1.thread) {
        FinishFirst(value);
      } else if head2 != null {
        FinishSecond(value);
      }
    }

    method FinishFirst(value: Option<int>)
      requires Shaped() && Registered() && q1.ids != [] && q1.ids[0] !in q1.ids[1..] && q1.ids[0] !in q2.ids
      modifies this`threads, this`finished, this`current, q1, q1.repr`next
      ensures Shaped() && Registered() && q1.repr <= old(q1.repr)
      ensures View() == old(View()).(q1 := old(q1.ids)[1..], current := None,
                                     completed := old(View().completed)[old(q1.ids[0]) := value])
      ensures old(q1.ids[0] in threads) && threads == old(threads)[old(q1.ids[0]) := Thread(COMPLETED, value)]
    {
      var removed := TakeFirst();
      Complete(removed.thread, value);
      current := None;
    }

    method FinishSecond(value: Option<int>)
      requires Shaped() && Registered() && q2.ids != [] && q2.ids[0] !in q2.ids[1..] && q2.ids[0] !in q1.ids
      modifies this`threads, this`finished, this`current, q2, q2.repr`next
      ensures Shaped() && Registered() && q2.repr <= old(q2.repr)
      ensures View() == old(View()).(q2 := old(q2.ids)[1..], current := None,
                                     completed := old(View().completed)[old(q2.ids[0]) := value])
      ensures old(q2.ids[0] in threads) && threads == old(threads)[old(q2.ids[0]) := Thread(COMPLETED, value)]
    {
      var removed := TakeSecond();
      Complete(removed.thread, value);
      current := None;
    }

    /** A thread that is in no queue any more completes. */
    method Complete(id: nat, value: Option<int>)
      requires Shaped() && Registered() && IsActive(id) && id !in q1.ids && id !in q2.ids
      modifies this`threads, this`finished
      ensures Shaped() && Registered()
      ensures threads == old(threads)[id := Thread(COMPLETED, value)] && finished == old(finished)[id := value]
    {
      Mark(id, value);
      finished := finished[id := value];
    }

    method Mark(id: nat, value: Option<int>)
      requires Shaped() && IsActive(id) && id !in q1.ids && id !in q2.ids
      modifies this`threads
      ensures Shaped() && threads == old(threads)[id := Thread(COMPLETED, value)]
    {
      threads := threads[id := threads[id].(state := COMPLETED)];
      if value.Some? {
        threads := threads[id := threads[id].(returnValue := value)];
      }
    }

    /** One turn of my_pthread_join: the caller yields while the awaited thread has not
        completed, and then takes its return value and releases its record. */
    method JoinTurn(id: nat) returns (done: bool, value: Option<int>)
      requires Valid() && id in threads
      modifies this`current, this`threads, q1, q2, q1.repr, q2.repr
      ensures Valid() && (done <==> id in old(View()).completed)
      ensures done ==> View() == old(View()) && threads == old(threads) - {id} && value == old(View()).completed[id]
      ensures !done ==> View() == Model.Yield(old(View())) && threads == old(threads)
      ensures q1.repr <= old(q1.repr) && q2.repr <= old(q1.repr + q2.repr)
    {
      value := None;
      if threads[id].state != COMPLETED {
        TimerHandler();
        done := false;
      } else {
        value := threads[id].returnValue;
        Release(id);
        done := true;
      }
    }

    /** The record of a completed thread is freed. */
    method Release(id: nat)
      requires Shaped() && Registered() && id in threads && threads[id].state == COMPLETED
      modifies this`threads
      ensures Shaped() && Registered() && threads == old(threads) - {id}
    {
      threads := threads - {id};
    }

    // -------------------------------------------------------- runs

    /** One call by the running thread. */
    method Perform(op: Model.Op)
      requires Valid() && Model.Enabled(View(), op)
      modifies this, q1, q2, q1.repr, q2.repr
      ensures Valid() && Model.Next(old(View()), op, View())
      ensures fresh(q1.repr + q2.repr - old(q1.repr + q2.repr))
    {
      match op
      case CreateOp =>
        var _ := Create();
      case YieldOp =>
        TimerHandler();
      case ExitOp(value) =>
        Exit(value);
    }

    /** Any sequence of calls, up to one that nobody is there to make: the states that
        the linked queues go through form a run of the model. */
    method Run(ops: seq<Model.Op>) returns (n: nat, ghost views: seq<Model.Sched>)
      requires Valid()
      modifies this, q1, q2, q1.repr, q2.repr
      ensures Valid() && n <= |ops| && (n < |ops| ==> !Model.Enabled(View(), ops[n]))
      ensures Model.IsRun(views, ops[..n]) && views[0] == old(View()) && views[n] == View()
      ensures fresh(q1.repr + q2.repr - old(q1.repr + q2.repr))
    {
      n, views := 0, [View()];
      while n < |ops| && (ops[n].ExitOp? ==> current.Some?)
        invariant n <= |ops| && Valid()
        invariant Model.IsRun(views, ops[..n]) && views[0] == old(View()) && views[n] == View()
        invariant fresh(q1.repr + q2.repr - old(q1.repr + q2.repr))
        decreases |ops| - n
      {
        Perform(ops[n]);
        Model.ExtendRun(views, ops, n, View());
        views := views + [View()];
        n := n + 1;
      }
    }
  }
}
