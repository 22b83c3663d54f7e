# Allocator, scheduler, pager and file system: a Dafny model

This project models four stateful cores of an operating-systems course repository
and proves what each of them keeps over whole runs. `dafny verify dfyconfig.toml`
checks everything.

**Boundary-tag heap** (`VSmymalloc/mymalloc.c`): `HeapLayout`, `Heap`, `HeapRuns`.
`Heap.Arena` is the array of 4-byte words between a prologue and an epilogue word;
its methods perform the tag writes in the order of the code. `HeapLayout` is the
independent reference: a list of blocks, with allocation as "replace the first
fitting block" and release as "merge with free neighbours". `Encodes` ties the two.
`HeapRuns` quantifies over every interleaving of malloc, free of a live pointer and
arbitrary writes of the user into live payloads. The arena size is a parameter.

**Scheduler and ticket lock** (`Assignment1/my_pthread.c`): `ThreadQueue`,
`SchedulerModel`, `Scheduler`, `TicketLock`, `LockFairness`. `ThreadQueue.Queue` is the linked list
with its walking loops, `Scheduler.Scheduler` the API over two such queues and the
thread records; each call is shown to be one function of `SchedulerModel` on
sequences of thread ids, about which rotation, conservation and bounded waiting are
proved. `Scheduler.Scheduler.Run` takes any sequence of calls and shows that the linked
queues go through a run of that model. `TicketLock` interleaves the lock at the grain of single memory accesses and
lets the counters wrap around. `LockFairness` runs the lock under the scheduler: every
step is one memory access of the running thread or one create, yield or exit, and a
waiting thread is let in within a bounded number of turns.

**Paging with displacement** (`Assignment2/my_pthread.c`, `Assignment2/mymalloc.c`):
`PageState`, `Pager`. Page tables, master table and frame contents; transparency
means that every page of every thread is still held and has its old contents.

**Block file system** (`test/test.c`): `DiskLayout`, `Bitmap`, `Paths`, `FileTree`,
`DiskView`, `FileSystem`, `PathSet`. `FileSystem.FileSystem` reads and writes typed disk
blocks; `DiskView.View` reads a disk as inodes, entries and allocation sets; `FileTree`
says what lookup and adding an entry mean in a tree; `PathSet` forgets inodes and blocks
altogether and shows that every run of creates is determined by the set of paths.

Five statements one might expect are false of the code; each is given with its exact
condition.

- Bringing the last page home keeps the tables injective exactly when the last RAM frame
  is home already, unheld, or held by some last slot, because only last slots are searched
  for its holder (`Pager.Pager.BringLastHome`). For the whole switch-in the exact condition
  is `Pager.Settles`, which looks ahead on the page tables and marks before the call. It
  holds when a last slot holds the frame and when the frame is marked but held by nobody
  (`Pager.SettlesWhen`), it fails when another slot of another thread holds it
  (`Pager.Pager.SwitchIn`, with the state of `Pager.LastNotClear`), and it can fail when
  the frame is free, since the loop may displace a page into it (`Pager.FreeIsNotClear`).
  When it is free, or held by a prefix page of the thread itself, a free frame below it
  for each prefix page away from home is enough (`Pager.RoomSettles`).
- The switch-in leaves the number of used frames unchanged exactly when no home frame of
  the thread was marked without a holder (`Pager.MarksUnchangedIff`); otherwise the number
  falls by the number of these frames, as it does from the state of `Pager.MarksCanFall`.
- Inodes can outnumber the bits of their bitmap: the round-up tests
  `inode_bitmap % VALUE` instead of the remainder of the division. For disk sizes that
  fit an int this happens for one size, 193 times 8 MB (`DiskLayout.InodeBitsExactly`).
- The ticket lock excludes on every run if and only if there are at most as many threads
  as counter values (`TicketLock.SafeIff`); every larger set of threads has a run with two
  of them inside (`TicketLock.TooManyThreads`).
- A successful `create` makes its path resolvable exactly when the parent existed
  (`FileSystem.CreateFindsIff`, `PathSet.FoundIff`); otherwise the entry lands in the
  deepest existing directory, as `/a/b` on a formatted disk does (`PathSet.MissingParent`).
  Under an existing parent it is refused exactly when the path exists or has the name of
  its own directory (`PathSet.RefusedIff`), as `/a/a` after `/a` is (`PathSet.Namesake`).

The comment above `get_metadata_info` speaks of multiples of 4 MB; the arithmetic
needs multiples of 8 MB, as the examples in that comment have it, and the model
follows the code.

## Model

| member | source | states |
|---|---|---|
| `Heap.Arena.constructor` | VSmymalloc/mymalloc.c:19-20 | an uninitialised arena already stands for the fresh heap of one free block, for every MEMSIZE that is a multiple of 4, holds a block and leaves room for two tags in a C int |
| `Heap.Arena.SetValue` | VSmymalloc/mymalloc.c:322-325 | exactly the addressed word becomes size plus allocation bit |
| `Heap.Arena.Initialize` | VSmymalloc/mymalloc.c:123-136 | prologue, epilogue and the tags of one free block of MEMSIZE - 8 bytes, so that the heap invariant holds |
| `Heap.Arena.FindFit` | VSmymalloc/mymalloc.c:93-113 | returns the lowest-addressed free block that is large enough, and NULL only if no block fits; the walk ends because the distance to the epilogue shrinks |
| `Heap.Arena.Malloc` | VSmymalloc/mymalloc.c:29-82 | NULL with the heap unchanged exactly when the size is 0, exceeds MEMSIZE or nothing fits; otherwise the first fit is allocated in the block list, the words encode the new list, and no word outside the chosen block changes |
| `Heap.Arena.ExtendedSize` | VSmymalloc/mymalloc.c:51-53 | the request rounded up to a word, plus two tags; `HeapRuns.PaddedIs` says what that means in bytes |
| `Heap.Arena.Place` | VSmymalloc/mymalloc.c:57-75 | splitting or using the block whole refines replacing one block of the list |
| `Heap.Arena.WritePlaced` | VSmymalloc/mymalloc.c:57-75 | after the tag writes the words encode the list in which the block is replaced, and nothing outside it changed |
| `Heap.Arena.WriteSplit` | VSmymalloc/mymalloc.c:60-69 | the four tag writes, in order, with the footer address read before the header is overwritten |
| `Heap.Arena.WriteWhole` | VSmymalloc/mymalloc.c:70-73 | the two tag writes of a block used whole |
| `Heap.Arena.Free` | VSmymalloc/mymalloc.c:145-176 | a live block is released and merged; NULL, an address out of range, a block already free or an address absorbed by an earlier merge changes no word; afterwards the pointer is not live, nothing else became live, and every address that could be freed before can be freed again |
| `Heap.Arena.FreeInside` | VSmymalloc/mymalloc.c:162-176 | the same for an address within the range, where the block list decides what happens |
| `Heap.Arena.FreeInRange` | VSmymalloc/mymalloc.c:162-176 | clearing the bits and coalescing refines the list-level release, and is the identity where release is |
| `Heap.Arena.ClearBits` | VSmymalloc/mymalloc.c:166-171 | header and footer lose the allocation bit and keep the size |
| `Heap.Arena.Coalesce` | VSmymalloc/mymalloc.c:182-241 | of the four cases, the one that the neighbours call for is written, although sizes are read while tags are being overwritten |
| `Heap.Arena.NeighbourBits` | VSmymalloc/mymalloc.c:187-200 | the two bits say whether the block before and the block after take part in the merge |
| `Heap.Arena.WriteLeft` | VSmymalloc/mymalloc.c:208-215 | case 2: outer tags of the union, inner tags wiped |
| `Heap.Arena.WriteRight` | VSmymalloc/mymalloc.c:218-225 | case 3, also when all tags read 0 and the block is its own neighbour |
| `Heap.Arena.WriteBoth` | VSmymalloc/mymalloc.c:228-237 | case 4: outer tags of the union of three blocks, the four inner tags wiped |
| `Heap.ReadTags` | VSmymalloc/mymalloc.c:282-315 | in an arena that encodes a list, size, bit and footer address read at a block are those of the list |
| `Heap.Neighbours` | VSmymalloc/mymalloc.c:251-276 | the footer below a block leads to its predecessor in the list and the header to its successor; NULL exactly at the two ends |
| `Heap.WritesOutcome` | VSmymalloc/mymalloc.c:182-241 | in all four cases the union of the merged blocks carries equal tags of its full size, nothing outside it changed, no word that was 0 became a tag, and all inner tags are wiped |
| `Heap.FreeEncodes` | VSmymalloc/mymalloc.c:182-241 | the four cases refine one list operation, "merge with free neighbours" |
| `Heap.AfterFree` | VSmymalloc/mymalloc.c:145-237 | after a free the address belongs to a free block or its tags are wiped, never to a live block |
| `Heap.FreeAgain` | VSmymalloc/mymalloc.c:145-237 | releasing a free block of a coalesced list gives the same list |
| `Heap.FreedOutcome` | VSmymalloc/mymalloc.c:145-237 | what a free leaves behind: a coalesced list, in which the address is not live, and the same list if the block was free already |
| `Heap.StaysFreeable` | VSmymalloc/mymalloc.c:208-237 | in all four cases an address that was a block is one still or has its tags wiped, and wiped tags stay wiped |
| `Heap.LiveShrinks` | VSmymalloc/mymalloc.c:145-237 | no address becomes live by a free |
| `HeapLayout.Replace` | VSmymalloc/mymalloc.c:29-241 | if only the words of a run of blocks changed and new blocks of the same extent stand there, the arena encodes the edited list |
| `HeapLayout.AllocateCoalesced` | VSmymalloc/mymalloc.c:56-77 | allocation never leaves two adjacent free blocks |
| `HeapLayout.ReleaseCoalesced` | VSmymalloc/mymalloc.c:182-241 | looking one block to each side is enough to leave no two adjacent free blocks |
| `HeapLayout.FreeUndoesMalloc` | VSmymalloc/mymalloc.c:56-77 | release after allocate is the identity on partitions, whether the block was split or not |
| `HeapLayout.AllocateLive` | VSmymalloc/mymalloc.c:56-77 | allocation adds exactly one live region |
| `HeapLayout.ReleaseLive` | VSmymalloc/mymalloc.c:145-237 | release removes exactly one live region |
| `HeapLayout.LiveDisjoint` | VSmymalloc/mymalloc.c:52-77 | two live payloads are apart by at least two tag words |
| `HeapLayout.LiveAvoidsTags` | VSmymalloc/mymalloc.c:52-77 | no header or footer lies inside a live payload |
| `HeapRuns.StepKeepsInv` | VSmymalloc/mymalloc.c:29-241 | malloc, free of a live pointer and any payload write keep the exact tiling, equal tags, prologue, epilogue and coalescing |
| `HeapRuns.RunKeepsInv` | VSmymalloc/mymalloc.c:29-241 | the heap invariant in every state of every run |
| `HeapRuns.FreshInv` | VSmymalloc/mymalloc.c:123-136 | the initialised arena satisfies the invariant |
| `HeapRuns.PaddedIs` | VSmymalloc/mymalloc.c:51-53 | a block is large enough for the padded request exactly if its payload holds the requested bytes, and padding adds fewer than 4 bytes |
| `HeapRuns.MallocFailsIff` | VSmymalloc/mymalloc.c:41-81 | in bytes: NULL exactly if the request is 0, exceeds the arena, or every block is used or has fewer payload bytes; then the heap is unchanged |
| `HeapRuns.MallocPlaces` | VSmymalloc/mymalloc.c:51-77 | the first free block with enough payload bytes is cut to the request rounded up to a word if at least a block is left over, and used whole otherwise; the address is its first payload byte |
| `HeapRuns.MallocGrants` | VSmymalloc/mymalloc.c:52-77 | a successful malloc adds one live region at the returned address, of at least the requested bytes and fewer than 12 more, at an address nobody else owns |
| `HeapRuns.FreeRevokes` | VSmymalloc/mymalloc.c:145-237 | a free removes the region at its address and no other |
| `HeapRuns.StepKeepsPayload` | VSmymalloc/mymalloc.c:52-77 | a step that neither frees nor writes a live region leaves it live with every word unchanged |
| `HeapRuns.StepKeepsWord` | VSmymalloc/mymalloc.c:52-77 | a step that neither frees the region nor writes the word leaves the region live and the word unchanged |
| `HeapRuns.RunKeepsWord` | VSmymalloc/mymalloc.c:145-237 | the same for each payload word between any two states of any run |
| `HeapRuns.RunKeepsPayload` | VSmymalloc/mymalloc.c:145-237 | hence a live region that nobody frees or writes keeps all its words |
| `HeapRuns.LastWriteLasts` | VSmymalloc/mymalloc.c:145-237 | on every run a payload word holds the value last written to it until its region is freed, and the region stays live until then |
| `HeapRuns.MallocFreeRestores` | VSmymalloc/mymalloc.c:56-77 | malloc followed by free of its result restores the block partition |
| `HeapRuns.NothingLiveIsWhole` | VSmymalloc/mymalloc.c:123-136 | any reachable heap without live regions is the single free block |
| `HeapRuns.FullRecovery` | VSmymalloc/mymalloc.c:145-237 | freeing all live allocations, in any order, restores the single free block of MEMSIZE - 8 bytes |
| `HeapRuns.Store` | VSmymalloc/mymalloc.c:52-77 | a user's store into a live payload keeps the heap valid |
| `HeapRuns.FreeTwice` | VSmymalloc/mymalloc.c:145-237 | the second free of one pointer changes no word, in all four coalescing outcomes of the first |
| `HeapRuns.FreeMany` | VSmymalloc/mymalloc.c:145-237 | frees of stale or live addresses in any number and order keep the heap valid and leave none of them live |
| `HeapRuns.OutsideIsFreeable` | VSmymalloc/mymalloc.c:157-160 | any address below 4 or above MEMSIZE - 8 may be passed to free |
| `ThreadQueue.Queue.Enqueue` | Assignment1/my_pthread.c:525-535 | appends to the FIFO sequence and keeps the size counter exact |
| `ThreadQueue.Queue.Dequeue` | Assignment1/my_pthread.c:541-559 | removes and returns the oldest node, NULL on an empty queue; the remaining chain is intact |
| `ThreadQueue.Queue.Peek` | Assignment1/my_pthread.c:560-570 | the oldest node, NULL exactly when empty |
| `Scheduler.Scheduler.constructor` | Assignment1/my_pthread.c:19-29 | the scheduler before the first create, with queues of its own |
| `Scheduler.Scheduler.Yield` | Assignment1/my_pthread.c:112-292 | the pointer-level code computes the yield of the model in all its branches, without a NULL dereference, and no state of any thread changes |
| `Scheduler.Scheduler.YieldFirst` | Assignment1/my_pthread.c:172-195 | the running thread leaves queue 1 for the end of queue 2, and the node peeked afterwards exists and is the head of the ready list |
| `Scheduler.Scheduler.YieldSecond` | Assignment1/my_pthread.c:253-268 | queue 2 is rotated and its new head runs |
| `Scheduler.Scheduler.YieldLower` | Assignment1/my_pthread.c:209-287 | the branch for an empty queue 1 refines the yield of the model, nothing happening when no thread is queued |
| `Scheduler.Scheduler.Requeue` | Assignment1/my_pthread.c:175-182 | the state test always passes, so the node is never lost |
| `Scheduler.Scheduler.RunHead` | Assignment1/my_pthread.c:183-195 | the head of the ready list is dispatched |
| `Scheduler.Scheduler.Activate` | Assignment1/my_pthread.c:178-193 | the ACTIVE assignments hit active threads only, so COMPLETED is never undone |
| `Scheduler.Scheduler.TimerHandler` | Assignment1/my_pthread.c:32-34 | a timer-driven yield keeps the whole invariant and brings in no node |
| `Scheduler.Scheduler.Create` | Assignment1/my_pthread.c:58-110 | refines create of the model; the new id is fresh, its thread active, every earlier record is kept, and the only new nodes are fresh ones |
| `Scheduler.Scheduler.Enroll` | Assignment1/my_pthread.c:78-103 | the new thread joins queue 1, on the very first call followed by the main thread as the running one |
| `Scheduler.Scheduler.EnrollNew` | Assignment1/my_pthread.c:78-87 | the new thread takes the next id and the end of queue 1 |
| `Scheduler.Scheduler.EnrollMain` | Assignment1/my_pthread.c:90-103 | the main thread enters with id 0 and is the running one |
| `Scheduler.Scheduler.AddThread` | Assignment1/my_pthread.c:78-87 | one new active record and one new node |
| `Scheduler.Scheduler.Exit` | Assignment1/my_pthread.c:295-380 | refines exit of the model: the caller is completed with its return value, every other record is kept, and no node is brought in |
| `Scheduler.Scheduler.RemoveCaller` | Assignment1/my_pthread.c:305-341 | both branches take the caller off its queue |
| `Scheduler.Scheduler.FinishFirst` | Assignment1/my_pthread.c:316-327 | the head of queue 1 is removed and completed |
| `Scheduler.Scheduler.FinishSecond` | Assignment1/my_pthread.c:329-341 | the head of queue 2 is removed and completed |
| `Scheduler.Scheduler.Complete` | Assignment1/my_pthread.c:320-323 | a thread in no queue is marked completed and every queue still carries active threads only |
| `Scheduler.Scheduler.JoinTurn` | Assignment1/my_pthread.c:397-412 | one turn of join: it yields while the thread is not completed, and then delivers the return value recorded at its exit and releases the record, without a further step |
| `Scheduler.Scheduler.Release` | Assignment1/my_pthread.c:410-412 | freeing the record of a completed thread leaves queues and all other records intact |
| `Scheduler.Scheduler.Perform` | Assignment1/my_pthread.c:58-380 | any enabled call is one step of the model |
| `Scheduler.Scheduler.Run` | Assignment1/my_pthread.c:58-380 | any sequence of calls takes the linked queues through a run of the model from their present state, so that everything proved of runs holds of the code; it stops early only where nobody is left to exit |
| `SchedulerModel.YieldRotates` | Assignment1/my_pthread.c:128-281 | every yield is a left rotation of queue 1 followed by queue 2, and the new head runs |
| `SchedulerModel.YieldQueues` | Assignment1/my_pthread.c:172-268 | both queues after a yield: the running thread goes down to the end of queue 2, or around it |
| `SchedulerModel.YieldCases` | Assignment1/my_pthread.c:128-281 | the five cases of yield, for any running thread |
| `SchedulerModel.YieldKeepsInv` | Assignment1/my_pthread.c:128-281 | yield keeps the running thread at the head and every uncompleted thread queued once |
| `SchedulerModel.CreateReady` | Assignment1/my_pthread.c:58-110 | where everybody stands after a create, with and without threads in queue 1 |
| `SchedulerModel.FirstCreate` | Assignment1/my_pthread.c:87-103 | the first create leaves the new thread ahead of the main thread in queue 1, and runs it |
| `SchedulerModel.CreateQueues` | Assignment1/my_pthread.c:58-110 | both queues after a later create: the new thread ends queue 1 and the head of queue 1, if there was one, has gone down to queue 2 |
| `SchedulerModel.CreateKeepsInv` | Assignment1/my_pthread.c:58-110 | create keeps the invariant, the first one included |
| `SchedulerModel.RemoveTakesCaller` | Assignment1/my_pthread.c:305-341 | what exit takes off the queues is the caller |
| `SchedulerModel.ExitCompletesCaller` | Assignment1/my_pthread.c:305-377 | exit removes and completes the caller although the branch for queue 2 compares no ids |
| `SchedulerModel.ExitQueues` | Assignment1/my_pthread.c:305-377 | both queues after an exit: the caller is gone and nobody else has moved |
| `SchedulerModel.ExitKeepsInv` | Assignment1/my_pthread.c:305-377 | exit keeps the invariant |
| `SchedulerModel.HeadOnce` | Assignment1/my_pthread.c:305-377 | the caller of exit is the head of the queue that is dequeued and is queued nowhere else |
| `SchedulerModel.StepKeepsInv` | Assignment1/my_pthread.c:58-380 | every create, yield and exit keeps the invariant, the completed threads and their return values |
| `SchedulerModel.RunKeepsInv` | Assignment1/my_pthread.c:58-380 | on every run each created, uncompleted thread occurs exactly once across both queues and the head runs |
| `SchedulerModel.BootInv` | Assignment1/my_pthread.c:19-29 | the initial state satisfies the invariant |
| `SchedulerModel.CompletedForGood` | Assignment1/my_pthread.c:295-380 | on every run a completed thread stays completed and keeps its return value |
| `SchedulerModel.DemotedForGood` | Assignment1/my_pthread.c:172-268 | on every run a thread that has gone down to queue 2 never returns to queue 1 |
| `SchedulerModel.ExitValueLasts` | Assignment1/my_pthread.c:295-408 | at any later time of any run, join finds the value that the thread gave to exit |
| `SchedulerModel.YieldsRotate` | Assignment1/my_pthread.c:128-281 | k consecutive yields rotate the ready list by k |
| `SchedulerModel.YieldRound` | Assignment1/my_pthread.c:128-281 | n consecutive yields over n threads run each of them exactly once and restore the list |
| `SchedulerModel.WaitStep` | Assignment1/my_pthread.c:58-380 | a yield or exit of another thread moves a waiting thread forward by exactly one, a create moves it back by at most one |
| `SchedulerModel.WaitBound` | Assignment1/my_pthread.c:58-380 | the place of a thread that has not run, against the yields, exits and creates so far |
| `SchedulerModel.BoundedWaiting` | Assignment1/my_pthread.c:58-380 | on every run, a thread at place p runs by the time yields plus exits reach p plus the number of creates |
| `TicketLock.TestMeansNext` | Assignment1/my_pthread.c:440-442 | with at most as many threads as counter values the test `turn == myturn` succeeds exactly for the next ticket, and then nobody is inside, despite wrap-around |
| `TicketLock.StepKeepsInv` | Assignment1/my_pthread.c:435-455 | each single memory access keeps the lock invariant |
| `TicketLock.RunKeepsInv` | Assignment1/my_pthread.c:423-455 | the lock invariant on every interleaving |
| `TicketLock.LockIsSafe` | Assignment1/my_pthread.c:423-455 | on every interleaving: at most one thread inside, `turn` and `ticket` are the wrapped numbers of tickets served and taken, outstanding tickets are distinct and between the two, threads are let in in the order of their fetch-and-adds, and the one let in last is the one inside, although unlock reads and writes `turn` separately |
| `TicketLock.NextCanEnter` | Assignment1/my_pthread.c:435-445 | a free lock with waiters is never stuck |
| `TicketLock.TooManyThreads` | Assignment1/my_pthread.c:435-445 | every set of more threads than counter values has a run that ends with two threads inside |
| `TicketLock.SafeIff` | Assignment1/my_pthread.c:423-455 | all runs exclude if and only if there are no more threads than counter values |
| `LockFairness.FreshMutex` | Assignment1/my_pthread.c:423-433 | a mutex initialised at any time of any run of the scheduler starts in the invariant |
| `LockFairness.StepKeepsInv` | Assignment1/my_pthread.c:58-455 | scheduler and lock together: every access and every create, yield and exit keeps both invariants and the agreement of their threads |
| `LockFairness.AccessBudget` | Assignment1/my_pthread.c:435-455 | no access to the mutex raises the turns that a waiting thread may still have to wait |
| `LockFairness.OwnSwitch` | Assignment1/my_pthread.c:58-380 | when the thread whose ticket is served gives up the processor, a waiting thread is at least one turn closer |
| `LockFairness.OtherSwitch` | Assignment1/my_pthread.c:58-380 | when another thread yields or exits, a waiting thread is one turn closer; a create sets it back by at most one |
| `LockFairness.RunBudget` | Assignment1/my_pthread.c:58-455 | on every run a thread that is not let in still has its ticket, and the turns so far come out of its budget |
| `LockFairness.NobodyStarves` | Assignment1/my_pthread.c:435-445 | starvation freedom on every run: with d tickets ahead, at most n threads at a time and holders that give up the processor at most h times, a waiter is let in before yields and exits, less creates, exceed d * (h + 1) * n + n |
| `LockFairness.DueIs` | Assignment1/my_pthread.c:435-445 | the bound of NobodyStarves as a product |
| `LockFairness.SpinLoop` | Assignment1/my_pthread.c:440-442 | a test in the spin loop lets the thread in or leaves it free to yield; a holder with patience left and a thread outside may give up the processor |
| `LockFairness.SomeStep` | Assignment1/my_pthread.c:435-455 | no state of scheduler and lock is a dead end |
| `PageState.MoveIsTransparent` | Assignment2/my_pthread.c:315-326 | moving a page to a frame nobody holds keeps the tables consistent and every page's contents |
| `PageState.MoveKeepsZeroed` | Assignment2/mymalloc.c:608-646 | a move that blanks the RAM frame it leaves keeps every RAM frame without a holder blank |
| `Pager.Pager.NextFreePage` | Assignment2/my_pthread.c:102-110 | the lowest unmarked frame |
| `Pager.Pager.SwapOut` | Assignment2/mymalloc.c:627-650 | the frame's contents are in the first free frame, the frame is zero, all others are unchanged |
| `Pager.Pager.SwapIn` | Assignment2/mymalloc.c:608-625 | the contents are in the destination; a RAM source is zero, a swap slot keeps its bytes |
| `Pager.Pager.Displace` | Assignment2/my_pthread.c:315-321 | the holder of a frame moves to the first free frame, transparently; nobody holds the frame it left, which is blank |
| `Pager.Pager.Evict` | Assignment2/my_pthread.c:312-324 | the search over all tables finds the only holder, if there is one; afterwards nobody holds the frame, which is blank if it was held, and paging was transparent |
| `Pager.Pager.PullHome` | Assignment2/my_pthread.c:325-329 | the page comes home, transparently if the home frame was held by nobody |
| `Pager.Pager.BringHome` | Assignment2/my_pthread.c:311-329 | one round is transparent, puts one page home, leaves slots of other frames alone, lowers the number of marks exactly if the home frame was marked without a holder, and leaves a frame free |
| `Pager.Pager.BringRounds` | Assignment2/my_pthread.c:309-331 | the loop brings all prefix pages home transparently, with tables and marks as the look-ahead predicts |
| `Pager.Pager.BringLastHome` | Assignment2/my_pthread.c:332-348 | the tables stay injective if and only if the last RAM frame is home already, unheld, or held by a last slot; then it is transparent |
| `Pager.Pager.BringLast` | Assignment2/my_pthread.c:332-348 | the last slot completes the switch-in exactly if the last RAM frame is clear by then |
| `Pager.Pager.SwitchIn` | Assignment2/my_pthread.c:309-348 | the tables stay injective if and only if the state before the call settles; then every page of the chosen thread is home, every page of every thread has its contents, pages of others outside the home frames are not moved, the number of marks falls exactly by the home frames that were marked without a holder, RAM frames without a holder stay blank, and a frame is free; with the last RAM frame in another slot of another thread it fails |
| `Pager.MarksUnchangedIff` | Assignment2/my_pthread.c:309-348 | the number of used frames is unchanged if and only if no home frame of the thread was marked without a holder |
| `Pager.SettlesWhen` | Assignment2/my_pthread.c:309-348 | the state settles when a last slot holds the last RAM frame, as after the exit of a resident thread, or when the frame is marked but unheld |
| `Pager.RoomSettles` | Assignment2/my_pthread.c:309-348 | with the last RAM frame free or held by a prefix page of the thread itself, the state settles if there are at least as many free frames below it as prefix pages away from home |
| `Pager.RoundsRoomy` | Assignment2/my_pthread.c:310-331 | each round uses up at most one such frame and puts one page home, so no page is displaced into the last RAM frame |
| `Pager.LooksAhead` | Assignment2/my_pthread.c:309-348 | the look-ahead on tables and marks decides what the last step will find |
| `Pager.Pager.ClaimOne` | Assignment2/mymalloc.c:284-305 | one frame becomes a page of the resident caller, blank if it is new, every other page is kept, and one free frame is used up unless the page was home or its frame marked without a holder |
| `Pager.Pager.Claim` | Assignment2/mymalloc.c:283-309 | all frames of the range become pages of the resident caller, the new ones blank if RAM frames without a holder were; every page anybody had before keeps its contents, and its frame if that is outside the range; the free frames used up are exactly those counted |
| `Pager.ClaimNeeds` | Assignment2/mymalloc.c:283-309 | the free frames that Claim asks for are needed by every claim loop that gets through |
| `Pager.BlankStep` | Assignment2/mymalloc.c:284-305 | later rounds do not touch the new pages |
| `Pager.ProgressStep` | Assignment2/my_pthread.c:310-331 | later rounds do not move pages that are already home, and put to use exactly the marks of home frames without a holder |
| `Pager.RoundsKeep` | Assignment2/my_pthread.c:310-331 | a slot that holds the last RAM frame is not moved by the rounds |
| `Pager.HomeOutcome` | Assignment2/my_pthread.c:311-329 | a round keeps the number of marked frames, less one if the home frame was marked without a holder, touches no other such mark, and frees the frame the page came from |
| `Pager.ClaimOutcome` | Assignment2/mymalloc.c:284-305 | what a round costs, and that it leaves other marks without a holder alone |
| `Pager.LastNotClear` | Assignment2/my_pthread.c:332-346 | a consistent state, with the last RAM frame in the first slot of another thread, from which the switch-in fails |
| `Pager.FreeIsNotClear` | Assignment2/my_pthread.c:310-346 | a consistent state with the last RAM frame free from which the switch-in fails, its own first round having displaced a page into that frame |
| `Pager.MarksCanFall` | Assignment2/my_pthread.c:309-348 | a settling state from which one mark falls |
| `DiskLayout.LayoutTilesDisk` | test/test.c:30-72 | for every positive multiple of 8 MB that fits an int the regions are contiguous, fill the disk exactly, and each data block has exactly one bit |
| `DiskLayout.LayoutSizes` | test/test.c:30-72 | the size of every region from the fields alone: three quarters of the disk are data blocks, and of the blocks left for inodes one in 513, rounded up except for 193 times 8 MB, is inode bitmap |
| `DiskLayout.SmallestDisk` | test/test.c:30-72 | all fields for a disk of 8388608 bytes |
| `DiskLayout.InodeBitsExactly` | test/test.c:49-53 | every inode has a bit if and only if the round-up fires, which is for every such size but 193 times 8 MB |
| `DiskLayout.OddSize` | test/test.c:49-53 | on a disk of 1619001344 bytes some inodes have no bit |
| `Bitmap.Locate` | test/test.c:85-93 | block, byte and bit counted from the most significant one, from which the index is recovered |
| `Bitmap.GetBitWeight` | test/test.c:96 | bit k of a byte is its binary digit of weight 2 to the k |
| `Bitmap.SetBitDigit` | test/test.c:120 | setting bit k sets that binary digit of the byte and keeps the other seven |
| `Bitmap.SetBitSame` | test/test.c:120 | the assigned bit reads back as assigned |
| `Bitmap.SetBitOther` | test/test.c:120 | the other seven bits of the byte are kept |
| `Bitmap.AssignOne` | test/test.c:83-177 | after a set, check returns the status for the target and is unchanged for every other index, across block, byte and bit |
| `Bitmap.StatusMeans` | test/test.c:83-99 | check returns binary digit 7 - n % 8 of byte n % 4096 / 8 of block n / 4096, so the most significant bit comes first |
| `Bitmap.AssignedMeans` | test/test.c:108-125 | set changes that digit of that byte and nothing else of the disk |
| `FileSystem.FileSystem.CheckStatus` | test/test.c:83-99 | the bit of the index, which `Bitmap.StatusMeans` places in the stored byte |
| `FileSystem.FileSystem.SetStatus` | test/test.c:160-177 | the disk differs in the one bit assigned, which `Bitmap.AssignedMeans` places in the stored byte |
| `FileSystem.FileSystem.FindFree` | test/test.c:468-491 | the least index whose bit is clear, and -1 exactly when all are set; on a disk with fewer bits than inodes, as long as one bit is clear |
| `FileSystem.FileSystem.GetInode` | test/test.c:185-196 | the inode of the view |
| `FileSystem.FileSystem.SetInode` | test/test.c:203-213 | one inode of the view is replaced, the seven beside it and everything else are kept |
| `FileSystem.FileSystem.constructor` | test/test.c:216-284 | for every positive multiple of 8 MB that fits an int, a formatted disk is a tree with a root and nothing below it; inode 0, of size 6144 and flagged as directory, and data block 0 are the only allocated ones, and all other inodes are zero |
| `FileSystem.FileSystem.WriteMetadata` | test/test.c:247-269 | every bit is clear and every inode blank |
| `FileSystem.FileSystem.WriteRoot` | test/test.c:271-282 | the root entry and the size and flags of inode 0 complete the tree invariant |
| `DiskView.PutInode` | test/test.c:203-213 | a write of one packed inode changes that inode of the view alone |
| `DiskView.PutInodeBit` | test/test.c:108-125 | setting an inode bit adds that inode to the allocation set and changes nothing else of the view |
| `DiskView.PutBlockBit` | test/test.c:160-177 | the same for data blocks |
| `Paths.GetNumDirs` | test/test.c:288-298 | the number of components that parsePath yields |
| `Paths.ParsePath` | test/test.c:302-341 | the components of the path, for every path |
| `Paths.SlashIndices` | test/test.c:316-327 | the indices of the slashes in order, closed by the length |
| `Paths.PathRoundTrip` | test/test.c:302-341 | a path that starts with a slash is the join of its components, which are slash-free and as many as its slashes |
| `Paths.ComponentsOfJoin` | test/test.c:302-341 | slash-free names come back from their joined path |
| `Paths.ComponentsCount` | test/test.c:302-341 | for any path, what precedes the first slash is dropped and nothing else |
| `FileSystem.FileSystem.SearchFolder` | test/test.c:709-722 | the child of the directory with that name, if there is one |
| `FileSystem.FileSystem.FindEntry` | test/test.c:697-739 | the entry of the longest prefix that exists: it resolves and the next component does not |
| `FileSystem.FileSystem.FindPathBlock` | test/test.c:689-740 | the same for a path string |
| `FileSystem.FileSystem.TakeInode` | test/test.c:760-761 | the least free inode is allocated |
| `FileSystem.ClearInode` | test/test.c:481-491 | a free inode that has a bit is a clear bit |
| `FileSystem.FirstClearInode` | test/test.c:481-491 | the first clear bit belongs to the least free inode |
| `FileSystem.FileSystem.TakeBlock` | test/test.c:764-765 | the least free data block is allocated |
| `FileSystem.FileSystem.FreeSlot` | test/test.c:774-779 | the first unused direct pointer |
| `FileSystem.FileSystem.Link` | test/test.c:773-782 | the directory's first unused pointer leads to the new block |
| `FileSystem.FileSystem.AddEntry` | test/test.c:760-789 | the writes together add one entry to the tree, which stays a tree |
| `FileSystem.FileSystem.WriteEntry` | test/test.c:760-789 | on any typed disk the writes amount to adding one entry with the least free inode, block and pointer |
| `FileSystem.FileSystem.Create` | test/test.c:743-793 | refused, with the disk unchanged, exactly when the entry of the longest existing prefix has the name of the last component; otherwise one entry is added under that prefix with the least free inode and block |
| `FileSystem.FileSystem.CreateUnder` | test/test.c:751-793 | the test for the name and the writes, given the entry that was found |
| `FileTree.UniquePath` | test/test.c:689-740 | in a tree only one path leads to an inode |
| `FileTree.WalkEnds` | test/test.c:689-740 | a lookup ends in an allocated entry that carries the last component |
| `FileTree.ChildIsFirst` | test/test.c:709-722 | the first pointer that matches the name is the one found |
| `FileTree.AddKeepsInv` | test/test.c:760-789 | adding an entry with an unallocated inode and block keeps the tree |
| `FileTree.AddChanges` | test/test.c:760-789 | what adding an entry changes, field by field: one pointer of the directory, whose size, flags and other pointers are kept, one data block, one inode and one block more in use |
| `FileTree.WalkFrame` | test/test.c:743-793 | every path that does not extend the new one resolves as before |
| `FileTree.NewPathResolves` | test/test.c:760-789 | the new path leads to the new entry and its inode is blank |
| `FileTree.AddIsNewLeaf` | test/test.c:743-793 | the new path leads to the new entry, its inode is blank, nothing is below it, all other paths and entries are as before |
| `FileSystem.CreateMakesLeaf` | test/test.c:743-793 | if the parent exists, a successful create makes lookup of the path return the new entry with a blank inode, and lookup of every path that does not extend it returns the same block with the same contents |
| `FileSystem.CreateFindsIff` | test/test.c:743-793 | a successful create makes its path resolvable if and only if the parent existed |
| `FileSystem.LostWithoutParent` | test/test.c:743-793 | without a parent the new entry lies elsewhere and the path does not resolve |
| `FileSystem.ExistingIsRefused` | test/test.c:751-755 | an existing path is always refused |
| `FileSystem.NamesakeIsRefused` | test/test.c:751-755 | a missing child with the name of its own directory is refused too, in every tree |
| `FileSystem.EmptyTree` | test/test.c:216-284 | without pointers no path but the root's resolves |
| `PathSet.HiddenAdd` | test/test.c:743-793 | if the deepest existing directory already has a child of that name, the second entry is hidden behind it and no lookup changes |
| `PathSet.AddKeepsPacked` | test/test.c:774-779 | taking the first unused pointer keeps the used pointers of every directory in front |
| `PathSet.AddResolves` | test/test.c:743-793 | adding an entry adds its path to the paths that resolve, and no other, whether or not the name was there |
| `PathSet.CreateRefines` | test/test.c:743-793 | the result of create and the paths that resolve afterwards are a function of the paths that resolved before, missing parents and name clashes included |
| `PathSet.FormattedResolves` | test/test.c:216-284 | on a formatted disk only the root resolves |
| `PathSet.RunRefines` | test/test.c:743-793 | on every run of creates from a formatted disk, what resolves and what each call returns is what the set-of-paths specification says |
| `PathSet.ResolvedIsClosed` | test/test.c:689-740 | of a path that resolves, all prefixes resolve |
| `PathSet.RefusedIff` | test/test.c:751-755 | under an existing parent create is refused if and only if the path exists or has the name of its own directory |
| `PathSet.FoundIff` | test/test.c:743-793 | a successful create makes its path resolve if and only if the parent resolved |
| `PathSet.MissingParent` | test/test.c:743-793 | on a formatted disk create of /a/b succeeds, /b resolves afterwards and /a/b does not |
| `PathSet.Namesake` | test/test.c:751-755 | after create of /a, create of /a/a is refused although it does not resolve |

## Left out

- Byte representation of the heap: words are indexed as a whole. `Heap.WordOf` is the index of the word at a byte address and `Heap.LowBit` stands for `& 1`.
- Heap.Arena.constructor: arena sizes within 8 bytes of INT_MAX are excluded, since the padded request would overflow the int parameter of findFit; the code itself has 5000.
- Heap.Arena.Free: the argument is NULL, out of range, the address of a block, or an address whose tags were wiped; the C code given any other address reads arbitrary payload as tags.
- createExtremities and the printing of warnings in the allocator.
- Signals, timers, contexts and stacks: a context switch is the update of `current`, and the timer values, including the 0 that the dispatching branches of yield set, have no counterpart.
- Threads are named by their ids, with their records in a map; overflow of the id counter is not modelled.
- Scheduler.Scheduler.JoinTurn: the loop of join is modelled one turn at a time, since other threads act between the turns; a return value that exit does not set is a missing value instead of uninitialised memory.
- A failing `getcontext` in create.
- my_pthread_mutex_destroy, maintenanceCycle, search_pq, search_wq and the wait queue: not used by the scheduler.
- TicketLock.LockIsSafe: only the holder unlocks; the counters wrap around at the modulus, which for `turn + 1` on a C int is what compilers do rather than what the language promises.
- The yield inside the spin loop of the lock is not part of TicketLock, where any interleaving is allowed; it is part of LockFairness.
- LockFairness.NobodyStarves: a thread in the spin loop tests at least once in each of its turns, which a timer that fires right after dispatch would break; threads exit only outside lock and unlock; how often a holder gives up the processor is a parameter.
- The branches of yield that swap pages home without displacing their holders, seg_handler, mprotect, createPageHeader and createPageFooter, page tables of joined threads.
- Pager.Pager.SwitchIn: needs a free frame, fewer tables than MAXTHREADS and the table shape of prefix and last slot; when the last RAM frame is free, or held by a prefix page of the chosen thread itself, the exact condition is the look-ahead and `RoomSettles` a sufficient one, because it depends on where displaced pages land.
- Pager.Pager.Claim: the caller is resident and there is a free frame for each page that costs one; with fewer, nextFreePage returns no frame.
- The allocator copy of Assignment2, which is tangled with paging and rejects exact fits.
- The byte encoding of inodes and entries in a block, the contents of the superblock, indirect pointers, and file input and output: a disk is an array of typed blocks that read back as written.
- FileSystem.FileSystem.Create: when it goes ahead, a free inode that has a bit, a free data block, an unused direct pointer in the directory and a name that fits the block are required, as is at least one slash in the path; the C code checks none of these.
- The commented-out functions and the drivers of test/test.c, the fuse stubs, logging, benchmarks and demos.
