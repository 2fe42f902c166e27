# hev-task-system in Dafny

A model of the hard parts of hev-task-system, a runtime of cooperative tasks,
and proofs of what they promise. `dafny verify dfyconfig.toml` checks all of it.

What is modelled, and in which files:

- **The red-black tree** that every queue of the runtime is: node objects with
  parent, colour and child fields, changed in place by linking, insertion and
  erasure with their mirrored rebalancing loops, replacement and in-order walks
  (`RbShape`, `RbCells`, `RbTree`), and the tree with a cached first node
  (`RunQueue`). The parent pointer and the colour, packed into one word in the
  source, are two fields.
- **The scheduler**: as values (`KeyOrder`, `Scheduler`), in place on the tree
  (`TaskSystem`), and together with the **timers** as one machine whose runs are
  all sequences of task steps and kernel passes (`TaskMachine`). A task step runs
  from its resumption to its next yield. The clock (never running backwards), the
  reactor's events and the measured run times come with the step. `Turns` has what
  keys and priorities come to over runs, `Fairness` and it the bounds on how often
  a runnable task is passed over. `Timer` has the time arithmetic, with its 32-bit
  results, and `Sleeping` when sleepers wake and what a sleep returns.
- **Mutex and condition variable** as one protocol over any number of tasks, with
  wakeups for no reason at any time (`Sync`, and its calls and orders over runs in
  `SyncRuns`); the pointer list of the waiters in place (`WaiterList`, on the list
  surgery of `Links`). `Recency` has lists kept in the order of time.
- **Channels**: the ring of an endpoint in place (`ChannelRing`), two endpoints
  and their tasks as a protocol (`Channel`, and in terms of the calls made in
  `ChannelCalls`), and a task selecting over many channels (`ChannelSelect` and
  `SelectRuns`, with the list of `List`).
- **The slice allocator**: on values, with its refinement of `malloc` and `free`
  (`SliceModel`), its calls one by one and its order of use over runs (`SliceRuns`),
  and in place (`SliceAllocator`). What the system allocator answers is a
  parameter; sizes are 64-bit and wrap as in the source.
- **Byte movers**: the circular buffer (`CircularBuffer`, on `RingWindow`), the
  splice loop (`Splice`), the `MSG_WAITALL` loops (`Iovec`). System calls answer
  from a script, over which the results quantify.
- **The Windows descriptor registry** (`FdRegistry`) and **the DNS proxy**
  (`DnsProxy`), two threads over byte streams. `Common` has the types that several
  of these share.

Code that waits by yielding in the middle of a function cannot be one method; it
is a state machine whose steps are the stretches between yields. Code that does
not yield is a class with methods, each proved against a function on values.

Findings that differ from what one might expect of the code:

- A task of priority 0 never loses its place by yielding. The bound on how often
  a task is picked while another stays in line holds of a task exactly at the
  priorities from 1 on, whatever the priorities of the others
  (`Fairness.BypassExactly`, with a run from the start of the system at which it fails).
- A sleep with 2^31 ms or more left makes the poll wait without end
  (`Timer.LongSleepNeverPolled`, and `Timer.TimeoutFinite` for exactly when not).
- A read or write that blocks on a channel of a selector clears the channel's
  task pointer, after which the selector can sleep over a readable channel:
  `ChannelSelect.SelectSafe` says exactly when it cannot. It never does if it
  reads and writes only what its selections return (`ChannelSelect.NeverSleepsOver`).
- Selecting for writing is not safe in the same way, because the write list is not
  exact. `ChannelSelect.OfferedExactly` says which channels it never misses. A task
  that writes only what it is offered never fills a ring, so a channel that has left
  its write list is not offered again until it is added anew
  (`ChannelSelect.NeverReoffered`), and a selection for writing that sleeps on an
  empty list sleeps for ever, however much the peers read
  (`ChannelSelect.SleepsForEver`).
- The DNS handler looks at the call pointer three times without a lock. A drain
  begun between its first look and the end of the call makes it follow a null
  pointer or work for a client that is gone (`DnsProxy.FaultReached`).
  `DnsProxy.AliveExactly` and `DnsProxy.DrainSafe` say exactly when it does not,
  and `DnsProxy.QuietIsSafe` that no client waiting for an answer is enough, which
  is so once every task of the system has ended.
- The allocator converts a unit count to `int`: sizes a little over 64 GiB can be
  taken for small ones. `SliceModel.ServedExactly` says for exactly which sizes a
  block returned is sure to be big enough.
- Replacing the socket of a descriptor by an invalid one breaks the rule that all
  slots below the hint are in use, exactly when the slot is below the hint
  (`FdRegistry.Table.Replace`).

## Model

| member | source | states |
|---|---|---|
| RbTree.Tree.ChangeChild | src/lib/rbtree/hev-rbtree.c:78-95 | exactly the link that held the old child, or the root, holds the new one |
| RbTree.Tree.Prev | src/lib/rbtree/hev-rbtree.c:107-134 | the node before the given one in the in-order sequence, or null; null for an unlinked node |
| RbTree.Tree.Next | src/lib/rbtree/hev-rbtree.c:136-166 | the node after the given one in the in-order sequence, or null; null for an unlinked node |
| RbTree.Tree.First | src/lib/rbtree/hev-rbtree.c:168-179 | the first node of the in-order sequence, or null |
| RbTree.Tree.Last | src/lib/rbtree/hev-rbtree.c:181-192 | the last node of the in-order sequence, or null |
| RbTree.Tree.InsertFlip | src/lib/rbtree/hev-rbtree.c:226-245 | the colour flip under a red uncle keeps links and order and moves the red-red fault two levels up |
| RbTree.Tree.InsertColor | src/lib/rbtree/hev-rbtree.c:194-333 | from a red leaf linked anywhere in a red-black tree: same nodes, same in-order sequence, consistent parent links, and all red-black rules hold again |
| RbTree.Tree.Replace | src/lib/rbtree/hev-rbtree.c:335-349 | the new node stands in the place of the victim in the in-order sequence; links consistent, red-black rules kept |
| RbTree.Tree.FindSuccessor | src/lib/rbtree/hev-rbtree.c:385-417 | the leftmost node under the right child, its parent, and where it hangs |
| RbTree.Tree.EraseOne | src/lib/rbtree/hev-rbtree.c:359-382 | a node with at most one child leaves: order of the rest, links, and either red-black or one black short at the hole returned |
| RbTree.Tree.EraseNear | src/lib/rbtree/hev-rbtree.c:387-399 | the right child takes the node's place: order of the rest, links, and either red-black or one black short at the hole returned |
| RbTree.Tree.EraseFar | src/lib/rbtree/hev-rbtree.c:400-446 | the leftmost node under the right child takes the node's place: order of the rest, links, and either red-black or one black short at the hole returned |
| RbTree.Tree.Unlink | src/lib/rbtree/hev-rbtree.c:351-448 | exactly the node leaves the in-order sequence; a null result says the tree is red-black, any other names the parent of the one place that is a black short |
| RbTree.Tree.EraseSettleLeft | src/lib/rbtree/hev-rbtree.c:484-570 | with a black sibling, one round either restores all rules or moves the missing black up to the parent |
| RbTree.Tree.EraseSettleRight | src/lib/rbtree/hev-rbtree.c:586-624 | the mirrored round |
| RbTree.Tree.EraseRoundLeft | src/lib/rbtree/hev-rbtree.c:462-570 | a whole round, a red sibling first rotated away |
| RbTree.Tree.EraseRoundRight | src/lib/rbtree/hev-rbtree.c:571-624 | the mirrored round |
| RbTree.Tree.EraseColor | src/lib/rbtree/hev-rbtree.c:450-626 | from a tree a black short at one place the loop ends with the same nodes, the same order, consistent links and all red-black rules |
| RbTree.Tree.Erase | src/lib/rbtree/hev-rbtree.c:628-635 | erasing a node removes exactly it, keeps the order of the rest, and leaves a red-black tree with consistent links |
| RbTree.Tree.Link | src/lib/rbtree/hev-rbtree.h:46-54 | the node hangs red in the free link, between what lies before and after that link |
| RbShape.RotationOrder | src/lib/rbtree/hev-rbtree.c:276-293 | a rotation keeps the in-order sequence, wherever in the tree it is |
| RbShape.DoubleRotationOrder | src/lib/rbtree/hev-rbtree.c:250-293 | a double rotation keeps the in-order sequence |
| RbShape.PlugRedBlack | src/lib/rbtree/hev-rbtree.c:194-333 | a tree is red-black exactly when a subtree and the path around it fit each other: the local rule both rebalancing loops rest on |
| RbShape.InsertFlipRule | src/lib/rbtree/hev-rbtree.c:226-245 | after the flip the only fault left is a red parent of the grandparent |
| RbShape.InsertOuterRule | src/lib/rbtree/hev-rbtree.c:276-293 | one rotation and its colours end the insertion |
| RbShape.InsertInnerRule | src/lib/rbtree/hev-rbtree.c:250-293 | so do the double rotation and its colours |
| RbShape.RedSiblingRule | src/lib/rbtree/hev-rbtree.c:464-483 | rotating a red sibling away leaves the same missing black beside a black sibling |
| RbShape.LightenRule | src/lib/rbtree/hev-rbtree.c:486-513 | with two black nephews the sibling turns red: done under a red parent, else the parent's subtree is a black short |
| RbShape.InnerNephewRule | src/lib/rbtree/hev-rbtree.c:514-570 | with only the inner nephew red, two rotations restore all rules |
| RbShape.OuterNephewRule | src/lib/rbtree/hev-rbtree.c:551-570 | with the outer nephew red, one rotation restores all rules |
| RbShape.DropRule | src/lib/rbtree/hev-rbtree.c:359-382 | dropping a node with one child or none breaks the rules exactly when it was a black leaf |
| RbShape.SuccessorRule | src/lib/rbtree/hev-rbtree.c:383-446 | moving the successor up with the node's colour breaks the rules only where the successor was |
| RbShape.SuccessorOrder | src/lib/rbtree/hev-rbtree.c:383-446 | moving the successor up removes just the node from the order |
| RbShape.HeightBound | src/lib/rbtree/hev-rbtree.c:194-333 | 2^height <= (n + 1)^2 for a red-black tree of n nodes, so the height is at most 2 log2 (n + 1) |
| RunQueue.CachedTree.InsertColor | src/lib/rbtree/hev-rbtree-cached.c:15-23 | the cached node is the first again after a leaf was linked |
| RunQueue.CachedTree.Replace | src/lib/rbtree/hev-rbtree-cached.c:25-33 | the cached node is the first again after a replacement |
| RunQueue.CachedTree.Erase | src/lib/rbtree/hev-rbtree-cached.c:35-42 | the cached node is the first again after an erasure, which takes out just that node |
| RunQueue.CachedTree.FindLink | src/kern/core/hev-task-system-schedule.c:80-97 | the link found is free and has only keys not larger before it and larger ones after it; `first` says that nothing is before it |
| RunQueue.CachedTree.Insert | src/kern/core/hev-task-system-schedule.c:80-100 | stable insertion into the key-ordered sequence; the depth d of the descent has 2^d <= (n + 1)^2 |
| RunQueue.CachedTree.Reinsert | src/kern/core/hev-task-system-schedule.c:113-122 | the task is taken out and inserted again in key order, though its key changed while it was linked |
| KeyOrder.StableSplit | src/kern/core/hev-task-system-schedule.c:80-100 | where stable insertion puts an element: behind all keys not larger, before all larger ones |
| KeyOrder.StableSorted | src/kern/core/hev-task-system-schedule.c:80-100 | stable insertion keeps the order |
| KeyOrder.StableContents | src/kern/core/hev-task-system-schedule.c:80-100 | stable insertion adds just the one element |
| Scheduler.WakeupInv | src/kern/core/hev-task-system-schedule.c:144-158 | a wakeup keeps the queue exactly the running tasks, in key order and once each, and both counters right |
| Scheduler.RunNewInv | src/kern/core/hev-task-system-schedule.c:277-291 | so does running a new task |
| Scheduler.SetPriorityInv | src/kern/task/hev-task.c:91-100 | so does setting a priority, which takes effect later |
| Scheduler.Clamp | src/kern/task/hev-task.c:91-100 | a priority is cut to 0 to 15 |
| Scheduler.SwitchInv | src/kern/core/hev-task-system-schedule.c:235-238 | so does a yield: the current task is charged while linked, and queued again |
| Scheduler.WaitInv | src/kern/core/hev-task-system-schedule.c:239-242 | so does a wait for events; what key the task keeps and comes back with is in Turns.RewokenKey |
| Scheduler.ExitInv | src/kern/core/hev-task-system-schedule.c:243-245 | so does the end of a task |
| Scheduler.WakeupKeepsFirst | src/kern/core/hev-task-system-schedule.c:144-158 | no wakeup displaces the running task from the head of the queue or changes the smallest key |
| Scheduler.RunNewKeepsFirst | src/kern/core/hev-task-system-schedule.c:277-291 | no new task does |
| TaskSystem.System.NewTask | src/kern/task/hev-task.c:23-50 | a stopped task of the default priority joins the tasks of the system |
| TaskSystem.System.SetPriority | src/kern/task/hev-task.c:91-100 | the value operation, in place: only the next priority changes |
| Scheduler.CreatedInv | src/kern/task/hev-task.c:23-50 | a new task keeps the queue and the counters right |
| TaskSystem.System.MinKey | src/kern/core/hev-task-system-schedule.c:66-78 | the smallest key of the queue, 0 if it is empty |
| TaskSystem.System.InsertTask | src/kern/core/hev-task-system-schedule.c:102-111 | on the tree and the task objects, the value operation of the same name |
| TaskSystem.System.Wakeup | src/kern/core/hev-task-system-schedule.c:144-158 | the value operation, in place; `aborted` exactly where the source aborts |
| TaskSystem.System.RunNew | src/kern/task/hev-task.c:221-234 | the value operation, in place |
| TaskSystem.System.Requeue | src/kern/core/hev-task-system-schedule.c:113-122 | the current task queued again in key order with its next priority |
| TaskSystem.System.Charge | src/kern/core/hev-task-system-schedule.c:34-58 | the key of a task still linked grows by the charge, and it has its next state and priority |
| TaskSystem.System.Switch | src/kern/core/hev-task-system-schedule.c:235-238 | the value operation, in place |
| TaskSystem.System.Wait | src/kern/core/hev-task-system-schedule.c:239-242 | the value operation, in place |
| TaskSystem.System.Exit | src/kern/core/hev-task-system-schedule.c:243-245 | the value operation, in place |
| TaskSystem.System.Pick | src/kern/core/hev-task-system-schedule.c:210-211 | the head of the queue becomes current, through the cached first node |
| TaskSystem.System.WakeAll | src/kern/core/hev-task-system-schedule.c:169-174 | the loop over the events of a poll wakes each task, in order |
| TaskMachine.StepGood | src/kern/core/hev-task-system-schedule.c:195-266 | every step of a task or the kernel keeps the machine's invariant |
| TaskMachine.EveryRun | src/kern/core/hev-task-system-schedule.c:102-291 | in every state of every run: the queue is the running tasks, the counters are their numbers, the task in control is first, pick finds a task, the run is over exactly when no task is left, and an earliest timer expired at the last check has its task running |
| TaskMachine.KernelGoesOn | src/kern/core/hev-task-system-schedule.c:195-212 | a kernel pass is never stuck, whatever the clock says |
| TaskMachine.CheckKeeps | src/kern/time/hev-task-timer.c:189-204 | looking at the earliest timer serves it if it has expired, and does not abort |
| TaskMachine.ThrottledOnlyEarly | src/kern/time/hev-task-timer.c:223-241 | polling is skipped only when no timer has expired |
| TaskMachine.SleeperHandsOn | src/kern/time/hev-task-timer.c:287-298 | a resumed sleeper that is the earliest, or was when it lay down, looks at the timers again and leaves the next one running if it has expired |
| TaskMachine.QueueKeeps | src/kern/time/hev-task-timer.c:271-285 | a timer queued by expiry and address keeps the timers in order, one per task |
| Turns.MinKeyExact | src/kern/core/hev-task-system-schedule.c:66-78 | the smallest key is that of a queued task and above no other; 0 stands for an empty queue |
| Turns.StepExact | src/kern/core/hev-task-system-schedule.c:34-158 | a step seen by one task: the end of its own turn charges it at its priority and gives it its next one, or sends it to wait with that as its key; any other step leaves it as it was but for a priority set for later, or brings it into the queue at its own key plus the smallest |
| Turns.CallsDo | src/kern/core/hev-task-system-schedule.c:144-291 | after a wakeup the task is running, after a run of a stopped task it is running and counted, and the current task is running, waiting or stopped as its yield says |
| Turns.PollWakes | src/kern/core/hev-task-system-schedule.c:160-182 | after a poll every task it had an event for is runnable, and every other but an expired earliest sleeper as it was |
| Turns.NextIsLastSet | src/kern/task/hev-task.c:91-100 | over every run the next priority of a task is the one last set for it, cut to the range |
| Turns.TurnCharge | src/kern/core/hev-task-system-schedule.c:34-122 | over every run, from the time a task is queued to its next yield its key grows by its run time times the priority last set when it was queued: a later one takes effect at the next queueing |
| Turns.RewokenKey | src/kern/core/hev-task-system-schedule.c:124-158 | over every run a task that comes back from a wait stands at the smallest key plus the priority it had when it went (with an empty queue, possibly at that priority itself, first), however long it waited and whatever its key was before |
| Turns.RewokenBypass | src/kern/core/hev-task-system-schedule.c:124-158 | a task that went to wait at priority p is, once woken, passed over at most p + 1 times by each task that does not use priority 0 |
| Turns.NewBypass | src/kern/core/hev-task-system-schedule.c:277-291 | so is a task newly run by another one |
| Fairness.BoundedBypass | src/kern/core/hev-task-system-schedule.c:34-158 | while a task with key K is in the queue and the smallest key was m, a task that does not use priority 0 is picked at most K - m + 1 times, whatever the priorities of the others, and the smallest key never falls |
| Fairness.BypassExactly | src/kern/core/hev-task-system-schedule.c:34-58 | over every stretch of every run from the start, that bound holds of the tasks of priority p exactly if p is at least 1 |
| Fairness.ZeroReached | src/kern/core/hev-task-system-schedule.c:277-291 | a run from the start of the system to a task of priority 0 running ahead of another |
| Fairness.StepAdvances | src/kern/core/hev-task-system-schedule.c:34-158 | no step lowers the smallest key, nor the least key at which a task that does not use priority 0 can next stand; the end of that task's turn raises it |
| Fairness.ZeroPriorityRepeats | src/kern/core/hev-task-system-schedule.c:34-58 | a task of priority 0 ahead of all others is picked again after yielding, with nothing changed |
| Fairness.ZeroPriorityStarves | src/kern/core/hev-task-system-schedule.c:34-58 | such a task is picked n times, for every n, while another stays in line |
| Timer.CmpIsOrder | src/kern/time/hev-task-timer.c:52-66 | the comparison of normalised times is the order of time |
| Timer.AddMsExact | src/kern/time/hev-task-timer.c:92-101 | adding milliseconds is exact and keeps times normalised |
| Timer.AddNsExact | src/kern/time/hev-task-timer.c:103-112 | adding nanoseconds is exact and keeps times normalised |
| Timer.RemainingExact | src/kern/time/hev-task-timer.c:114-132 | the remaining time is max (0, the ceiling in ms), modulo 2^32 |
| Timer.SleepReturnsZeroWhenDone | src/kern/time/hev-task-timer.c:255-302 | for every 32-bit number of ms: what is left is at most what was asked for, and 0 exactly when all of it has passed |
| Timer.PollNotBeforeExpiry | src/kern/time/hev-task-timer.c:168-187 | a poll with a timeout from a cached, earlier reading does not end before the expiry, if less than 2^31 ms were left |
| Timer.TimeoutFinite | src/kern/time/hev-task-timer.c:168-187 | the timeout is a length exactly when less than 2^31 ms are left |
| Timer.LongSleepNeverPolled | src/kern/time/hev-task-timer.c:168-187 | a sleep of 2^31 ms gives the negative timeout that means no end |
| Sleeping.SleepQueued | src/kern/time/hev-task-timer.c:264-285 | a sleep of ms begun at a time queues one timer that expires ms * 1000000 ns later, as the arithmetic of the source has it, marked first exactly if it is |
| Sleeping.TimersInOrder | src/kern/time/hev-task-timer.c:271-285 | over every run the timers are in order of expiry, then of address |
| Sleeping.NeverEarly | src/kern/time/hev-task-timer.c:255-302 | over every run a sleep during which neither a wakeup nor an event names the task does not end before its time |
| Sleeping.SleepAnswers | src/kern/time/hev-task-timer.c:300-301 | over every run a sleep returns the ms left of what was asked for, rounded up, and 0 exactly if all have passed |
| Sleeping.UndisturbedAnswer | src/kern/time/hev-task-timer.c:255-302 | a sleep that nobody disturbed returns 0 |
| Sleeping.SleepOver | src/kern/time/hev-task-timer.c:293-298 | after the end of a sleep the task has no timer and goes on in control |
| Sleeping.CachedIs | src/kern/time/hev-task-timer.c:168-221 | over every run the cached clock reading is that of the last sleep since the last poll |
| Sleeping.PassExactly | src/kern/core/hev-task-system-schedule.c:184-208 | a kernel pass does not poll exactly if no task waits, skips its poll exactly if a task can run, the last poll was less than 50 us ago and no timer expires within those, and else polls |
| Sleeping.TimedOutPollWakes | src/kern/core/hev-task-system-schedule.c:160-182 | a poll that lasts as long as its timeout, from any earlier clock reading, has woken the earliest sleeper |
| Sync.StepGood | src/kern/sync/hev-task-mutex.c:33-82 | every step keeps the invariant of the mutex and the condition |
| Sync.EveryRun | src/kern/sync/hev-task-mutex.c:33-82 | in every state of every run: at most one task has the mutex, a free mutex with waiters has its first waiter runnable, the condition's list is exactly the unsignalled waits, newest first, and a signalled wait is runnable or queued for the mutex |
| Sync.HeadTakes | src/kern/sync/hev-task-mutex.c:43-52 | the first waiter of a free mutex can run, and takes it |
| Sync.SignalNewest | src/kern/sync/hev-task-cond.c:87-100 | a signal releases exactly the unsignalled wait that began last |
| Sync.BroadcastAll | src/kern/sync/hev-task-cond.c:102-113 | a broadcast releases every wait and empties the list |
| Sync.WaitAnswer | src/kern/sync/hev-task-cond.c:33-85 | a wait followed to its end returns 0 exactly if a signal or broadcast released it on the way, else -1; it returns owning the mutex and off the list; when it ends is in SyncRuns.LoopEndsExactly |
| Sync.WaitAnswerAtOnce | src/kern/sync/hev-task-cond.c:69-82 | a timed wait of 0 ms returns -1 in its first step, owning the mutex and off the list |
| Sync.StaysWaiting | src/kern/sync/hev-task-cond.c:55-85 | while a wait lasts it becomes signalled only by a signal that takes it or a broadcast |
| SyncRuns.LockExactly | src/kern/sync/hev-task-mutex.c:33-69 | a lock or a try on a free mutex takes it; on a taken one the first queues in front and sleeps, and the second changes nothing |
| SyncRuns.UnlockExactly | src/kern/sync/hev-task-mutex.c:71-82 | the mutex is free, and of the tasks just the first queued has been woken |
| SyncRuns.WaitBegins | src/kern/sync/hev-task-cond.c:55-70 | a wait releases the mutex, waking its first waiter, joins the list in front and sleeps |
| SyncRuns.LoopEndsExactly | src/kern/sync/hev-task-cond.c:69-82 | a resumed wait leaves its loop exactly if it has been signalled or is timed and its time is up; it then owns a free mutex or queues for a taken one, and else sleeps on |
| SyncRuns.TimesOut | src/kern/sync/hev-task-cond.c:69-85 | a timed wait resumed with its time up, unsignalled and with the mutex free, returns -1, owning the mutex and off the list |
| SyncRuns.QueueEndsExactly | src/kern/sync/hev-task-mutex.c:43-53 | a task resumed in the lock gets the mutex exactly if it is free and the task first in the queue |
| SyncRuns.LastCameFirst | src/kern/sync/hev-task-mutex.c:36-48 | over every run the tasks queued for the mutex stand in the order they came, the last in front |
| SyncRuns.LastBeganFirst | src/kern/sync/hev-task-cond.c:59-84 | over every run the unsignalled waits stand in the order they began, the last in front |
| SyncRuns.SignalLatest | src/kern/sync/hev-task-cond.c:87-100 | over every run a signal releases the one wait, of those not signalled, that began last |
| WaiterList.Cond.Push | src/kern/sync/hev-task-cond.c:59-67 | the node is first in a well-formed doubly linked list of unreleased waiters |
| WaiterList.Cond.Signal | src/kern/sync/hev-task-cond.c:87-100 | the first node leaves, loses its task and has it woken; the list stays well formed |
| WaiterList.Cond.Broadcast | src/kern/sync/hev-task-cond.c:102-113 | all nodes lose their tasks, woken in list order; the list is empty |
| WaiterList.Cond.TakeOut | src/kern/sync/hev-task-cond.c:74-84 | -1 exactly if the node was still in the list, which it leaves; the list stays well formed |
| ChannelRing.Clip | src/kern/itc/hev-task-channel.c:111-137 | the first n bytes of a message, all of it if it is not longer |
| ChannelRing.Ring.constructor | src/kern/itc/hev-task-channel.c:19-73 | an empty ring of one buffer more than asked for |
| ChannelRing.Ring.Take | src/kern/itc/hev-task-channel.c:157-176 | the oldest message leaves the queue, cut to the reader's count |
| ChannelRing.Ring.Put | src/kern/itc/hev-task-channel.c:208-228 | the message, cut to the buffer size if there are buffers, joins the queue; its stored size is returned |
| ChannelRing.Ring.Indices | src/kern/itc/hev-task-channel.c:157-228 | the write index is the read index plus the use count, modulo the ring size |
| Channel.StepGood | src/kern/itc/hev-task-channel.c:81-251 | every step of either task keeps the invariant of both directions |
| Channel.Delivery | src/kern/itc/hev-task-channel.c:139-251 | over every interleaving the messages read are the first of those sent, in order, each once, cut as specified, and the rest is in the ring; that those sent are those of the calls is in ChannelCalls.SentIs |
| Channel.WriteAnswers | src/kern/itc/hev-task-channel.c:184-251 | a write answers the stored size, or -1 with its message never read and the reader gone; without buffers it succeeds exactly when its message was read |
| Channel.NoLostWakeup | src/kern/itc/hev-task-channel.c:139-251 | a task blocked in a read or write for which there is data, room or no peer is runnable; the first wait of a write never blocks; an unbuffered message in the ring has its writer still in the call |
| Channel.NoFreedPeer | src/kern/itc/hev-task-channel.c:81-251 | no step touches an endpoint whose memory was released |
| Channel.FreedExactly | src/kern/itc/hev-task-channel.c:81-109 | an endpoint is freed exactly when it is destroyed and no write into it is under way |
| Channel.HistoryGrows | src/kern/itc/hev-task-channel.c:139-251 | nothing sent, answered or read is ever taken back |
| ChannelCalls.SentStep | src/kern/itc/hev-task-channel.c:184-230 | a write to an open peer adds its message to what was sent there, and nothing else does |
| ChannelCalls.WriteStepExact | src/kern/itc/hev-task-channel.c:184-243 | a write puts its message, cut to the buffer, into the ring and answers at once exactly if room is left; to a gone peer it does nothing |
| ChannelCalls.ReadStepExact | src/kern/itc/hev-task-channel.c:139-176 | a read takes the oldest message, cut to its own count, waits exactly if there is none and the peer is open, and else ends with nothing |
| ChannelCalls.SentIs | src/kern/itc/hev-task-channel.c:184-251 | over every run what was sent to an endpoint is the list of the messages of the writes made while it was open, a function of the calls alone |
| ChannelCalls.WritesDelivered | src/kern/itc/hev-task-channel.c:139-251 | over every run the messages read are the first of those of these calls, cut as specified, and the ring holds the rest |
| ChannelCalls.WritesAnswered | src/kern/itc/hev-task-channel.c:184-251 | over every run the i-th such call answers the size of its own message as stored, or -1 with the reader gone and the message unread; without buffers it answers the size exactly if it was read |
| ChannelCalls.ReceiptIs | src/kern/itc/hev-task-channel.c:139-182 | over every run a read is answered with the oldest message cut to the count of the read call it ends |
| ChannelSelect.StepSound | src/kern/itc/hev-task-channel-select.c:33-76 | every step of the task or its peers keeps the lists right |
| ChannelSelect.ListsExact | src/kern/itc/hev-task-channel-select-private.h:33-75 | over every run a channel is in the read list exactly when its ring is not empty, and one in the write list has room at its peer |
| ChannelSelect.NeverSleepsOver | src/kern/itc/hev-task-channel-select.c:57-76 | a task that reads and writes only what its selections offer never blocks in a read or write and never sleeps in a selection with a channel in its list |
| ChannelSelect.SelectSafe | src/kern/itc/hev-task-channel-select.c:57-76 | a task about to sleep in a selection for reading can never sleep over a readable channel exactly if every channel with a live peer has its task pointer set |
| ChannelSelect.WaitingUnhears | src/kern/itc/hev-task-channel.c:146-154 | a read or write that waited leaves its channel without a task pointer |
| ChannelSelect.BlockingWriteUnhears | src/kern/itc/hev-task-channel.c:232-243 | from every state in which a write would fill the ring of its peer: that write, its peer's read and its return lead to such a state |
| ChannelSelect.WriteListMisses | src/kern/itc/hev-task-channel.c:165-174 | a run of such a task after which a channel is writable and the write list empty |
| ChannelSelect.EmptySleeps | src/kern/itc/hev-task-channel-select.c:57-76 | a selection for writing then sleeps |
| ChannelSelect.OfferedExactly | src/kern/itc/hev-task-channel.c:165-174 | from every state, whatever the peers do, a channel is in the write list whenever it is writable exactly if it is in the list now, or full, or without buffers, or without a peer |
| ChannelSelect.WriteKeepsOffered | src/kern/itc/hev-task-channel.c:228-230 | after a write to an offered channel that is so exactly if the write leaves room for two more messages |
| ChannelSelect.NeverReoffered | src/kern/itc/hev-task-channel.c:165-230 | over every run of such a task, a channel that has left the write list is not in it again until it is added anew |
| ChannelSelect.SleepsForEver | src/kern/itc/hev-task-channel-select.c:57-76 | such a task, once asleep in a selection for writing with nothing offered, never comes back from it, whatever its peers do and however often it is woken |
| SelectRuns.SelectExactly | src/kern/itc/hev-task-channel-select.c:57-76 | a selection comes back at once exactly if the selector has no channel, its list has one or the timeout is 0, and else sleeps |
| SelectRuns.SelectEndsExactly | src/kern/itc/hev-task-channel-select.c:66-75 | a resumed selection ends exactly if its list has a channel or it is timed and its time is up |
| SelectRuns.AnswerUsable | src/kern/itc/hev-task-channel-select.c:57-76 | a channel returned for reading holds a message and one returned for writing has room; none for reading means that none holds one |
| SelectRuns.AddExactly | src/kern/itc/hev-task-channel-select.c:33-44 | an added channel is heard, in the read list exactly if it is readable and in the write list exactly if it is writable; the others stay as they were |
| SelectRuns.DelExactly | src/kern/itc/hev-task-channel-select.c:46-55 | a deleted channel is in no list, and the others stay as they were |
| SelectRuns.RingsStep | src/kern/itc/hev-task-channel.c:139-251 | a step changes the fill of a ring by the one message that it puts in or takes out |
| SelectRuns.FirstListedFirst | src/kern/itc/hev-task-channel-select-private.h:33-75 | over every run both lists offer their channels in the order they came in |
| List.Chain.AddTail | src/lib/list/hev-list.c:14-25 | the node is last; the list stays well formed in both directions |
| List.Chain.Del | src/lib/list/hev-list.c:27-39 | just the node leaves; the list stays well formed in both directions |
| Links.FrontedLinked | src/mem/slice/hev-memory-allocator-slice.c:234-248 | insertion at the head links up the longer sequence |
| Links.BackedLinked | src/lib/list/hev-list.c:14-25 | insertion at the tail links up the longer sequence |
| Links.BypassedLinked | src/lib/list/hev-list.c:27-39 | tying the neighbours of a node together links up the sequence without it |
| SliceModel.AllocRefines | src/mem/slice/hev-memory-allocator-slice.c:86-136 | an allocation keeps the invariant and is a malloc: a block no client holds, big enough for every size served, other clients' blocks untouched |
| SliceModel.ReallocRefines | src/mem/slice/hev-memory-allocator-slice.c:138-174 | a reallocation keeps the invariant and is a realloc: size 0 frees, a refusal changes nothing, else the client holds the new block instead, big enough exactly for sizes up to 2^64 - 32 |
| SliceModel.FreeRefines | src/mem/slice/hev-memory-allocator-slice.c:176-215 | a free keeps the invariant and takes exactly that block from its client |
| SliceModel.VictimFound | src/mem/slice/hev-memory-allocator-slice.c:187-199 | eviction always finds a block: the tail of the LRU list names a class with one |
| SliceModel.EveryRun | src/mem/slice/hev-memory-allocator-slice.c:86-262 | after every sequence of calls: the count is the total length of the free lists and at most 1000, a class is in the LRU list exactly when its free list is not empty, no block is cached twice or while a client holds it, class i blocks have at least (i + 1) * 16 bytes, and no block is lost |
| SliceModel.Sizes | src/mem/slice/hev-memory-allocator-slice.c:93-94 | what the class index and the request to the system come to, with the wraps |
| SliceModel.ServedExactly | src/mem/slice/hev-memory-allocator-slice.c:86-136 | an allocation is sure to return enough bytes exactly if the size does not wrap with its header and its unit count is not a huge number that looks like a class in 32 bits |
| SliceModel.SmallServed | src/mem/slice/hev-memory-allocator-slice.c:93-94 | all sizes up to 64 GiB are served, and the next is not |
| SliceModel.OneCachedReached | src/mem/slice/hev-memory-allocator-slice.c:86-215 | an allocation and its free lead to the state in which a size that looks small gets a small block |
| SliceModel.DestroyOnce | src/mem/slice/hev-memory-allocator-slice.c:217-232 | the free lists in LRU order hold each cached block once and no client's block |
| SliceRuns.ClassesAre | src/mem/slice/hev-memory-allocator-slice.c:93-94 | the class of each size up to 64 GiB, and the bytes asked for |
| SliceRuns.AllocExactly | src/mem/slice/hev-memory-allocator-slice.c:86-136 | an allocation fails exactly for size 0 or without a cached block and without memory; it takes the block cached last of the class if there is one, else a new one of the size asked for, labelled with its class |
| SliceRuns.FreeExactly | src/mem/slice/hev-memory-allocator-slice.c:176-215 | a block of no class goes back; else it is cached in front of its class, and at the cap one block of the class used least recently goes back first |
| SliceRuns.FreeThenAlloc | src/mem/slice/hev-memory-allocator-slice.c:86-215 | a free below the cap and then an allocation of the same class give the same block, with the caches as before |
| SliceRuns.ReallocLabels | src/mem/slice/hev-memory-allocator-slice.c:138-174 | a reallocated block is labelled with its new class and leaves the caches alone |
| SliceRuns.LruByUse | src/mem/slice/hev-memory-allocator-slice.c:113-262 | over every run from the start the LRU list has the classes in the order of their last use, the latest in front |
| SliceRuns.VictimOldest | src/mem/slice/hev-memory-allocator-slice.c:187-199 | over every run, of all classes with cached blocks the one evicted from was used longest ago |
| SliceAllocator.Lru.Insert | src/mem/slice/hev-memory-allocator-slice.c:234-248 | the class is first; links, head and tail stay right |
| SliceAllocator.Lru.Remove | src/mem/slice/hev-memory-allocator-slice.c:250-262 | just the class leaves; links, head and tail stay right |
| SliceAllocator.Allocator.constructor | src/mem/slice/hev-memory-allocator-slice.c:61-84 | the empty state, which is valid |
| SliceAllocator.Allocator.Alloc | src/mem/slice/hev-memory-allocator-slice.c:86-136 | the value operation, in place |
| SliceAllocator.Allocator.Realloc | src/mem/slice/hev-memory-allocator-slice.c:138-174 | the value operation, in place |
| SliceAllocator.Allocator.Free | src/mem/slice/hev-memory-allocator-slice.c:176-215 | the value operation, in place |
| SliceAllocator.Allocator.Evict | src/mem/slice/hev-memory-allocator-slice.c:187-199 | one block of the least recently used class goes back to the system |
| SliceAllocator.Allocator.Destroy | src/mem/slice/hev-memory-allocator-slice.c:217-232 | the loops free each cached block exactly once, and no client's block |
| RingWindow.WindowDrop | src/lib/io/buffer/hev-circular-buffer.c:92-97 | moving the start of a ring forward takes the first elements off its queue |
| RingWindow.WindowGrow | src/lib/io/buffer/hev-circular-buffer.c:99-125 | filling the cells behind adds them to its queue, around the end |
| CircularBuffer.Buffer.Reading | src/lib/io/buffer/hev-circular-buffer.c:72-90 | the spans name exactly the cells of the contents, in order, none if there are none |
| CircularBuffer.Buffer.ReadFinish | src/lib/io/buffer/hev-circular-buffer.c:92-97 | the first bytes leave the contents |
| CircularBuffer.Buffer.Writing | src/lib/io/buffer/hev-circular-buffer.c:99-119 | the spans name exactly the free cells, in order from behind the contents |
| CircularBuffer.Buffer.WriteFinish | src/lib/io/buffer/hev-circular-buffer.c:121-125 | the cells filled join the contents |
| CircularBuffer.Buffer.Fill | src/lib/io/basic/hev-task-io.c:337-347 | bytes read into the writing spans follow the contents |
| CircularBuffer.Buffer.Drain | src/lib/io/basic/hev-task-io.c:350-360 | bytes written from the reading spans are the first of the contents |
| Splice.Direction.Receive | src/lib/io/basic/hev-task-io.c:337-348 | as much of the input as fits joins what was read; what was read is what was written and then the contents |
| Splice.Direction.Send | src/lib/io/basic/hev-task-io.c:350-364 | the first of the contents are written, as many as the output takes; the output is shut down exactly when the input has ended and nothing is left |
| Splice.Direction.Step | src/lib/io/basic/hev-task-io.c:331-367 | the pass on values, in place; -1 exactly at a shutdown with everything written or a failed write, 1 exactly when bytes were written |
| Splice.PassedConserved | src/lib/io/basic/hev-task-io.c:331-367 | for all answers of the system, what was written is a prefix of what was read, the rest fits the buffer, and a shutdown has everything written |
| Splice.After | src/lib/io/basic/hev-task-io.c:386-392 | that holds after every number of passes |
| Splice.PassedExactly | src/lib/io/basic/hev-task-io.c:331-367 | a pass takes as much of the input as fits and writes as much as there is and the output takes; it shuts down exactly at the end of the input with nothing left, and breaks exactly on a failed write |
| Splice.DrainsAndShuts | src/lib/io/basic/hev-task-io.c:350-364 | at the end of the input, an output that keeps taking something has everything and is shut down after one pass more than bytes are left |
| Splice.Run | src/lib/io/basic/hev-task-io.c:371-412 | each direction is where the passes bring it, an ended one no longer moved; the loop ends by itself exactly when both have ended, else a yielder stopped it |
| Iovec.Total | src/lib/io/socket/hev-task-io-socket.c:339-342 | the number of bytes the vector stands for |
| Iovec.Trim | src/lib/io/socket/hev-task-io-socket.c:369-381 | the trimmed vector stands for the old one without its first bytes, and keeps an entry, empty entries or not |
| Iovec.WaitAll | src/lib/io/socket/hev-task-io-socket.c:322-448 | the loop returns `Returned`, which Iovec.ReturnedExactly says outright; the bytes moved are the first of the vector, each once and in order, as many as a positive result says, all at full length |
| Iovec.ReturnedExactly | src/lib/io/socket/hev-task-io-socket.c:344-385 | the result at the first answer that ends the call: the whole length with the last byte, else what was moved, or with nothing moved the value of the failure, or -2 from the yielder; none without such an answer |
| Iovec.FullLength | src/lib/io/socket/hev-task-io-socket.c:344-385 | answers without failure or stop that add up to the length give the whole length |
| Iovec.ShortNeedsReason | src/lib/io/socket/hev-task-io-socket.c:344-385 | any other result comes with a failure or a yielder that stops |
| FdRegistry.IndexOf | src/sys/windows/hev-sys-fd.c:64-71 | a slot exactly for descriptors of the virtual range |
| FdRegistry.Grown | src/sys/windows/hev-sys-fd.c:73-89 | the capacity at least doubles from at least 256, past what is needed, within 2^20; there is one exactly when both are below that |
| FdRegistry.Table.constructor | src/sys/windows/hev-sys-fd.c:38-62 | no slot in use |
| FdRegistry.Table.Grow | src/sys/windows/hev-sys-fd.c:73-104 | free slots join behind, the others stay; fails exactly without room or memory |
| FdRegistry.Table.Allocate | src/sys/windows/hev-sys-fd.c:171-211 | the lowest free descriptor, with a new generation, across growth; fails exactly for an invalid socket or when all slots are in use and there can be no more; every slot below the hint stays in use |
| FdRegistry.Table.CloseFd | src/sys/windows/hev-sys-fd.c:213-234 | the socket is returned and its slot free, with its generation; nothing for other descriptors |
| FdRegistry.Table.Replace | src/sys/windows/hev-sys-fd.c:236-259 | the slot has what it was given and a new generation, and the old socket is returned; every slot below the hint stays in use exactly if it was not an invalid socket for one of them |
| FdRegistry.Table.ToSocket | src/sys/windows/hev-sys-fd.c:112-129 | the socket of a slot of the table, nothing for other descriptors |
| FdRegistry.Table.ToToken | src/sys/windows/hev-sys-fd.c:136-153 | a token exactly for a slot in use, made of its generation and index |
| FdRegistry.Table.FromToken | src/sys/windows/hev-sys-fd.c:155-169 | the socket of the slot if the generations agree |
| FdRegistry.SlotIs | src/sys/windows/hev-sys-fd.c:171-259 | over every run a slot holds what the last change that named it put there |
| FdRegistry.TokenGives | src/sys/windows/hev-sys-fd.c:136-169 | a token gives what its slot holds exactly if the writes since are a multiple of 2^44, and else nothing |
| FdRegistry.TokenHonest | src/sys/windows/hev-sys-fd.c:131-169 | over every run a token gives its socket until the slot is closed, then nothing, nothing after 1 to 2^44 - 1 new registrations or replacements of the slot, and after 2^44 whatever the slot holds |
| FdRegistry.TokenWraps | src/sys/windows/hev-sys-fd.c:187-187 | the same of any two states, by the number of writes to the slot between them |
| DnsProxy.StepGood | src/lib/dns/hev-task-dns-proxy.c:95-300 | every step of a client, the handler (each look at the call pointer on its own) or the drain keeps the invariant |
| DnsProxy.StreamMoves | src/lib/dns/hev-task-dns-proxy.c:95-300 | bytes come back in the order they were sent, whoever moves |
| DnsProxy.ExactlyOnce | src/lib/dns/hev-task-dns-proxy.c:95-146 | in every run the calls returned from are the first of those executed, and those the first of those begun, with at most one under way |
| DnsProxy.HistoryIs | src/lib/dns/hev-task-dns-proxy.c:263-300 | over every run the calls begun are those of the clients that took the lock, in that order, and the numbers of calls begun, executed and returned from are those of the steps that do it |
| DnsProxy.ExecutedInOrder | src/lib/dns/hev-task-dns-proxy.c:95-300 | over every run the calls executed and returned from are the first that took the lock, as many as there were such steps |
| DnsProxy.RestsWhenDone | src/lib/dns/hev-task-dns-proxy.c:100-111 | the handler rests only with nothing left to read |
| DnsProxy.ExecutedBeforeReturn | src/lib/dns/hev-task-dns-proxy.c:263-300 | a caller goes on with its own call, and every call begun, executed, and is the task the reactor wakes |
| DnsProxy.CallAlive | src/lib/dns/hev-task-dns-proxy.c:113-122 | in every run a step that follows the call pointer follows it to the unexecuted call of a waiting client exactly if no drain has begun; else, but for the end of the call, it follows null |
| DnsProxy.AliveExactly | src/lib/dns/hev-task-dns-proxy.c:113-122 | after a look that found a call, the pointer followed later is still that of a waiting client exactly if no drain began in between |
| DnsProxy.DrainSafe | src/lib/dns/hev-task-dns-proxy.c:204-211 | after a drain begins the handler never follows a call pointer again exactly if it is not between its look and the end of the call |
| DnsProxy.QuietIsSafe | src/lib/dns/hev-task-dns-proxy.c:247-261 | with no client waiting for an answer it is not |
| DnsProxy.FaultReached | src/lib/dns/hev-task-dns-proxy.c:113-114 | a run in which a drain begins between two looks and the handler follows null |
| DnsProxy.DrainedUntouched | src/lib/dns/hev-task-dns-proxy.c:204-245 | once the drain has read its echo, no handler step touches the proxy again, wherever the clients were when it began |

## Left out

- Context switches (assembly, setjmp and longjmp), task stacks, thread-environment ranges: a task step is atomic instead.
- The reactor (epoll, kqueue, IOCP), sockets, pipes and clock reads: their answers are parameters of the steps and scripts.
- Reference counts of tasks, objects, buffers and aides, and the links of the list of all tasks: counters that would only add easy members.
- `hev_task_join`, and the wakeup of a joiner when the entry function returns: a wakeup and a wait like any other, which the machine allows at any time.
- The kernel-pipe variant of the splice: the same control with its data outside the program.
- The plain receive and send loops and the calls without `MSG_WAITALL`: the vector loops contain what is hard about them.
- The IOCP handle tree: another user of the same red-black tree.
- Windows errno, socket, poll and message wrappers; the debugger, the stack detector, apps and benches.
- The timer queue on tree nodes: it is a sequence ordered by expiry and address in the machine; the tree operations it uses are proved for the run queue. The pointer surgery of the waiter stack of the mutex is a sequence too.
- Channel and selector protocols, mutex and condition on objects: their waits yield inside loops, so the protocols are state machines on values; what they do to rings and lists is in place in their own classes.
- Free lists of the slice allocator are sequences, not chains of headers; the LRU links are arrays as in the source.
- Scheduling keys and reference counts are unbounded integers; a wrap of the 64-bit key is not modelled, nor that of `size * buffers` in a new channel.
- TaskMachine.EveryRun: no upper bound on oversleeping is stated, because a cached clock reading survives a pass that skips polling.
- Sync.EveryRun: tasks lock only what they do not own and release or wait only owning it, as the calls demand; with several mutexes or conditions each pair is such a protocol.
- Channel.Delivery: one task per endpoint, which destroys it only outside of its calls, as the single task pointer demands.
- Splice.Run: the loop goes as far as the script of answers; it need not end.
- DnsProxy.ExactlyOnce: system calls succeed in the end or are repeated; a closed peer or another error on the private socket pair is not modelled.
