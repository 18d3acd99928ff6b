# tinyasync I/O context core, in Dafny

This project models the scheduling core of tinyasync's `IoCtx<T>`
(`include/tinyasync/io_context.h`) and proves properties of it:

- the intrusive timer ring: `timeNode` (`init`, `remove_self`, `push`,
  `is_expire`) and `timeQueue<D>` (`push`, `pop`, `front`, `back`, `empty`);
- the entry points `post_task`, `post_time_out` and `request_abort`;
- one iteration of the `run` loop. It sweeps expired timers into the task
  queue, pops a task, then checks the abort flag. It then either runs the task
  or blocks on the event poll. After a wait it classifies the returned keys
  into wakeup signals and real I/O events, decides whether to re-arm the
  wakeup for another idle thread, and invokes the callbacks.

The model has four modules:

- `Native` models `std::size_t` arithmetic with its wrap-around (`Inc`, `Dec`,
  `Add` modulo 2^64) and an `Option` for "pointer or null".
- `TimeQueue` keeps the nodes in a heap, a map from node id to `TimeNode`. The
  predicate `Ring(h, head, s)` ties the pointer structure to an abstract
  sequence `s` of node ids, front first, behind the sentinel `head`. The
  queue operations and `remove_self` are proved to be changes of that
  sequence. `timeNode::push` is stated by the links it sets, and as a change
  of the sequence where `timeQueue::push` uses it, at the back.
- `Events` models the classification loop, the dispatch loop and the re-arm
  decision. A returned key is the event's `data.ptr` read as an address. Keys
  below `CallbackGuard` (8) are wakeup signals.
- `IoCtx` holds the engine state `Engine`, the entry points, the timer sweep
  and `Step`, one pass through the body of `run`'s `for (;;)`.
  `TimeQueueTest` states the scenarios of
  `examples/myself_test/test_time_queue.cpp` for all heaps and node ids.

Assumptions and modelling choices:

- The task queue (`Queue` of `ListNode`s) is not part of this model. It is
  taken to be a FIFO: `push` appends, and `pop` removes and returns the head
  or null. It is modelled as `seq<TaskId>`.
- The trait's `multiple_thread` is the field `Engine.multi`. Both branches of
  every `if constexpr (k_multiple_thread)` are modelled. The semantics are
  single-threaded: the spinlock `m_que_lock` is absent, and nothing runs
  between the statements of one call.
- The clock reading (`Clock::now()`) and the outcome of `epoll_wait` are
  parameters: `now` and `WaitResult` (`WaitFailed` for `nfds == -1`, or the
  batch of keys).
- `wakeup_a_thread` has no modelled effect on state. Each call is counted:
  it is the boolean of `PostTask` and `RequestAbort`, and `signals` in a
  sweep or an iteration.
- Running a task and invoking a callback are opaque. An iteration reports
  which task ran (`Ran`) and which keys were dispatched (`Waited`).
- The code is followed where its comments disagree with it:
  - `timeQueue<3>` in the test is 3 milliseconds (`MS(miliseconds)`), while
    its comment says 3 seconds.
  - The engine's timer queue is `timeQueue<10 * 1000>`, 10 seconds, while its
    comment says 30 seconds.
- `remove_self` does not reset the node's own links. The sweep calls it on a
  node that `pop` has already unlinked. `TimeQueue.PopThenRemoveSelf` shows
  that this second call changes nothing.
- The abort path of `run` pops a task and drops it without decrementing
  `m_task_queue_size` (the source marks it "very rude"). `IoCtx.StepAbort` and
  `IoCtx.AbortLeavesCountBehind` state this behaviour as written.

## Model

| member | source | states |
|---|---|---|
| TimeQueue.Init | include/tinyasync/io_context.h:137-144 | `init` makes the node a self-loop; on a queue's head it yields the empty ring; no task or expiry changes and no other node is touched |
| TimeQueue.RemoveSelf | include/tinyasync/io_context.h:146-154 | only the predecessor's forward link and the successor's back link are rewritten, around the node; the answer is true iff predecessor and successor coincide |
| TimeQueue.PushAfter | include/tinyasync/io_context.h:156-163 | `push` links the node after `at` and in front of `at`'s old successor: `at` points forward to it and the old successor back to it, and it points to both (where the stores do not overlap); nothing else and no task or expiry changes |
| TimeQueue.IsExpire | include/tinyasync/io_context.h:165-168 | a node has expired at `ts` iff its expiry is strictly before `ts`; `TimeQueue.PushExpiry` states this for a pushed node |
| TimeQueue.Front | include/tinyasync/io_context.h:198-200 | `front()` is the head's successor; on a ring it is the first node, by `TimeQueue.FrontBackEmpty` |
| TimeQueue.Back | include/tinyasync/io_context.h:202-204 | `back()` is the head's predecessor; on a ring it is the last node, by `TimeQueue.FrontBackEmpty` |
| TimeQueue.Empty | include/tinyasync/io_context.h:206-208 | `empty()` holds iff the head points forward to itself; on a ring that is the empty sequence, by `TimeQueue.FrontBackEmpty` |
| TimeQueue.Push | include/tinyasync/io_context.h:186-190 | `timeQueue::push` stamps the node's expiry as the clock plus the queue's duration and changes no other task or expiry |
| TimeQueue.Pop | include/tinyasync/io_context.h:192-196 | `pop` changes no node's task or expiry |
| TimeQueue.FrontBackEmpty | include/tinyasync/io_context.h:198-208 | on a ring, `empty()` holds iff the sequence is empty, and `front()`/`back()` are its first and last nodes (the head when empty) |
| TimeQueue.RemoveSelfLinked | include/tinyasync/io_context.h:146-154 | `remove_self` on the i-th node of a ring leaves exactly the ring without that node, answers true iff the ring is then empty, and leaves the node's own entry as it was |
| TimeQueue.RemoveSelfUnlinked | include/tinyasync/io_context.h:137-154 | on a freshly `init`-ed (self-looped) node, `remove_self` changes nothing and answers true |
| TimeQueue.RemoveSelfTwice | include/tinyasync/io_context.h:146-154 | a second `remove_self` on a removed node, with no change in between, leaves the whole heap unchanged and repeats the answer "ring now empty" |
| TimeQueue.PushAppends | include/tinyasync/io_context.h:186-190 | pushing an unlinked node appends it at the back of the ring's sequence with the stamped expiry, and changes no other payload |
| TimeQueue.PopFront | include/tinyasync/io_context.h:192-196 | `pop` drops the first node of a non-empty ring, keeps the rest in order, and is the identity on an empty ring |
| TimeQueue.PopThenRemoveSelf | include/tinyasync/io_context.h:525-530 | the sweep's `remove_self` on the node it just popped leaves the heap exactly as `pop` left it |
| TimeQueue.PushKeepsOrder | include/tinyasync/io_context.h:173-190 | with one fixed duration, a push at a clock reading no earlier than earlier pushes keeps the ring ordered by expiry, front to back |
| TimeQueue.RemoveSelfKeepsOrder | include/tinyasync/io_context.h:146-154 | `remove_self` on any node of a ring ordered by expiry leaves the remaining ring ordered |
| TimeQueue.PopKeepsOrder | include/tinyasync/io_context.h:192-196 | `pop` on a non-empty ring ordered by expiry leaves the rest of the ring ordered |
| TimeQueue.PushExpiry | include/tinyasync/io_context.h:165-190 | a node pushed at `t` is expired at `ts` iff `ts > t + duration` (strict `<` in `is_expire`) |
| TimeQueueTest.PushAll | examples/myself_test/test_time_queue.cpp:41-43 | pushing distinct fresh nodes one after another appends them to the ring's sequence in push order |
| TimeQueueTest.RemoveEach | examples/myself_test/test_time_queue.cpp:46-50 | calling `remove_self` on a prefix of the ring, node by node, leaves the ring's remaining suffix; the calls all answer false iff at least one node stays |
| TimeQueueTest.ExpiryScenario | examples/myself_test/test_time_queue.cpp:22-38 | a node pushed at `t` into `timeQueue<3>` is not expired at `t` and is expired at `t + 4000`; the queue is not empty, and removing the node answers true and empties it |
| TimeQueueTest.PushScenario | examples/myself_test/test_time_queue.cpp:41-45 | after pushing nodes into an empty queue, it holds them in push order and is not empty |
| TimeQueueTest.DrainScenario | examples/myself_test/test_time_queue.cpp:46-51 | in a ten-node queue, nine `remove_self` calls answer false and leave one node; the tenth answers true and leaves the queue empty |
| Events.Classify | include/tinyasync/io_context.h:620-662 | the classification loop raises `wakeup_event` iff some key is below the guard and `effective_event` iff some key is at or above it |
| Events.Dispatch | include/tinyasync/io_context.h:678-696 | the dispatch loop invokes the callback keys of the batch, in returned order, skipping the wakeup keys |
| Events.DispatchedAppend | include/tinyasync/io_context.h:678-696 | dispatching a concatenated batch dispatches the first part and then the second |
| Events.DispatchedMembers | include/tinyasync/io_context.h:683-689 | a key is invoked iff it was returned and lies at or above `CallbackGuard` |
| Events.DispatchedNonEmpty | include/tinyasync/io_context.h:678-696 | some callback is invoked iff the batch holds a real I/O event |
| Events.RearmAfterWait | include/tinyasync/io_context.h:664-675 | the re-arm rule: some thread is waiting, and abort is set or a wakeup signal came with a `size_t` sum `task_queue_size + effective_event` above 1; `Events.RearmOnEvents` restates it in terms of the keys |
| Events.RearmOnEvents | include/tinyasync/io_context.h:664-675 | with no waiting thread nothing is re-armed; otherwise abort re-arms, and a wakeup signal re-arms iff two tasks are queued, or one task is queued and a real event arrived too |
| Events.LoneWakeupNoRearm | include/tinyasync/io_context.h:664-675 | a batch of wakeup signals only, with an empty task queue and no abort, never re-arms |
| Events.RearmSumWraps | include/tinyasync/io_context.h:668 | `task_queue_size + effective_event` is a `size_t` sum: at `SIZE_MAX` it wraps to 0 and the wakeup is not re-armed, while one below it re-arms |
| IoCtx.PostTask | include/tinyasync/io_context.h:441-466 | `post_task` appends the task at the back of the queue; only in multi-thread mode does it count the task (a `size_t` increment) and request a wakeup, and it requests one iff a thread is waiting; the size/queue agreement is preserved |
| IoCtx.PostTimeOut | include/tinyasync/io_context.h:468-472 | `post_time_out` appends an unlinked node to the engine's timer ring with expiry `now + 10000` ms and changes nothing else in the engine |
| IoCtx.RequestAbort | include/tinyasync/io_context.h:474-488 | `request_abort` sets the flag and changes nothing else; it requests a wakeup iff the mode is multi-thread and a thread is waiting |
| IoCtx.SweepFront | include/tinyasync/io_context.h:525-530 | one round on an expired front removes it from the ring, posts its task at the back of the task queue, and changes no timer payload |
| IoCtx.Sweep | include/tinyasync/io_context.h:509-531 | the sweep takes a prefix of the ring off it, keeps the remaining suffix as the ring and changes no timer payload or thread counters |
| IoCtx.SweepExpired | include/tinyasync/io_context.h:511-531 | every swept node was expired at the sweep's clock reading, and the first node left on the ring is not expired |
| IoCtx.SweepPostsInOrder | include/tinyasync/io_context.h:526-529 | the sweep posts the swept nodes' tasks behind the already queued tasks, in ring order |
| IoCtx.SweepCounters | include/tinyasync/io_context.h:511-531 | in multi-thread mode the sweep counts each posted task and requests one wakeup per post when a thread is waiting; in single-thread mode it does neither |
| IoCtx.SweepLeavesNoExpired | include/tinyasync/io_context.h:511-531 | on a ring ordered by expiry, no expired node remains after the sweep |
| IoCtx.Step | include/tinyasync/io_context.h:499-699 | an iteration ends in `Aborted` (leaving the loop by `return`) iff the abort flag is set; one other way out of `run` is the throw of a failed wait in multi-thread mode, `WaitError`. It keeps a suffix of the timer ring, changes no timer's task or expiry, and never changes the waiting count or the abort flag across the iteration |
| IoCtx.StepAbort | include/tinyasync/io_context.h:533-546 | with abort set, the head of the swept queue is popped and dropped (reported, not run) and `m_task_queue_size` keeps its value |
| IoCtx.StepRunsHead | include/tinyasync/io_context.h:548-567 | without abort and with a non-empty queue after the sweep, the head task runs, leaves the queue, and is uncounted in multi-thread mode |
| IoCtx.StepWaits | include/tinyasync/io_context.h:568-699 | with nothing to run, the thread waits: a failed wait throws in multi-thread mode and dispatches nothing otherwise; a ready wait dispatches exactly the callback keys and re-arms only in multi-thread mode by the re-arm rule |
| IoCtx.SingleThreadNoSignals | include/tinyasync/io_context.h:446-487 | in single-thread mode no entry point and no iteration requests a wakeup or changes `m_task_queue_size` |
| IoCtx.StepTracks | include/tinyasync/io_context.h:548-555 | an iteration that does not abort keeps `m_task_queue_size` equal to the queue length |
| IoCtx.AbortLeavesCountBehind | include/tinyasync/io_context.h:533-546 | an aborting iteration in multi-thread mode that drops a task, whether queued before the iteration or posted by its sweep onto an empty queue, leaves `m_task_queue_size` one above the queue length |
| IoCtx.LoneThreadNeverRearms | include/tinyasync/io_context.h:606-675 | when `m_task_queue_size` agrees with the queue and no other thread acts, a waiting iteration never re-arms the wakeup |
| IoCtx.TaskFifoScenario | include/tinyasync/io_context.h:441-566 | tasks posted A, B, C with no pending timer and no abort are run A, B, C by the next three iterations |
| IoCtx.SweepSingle | include/tinyasync/io_context.h:509-531 | on a one-node timer ring, the sweep takes the node iff it has expired, and then posts its task |
| IoCtx.ScheduledStart | include/tinyasync/io_context.h:468-472 | an engine with no armed timer is scheduled (ring ordered by expiry, every expiry at most the clock plus 10000 ms), and a scheduled engine stays so as the clock moves forward |
| IoCtx.PostTimeOutKeepsSchedule | include/tinyasync/io_context.h:468-472 | `post_time_out` at the current clock reading keeps the engine scheduled |
| IoCtx.EntryPointsKeepSchedule | include/tinyasync/io_context.h:441-488 | `post_task` and `request_abort` keep the engine scheduled |
| IoCtx.SweepKeepsSchedule | include/tinyasync/io_context.h:509-531 | the sweep keeps the engine scheduled on the part of the ring it leaves |
| IoCtx.StepKeepsSchedule | include/tinyasync/io_context.h:499-699 | a whole iteration keeps the engine scheduled on the part of the ring it leaves |
| IoCtx.StepLeavesNoExpired | include/tinyasync/io_context.h:509-531 | on a ring ordered by expiry, no timer left after an iteration has expired at the iteration's clock reading |
| IoCtx.TimerFiresAfterTimeout | include/tinyasync/io_context.h:468-531 | a timer posted at `t` on an empty timer queue is swept at `now` iff `now > t + 10000`, and then its task is posted behind the queued ones |

## Left out

- Creating the event poll and the wakeup eventfd, registering it with key 1, and tearing both down: these are system calls. The model keeps only the key-1 convention.
- `wakeup_a_thread` and its `epoll_ctl(EPOLL_CTL_MOD)`: this is a system call. Each call is counted as a wakeup request instead.
- A failing `epoll_ctl` in `wakeup_a_thread` (lines 432-436) throws out of `post_task`, `request_abort` and `run`: `PostTask`, `RequestAbort`, `SweepFront` and `Step` model the call as always succeeding.
- The spinlock `m_que_lock` and all interleavings of several threads: the model is single-threaded. In particular, the sweep runs with the lock held and calls `post_task`, which takes the lock again. The spinlock type `DefaultSpinLock` is not part of this model, so whether that call deadlocks is not stated.
- Reading `m_thread_waiting` and `m_abort_requested` outside the lock (lines 664-665): with one thread these read the values just written. In particular the abort flag is always false when a thread reaches the wait, so `Step` never takes the abort re-arm of lines 665-666; that branch is stated only by `Events.RearmAfterWait` and `Events.RearmOnEvents`.
- The task queue `Queue`/`ListNode` and `from_node_to_post_task` (offsetof arithmetic): they are not part of this model. The queue is an abstract FIFO.
- `PostTask` callbacks, `Callback::callback`, exception handling and `terminate_with_unhandled_exception`: bodies that cannot be seen. Running a task or a callback is opaque.
- `Clock::now()` and the 1000 ms `epoll_wait` timeout: the clock is the parameter `now`, and the wait's outcome is the parameter `wait`.
- The resolution of `high_resolution_clock`: time is modelled in whole milliseconds, the unit of both queue durations. The strict comparison of `is_expire` behaves the same in any unit.
- The bound `maxevents` (5) on a batch: no property depends on the batch size, so batches of any length are allowed.
- `timeQueue::m_size`: it is never read or written by the code.
- Logging, `printf`, `ioe2str` and the `IoContext` wrapper, traits and allocators: they have no effect on the modelled state.
- The Windows IOCP branch of `run` and of the constructor: only the Unix branch is modelled.
- `pingpong/pingpong_client.cpp`: it is a network client built on the engine, outside the core.
- The outer `for` of the classification loop: it leaves through a `break` in its first iteration on every path, so it is modelled as an `if`.
