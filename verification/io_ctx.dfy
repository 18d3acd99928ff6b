/** The engine `IoCtx<T>`: its state, the entry points `post_task`,
    `post_time_out` and `request_abort`, and one iteration of the `run` loop,
    all in single-thread semantics (the queue lock is absent).

    The task queue (`Queue` of `ListNode`s) is not part of this model; it is an
    abstract FIFO of task ids. The clock reading and the result of the wait on
    the event poll are parameters of an iteration.
 */
module IoCtx {
  import opened Native
  import opened TimeQueue
  import opened Events

  /** `timeQueue<10 * 1000>`: every engine timer fires 10000 ms after it is posted. */
  const IoCtxTimeout: int := 10 * 1000

  /** The engine state. `multi` is the trait's `multiple_thread`, fixed at
      construction; `queueSize` is `m_task_queue_size`, `waiting` is
      `m_thread_waiting` (both only maintained in multi-thread mode). The timer
      queue is the ring headed by `head` in the node heap `timers`. */
  datatype Engine = Engine(
    multi: bool,
    timers: Heap,
    head: NodeId,
    tasks: seq<TaskId>,
    queueSize: SizeT,
    waiting: SizeT,
    abortRequested: bool)

  ghost predicate Valid(e: Engine, s: seq<NodeId>) {
    Ring(e.timers, e.head, s)
  }

  /** In multi-thread mode `m_task_queue_size` counts the queued tasks. */
  ghost predicate SizeTracks(e: Engine) {
    e.multi ==> e.queueSize == |e.tasks|
  }

  // ---------------------------------------------------------------------------
  // Entry points
  // ---------------------------------------------------------------------------

  /** `post_task`: appends the task; in multi-thread mode it also counts it and
      asks for a wakeup signal when some thread is waiting (the boolean). */
  function PostTask(e: Engine, t: TaskId): (r: (Engine, bool))
    ensures r.0.tasks == e.tasks + [t]
    ensures r.1 <==> e.multi && e.waiting > 0
    ensures r.0.timers == e.timers && r.0.head == e.head && r.0.multi == e.multi
    ensures r.0.waiting == e.waiting && r.0.abortRequested == e.abortRequested
    ensures !e.multi ==> r.0.queueSize == e.queueSize
    ensures e.multi ==> r.0.queueSize == Inc(e.queueSize)
    ensures SizeTracks(e) && |e.tasks| < SizeMax ==> SizeTracks(r.0)
  {
    if e.multi then
      (e.(tasks := e.tasks + [t], queueSize := Inc(e.queueSize)), e.waiting > 0)
    else
      (e.(tasks := e.tasks + [t]), false)
  }

  /** `post_time_out`: arms `node` in the engine's timer queue at clock `now`. */
  function PostTimeOut(e: Engine, node: NodeId, now: int, ghost s: seq<NodeId>): (r: Engine)
    requires Valid(e, s) && node in e.timers && node != e.head && node !in s
    ensures Valid(r, s + [node])
    ensures r.timers[node].expire == now + IoCtxTimeout
    ensures SamePayload(e.timers[node := e.timers[node].(expire := now + IoCtxTimeout)], r.timers)
    ensures r.tasks == e.tasks && r.queueSize == e.queueSize && r.waiting == e.waiting
    ensures r.abortRequested == e.abortRequested && r.multi == e.multi
  {
    PushAppends(e.timers, e.head, s, node, now, IoCtxTimeout);
    e.(timers := Push(e.timers, e.head, node, now, IoCtxTimeout))
  }

  /** `request_abort`: sets the flag; in multi-thread mode it asks for a wakeup
      signal when some thread is waiting (the boolean). */
  function RequestAbort(e: Engine): (r: (Engine, bool))
    ensures r.0.abortRequested
    ensures r.1 <==> e.multi && e.waiting > 0
    ensures r.0.(abortRequested := e.abortRequested) == e
  {
    (e.(abortRequested := true), e.multi && e.waiting != 0)
  }

  // ---------------------------------------------------------------------------
  // The timer sweep
  // ---------------------------------------------------------------------------

  /** The posted tasks of the nodes `xs`, in order. */
  function TasksOf(h: Heap, xs: seq<NodeId>): seq<TaskId>
    requires forall i :: 0 <= i < |xs| ==> xs[i] in h
  {
    seq(|xs|, i requires 0 <= i < |xs| => h[xs[i]].task)
  }

  lemma TasksOfCons(h: Heap, x: NodeId, xs: seq<NodeId>)
    requires x in h && forall i :: 0 <= i < |xs| ==> xs[i] in h
    ensures TasksOf(h, [x] + xs) == [h[x].task] + TasksOf(h, xs)
  {
  }

  lemma TasksOfSamePayload(h: Heap, h': Heap, xs: seq<NodeId>)
    requires SamePayload(h, h')
    requires forall i :: 0 <= i < |xs| ==> xs[i] in h
    ensures TasksOf(h', xs) == TasksOf(h, xs)
  {
    forall i | 0 <= i < |xs| ensures h'[xs[i]].task == h[xs[i]].task {
      SamePayloadAt(h, h', xs[i]);
    }
  }

  datatype SweepResult = SweepResult(engine: Engine, swept: seq<NodeId>, signals: nat)

  /** One round of the sweep on an expired front: `pop()`, post the node's
      task, then `remove_self()` on the popped node. The boolean is the wakeup
      request of the post. */
  function SweepFront(e: Engine, ghost s: seq<NodeId>): (r: (Engine, bool))
    requires Valid(e, s) && s != []
    ensures Valid(r.0, s[1..])
    ensures SamePayload(e.timers, r.0.timers)
    ensures r.0.tasks == e.tasks + [e.timers[s[0]].task]
    ensures r.0.head == e.head && r.0.multi == e.multi
    ensures r.0.waiting == e.waiting && r.0.abortRequested == e.abortRequested
    ensures !e.multi ==> r.0.queueSize == e.queueSize
    ensures e.multi ==> r.0.queueSize == Inc(e.queueSize)
    ensures r.1 <==> e.multi && e.waiting > 0
  {
    FrontBackEmpty(e.timers, e.head, s);
    PopFront(e.timers, e.head, s);
    PopThenRemoveSelf(e.timers, e.head, s);
    var front := Front(e.timers, e.head);
    var h1 := Pop(e.timers, e.head);
    var posted := PostTask(e.(timers := h1), h1[front].task);
    var h3 := RemoveSelf(posted.0.timers, front).0;
    (posted.0.(timers := h3), posted.1)
  }

  /** The sweep at the top of each iteration: while the timer queue is not
      empty and its front has expired, run `SweepFront`. `swept` lists the
      nodes taken off the ring; `signals` counts the wakeup requests. */
  function Sweep(e: Engine, now: int, ghost s: seq<NodeId>): (r: SweepResult)
    requires Valid(e, s)
    ensures |r.swept| <= |s| && r.swept == s[..|r.swept|]
    ensures Valid(r.engine, s[|r.swept|..])
    ensures SamePayload(e.timers, r.engine.timers)
    ensures r.engine.head == e.head && r.engine.multi == e.multi
    ensures r.engine.waiting == e.waiting && r.engine.abortRequested == e.abortRequested
    decreases |s|
  {
    FrontBackEmpty(e.timers, e.head, s);
    if Empty(e.timers, e.head) || !IsExpire(e.timers[Front(e.timers, e.head)], now) then
      SweepResult(e, [], 0)
    else
      var front := Front(e.timers, e.head);
      var next := SweepFront(e, s);
      var rest := Sweep(next.0, now, s[1..]);
      SweepPrefix(s, rest.swept);
      SamePayloadTrans(e.timers, next.0.timers, rest.engine.timers);
      SweepResult(rest.engine, [front] + rest.swept,
                  (if next.1 then 1 else 0) + rest.signals)
  }

  lemma SweepPrefix(s: seq<NodeId>, swept: seq<NodeId>)
    requires s != [] && |swept| <= |s| - 1 && swept == s[1..][..|swept|]
    ensures [s[0]] + swept == s[..|swept| + 1]
    ensures s[1..][|swept|..] == s[|swept| + 1..]
  {
  }

  /** Every node of `xs` has expired at `now`. */
  ghost predicate AllExpired(h: Heap, xs: seq<NodeId>, now: int) {
    forall i :: 0 <= i < |xs| ==> xs[i] in h && IsExpire(h[xs[i]], now)
  }

  lemma AllExpiredCons(h: Heap, x: NodeId, xs: seq<NodeId>, now: int)
    requires x in h && IsExpire(h[x], now) && AllExpired(h, xs, now)
    ensures AllExpired(h, [x] + xs, now)
  {
  }

  lemma AllExpiredSamePayload(h: Heap, h': Heap, xs: seq<NodeId>, now: int)
    requires SamePayload(h, h') && AllExpired(h, xs, now)
    ensures AllExpired(h', xs, now)
  {
    forall i | 0 <= i < |xs| ensures xs[i] in h' && IsExpire(h'[xs[i]], now) {
      SamePayloadAt(h, h', xs[i]);
    }
  }

  /** One round of the sweep, unfolded. */
  lemma {:induction false} SweepUnfold(e: Engine, now: int, s: seq<NodeId>)
    requires Valid(e, s) && s != [] && IsExpire(e.timers[s[0]], now)
    ensures var rest := Sweep(SweepFront(e, s).0, now, s[1..]);
      && Sweep(e, now, s).swept == [s[0]] + rest.swept
      && Sweep(e, now, s).engine == rest.engine
      && Sweep(e, now, s).signals == (if SweepFront(e, s).1 then 1 else 0) + rest.signals
  {
    FrontBackEmpty(e.timers, e.head, s);
  }

  lemma PostsStep(h: Heap, h': Heap, x: NodeId, xs: seq<NodeId>,
                  tasks0: seq<TaskId>, tasks1: seq<TaskId>, tasks2: seq<TaskId>)
    requires SamePayload(h, h') && x in h && forall i :: 0 <= i < |xs| ==> xs[i] in h
    requires tasks1 == tasks0 + [h[x].task]
    requires tasks2 == tasks1 + TasksOf(h', xs)
    ensures tasks2 == tasks0 + TasksOf(h, [x] + xs)
  {
    TasksOfSamePayload(h, h', xs);
    TasksOfCons(h, x, xs);
    var a := [h[x].task];
    var b := TasksOf(h, xs);
    assert tasks2 == (tasks0 + a) + b;
    assert (tasks0 + a) + b == tasks0 + (a + b);
  }

  lemma {:induction false} SweptInHeap(e: Engine, now: int, s: seq<NodeId>)
    requires Valid(e, s) && s != []
    ensures s[0] in e.timers
    ensures var r := Sweep(SweepFront(e, s).0, now, s[1..]);
      forall i :: 0 <= i < |r.swept| ==> r.swept[i] in e.timers
  {
    assert s[0] in s;
    var r := Sweep(SweepFront(e, s).0, now, s[1..]);
    forall i | 0 <= i < |r.swept| ensures r.swept[i] in e.timers {
      assert r.swept[i] == s[i + 1];
    }
  }

  /** The sweep takes off exactly the longest expired prefix of the ring. */
  lemma {:induction false} SweepExpired(e: Engine, now: int, s: seq<NodeId>)
    requires Valid(e, s)
    ensures var r := Sweep(e, now, s);
      && AllExpired(e.timers, r.swept, now)
      && (|r.swept| < |s| ==> !IsExpire(e.timers[s[|r.swept|]], now))
    decreases |s|
  {
    FrontBackEmpty(e.timers, e.head, s);
    if !Empty(e.timers, e.head) && IsExpire(e.timers[s[0]], now) {
      var h := e.timers;
      var next := SweepFront(e, s);
      var h' := next.0.timers;
      SweepExpired(next.0, now, s[1..]);
      var rest := Sweep(next.0, now, s[1..]);
      var r := Sweep(e, now, s);
      assert r.swept == [s[0]] + rest.swept;
      AllExpiredSamePayload(h', h, rest.swept, now);
      AllExpiredCons(h, s[0], rest.swept, now);
      if |r.swept| < |s| {
        assert s[|r.swept|] == s[1..][|rest.swept|];
        SamePayloadAt(h, h', s[|r.swept|]);
      }
    }
  }

  /** The sweep posts the swept nodes' tasks behind the queued ones, in ring
      order. */
  lemma {:induction false} SweepPostsInOrder(e: Engine, now: int, s: seq<NodeId>)
    requires Valid(e, s)
    ensures var r := Sweep(e, now, s);
      r.engine.tasks == e.tasks + TasksOf(e.timers, r.swept)
    decreases |s|
  {
    FrontBackEmpty(e.timers, e.head, s);
    if !Empty(e.timers, e.head) && IsExpire(e.timers[s[0]], now) {
      var next := SweepFront(e, s);
      SweepPostsInOrder(next.0, now, s[1..]);
      SweepUnfold(e, now, s);
      SweptInHeap(e, now, s);
      var rest := Sweep(next.0, now, s[1..]);
      PostsStep(e.timers, next.0.timers, s[0], rest.swept, e.tasks, next.0.tasks, rest.engine.tasks);
    }
  }

  /** In multi-thread mode each post of the sweep is counted in
      `m_task_queue_size` and asks for a wakeup when a thread is waiting; in
      single-thread mode neither happens. */
  lemma {:induction false} SweepCounters(e: Engine, now: int, s: seq<NodeId>)
    requires Valid(e, s)
    ensures var r := Sweep(e, now, s);
      && (!e.multi ==> r.engine.queueSize == e.queueSize)
      && (e.multi && e.queueSize + |s| <= SizeMax ==> r.engine.queueSize == e.queueSize + |r.swept|)
      && r.signals == if e.multi && e.waiting > 0 then |r.swept| else 0
    decreases |s|
  {
    FrontBackEmpty(e.timers, e.head, s);
    if !Empty(e.timers, e.head) && IsExpire(e.timers[s[0]], now) {
      var next := SweepFront(e, s);
      SweepCounters(next.0, now, s[1..]);
      SweepUnfold(e, now, s);
    }
  }

  /** When the ring is ordered by expiry, the sweep leaves no expired node:
      the first unexpired front shields only unexpired nodes behind it. */
  lemma {:induction false} SweepLeavesNoExpired(e: Engine, now: int, s: seq<NodeId>)
    requires Valid(e, s) && ExpiryOrdered(e.timers, s)
    ensures var n := |Sweep(e, now, s).swept|;
      forall i :: n <= i < |s| ==> !IsExpire(e.timers[s[i]], now)
  {
    SweepExpired(e, now, s);
    var n := |Sweep(e, now, s).swept|;
    forall i | n <= i < |s| ensures !IsExpire(e.timers[s[i]], now) {
      assert e.timers[s[n]].expire <= e.timers[s[i]].expire;
    }
  }

  // ---------------------------------------------------------------------------
  // One iteration of the run loop
  // ---------------------------------------------------------------------------

  /** What `epoll_wait` returned: an error (`nfds == -1`) or the batch of keys. */
  datatype WaitResult = WaitFailed | Ready(keys: seq<Key>)

  /** How an iteration ended. `Aborted` leaves the loop and carries the task
      popped before the abort check, which is dropped; `Ran` executed a task;
      `Waited` blocked on the event poll, invoked the callbacks of `invoked`
      and re-armed the wakeup when `rearm`; `WaitError` throws out of `run`. */
  datatype Outcome =
    | Aborted(dropped: Option<TaskId>)
    | Ran(task: TaskId)
    | Waited(invoked: seq<Key>, rearm: bool)
    | WaitError

  datatype StepResult = StepResult(engine: Engine, outcome: Outcome, swept: seq<NodeId>, signals: nat)

  /** One pass through the body of `for (;;)` in `run`, at clock `now`, with
      `wait` standing for what the event poll returns if the thread blocks. */
  function Step(e: Engine, now: int, wait: WaitResult, ghost s: seq<NodeId>): (r: StepResult)
    requires Valid(e, s)
    ensures |r.swept| <= |s| && r.swept == s[..|r.swept|]
    ensures Valid(r.engine, s[|r.swept|..])
    ensures SamePayload(e.timers, r.engine.timers)
    ensures r.engine.head == e.head && r.engine.multi == e.multi
    ensures r.engine.waiting == e.waiting && r.engine.abortRequested == e.abortRequested
    ensures r.outcome.Aborted? <==> e.abortRequested
  {
    var sw := Sweep(e, now, s);
    var e1 := sw.engine;
    // `m_task_queue.pop()` returns the head node or null.
    var popped := if e1.tasks == [] then None else Some(e1.tasks[0]);
    var e2 := e1.(tasks := if e1.tasks == [] then [] else e1.tasks[1..]);
    if e2.abortRequested then
      StepResult(e2, Aborted(popped), sw.swept, sw.signals)
    else if popped.Some? then
      var e3 := if e2.multi then e2.(queueSize := Dec(e2.queueSize)) else e2;
      StepResult(e3, Ran(popped.value), sw.swept, sw.signals)
    else
      // The thread counts itself as waiting for the duration of the wait.
      DecInc(e2.waiting);
      var during := if e2.multi then Inc(e2.waiting) else e2.waiting;
      var after := if e2.multi then Dec(during) else during;
      var e3 := e2.(waiting := after);
      match wait
      case WaitFailed =>
        // Multi-thread mode throws; single-thread mode sees `nfds == -1` and
        // neither loop over the events runs.
        if e3.multi then StepResult(e3, WaitError, sw.swept, sw.signals)
        else StepResult(e3, Waited([], false), sw.swept, sw.signals)
      case Ready(keys) =>
        var rearm := e3.multi
          && RearmAfterWait(e3.waiting, e3.abortRequested, Flag(HasWakeup(keys)),
                            e3.queueSize, Flag(HasEffective(keys)));
        StepResult(e3, Waited(Dispatched(keys), rearm), sw.swept,
                   sw.signals + (if rearm then 1 else 0))
  }

  // ---------------------------------------------------------------------------
  // Properties of an iteration
  // ---------------------------------------------------------------------------

  /** With abort set, the iteration leaves the loop: the task popped before
      the check is dropped, not run, and `m_task_queue_size` is not
      decremented for it. The wait result plays no part. */
  lemma {:induction false} StepAbort(e: Engine, now: int, wait: WaitResult, s: seq<NodeId>)
    requires Valid(e, s) && e.abortRequested
    ensures var sw := Sweep(e, now, s);
      var q := e.tasks + TasksOf(e.timers, sw.swept);
      var r := Step(e, now, wait, s);
      && r.outcome == Aborted(if q == [] then None else Some(q[0]))
      && r.engine.tasks == (if q == [] then [] else q[1..])
      && r.engine.queueSize == sw.engine.queueSize
      && r.signals == sw.signals
  {
    SweepPostsInOrder(e, now, s);
  }

  /** Without abort, a non-empty queue (after the sweep) runs its head task;
      in multi-thread mode the task is uncounted from `m_task_queue_size`. */
  lemma {:induction false} StepRunsHead(e: Engine, now: int, wait: WaitResult, s: seq<NodeId>)
    requires Valid(e, s) && !e.abortRequested
    ensures var sw := Sweep(e, now, s);
      var q := e.tasks + TasksOf(e.timers, sw.swept);
      var r := Step(e, now, wait, s);
      q != [] ==>
        && r.outcome == Ran(q[0])
        && r.engine.tasks == q[1..]
        && r.engine.queueSize == (if e.multi then Dec(sw.engine.queueSize) else e.queueSize)
  {
    SweepPostsInOrder(e, now, s);
    SweepCounters(e, now, s);
  }

  /** Without abort and with nothing to run, the thread waits. It dispatches
      exactly the callback keys, in returned order, and re-arms the wakeup
      only in multi-thread mode by the rule of `RearmAfterWait`. A failed wait
      throws in multi-thread mode and dispatches nothing otherwise. */
  lemma {:induction false} StepWaits(e: Engine, now: int, wait: WaitResult, s: seq<NodeId>)
    requires Valid(e, s) && !e.abortRequested
    requires e.tasks + TasksOf(e.timers, Sweep(e, now, s).swept) == []
    ensures var sw := Sweep(e, now, s);
      var r := Step(e, now, wait, s);
      && r.engine.tasks == []
      && r.engine.queueSize == sw.engine.queueSize
      && (wait.WaitFailed? ==> r.outcome == (if e.multi then WaitError else Waited([], false)))
      && (wait.Ready? ==>
            && r.outcome.Waited?
            && r.outcome.invoked == Dispatched(wait.keys)
            && (forall k :: k in r.outcome.invoked <==> k in wait.keys && IsCallbackKey(k))
            && (r.outcome.rearm <==>
                  e.multi && RearmAfterWait(e.waiting, false, Flag(HasWakeup(wait.keys)),
                                            sw.engine.queueSize, Flag(HasEffective(wait.keys)))))
  {
    SweepPostsInOrder(e, now, s);
    if wait.Ready? {
      forall k ensures k in Dispatched(wait.keys) <==> k in wait.keys && IsCallbackKey(k) {
        DispatchedMembers(wait.keys, k);
      }
    }
  }

  /** In single-thread mode the counters are never touched and no wakeup is
      ever requested. */
  lemma SingleThreadNoSignals(e: Engine, now: int, wait: WaitResult, s: seq<NodeId>, t: TaskId)
    requires Valid(e, s) && !e.multi
    ensures Step(e, now, wait, s).engine.queueSize == e.queueSize
    ensures Step(e, now, wait, s).signals == 0
    ensures !PostTask(e, t).1 && !RequestAbort(e).1
  {
    SweepCounters(e, now, s);
  }

  /** An iteration that does not abort keeps `m_task_queue_size` equal to the
      queue length. */
  lemma StepTracks(e: Engine, now: int, wait: WaitResult, s: seq<NodeId>)
    requires Valid(e, s) && SizeTracks(e) && !e.abortRequested
    requires |e.tasks| + |s| <= SizeMax
    ensures SizeTracks(Step(e, now, wait, s).engine)
  {
    SweepPostsInOrder(e, now, s);
    SweepCounters(e, now, s);
  }

  /** An aborting iteration that drops a task leaves `m_task_queue_size` one
      above the queue length, whether the task was queued before the
      iteration or posted onto an empty queue by its sweep. */
  lemma AbortLeavesCountBehind(e: Engine, now: int, wait: WaitResult, s: seq<NodeId>)
    requires Valid(e, s) && SizeTracks(e) && e.multi && e.abortRequested
    requires |e.tasks| + |s| <= SizeMax
    ensures var r := Step(e, now, wait, s);
      r.outcome.dropped.Some? ==> r.engine.queueSize == |r.engine.tasks| + 1
  {
    SweepPostsInOrder(e, now, s);
    SweepCounters(e, now, s);
  }

  /** With nothing but this thread acting, a waiting iteration in multi-thread
      mode finds `m_task_queue_size` at zero and therefore never re-arms the
      wakeup: re-arming only reacts to work posted by other threads while this
      one was blocked. */
  lemma LoneThreadNeverRearms(e: Engine, now: int, keys: seq<Key>, s: seq<NodeId>)
    requires Valid(e, s) && SizeTracks(e) && !e.abortRequested
    requires |e.tasks| + |s| <= SizeMax
    ensures var r := Step(e, now, Ready(keys), s);
      r.outcome.Waited? ==> !r.outcome.rearm
  {
    SweepPostsInOrder(e, now, s);
    SweepCounters(e, now, s);
  }

  /** Tasks posted in order A, B, C are run in order A, B, C by the next three
      iterations, when no timer is pending and abort is not set. */
  lemma TaskFifoScenario(e: Engine, now: int, wait: WaitResult, a: TaskId, b: TaskId, c: TaskId)
    requires Valid(e, []) && e.tasks == [] && !e.abortRequested
    ensures var e3 := PostTask(PostTask(PostTask(e, a).0, b).0, c).0;
      var r1 := Step(e3, now, wait, []);
      var r2 := Step(r1.engine, now, wait, []);
      var r3 := Step(r2.engine, now, wait, []);
      && r1.outcome == Ran(a)
      && r2.outcome == Ran(b)
      && r3.outcome == Ran(c)
      && r3.engine.tasks == []
  {
    var e3 := PostTask(PostTask(PostTask(e, a).0, b).0, c).0;
    assert e3.tasks == [a, b, c];
    StepRunsHead(e3, now, wait, []);
    var r1 := Step(e3, now, wait, []);
    assert r1.engine.tasks == [b, c];
    StepRunsHead(r1.engine, now, wait, []);
    var r2 := Step(r1.engine, now, wait, []);
    assert r2.engine.tasks == [c];
    StepRunsHead(r2.engine, now, wait, []);
  }

  /** On a one-node timer queue the sweep takes the node exactly when it has
      expired, and then posts its task. */
  lemma {:induction false} SweepSingle(e: Engine, now: int, x: NodeId)
    requires Valid(e, [x])
    ensures var sw := Sweep(e, now, [x]);
      && sw.swept == (if IsExpire(e.timers[x], now) then [x] else [])
      && sw.engine.tasks == e.tasks + (if IsExpire(e.timers[x], now) then [e.timers[x].task] else [])
  {
    SweepExpired(e, now, [x]);
    SweepPostsInOrder(e, now, [x]);
    var sw := Sweep(e, now, [x]);
    assert sw.swept == [] || sw.swept == [x];
    if sw.swept == [] {
      assert TasksOf(e.timers, []) == [];
    } else {
      assert AllExpired(e.timers, [x], now);
      assert TasksOf(e.timers, [x]) == [e.timers[x].task];
    }
  }

  /** A timer armed by `post_time_out` at `t` on an empty timer queue is swept
      by an iteration at `now` exactly when `now > t + 10000`, and its task is
      then posted behind the queued ones. */
  lemma {:induction false} TimerFiresAfterTimeout(e: Engine, node: NodeId, t: int, now: int)
    requires Valid(e, []) && node in e.timers && node != e.head
    ensures var e1 := PostTimeOut(e, node, t, []);
      var sw := Sweep(e1, now, [node]);
      && (now > t + IoCtxTimeout ==> sw.swept == [node] && sw.engine.tasks == e.tasks + [e.timers[node].task])
      && (now <= t + IoCtxTimeout ==> sw.swept == [] && sw.engine.tasks == e.tasks)
  {
    var e1 := PostTimeOut(e, node, t, []);
    assert [] + [node] == [node];
    SamePayloadAt(e.timers[node := e.timers[node].(expire := t + IoCtxTimeout)], e1.timers, node);
    SweepSingle(e1, now, node);
  }

  // ---------------------------------------------------------------------------
  // Expiry order across iterations
  // ---------------------------------------------------------------------------

  /** The timer ring is ordered by expiry, and no node expires later than a
      timer posted at clock `now` would. An engine whose ring starts empty keeps
      this as long as the clock readings it is given never decrease. */
  ghost predicate Scheduled(e: Engine, s: seq<NodeId>, now: int)
    requires Valid(e, s)
  {
    ExpiryOrdered(e.timers, s) && ExpiryBounded(e.timers, s, now + IoCtxTimeout)
  }

  /** An engine with an empty timer queue is scheduled at every clock reading,
      and a scheduled engine stays so when the clock moves forward. */
  lemma ScheduledStart(e: Engine, s: seq<NodeId>, now: int, later: int)
    requires Valid(e, s) && now <= later
    ensures s == [] ==> Scheduled(e, s, now)
    ensures Scheduled(e, s, now) ==> Scheduled(e, s, later)
  {
  }

  /** `post_time_out` at the current clock reading keeps the engine
      scheduled: the new node goes to the back with the latest expiry. */
  lemma PostTimeOutKeepsSchedule(e: Engine, node: NodeId, now: int, s: seq<NodeId>)
    requires Valid(e, s) && node in e.timers && node != e.head && node !in s
    requires Scheduled(e, s, now)
    ensures Scheduled(PostTimeOut(e, node, now, s), s + [node], now)
  {
    PushKeepsOrder(e.timers, e.head, s, node, now, IoCtxTimeout);
    var r := PostTimeOut(e, node, now, s);
    var h1 := e.timers[node := e.timers[node].(expire := now + IoCtxTimeout)];
    var s' := s + [node];
    forall i | 0 <= i < |s'| ensures r.timers[s'[i]].expire <= now + IoCtxTimeout {
      if i < |s| {
        assert s'[i] == s[i] && s[i] != node;
        SamePayloadAt(h1, r.timers, s[i]);
      }
    }
  }

  /** The sweep keeps the engine scheduled on the part of the ring it leaves. */
  lemma SweepKeepsSchedule(e: Engine, now: int, s: seq<NodeId>, t: int)
    requires Valid(e, s) && Scheduled(e, s, t)
    ensures var r := Sweep(e, now, s);
      Scheduled(r.engine, s[|r.swept|..], t)
  {
    var r := Sweep(e, now, s);
    OrderedSuffix(e.timers, r.engine.timers, s, |r.swept|);
    BoundedSuffix(e.timers, r.engine.timers, s, |r.swept|, t + IoCtxTimeout);
  }

  /** A whole iteration keeps the engine scheduled on the part of the ring it
      leaves, so `SweepLeavesNoExpired` applies to every iteration of an
      engine whose timers were all posted with non-decreasing clock readings. */
  lemma StepKeepsSchedule(e: Engine, now: int, wait: WaitResult, s: seq<NodeId>, t: int)
    requires Valid(e, s) && Scheduled(e, s, t)
    ensures var r := Step(e, now, wait, s);
      Scheduled(r.engine, s[|r.swept|..], t)
  {
    var r := Step(e, now, wait, s);
    OrderedSuffix(e.timers, r.engine.timers, s, |r.swept|);
    BoundedSuffix(e.timers, r.engine.timers, s, |r.swept|, t + IoCtxTimeout);
  }

  /** `post_task` and `request_abort` leave the timers alone. */
  lemma EntryPointsKeepSchedule(e: Engine, task: TaskId, s: seq<NodeId>, now: int)
    requires Valid(e, s) && Scheduled(e, s, now)
    ensures Valid(PostTask(e, task).0, s) && Scheduled(PostTask(e, task).0, s, now)
    ensures Valid(RequestAbort(e).0, s) && Scheduled(RequestAbort(e).0, s, now)
  {
  }

  /** On an engine whose ring is ordered by expiry (as every scheduled engine's
      is) an iteration leaves no expired timer behind: every node still in the
      ring after it has not expired at the iteration's clock. */
  lemma {:induction false} StepLeavesNoExpired(e: Engine, now: int, wait: WaitResult, s: seq<NodeId>)
    requires Valid(e, s) && ExpiryOrdered(e.timers, s)
    ensures var r := Step(e, now, wait, s);
      forall i :: |r.swept| <= i < |s| ==> !IsExpire(r.engine.timers[s[i]], now)
  {
    var r := Step(e, now, wait, s);
    var sw := Sweep(e, now, s);
    assert r.swept == sw.swept;
    SweepLeavesNoExpired(e, now, s);
    forall i | |r.swept| <= i < |s| ensures !IsExpire(r.engine.timers[s[i]], now) {
      SamePayloadAt(e.timers, r.engine.timers, s[i]);
    }
  }
}
