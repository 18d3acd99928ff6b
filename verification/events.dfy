/** What `IoCtx<T>::run` does with the keys `epoll_wait` returned: classify them
    into wakeup signals and real I/O events, decide whether to re-arm the
    wakeup for another idle thread, and invoke the callbacks of the real ones.

    A key is the `data.ptr` of one returned event, read as an address. Keys
    below `CallbackGuard` are wakeup signals (the wakeup eventfd is registered
    with key 1); every other key is the address of a `Callback`.
 */
module Events {
  import opened Native

  type Key = nat

  /** `Callback *const CallbackGuard = (Callback *)8`. */
  const CallbackGuard: Key := 8

  predicate IsCallbackKey(k: Key) {
    k >= CallbackGuard
  }

  /** Some returned key is a wakeup signal. */
  predicate HasWakeup(events: seq<Key>) {
    exists i :: 0 <= i < |events| && !IsCallbackKey(events[i])
  }

  /** Some returned key is a real I/O event. */
  predicate HasEffective(events: seq<Key>) {
    exists i :: 0 <= i < |events| && IsCallbackKey(events[i])
  }

  function Flag(b: bool): nat {
    if b then 1 else 0
  }

  /** The classification loop: a first key decides which flag is raised at
      once, and an inner loop then looks only for a key of the other kind. */
  method Classify(events: seq<Key>) returns (effectiveEvent: nat, wakeupEvent: nat)
    ensures wakeupEvent == Flag(HasWakeup(events))
    ensures effectiveEvent == Flag(HasEffective(events))
  {
    effectiveEvent := 0;
    wakeupEvent := 0;
    // The source's outer `for` leaves through a `break` in both branches of
    // its first iteration, so it runs at most once: it is an `if` here.
    var i := 0;
    if i < |events| {
      if !IsCallbackKey(events[i]) {
        wakeupEvent := 1;
        i := i + 1;
        while i < |events|
          invariant 1 <= i <= |events|
          invariant forall j :: 0 <= j < i ==> !IsCallbackKey(events[j])
          invariant effectiveEvent == 0 && wakeupEvent == 1
        {
          if IsCallbackKey(events[i]) {
            effectiveEvent := 1;
            break;
          }
          i := i + 1;
        }
      } else {
        effectiveEvent := 1;
        i := i + 1;
        while i < |events|
          invariant 1 <= i <= |events|
          invariant forall j :: 0 <= j < i ==> IsCallbackKey(events[j])
          invariant effectiveEvent == 1 && wakeupEvent == 0
        {
          if !IsCallbackKey(events[i]) {
            wakeupEvent := 1;
            break;
          }
          i := i + 1;
        }
      }
    }
  }

  /** The keys whose callbacks are invoked, in returned order. */
  function Dispatched(events: seq<Key>): seq<Key> {
    if events == [] then []
    else if IsCallbackKey(events[0]) then [events[0]] + Dispatched(events[1..])
    else Dispatched(events[1..])
  }

  /** The dispatch loop: every key at or above the guard is invoked with its
      event, the others are skipped. */
  method Dispatch(events: seq<Key>) returns (invoked: seq<Key>)
    ensures invoked == Dispatched(events)
  {
    invoked := [];
    var i := 0;
    while i < |events|
      invariant 0 <= i <= |events|
      invariant invoked + Dispatched(events[i..]) == Dispatched(events)
    {
      assert events[i..] == [events[i]] + events[i + 1..];
      if IsCallbackKey(events[i]) {
        invoked := invoked + [events[i]];
      }
      i := i + 1;
    }
  }

  /** Dispatch distributes over concatenation, which together with its value
      on a single key fixes it as the order-preserving filter. */
  lemma {:induction false} DispatchedAppend(a: seq<Key>, b: seq<Key>)
    ensures Dispatched(a + b) == Dispatched(a) + Dispatched(b)
  {
    if a == [] {
      assert a + b == b;
    } else {
      assert (a + b)[0] == a[0];
      assert (a + b)[1..] == a[1..] + b;
      DispatchedAppend(a[1..], b);
      if IsCallbackKey(a[0]) {
        assert [a[0]] + (Dispatched(a[1..]) + Dispatched(b)) == ([a[0]] + Dispatched(a[1..])) + Dispatched(b);
      }
    }
  }

  lemma DispatchedSingle(k: Key)
    ensures Dispatched([k]) == if IsCallbackKey(k) then [k] else []
  {
    assert [k][1..] == [];
  }

  /** Exactly the callback keys are invoked: a key is invoked iff it was
      returned and lies at or above the guard. */
  lemma {:induction false} DispatchedMembers(events: seq<Key>, k: Key)
    ensures k in Dispatched(events) <==> k in events && IsCallbackKey(k)
  {
    if events != [] {
      DispatchedMembers(events[1..], k);
      assert events == [events[0]] + events[1..];
    }
  }

  /** Something is dispatched exactly when the batch holds a real event. */
  lemma {:induction false} DispatchedNonEmpty(events: seq<Key>)
    ensures Dispatched(events) != [] <==> HasEffective(events)
  {
    if HasEffective(events) {
      var i :| 0 <= i < |events| && IsCallbackKey(events[i]);
      DispatchedMembers(events, events[i]);
    }
    if Dispatched(events) != [] {
      var k := Dispatched(events)[0];
      DispatchedMembers(events, k);
      var i :| 0 <= i < |events| && events[i] == k;
    }
  }

  // ---------------------------------------------------------------------------
  // The wakeup decision
  // ---------------------------------------------------------------------------

  /** After a wait: re-arm the wakeup for another thread only when some
      thread is still waiting, and then either abort is set or a wakeup
      signal arrived with more work than this thread will absorb. The sum is
      a `std::size_t` sum. */
  function RearmAfterWait(threadWaiting: SizeT, abortRequested: bool, wakeupEvent: nat,
                          taskQueueSize: SizeT, effectiveEvent: nat): bool
    requires effectiveEvent <= 1
  {
    threadWaiting != 0
      && (abortRequested || (wakeupEvent != 0 && Add(taskQueueSize, effectiveEvent) > 1))
  }

  /** The decision in terms of the returned keys: with no waiting thread
      nothing is re-armed; otherwise abort re-arms, and without abort a
      wakeup signal re-arms when two tasks are queued, or one task is queued
      and a real event came in beside the signal. */
  lemma RearmOnEvents(threadWaiting: SizeT, abortRequested: bool, taskQueueSize: SizeT, events: seq<Key>)
    requires taskQueueSize < SizeMax
    ensures RearmAfterWait(threadWaiting, abortRequested, Flag(HasWakeup(events)),
                           taskQueueSize, Flag(HasEffective(events)))
      <==> threadWaiting > 0
           && (abortRequested
               || (HasWakeup(events)
                   && (taskQueueSize >= 2 || (taskQueueSize == 1 && HasEffective(events)))))
  {
  }

  /** A lone wakeup signal with an empty task queue and no real event does not
      re-arm, whatever the number of waiting threads. */
  lemma LoneWakeupNoRearm(threadWaiting: SizeT, events: seq<Key>)
    requires events != []
    requires forall i :: 0 <= i < |events| ==> !IsCallbackKey(events[i])
    ensures !RearmAfterWait(threadWaiting, false, Flag(HasWakeup(events)), 0, Flag(HasEffective(events)))
  {
  }

  /** The `std::size_t` sum can wrap: with `task_queue_size` at its maximum a
      real event makes the sum 0, and a wakeup signal then does not re-arm. */
  lemma RearmSumWraps(threadWaiting: SizeT)
    requires threadWaiting > 0
    ensures !RearmAfterWait(threadWaiting, false, 1, SizeMax, 1)
    ensures RearmAfterWait(threadWaiting, false, 1, SizeMax - 1, 1)
  {
  }
}
