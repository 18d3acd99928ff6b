/** The scenarios of the timer-queue test program, stated for every heap and
    every choice of node ids: push a node and read its expiry before and after
    the queue's duration, push ten nodes and unlink them one by one with
    `remove_self`. */
module TimeQueueTest {
  import opened TimeQueue

  /** The test's `timeQueue<3>`: the duration is 3 milliseconds. */
  const TestDuration: int := 3

  /** The nodes `xs` are distinct, allocated, and neither the head nor in `s`. */
  ghost predicate Fresh(h: Heap, head: NodeId, s: seq<NodeId>, xs: seq<NodeId>) {
    && Distinct(xs)
    && forall i :: 0 <= i < |xs| ==> xs[i] in h && xs[i] != head && xs[i] !in s
  }

  /** Fresh nodes stay fresh behind the first of them in a heap with at least
      the same nodes. */
  lemma FreshTail(h: Heap, h1: Heap, head: NodeId, s: seq<NodeId>, xs: seq<NodeId>)
    requires Fresh(h, head, s, xs) && xs != [] && h.Keys <= h1.Keys
    ensures Fresh(h1, head, s + [xs[0]], xs[1..])
  {
    forall i | 0 <= i < |xs[1..]| ensures xs[1..][i] in h1 && xs[1..][i] != head && xs[1..][i] !in s + [xs[0]] {
      assert xs[1..][i] == xs[i + 1];
      assert xs[i + 1] in h;
      assert xs[i + 1] != xs[0];
    }
  }

  /** Pushing the first of `xs` keeps the rest fresh for the longer ring. */
  lemma PushStep(h: Heap, head: NodeId, s: seq<NodeId>, xs: seq<NodeId>, now: int, duration: int)
    requires Ring(h, head, s) && Fresh(h, head, s, xs) && xs != []
    ensures h[head].prev in h && h[h[head].prev].next in h
    ensures var h1 := Push(h, head, xs[0], now, duration);
      && Ring(h1, head, s + [xs[0]])
      && Fresh(h1, head, s + [xs[0]], xs[1..])
      && s + xs == (s + [xs[0]]) + xs[1..]
  {
    PushAppends(h, head, s, xs[0], now, duration);
    var h1 := Push(h, head, xs[0], now, duration);
    assert h[xs[0] := h[xs[0]].(expire := now + duration)].Keys == h.Keys;
    FreshTail(h, h1, head, s, xs);
    AppendSplit(s, xs);
  }

  lemma AppendSplit(s: seq<NodeId>, xs: seq<NodeId>)
    requires xs != []
    ensures s + xs == (s + [xs[0]]) + xs[1..]
  {
    assert xs == [xs[0]] + xs[1..];
  }

  /** Pushes the nodes `xs` in order at the same clock reading. */
  function PushAll(h: Heap, head: NodeId, xs: seq<NodeId>, now: int, duration: int,
                   ghost s: seq<NodeId>): (r: Heap)
    requires Ring(h, head, s) && Fresh(h, head, s, xs)
    ensures Ring(r, head, s + xs)
    decreases |xs|
  {
    if xs == [] then
      assert s + xs == s;
      h
    else
      PushStep(h, head, s, xs, now, duration);
      PushAll(Push(h, head, xs[0], now, duration), head, xs[1..], now, duration, s + [xs[0]])
  }

  /** `remove_self` on the front of a ring leaves the rest of the ring. */
  lemma RemoveFrontStep(h: Heap, head: NodeId, s: seq<NodeId>)
    requires Ring(h, head, s) && s != []
    ensures h[s[0]].prev in h && h[s[0]].next in h
    ensures Ring(RemoveSelf(h, s[0]).0, head, s[1..])
    ensures RemoveSelf(h, s[0]).1 <==> |s| == 1
  {
    RemoveSelfLinked(h, head, s, 0);
    assert Without(s, 0) == s[1..];
  }

  /** Calls `remove_self` on each node of `xs`, a prefix of the ring, in
      order; the boolean says whether every call answered false. */
  function RemoveEach(h: Heap, xs: seq<NodeId>, ghost head: NodeId, ghost s: seq<NodeId>): (r: (Heap, bool))
    requires Ring(h, head, s) && |xs| <= |s| && xs == s[..|xs|]
    ensures Ring(r.0, head, s[|xs|..])
    ensures r.1 <==> xs == [] || |xs| < |s|
    decreases |xs|
  {
    if xs == [] then
      (h, true)
    else
      RemoveFrontStep(h, head, s);
      var step := RemoveSelf(h, xs[0]);
      RemovePrefixStep(s, xs);
      var rest := RemoveEach(step.0, xs[1..], head, s[1..]);
      (rest.0, !step.1 && rest.1)
  }

  lemma RemovePrefixStep(s: seq<NodeId>, xs: seq<NodeId>)
    requires xs != [] && |xs| <= |s| && xs == s[..|xs|]
    ensures xs[0] == s[0]
    ensures xs[1..] == s[1..][..|xs| - 1]
    ensures s[1..][|xs| - 1..] == s[|xs|..]
  {
  }

  /** Lines 24-38 of the test: a node pushed at `t` is not expired at `t`, and
      is expired once more than the duration has passed (the test waits four
      seconds, far beyond the 3 ms of `timeQueue<3>`); the queue is then not
      empty, and `remove_self` on its front answers true and empties it. */
  lemma ExpiryScenario(h: Heap, head: NodeId, node: NodeId, t: int)
    requires Ring(h, head, []) && node in h && node != head
    ensures var h1 := Push(h, head, node, t, TestDuration);
      && Ring(h1, head, [node])
      && Front(h1, head) == node
      && !IsExpire(h1[Front(h1, head)], t)
      && IsExpire(h1[Front(h1, head)], t + 4000)
      && !Empty(h1, head)
      && RemoveSelf(h1, node).1
      && Empty(RemoveSelf(h1, node).0, head)
  {
    PushAppends(h, head, [], node, t, TestDuration);
    var h1 := Push(h, head, node, t, TestDuration);
    FrontBackEmpty(h1, head, [node]);
    RemoveFrontStep(h1, head, [node]);
    FrontBackEmpty(RemoveSelf(h1, node).0, head, []);
  }

  /** Lines 41-45 of the test: after pushing nodes into an empty queue, the
      queue holds them in push order and is not empty. */
  lemma {:induction false} PushScenario(h: Heap, head: NodeId, xs: seq<NodeId>, now: int)
    requires Ring(h, head, []) && Fresh(h, head, [], xs) && xs != []
    ensures var h1 := PushAll(h, head, xs, now, TestDuration, []);
      Ring(h1, head, xs) && !Empty(h1, head) && Front(h1, head) == xs[0]
  {
    assert [] + xs == xs;
    FrontBackEmpty(PushAll(h, head, xs, now, TestDuration, []), head, xs);
  }

  /** Lines 46-51 of the test: in a queue of ten nodes, `remove_self` on the
      first nine answers false each time and leaves the queue non-empty; on
      the last it answers true and empties the queue. */
  lemma {:induction false} DrainScenario(h: Heap, head: NodeId, xs: seq<NodeId>)
    requires Ring(h, head, xs) && |xs| == 10
    ensures var nine := RemoveEach(h, xs[..9], head, xs);
      && nine.1
      && Ring(nine.0, head, [xs[9]])
      && !Empty(nine.0, head)
      && var last := RemoveEach(nine.0, [xs[9]], head, [xs[9]]);
      && !last.1
      && Empty(last.0, head)
  {
    var nine := RemoveEach(h, xs[..9], head, xs);
    assert xs[9..] == [xs[9]];
    FrontBackEmpty(nine.0, head, [xs[9]]);
    var last := RemoveEach(nine.0, [xs[9]], head, [xs[9]]);
    assert [xs[9]][1..] == [];
    FrontBackEmpty(last.0, head, []);
  }
}
