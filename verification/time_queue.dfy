/** The intrusive timer ring of tinyasync: `timeNode` and `timeQueue<D>`.

    Every node lives in a heap, a map from node ids to the node's two links,
    its posted-task reference and its expiry time. A queue is identified by its
    sentinel head node. The predicate `Ring` ties the pointer structure to an
    abstract sequence of node ids, front first; each operation is then stated
    as a change of that sequence.
 */
module TimeQueue {

  type NodeId = nat
  type TaskId = nat

  /** One `timeNode`: links, the non-owning `m_post_task` and `m_expire`. */
  datatype TimeNode = TimeNode(next: NodeId, prev: NodeId, task: TaskId, expire: int)

  type Heap = map<NodeId, TimeNode>

  // ---------------------------------------------------------------------------
  // The abstraction: a circular doubly-linked list with a sentinel head
  // ---------------------------------------------------------------------------

  ghost predicate Distinct(s: seq<NodeId>) {
    forall i, j :: 0 <= i < j < |s| ==> s[i] != s[j]
  }

  /** The node after `s[i]` in the ring `[head] + s`. */
  function Succ(head: NodeId, s: seq<NodeId>, i: nat): NodeId
    requires i < |s|
  {
    if i + 1 < |s| then s[i + 1] else head
  }

  /** The node before `s[i]` in the ring `[head] + s`. */
  function Pred(head: NodeId, s: seq<NodeId>, i: nat): NodeId
    requires i < |s|
  {
    if i == 0 then head else s[i - 1]
  }

  /** The links of the heap `h` form the ring `head -> s[0] -> ... -> s[|s|-1] -> head`. */
  ghost predicate Ring(h: Heap, head: NodeId, s: seq<NodeId>) {
    && head in h
    && head !in s
    && Distinct(s)
    && (forall i {:trigger s[i] in h} :: 0 <= i < |s| ==> s[i] in h)
    && h[head].next == (if s == [] then head else s[0])
    && h[head].prev == (if s == [] then head else s[|s| - 1])
    && (forall i {:trigger h[s[i]]} :: 0 <= i < |s| ==> h[s[i]].next == Succ(head, s, i))
    && (forall i {:trigger h[s[i]]} :: 0 <= i < |s| ==> h[s[i]].prev == Pred(head, s, i))
  }

  /** What the ring operations never touch: each node's task and expiry. */
  function Payload(h: Heap): map<NodeId, (TaskId, int)> {
    map x | x in h :: (h[x].task, h[x].expire)
  }

  /** `h'` holds the same nodes as `h` with the same task and expiry. */
  ghost predicate SamePayload(h: Heap, h': Heap) {
    h'.Keys == h.Keys && Payload(h') == Payload(h)
  }

  lemma SamePayloadAt(h: Heap, h': Heap, x: NodeId)
    requires SamePayload(h, h') && x in h
    ensures x in h' && h'[x].task == h[x].task && h'[x].expire == h[x].expire
  {
    assert x in Payload(h);
    assert x in Payload(h');
  }

  lemma SamePayloadTrans(h1: Heap, h2: Heap, h3: Heap)
    requires SamePayload(h1, h2) && SamePayload(h2, h3)
    ensures SamePayload(h1, h3)
  {
  }

  // ---------------------------------------------------------------------------
  // timeNode
  // ---------------------------------------------------------------------------

  /** `timeNode::init`: both links point at the node itself. Used on a queue's
      head, it makes the queue empty. */
  function Init(h: Heap, n: NodeId): (r: Heap)
    requires n in h
    ensures SelfLoop(r, n)
    ensures Ring(r, n, [])
    ensures SamePayload(h, r)
    ensures forall y {:trigger r[y]} :: y in h && y != n ==> r[y] == h[y]
  {
    h[n := h[n].(next := n, prev := n)]
  }

  ghost predicate SelfLoop(h: Heap, n: NodeId) {
    n in h && h[n].next == n && h[n].prev == n
  }

  /** The links of `r` are those of `h` with the neighbours of `x` pointed at
      each other, as `remove_self` leaves them. */
  ghost predicate RewiredAround(h: Heap, r: Heap, x: NodeId)
    requires x in h
  {
    && r.Keys == h.Keys
    && (forall y {:trigger r[y]} :: y in h ==> r[y].next == (if y == h[x].prev then h[x].next else h[y].next))
    && (forall y {:trigger r[y]} :: y in h ==> r[y].prev == (if y == h[x].next then h[x].prev else h[y].prev))
  }

  /** `timeNode::remove_self`: the successor's back link and the predecessor's
      forward link are rewritten around the node; the node's own links are
      left as they were. Reports whether predecessor and successor coincide. */
  function RemoveSelf(h: Heap, x: NodeId): (r: (Heap, bool))
    requires x in h && h[x].prev in h && h[x].next in h
    ensures SamePayload(h, r.0)
    ensures forall y {:trigger r.0[y]} :: y in h && y != h[x].prev && y != h[x].next ==> r.0[y] == h[y]
    ensures RewiredAround(h, r.0, x)
    ensures r.1 <==> h[x].prev == h[x].next
  {
    var prev := h[x].prev;
    var next := h[x].next;
    var h1 := h[next := h[next].(prev := prev)];
    var h2 := h1[prev := h1[prev].(next := next)];
    (h2, prev == next)
  }

  /** `timeNode::push`: links `node` directly after `at`, in front of `at`'s
      old successor. When `node` is `at` itself or that successor, the stores
      overlap and the later one wins. */
  function PushAfter(h: Heap, at: NodeId, node: NodeId): (r: Heap)
    requires at in h && node in h && h[at].next in h
    ensures SamePayload(h, r)
    ensures r[at].next == node && r[h[at].next].prev == node
    ensures node != at ==> r[node].next == h[at].next
    ensures node != h[at].next ==> r[node].prev == at
    ensures forall y {:trigger r[y]} :: y in h && y != at && y != node && y != h[at].next ==> r[y] == h[y]
  {
    var next := h[at].next;
    var h1 := h[node := h[node].(next := next)];
    var h2 := h1[node := h1[node].(prev := at)];
    var h3 := h2[at := h2[at].(next := node)];
    h3[next := h3[next].(prev := node)]
  }

  /** `timeNode::is_expire`: the strict test `m_expire < ts`. */
  predicate IsExpire(n: TimeNode, ts: int) {
    n.expire < ts
  }

  // ---------------------------------------------------------------------------
  // timeQueue<D>
  // ---------------------------------------------------------------------------

  function Front(h: Heap, head: NodeId): NodeId
    requires head in h
  {
    h[head].next
  }

  function Back(h: Heap, head: NodeId): NodeId
    requires head in h
  {
    h[head].prev
  }

  predicate Empty(h: Heap, head: NodeId)
    requires head in h
  {
    h[head].next == head
  }

  /** `timeQueue::push`: stamps `now + duration` and appends after `back()`.
      The clock reading `now` and the queue's fixed duration are parameters. */
  function Push(h: Heap, head: NodeId, node: NodeId, now: int, duration: int): (r: Heap)
    requires head in h && node in h && h[head].prev in h && h[h[head].prev].next in h
    ensures SamePayload(h[node := h[node].(expire := now + duration)], r)
    ensures node in r && r[node].expire == now + duration
  {
    var h1 := h[node := h[node].(expire := now + duration)];
    var r := PushAfter(h1, h1[head].prev, node);
    SamePayloadAt(h1, r, node);
    r
  }

  /** `timeQueue::pop`: unlinks `front()` when the queue is not empty. */
  function Pop(h: Heap, head: NodeId): (r: Heap)
    requires head in h && h[head].next in h
    requires h[head].next != head ==> h[h[head].next].prev in h && h[h[head].next].next in h
    ensures SamePayload(h, r)
  {
    if Empty(h, head) then h else RemoveSelf(h, Front(h, head)).0
  }

  // ---------------------------------------------------------------------------
  // Lemmas: each operation as a change of the abstract sequence
  // ---------------------------------------------------------------------------

  /** `front()`, `back()` and `empty()` read the sequence's ends. */
  lemma FrontBackEmpty(h: Heap, head: NodeId, s: seq<NodeId>)
    requires Ring(h, head, s)
    ensures Empty(h, head) <==> s == []
    ensures s != [] ==> Front(h, head) == s[0] && Back(h, head) == s[|s| - 1]
    ensures s == [] ==> Front(h, head) == head && Back(h, head) == head
  {
    if s != [] {
      assert s[0] in s;
    }
  }

  /** The sequence `s` with the element at index `i` left out. */
  function Without(s: seq<NodeId>, i: nat): seq<NodeId>
    requires i < |s|
  {
    seq(|s| - 1, j requires 0 <= j < |s| - 1 => if j < i then s[j] else s[j + 1])
  }

  lemma WithoutDistinct(s: seq<NodeId>, i: nat)
    requires i < |s| && Distinct(s)
    ensures Distinct(Without(s, i))
    ensures s[i] !in Without(s, i)
    ensures forall j :: 0 <= j < |Without(s, i)| ==> Without(s, i)[j] in s
  {
    var s' := Without(s, i);
    forall a, b | 0 <= a < b < |s'| ensures s'[a] != s'[b] {
      var a' := if a < i then a else a + 1;
      var b' := if b < i then b else b + 1;
      assert s'[a] == s[a'] && s'[b] == s[b'];
    }
    forall j | 0 <= j < |s'| ensures s'[j] != s[i] && s'[j] in s {
      var j' := if j < i then j else j + 1;
      assert s'[j] == s[j'];
    }
  }

  /** The links of the node at index `j` of the shortened ring, for a node
      in front of the removed one. */
  lemma RemoveSelfLinkBefore(h: Heap, r: Heap, head: NodeId, s: seq<NodeId>, i: nat, j: nat)
    requires Ring(h, head, s) && j < i < |s| && RewiredAround(h, r, s[i])
    ensures var s' := Without(s, i);
      && s'[j] in r
      && r[s'[j]].next == Succ(head, s', j)
      && r[s'[j]].prev == Pred(head, s', j)
  {
    var s' := Without(s, i);
    var next := Succ(head, s, i);
    assert s'[j] == s[j];
    if j > 0 { assert s'[j - 1] == s[j - 1]; }
    assert s[j] != next by {
      if i + 1 < |s| { assert next == s[i + 1]; }
    }
    if j < i - 1 {
      assert s[j] != s[i - 1];
      assert s'[j + 1] == s[j + 1];
    }
  }

  /** The same for the node that followed the removed one. */
  lemma RemoveSelfLinkNext(h: Heap, r: Heap, head: NodeId, s: seq<NodeId>, i: nat)
    requires Ring(h, head, s) && i < |s| - 1 && RewiredAround(h, r, s[i])
    ensures var s' := Without(s, i);
      && s'[i] in r
      && r[s'[i]].next == Succ(head, s', i)
      && r[s'[i]].prev == Pred(head, s', i)
  {
    var s' := Without(s, i);
    var prev := Pred(head, s, i);
    assert s'[i] == s[i + 1];
    if i + 1 < |s'| { assert s'[i + 1] == s[i + 2]; }
    if i > 0 {
      assert prev == s[i - 1];
      assert s'[i - 1] == s[i - 1];
    }
    assert s[i + 1] != prev;
  }

  /** The same for a node further behind the removed one. */
  lemma RemoveSelfLinkAfter(h: Heap, r: Heap, head: NodeId, s: seq<NodeId>, i: nat, j: nat)
    requires Ring(h, head, s) && i < j < |s| - 1 && RewiredAround(h, r, s[i])
    ensures var s' := Without(s, i);
      && s'[j] in r
      && r[s'[j]].next == Succ(head, s', j)
      && r[s'[j]].prev == Pred(head, s', j)
  {
    var s' := Without(s, i);
    var prev := Pred(head, s, i);
    assert s'[j] == s[j + 1];
    assert s'[j - 1] == s[j];
    if j + 1 < |s'| { assert s'[j + 1] == s[j + 2]; }
    assert s[j + 1] != prev by {
      if i > 0 { assert prev == s[i - 1]; }
    }
    assert s[j + 1] != s[i + 1];
  }

  /** The links of the node at index `j` of the shortened ring. */
  lemma RemoveSelfLinkAt(h: Heap, r: Heap, head: NodeId, s: seq<NodeId>, i: nat, j: nat)
    requires Ring(h, head, s) && i < |s| && j < |s| - 1 && RewiredAround(h, r, s[i])
    ensures var s' := Without(s, i);
      && s'[j] in r
      && r[s'[j]].next == Succ(head, s', j)
      && r[s'[j]].prev == Pred(head, s', j)
  {
    if j < i {
      RemoveSelfLinkBefore(h, r, head, s, i, j);
    } else if j == i {
      RemoveSelfLinkNext(h, r, head, s, i);
    } else {
      RemoveSelfLinkAfter(h, r, head, s, i, j);
    }
  }

  /** The head's links after removing the node at index `i`, and the answer. */
  lemma RemoveSelfEnds(h: Heap, head: NodeId, s: seq<NodeId>, i: nat)
    requires Ring(h, head, s) && i < |s|
    ensures h[s[i]].prev in h && h[s[i]].next in h
    ensures var r := RemoveSelf(h, s[i]);
      var s' := Without(s, i);
      && r.0[head].next == (if s' == [] then head else s'[0])
      && r.0[head].prev == (if s' == [] then head else s'[|s'| - 1])
      && (r.1 <==> |s| == 1)
      && r.0[s[i]] == h[s[i]]
  {
    var x := s[i];
    var prev := Pred(head, s, i);
    var next := Succ(head, s, i);
    assert prev != x && next != x;
    if |s| == 1 {
      assert prev == head && next == head;
    } else {
      assert prev != next by {
        if i == 0 { assert next == s[1]; }
        else if i + 1 == |s| { assert prev == s[i - 1]; }
        else { assert prev == s[i - 1] && next == s[i + 1]; }
      }
    }
  }

  /** Removing the node at index `i` of a ring yields the ring without it, and
      `remove_self` answers true exactly when that ring is now empty. */
  lemma RemoveSelfLinked(h: Heap, head: NodeId, s: seq<NodeId>, i: nat)
    requires Ring(h, head, s) && i < |s|
    ensures h[s[i]].prev in h && h[s[i]].next in h
    ensures Ring(RemoveSelf(h, s[i]).0, head, Without(s, i))
    ensures RemoveSelf(h, s[i]).1 <==> |s| == 1
    ensures RemoveSelf(h, s[i]).0[s[i]] == h[s[i]]
  {
    var r := RemoveSelf(h, s[i]).0;
    var s' := Without(s, i);
    WithoutDistinct(s, i);
    RemoveSelfEnds(h, head, s, i);
    forall j | 0 <= j < |s'|
      ensures s'[j] in r
      ensures r[s'[j]].next == Succ(head, s', j)
      ensures r[s'[j]].prev == Pred(head, s', j)
    {
      RemoveSelfLinkAt(h, r, head, s, i, j);
    }
  }

  /** `remove_self` on a node whose neighbours already point at each other
      rewrites nothing. */
  lemma RemoveSelfNoop(h: Heap, x: NodeId)
    requires x in h && h[x].prev in h && h[x].next in h
    requires h[h[x].next].prev == h[x].prev && h[h[x].prev].next == h[x].next
    ensures RemoveSelf(h, x).0 == h
  {
    var prev := h[x].prev;
    var next := h[x].next;
    assert h[next].(prev := prev) == h[next];
    assert h[next := h[next]] == h;
    assert h[prev].(next := next) == h[prev];
    assert h[prev := h[prev]] == h;
  }

  /** A self-looped node (freshly `init`-ed) is unchanged by `remove_self`,
      which then reports true. */
  lemma RemoveSelfUnlinked(h: Heap, n: NodeId)
    requires SelfLoop(h, n)
    ensures RemoveSelf(h, n) == (h, true)
  {
    RemoveSelfNoop(h, n);
  }

  /** `remove_self` does not reset the node's own links: a second call with no
      ring change in between rewrites the neighbours' links with the values
      they already hold, leaving the ring (and the whole heap) unchanged. */
  lemma RemoveSelfTwice(h: Heap, head: NodeId, s: seq<NodeId>, i: nat)
    requires Ring(h, head, s) && i < |s|
    ensures h[s[i]].prev in h && h[s[i]].next in h
    ensures var r := RemoveSelf(h, s[i]).0;
      RemoveSelf(r, s[i]) == (r, |s| == 1)
  {
    RemoveSelfLinked(h, head, s, i);
    var x := s[i];
    var r := RemoveSelf(h, x).0;
    assert r[x] == h[x];
    RemoveSelfNoop(r, x);
  }

  /** `push` appends the unlinked node at the back and stamps `now + duration`. */
  lemma PushAppends(h: Heap, head: NodeId, s: seq<NodeId>, node: NodeId, now: int, duration: int)
    requires Ring(h, head, s) && node in h && node != head && node !in s
    ensures h[head].prev in h && h[h[head].prev].next in h
    ensures var r := Push(h, head, node, now, duration);
      && Ring(r, head, s + [node])
      && r[node].expire == now + duration
      && SamePayload(h[node := h[node].(expire := now + duration)], r)
  {
    if s != [] { assert s[|s| - 1] in s; }
    var h1 := h[node := h[node].(expire := now + duration)];
    var back := h1[head].prev;
    assert back == (if s == [] then head else s[|s| - 1]);
    assert h1[back].next == head;
    var r := PushAfter(h1, back, node);
    var s' := s + [node];
    assert r[node].next == head && r[node].prev == back;
    assert r[back].next == node;
    assert r[head].prev == node;
    assert r[head].next == s'[0];
    forall j | 0 <= j < |s'|
      ensures s'[j] in r
      ensures r[s'[j]].next == Succ(head, s', j)
      ensures r[s'[j]].prev == Pred(head, s', j)
    {
      if j == |s| {
      } else {
        assert s'[j] == s[j];
        if j == |s| - 1 {
        } else {
          assert s[j] != back by { assert back == s[|s| - 1]; }
        }
      }
    }
  }

  /** `pop` drops the front of a non-empty ring and is a no-op on an empty one. */
  lemma PopFront(h: Heap, head: NodeId, s: seq<NodeId>)
    requires Ring(h, head, s)
    ensures h[head].next in h
    ensures h[head].next != head ==> h[h[head].next].prev in h && h[h[head].next].next in h
    ensures Ring(Pop(h, head), head, if s == [] then s else s[1..])
    ensures s == [] ==> Pop(h, head) == h
    ensures s != [] ==> Pop(h, head)[s[0]] == h[s[0]]
  {
    FrontBackEmpty(h, head, s);
    if s != [] {
      RemoveSelfLinked(h, head, s, 0);
      assert Without(s, 0) == s[1..];
    }
  }

  /** The sweep pops the front and then calls `remove_self` on the popped node
      once more; that second call leaves the heap as `pop` left it. */
  lemma PopThenRemoveSelf(h: Heap, head: NodeId, s: seq<NodeId>)
    requires Ring(h, head, s) && s != []
    ensures h[head].next in h && h[head].next != head
    ensures h[h[head].next].prev in h && h[h[head].next].next in h
    ensures var h1 := Pop(h, head);
      && s[0] in h1 && h1[s[0]].prev in h1 && h1[s[0]].next in h1
      && RemoveSelf(h1, s[0]) == (h1, |s| == 1)
  {
    FrontBackEmpty(h, head, s);
    PopFront(h, head, s);
    RemoveSelfTwice(h, head, s, 0);
  }

  // ---------------------------------------------------------------------------
  // Expiry order
  // ---------------------------------------------------------------------------

  /** Expiry times are non-decreasing from front to back. */
  ghost predicate ExpiryOrdered(h: Heap, s: seq<NodeId>)
    requires forall i :: 0 <= i < |s| ==> s[i] in h
  {
    forall i, j {:trigger h[s[i]], h[s[j]]} :: 0 <= i < j < |s| ==> h[s[i]].expire <= h[s[j]].expire
  }

  /** No node of `s` expires after `t`. */
  ghost predicate ExpiryBounded(h: Heap, s: seq<NodeId>, t: int)
    requires forall i :: 0 <= i < |s| ==> s[i] in h
  {
    forall i {:trigger h[s[i]]} :: 0 <= i < |s| ==> h[s[i]].expire <= t
  }

  /** Appending a node whose expiry is no earlier than any other keeps the
      order, in a heap with the same expiries elsewhere. */
  lemma OrderedAppend(h: Heap, r: Heap, s: seq<NodeId>, node: NodeId)
    requires forall i :: 0 <= i < |s| ==> s[i] in h && s[i] in r && r[s[i]].expire == h[s[i]].expire
    requires ExpiryOrdered(h, s)
    requires node in r && forall i :: 0 <= i < |s| ==> h[s[i]].expire <= r[node].expire
    ensures forall i :: 0 <= i < |s + [node]| ==> (s + [node])[i] in r
    ensures ExpiryOrdered(r, s + [node])
  {
    var s' := s + [node];
    forall i | 0 <= i < |s'| ensures s'[i] in r {
      if i < |s| { assert s'[i] == s[i]; }
    }
    forall i, j | 0 <= i < j < |s'| ensures r[s'[i]].expire <= r[s'[j]].expire {
      assert s'[i] == s[i];
      if j < |s| { assert s'[j] == s[j]; }
    }
  }

  /** A push at a clock reading no earlier than any earlier push keeps the ring
      ordered by expiry: with one fixed duration, tail order is expiry order. */
  lemma PushKeepsOrder(h: Heap, head: NodeId, s: seq<NodeId>, node: NodeId, now: int, duration: int)
    requires Ring(h, head, s) && node in h && node != head && node !in s
    requires ExpiryOrdered(h, s)
    requires ExpiryBounded(h, s, now + duration)
    ensures h[head].prev in h && h[h[head].prev].next in h
    ensures ExpiryOrdered(Push(h, head, node, now, duration), s + [node])
  {
    if s != [] { assert s[|s| - 1] in s; }
    var h1 := h[node := h[node].(expire := now + duration)];
    var r := Push(h, head, node, now, duration);
    forall i | 0 <= i < |s| ensures s[i] in r && r[s[i]].expire == h[s[i]].expire {
      assert s[i] != node;
      SamePayloadAt(h1, r, s[i]);
    }
    OrderedAppend(h, r, s, node);
  }

  /** Leaving one node out keeps the order. */
  lemma OrderedWithout(h: Heap, s: seq<NodeId>, i: nat)
    requires i < |s| && forall j :: 0 <= j < |s| ==> s[j] in h
    requires ExpiryOrdered(h, s)
    ensures forall j :: 0 <= j < |Without(s, i)| ==> Without(s, i)[j] in h
    ensures ExpiryOrdered(h, Without(s, i))
  {
    var w := Without(s, i);
    forall j | 0 <= j < |w| ensures w[j] in h {
      assert w[j] == s[if j < i then j else j + 1];
    }
    forall a, b | 0 <= a < b < |w| ensures h[w[a]].expire <= h[w[b]].expire {
      assert w[a] == s[if a < i then a else a + 1];
      assert w[b] == s[if b < i then b else b + 1];
    }
  }

  /** Every suffix of an ordered ring is ordered, also in a heap with the same
      payload. */
  lemma OrderedSuffix(h: Heap, h': Heap, s: seq<NodeId>, k: nat)
    requires k <= |s| && forall j :: 0 <= j < |s| ==> s[j] in h
    requires SamePayload(h, h') && ExpiryOrdered(h, s)
    ensures forall j :: 0 <= j < |s[k..]| ==> s[k..][j] in h'
    ensures ExpiryOrdered(h', s[k..])
  {
    forall j | 0 <= j < |s[k..]| ensures s[k..][j] in h' && h'[s[k..][j]].expire == h[s[k + j]].expire {
      assert s[k..][j] == s[k + j];
      SamePayloadAt(h, h', s[k + j]);
    }
  }

  /** The bound carries over to every suffix, also in a heap with the same
      payload. */
  lemma BoundedSuffix(h: Heap, h': Heap, s: seq<NodeId>, k: nat, t: int)
    requires k <= |s| && forall j :: 0 <= j < |s| ==> s[j] in h
    requires SamePayload(h, h') && ExpiryBounded(h, s, t)
    ensures forall j :: 0 <= j < |s[k..]| ==> s[k..][j] in h'
    ensures ExpiryBounded(h', s[k..], t)
  {
    forall j | 0 <= j < |s[k..]| ensures s[k..][j] in h' && h'[s[k..][j]].expire == h[s[k + j]].expire {
      assert s[k..][j] == s[k + j];
      SamePayloadAt(h, h', s[k + j]);
    }
  }

  /** `remove_self` on any node of an ordered ring leaves the rest ordered. */
  lemma RemoveSelfKeepsOrder(h: Heap, head: NodeId, s: seq<NodeId>, i: nat)
    requires Ring(h, head, s) && i < |s| && ExpiryOrdered(h, s)
    ensures h[s[i]].prev in h && h[s[i]].next in h
    ensures var r := RemoveSelf(h, s[i]).0;
      && (forall j :: 0 <= j < |Without(s, i)| ==> Without(s, i)[j] in r)
      && ExpiryOrdered(r, Without(s, i))
  {
    RemoveSelfLinked(h, head, s, i);
    OrderedWithout(h, s, i);
    var w := Without(s, i);
    assert w[0..] == w;
    OrderedSuffix(h, RemoveSelf(h, s[i]).0, w, 0);
  }

  /** `pop` on an ordered ring leaves the rest ordered. */
  lemma PopKeepsOrder(h: Heap, head: NodeId, s: seq<NodeId>)
    requires Ring(h, head, s) && s != [] && ExpiryOrdered(h, s)
    ensures h[head].next in h && h[h[head].next].prev in h && h[h[head].next].next in h
    ensures var r := Pop(h, head);
      && (forall j :: 0 <= j < |s[1..]| ==> s[1..][j] in r)
      && ExpiryOrdered(r, s[1..])
  {
    PopFront(h, head, s);
    FrontBackEmpty(h, head, s);
    OrderedSuffix(h, Pop(h, head), s, 1);
  }

  /** A node pushed at time `t` is not expired at any `ts <= t + duration` and
      is expired at every `ts > t + duration`. */
  lemma PushExpiry(h: Heap, head: NodeId, node: NodeId, t: int, duration: int, ts: int)
    requires head in h && node in h && h[head].prev in h && h[h[head].prev].next in h
    ensures IsExpire(Push(h, head, node, t, duration)[node], ts) <==> ts > t + duration
  {
  }
}
