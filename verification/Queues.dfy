/** The linked thread queues of the scheduler: a head pointer, a tail pointer and
    nodes chained by next. The spine of nodes is kept as a ghost sequence; Ids is
    the sequence of thread ids the queue stands for. */
module Queues {
  class Node {
    const id: nat
    var next: Node?

    constructor (id: nat)
      ensures this.id == id && next == null
    {
      this.id := id;
      next := null;
    }
  }

  // The sequence without its first occurrence of id.
  function Without(s: seq<int>, id: int): (r: seq<int>)
    ensures id !in s ==> r == s
    ensures id in s ==> |r| == |s| - 1 && multiset(r) == multiset(s) - multiset{id}
  {
    if s == [] then []
    else if s[0] == id then
      assert s == [id] + s[1..];
      s[1..]
    else
      assert s == [s[0]] + s[1..];
      [s[0]] + Without(s[1..], id)
  }

  ghost function Spell(nodes: seq<Node>): (ids: seq<int>)
    ensures |ids| == |nodes|
  {
    seq(|nodes|, i requires 0 <= i < |nodes| => nodes[i].id)
  }

  // Without, when the position of the first occurrence is known.
  lemma {:induction false} WithoutAt(s: seq<int>, k: nat)
    requires k < |s| && forall i :: 0 <= i < k ==> s[i] != s[k]
    ensures Without(s, s[k]) == s[..k] + s[k + 1..]
  {
    hide Without;
    WithoutStep(s, s[k]);
    if k > 0 {
      WithoutAt(s[1..], k - 1);
      CutShifted(s, k);
    } else {
      assert s[..0] + s[1..] == s[1..];
    }
  }

  lemma WithoutStep(s: seq<int>, id: int)
    requires s != []
    ensures s[0] == id ==> Without(s, id) == s[1..]
    ensures s[0] != id ==> Without(s, id) == [s[0]] + Without(s[1..], id)
  {
  }

  lemma CutShifted(s: seq<int>, k: nat)
    requires 0 < k < |s|
    ensures [s[0]] + (s[1..][..k - 1] + s[1..][k..]) == s[..k] + s[k + 1..]
  {
  }

  class Queue {
    var head: Node?
    var tail: Node?
    ghost var nodes: seq<Node>

    // The chain from head is exactly the spine. The tail pointer of an empty queue
    // may be stale; that of a non-empty one is the last node or not yet known.
    ghost predicate Valid()
      reads this, nodes
    {
      && (forall i, j :: 0 <= i < j < |nodes| ==> nodes[i] != nodes[j])
      && (forall i :: 0 < i < |nodes| ==> nodes[i - 1].next == nodes[i])
      && (nodes == [] ==> head == null)
      && (nodes != [] ==>
        && head == nodes[0]
        && nodes[|nodes| - 1].next == null
        && (tail == null || tail == nodes[|nodes| - 1]))
    }

    ghost function Ids(): seq<int>
      reads this
    {
      Spell(nodes)
    }

    constructor ()
      ensures Valid() && nodes == [] && fresh(this)
    {
      head, tail, nodes := null, null, [];
    }

    method Enqueue(n: Node)
      requires Valid() && n !in nodes && n.next == null
      modifies this, nodes
      ensures Valid() && nodes == old(nodes) + [n]
      ensures Ids() == old(Ids()) + [n.id]
    {
      if head == null {
        head := n;
        tail := n;
      } else {
        if tail == null {
          var last := head;
          assert 1 < |nodes| ==> nodes[1 - 1].next == nodes[1];
          ghost var i := 0;
          while last.next != null
            invariant i < |nodes| && last == nodes[i]
            invariant i + 1 < |nodes| ==> last.next == nodes[i + 1]
            decreases |nodes| - i
          {
            assert i + 2 < |nodes| ==> nodes[i + 2 - 1].next == nodes[i + 2];
            last := last.next;
            i := i + 1;
          }
          tail := last;
        }
        tail.next := n;
        tail := n;
      }
      nodes := nodes + [n];
    }

    method Pop() returns (r: Node?)
      requires Valid()
      modifies this, nodes
      ensures Valid()
      ensures r == null <==> old(nodes) == []
      ensures r != null ==> r == old(nodes)[0] && r.next == null && nodes == old(nodes)[1..]
      ensures r != null ==> old(Ids()) == [r.id] + Ids()
      ensures r == null ==> nodes == []
    {
      if head == null {
        return null;
      }
      r := head;
      var temp := head.next;
      head.next := null;
      if head == tail {
        head := null;
        tail := null;
      } else {
        head := temp;
      }
      nodes := nodes[1..];
    }

    // The search shared by the deletions: the first node with this id, and the
    // node before it.
    method Find(id: int) returns (h: Node?, prev: Node?, ghost k: nat)
      requires Valid()
      ensures k <= |nodes| && h == (if k < |nodes| then nodes[k] else null)
      ensures prev == (if k == 0 then null else nodes[k - 1])
      ensures forall i :: 0 <= i < k ==> nodes[i].id != id
      ensures h != null ==> h.id == id
    {
      h, prev, k := head, null, 0;
      while h != null && h.id != id
        invariant k <= |nodes| && h == (if k < |nodes| then nodes[k] else null)
        invariant prev == (if k == 0 then null else nodes[k - 1])
        invariant forall i :: 0 <= i < k ==> nodes[i].id != id
        decreases |nodes| - k
      {
        assert k + 1 < |nodes| ==> nodes[k + 1 - 1].next == nodes[k + 1];
        prev := h;
        h := h.next;
        k := k + 1;
      }
    }

    // delete_from_queue with its intended successor: the source clears head.next
    // before reading it when the deleted node is the head (see DeleteAsWritten).
    method Delete(id: int) returns (r: Node?, ghost k: nat)
      requires Valid()
      modifies this, nodes
      ensures Valid()
      ensures r == null <==> id !in old(Ids())
      ensures r != null ==> r.id == id && r.next == null
      ensures Ids() == Without(old(Ids()), id)
      ensures k <= |old(nodes)| && forall i :: 0 <= i < k ==> old(nodes)[i].id != id
      ensures r == (if k < |old(nodes)| then old(nodes)[k] else null)
      ensures nodes == if k < |old(nodes)| then old(nodes)[..k] + old(nodes)[k + 1..] else old(nodes)
    {
      hide Spell, Without;
      var prev;
      r, prev, k := Find(id);
      SpellWithout(nodes, k, id);
      if r != null {
        hide Valid;
        Unlink(r, prev, k);
      }
    }

    method Unlink(r: Node, prev: Node?, ghost k: nat)
      requires Valid() && k < |nodes| && nodes[k] == r && prev == (if k == 0 then null else nodes[k - 1])
      modifies this, nodes
      ensures Valid() && r.next == null && nodes == old(nodes)[..k] + old(nodes)[k + 1..]
    {
      assert k + 1 < |nodes| ==> nodes[k + 1 - 1].next == nodes[k + 1];
      var temp := r.next;
      r.next := null;
      if r == head {
        if head == tail {
          head := null;
          tail := null;
        } else {
          head := temp;
        }
      } else if r == tail {
        prev.next := null;
        tail := prev;
      } else {
        prev.next := temp;
      }
      nodes := nodes[..k] + nodes[k + 1..];
    }

    // delete_from_queue to the letter. Deleting the head of a longer queue reads
    // the link that was just cleared, and every other thread is lost.
    method DeleteAsWritten(id: int) returns (r: Node?)
      requires Valid()
      modifies this, nodes
      ensures Valid()
      ensures r == null <==> id !in old(Ids())
      ensures r != null ==> r.id == id && r.next == null
      ensures Ids() == LeftAsWritten(old(Ids()), id)
    {
      hide Spell, Without;
      var prev; ghost var k;
      r, prev, k := Find(id);
      SpellWithout(nodes, k, id);
      if r != null {
        UnlinkAsWritten(r, prev, k);
      }
    }

    method UnlinkAsWritten(r: Node, prev: Node?, ghost k: nat)
      requires Valid() && k < |nodes| && nodes[k] == r && prev == (if k == 0 then null else nodes[k - 1])
      modifies this, nodes
      ensures Valid() && r.next == null
      ensures nodes == if k == 0 then [] else old(nodes)[..k] + old(nodes)[k + 1..]
    {
      assert k + 1 < |nodes| ==> nodes[k + 1 - 1].next == nodes[k + 1];
      var temp := r.next;
      r.next := null;
      if r == head {
        if head == tail {
          head := null;
          tail := null;
        } else {
          head := head.next;
        }
        nodes := [];
      } else {
        if r == tail {
          prev.next := null;
          tail := prev;
        } else {
          prev.next := temp;
        }
        nodes := nodes[..k] + nodes[k + 1..];
      }
    }
  }

  lemma SpellWithout(nodes: seq<Node>, k: nat, id: int)
    requires k <= |nodes| && forall i :: 0 <= i < k ==> nodes[i].id != id
    requires k < |nodes| ==> nodes[k].id == id
    ensures id in Spell(nodes) <==> k < |nodes|
    ensures k < |nodes| ==> Without(Spell(nodes), id) == Spell(nodes[..k] + nodes[k + 1..])
    ensures k == |nodes| ==> Without(Spell(nodes), id) == Spell(nodes)
    ensures Spell([]) == []
    ensures nodes != [] ==> Spell(nodes)[0] == nodes[0].id
  {
    hide Without;
    if k < |nodes| {
      assert Spell(nodes)[k] == id;
      WithoutAt(Spell(nodes), k);
      assert Spell(nodes[..k] + nodes[k + 1..]) == Spell(nodes)[..k] + Spell(nodes)[k + 1..];
    }
  }

  // What DeleteAsWritten leaves behind.
  function LeftAsWritten(s: seq<int>, id: int): seq<int> {
    if s != [] && s[0] == id then [] else Without(s, id)
  }

  // The deletion as written keeps the other threads exactly when the deleted thread
  // is not at the front of a longer queue.
  lemma DeleteAsWrittenCondition(s: seq<int>, id: int)
    ensures LeftAsWritten(s, id) == Without(s, id) <==> !(|s| >= 2 && s[0] == id)
  {
    if s != [] && s[0] == id {
      assert |Without(s, id)| == |s| - 1;
    }
  }

  // Two threads wait and the first is deleted.
  lemma DeleteAsWrittenFails()
    ensures LeftAsWritten([1, 2], 1) == [] && Without([1, 2], 1) == [2]
  {
    assert [1, 2][1..] == [2];
  }

  // ---------- one node in two queues ----------

  // worker_mutex_lock links one node into the wait queue of the mutex and into the
  // waiting queue through the same next field. As soon as another thread starts to
  // wait, for whatever reason, the wait queue of the mutex reaches that thread too.
  method SharedNodeAsWritten(blocked: nat, later: nat) returns (mutexQueue: Queue, waiting: Queue)
    ensures waiting.Valid() && waiting.Ids() == [blocked, later]
    ensures mutexQueue.Ids() == [blocked] && !mutexQueue.Valid()
    ensures mutexQueue.head != null && mutexQueue.head.next != null && mutexQueue.head.next.id == later
  {
    mutexQueue := new Queue();
    waiting := new Queue();
    var n := new Node(blocked);
    mutexQueue.Enqueue(n);
    waiting.Enqueue(n);
    var n' := new Node(later);
    waiting.Enqueue(n');
    assert waiting.nodes[1 - 1].next == waiting.nodes[1];
    assert mutexQueue.nodes[0].next != null;
  }

  // The wait queue of a mutex whose waiters sleep in w, each with its one node, with
  // head and tail as Enqueue leaves them.
  ghost predicate Shares(m: Queue, w: Queue)
    reads m, w
  {
    && m.nodes != [] && m.head == m.nodes[0] && m.tail == m.nodes[|m.nodes| - 1]
    && (forall i, j :: 0 <= i < j < |m.nodes| ==> m.nodes[i] != m.nodes[j])
    && forall i :: 0 <= i < |m.nodes| ==> m.nodes[i] in w.nodes
  }

  // The shared nodes do no harm exactly when the waiters of the mutex are the last
  // sleepers, in order.
  lemma SharedNodesCondition(m: Queue, w: Queue)
    requires w.Valid() && Shares(m, w)
    ensures m.Valid() <==> LastSleepers(m, w)
  {
    hide Queue.Valid, Shares, LastSleepers;
    if m.Valid() {
      ProperIsLast(m, w);
    }
    if LastSleepers(m, w) {
      LastIsProper(m, w);
    }
  }

  lemma ProperIsLast(m: Queue, w: Queue)
    requires w.Valid() && Shares(m, w) && m.Valid()
    ensures LastSleepers(m, w)
  {
    var p := PlaceOf(w, m.nodes[0]);
    ChainFollows(m, w, p, |m.nodes| - 1);
    hide Queue.Valid;
    assert m.nodes == w.nodes[p..];
  }

  lemma LastIsProper(m: Queue, w: Queue)
    requires w.Valid() && Shares(m, w) && LastSleepers(m, w)
    ensures m.Valid()
  {
    var d := |w.nodes| - |m.nodes|;
    forall i | 0 < i < |m.nodes| ensures m.nodes[i - 1].next == m.nodes[i] {
      assert m.nodes[i] == w.nodes[d + i] && m.nodes[i - 1] == w.nodes[d + i - 1];
      assert w.nodes[d + i - 1].next == w.nodes[d + i];
    }
    assert m.nodes[|m.nodes| - 1] == w.nodes[|w.nodes| - 1];
  }

  ghost predicate LastSleepers(m: Queue, w: Queue)
    reads m, w
  {
    |m.nodes| <= |w.nodes| && m.nodes == w.nodes[|w.nodes| - |m.nodes|..]
  }

  lemma PlaceOf(w: Queue, n: Node) returns (p: nat)
    requires n in w.nodes
    ensures p < |w.nodes| && w.nodes[p] == n
  {
    p :| p < |w.nodes| && w.nodes[p] == n;
  }

  // A proper queue whose nodes lie in w runs along w.
  lemma {:induction false} ChainFollows(m: Queue, w: Queue, p: nat, k: nat)
    requires w.Valid() && m.Valid() && Shares(m, w) && k < |m.nodes|
    requires p < |w.nodes| && w.nodes[p] == m.nodes[0]
    ensures p + k < |w.nodes| && forall i :: 0 <= i <= k ==> m.nodes[i] == w.nodes[p + i]
    ensures k == |m.nodes| - 1 ==> p + k == |w.nodes| - 1
  {
    if k == 0 {
    } else {
      ChainFollows(m, w, p, k - 1);
      assert m.nodes[k - 1].next == m.nodes[k];
      assert p + k < |w.nodes| ==> w.nodes[p + k - 1].next == w.nodes[p + k];
    }
    assert p + k + 1 < |w.nodes| ==> w.nodes[p + k + 1 - 1].next == w.nodes[p + k + 1];
  }

  // The blocking branch of worker_mutex_lock: the node of the running thread goes to the
  // end of the wait queue and of the waiting queue. The first link is made behind the
  // last waiter, so whoever fell asleep after that one is cut off the waiting queue.
  method LockAsWritten(m: Queue, w: Queue, n: Node) returns (ghost q: nat)
    requires w.Valid() && (w.nodes != [] ==> w.tail == w.nodes[|w.nodes| - 1]) && m != w
    requires if m.nodes == [] then m.head == null else Shares(m, w)
    requires n !in w.nodes && n.next == null
    modifies m, w, w.nodes
    ensures m.nodes == old(m.nodes) + [n] && m.tail == n
    ensures m.head == if old(m.nodes) == [] then n else old(m.head)
    ensures w.Valid() && q <= |old(w.nodes)| && w.nodes == old(w.nodes)[..q] + [n]
    ensures if old(m.nodes) == [] then q == |old(w.nodes)| else q > 0 && old(w.nodes)[q - 1] == old(m.tail)
    ensures q == |old(w.nodes)| <==> old(m.nodes) == [] || old(m.tail == w.tail)
  {
    q := |w.nodes|;
    if m.head == null {
      m.head := n;
      m.tail := n;
    } else {
      q := PlaceOf(w, m.tail);
      q := q + 1;
      m.tail.next := n;
      m.tail := n;
    }
    m.nodes := m.nodes + [n];
    if w.head == null {
      w.head := n;
      w.tail := n;
    } else {
      w.tail.next := n;
      w.tail := n;
    }
    w.nodes := w.nodes[..q] + [n];
  }

  ghost predicate Disjoint(w: Queue, ready: Queue)
    reads w, ready
  {
    w != ready && forall n :: n in w.nodes ==> n !in ready.nodes
  }

  ghost predicate DistinctIds(nodes: seq<Node>) {
    forall i, j :: 0 <= i < j < |nodes| ==> nodes[i].id != nodes[j].id
  }

  // One turn of the loop of unblock_threads: the thread leaves the waiting queue and
  // becomes ready.
  method MoveToReady(w: Queue, ready: Queue, id: int, ghost p: nat)
    requires w.Valid() && ready.Valid() && Disjoint(w, ready)
    requires DistinctIds(w.nodes) && p < |w.nodes| && w.nodes[p].id == id
    modifies w, w.nodes, ready, ready.nodes
    ensures w.Valid() && ready.Valid() && Disjoint(w, ready)
    ensures w.nodes == old(w.nodes)[..p] + old(w.nodes)[p + 1..]
    ensures ready.nodes == old(ready.nodes) + [old(w.nodes)[p]]
  {
    hide Queue.Valid, Spell, Without;
    ghost var all := w.nodes;
    assert forall i :: 0 <= i < |ready.nodes| ==> ready.nodes[i] !in w.nodes;
    var n, k := w.Delete(id);
    assert k == p;
    StaysValid(ready);
    label moved:
    NodesLeft(all, p, w.nodes);
    assert forall i :: 0 <= i < |w.nodes| ==> w.nodes[i] in all;
    assert n in all;
    hide DistinctIds;
    ready.Enqueue(n);
    StaysValid@moved(w);
  }

  lemma NodesLeft(all: seq<Node>, p: nat, now: seq<Node>)
    requires p < |all| && DistinctIds(all) && now == all[..p] + all[p + 1..]
    ensures forall n :: n in now ==> n in all && n != all[p]
  {
  }

  // A queue none of whose nodes has changed.
  twostate lemma StaysValid(q: Queue)
    requires old(q.Valid()) && unchanged(q)
    requires forall i :: 0 <= i < |q.nodes| ==> q.nodes[i].next == old(q.nodes[i].next)
    ensures q.Valid()
  {
  }

  lemma OneLess(all: seq<Node>, now: seq<Node>, p: nat, i: nat)
    requires p <= i < |all| && now == all[..p] + all[i..]
    ensures p < |now| && now[p] == all[i]
    ensures now[..p] + now[p + 1..] == all[..p] + all[i + 1..]
    ensures i + 1 < |all| ==> p + 1 < |now| && now[p + 1] == all[i + 1]
    ensures i + 1 == |all| ==> p + 1 == |now|
    ensures all[p..i] + [all[i]] == all[p..i + 1]
    ensures DistinctIds(all) ==> DistinctIds(now)
  {
    if DistinctIds(all) {
      forall j, k | 0 <= j < k < |now| ensures now[j].id != now[k].id {
        assert now[k] == all[if k < p then k else k - p + i];
      }
    }
  }

  // unblock_threads on such a queue, with the repaired deletion: it wakes whoever fell
  // asleep after the first waiter of the mutex, for whatever reason, and so exactly the
  // waiters only under the condition above.
  method UnblockAsWritten(m: Queue, w: Queue, ready: Queue) returns (ghost p: nat)
    requires w.Valid() && ready.Valid() && Shares(m, w) && m != w && m != ready
    requires Disjoint(w, ready) && DistinctIds(w.nodes)
    modifies w, w.nodes, ready, ready.nodes
    ensures w.Valid() && ready.Valid()
    ensures p < |old(w.nodes)| && old(w.nodes)[p] == m.head
    ensures w.nodes == old(w.nodes)[..p] && ready.nodes == old(ready.nodes) + old(w.nodes)[p..]
    ensures old(w.nodes)[p..] == m.nodes <==> old(LastSleepers(m, w))
  {
    hide Queue.Valid, Shares, Spell, DistinctIds, Disjoint;
    ghost var all, before := w.nodes, ready.nodes;
    p := FirstWaiter(m, w);
    var h := m.head;
    ghost var i := p;
    assert all == all[..p] + all[p..];
    while h != null
      invariant p <= i <= |all| && h == (if i < |all| then all[i] else null)
      invariant w.Valid() && ready.Valid() && Disjoint(w, ready) && DistinctIds(all)
      invariant w.nodes == all[..p] + all[i..] && ready.nodes == before + all[p..i]
      decreases |all| - i
    {
      OneLess(all, w.nodes, p, i);
      var id := h.id;
      h := NextOf(w, h, p);
      MoveToReady(w, ready, id, p);
      i := i + 1;
    }
  }

  method NextOf(w: Queue, h: Node, ghost p: nat) returns (next: Node?)
    requires w.Valid() && p < |w.nodes| && w.nodes[p] == h
    ensures next == if p + 1 < |w.nodes| then w.nodes[p + 1] else null
  {
    assert p + 1 < |w.nodes| ==> w.nodes[p + 1 - 1].next == w.nodes[p + 1];
    next := h.next;
  }

  lemma FirstWaiter(m: Queue, w: Queue) returns (p: nat)
    requires w.Valid() && Shares(m, w)
    ensures p < |w.nodes| && w.nodes[p] == m.head
    ensures w.nodes[p..] == m.nodes <==> LastSleepers(m, w)
  {
    p := PlaceOf(w, m.nodes[0]);
    if LastSleepers(m, w) {
      var d := |w.nodes| - |m.nodes|;
      assert w.nodes[d] == m.nodes[0];
      assert d == p;
    }
  }
}
