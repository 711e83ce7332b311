/** The linked list of cached translations, with the tail pointer the source keeps
    but does not maintain: nothing below assumes anything about where it points. */
module TranslationCache {
  import opened Options

  class Entry {
    var va: int
    var pa: int
    var next: Entry?

    constructor ()
      ensures next == null
    {
      next := null;
    }
  }

  ghost function ToFront(nodes: seq<Entry>, k: nat): seq<Entry>
    requires k < |nodes|
  {
    [nodes[k]] + nodes[..k] + nodes[k + 1..]
  }

  lemma ToFrontAt(nodes: seq<Entry>, k: nat)
    requires k < |nodes|
    ensures |ToFront(nodes, k)| == |nodes|
    ensures forall i {:trigger ToFront(nodes, k)[i]} :: 0 <= i < |nodes| ==>
              ToFront(nodes, k)[i] == if i == 0 then nodes[k] else if i <= k then nodes[i - 1] else nodes[i]
    ensures forall e :: e in ToFront(nodes, k) <==> e in nodes
    ensures ToFront(nodes, 0) == nodes
  {
    assert nodes == nodes[..k] + [nodes[k]] + nodes[k + 1..];
  }

  lemma ToFrontUnique(nodes: seq<Entry>, now: seq<Entry>, k: nat)
    requires k < |nodes| && |now| == |nodes|
    requires forall i {:trigger now[i]} :: 0 <= i < |nodes| ==> now[i] == if i == 0 then nodes[k] else if i <= k then nodes[i - 1] else nodes[i]
    requires forall i, j :: 0 <= i < j < |nodes| ==> nodes[i] != nodes[j] && nodes[i].va != nodes[j].va
    ensures forall i, j :: 0 <= i < j < |now| ==> now[i] != now[j] && now[i].va != now[j].va
  {
    forall i, j | 0 <= i < j < |now| ensures now[i] != now[j] && now[i].va != now[j].va {
      var a := if i == 0 then k else if i <= k then i - 1 else i;
      var b := if j <= k then j - 1 else j;
      assert now[i] == nodes[a] && now[j] == nodes[b];
      var lo, hi := if a < b then a else b, if a < b then b else a;
      assert nodes[lo] != nodes[hi] && nodes[lo].va != nodes[hi].va;
    }
  }

  class Tlb {
    const capacity: nat
    var head: Entry?
    var tail: Entry?
    var length: int
    ghost var nodes: seq<Entry>

    // The chain is acyclic and its keys are unique. The counter may exceed the real
    // length; it never exceeds the capacity, and an empty list has room.
    ghost predicate Valid()
      reads this, nodes
    {
      && capacity >= 1
      && (forall i, j :: 0 <= i < j < |nodes| ==> nodes[i] != nodes[j] && nodes[i].va != nodes[j].va)
      && (forall i :: 0 < i < |nodes| ==> nodes[i - 1].next == nodes[i])
      && (nodes == [] ==> head == null && length < capacity)
      && (nodes != [] ==> head == nodes[0] && nodes[|nodes| - 1].next == null)
      && |nodes| <= length <= capacity
    }

    ghost predicate Caches(va: int)
      reads this, nodes
    {
      exists i :: 0 <= i < |nodes| && nodes[i].va == va
    }

    // Every cached translation is the one the page tables give.
    ghost predicate Cached(pages: map<int, int>)
      reads this, nodes
    {
      forall i :: 0 <= i < |nodes| ==> nodes[i].va in pages && pages[nodes[i].va] == nodes[i].pa
    }

    constructor (capacity: nat)
      requires capacity >= 1
      ensures Valid() && nodes == [] && this.capacity == capacity && length == 0
    {
      this.capacity := capacity;
      head, tail, length, nodes := null, null, 0, [];
    }

    // add_TLB. The new node may be any memory outside the list, also the memory a
    // stale tail still points to.
    method Add(va: int, pa: int, node: Entry)
      requires Valid() && node !in nodes && !Caches(va)
      modifies this, node
      ensures Valid() && node.va == va && node.pa == pa
      ensures nodes == [node] + (if old(|nodes| > 0 && length >= capacity) then old(nodes)[1..] else old(nodes))
      ensures length == old(if |nodes| > 0 && length >= capacity then length else length + 1)
      ensures tail == if old(nodes) == [] then node else old(tail)
    {
      node.pa := pa;
      node.va := va;
      node.next := null;
      if head == null {
        head := node;
        tail := node;
        length := length + 1;
        nodes := [node];
      } else if length < capacity {
        node.next := head;
        head := node;
        length := length + 1;
        nodes := [node] + nodes;
      } else {
        assert |nodes| > 1 ==> nodes[1 - 1].next == nodes[1];
        node.next := head.next;
        head := node;
        nodes := [node] + nodes[1..];
      }
    }

    // arrange: move node k to the front, unless head and tail coincide.
    method Arrange(node: Entry, ghost k: nat)
      requires Valid() && k < |nodes| && nodes[k] == node
      modifies this, nodes`next
      ensures Valid()
      ensures nodes == if old(head == tail) then old(nodes) else ToFront(old(nodes), k)
      ensures tail == old(tail) && length == old(length)
    {
      hide ToFront;
      ToFrontAt(nodes, k);
      if head == tail {
        return;
      }
      var prev := Before(node, k);
      if prev == null {
        return;
      }
      MoveToFront(node, prev, k, ToFront(nodes, k));
    }

    method MoveToFront(node: Entry, prev: Entry, ghost k: nat, ghost now: seq<Entry>)
      requires Valid() && 0 < k < |nodes| && nodes[k] == node && nodes[k - 1] == prev && |now| == |nodes|
      requires forall i {:trigger now[i]} :: 0 <= i < |nodes| ==> now[i] == if i == 0 then nodes[k] else if i <= k then nodes[i - 1] else nodes[i]
      modifies this, nodes`next
      ensures Valid() && nodes == now && tail == old(tail) && length == old(length)
    {
      ghost var was := nodes;
      ToFrontUnique(was, now, k);
      assert k + 1 < |was| ==> was[k + 1 - 1].next == was[k + 1];
      prev.next := node.next;
      node.next := head;
      head := node;
      nodes := now;
      forall i | 0 < i < |now| ensures now[i - 1].next == now[i] {
        if i == 1 {
          assert now[0] == node;
        } else if i <= k {
          assert now[i - 1] == was[i - 2];
          assert old(was[i - 1 - 1].next) == was[i - 1];
        } else if i == k + 1 {
          assert now[k] == was[k - 1] == prev;
        } else {
          assert now[i - 1] == was[i - 1];
          assert old(was[i - 1].next) == was[i];
        }
      }
    }

    method Before(node: Entry, ghost k: nat) returns (prev: Entry?)
      requires Valid() && k < |nodes| && nodes[k] == node
      ensures prev == (if k == 0 then null else nodes[k - 1])
    {
      var curr := head;
      prev := null;
      ghost var i := 0;
      while curr != node
        invariant i <= k && curr == nodes[i]
        invariant prev == (if i == 0 then null else nodes[i - 1])
        decreases k - i
      {
        assert nodes[i + 1 - 1].next == nodes[i + 1];
        prev := curr;
        curr := curr.next;
        i := i + 1;
      }
    }

    // The search shared by lookup and deletion.
    method Find(va: int) returns (present: Entry?, prev: Entry?, ghost k: nat)
      requires Valid()
      ensures k <= |nodes| && present == (if k < |nodes| then nodes[k] else null)
      ensures prev == (if k == 0 then null else nodes[k - 1])
      ensures forall i :: 0 <= i < k ==> nodes[i].va != va
      ensures present != null ==> present.va == va
      ensures present != null <==> Caches(va)
    {
      present, prev, k := head, null, 0;
      while present != null && present.va != va
        invariant k <= |nodes| && present == (if k < |nodes| then nodes[k] else null)
        invariant prev == (if k == 0 then null else nodes[k - 1])
        invariant forall i :: 0 <= i < k ==> nodes[i].va != va
        decreases |nodes| - k
      {
        assert k + 1 < |nodes| ==> nodes[k + 1 - 1].next == nodes[k + 1];
        prev := present;
        present := present.next;
        k := k + 1;
      }
    }

    // check_TLB.
    method Check(va: int) returns (r: Option<int>)
      requires Valid()
      modifies this, nodes`next
      ensures Valid()
      ensures r.Some? <==> old(Caches(va))
      ensures r.Some? ==> exists e :: e in nodes && e.va == va && e.pa == r.value
      ensures forall e :: e in nodes <==> e in old(nodes)
      ensures tail == old(tail) && length == old(length)
      ensures r.None? || old(head == tail) ==> nodes == old(nodes)
      ensures r.Some? && old(head != tail) ==> nodes != [] && nodes[0].va == va
      ensures r.Some? && old(head != tail) ==>
                forall k :: 0 <= k < old(|nodes|) && old(nodes[k].va) == va ==> nodes == ToFront(old(nodes), k)
    {
      var present, prev; ghost var k;
      present, prev, k := Find(va);
      if present == null {
        return None;
      }
      Arrange(present, k);
      return Some(present.pa);
    }

    // delete_from_tlb. Where the stale tail misleads it, other entries are dropped too.
    method Delete(va: int)
      requires Valid()
      modifies this, nodes`next
      ensures Valid() && !Caches(va)
      ensures !old(Caches(va)) ==> nodes == old(nodes) && length == old(length)
      ensures old(Caches(va)) ==> length == old(length) - 1
      ensures forall i :: 0 <= i < |nodes| ==> nodes[i] in old(nodes)
      ensures forall k :: 0 <= k < old(|nodes|) && old(nodes[k].va) == va ==>
                nodes == Left(old(nodes), k, old(head == tail), old(tail == nodes[k]))
    {
      if head == null {
        return;
      }
      if head == tail && head.va == va {
        head := null;
        tail := null;
        length := length - 1;
        nodes := [];
        return;
      }
      hide Left;
      var present, prev; ghost var k;
      present, prev, k := Find(va);
      if present != null {
        ghost var was := nodes;
        LeftWithin(was, k, head == tail, tail == was[k]);
        Unlink(present, prev, k);
        forall i | 0 <= i < |nodes| ensures nodes[i] in was && nodes[i].va != va {
        }
      }
    }

    method Unlink(present: Entry, prev: Entry?, ghost k: nat)
      requires Valid() && k < |nodes| && present == nodes[k] && !(k == 0 && head == tail)
      requires prev == (if k == 0 then null else nodes[k - 1])
      modifies this, nodes`next
      ensures Valid() && nodes == Left(old(nodes), k, old(head == tail), old(tail == nodes[k]))
      ensures length == old(length) - 1
    {
      assert k + 1 < |nodes| ==> nodes[k + 1 - 1].next == nodes[k + 1];
      if head == present {
        head := present.next;
        nodes := nodes[1..];
      } else if tail == present {
        prev.next := null;
        tail := prev;
        nodes := nodes[..k];
      } else {
        prev.next := present.next;
        nodes := nodes[..k] + nodes[k + 1..];
      }
      length := length - 1;
    }
  }

  // What remains when the entry at position k is deleted.
  ghost function Left(nodes: seq<Entry>, k: nat, headIsTail: bool, kIsTail: bool): seq<Entry>
    requires k < |nodes|
  {
    if k == 0 && headIsTail then []
    else if k > 0 && kIsTail then nodes[..k]
    else nodes[..k] + nodes[k + 1..]
  }

  lemma LeftWithin(nodes: seq<Entry>, k: nat, headIsTail: bool, kIsTail: bool)
    requires k < |nodes|
    requires forall i, j :: 0 <= i < j < |nodes| ==> nodes[i] != nodes[j] && nodes[i].va != nodes[j].va
    ensures forall i :: 0 <= i < |Left(nodes, k, headIsTail, kIsTail)| ==>
              Left(nodes, k, headIsTail, kIsTail)[i] in nodes && Left(nodes, k, headIsTail, kIsTail)[i].va != nodes[k].va
  {
  }

  // A deletion spares all other entries exactly when the tail pointer is not met
  // before the end of the list.
  lemma DeletionCondition(nodes: seq<Entry>, k: nat, headIsTail: bool, kIsTail: bool)
    requires k < |nodes|
    requires forall i, j :: 0 <= i < j < |nodes| ==> nodes[i] != nodes[j]
    requires k == 0 ==> headIsTail == kIsTail
    ensures Left(nodes, k, headIsTail, kIsTail) == nodes[..k] + nodes[k + 1..] <==> kIsTail ==> k == |nodes| - 1
  {
    if kIsTail && k < |nodes| - 1 {
      assert |nodes[..k] + nodes[k + 1..]| == |nodes| - 1;
    }
  }

  // It does happen: after a hit on the oldest entry the tail pointer is at the front,
  // deleting that entry empties the list, and the counter still says two.
  method StaleTailDropsOthers() returns (t: Tlb)
    ensures t.Valid() && t.nodes == [] && t.length == 2
  {
    var a;
    t, a := ThreeCached();
    t.Arrange(a, 2);
    assert t.nodes[0] == a;
    t.Delete(1);
  }

  method ThreeCached() returns (t: Tlb, a: Entry)
    ensures t.Valid() && fresh(t) && |t.nodes| == 3 && t.nodes[2] == a && a.va == 1 && t.length == 3
    ensures fresh(t.nodes[0]) && fresh(t.nodes[1]) && fresh(a)
    ensures t.tail == a && t.head != a
  {
    t := new Tlb(512);
    a := new Entry();
    var b := new Entry();
    var c := new Entry();
    t.Add(1, 10, a);
    t.Add(2, 20, b);
    t.Add(3, 30, c);
  }
}
