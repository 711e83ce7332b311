/** All queues of the scheduler library together. A node is linked into at most one of
    them, so a change to one queue leaves the others alone. */
module QueueTables {
  import opened Queues

  // Each node is in the queue that home names, and only once.
  ghost predicate Separate(nodes: seq<seq<Node>>, home: map<Node, int>) {
    && (forall i, k :: 0 <= i < |nodes| && 0 <= k < |nodes[i]| ==> nodes[i][k] in home && home[nodes[i][k]] == i)
    && forall i, j, k :: 0 <= i < |nodes| && 0 <= j < k < |nodes[i]| ==> nodes[i][j] != nodes[i][k]
  }

  ghost function SpellAll(nodes: seq<seq<Node>>): (lists: seq<seq<int>>)
    ensures |lists| == |nodes|
  {
    seq(|nodes|, i requires 0 <= i < |nodes| => Spell(nodes[i]))
  }

  lemma SpellUpdate(nodes: seq<seq<Node>>, i: nat, x: seq<Node>)
    requires i < |nodes|
    ensures SpellAll(nodes[i := x]) == SpellAll(nodes)[i := Spell(x)]
  {
    hide Spell;
  }

  lemma SpellLonger(x: seq<Node>, n: Node)
    ensures Spell(x + [n]) == Spell(x) + [n.id]
  {
  }

  lemma SeparatePushed(nodes: seq<seq<Node>>, home: map<Node, int>, i: nat, n: Node)
    requires Separate(nodes, home) && i < |nodes| && n in home && home[n] == -1
    ensures Separate(nodes[i := nodes[i] + [n]], home[n := i])
  {
  }

  lemma SeparateNew(nodes: seq<seq<Node>>, home: map<Node, int>, n: Node)
    requires Separate(nodes, home) && n !in home
    ensures Separate(nodes, home[n := -1])
  {
  }

  lemma SeparateRemoved(nodes: seq<seq<Node>>, home: map<Node, int>, i: nat, k: nat)
    requires Separate(nodes, home) && i < |nodes| && k < |nodes[i]|
    ensures Separate(nodes[i := nodes[i][..k] + nodes[i][k + 1..]], home[nodes[i][k] := -1])
  {
  }

  lemma SeparateCleared(nodes: seq<seq<Node>>, home: map<Node, int>, i: nat)
    requires Separate(nodes, home) && i < |nodes|
    ensures Separate(nodes[i := []], map n | n in home && home[n] != i :: home[n])
  {
  }

  lemma Popped(nodes: seq<seq<Node>>, home: map<Node, int>, i: nat)
    requires Separate(nodes, home) && i < |nodes|
    ensures |SpellAll(nodes)[i]| == |nodes[i]|
    ensures nodes[i] == [] ==> SpellAll(nodes)[i := []] == SpellAll(nodes)
    ensures nodes[i] != [] ==>
              && SpellAll(nodes)[i][0] == nodes[i][0].id
              && SpellAll(nodes[i := nodes[i][1..]]) == SpellAll(nodes)[i := SpellAll(nodes)[i][1..]]
              && Separate(nodes[i := nodes[i][1..]], home[nodes[i][0] := -1])
  {
    if nodes[i] != [] {
      assert nodes[i][..0] + nodes[i][0 + 1..] == nodes[i][1..];
      SeparateRemoved(nodes, home, i, 0);
      assert Spell(nodes[i][1..]) == Spell(nodes[i])[1..];
      SpellUpdate(nodes, i, nodes[i][1..]);
    } else {
      assert Spell(nodes[i]) == [];
    }
  }

  class Table {
    var queues: seq<Queue>
    // The queue each node is in; -1 for nodes that are in none at the moment.
    ghost var home: map<Node, int>

    ghost function Nodes(): (nodes: seq<seq<Node>>)
      reads this, queues
      ensures |nodes| == |queues|
    {
      seq(|queues|, i requires 0 <= i < |queues| reads this, queues => queues[i].nodes)
    }

    // The threads of each queue, in order.
    ghost function Lists(): (lists: seq<seq<int>>)
      reads this, queues
      ensures |lists| == |queues|
    {
      SpellAll(Nodes())
    }

    ghost predicate Apart()
      reads this, queues
    {
      (forall i, j :: 0 <= i < j < |queues| ==> queues[i] != queues[j]) && Separate(Nodes(), home)
    }

    ghost predicate Proper()
      requires Apart()
      reads this, queues, home.Keys
    {
      forall i :: 0 <= i < |queues| ==> assert Nodes()[i] == queues[i].nodes; queues[i].Valid()
    }

    // Nodes in hand are not linked to anything.
    ghost predicate Loose()
      reads this, home.Keys
    {
      forall n :: n in home && home[n] == -1 ==> n.next == null
    }

    ghost predicate Valid()
      reads this, queues, home.Keys
    {
      Apart() && Proper() && Loose()
    }

    constructor ()
      ensures Valid() && queues == [] && home == map[] && fresh(this)
    {
      queues, home := [], map[];
    }

    lemma AtHome(i: nat)
      requires Valid() && i < |queues|
      ensures Nodes()[i] == queues[i].nodes
      ensures forall n :: n in queues[i].nodes ==> n in home && home[n] == i
    {
      assert Nodes()[i] == queues[i].nodes;
    }

    // No node is linked into two queues.
    lemma OneQueue(i: nat, j: nat, n: Node)
      requires Valid() && i < |queues| && j < |queues| && n in queues[i].nodes && n in queues[j].nodes
      ensures i == j
    {
      AtHome(i);
      AtHome(j);
    }

    // A change to queue i alone.
    twostate lemma OthersStay(i: nat)
      requires old(Valid()) && i < |queues| && unchanged(this`queues) && unchanged(this`home)
      requires forall j :: 0 <= j < |queues| && j != i ==> unchanged(queues[j])
      requires forall n :: n in home && home[n] != i ==> unchanged(n)
      ensures Nodes() == old(Nodes())[i := queues[i].nodes]
      ensures forall j :: 0 <= j < |queues| && j != i ==> queues[j].Valid()
    {
      hide Queue.Valid, Spell;
      forall j | 0 <= j < |queues| && j != i ensures queues[j].Valid() {
        assert old(queues[j].Valid());
        var nodes := old(Nodes())[j];
        assert forall k :: 0 <= k < |nodes| ==> nodes[k] in home && home[nodes[k]] == j;
        StaysValid(queues[j]);
      }
    }

    // ... and the nodes that are linked again as home says.
    twostate lemma TableStays(i: nat)
      requires old(Valid()) && i < |queues| && unchanged(this`queues) && queues[i].Valid()
      requires Separate(old(Nodes())[i := queues[i].nodes], home)
      requires forall j :: 0 <= j < |queues| && j != i ==> unchanged(queues[j]) && queues[j].Valid()
      requires forall n :: n in home && home[n] == -1 ==> n.next == null
      ensures Valid() && Nodes() == old(Nodes())[i := queues[i].nodes]
    {
      hide Queue.Valid, Spell, Separate;
      assert Nodes() == old(Nodes())[i := queues[i].nodes];
    }

    method NewNode(id: nat) returns (n: Node)
      requires Valid()
      modifies this`home
      ensures Valid() && n.id == id && fresh(n) && home == old(home)[n := -1]
      ensures Nodes() == old(Nodes()) && Lists() == old(Lists())
    {
      hide Queue.Valid;
      n := new Node(id);
      SeparateNew(Nodes(), home, n);
      home := home[n := -1];
      assert Nodes() == old(Nodes());
    }

    method NewQueue()
      requires Valid()
      modifies this`queues
      ensures Valid() && |queues| == |old(queues)| + 1 && queues[..|old(queues)|] == old(queues)
      ensures fresh(queues[|old(queues)|])
      ensures Nodes() == old(Nodes()) + [[]] && Lists() == old(Lists()) + [[]]
    {
      var q := new Queue();
      queues := queues + [q];
      assert Nodes() == old(Nodes()) + [[]];
      assert SpellAll(Nodes()) == SpellAll(old(Nodes())) + [[]];
    }

    // enqueue on queue i.
    method Push(i: nat, n: Node)
      requires Valid() && i < |queues| && n in home && home[n] == -1
      modifies this`home, queues, home.Keys
      ensures Valid() && home == old(home)[n := i] && home.Keys == old(home.Keys)
      ensures Nodes() == old(Nodes())[i := old(Nodes())[i] + [n]]
      ensures Lists() == old(Lists())[i := old(Lists())[i] + [n.id]]
    {
      hide Queue.Valid, Spell, Separate;
      AtHome(i);
      SeparatePushed(Nodes(), home, i, n);
      queues[i].Enqueue(n);
      OthersStay(i);
      home := home[n := i];
      TableStays(i);
      SpellLonger(old(Nodes())[i], n);
      SpellUpdate(old(Nodes()), i, old(Nodes())[i] + [n]);
    }

    // pop_from_queue on queue i.
    method Pop(i: nat) returns (r: Node?)
      requires Valid() && i < |queues|
      modifies this`home, queues, home.Keys
      ensures Valid() && home.Keys == old(home.Keys)
      ensures home == if r == null then old(home) else old(home)[r := -1]
      ensures r == null <==> old(Lists())[i] == []
      ensures r != null ==> r in home && old(home)[r] == i && r.id == old(Lists())[i][0]
      ensures Lists() == old(Lists())[i := if r == null then [] else old(Lists())[i][1..]]
      ensures Nodes() == old(Nodes())[i := if r == null then [] else old(Nodes())[i][1..]]
    {
      hide Queue.Valid, Spell, SpellAll, Separate;
      AtHome(i);
      Popped(Nodes(), home, i);
      r := queues[i].Pop();
      OthersStay(i);
      assert queues[i].nodes == if r == null then [] else old(Nodes())[i][1..];
      if r != null {
        home := home[r := -1];
      } else {
        assert old(Nodes())[i := []] == old(Nodes());
      }
      TableStays(i);
    }

    // delete_from_queue on queue i.
    method Remove(i: nat, id: int) returns (r: Node?)
      requires Valid() && i < |queues|
      modifies this`home, queues, home.Keys
      ensures Valid() && home.Keys == old(home.Keys)
      ensures home == if r == null then old(home) else old(home)[r := -1]
      ensures r == null <==> id !in old(Lists())[i]
      ensures r != null ==> r in home && old(home)[r] == i && r.id == id
      ensures Lists() == old(Lists())[i := Without(old(Lists())[i], id)]
      ensures forall j :: 0 <= j < |queues| && j != i ==> Nodes()[j] == old(Nodes())[j]
    {
      hide Queue.Valid, Without, Spell, Separate;
      AtHome(i);
      ghost var k;
      r, k := queues[i].Delete(id);
      OthersStay(i);
      if r != null {
        SeparateRemoved(old(Nodes()), home, i, k);
        home := home[r := -1];
      } else {
        assert old(Nodes())[i := queues[i].nodes] == old(Nodes());
      }
      TableStays(i);
      SpellUpdate(old(Nodes()), i, queues[i].nodes);
    }

    // empty_queue on queue i: its nodes are given up.
    method Clear(i: nat)
      requires Valid() && i < |queues|
      modifies this`home, queues[i]
      ensures Valid() && home.Keys <= old(home.Keys)
      ensures forall n :: n in old(home) && old(home)[n] != i ==> n in home && home[n] == old(home)[n]
      ensures Lists() == old(Lists())[i := []]
    {
      var q := queues[i];
      q.head := null;
      q.tail := null;
      q.nodes := [];
      OthersStay(i);
      SeparateCleared(old(Nodes()), home, i);
      home := map n | n in home && home[n] != i :: home[n];
      hide Separate;
      TableStays(i);
      assert Spell([]) == [];
      SpellUpdate(old(Nodes()), i, []);
    }

    // find_thread on queue i.
    method Has(i: nat, id: int) returns (found: bool)
      requires Valid() && i < |queues|
      ensures found <==> id in Lists()[i]
    {
      var h, prev, k := queues[i].Find(id);
      SpellWithout(queues[i].nodes, k, id);
      found := h != null;
    }

    method IsEmpty(i: nat) returns (empty: bool)
      requires Valid() && i < |queues|
      ensures empty <==> Lists()[i] == []
    {
      assert Nodes()[i] == queues[i].nodes;
      empty := queues[i].head == null;
    }

    method Head(i: nat) returns (h: Node?)
      requires Valid() && i < |queues|
      ensures h == if Nodes()[i] == [] then null else Nodes()[i][0]
      ensures |Nodes()[i]| == |Lists()[i]| && forall k :: 0 <= k < |Nodes()[i]| ==> Nodes()[i][k].id == Lists()[i][k]
    {
      assert Nodes()[i] == queues[i].nodes;
      h := queues[i].head;
    }

    // The node after the one at position p.
    method Next(i: nat, h: Node, ghost p: nat) returns (next: Node?)
      requires Valid() && i < |queues| && p < |Nodes()[i]| && Nodes()[i][p] == h
      ensures next == if p + 1 < |Nodes()[i]| then Nodes()[i][p + 1] else null
    {
      next := NextOf(queues[i], h, p);
    }
  }
}
