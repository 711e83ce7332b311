/** The scheduler library in the form of the source: one linked queue for each level, one
    for the sleepers and one for each mutex, the thread table and the running node,
    updated step by step. No node is in two queues, and every entry point carries out
    exactly the step of the transition system, so the results about its runs apply. */
module Scheduler {
  import opened Options
  import opened Queues
  import opened QueueTables
  import opened SchedulerModel
  import opened SchedulerProofs
  import opened SchedulerEffects

  // ---------- the queues as the transition system sees them ----------

  // slot: the number of the wait queue of the mutex.
  datatype Cell = Cell(locked: bool, owner: Option<int>, slot: int)

  // What the library holds, with every queue as the sequence of its threads. The queues
  // up to levels are the run queues, the next one holds the sleepers.
  datatype Image = Image(
    threads: map<int, Thread>,
    lists: seq<seq<int>>,
    running: Option<int>,
    cells: map<int, Cell>,
    cycles: int,
    count: int)

  ghost predicate Slots(levels: int, n: int, cells: map<int, Cell>) {
    && 1 <= levels < n
    && (forall m :: m in cells ==> levels < cells[m].slot < n)
    && forall m, m' :: m in cells && m' in cells && m != m' ==> cells[m].slot != cells[m'].slot
  }

  function MutexOf(lists: seq<seq<int>>, cell: Cell): Mutex {
    Mutex(cell.locked, cell.owner, if 0 <= cell.slot < |lists| then lists[cell.slot] else [])
  }

  function Mutexes(lists: seq<seq<int>>, cells: map<int, Cell>): map<int, Mutex> {
    map m | m in cells :: MutexOf(lists, cells[m])
  }

  function View(levels: nat, v: Image): State
    requires levels < |v.lists|
  {
    State(v.threads, v.lists[..levels], v.lists[levels], v.running, Mutexes(v.lists, v.cells), v.cycles, v.count)
  }

  lemma MutexesAre(lists: seq<seq<int>>, cells: map<int, Cell>, mutexes: map<int, Mutex>)
    requires mutexes.Keys == cells.Keys
    requires forall m :: m in cells ==> mutexes[m] == MutexOf(lists, cells[m])
    ensures Mutexes(lists, cells) == mutexes
  {
    assert Mutexes(lists, cells).Keys == cells.Keys;
    assert forall m :: m in cells ==> Mutexes(lists, cells)[m] == mutexes[m];
  }

  lemma ViewReady(levels: nat, v: Image, l: nat, q: seq<int>)
    requires Slots(levels, |v.lists|, v.cells) && l < levels
    ensures View(levels, v.(lists := v.lists[l := q])) == View(levels, v).(ready := View(levels, v).ready[l := q])
  {
    assert v.lists[l := q][..levels] == v.lists[..levels][l := q];
    MutexesAre(v.lists[l := q], v.cells, Mutexes(v.lists, v.cells));
  }

  lemma ViewWaiting(levels: nat, v: Image, q: seq<int>)
    requires Slots(levels, |v.lists|, v.cells)
    ensures View(levels, v.(lists := v.lists[levels := q])) == View(levels, v).(waiting := q)
  {
    assert v.lists[levels := q][..levels] == v.lists[..levels];
    MutexesAre(v.lists[levels := q], v.cells, Mutexes(v.lists, v.cells));
  }

  lemma ViewMutex(levels: nat, v: Image, m: int, q: seq<int>)
    requires Slots(levels, |v.lists|, v.cells) && m in v.cells
    ensures var s := View(levels, v);
            View(levels, v.(lists := v.lists[v.cells[m].slot := q])) ==
              s.(mutexes := s.mutexes[m := s.mutexes[m].(queue := q)])
  {
    var lists := v.lists[v.cells[m].slot := q];
    assert lists[..levels] == v.lists[..levels];
    MutexesAre(lists, v.cells, Mutexes(v.lists, v.cells)[m := MutexOf(v.lists, v.cells[m]).(queue := q)]);
  }

  lemma ViewCell(levels: nat, v: Image, m: int, cell: Cell)
    requires levels < |v.lists|
    ensures var s := View(levels, v);
            View(levels, v.(cells := v.cells[m := cell])) == s.(mutexes := s.mutexes[m := MutexOf(v.lists, cell)])
  {
    assert Mutexes(v.lists, v.cells[m := cell]) == Mutexes(v.lists, v.cells)[m := MutexOf(v.lists, cell)];
  }

  lemma ViewLonger(levels: nat, v: Image)
    requires Slots(levels, |v.lists|, v.cells)
    ensures View(levels, v.(lists := v.lists + [[]])) == View(levels, v)
  {
    assert (v.lists + [[]])[..levels] == v.lists[..levels];
    MutexesAre(v.lists + [[]], v.cells, Mutexes(v.lists, v.cells));
  }

  lemma InitView(c: Config, v: Image)
    requires c.levels >= 1 && v.threads == map[0 := Thread(0, RUNNING, None, None, 0)]
    requires v.lists == seq(c.levels + 1, _ => []) && v.running == Some(0)
    requires v.cells == map[] && v.cycles == 0 && v.count == 1
    ensures View(c.levels, v) == Init(c)
  {
    assert v.lists[..c.levels] == Init(c).ready;
    MutexesAre(v.lists, v.cells, map[]);
  }

  // Whoever sleeps can be made ready.
  ghost predicate Wakeable(s: State) {
    forall t :: t in s.waiting ==> t in s.threads && 0 <= s.threads[t].priority < |s.ready|
  }

  lemma InvWakeable(c: Config, s: State)
    requires Inv(c, s)
    ensures forall mutexes :: Wakeable(s.(mutexes := mutexes))
  {
  }

  lemma LeaveWakeable(c: Config, s: State, elapsed: int)
    requires Inv(c, s) && s.running.Some?
    ensures Wakeable(Leave(s, elapsed))
  {
  }

  lemma WakeableStays(s: State, t: int)
    requires Wakeable(s)
    ensures Wakeable(Wake(s, t))
  {
    assert forall x :: x in Without(s.waiting, t) ==> x in s.waiting by {
      if t in s.waiting {
        assert forall x :: x in Without(s.waiting, t) ==> x in multiset(Without(s.waiting, t));
      }
    }
  }

  lemma WakeAllStep(s: State, ts: seq<int>)
    requires ts != []
    ensures WakeAll(s, ts) == WakeAll(Wake(s, ts[0]), ts[1..])
  {
  }

  lemma WakeAllNone(s: State)
    ensures WakeAll(s, []) == s
  {
  }

  // n empty queues.
  method NewTable(n: nat) returns (t: Table)
    ensures t.Valid() && t.Lists() == seq(n, _ => [])
    ensures fresh(t) && t.home == map[] && forall k :: 0 <= k < |t.queues| ==> fresh(t.queues[k])
  {
    t := new Table();
    var i := 0;
    while i < n
      invariant i <= n && t.Valid() && t.Lists() == seq(i, _ => [])
      invariant fresh(t) && t.home == map[] && forall k :: 0 <= k < |t.queues| ==> fresh(t.queues[k])
    {
      hide Table.Valid;
      t.NewQueue();
      i := i + 1;
    }
  }

  class Library {
    const c: Config
    const table: Table
    var threads: map<int, Thread>
    var node: Node?
    var cells: map<int, Cell>
    var cycles: int
    var count: int

    ghost predicate Valid()
      reads this, table, table.queues, table.home.Keys
    {
      && table.Valid() && Slots(c.levels, |table.queues|, cells)
      && (node != null ==> node in table.home && table.home[node] == -1)
    }

    ghost function Now(): Image
      reads this, table, table.queues
    {
      Image(threads, table.Lists(), if node == null then None else Some(node.id), cells, cycles, count)
    }

    ghost function Abs(): State
      requires Valid()
      reads this, table, table.queues, table.home.Keys
    {
      View(c.levels, Now())
    }

    // The queues and nodes are the same objects as before.
    twostate predicate SameObjects()
      reads this, table
    {
      table.queues == old(table.queues) && table.home.Keys == old(table.home.Keys)
    }

    // All other queues and nodes are new.
    twostate predicate FreshObjects()
      reads this, table
    {
      && (forall q :: q in table.queues ==> q in old(table.queues) || fresh(q))
      && forall n :: n in table.home ==> n in old(table.home) || fresh(n)
    }

    constructor (c: Config)
      requires c.levels >= 1
      ensures this.c == c && Valid() && Abs() == Init(c) && Inv(c, Abs())
      ensures fresh(table) && (forall q :: q in table.queues ==> fresh(q)) && forall n :: n in table.home ==> fresh(n)
    {
      hide Table.Valid, Table.Lists, InvWith, View, Init;
      var t := NewTable(c.levels + 1);
      var n := t.NewNode(0);
      this.c, table, node := c, t, n;
      threads := map[0 := Thread(0, RUNNING, None, None, 0)];
      cells, cycles, count := map[], 0, 1;
      new;
      InitView(c, Now());
      InitKeeps(c);
    }

    // enqueue on the run queue of the thread's priority.
    method Enqueue(n: Node)
      requires Valid() && n in table.home && table.home[n] == -1 && n != node
      requires n.id in threads && 0 <= threads[n.id].priority < c.levels
      modifies this`threads, table, table.queues, table.home.Keys
      ensures Valid() && SameObjects()
      ensures Abs() == Append(old(Abs()), n.id)
      ensures threads == old(threads)[n.id := old(threads[n.id]).(status := READY)]
      ensures forall j :: c.levels <= j < |table.queues| ==> table.Nodes()[j] == old(table.Nodes()[j])
    {
      hide Table.Valid, Spell, Mutexes;
      var p := threads[n.id].priority;
      ghost var v := Now();
      threads := threads[n.id := threads[n.id].(status := READY)];
      table.Push(p, n);
      ViewReady(c.levels, v.(threads := threads), p, v.lists[p] + [n.id]);
    }

    // Take one thread off the waiting queue, as unblock_threads and release_threads do.
    method WakeThread(t: int)
      requires Valid() && Wakeable(Abs())
      modifies this`threads, table, table.queues, table.home.Keys
      ensures Valid() && SameObjects()
      ensures Abs() == Wake(old(Abs()), t)
      ensures forall j :: c.levels < j < |table.queues| ==> table.Nodes()[j] == old(table.Nodes()[j])
    {
      hide Table.Valid, Spell, Mutexes, Without, Append;
      ghost var v := Now();
      var n := table.Remove(c.levels, t);
      ViewWaiting(c.levels, v, Without(v.lists[c.levels], t));
      if n != null {
        Enqueue(n);
      }
    }

    // The nodes of the wait queue are followed while their threads leave the waiting
    // queue with the other node they have there.
    method UnblockThreads(slot: nat)
      requires Valid() && Wakeable(Abs()) && c.levels < slot < |table.queues|
      modifies this`threads, table, table.queues, table.home.Keys
      ensures Valid() && SameObjects()
      ensures Abs() == WakeAll(old(Abs()), old(table.Lists()[slot]))
    {
      hide Valid, Abs, Table.Valid, Spell, WakeAll, Wake, Wakeable;
      TableIsValid();
      ghost var nodes, ts := table.Nodes()[slot], table.Lists()[slot];
      var h := table.Head(slot);
      ghost var i := 0;
      assert ts[0..] == ts;
      while h != null
        invariant Valid() && SameObjects() && Wakeable(Abs())
        invariant i <= |nodes| && h == (if i < |nodes| then nodes[i] else null)
        invariant table.Nodes()[slot] == nodes
        invariant WakeAll(Abs(), ts[i..]) == WakeAll(old(Abs()), ts)
        decreases |nodes| - i
      {
        assert ts[i..][0] == ts[i] && ts[i..][1..] == ts[i + 1..];
        TableIsValid();
        WakeAllStep(Abs(), ts[i..]);
        var id := h.id;
        h := table.Next(slot, h, i);
        WakeableStays(Abs(), id);
        WakeThread(id);
        i := i + 1;
      }
      assert ts[i..] == [];
      WakeAllNone(Abs());
    }

    lemma TableIsValid()
      requires Valid()
      ensures table.Valid()
    {
    }

    // find_ready_threads: level by level.
    method FindReady(t: int) returns (found: bool)
      requires Valid()
      ensures found == (t in Flat(Abs().ready))
    {
      hide Table.Valid, Spell, Mutexes;
      FlatMember(Abs().ready, t);
      var l := 0;
      while l < c.levels
        invariant l <= c.levels && forall k :: 0 <= k < l ==> t !in Abs().ready[k]
      {
        found := table.Has(l, t);
        assert Abs().ready[l] == table.Lists()[l];
        if found {
          return;
        }
        l := l + 1;
      }
      found := false;
    }

    // The plain fields are those of the state.
    lemma Fields()
      requires Valid()
      ensures var s := Abs();
              && s.threads == threads && s.cycles == cycles && s.count == count && |s.ready| == c.levels >= 1
              && s.running == if node == null then None else Some(node.id)
    {
    }

    // pop_from_queue on run queue l.
    method TakeFirst(l: nat) returns (n: Node?)
      requires Valid() && l < c.levels
      modifies table, table.queues, table.home.Keys
      ensures Valid() && SameObjects()
      ensures n != null ==> n in table.home && table.home[n] == -1 && n != node
      ensures |Abs().ready| == c.levels && (n == null ==> Abs() == old(Abs()) && Abs().ready[l] == [])
      ensures n != null ==> PutBack(Abs(), l, n.id) == old(Abs()) && |Abs().ready[l]| < |old(Abs()).ready[l]|
    {
      hide Table.Valid, Spell, Mutexes;
      ghost var v := Now();
      n := table.Pop(l);
      ViewReady(c.levels, v, l, if n == null then [] else v.lists[l][1..]);
      if n != null {
        assert [n.id] + v.lists[l][1..] == v.lists[l];
        assert PutBack(Abs(), l, n.id).ready == old(Abs()).ready;
      } else {
        assert v.lists[l := []] == v.lists;
      }
    }

    // The search of get_next_thread_mlfq; the number of levels if nothing is ready.
    method FirstReady() returns (l: nat)
      requires Valid()
      ensures l <= c.levels && FirstLevel(Abs().ready) == if l < c.levels then Some(l) else None
    {
      hide Table.Valid, Spell, Mutexes;
      l := 0;
      while l < c.levels
        invariant l <= c.levels && forall k :: 0 <= k < l ==> Abs().ready[k] == []
      {
        var empty := table.IsEmpty(l);
        assert Abs().ready[l] == table.Lists()[l];
        if !empty {
          return;
        }
        l := l + 1;
      }
    }

    // The node of a ready thread becomes the running one.
    method Run(n: Node)
      requires Valid() && n in table.home && table.home[n] == -1 && node == null && n.id in threads
      modifies this`threads, this`node
      ensures Valid() && node == n
      ensures var s := old(Abs());
              Abs() == s.(running := Some(n.id), threads := s.threads[n.id := s.threads[n.id].(status := RUNNING)])
    {
      hide Table.Valid, Spell, Mutexes;
      node := n;
      threads := threads[n.id := threads[n.id].(status := RUNNING)];
    }

    // get_next_thread_mlfq and the rest of the dispatch.
    method DispatchNext()
      requires Valid() && node == null && Queued(Abs())
      modifies this`threads, this`node, table, table.queues, table.home.Keys
      ensures Valid() && SameObjects()
      ensures Abs() == Dispatch(old(Abs()))
    {
      hide Valid, Abs, FirstLevel, PutBack;
      ghost var s := Abs();
      Fields();
      var l := FirstReady();
      if l < c.levels {
        var n := TakeFirst(l);
        TakenBack(s, Abs(), l, n.id);
        Fields();
        Run(n);
      }
    }

    method MoveToFront(n: Node)
      requires Valid() && n in table.home && table.home[n] == -1 && n != node && n.id in threads
      modifies this`threads, table, table.queues, table.home.Keys
      ensures Valid() && SameObjects()
      ensures Abs() == Fronted(old(Abs()), n.id)
    {
      hide Table.Valid, Spell, Mutexes;
      ghost var v := Now();
      table.Push(0, n);
      ViewReady(c.levels, v, 0, v.lists[0] + [n.id]);
      threads := threads[n.id := threads[n.id].(priority := 0)];
    }

    // boost_priority: the lower queues are emptied one thread at a time.
    method BoostPriority()
      requires Valid() && Queued(Abs())
      modifies this`threads, table, table.queues, table.home.Keys
      ensures Valid() && SameObjects()
      ensures Abs() == Boost(old(Abs()))
    {
      hide Valid, Abs, Merging, Boost, PutBack;
      ghost var s := Abs();
      var i := 1;
      Fields();
      MergeStart(s);
      while i < c.levels
        invariant 1 <= i <= c.levels && Valid() && SameObjects()
        invariant Merging(s, Abs(), i)
      {
        var n := TakeFirst(i);
        while n != null
          invariant Valid() && SameObjects() && i < c.levels
          invariant n != null ==> n in table.home && table.home[n] == -1 && n != node
          invariant |Abs().ready| == c.levels && (n == null ==> Abs().ready[i] == [])
          invariant Merging(s, if n == null then Abs() else PutBack(Abs(), i, n.id), i)
          decreases if n == null then 0 else |Abs().ready[i]| + 1
        {
          MergeBack(s, Abs(), i, n.id);
          Fields();
          MoveToFront(n);
          n := TakeFirst(i);
        }
        MergeNext(s, Abs(), i);
        i := i + 1;
      }
      MergeDone(s, Abs());
    }

    method SetCycles(n: int)
      requires Valid()
      modifies this`cycles
      ensures Valid() && Abs() == old(Abs()).(cycles := n)
    {
      cycles := n;
    }

    method SetThreads(ts: map<int, Thread>)
      requires Valid()
      modifies this`threads
      ensures Valid() && threads == ts && Abs() == old(Abs()).(threads := ts)
    {
      threads := ts;
    }

    // The common end of sched_rr and sched_mlfq.
    method Sched()
      requires Valid() && node == null && Inv(c, Abs())
      modifies this, table, table.queues, table.home.Keys
      ensures Valid() && SameObjects()
      ensures Abs() == Reschedule(c, old(Abs()))
    {
      hide Valid, Abs, InvWith, Dispatch, Boost;
      Fields();
      CycleKeeps(c, Abs());
      InvQueued(c, Abs());
      InvQueued(c, Cycle(c, Abs()));
      if c.policy == Mlfq {
        if cycles + 1 >= c.boost {
          BoostPriority();
          SetCycles(0);
        } else {
          SetCycles(cycles + 1);
        }
      }
      DispatchNext();
    }

    // The running thread gives up the processor; its node is in hand.
    method AccountTime(elapsed: int) returns (n: Node)
      requires Valid() && node != null && node.id in threads
      modifies this`threads, this`node
      ensures Valid() && node == null && n == old(node) && n in table.home && table.home[n] == -1
      ensures Abs() == Leave(old(Abs()), elapsed) && threads.Keys == old(threads.Keys)
    {
      n := node;
      node := null;
      threads := threads[n.id := threads[n.id].(cpu := threads[n.id].cpu + elapsed)];
    }

    // The demotion in sched_mlfq. As written the test compares with the level beyond
    // the last one (see MayDemote).
    method DemoteThread(t: int)
      requires Valid() && t in threads
      modifies this`threads
      ensures Valid() && Abs() == Demote(c, old(Abs()), t) && threads.Keys == old(threads.Keys)
    {
      var th := threads[t];
      if c.policy == Mlfq && th.cpu >= c.slice * (th.priority + 1) && MayDemote(c, th.priority) {
        threads := threads[t := th.(cpu := 0, priority := th.priority + 1)];
      } else {
        assert threads == threads[t := th];
      }
    }

    // A node for a new thread, not yet queued.
    method NewThread(id: nat) returns (n: Node)
      requires Valid()
      modifies this`threads, table`home
      ensures Valid() && FreshObjects() && n.id == id && n in table.home && table.home[n] == -1 && n != node
      ensures threads == old(threads)[id := Thread(0, READY, None, None, 0)]
      ensures Abs() == old(Abs()).(threads := threads)
    {
      hide Table.Valid, Spell, Mutexes;
      threads := threads[id := Thread(0, READY, None, None, 0)];
      n := table.NewNode(id);
    }

    method SetCount(n: int)
      requires Valid()
      modifies this`count
      ensures Valid() && Abs() == old(Abs()).(count := n)
    {
      count := n;
    }

    method Create() returns (id: int)
      requires Valid() && Inv(c, Abs()) && Enabled(Abs(), Action.Create)
      modifies this, table, table.queues, table.home.Keys
      ensures Valid() && FreshObjects()
      ensures Abs() == Step(c, old(Abs()), Action.Create) && Inv(c, Abs())
      ensures id == old(count) && id in threads && id !in old(threads)
    {
      hide Valid, Abs, Placed, Queued, Settled, Sleepers, Append;
      Fields();
      StepKeeps(c, Abs(), Action.Create);
      id := count;
      SetCount(count + 1);
      var n := NewThread(id);
      Enqueue(n);
    }

    method Yield(elapsed: int)
      requires Valid() && Inv(c, Abs()) && Enabled(Abs(), Action.Yield(elapsed))
      modifies this, table, table.queues, table.home.Keys
      ensures Valid() && SameObjects()
      ensures Abs() == Step(c, old(Abs()), Action.Yield(elapsed)) && Inv(c, Abs())
    {
      hide Valid, Abs, InvWith, Reschedule, Demote, Append;
      Fields();
      StepKeeps(c, Abs(), Action.Yield(elapsed));
      HandedKeeps(c, Abs(), Action.Yield(elapsed));
      var n := AccountTime(elapsed);
      DemoteThread(n.id);
      Fields();
      if 0 <= threads[n.id].priority < c.levels {
        Enqueue(n);
      }
      Sched();
    }

    method Exit(elapsed: int)
      requires Valid() && Inv(c, Abs()) && Enabled(Abs(), Action.Exit(elapsed))
      modifies this, table, table.queues, table.home.Keys
      ensures Valid() && SameObjects()
      ensures Abs() == Step(c, old(Abs()), Action.Exit(elapsed)) && Inv(c, Abs())
      ensures Released(old(Abs()), Abs(), old(node).id)
    {
      hide Valid, Abs, InvWith, Reschedule, Wake, Leave, Released, ReleasesJoiner, PassesScheduler;
      Fields();
      ExitReleases(c, Abs(), elapsed);
      StepKeeps(c, Abs(), Action.Exit(elapsed));
      HandedKeeps(c, Abs(), Action.Exit(elapsed));
      LeaveWakeable(c, Abs(), elapsed);
      var joiner := threads[node.id].joiner;
      var n := AccountTime(elapsed);
      if joiner.Some? {
        WakeThread(joiner.value);
      }
      Fields();
      SetThreads(map x | x in threads && x != n.id :: threads[x]);
      Sched();
    }

    // The running thread goes to sleep.
    method Sleep(elapsed: int)
      requires Valid() && node != null && node.id in threads
      requires Inv(c, FallAsleep(Abs(), elapsed))
      modifies this, table, table.queues, table.home.Keys
      ensures Valid() && SameObjects()
      ensures Abs() == Reschedule(c, FallAsleep(old(Abs()), elapsed))
    {
      hide Valid, Abs, InvWith, Reschedule;
      Fields();
      ghost var s := Abs();
      var n := AccountTime(elapsed);
      Fields();
      SetThreads(threads[n.id := threads[n.id].(status := BLOCKED)]);
      PutToSleep(n);
      assert Abs() == FallAsleep(s, elapsed);
      Sched();
    }

    // enqueue on the waiting queue.
    method PutToSleep(n: Node)
      requires Valid() && n in table.home && table.home[n] == -1 && n != node
      modifies table, table.queues, table.home.Keys
      ensures Valid() && SameObjects()
      ensures Abs() == old(Abs()).(waiting := old(Abs()).waiting + [n.id])
    {
      hide Table.Valid, Spell, Mutexes;
      ghost var v := Now();
      table.Push(c.levels, n);
      ViewWaiting(c.levels, v, v.lists[c.levels] + [n.id]);
    }

    // The test of worker_join: is the target among the threads it looks at?
    method FindJoinable(target: int) returns (found: bool)
      requires Valid()
      ensures found == Joinable(c, Abs(), target) && (found ==> target in threads)
    {
      hide Table.Valid, Spell, Mutexes, Flat;
      found := FindReady(target);
      if !found && c.join == Intended {
        found := table.Has(c.levels, target);
      }
      found := found && target in threads;
    }

    method Join(target: int, elapsed: int)
      requires Valid() && Inv(c, Abs()) && Enabled(Abs(), Action.Join(target, elapsed))
      modifies this, table, table.queues, table.home.Keys
      ensures Valid() && SameObjects()
      ensures Abs() == Step(c, old(Abs()), Action.Join(target, elapsed)) && Inv(c, Abs())
      ensures Abs() == old(Abs()) || WaitsFor(old(Abs()), Abs(), old(node).id, target)
    {
      hide Valid, Abs, InvWith, Reschedule, FallAsleep, Joinable, WaitsFor, Sleeps, PassesScheduler;
      Fields();
      JoinSleepsOrReturns(c, Abs(), target, elapsed);
      ghost var a := Action.Join(target, elapsed);
      StepKeeps(c, Abs(), a);
      if Schedules(c, Abs(), a) {
        HandedKeeps(c, Abs(), a);
      }
      var found := FindJoinable(target);
      if found && !(threads[target].joiner.Some? && threads[target].joiner.value > 0) {
        SetThreads(threads[target := threads[target].(joiner := Some(node.id))]);
        Sleep(elapsed);
      }
    }

    method MutexInit(m: int)
      requires Valid() && Inv(c, Abs()) && Enabled(Abs(), Action.MutexInit(m))
      modifies this, table, table.queues, table.home.Keys
      ensures Valid() && FreshObjects()
      ensures Abs() == Step(c, old(Abs()), Action.MutexInit(m)) && Inv(c, Abs())
    {
      hide Table.Valid, Spell, Mutexes, InvWith;
      StepKeeps(c, Abs(), Action.MutexInit(m));
      ghost var v := Now();
      ViewLonger(c.levels, v);
      var cell := Cell(false, None, |table.queues|);
      table.NewQueue();
      ViewCell(c.levels, v.(lists := v.lists + [[]]), m, cell);
      cells := cells[m := cell];
    }

    // Mutex m changes hands.
    method SetCell(m: int, locked: bool, owner: Option<int>)
      requires Valid() && m in cells
      modifies this`cells
      ensures Valid() && cells == old(cells)[m := Cell(locked, owner, old(cells[m].slot))]
      ensures var s := old(Abs());
              Abs() == s.(mutexes := s.mutexes[m := s.mutexes[m].(locked := locked, owner := owner)])
    {
      hide Table.Valid, Spell, Mutexes;
      var cell := Cell(locked, owner, cells[m].slot);
      ViewCell(c.levels, Now(), m, cell);
      MutexAt(m);
      cells := cells[m := cell];
    }

    lemma MutexAt(m: int)
      requires Valid()
      ensures m in cells <==> m in Abs().mutexes
      ensures m in cells ==> c.levels < cells[m].slot < |table.queues| && Abs().mutexes[m] ==
                               Mutex(cells[m].locked, cells[m].owner, table.Lists()[cells[m].slot])
    {
    }

    // enqueue on the wait queue of m, with a node of its own.
    method EnqueueWaiter(m: int, t: nat)
      requires Valid() && m in cells
      modifies table, table.queues, table.home.Keys
      ensures Valid() && FreshObjects() && table.queues == old(table.queues)
      ensures var s := old(Abs());
              Abs() == s.(mutexes := s.mutexes[m := s.mutexes[m].(queue := s.mutexes[m].queue + [t])])
    {
      hide Table.Valid, Spell, Mutexes;
      MutexAt(m);
      ghost var v := Now();
      var n := table.NewNode(t);
      table.Push(cells[m].slot, n);
      ViewMutex(c.levels, v, m, v.lists[cells[m].slot] + [t]);
    }

    // One round of the loop of worker_mutex_lock. A thread that was put to sleep here
    // comes back and tries again.
    method Lock(m: int, elapsed: int) returns (acquired: bool)
      requires Valid() && Inv(c, Abs()) && Enabled(Abs(), Action.Lock(m, elapsed))
      modifies this, table, table.queues, table.home.Keys
      ensures Valid() && FreshObjects()
      ensures Abs() == Step(c, old(Abs()), Action.Lock(m, elapsed)) && Inv(c, Abs())
      ensures acquired <==> old(m in cells && (!cells[m].locked || cells[m].owner == Abs().running))
      ensures acquired ==> m in cells && cells[m].owner == Abs().running == old(Abs()).running
      ensures old(m in cells && !cells[m].locked) ==> Takes(old(Abs()), Abs(), m, old(node).id)
      ensures old(m in cells && cells[m].locked && cells[m].owner != Abs().running) ==>
                BlocksOn(old(Abs()), Abs(), m, old(node).id, elapsed)
    {
      hide Valid, Abs, InvWith, Reschedule, FallAsleep, Takes, BlocksOn;
      Fields();
      MutexAt(m);
      LockCases(c, Abs(), m, elapsed);
      ghost var a := Action.Lock(m, elapsed);
      StepKeeps(c, Abs(), a);
      if Schedules(c, Abs(), a) {
        HandedKeeps(c, Abs(), a);
      }
      acquired := false;
      if m in cells {
        var t := node.id;
        if cells[m].locked {
          if cells[m].owner == Some(t) {
            acquired := true;
          } else {
            EnqueueWaiter(m, t);
            SetThreads(threads[t := threads[t].(blockedFrom := Some(m))]);
            assert forall n :: n in table.home.Keys ==> n in old(table.home.Keys) || fresh(n);
            Sleep(elapsed);
          }
        } else {
          SetCell(m, true, Some(t));
          SetThreads(threads[t := threads[t].(blockedFrom := None)]);
          acquired := true;
          Fields();
        }
      }
    }

    // empty_queue on the wait queue of m.
    method EmptyWaiters(m: int)
      requires Valid() && m in cells
      modifies table, table.queues, table.home.Keys
      ensures Valid() && FreshObjects()
      ensures var s := old(Abs()); Abs() == s.(mutexes := s.mutexes[m := s.mutexes[m].(queue := [])])
    {
      hide Table.Valid, Spell, Mutexes;
      MutexAt(m);
      ghost var v := Now();
      table.Clear(cells[m].slot);
      ViewMutex(c.levels, v, m, []);
    }

    method Unlock(m: int) returns (ok: bool)
      requires Valid() && Inv(c, Abs()) && Enabled(Abs(), Action.Unlock(m))
      modifies this, table, table.queues, table.home.Keys
      ensures Valid() && FreshObjects()
      ensures Abs() == Step(c, old(Abs()), Action.Unlock(m)) && Inv(c, Abs())
      ensures ok <==> old(m in cells && cells[m].locked && cells[m].owner == Abs().running)
    {
      hide Valid, Abs, InvWith, WakeAll;
      Fields();
      MutexAt(m);
      StepKeeps(c, Abs(), Action.Unlock(m));
      ok := m in cells && cells[m].locked && cells[m].owner == Some(node.id);
      if ok {
        ghost var s := Abs();
        InvWakeable(c, s);
        SetCell(m, false, None);
        var slot := cells[m].slot;
        MutexAt(m);
        WakeAllMutexes(Abs(), s.mutexes[m].queue);
        WakeAllAnyMutexes(Abs(), s.mutexes[m].queue, s.mutexes[m := Mutex(false, None, [])]);
        UnblockThreads(slot);
        EmptyWaiters(m);
      }
    }
  }

  // ---------- the loops of boost_priority ----------

  // Some threads of the levels up to i have moved to the front, the others are left.
  ghost predicate Merging(s: State, now: State, i: int) {
    && 0 < i <= |s.ready| == |now.ready|
    && now == s.(ready := now.ready, threads := now.threads)
    && now.ready[0] + Flat(now.ready[i..]) == Flat(s.ready)
    && (forall l :: 0 < l < i ==> now.ready[l] == [])
    && now.threads.Keys == s.threads.Keys
    && (forall l, t :: i <= l < |now.ready| && t in now.ready[l] ==> t in s.threads)
    && forall t :: t in s.threads ==>
         now.threads[t] == if t in now.ready[0] then s.threads[t].(priority := 0) else s.threads[t]
  }

  lemma MergeStep(s: State, now: State, i: int)
    requires Merging(s, now, i) && i < |now.ready| && now.ready[i] != []
    ensures now.ready[i][0] in now.threads
    ensures var t := now.ready[i][0];
            Merging(s, now.(ready := now.ready[i := now.ready[i][1..]][0 := now.ready[0] + [t]],
                            threads := now.threads[t := now.threads[t].(priority := 0)]), i)
  {
    var t := now.ready[i][0];
    assert t in now.ready[i];
    var r := now.ready[i := now.ready[i][1..]][0 := now.ready[0] + [t]];
    assert now.ready[i..] == [now.ready[i]] + now.ready[i + 1..];
    assert r[i..] == [now.ready[i][1..]] + now.ready[i + 1..];
    assert now.ready[i] == [t] + now.ready[i][1..];
    assert r[0] + Flat(r[i..]) == now.ready[0] + Flat(now.ready[i..]);
  }

  // The thread in hand is counted where it came from.
  function PutBack(s: State, l: int, t: int): State
    requires 0 <= l < |s.ready|
  {
    s.(ready := s.ready[l := [t] + s.ready[l]])
  }

  function Fronted(s: State, t: int): State
    requires |s.ready| > 0 && t in s.threads
  {
    s.(ready := s.ready[0 := s.ready[0] + [t]], threads := s.threads[t := s.threads[t].(priority := 0)])
  }

  lemma TakenBack(s: State, now: State, l: int, t: int)
    requires 0 <= l < |now.ready| && PutBack(now, l, t) == s
    ensures |now.ready| == |s.ready| && s.ready[l] != [] && s.ready[l][0] == t
    ensures now == s.(ready := s.ready[l := s.ready[l][1..]])
    ensures Queued(s) ==> t in s.threads
  {
    assert s.ready[l][1..] == now.ready[l];
    assert s.ready[l := s.ready[l][1..]] == now.ready;
    assert t in s.ready[l];
  }

  lemma MergeBack(s: State, now: State, i: int, t: int)
    requires 0 < i < |now.ready| && Merging(s, PutBack(now, i, t), i)
    ensures t in now.threads && Merging(s, Fronted(now, t), i)
  {
    var back := PutBack(now, i, t);
    assert back.ready[i][1..] == now.ready[i];
    assert back.ready[i := back.ready[i][1..]] == now.ready;
    MergeStep(s, back, i);
  }

  lemma MergeStart(s: State)
    requires |s.ready| > 0 && Queued(s)
    ensures Merging(s, s, 1)
  {
  }

  lemma MergeNext(s: State, now: State, i: int)
    requires Merging(s, now, i) && i < |now.ready| && now.ready[i] == []
    ensures Merging(s, now, i + 1)
  {
    assert now.ready[i..] == [now.ready[i]] + now.ready[i + 1..];
  }

  lemma MergeDone(s: State, now: State)
    requires Merging(s, now, |s.ready|)
    ensures now == Boost(s)
  {
    assert now.ready[|s.ready|..] == [];
    assert now.ready[0] == Flat(s.ready);
    assert now.ready == Boost(s).ready;
    forall t | t in s.threads ensures now.threads[t] == Boost(s).threads[t] {
    }
    assert now.threads.Keys == Boost(s).threads.Keys;
    assert now.threads == Boost(s).threads;
  }
}
