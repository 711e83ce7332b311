/** What every scheduler step keeps: the thread partition and the mutex discipline. */
module SchedulerProofs {
  import opened Options
  import opened Queues
  import opened SchedulerModel

  function One(o: Option<int>): multiset<int> {
    match o case Some(t) => multiset{t} case None => multiset{}
  }

  ghost predicate Shape(c: Config, s: State) {
    && c.levels >= 1 && |s.ready| == c.levels
    && 0 <= s.count && 0 <= s.cycles && (s.cycles < c.boost || s.cycles == 0)
    && forall t :: t in s.threads ==> 0 <= t < s.count && 0 <= s.threads[t].priority < c.levels
  }

  // Every live thread is in exactly one place: running, one ready queue, the waiting
  // queue, or in the hands of the scheduler (hand, only between two steps).
  ghost predicate Placed(s: State, hand: Option<int>) {
    multiset(Flat(s.ready)) + multiset(s.waiting) + One(s.running) + One(hand) == multiset(s.threads.Keys)
  }

  ghost predicate Queued(s: State) {
    forall l, t :: 0 <= l < |s.ready| && t in s.ready[l] ==>
      t in s.threads && s.threads[t].status == READY && s.threads[t].priority == l
  }

  ghost predicate Settled(s: State) {
    && (forall t :: t in s.waiting ==> t in s.threads && s.threads[t].status == BLOCKED)
    && (s.running.Some? ==> s.running.value in s.threads && s.threads[s.running.value].status == RUNNING)
  }

  predicate Distinct(q: seq<int>) {
    forall i, j :: 0 <= i < j < |q| ==> q[i] != q[j]
  }

  // What each thread still has to acquire, and who waits for it to exit.
  function Blocks(threads: map<int, Thread>): map<int, Option<int>> {
    map t | t in threads :: threads[t].blockedFrom
  }

  function Joiners(threads: map<int, Thread>): map<int, Option<int>> {
    map t | t in threads :: threads[t].joiner
  }

  // An unlocked mutex has nobody waiting; no thread waits twice.
  ghost predicate Locks(mutexes: map<int, Mutex>) {
    forall m :: m in mutexes ==>
      && (mutexes[m].locked <==> mutexes[m].owner.Some?)
      && (!mutexes[m].locked ==> mutexes[m].queue == [])
      && Distinct(mutexes[m].queue)
  }

  // The waiters of a mutex are exactly the sleeping threads that still have to
  // acquire it.
  ghost predicate Waiters(mutexes: map<int, Mutex>, waiting: seq<int>, blocks: map<int, Option<int>>) {
    && (forall m, t :: m in mutexes && t in mutexes[m].queue ==> t in waiting && t in blocks && blocks[t] == Some(m))
    && (forall t :: t in waiting && t in blocks && blocks[t].Some? ==>
          blocks[t].value in mutexes && t in mutexes[blocks[t].value].queue)
  }

  // A registered joiner sleeps for that reason alone, and waits for one thread only.
  ghost predicate Joins(joiners: map<int, Option<int>>, waiting: seq<int>, blocks: map<int, Option<int>>) {
    && (forall x :: x in joiners && joiners[x].Some? ==>
          joiners[x].value in waiting && joiners[x].value in blocks && blocks[joiners[x].value] == None)
    && (forall x, y ::
          (x in joiners && y in joiners && joiners[x].Some? && joiners[x] == joiners[y]) ==> x == y)
  }

  ghost predicate Sleepers(s: State) {
    && Locks(s.mutexes)
    && Waiters(s.mutexes, s.waiting, Blocks(s.threads))
    && Joins(Joiners(s.threads), s.waiting, Blocks(s.threads))
  }

  ghost predicate Body(c: Config, s: State, hand: Option<int>) {
    Shape(c, s) && Placed(s, hand) && Queued(s) && Settled(s)
  }

  ghost predicate InvWith(c: Config, s: State, hand: Option<int>) {
    Body(c, s, hand) && Sleepers(s) && (hand.Some? ==> hand.value in s.threads)
  }

  ghost predicate Inv(c: Config, s: State) {
    InvWith(c, s, None)
  }

  lemma InvQueued(c: Config, s: State)
    requires Inv(c, s)
    ensures Queued(s)
  {
  }

  // ---------- flattened queues ----------

  lemma {:induction false} FlatAppend(q: seq<seq<int>>, l: nat, t: int)
    requires l < |q|
    ensures multiset(Flat(q[l := q[l] + [t]])) == multiset(Flat(q)) + multiset{t}
  {
    var q' := q[l := q[l] + [t]];
    if l == 0 {
      assert q'[1..] == q[1..];
    } else {
      assert q'[1..] == q[1..][l - 1 := q[l] + [t]];
      FlatAppend(q[1..], l - 1, t);
    }
  }

  lemma {:induction false} FlatPop(q: seq<seq<int>>, l: nat)
    requires l < |q| && q[l] != []
    ensures multiset(Flat(q)) == multiset{q[l][0]} + multiset(Flat(q[l := q[l][1..]]))
  {
    var q' := q[l := q[l][1..]];
    if l == 0 {
      assert q'[1..] == q[1..];
      assert q[0] == [q[0][0]] + q[0][1..];
    } else {
      assert q'[1..] == q[1..][l - 1 := q[l][1..]];
      FlatPop(q[1..], l - 1);
    }
  }

  lemma {:induction false} FlatMember(q: seq<seq<int>>, t: int)
    ensures t in Flat(q) <==> exists l :: 0 <= l < |q| && t in q[l]
  {
    if q == [] {
    } else {
      FlatMember(q[1..], t);
      if l :| 0 <= l < |q| && t in q[l] {
        if l > 0 { assert q[1..][l - 1] == q[l]; }
      }
      if t in Flat(q[1..]) {
        var l :| 0 <= l < |q[1..]| && t in q[1..][l];
        assert q[l + 1] == q[1..][l];
      }
    }
  }

  lemma {:induction false} FlatEmpty(q: seq<seq<int>>)
    requires forall l :: 0 <= l < |q| ==> q[l] == []
    ensures Flat(q) == []
  {
    if q == [] {
    } else {
      FlatEmpty(q[1..]);
    }
  }

  // Where a thread is, it is once, and it is nowhere else.
  lemma PlacedOnce(s: State, hand: Option<int>, t: int)
    requires Placed(s, hand)
    ensures t in s.threads <==> t in Flat(s.ready) || t in s.waiting || s.running == Some(t) || hand == Some(t)
    ensures t in Flat(s.ready) ==> t !in s.waiting && s.running != Some(t) && hand != Some(t)
    ensures t in s.waiting ==> s.running != Some(t) && hand != Some(t) && multiset(s.waiting)[t] == 1
    ensures s.running == Some(t) ==> hand != Some(t)
  {
    var all := multiset(s.threads.Keys);
    assert all[t] == multiset(Flat(s.ready))[t] + multiset(s.waiting)[t] + One(s.running)[t] + One(hand)[t];
    assert all[t] <= 1;
  }

  // ---------- frames ----------

  // Nobody starts or stops to sleep, to wait for a mutex or for a thread.
  ghost predicate SameSleepers(s: State, s': State) {
    && s'.mutexes == s.mutexes && s'.waiting == s.waiting && s'.threads.Keys == s.threads.Keys
    && forall t :: t in s.threads ==>
         s'.threads[t].blockedFrom == s.threads[t].blockedFrom && s'.threads[t].joiner == s.threads[t].joiner
  }

  lemma SleepersKeep(s: State, s': State)
    requires Sleepers(s) && SameSleepers(s, s')
    ensures Sleepers(s')
  {
    SameProjections(s.threads, s'.threads);
    hide Locks, Waiters, Joins, Blocks, Joiners;
  }

  lemma SameProjections(a: map<int, Thread>, b: map<int, Thread>)
    requires a.Keys == b.Keys
    requires forall t :: t in a ==> a[t].blockedFrom == b[t].blockedFrom && a[t].joiner == b[t].joiner
    ensures Blocks(a) == Blocks(b) && Joiners(a) == Joiners(b)
  {
    assert forall t :: t in a <==> t in b;
    assert Blocks(a).Keys == a.Keys && Joiners(a).Keys == a.Keys;
    assert Blocks(b).Keys == b.Keys && Joiners(b).Keys == b.Keys;
    forall t | t in a ensures Blocks(a)[t] == Blocks(b)[t] && Joiners(a)[t] == Joiners(b)[t] {
      assert a[t].blockedFrom == b[t].blockedFrom;
    }
  }

  // One sleeper less.
  lemma SleeperLeaves(s: State, s': State, t: int)
    requires Sleepers(s) && s' == s.(waiting := s'.waiting)
    requires forall x :: x in s'.waiting <==> (x in s.waiting && x != t)
    requires forall m :: m in s.mutexes ==> t !in s.mutexes[m].queue
    requires forall x :: x in s.threads ==> s.threads[x].joiner != Some(t)
    ensures Sleepers(s')
  {
    assert forall x :: x in Joiners(s.threads) ==> Joiners(s.threads)[x] != Some(t);
    hide Blocks, Locks, Joiners;
    WaitersLeave(s.mutexes, s.waiting, s'.waiting, Blocks(s.threads), t);
    JoinsLeave(Joiners(s.threads), s.waiting, s'.waiting, Blocks(s.threads), t);
    hide Waiters, Joins;
  }

  lemma WaitersLeave(mutexes: map<int, Mutex>, w: seq<int>, w': seq<int>, blocks: map<int, Option<int>>, t: int)
    requires Waiters(mutexes, w, blocks)
    requires forall x :: x in w' <==> (x in w && x != t)
    requires forall m :: m in mutexes ==> t !in mutexes[m].queue
    ensures Waiters(mutexes, w', blocks)
  {
  }

  lemma JoinsLeave(joiners: map<int, Option<int>>, w: seq<int>, w': seq<int>, blocks: map<int, Option<int>>, t: int)
    requires Joins(joiners, w, blocks)
    requires forall x :: x in w' <==> (x in w && x != t)
    requires forall x :: x in joiners ==> joiners[x] != Some(t)
    ensures Joins(joiners, w', blocks)
  {
    forall x | x in joiners && joiners[x].Some? ensures joiners[x].value in w' {
      var j := joiners[x].value;
      assert j in w && j != t;
    }
  }

  // ---------- the small moves ----------

  lemma QueuedAppend(c: Config, s: State, t: int)
    requires Shape(c, s) && Queued(s) && t in s.threads && t !in Flat(s.ready)
    ensures Queued(Append(s, t))
  {
    FlatMember(s.ready, t);
    hide Flat;
  }

  lemma PlacedAppend(s: State, hand: Option<int>, t: int)
    requires t in s.threads && 0 <= s.threads[t].priority < |s.ready|
    requires multiset(Flat(s.ready)) + multiset(s.waiting) + One(s.running) + One(hand) + multiset{t} == multiset(s.threads.Keys)
    ensures Placed(Append(s, t), hand)
  {
    var flat := multiset(Flat(s.ready));
    FlatAppend(s.ready, s.threads[t].priority, t);
    assert Append(s, t).threads.Keys == s.threads.Keys;
    assert multiset(Flat(Append(s, t).ready)) == flat + multiset{t};
    hide Flat, Append;
    Shuffle(flat, multiset(s.waiting), One(s.running), One(hand), multiset{t});
  }

  lemma Shuffle(a: multiset<int>, b: multiset<int>, c: multiset<int>, d: multiset<int>, e: multiset<int>)
    ensures a + b + c + d + e == (a + e) + b + c + d == a + (b + e) + c + d
  {
  }

  lemma PlacedWake(s: State, hand: Option<int>, t: int)
    requires Placed(s, hand) && t in s.waiting && t in s.threads && 0 <= s.threads[t].priority < |s.ready|
    ensures Placed(Append(s.(waiting := Without(s.waiting, t)), t), hand)
  {
    hide Flat, Append, Without;
    var s1 := s.(waiting := Without(s.waiting, t));
    var rest := multiset(s1.waiting);
    assert multiset(s.waiting) == rest + multiset{t};
    Shuffle(multiset(Flat(s.ready)), rest, One(s.running), One(hand), multiset{t});
    PlacedAppend(s1, hand, t);
  }

  lemma ShapeAppend(c: Config, s: State, t: int)
    requires Shape(c, s) && t in s.threads
    ensures Shape(c, Append(s, t))
  {
  }

  lemma SettledAppend(c: Config, s: State, t: int)
    requires Settled(s) && t in s.threads && t !in s.waiting && s.running != Some(t) &&
      0 <= s.threads[t].priority < |s.ready|
    ensures Settled(Append(s, t))
  {
  }

  lemma SleepersAppend(s: State, t: int)
    requires Sleepers(s) && t in s.threads && 0 <= s.threads[t].priority < |s.ready|
    ensures Sleepers(Append(s, t))
  {
    hide Sleepers;
    SleepersKeep(s, Append(s, t));
  }

  // Making the thread in hand ready.
  lemma AppendKeeps(c: Config, s: State, t: int)
    requires InvWith(c, s, Some(t))
    ensures InvWith(c, Append(s, t), None)
  {
    PlacedOnce(s, Some(t), t);
    var s' := Append(s, t);
    PlacedAppend(s, None, t);
    hide Flat, Placed;
    QueuedAppend(c, s, t);
    hide Queued;
    SettledAppend(c, s, t);
    SleepersAppend(s, t);
    ShapeAppend(c, s, t);
    hide Settled, Sleepers, Shape;
  }

  lemma WakeApart(c: Config, s: State, hand: Option<int>, t: int)
    requires Body(c, s, hand) && t in s.waiting
    ensures multiset(s.waiting)[t] == 1 && s.running != Some(t) && t !in Flat(s.ready)
    ensures Wake(s, t) == Append(s.(waiting := Without(s.waiting, t)), t)
    ensures Placed(Wake(s, t), hand)
  {
    PlacedOnce(s, hand, t);
    PlacedWake(s, hand, t);
  }

  lemma WakeQueued(c: Config, s: State, t: int)
    requires Shape(c, s) && Queued(s) && t in s.waiting && t in s.threads && t !in Flat(s.ready)
    ensures Queued(Wake(s, t)) && Shape(c, Wake(s, t))
  {
    var s1 := s.(waiting := Without(s.waiting, t));
    QueuedAppend(c, s1, t);
    ShapeAppend(c, s1, t);
    hide Queued;
  }

  lemma WakeSettled(c: Config, s: State, t: int)
    requires Shape(c, s) && Settled(s) && t in s.waiting && multiset(s.waiting)[t] == 1 && s.running != Some(t)
    ensures Settled(Wake(s, t))
  {
    hide Without;
    WithoutKeeps(s.waiting, t);
    SettledAppend(c, s.(waiting := Without(s.waiting, t)), t);
  }

  lemma WakeSleepers(c: Config, s: State, t: int)
    requires Shape(c, s) && Sleepers(s) && t in s.waiting && multiset(s.waiting)[t] == 1
    requires forall m :: m in s.mutexes ==> t !in s.mutexes[m].queue
    requires forall x :: x in s.threads ==> s.threads[x].joiner != Some(t)
    ensures Sleepers(Wake(s, t))
  {
    hide Without, Sleepers;
    var s1 := s.(waiting := Without(s.waiting, t));
    WithoutKeeps(s.waiting, t);
    SleeperLeaves(s, s1, t);
    if t in s.threads {
      SleepersAppend(s1, t);
    }
  }

  // Taking a thread off the waiting queue that no mutex queue holds and no thread
  // has as its joiner.
  lemma WakeKeeps(c: Config, s: State, hand: Option<int>, t: int)
    requires InvWith(c, s, hand) && t in s.waiting
    requires forall m :: m in s.mutexes ==> t !in s.mutexes[m].queue
    requires forall x :: x in s.threads ==> s.threads[x].joiner != Some(t)
    ensures InvWith(c, Wake(s, t), hand)
  {
    WakeBody(c, s, hand, t);
    assert multiset(s.waiting)[t] == 1 by { WakeApart(c, s, hand, t); }
    hide Placed, Queued, Settled, Sleepers, Without;
    WakeSleepers(c, s, t);
    hide Wake, Body;
    WakeKeys(s, t);
  }

  lemma WakeBody(c: Config, s: State, hand: Option<int>, t: int)
    requires Body(c, s, hand) && t in s.waiting
    ensures Body(c, Wake(s, t), hand)
  {
    assert t in s.threads;
    hide Shape, Placed, Queued, Settled, Flat, Without;
    WakeApart(c, s, hand, t);
    WakeQueued(c, s, t);
    WakeSettled(c, s, t);
    hide Wake;
  }

  lemma WakeKeys(s: State, t: int)
    ensures Wake(s, t).threads.Keys == s.threads.Keys
  {
  }

  lemma WithoutKeeps(q: seq<int>, t: int)
    requires multiset(q)[t] <= 1
    ensures t !in Without(q, t)
    ensures forall x :: x != t ==> (x in Without(q, t) <==> x in q)
  {
    var r := Without(q, t);
    assert forall x :: x in r <==> x in multiset(r);
    assert forall x :: x in q <==> x in multiset(q);
  }

  lemma LeaveKeeps(c: Config, s: State, elapsed: int)
    requires Inv(c, s) && s.running.Some?
    ensures InvWith(c, Leave(s, elapsed), s.running)
  {
    var s' := Leave(s, elapsed);
    assert s'.threads.Keys == s.threads.Keys;
    hide Sleepers;
    SleepersKeep(s, s');
    assert Placed(s', s.running);
    hide Flat, Placed;
    PlacedOnceRunning(c, s);
  }

  lemma PlacedOnceRunning(c: Config, s: State)
    requires Inv(c, s) && s.running.Some?
    ensures s.running.value !in s.waiting
    ensures forall l :: 0 <= l < |s.ready| ==> s.running.value !in s.ready[l]
  {
    PlacedOnce(s, None, s.running.value);
    FlatMember(s.ready, s.running.value);
  }

  lemma DemoteKeeps(c: Config, s: State, t: int)
    requires InvWith(c, s, Some(t))
    ensures InvWith(c, Demote(c, s, t), Some(t))
    ensures c.demotion == Written ==> Demote(c, s, t) == s
  {
    var s' := Demote(c, s, t);
    assert s'.threads.Keys == s.threads.Keys;
    PlacedOnce(s, Some(t), t);
    FlatMember(s.ready, t);
    hide Sleepers;
    SleepersKeep(s, s');
    assert Placed(s', Some(t));
    hide Flat, Placed;
    if c.demotion == Written {
      assert s'.threads == s.threads;
    }
  }

  lemma BoostKeeps(c: Config, s: State)
    requires Inv(c, s) && s.running == None
    ensures Inv(c, Boost(s))
    ensures Boost(s).ready[0] == Flat(s.ready)
    ensures forall l :: 0 < l < |s.ready| ==> Boost(s).ready[l] == []
  {
    hide Sleepers, Flat, Placed, Queued, Settled;
    BoostFlat(c, s);
    BoostPlaced(c, s);
    BoostQueued(s);
    BoostSettled(s);
    SleepersKeep(s, Boost(s));
  }

  lemma BoostFlat(c: Config, s: State)
    requires |s.ready| > 0
    ensures Flat(Boost(s).ready) == Flat(s.ready)
  {
    var ready := Boost(s).ready;
    FlatEmpty(ready[1..]);
    assert Flat(ready) == ready[0] + Flat(ready[1..]);
  }

  lemma BoostPlaced(c: Config, s: State)
    requires |s.ready| > 0 && Placed(s, None)
    ensures Placed(Boost(s), None)
  {
    BoostFlat(c, s);
    assert Boost(s).threads.Keys == s.threads.Keys;
    hide Flat;
  }

  lemma BoostQueued(s: State)
    requires Queued(s)
    ensures Queued(Boost(s))
  {
    forall t | t in Flat(s.ready) ensures t in s.threads && s.threads[t].status == READY {
      FlatMember(s.ready, t);
    }
    hide Flat;
  }

  lemma BoostSettled(s: State)
    requires Settled(s) && Placed(s, None)
    ensures Settled(Boost(s))
  {
    forall t | t in s.waiting ensures t !in Flat(s.ready) {
      PlacedOnce(s, None, t);
    }
    hide Flat, Placed;
  }

  lemma CycleKeeps(c: Config, s: State)
    requires Inv(c, s) && s.running == None
    ensures Inv(c, Cycle(c, s)) && Cycle(c, s).running == None
  {
    hide Placed, Queued, Settled, Sleepers;
    BoostKeeps(c, s);
    FrameCycles(s, s.cycles + 1);
    FrameCycles(Boost(s), 0);
  }

  // No part of the invariant but the shape looks at the cycle counter.
  lemma FrameCycles(s: State, n: int)
    ensures Placed(s, None) == Placed(s.(cycles := n), None)
    ensures Queued(s) == Queued(s.(cycles := n))
    ensures Settled(s) == Settled(s.(cycles := n))
    ensures Sleepers(s) == Sleepers(s.(cycles := n))
  {
  }

  // Taking the front thread of level l.
  function Take(s: State, l: int): State
    requires 0 <= l < |s.ready| && s.ready[l] != [] && s.ready[l][0] in s.threads
  {
    var t := s.ready[l][0];
    s.(ready := s.ready[l := s.ready[l][1..]],
       running := Some(t),
       threads := s.threads[t := s.threads[t].(status := RUNNING)])
  }

  lemma PlacedTake(s: State, l: int)
    requires 0 <= l < |s.ready| && s.ready[l] != [] && Placed(s, None) && s.running == None
    ensures s.ready[l][0] in s.threads && s.ready[l][0] !in s.waiting
    ensures Placed(Take(s, l), None)
    ensures forall k :: 0 <= k < |s.ready| ==> s.ready[l][0] !in Take(s, l).ready[k]
  {
    var t := s.ready[l][0];
    FlatPop(s.ready, l);
    FlatMember(s.ready, t);
    PlacedOnce(s, None, t);
    var s' := Take(s, l);
    assert s'.threads.Keys == s.threads.Keys;
    PlacedOnce(s', None, t);
    FlatMember(s'.ready, t);
  }

  lemma QueuedTake(s: State, l: int)
    requires 0 <= l < |s.ready| && s.ready[l] != [] && Queued(s) && s.ready[l][0] in s.threads
    requires forall k :: 0 <= k < |s.ready| ==> s.ready[l][0] !in Take(s, l).ready[k]
    ensures Queued(Take(s, l))
  {
    assert forall x :: x in s.ready[l][1..] ==> x in s.ready[l];
  }

  lemma DispatchKeeps(c: Config, s: State)
    requires Inv(c, s) && s.running == None
    ensures Inv(c, Dispatch(s))
    ensures s.ready[0] != [] ==>
              Dispatch(s).running == Some(s.ready[0][0]) && Dispatch(s).ready[0] == s.ready[0][1..]
  {
    match FirstLevel(s.ready)
    case None =>
    case Some(l) =>
      PlacedTake(s, l);
      QueuedTake(s, l);
      hide Placed, Queued, Sleepers;
      assert Dispatch(s) == Take(s, l);
      SleepersKeep(s, Take(s, l));
  }

  lemma RescheduleKeeps(c: Config, s: State)
    requires Inv(c, s) && s.running == None
    ensures Inv(c, Reschedule(c, s))
  {
    CycleKeeps(c, s);
    hide InvWith;
    DispatchKeeps(c, Cycle(c, s));
  }

  // ---------- going to sleep ----------

  // Neither the places nor the states and priorities change.
  ghost predicate SameBody(s: State, s': State) {
    && s'.ready == s.ready && s'.waiting == s.waiting && s'.running == s.running
    && s'.cycles == s.cycles && s'.count == s.count && s'.threads.Keys == s.threads.Keys
    && forall t :: t in s.threads ==>
         s'.threads[t].status == s.threads[t].status && s'.threads[t].priority == s.threads[t].priority
  }

  lemma BodyKeeps(c: Config, s: State, s': State, hand: Option<int>)
    requires Body(c, s, hand) && SameBody(s, s')
    ensures Body(c, s', hand)
  {
    assert Placed(s', hand);
    hide Placed, Flat;
    assert Queued(s');
    hide Queued;
  }

  lemma FallAsleepBody(c: Config, s: State, elapsed: int)
    requires Body(c, s, None) && s.running.Some?
    ensures Body(c, FallAsleep(s, elapsed), None)
  {
    var t := s.running.value;
    var s' := FallAsleep(s, elapsed);
    assert s'.threads.Keys == s.threads.Keys;
    PlacedOnce(s, None, t);
    FlatMember(s.ready, t);
    assert Placed(s', None);
    hide Placed, Flat;
    assert Queued(s');
    hide Queued;
  }

  // How falling asleep looks to the other sleepers.
  lemma FallAsleepView(s: State, elapsed: int)
    requires s.running.Some? && s.running.value in s.threads
    ensures var s' := FallAsleep(s, elapsed);
            && s'.mutexes == s.mutexes && s'.waiting == s.waiting + [s.running.value]
            && Blocks(s'.threads) == Blocks(s.threads) && Joiners(s'.threads) == Joiners(s.threads)
  {
    var t := s.running.value;
    var s1 := Leave(s, elapsed);
    ProjectUpdate(s.threads, t, s1.threads[t]);
    ProjectUpdate(s1.threads, t, s1.threads[t].(status := BLOCKED));
    hide Blocks, Joiners;
  }

  lemma JoinSleeps(c: Config, s: State, target: int, elapsed: int)
    requires Inv(c, s) && s.running.Some? && target in s.threads && target != s.running.value
    requires s.threads[s.running.value].blockedFrom == None
    ensures InvWith(c, FallAsleep(Register(s, target), elapsed), None)
  {
    var t := s.running.value;
    var s1 := Register(s, target);
    assert SameBody(s, s1);
    assert t !in s.waiting by { PlacedOnce(s, None, t); }
    hide Shape, Placed, Queued, Settled;
    BodyKeeps(c, s, s1, None);
    FallAsleepBody(c, s1, elapsed);
    hide Body, SameBody;
    ProjectUpdate(s.threads, target, s1.threads[target]);
    ProjectUpdate(s.threads, t, s.threads[t]);
    FallAsleepView(s1, elapsed);
    hide Blocks, Joiners, Locks, Waiters, Joins, FallAsleep;
    JoinsRegister(Joiners(s.threads), s.waiting, Blocks(s.threads), target, t);
    WaitersRegister(s.mutexes, s.waiting, Blocks(s.threads), t);
  }

  lemma ProjectUpdate(threads: map<int, Thread>, t: int, th: Thread)
    requires t in threads
    ensures Blocks(threads[t := th]) == Blocks(threads)[t := th.blockedFrom]
    ensures Joiners(threads[t := th]) == Joiners(threads)[t := th.joiner]
    ensures th.blockedFrom == threads[t].blockedFrom ==> Blocks(threads[t := th]) == Blocks(threads)
    ensures th.joiner == threads[t].joiner ==> Joiners(threads[t := th]) == Joiners(threads)
    ensures t in Blocks(threads) && Blocks(threads)[t] == threads[t].blockedFrom
  {
  }

  lemma JoinsRegister(joiners: map<int, Option<int>>, waiting: seq<int>, blocks: map<int, Option<int>>, target: int,
          t: int)
    requires Joins(joiners, waiting, blocks) && t !in waiting && t in blocks && blocks[t] == None
    ensures Joins(joiners[target := Some(t)], waiting + [t], blocks)
  {
  }

  lemma WaitersRegister(mutexes: map<int, Mutex>, waiting: seq<int>, blocks: map<int, Option<int>>, t: int)
    requires Waiters(mutexes, waiting, blocks) && t in blocks && blocks[t] == None
    ensures Waiters(mutexes, waiting + [t], blocks)
  {
  }

  lemma LockSleeps(c: Config, s: State, m: int, elapsed: int)
    requires Inv(c, s) && s.running.Some? && m in s.mutexes && s.mutexes[m].locked
    ensures InvWith(c, FallAsleep(Enlist(s, m), elapsed), None)
  {
    var t := s.running.value;
    var s1 := Enlist(s, m);
    assert SameBody(s, s1);
    assert t !in s.waiting by { PlacedOnce(s, None, t); }
    hide Shape, Placed, Queued, Settled;
    BodyKeeps(c, s, s1, None);
    FallAsleepBody(c, s1, elapsed);
    hide Body, SameBody;
    ProjectUpdate(s.threads, t, s1.threads[t]);
    FallAsleepView(s1, elapsed);
    hide Blocks, Joiners, Locks, Waiters, Joins, FallAsleep;
    JoinsEnlist(Joiners(s.threads), s.waiting, Blocks(s.threads), m, t);
    WaitersEnlist(s.mutexes, s.waiting, Blocks(s.threads), m, t);
    LocksEnlist(s.mutexes, s.waiting, Blocks(s.threads), m, t);
  }

  lemma JoinsEnlist(joiners: map<int, Option<int>>, waiting: seq<int>, blocks: map<int, Option<int>>, m: int, t: int)
    requires Joins(joiners, waiting, blocks) && t !in waiting
    ensures Joins(joiners, waiting + [t], blocks[t := Some(m)])
  {
  }

  lemma WaitersEnlist(mutexes: map<int, Mutex>, waiting: seq<int>, blocks: map<int, Option<int>>, m: int, t: int)
    requires Waiters(mutexes, waiting, blocks) && t !in waiting && m in mutexes
    ensures Waiters(mutexes[m := mutexes[m].(queue := mutexes[m].queue + [t])], waiting + [t], blocks[t := Some(m)])
  {
  }

  lemma LocksEnlist(mutexes: map<int, Mutex>, waiting: seq<int>, blocks: map<int, Option<int>>, m: int, t: int)
    requires Locks(mutexes) && Waiters(mutexes, waiting, blocks) && t !in waiting && m in mutexes && mutexes[m].locked
    ensures Locks(mutexes[m := mutexes[m].(queue := mutexes[m].queue + [t])])
  {
    assert t !in mutexes[m].queue;
  }

  // ---------- creating and freeing threads ----------

  // The table entry of a new thread, before it is queued.
  function Enter(s: State): State {
    s.(threads := s.threads[s.count := Thread(0, READY, None, None, 0)], count := s.count + 1)
  }

  lemma EnterBody(c: Config, s: State)
    requires Body(c, s, None)
    ensures Body(c, Enter(s), Some(s.count))
  {
    var s1 := Enter(s);
    assert s1.threads.Keys == s.threads.Keys + {s.count};
    assert s.count !in s.threads;
    OneMore(s.threads.Keys, s.count);
    OneHand(multiset(Flat(s.ready)), multiset(s.waiting), One(s.running), multiset(s.threads.Keys), s.count);
    assert Placed(s1, Some(s.count));
    hide Placed, Flat;
    assert Queued(s1);
    hide Queued;
  }

  lemma EnterSleepers(s: State)
    requires Sleepers(s) && s.count !in s.waiting
    ensures Sleepers(Enter(s))
  {
    var s1 := Enter(s);
    assert Blocks(s1.threads) == Blocks(s.threads)[s.count := None];
    assert Joiners(s1.threads) == Joiners(s.threads)[s.count := None];
    NewSleeper(s.mutexes, Joiners(s.threads), s.waiting, Blocks(s.threads), s.count);
    hide Locks, Waiters, Joins, Blocks, Joiners;
  }

  lemma CreateKeeps(c: Config, s: State)
    requires Inv(c, s)
    ensures Inv(c, DoCreate(s))
  {
    assert s.count !in s.waiting by { PlacedOnce(s, None, s.count); }
    hide Shape, Placed, Queued, Settled, Sleepers;
    EnterBody(c, s);
    EnterSleepers(s);
    hide Body;
    AppendKeeps(c, Enter(s), s.count);
    hide InvWith;
  }

  lemma OneMore(keys: set<int>, t: int)
    requires t !in keys
    ensures multiset(keys + {t}) == multiset(keys) + multiset{t}
  {
  }

  lemma OneHand(a: multiset<int>, b: multiset<int>, c: multiset<int>, k: multiset<int>, t: int)
    ensures a + b + c + One(None) == k <==> a + b + c + One(Some(t)) == k + multiset{t}
  {
    if a + b + c + multiset{t} == k + multiset{t} {
      assert a + b + c == (a + b + c + multiset{t}) - multiset{t};
      assert k == (k + multiset{t}) - multiset{t};
    }
  }

  lemma NewSleeper(mutexes: map<int, Mutex>, joiners: map<int, Option<int>>, waiting: seq<int>, blocks: map<int,
          Option<int>>, t: int)
    requires Waiters(mutexes, waiting, blocks) && Joins(joiners, waiting, blocks) && t !in waiting
    ensures Waiters(mutexes, waiting, blocks[t := None]) && Joins(joiners[t := None], waiting, blocks[t := None])
  {
  }

  lemma FreeKeeps(c: Config, s: State, t: int)
    requires InvWith(c, s, Some(t))
    ensures Inv(c, Free(s, t))
  {
    hide Sleepers, Placed;
    var s' := Free(s, t);
    PlacedOnce(s, Some(t), t);
    FreePlaced(s, t);
    FreeQueued(s, t);
    FewerThreads(s, s', t);
    hide Queued, Flat;
  }

  lemma FreePlaced(s: State, t: int)
    requires Placed(s, Some(t)) && t in s.threads
    ensures Placed(Free(s, t), None)
  {
    var s' := Free(s, t);
    assert s'.threads.Keys == s.threads.Keys - {t};
    OneMore(s'.threads.Keys, t);
    assert s'.threads.Keys + {t} == s.threads.Keys;
    OneHand(multiset(Flat(s.ready)), multiset(s.waiting), One(s.running), multiset(s'.threads.Keys), t);
    hide Flat;
  }

  lemma FreeQueued(s: State, t: int)
    requires Queued(s) && t !in Flat(s.ready)
    ensures Queued(Free(s, t))
  {
    FlatMember(s.ready, t);
  }

  lemma FewerThreads(s: State, s': State, t: int)
    requires Sleepers(s) && t !in s.waiting && s' == Free(s, t)
    ensures Sleepers(s')
  {
    var b, j, b', j' := Blocks(s.threads), Joiners(s.threads), Blocks(s'.threads), Joiners(s'.threads);
    assert forall x :: x in b' <==> x in b && x != t;
    assert forall x :: x in b' ==> b'[x] == b[x];
    assert forall x :: x in j' ==> x in j && j'[x] == j[x];
    hide Blocks, Joiners, Locks;
    FewerWaiters(s.mutexes, s.waiting, b, b', t);
    FewerJoins(j, s.waiting, b, j', b', t);
    hide Waiters, Joins;
  }

  lemma FewerWaiters(mutexes: map<int, Mutex>, w: seq<int>, b: map<int, Option<int>>, b': map<int, Option<int>>, t: int)
    requires Waiters(mutexes, w, b) && t !in w
    requires forall x :: x in b' <==> x in b && x != t
    requires forall x :: x in b' ==> b'[x] == b[x]
    ensures Waiters(mutexes, w, b')
  {
  }

  lemma FewerJoins(j: map<int, Option<int>>, w: seq<int>, b: map<int, Option<int>>, j': map<int, Option<int>>,
          b': map<int, Option<int>>, t: int)
    requires Joins(j, w, b) && t !in w
    requires forall x :: x in j' ==> x in j && j'[x] == j[x]
    requires forall x :: x in b && x != t ==> x in b' && b'[x] == b[x]
    ensures Joins(j', w, b')
  {
    forall x | x in j' && j'[x].Some? ensures j'[x].value in w && j'[x].value in b' && b'[j'[x].value] == None {
      var v := j[x].value;
      assert v in w && v in b && b[v] == None;
    }
  }

  // Freeing the exiting thread before or after waking its joiner is the same.
  lemma FreeWake(s: State, t: int, j: int)
    requires j != t
    ensures Free(Wake(s, j), t) == Wake(Free(s, t), j)
  {
    assert Free(Wake(s, j), t).threads == Wake(Free(s, t), j).threads;
  }

  lemma ExitedKeeps(c: Config, s: State, elapsed: int)
    requires Inv(c, s) && s.running.Some?
    ensures Inv(c, Exited(s, elapsed))
    ensures |Exited(s, elapsed).ready| == |s.ready| > 0 && s.ready[0] <= Exited(s, elapsed).ready[0]
  {
    var t := s.running.value;
    var s1 := Leave(s, elapsed);
    LeaveKeeps(c, s, elapsed);
    FreeKeeps(c, s1, t);
    var s2 := Free(s1, t);
    assert s1.threads[t].joiner == s.threads[t].joiner;
    if s.threads[t].joiner.Some? {
      var j := s.threads[t].joiner.value;
      ReleasedOnce(c, s1, t, j);
      FreeWake(s1, t, j);
      hide Body, Sleepers;
      WakeKeeps(c, s2, None, j);
    }
  }

  // The joiner of the exiting thread sleeps for no other reason.
  lemma ReleasedOnce(c: Config, s: State, t: int, j: int)
    requires InvWith(c, s, Some(t)) && s.threads[t].joiner == Some(j)
    ensures j in s.waiting && j != t
    ensures forall m :: m in s.mutexes ==> j !in s.mutexes[m].queue
    ensures forall x :: x in Free(s, t).threads ==> Free(s, t).threads[x].joiner != Some(j)
  {
    assert Joiners(s.threads)[t] == Some(j);
    PlacedOnce(s, Some(t), t);
    hide Body, Locks;
    forall x | x in Free(s, t).threads ensures Free(s, t).threads[x].joiner != Some(j) {
      assert x in Joiners(s.threads) && Joiners(s.threads)[x] == s.threads[x].joiner;
    }
  }

  // ---------- mutexes ----------

  lemma AcquireKeeps(c: Config, s: State, m: int)
    requires Inv(c, s) && s.running.Some? && m in s.mutexes && !s.mutexes[m].locked
    ensures Inv(c, Acquire(s, m))
  {
    var t := s.running.value;
    var s' := Acquire(s, m);
    assert t !in s.waiting by { PlacedOnce(s, None, t); }
    BodyKeeps(c, s, s', None);
    hide Body;
    ProjectUpdate(s.threads, t, s'.threads[t]);
    hide Blocks, Joiners;
    AcquireLocks(s.mutexes, Joiners(s.threads), s.waiting, Blocks(s.threads), m, t);
    hide Locks, Waiters, Joins;
  }

  lemma AcquireLocks(mutexes: map<int, Mutex>, joiners: map<int, Option<int>>, waiting: seq<int>, blocks: map<int,
          Option<int>>, m: int, t: int)
    requires Locks(mutexes) && Waiters(mutexes, waiting, blocks) && Joins(joiners, waiting, blocks)
    requires m in mutexes && !mutexes[m].locked && t !in waiting
    ensures Locks(mutexes[m := mutexes[m].(locked := true, owner := Some(t))])
    ensures Waiters(mutexes[m := mutexes[m].(locked := true, owner := Some(t))], waiting, blocks[t := None])
    ensures Joins(joiners, waiting, blocks[t := None])
  {
  }

  lemma EmptyMutex(c: Config, s: State, m: int)
    requires Inv(c, s) && (m in s.mutexes ==> s.mutexes[m].queue == [])
    ensures Inv(c, s.(mutexes := s.mutexes[m := Mutex(false, None, [])]))
  {
    BodyKeeps(c, s, s.(mutexes := s.mutexes[m := Mutex(false, None, [])]), None);
    hide Body, Blocks, Joiners, Joins;
  }

  // Waking the first waiter of m.
  function WakeWaiter(s: State, m: int): State
    requires m in s.mutexes && s.mutexes[m].queue != []
  {
    Wake(s.(mutexes := s.mutexes[m := s.mutexes[m].(queue := s.mutexes[m].queue[1..])]), s.mutexes[m].queue[0])
  }

  lemma WakeWaiterSleepers(mutexes: map<int, Mutex>, joiners: map<int, Option<int>>, w: seq<int>, w': seq<int>,
          blocks: map<int, Option<int>>, m: int, t: int)
    requires Locks(mutexes) && Waiters(mutexes, w, blocks) && Joins(joiners, w, blocks)
    requires m in mutexes && mutexes[m].queue != [] && t == mutexes[m].queue[0]
    requires forall x :: x in w' <==> (x in w && x != t)
    ensures Locks(mutexes[m := mutexes[m].(queue := mutexes[m].queue[1..])])
    ensures Waiters(mutexes[m := mutexes[m].(queue := mutexes[m].queue[1..])], w', blocks)
    ensures Joins(joiners, w', blocks)
  {
    var q := mutexes[m].queue;
    assert forall x :: x in q[1..] <==> (x in q && x != t);
    assert t in q && blocks[t] == Some(m);
    JoinsLeave(joiners, w, w', blocks, t);
    hide Joins;
  }

  lemma WakeWaiterKeeps(c: Config, s: State, m: int)
    requires Inv(c, s) && m in s.mutexes && s.mutexes[m].queue != []
    ensures Inv(c, WakeWaiter(s, m))
  {
    var t := s.mutexes[m].queue[0];
    assert t in s.mutexes[m].queue && t in s.waiting && t in s.threads;
    var s0 := s.(mutexes := s.mutexes[m := s.mutexes[m].(queue := s.mutexes[m].queue[1..])]);
    var s1 := WakeWaiter(s, m);
    BodyKeeps(c, s, s0, None);
    WakeBody(c, s0, None, t);
    assert multiset(s0.waiting)[t] == 1 by { WakeApart(c, s0, None, t); }
    hide Body;
    WithoutKeeps(s.waiting, t);
    SameProjections(s.threads, s1.threads);
    assert s1.waiting == Without(s.waiting, t) && s1.mutexes == s0.mutexes;
    hide Blocks, Joiners, Without, Wake;
    WakeWaiterSleepers(s.mutexes, Joiners(s.threads), s.waiting, s1.waiting, Blocks(s.threads), m, t);
    hide Locks, Waiters, Joins;
  }

  // Waking does not look at the mutexes.
  lemma WakeMutexes(s: State, t: int, mutexes: map<int, Mutex>)
    ensures Wake(s.(mutexes := mutexes), t) == Wake(s, t).(mutexes := mutexes)
  {
  }

  lemma {:induction false} WakeAllMutexes(s: State, ts: seq<int>)
    ensures WakeAll(s, ts).mutexes == s.mutexes
    decreases |ts|
  {
    if ts == [] {
    } else {
      WakeAllMutexes(Wake(s, ts[0]), ts[1..]);
    }
  }

  lemma {:induction false} WakeAllAnyMutexes(s: State, ts: seq<int>, mutexes: map<int, Mutex>)
    ensures WakeAll(s.(mutexes := mutexes), ts) == WakeAll(s, ts).(mutexes := mutexes)
    decreases |ts|
  {
    if ts == [] {
    } else {
      WakeMutexes(s, ts[0], mutexes);
      WakeAllAnyMutexes(Wake(s, ts[0]), ts[1..], mutexes);
    }
  }

  lemma {:induction false} WakeAllKeeps(c: Config, s: State, m: int)
    requires Inv(c, s) && m in s.mutexes
    ensures Inv(c, WakeAll(s.(mutexes := s.mutexes[m := Mutex(false, None, [])]), s.mutexes[m].queue))
    decreases |s.mutexes[m].queue|
  {
    var q := s.mutexes[m].queue;
    var open := s.mutexes[m := Mutex(false, None, [])];
    if q == [] {
      EmptyMutex(c, s, m);
    } else {
      var s1 := WakeWaiter(s, m);
      WakeWaiterKeeps(c, s, m);
      WakeMutexes(s, q[0], s.mutexes[m := s.mutexes[m].(queue := q[1..])]);
      WakeMutexes(s, q[0], open);
      assert s1.mutexes[m := Mutex(false, None, [])] == open;
      assert Wake(s.(mutexes := open), q[0]) == s1.(mutexes := open);
      hide Inv;
      WakeAllKeeps(c, s1, m);
    }
  }

  // ---------- every step, every run ----------

  lemma YieldedKeeps(c: Config, s: State, elapsed: int)
    requires Inv(c, s) && s.running.Some?
    ensures Inv(c, Yielded(c, s, elapsed))
  {
    var t := s.running.value;
    LeaveKeeps(c, s, elapsed);
    var s1 := Leave(s, elapsed);
    DemoteKeeps(c, s1, t);
    var s2 := Demote(c, s1, t);
    AppendKeeps(c, s2, t);
    hide Placed, Queued, Settled, Sleepers;
  }

  // The state handed to the scheduler: nobody runs, and the front queue has only grown.
  lemma HandedKeeps(c: Config, s: State, a: Action)
    requires Inv(c, s) && Enabled(s, a) && Schedules(c, s, a)
    ensures var s' := Handed(c, s, a);
            && Inv(c, s') && s'.running == None && s'.cycles == s.cycles
            && |s'.ready| == |s.ready| && s.ready[0] <= s'.ready[0]
    ensures Step(c, s, a) == Reschedule(c, Handed(c, s, a))
  {
    match a
    case Yield(e) => YieldedKeeps(c, s, e);
    case Exit(e) => ExitedKeeps(c, s, e);
    case Join(t, e) =>
      PlacedOnce(s, None, s.running.value);
      JoinSleeps(c, s, t, e);
    case Lock(m, e) => LockSleeps(c, s, m, e);
  }

  // Each step keeps the partition and the mutex discipline.
  lemma StepKeeps(c: Config, s: State, a: Action)
    requires Inv(c, s) && Enabled(s, a)
    ensures Inv(c, Step(c, s, a))
  {
    if Schedules(c, s, a) {
      HandedKeeps(c, s, a);
      hide Step, Handed, InvWith;
      RescheduleKeeps(c, Handed(c, s, a));
    } else {
      match a
      case Create => CreateKeeps(c, s);
      case Join(t, e) =>
      case MutexInit(m) => EmptyMutex(c, s, m);
      case Lock(m, e) =>
        if m in s.mutexes && !s.mutexes[m].locked { AcquireKeeps(c, s, m); }
      case Unlock(m) =>
        if m in s.mutexes { WakeAllKeeps(c, s, m); }
    }
  }

  lemma InitKeeps(c: Config)
    requires c.levels >= 1
    ensures Inv(c, Init(c))
  {
    FlatEmpty(Init(c).ready);
  }

  lemma {:induction false} RunKeeps(c: Config, s: State, actions: seq<Action>)
    requires Inv(c, s) && Runs(c, s, actions)
    ensures Inv(c, End(c, s, actions))
    decreases |actions|
  {
    if actions == [] {
    } else {
      StepKeeps(c, s, actions[0]);
      hide Inv, Step;
      RunKeeps(c, Step(c, s, actions[0]), actions[1..]);
    }
  }
}
