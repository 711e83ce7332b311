/** Whole-run results about the scheduler: bounded waiting, priority boosts, mutual
    exclusion and wake-ups, and what the two tests do as written. */
module SchedulerRuns {
  import opened Options
  import opened Queues
  import opened SchedulerModel
  import opened SchedulerProofs

  // ---------- the partition, read off the invariant ----------

  // Each live thread is in exactly one place, and its status and priority say which.
  lemma Partition(c: Config, s: State, t: int)
    requires Inv(c, s)
    ensures t in s.threads <==> s.running == Some(t) || t in Flat(s.ready) || t in s.waiting
    ensures t in s.threads ==> (s.running == Some(t) <==> s.threads[t].status == RUNNING)
    ensures t in s.threads ==> (t in s.waiting <==> s.threads[t].status == BLOCKED)
    ensures t in s.threads ==> forall l :: 0 <= l < |s.ready| ==>
              (t in s.ready[l] <==> s.threads[t].status == READY && s.threads[t].priority == l)
    ensures multiset(Flat(s.ready))[t] + multiset(s.waiting)[t] <= 1
  {
    PlacedOnce(s, None, t);
    FlatMember(s.ready, t);
    var all := multiset(s.threads.Keys);
    assert all[t] == multiset(Flat(s.ready))[t] + multiset(s.waiting)[t] + One(s.running)[t];
    assert all[t] <= 1;
  }

  // ---------- how a step moves the front queue ----------

  // What the steps do to the queue of level 0: without the scheduler it only grows
  // at its end; through the scheduler its first thread, if any, starts to run.
  ghost predicate FrontMoves(s: State, s': State, schedules: bool) {
    && |s.ready| > 0 && |s'.ready| > 0
    && (!schedules ==> s.ready[0] <= s'.ready[0] && s'.running == s.running)
    && (schedules && s.ready[0] != [] ==>
          s'.running == Some(s.ready[0][0]) && s.ready[0][1..] <= s'.ready[0])
  }

  lemma CycleFront(c: Config, s: State)
    requires |s.ready| > 0
    ensures |Cycle(c, s).ready| == |s.ready| && s.ready[0] <= Cycle(c, s).ready[0]
    ensures Cycle(c, s).running == s.running
  {
    assert Flat(s.ready) == s.ready[0] + Flat(s.ready[1..]);
  }

  lemma RescheduleFront(c: Config, s: State, s0: State)
    requires Inv(c, s) && s.running == None
    requires |s0.ready| == |s.ready| && s0.ready[0] <= s.ready[0]
    ensures FrontMoves(s0, Reschedule(c, s), true)
  {
    CycleFront(c, s);
    CycleKeeps(c, s);
    DispatchKeeps(c, Cycle(c, s));
    DispatchShape(Cycle(c, s));
    hide Inv, Cycle, Dispatch;
    var q, q' := s0.ready[0], Cycle(c, s).ready[0];
    assert q <= q';
    if q != [] {
      assert q[1..] <= q'[1..];
    }
  }

  lemma DispatchShape(s: State)
    ensures |Dispatch(s).ready| == |s.ready|
  {
  }

  lemma WakeFront(s: State, t: int)
    requires |s.ready| > 0
    ensures |Wake(s, t).ready| == |s.ready| && s.ready[0] <= Wake(s, t).ready[0] && Wake(s, t).running == s.running
  {
  }

  lemma {:induction false} WakeAllFront(s: State, ts: seq<int>)
    requires |s.ready| > 0
    ensures |WakeAll(s, ts).ready| == |s.ready| && s.ready[0] <= WakeAll(s, ts).ready[0]
    ensures WakeAll(s, ts).running == s.running
    decreases |ts|
  {
    if ts == [] {
    } else {
      WakeFront(s, ts[0]);
      WakeAllFront(Wake(s, ts[0]), ts[1..]);
    }
  }

  lemma StepFront(c: Config, s: State, a: Action)
    requires Inv(c, s) && Enabled(s, a)
    ensures FrontMoves(s, Step(c, s, a), Schedules(c, s, a))
  {
    if Schedules(c, s, a) {
      HandedKeeps(c, s, a);
      hide Step, Handed, Inv, FrontMoves;
      RescheduleFront(c, Handed(c, s, a), s);
    } else if a.Unlock? && a.m in s.mutexes {
      WakeAllFront(s.(mutexes := s.mutexes[a.m := Mutex(false, None, [])]), s.mutexes[a.m].queue);
    }
  }

  // ---------- bounded waiting ----------

  predicate WaitsAt(s: State, p: int, t: int) {
    |s.ready| > 0 && 0 <= p < |s.ready[0]| && s.ready[0][p] == t
  }

  lemma FrontAdvances(c: Config, s: State, a: Action, p: nat, t: int)
    requires Inv(c, s) && Enabled(s, a) && WaitsAt(s, p, t)
    ensures !Schedules(c, s, a) ==> WaitsAt(Step(c, s, a), p, t)
    ensures Schedules(c, s, a) && p > 0 ==> WaitsAt(Step(c, s, a), p - 1, t)
    ensures Schedules(c, s, a) && p == 0 ==> Step(c, s, a).running == Some(t)
  {
    StepFront(c, s, a);
    hide Step, Schedules, Inv, Enabled;
    if p > 0 {
      assert s.ready[0][1..][p - 1] == t;
    }
  }

  lemma WaitingIsNotRunning(c: Config, s: State, p: int, t: int)
    requires Inv(c, s) && WaitsAt(s, p, t)
    ensures s.running != Some(t) && t in s.threads && p < |s.threads|
  {
    FlatMember(s.ready, t);
    PlacedOnce(s, None, t);
    assert |multiset(s.threads.Keys)| == |s.threads.Keys| == |s.threads|;
    assert |multiset(Flat(s.ready))| == |Flat(s.ready)| >= |s.ready[0]|;
  }

  lemma Unroll(c: Config, s: State, actions: seq<Action>)
    requires Runs(c, s, actions) && actions != []
    ensures Enabled(s, actions[0]) && Runs(c, Step(c, s, actions[0]), actions[1..])
    ensures End(c, s, actions) == End(c, Step(c, s, actions[0]), actions[1..])
    ensures Calls(c, s, actions) ==
            (if Schedules(c, s, actions[0]) then 1 else 0) + Calls(c, Step(c, s, actions[0]), actions[1..])
  {
  }

  // A thread at position k of the front queue moves one position further with every
  // scheduler call and is not running before its turn. In round robin the front queue
  // is the ready queue; in the multi-level scheduler this holds from a boost onward.
  lemma {:induction false} BoundedWaiting(c: Config, s: State, actions: seq<Action>, k: nat, t: int)
    requires Inv(c, s) && Runs(c, s, actions) && WaitsAt(s, k, t) && Calls(c, s, actions) <= k
    ensures WaitsAt(End(c, s, actions), k - Calls(c, s, actions), t)
    ensures End(c, s, actions).running != Some(t)
    decreases |actions|
  {
    hide Inv, WaitsAt, Schedules, Step, Enabled;
    if actions == [] {
      WaitingIsNotRunning(c, s, k, t);
    } else {
      var a, s1, rest := actions[0], Step(c, s, actions[0]), actions[1..];
      Unroll(c, s, actions);
      FrontAdvances(c, s, a, k, t);
      StepKeeps(c, s, a);
      hide Runs, End, Calls;
      if Schedules(c, s, a) {
        BoundedWaiting(c, s1, rest, k - 1, t);
      } else {
        BoundedWaiting(c, s1, rest, k, t);
      }
    }
  }

  // Exactly the (k+1)-th scheduler call dispatches the thread at position k.
  lemma DispatchedInTurn(c: Config, s: State, actions: seq<Action>, k: nat, t: int, a: Action)
    requires Inv(c, s) && Runs(c, s, actions) && WaitsAt(s, k, t) && Calls(c, s, actions) == k
    requires Enabled(End(c, s, actions), a) && Schedules(c, End(c, s, actions), a)
    ensures Step(c, End(c, s, actions), a).running == Some(t)
  {
    hide Inv, Step, Enabled, Schedules, WaitsAt, Runs, End, Calls;
    BoundedWaiting(c, s, actions, k, t);
    RunKeeps(c, s, actions);
    FrontAdvances(c, End(c, s, actions), a, 0, t);
  }

  // ---------- the priority boost ----------

  // The call that completes a boost cycle merges all queues, in level order, into the
  // front queue; from position k of the merged queue a thread has k calls to wait.
  lemma BoostMerges(c: Config, s: State, a: Action, k: nat, t: int)
    requires Inv(c, s) && Enabled(s, a) && Schedules(c, s, a)
    requires c.policy == Mlfq && s.cycles + 1 >= c.boost
    requires k < |Flat(Handed(c, s, a).ready)| && Flat(Handed(c, s, a).ready)[k] == t
    ensures if k == 0 then Step(c, s, a).running == Some(t) else WaitsAt(Step(c, s, a), k - 1, t)
    ensures Step(c, s, a).cycles == 0
    ensures forall l :: 0 < l < |Step(c, s, a).ready| ==> Step(c, s, a).ready[l] == []
  {
    HandedKeeps(c, s, a);
    var s1 := Handed(c, s, a);
    hide Handed, Step;
    CycleKeeps(c, s1);
    BoostKeeps(c, s1);
    hide Inv, Boost;
    var s2 := Cycle(c, s1);
    assert s2.ready[0] == Flat(s1.ready);
    DispatchKeeps(c, s2);
    DispatchRest(s2);
    if k > 0 {
      assert s2.ready[0][1..][k - 1] == t;
    }
  }

  lemma DispatchRest(s: State)
    requires |s.ready| > 0 && forall l :: 0 < l < |s.ready| ==> s.ready[l] == []
    ensures |Dispatch(s).ready| == |s.ready| && Dispatch(s).cycles == s.cycles
    ensures forall l :: 0 < l < |s.ready| ==> Dispatch(s).ready[l] == []
  {
  }

  // ---------- no starvation ----------

  lemma {:induction false} DispatchedWithin(c: Config, s: State, actions: seq<Action>, k: nat, t: int)
    requires Inv(c, s) && Runs(c, s, actions) && WaitsAt(s, k, t) && Calls(c, s, actions) > k
    ensures Dispatched(c, s, actions, t)
    decreases |actions|
  {
    var a := actions[0];
    FrontAdvances(c, s, a, k, t);
    StepKeeps(c, s, a);
    hide Inv, WaitsAt, Schedules, Step, Enabled;
    if Schedules(c, s, a) && k == 0 {
      assert Dispatched(c, Step(c, s, a), actions[1..], t);
    } else {
      DispatchedWithin(c, Step(c, s, a), actions[1..], if Schedules(c, s, a) then k - 1 else k, t);
    }
  }

  predicate IsReady(s: State, t: int) {
    t in s.threads && s.threads[t].status == READY
  }

  lemma {:induction false} WakeAllReady(s: State, ts: seq<int>, t: int)
    requires IsReady(s, t)
    ensures IsReady(WakeAll(s, ts), t)
    decreases |ts|
  {
    if ts == [] {
    } else {
      WakeAllReady(Wake(s, ts[0]), ts[1..], t);
    }
  }

  lemma RescheduleReady(c: Config, s: State, t: int)
    requires IsReady(s, t)
    ensures IsReady(Reschedule(c, s), t) || Reschedule(c, s).running == Some(t)
  {
    assert IsReady(Cycle(c, s), t);
  }

  lemma HandedReady(c: Config, s: State, a: Action, t: int)
    requires Enabled(s, a) && Schedules(c, s, a) && IsReady(s, t) && s.running != Some(t)
    ensures IsReady(Handed(c, s, a), t)
  {
  }

  // A ready thread stays ready until it runs.
  lemma StaysReady(c: Config, s: State, a: Action, t: int)
    requires Inv(c, s) && Enabled(s, a) && IsReady(s, t)
    ensures Step(c, s, a).running == Some(t) || IsReady(Step(c, s, a), t)
    ensures Schedules(c, s, a) ==> IsReady(Handed(c, s, a), t) && t in Flat(Handed(c, s, a).ready)
  {
    assert s.running != Some(t);
    if Schedules(c, s, a) {
      HandedReady(c, s, a, t);
      HandedKeeps(c, s, a);
      var s' := Handed(c, s, a);
      Partition(c, s', t);
      hide Step, Handed, Schedules, Inv, Enabled;
      RescheduleReady(c, s', t);
    } else if a.Unlock? && a.m in s.mutexes {
      WakeAllReady(s.(mutexes := s.mutexes[a.m := Mutex(false, None, [])]), s.mutexes[a.m].queue, t);
    }
  }

  lemma StepCycles(c: Config, s: State, a: Action)
    requires Inv(c, s) && Enabled(s, a) && c.policy == Mlfq
    ensures !Schedules(c, s, a) ==> Step(c, s, a).cycles == s.cycles
    ensures Schedules(c, s, a) && s.cycles + 1 < c.boost ==> Step(c, s, a).cycles == s.cycles + 1
  {
    if Schedules(c, s, a) {
      HandedKeeps(c, s, a);
      hide Step, Handed, Inv;
    } else if a.Unlock? && a.m in s.mutexes {
      WakeAllCycles(s.(mutexes := s.mutexes[a.m := Mutex(false, None, [])]), s.mutexes[a.m].queue);
    }
  }

  lemma {:induction false} WakeAllCycles(s: State, ts: seq<int>)
    ensures WakeAll(s, ts).cycles == s.cycles
    decreases |ts|
  {
    if ts == [] {
    } else {
      WakeAllCycles(Wake(s, ts[0]), ts[1..]);
    }
  }

  lemma Position(q: seq<int>, t: int) returns (k: nat)
    requires t in q
    ensures k < |q| && q[k] == t
  {
    k :| k < |q| && q[k] == t;
  }

  // When the step completes a boost cycle, a ready thread either runs now or is near
  // the front: fewer threads are before it than are alive.
  lemma BoostReaches(c: Config, s: State, a: Action, t: int) returns (k: nat)
    requires Inv(c, s) && Enabled(s, a) && Schedules(c, s, a) && IsReady(s, t)
    requires c.policy == Mlfq && s.cycles + 1 >= c.boost
    ensures Step(c, s, a).running == Some(t) || (WaitsAt(Step(c, s, a), k, t) && k < |Step(c, s, a).threads|)
  {
    hide Inv, Step, Handed, Schedules, Enabled, IsReady;
    StaysReady(c, s, a, t);
    StepKeeps(c, s, a);
    var p := Position(Flat(Handed(c, s, a).ready), t);
    BoostMerges(c, s, a, p, t);
    if p == 0 {
      k := 0;
    } else {
      k := p - 1;
      WaitingIsNotRunning(c, Step(c, s, a), k, t);
    }
  }

  // Starvation freedom of the multi-level scheduler: with at most n live threads, a
  // ready thread of any level runs before the boost cycle in progress and n further
  // scheduler calls are over, whatever is created, woken, demoted or boosted meanwhile.
  lemma {:induction false} NoStarvation(c: Config, s: State, actions: seq<Action>, t: int, n: nat)
    requires Inv(c, s) && Runs(c, s, actions) && AtMost(c, s, actions, n)
    requires c.policy == Mlfq && c.boost >= 1 && IsReady(s, t)
    requires Calls(c, s, actions) >= (c.boost - s.cycles) + n
    ensures Dispatched(c, s, actions, t)
    decreases |actions|
  {
    assert s.cycles < c.boost;
    var a := actions[0];
    var s' := Step(c, s, a);
    StepKeeps(c, s, a);
    StaysReady(c, s, a, t);
    StepCycles(c, s, a);
    hide Inv, Step, Schedules, Enabled, IsReady, Handed;
    if s'.running == Some(t) {
      assert Dispatched(c, s', actions[1..], t);
    } else if Schedules(c, s, a) && s.cycles + 1 >= c.boost {
      var k := BoostReaches(c, s, a, t);
      hide WaitsAt;
      DispatchedWithin(c, s', actions[1..], k, t);
    } else {
      NoStarvation(c, s', actions[1..], t, n);
    }
  }

  // ---------- mutexes ----------

  // A thread that sleeps for a mutex is in its wait queue, and the mutex is locked.
  lemma NoLostWaiter(c: Config, s: State, t: int, m: int)
    requires Inv(c, s) && t in s.waiting && t in s.threads && s.threads[t].blockedFrom == Some(m)
    ensures m in s.mutexes && t in s.mutexes[m].queue && s.mutexes[m].locked
  {
    assert Blocks(s.threads)[t] == Some(m);
  }

  predicate Holds(s: State, m: int, o: int) {
    m in s.mutexes && s.mutexes[m].locked && s.mutexes[m].owner == Some(o)
  }

  lemma HandedHolds(c: Config, s: State, a: Action, m: int, o: int)
    requires Enabled(s, a) && Schedules(c, s, a) && Holds(s, m, o)
    ensures Holds(Handed(c, s, a), m, o)
  {
  }

  lemma RescheduleMutexes(c: Config, s: State)
    ensures Reschedule(c, s).mutexes == s.mutexes
  {
  }

  lemma UnlockPasses(c: Config, s: State, a: Action)
    requires Enabled(s, a) && Schedules(c, s, a)
    ensures !a.Unlock?
  {
  }

  // Only the owner's own unlock ends a tenure.
  lemma HolderKeeps(c: Config, s: State, a: Action, m: int, o: int)
    requires Inv(c, s) && Enabled(s, a) && Holds(s, m, o)
    ensures Holds(Step(c, s, a), m, o) <==> !(a == Unlock(m) && s.running == Some(o))
  {
    if Schedules(c, s, a) {
      hide Step, Handed, Inv, Enabled, Schedules;
      HandedHolds(c, s, a, m, o);
      HandedKeeps(c, s, a);
      RescheduleMutexes(c, Handed(c, s, a));
      hide Reschedule;
      UnlockPasses(c, s, a);
    } else if a.Unlock? && a.m in s.mutexes {
      hide Inv;
      WakeAllMutexes(s.(mutexes := s.mutexes[a.m := Mutex(false, None, [])]), s.mutexes[a.m].queue);
    } else {
      hide Inv;
    }
  }

  predicate Releases(c: Config, s: State, actions: seq<Action>, m: int, o: int)
    requires Runs(c, s, actions)
    decreases |actions|
  {
    actions != [] &&
    ((actions[0] == Unlock(m) && s.running == Some(o)) || Releases(c, Step(c, s, actions[0]), actions[1..], m, o))
  }

  // Mutual exclusion over a whole run: until the owner unlocks, it stays the owner,
  // and the attempt of any other thread to lock puts that thread to sleep.
  lemma {:induction false} MutualExclusion(c: Config, s: State, actions: seq<Action>, m: int, o: int)
    requires Inv(c, s) && Runs(c, s, actions) && Holds(s, m, o) && !Releases(c, s, actions, m, o)
    ensures Holds(End(c, s, actions), m, o)
    ensures forall e :: Enabled(End(c, s, actions), Lock(m, e)) && End(c, s, actions).running != Some(o) ==>
              Schedules(c, End(c, s, actions), Lock(m, e))
    decreases |actions|
  {
    if actions == [] {
    } else {
      HolderKeeps(c, s, actions[0], m, o);
      StepKeeps(c, s, actions[0]);
      hide Inv, Step, Holds, Enabled, Schedules;
      MutualExclusion(c, Step(c, s, actions[0]), actions[1..], m, o);
    }
  }

  // The threads of ts that have priority l, in order.
  function OfLevel(threads: map<int, Thread>, ts: seq<int>, l: int): seq<int> {
    if ts == [] then []
    else (if ts[0] in threads && threads[ts[0]].priority == l then [ts[0]] else []) + OfLevel(threads, ts[1..], l)
  }

  function Except(q: seq<int>, ts: seq<int>): seq<int> {
    if q == [] then [] else (if q[0] in ts then [] else [q[0]]) + Except(q[1..], ts)
  }

  lemma {:induction false} ExceptWithout(q: seq<int>, ts: seq<int>)
    requires ts != [] && multiset(q)[ts[0]] <= 1 && ts[0] !in ts[1..]
    ensures Except(Without(q, ts[0]), ts[1..]) == Except(q, ts)
  {
    var t := ts[0];
    if q == [] {
    } else {
      assert q == [q[0]] + q[1..];
      assert forall x :: x in ts <==> x == t || x in ts[1..];
      if q[0] == t {
        assert t !in multiset(q[1..]);
        ExceptMore(q[1..], ts);
      } else {
        assert multiset(q[1..])[t] <= 1;
        ExceptWithout(q[1..], ts);
        assert Without(q, t)[1..] == Without(q[1..], t);
      }
    }
  }

  lemma {:induction false} ExceptMore(q: seq<int>, ts: seq<int>)
    requires ts != [] && ts[0] !in q
    ensures Except(q, ts[1..]) == Except(q, ts)
  {
    if q == [] {
    } else {
      assert q[0] != ts[0];
      assert q[0] in ts <==> q[0] in ts[1..];
      ExceptMore(q[1..], ts);
    }
  }

  ghost predicate AllAsleep(s: State, ts: seq<int>) {
    && Distinct(ts)
    && forall t :: t in ts ==>
         t in s.threads && 0 <= s.threads[t].priority < |s.ready| && multiset(s.waiting)[t] == 1
  }

  // What a state looks like after some sleepers were woken.
  ghost predicate Woken(s: State, s': State, ts: seq<int>) {
    && |s'.ready| == |s.ready| && s'.running == s.running && s'.waiting == Except(s.waiting, ts)
    && (forall l :: 0 <= l < |s.ready| ==> s'.ready[l] == s.ready[l] + OfLevel(s.threads, ts, l))
    && s'.threads.Keys == s.threads.Keys
    && forall x :: x in s.threads ==>
         s'.threads[x] == if x in ts then s.threads[x].(status := READY) else s.threads[x]
  }

  lemma WakeOne(s: State, ts: seq<int>)
    requires AllAsleep(s, ts) && ts != []
    ensures var s' := Wake(s, ts[0]);
            && |s'.ready| == |s.ready| && s'.running == s.running && s'.waiting == Without(s.waiting, ts[0])
            && (forall l :: 0 <= l < |s.ready| ==> s'.ready[l] == s.ready[l] + OfLevel(s.threads, [ts[0]], l))
            && s'.threads == s.threads[ts[0] := s.threads[ts[0]].(status := READY)]
            && AllAsleep(s', ts[1..])
  {
    var t := ts[0];
    assert t in ts && t in s.waiting;
    hide Without;
    var s' := Wake(s, t);
    forall x | x in ts[1..]
      ensures x in s'.threads && 0 <= s'.threads[x].priority < |s'.ready| && multiset(s'.waiting)[x] == 1
    {
      assert x in ts && x != t;
    }
  }

  lemma WokenStep(s: State, s1: State, s2: State, ts: seq<int>)
    requires AllAsleep(s, ts) && ts != [] && ts[0] in s.threads && |s1.ready| == |s.ready| && s1.running == s.running
    requires s1.waiting == Without(s.waiting, ts[0])
    requires forall l :: 0 <= l < |s.ready| ==> s1.ready[l] == s.ready[l] + OfLevel(s.threads, [ts[0]], l)
    requires s1.threads == s.threads[ts[0] := s.threads[ts[0]].(status := READY)]
    requires Woken(s1, s2, ts[1..])
    ensures Woken(s, s2, ts)
  {
    var t := ts[0];
    assert t !in ts[1..] && multiset(s.waiting)[t] == 1 by { assert t in ts; }
    hide AllAsleep;
    ExceptWithout(s.waiting, ts);
    hide Except, Without;
    WokenLevels(s, s1, s2, ts);
    hide OfLevel;
    assert forall x :: x in ts <==> x == t || x in ts[1..];
  }

  lemma WokenLevels(s: State, s1: State, s2: State, ts: seq<int>)
    requires ts != [] && ts[0] in s.threads && |s1.ready| == |s.ready| == |s2.ready|
    requires forall l :: 0 <= l < |s.ready| ==> s1.ready[l] == s.ready[l] + OfLevel(s.threads, [ts[0]], l)
    requires forall l :: 0 <= l < |s.ready| ==> s2.ready[l] == s1.ready[l] + OfLevel(s1.threads, ts[1..], l)
    requires s1.threads == s.threads[ts[0] := s.threads[ts[0]].(status := READY)]
    ensures forall l :: 0 <= l < |s.ready| ==> s2.ready[l] == s.ready[l] + OfLevel(s.threads, ts, l)
  {
    hide OfLevel;
    forall l | 0 <= l < |s.ready| ensures s2.ready[l] == s.ready[l] + OfLevel(s.threads, ts, l) {
      SameLevels(s.threads, s1.threads, ts[1..], l);
      OfLevelStep(s.threads, ts, l, s.ready[l]);
    }
  }

  lemma OfLevelStep(threads: map<int, Thread>, ts: seq<int>, l: int, q: seq<int>)
    requires ts != []
    ensures (q + OfLevel(threads, [ts[0]], l)) + OfLevel(threads, ts[1..], l) == q + OfLevel(threads, ts, l)
  {
    hide OfLevel;
    OfLevelOne(threads, ts, l);
    assert (q + OfLevel(threads, [ts[0]], l)) + OfLevel(threads, ts[1..], l) == q + (OfLevel(threads, [ts[0]], l) + OfLevel(threads, ts[1..], l));
  }

  lemma OfLevelOne(threads: map<int, Thread>, ts: seq<int>, l: int)
    requires ts != []
    ensures OfLevel(threads, ts, l) == OfLevel(threads, [ts[0]], l) + OfLevel(threads, ts[1..], l)
  {
    assert [ts[0]][1..] == [] && OfLevel(threads, [], l) == [];
    assert OfLevel(threads, [ts[0]], l) == if ts[0] in threads && threads[ts[0]].priority == l then [ts[0]] else [];
  }

  lemma SleeperIsThere(s: State, ts: seq<int>)
    requires AllAsleep(s, ts) && ts != []
    ensures ts[0] in s.threads
  {
    var t := ts[0];
    assert t in ts;
  }

  lemma {:induction false} WakeAllEffect(s: State, ts: seq<int>)
    requires AllAsleep(s, ts)
    ensures Woken(s, WakeAll(s, ts), ts)
    decreases |ts|
  {
    if ts == [] {
      ExceptNone(s.waiting);
    } else {
      SleeperIsThere(s, ts);
      WakeOne(s, ts);
      hide AllAsleep, Woken, Wake;
      WakeAllEffect(Wake(s, ts[0]), ts[1..]);
      WokenStep(s, Wake(s, ts[0]), WakeAll(s, ts), ts);
    }
  }

  lemma {:induction false} ExceptNone(q: seq<int>)
    ensures Except(q, []) == q
  {
    if q == [] {
    } else {
      ExceptNone(q[1..]);
    }
  }

  lemma {:induction false} SameLevels(a: map<int, Thread>, b: map<int, Thread>, ts: seq<int>, l: int)
    requires a.Keys == b.Keys && forall t :: t in a ==> a[t].priority == b[t].priority
    ensures OfLevel(a, ts, l) == OfLevel(b, ts, l)
  {
    if ts == [] {
    } else {
      assert ts[0] in a <==> ts[0] in b;
      SameLevels(a, b, ts[1..], l);
    }
  }

  // A successful unlock makes every waiter ready, in wait order within its level, and
  // leaves every other sleeping thread where it is.
  lemma UnlockWakesAll(c: Config, s: State, m: int)
    requires Inv(c, s) && m in s.mutexes && s.mutexes[m].locked && s.running.Some? && s.mutexes[m].owner == s.running
    ensures Woken(s, DoUnlock(s, m), s.mutexes[m].queue)
    ensures DoUnlock(s, m).mutexes == s.mutexes[m := Mutex(false, None, [])]
  {
    var s1 := s.(mutexes := s.mutexes[m := Mutex(false, None, [])]);
    var q := s.mutexes[m].queue;
    forall t | t in q ensures t in s.threads && multiset(s.waiting)[t] == 1 {
      PlacedOnce(s, None, t);
    }
    hide Placed, Queued, Settled, Waiters, Joins;
    assert AllAsleep(s1, q);
    hide Sleepers, AllAsleep;
    WakeAllEffect(s1, q);
    WakeAllMutexes(s1, q);
    hide WakeAll, Except, OfLevel;
  }
}
