/** What each call does to the threads, the queues and the mutexes, told by what can be
    seen before and after it. */
module SchedulerEffects {
  import opened Options
  import opened Queues
  import opened SchedulerModel
  import opened SchedulerProofs
  import opened SchedulerRuns

  // ---------- level order ----------

  // Flattening puts the levels one behind the other, each in its own order.
  lemma {:induction false} FlatAt(q: seq<seq<int>>, l: nat, i: nat)
    requires l < |q| && i < |q[l]|
    ensures |Flat(q[..l])| + i < |Flat(q)| && Flat(q)[|Flat(q[..l])| + i] == q[l][i]
  {
    if l == 0 {
      assert q[..0] == [];
    } else {
      assert q[..l][1..] == q[1..][..l - 1];
      FlatAt(q[1..], l - 1, i);
    }
  }

  // ---------- the scheduler proper ----------

  // The first thread of the lowest level that is not empty leaves its queue to run.
  ghost predicate ServesLowest(q: seq<seq<int>>, q': seq<seq<int>>, running: Option<int>) {
    && |q'| == |q|
    && match running
       case None => q' == q && forall l :: 0 <= l < |q| ==> q[l] == []
       case Some(t) => exists l :: 0 <= l < |q| && ServesLevel(q, q', t, l)
  }

  ghost predicate ServesLevel(q: seq<seq<int>>, q': seq<seq<int>>, t: int, l: int)
    requires |q'| == |q| && 0 <= l < |q|
  {
    && (forall k :: 0 <= k < l ==> q[k] == [])
    && q[l] == [t] + q'[l]
    && forall k :: 0 <= k < |q| && k != l ==> q'[k] == q[k]
  }

  // A boost is due once as many calls have passed since the last one.
  predicate Boosts(c: Config, s: State) {
    c.policy == Mlfq && s.cycles + 1 >= c.boost
  }

  // The queues a boost leaves behind.
  ghost predicate Merged(q: seq<seq<int>>, q': seq<seq<int>>) {
    |q'| == |q| > 0 && q'[0] == Flat(q) && forall l :: 0 < l < |q| ==> q'[l] == []
  }

  // From the state handed to the scheduler to the one it leaves.
  ghost predicate Scheduled(c: Config, h: State, s': State, q: seq<seq<int>>) {
    && (if Boosts(c, h) then Merged(h.ready, q) else q == h.ready)
    && ServesLowest(q, s'.ready, s'.running)
    && s'.cycles == (if c.policy == RoundRobin then h.cycles else if Boosts(c, h) then 0 else h.cycles + 1)
    && s'.waiting == h.waiting && s'.mutexes == h.mutexes && s'.count == h.count
    && s'.threads.Keys == h.threads.Keys
    && forall x :: x in h.threads ==>
         s'.threads[x] == h.threads[x].(
           priority := if Boosts(c, h) && x in Flat(h.ready) then 0 else h.threads[x].priority,
           status := if s'.running == Some(x) then RUNNING else h.threads[x].status)
  }

  lemma CycleEffect(c: Config, h: State)
    requires |h.ready| > 0
    ensures if Boosts(c, h) then Merged(h.ready, Cycle(c, h).ready) else Cycle(c, h).ready == h.ready
    ensures var s1 := Cycle(c, h);
            && s1.cycles == (if c.policy == RoundRobin then h.cycles else if Boosts(c, h) then 0 else h.cycles + 1)
            && s1.waiting == h.waiting && s1.mutexes == h.mutexes && s1.count == h.count && s1.running == h.running
            && s1.threads.Keys == h.threads.Keys
    ensures forall x :: x in h.threads ==>
              Cycle(c, h).threads[x] == h.threads[x].(
                priority := if Boosts(c, h) && x in Flat(h.ready) then 0 else h.threads[x].priority)
  {
    hide Flat;
  }

  lemma DispatchEffect(s: State)
    requires s.running == None && Queued(s)
    ensures var s' := Dispatch(s);
            && ServesLowest(s.ready, s'.ready, s'.running)
            && s'.waiting == s.waiting && s'.mutexes == s.mutexes && s'.count == s.count && s'.cycles == s.cycles
            && s'.threads.Keys == s.threads.Keys
    ensures forall x :: x in s.threads ==>
              Dispatch(s).threads[x] == s.threads[x].(
                status := if Dispatch(s).running == Some(x) then RUNNING else s.threads[x].status)
  {
    match FirstLevel(s.ready)
    case None =>
    case Some(l) =>
      var t := s.ready[l][0];
      assert t in s.ready[l];
      assert ServesLevel(s.ready, Dispatch(s).ready, t, l);
  }

  lemma InvLevels(c: Config, s: State)
    requires Inv(c, s)
    ensures |s.ready| == c.levels >= 1
  {
  }

  lemma RescheduleEffect(c: Config, h: State)
    requires Inv(c, h) && h.running == None
    ensures Scheduled(c, h, Reschedule(c, h), Cycle(c, h).ready)
  {
    hide InvWith, Cycle, Dispatch, Flat, Merged, ServesLowest, Queued;
    InvLevels(c, h);
    CycleKeeps(c, h);
    InvQueued(c, Cycle(c, h));
    CycleEffect(c, h);
    DispatchEffect(Cycle(c, h));
  }

  ghost predicate PassesScheduler(c: Config, h: State, s': State) {
    exists q :: Scheduled(c, h, s', q)
  }

  // Every step that enters the scheduler leaves it by the choice of the lowest level.
  lemma SchedulerServes(c: Config, s: State, a: Action)
    requires Inv(c, s) && Enabled(s, a) && Schedules(c, s, a)
    ensures PassesScheduler(c, Handed(c, s, a), Step(c, s, a))
  {
    HandedKeeps(c, s, a);
    hide Inv, Step, Handed, Schedules, Enabled;
    RescheduleEffect(c, Handed(c, s, a));
  }

  // The scheduler moves no sleeper and no mutex.
  lemma SleepersStay(c: Config, h: State, s': State, x: int)
    requires PassesScheduler(c, h, s') && Inv(c, h)
    ensures s'.waiting == h.waiting && s'.mutexes == h.mutexes && s'.threads.Keys == h.threads.Keys
    ensures x in h.waiting ==> x in h.threads && s'.threads[x] == h.threads[x]
    ensures IsReady(h, x) ==> IsReady(s', x) || s'.running == Some(x)
  {
    hide Merged;
    var q :| Scheduled(c, h, s', q);
    PlacedOnce(h, None, x);
    if s'.running == Some(x) {
      ServedWasReady(h.ready, q, s'.ready, x, Boosts(c, h));
    }
  }

  lemma ServedWasReady(ready: seq<seq<int>>, q: seq<seq<int>>, q': seq<seq<int>>, t: int, boosted: bool)
    requires (if boosted then Merged(ready, q) else q == ready) && ServesLowest(q, q', Some(t))
    ensures t in Flat(ready)
  {
    var l :| 0 <= l < |q| && ServesLevel(q, q', t, l);
    assert t in q[l];
    FlatMember(ready, t);
  }

  // ---------- exit ----------

  // The threads of q but one, in order.
  ghost predicate LeavesQueue(q: seq<int>, q': seq<int>, j: int) {
    exists k :: 0 <= k < |q| && q[k] == j && q' == q[..k] + q[k + 1..]
  }

  // What an exiting thread hands to the scheduler: its joiner, if it has one, is taken
  // off the waiting queue and put at the end of the run queue of its level.
  ghost predicate ReleasesJoiner(s: State, h: State, t: int) {
    && h.running == None && h.mutexes == s.mutexes && h.count == s.count && h.cycles == s.cycles
    && t in s.threads && h.threads.Keys == s.threads.Keys - {t}
    && match s.threads[t].joiner
       case None =>
         h.waiting == s.waiting && h.ready == s.ready && forall x :: x in h.threads ==> h.threads[x] == s.threads[x]
       case Some(j) =>
         && LeavesQueue(s.waiting, h.waiting, j) && j !in h.waiting
         && j in h.threads && h.threads[j] == s.threads[j].(status := READY)
         && 0 <= s.threads[j].priority < |s.ready|
         && h.ready == s.ready[s.threads[j].priority := s.ready[s.threads[j].priority] + [j]]
         && forall x :: x in h.threads && x != j ==> h.threads[x] == s.threads[x]
  }

  lemma WithoutLeaves(q: seq<int>, j: int)
    requires multiset(q)[j] == 1
    ensures LeavesQueue(q, Without(q, j), j) && j !in Without(q, j)
  {
    var k := Position(q, j);
    assert q == q[..k] + [j] + q[k + 1..];
    forall i | 0 <= i < k ensures q[i] != q[k] {
      assert multiset(q[..k])[j] == 0;
    }
    WithoutAt(q, k);
    WithoutKeeps(q, j);
  }

  lemma ExitHands(c: Config, s: State, e: int)
    requires Inv(c, s) && Enabled(s, Exit(e))
    ensures ReleasesJoiner(s, Handed(c, s, Exit(e)), s.running.value)
  {
    hide Placed, Queued, Settled, Sleepers, Without, LeavesQueue, Exited, ReleasesJoiner;
    var t := s.running.value;
    if s.threads[t].joiner.Some? {
      var j := s.threads[t].joiner.value;
      JoinerAsleep(c, s, e);
      WithoutLeaves(s.waiting, j);
      ExitsWithJoiner(s, e, t, j);
    } else {
      ExitsAlone(s, e, t);
    }
  }

  lemma JoinerAsleep(c: Config, s: State, e: int)
    requires Inv(c, s) && s.running.Some? && s.threads[s.running.value].joiner.Some?
    ensures var j := s.threads[s.running.value].joiner.value;
            && j != s.running.value && multiset(s.waiting)[j] == 1 && j in s.threads
            && 0 <= s.threads[j].priority < |s.ready|
  {
    var t := s.running.value;
    var j := s.threads[t].joiner.value;
    LeaveKeeps(c, s, e);
    ReleasedOnce(c, Leave(s, e), t, j);
    WakeApart(c, Leave(s, e), Some(t), j);
    hide Without, Placed, Queued, Sleepers;
  }

  lemma ExitsAlone(s: State, e: int, t: int)
    requires s.running == Some(t) && t in s.threads && s.threads[t].joiner.None?
    ensures ReleasesJoiner(s, Exited(s, e), t)
  {
    assert Exited(s, e).threads.Keys == s.threads.Keys - {t};
  }

  lemma ExitsWithJoiner(s: State, e: int, t: int, j: int)
    requires s.running == Some(t) && t in s.threads && s.threads[t].joiner == Some(j)
    requires j != t && j in s.waiting && j in s.threads && 0 <= s.threads[j].priority < |s.ready|
    requires LeavesQueue(s.waiting, Without(s.waiting, j), j) && j !in Without(s.waiting, j)
    ensures ReleasesJoiner(s, Exited(s, e), t)
  {
    hide Without, LeavesQueue;
    assert Exited(s, e).threads.Keys == s.threads.Keys - {t};
  }

  // What can be seen after the scheduler: the exiting thread is gone, of the sleepers
  // exactly its joiner has left, which is ready or runs, and the others are as before.
  ghost predicate Released(s: State, s': State, t: int) {
    && t in s.threads && s'.threads.Keys == s.threads.Keys - {t} && s'.mutexes == s.mutexes
    && (forall x :: x in s.waiting && x !in s'.waiting <==> s.threads[t].joiner == Some(x))
    && (s.threads[t].joiner.None? ==> s'.waiting == s.waiting)
    && (forall j :: s.threads[t].joiner == Some(j) ==>
          LeavesQueue(s.waiting, s'.waiting, j) && (IsReady(s', j) || s'.running == Some(j)))
    && forall x :: x in s'.waiting ==> x in s.threads && x in s'.threads && s'.threads[x] == s.threads[x]
  }

  lemma ExitReleases(c: Config, s: State, e: int)
    requires Inv(c, s) && Enabled(s, Exit(e))
    ensures ReleasesJoiner(s, Handed(c, s, Exit(e)), s.running.value)
    ensures PassesScheduler(c, Handed(c, s, Exit(e)), Step(c, s, Exit(e)))
    ensures Released(s, Step(c, s, Exit(e)), s.running.value)
  {
    ExitHands(c, s, e);
    SchedulerServes(c, s, Exit(e));
    HandedKeeps(c, s, Exit(e));
    if s.threads[s.running.value].joiner.Some? { JoinerAsleep(c, s, e); }
    InvSettled(c, s);
    hide Inv, Handed, Step, PassesScheduler, ReleasesJoiner, Released;
    ReleaseSeen(c, s, Handed(c, s, Exit(e)), Step(c, s, Exit(e)), s.running.value);
  }

  lemma InvSettled(c: Config, s: State)
    requires Inv(c, s)
    ensures forall x :: x in s.waiting ==> x in s.threads
    ensures s.running.Some? ==> s.running.value !in s.waiting
  {
    if s.running.Some? { PlacedOnce(s, None, s.running.value); }
  }

  lemma ReleaseSeen(c: Config, s: State, h: State, s': State, t: int)
    requires ReleasesJoiner(s, h, t) && PassesScheduler(c, h, s') && Inv(c, h)
    requires t !in s.waiting && forall x :: x in s.waiting ==> x in s.threads
    ensures Released(s, s', t)
  {
    hide Inv, PassesScheduler, LeavesQueue;
    SleepersStay(c, h, s', t);
    forall x ensures x in h.waiting ==> x in h.threads && s'.threads[x] == h.threads[x]
      ensures IsReady(h, x) ==> IsReady(s', x) || s'.running == Some(x)
    {
      SleepersStay(c, h, s', x);
    }
    if s.threads[t].joiner.Some? {
      OneLeaves(s.waiting, h.waiting, s.threads[t].joiner.value);
    }
  }

  lemma OneLeaves(q: seq<int>, q': seq<int>, j: int)
    requires LeavesQueue(q, q', j) && j !in q'
    ensures forall x :: x in q && x !in q' <==> x == j
    ensures forall x :: x in q' ==> x in q && x != j
  {
    var k :| 0 <= k < |q| && q[k] == j && q' == q[..k] + q[k + 1..];
    assert q == q[..k] + [j] + q[k + 1..];
  }

  // ---------- yield ----------

  // When a thread that has now used this much time goes down a level: it has used up
  // the slice of its level and there is a lower one. As written there never is.
  predicate UsedUp(c: Config, th: Thread, used: int) {
    && c.policy == Mlfq && used >= c.slice * (th.priority + 1)
    && (if c.demotion == Intended then th.priority + 1 < c.levels else th.priority >= c.levels)
  }

  // The running thread, with its time added up, goes to the end of a run queue.
  ghost predicate Requeues(c: Config, s: State, h: State, t: int, e: int) {
    && t in s.threads && var th := s.threads[t];
    && var th' := if UsedUp(c, th, th.cpu + e)
                  then Thread(th.priority + 1, READY, th.joiner, th.blockedFrom, 0)
                  else Thread(th.priority, READY, th.joiner, th.blockedFrom, th.cpu + e);
    && 0 <= th'.priority < |s.ready|
    && h == s.(running := None, threads := s.threads[t := th'],
               ready := s.ready[th'.priority := s.ready[th'.priority] + [t]])
  }

  lemma YieldRequeues(c: Config, s: State, e: int)
    requires Inv(c, s) && Enabled(s, Yield(e))
    ensures Requeues(c, s, Handed(c, s, Yield(e)), s.running.value, e)
    ensures PassesScheduler(c, Handed(c, s, Yield(e)), Step(c, s, Yield(e)))
  {
    InvPriority(c, s, s.running.value);
    YieldHands(c, s, e);
    hide Inv, Handed, Step, PassesScheduler, Requeues;
    SchedulerServes(c, s, Yield(e));
  }

  lemma InvPriority(c: Config, s: State, t: int)
    requires Inv(c, s) && t in s.threads
    ensures c.levels == |s.ready| && 0 <= s.threads[t].priority < c.levels
  {
  }

  lemma DemotedWhen(c: Config, th: Thread, used: int)
    ensures Demoted(c, th.(cpu := used)) ==
            if UsedUp(c, th, used) then th.(cpu := 0, priority := th.priority + 1) else th.(cpu := used)
  {
  }

  lemma YieldHands(c: Config, s: State, e: int)
    requires s.running.Some? && s.running.value in s.threads && c.levels == |s.ready|
    requires 0 <= s.threads[s.running.value].priority < c.levels
    ensures Requeues(c, s, Yielded(c, s, e), s.running.value, e)
  {
    hide Demoted;
    var t := s.running.value;
    var th := s.threads[t];
    DemotedWhen(c, th, th.cpu + e);
    var s1 := Demote(c, Leave(s, e), t);
    assert s1 == s.(running := None, threads := s.threads[t := Demoted(c, th.(cpu := th.cpu + e))]);
    hide Demote, Leave;
  }

  // ---------- falling asleep ----------

  // The running thread goes to the end of the waiting queue.
  ghost predicate Sleeps(s: State, h: State, t: int, e: int) {
    && t in s.threads && t in h.threads && h.threads.Keys == s.threads.Keys
    && h.running == None && h.ready == s.ready && h.waiting == s.waiting + [t]
    && h.cycles == s.cycles && h.count == s.count
    && h.threads[t] == s.threads[t].(status := BLOCKED, cpu := s.threads[t].cpu + e,
                                     blockedFrom := h.threads[t].blockedFrom)
  }

  // worker_join: either the running thread sleeps as the joiner of its target, or
  // nothing happens (JoinWaits says when).
  ghost predicate WaitsFor(s: State, s': State, t: int, target: int) {
    && s'.waiting == s.waiting + [t] && t in s'.threads && s'.threads[t].status == BLOCKED
    && target in s'.threads && s'.threads[target].joiner == Some(t)
    && s'.mutexes == s.mutexes && s'.threads.Keys == s.threads.Keys
    && forall x :: x in s.waiting && x != target ==> x in s.threads && x in s'.threads && s'.threads[x] == s.threads[x]
  }

  lemma JoinSleepsOrReturns(c: Config, s: State, target: int, e: int)
    requires Inv(c, s) && Enabled(s, Join(target, e))
    ensures !Schedules(c, s, Join(target, e)) ==> Step(c, s, Join(target, e)) == s
    ensures Schedules(c, s, Join(target, e)) ==>
              && target != s.running.value && target in s.threads
              && Sleeps(s, Handed(c, s, Join(target, e)), s.running.value, e)
              && PassesScheduler(c, Handed(c, s, Join(target, e)), Step(c, s, Join(target, e)))
              && WaitsFor(s, Step(c, s, Join(target, e)), s.running.value, target)
  {
    var a, t := Join(target, e), s.running.value;
    if Schedules(c, s, a) {
      PlacedOnce(s, None, t);
      JoinHands(c, s, target, e);
      SchedulerServes(c, s, a);
      HandedKeeps(c, s, a);
      InvSettled(c, s);
      var h, s' := Handed(c, s, a), Step(c, s, a);
      hide Inv, Handed, Step, PassesScheduler, Schedules;
      SleepersStay(c, h, s', t);
      SleepersStay(c, h, s', target);
      JoinerStays(c, h, s', target);
      forall x | x in s.waiting ensures x in h.threads && s'.threads[x] == h.threads[x] {
        SleepersStay(c, h, s', x);
      }
    }
  }

  lemma JoinHands(c: Config, s: State, target: int, e: int)
    requires Enabled(s, Join(target, e)) && Schedules(c, s, Join(target, e)) && target != s.running.value
    ensures var h := Handed(c, s, Join(target, e));
            && Sleeps(s, h, s.running.value, e) && h.mutexes == s.mutexes
            && h.threads[target] == s.threads[target].(joiner := s.running)
            && h.threads[s.running.value].blockedFrom == s.threads[s.running.value].blockedFrom
            && forall x :: x in s.threads && x != target && x != s.running.value ==> h.threads[x] == s.threads[x]
  {
  }

  lemma JoinerStays(c: Config, h: State, s': State, x: int)
    requires PassesScheduler(c, h, s') && x in h.threads
    ensures x in s'.threads && s'.threads[x].joiner == h.threads[x].joiner
  {
    var q :| Scheduled(c, h, s', q);
  }

  // ---------- mutexes ----------

  // A free mutex becomes the running thread's, which goes on running.
  ghost predicate Takes(s: State, s': State, m: int, t: int) {
    && m in s.mutexes && t in s.threads && Holds(s', m, t) && s'.mutexes[m].queue == []
    && s' == s.(mutexes := s.mutexes[m := s'.mutexes[m]], threads := s.threads[t := s.threads[t].(blockedFrom := None)])
  }

  // The running thread sleeps, last in the queue of a mutex that somebody else holds.
  ghost predicate BlocksOn(s: State, s': State, m: int, t: int, e: int) {
    && m in s.mutexes && t in s.threads && s'.waiting == s.waiting + [t] && s'.threads.Keys == s.threads.Keys
    && s'.mutexes == s.mutexes[m := s.mutexes[m].(queue := s.mutexes[m].queue + [t])]
    && s'.threads[t] == s.threads[t].(status := BLOCKED, blockedFrom := Some(m), cpu := s.threads[t].cpu + e)
    && forall x :: x in s.waiting ==> x in s.threads && s'.threads[x] == s.threads[x]
  }

  lemma LockTakes(c: Config, s: State, m: int, e: int)
    requires Inv(c, s) && Enabled(s, Lock(m, e)) && m in s.mutexes && !s.mutexes[m].locked
    ensures Takes(s, Step(c, s, Lock(m, e)), m, s.running.value)
  {
    hide Placed, Queued, Settled, Waiters, Joins;
  }

  lemma LockBlocks(c: Config, s: State, m: int, e: int)
    requires Inv(c, s) && Enabled(s, Lock(m, e)) && m in s.mutexes && s.mutexes[m].locked
    requires s.mutexes[m].owner != s.running
    ensures Sleeps(s, Handed(c, s, Lock(m, e)), s.running.value, e)
    ensures PassesScheduler(c, Handed(c, s, Lock(m, e)), Step(c, s, Lock(m, e)))
    ensures BlocksOn(s, Step(c, s, Lock(m, e)), m, s.running.value, e)
  {
    var a, t := Lock(m, e), s.running.value;
    LockHands(c, s, m, e);
    SchedulerServes(c, s, a);
    HandedKeeps(c, s, a);
    InvSettled(c, s);
    var h, s' := Handed(c, s, a), Step(c, s, a);
    hide Inv, Handed, Step, PassesScheduler, Schedules;
    SleepersStay(c, h, s', t);
    forall x | x in s.waiting ensures x in h.threads && s'.threads[x] == h.threads[x] {
      SleepersStay(c, h, s', x);
    }
  }

  lemma LockHands(c: Config, s: State, m: int, e: int)
    requires Enabled(s, Lock(m, e)) && m in s.mutexes && s.mutexes[m].locked && s.mutexes[m].owner != s.running
    ensures var h := Handed(c, s, Lock(m, e));
            && Sleeps(s, h, s.running.value, e) && h.threads[s.running.value].blockedFrom == Some(m)
            && h.mutexes == s.mutexes[m := s.mutexes[m].(queue := s.mutexes[m].queue + [s.running.value])]
            && forall x :: x in s.threads && x != s.running.value ==> h.threads[x] == s.threads[x]
  {
  }

  // What worker_mutex_lock does, by the state of the mutex.
  lemma LockCases(c: Config, s: State, m: int, e: int)
    requires Inv(c, s) && Enabled(s, Lock(m, e))
    ensures var s', t := Step(c, s, Lock(m, e)), s.running.value;
            if m !in s.mutexes || s.mutexes[m].owner == Some(t) then s' == s
            else if !s.mutexes[m].locked then Takes(s, s', m, t)
            else BlocksOn(s, s', m, t, e)
  {
    if m in s.mutexes && !s.mutexes[m].locked {
      LockTakes(c, s, m, e);
    } else if m in s.mutexes && s.mutexes[m].owner != s.running {
      LockBlocks(c, s, m, e);
    }
    hide Placed, Queued, Settled, Waiters, Joins, Takes, BlocksOn, Reschedule;
  }

  // A new mutex is free, with nobody waiting.
  lemma NewMutexIsFree(c: Config, s: State, m: int)
    requires Inv(c, s) && Enabled(s, MutexInit(m))
    ensures var s' := Step(c, s, MutexInit(m));
            && m !in s.mutexes && m in s'.mutexes
            && !s'.mutexes[m].locked && s'.mutexes[m].owner == None && s'.mutexes[m].queue == []
            && s' == s.(mutexes := s.mutexes[m := s'.mutexes[m]])
  {
  }

  // The owner's unlock frees the mutex and wakes its waiters in order; any other call
  // changes nothing.
  lemma UnlockCases(c: Config, s: State, m: int)
    requires Inv(c, s) && Enabled(s, Unlock(m))
    ensures var s' := Step(c, s, Unlock(m));
            if Holds(s, m, s.running.value)
            then && Woken(s, s', s.mutexes[m].queue) && m in s'.mutexes
                 && !s'.mutexes[m].locked && s'.mutexes[m].owner == None && s'.mutexes[m].queue == []
                 && s'.mutexes == s.mutexes[m := s'.mutexes[m]]
            else s' == s
  {
    if Holds(s, m, s.running.value) {
      UnlockWakesAll(c, s, m);
    }
    hide Inv, WakeAll;
  }

  // ---------- create ----------

  // A new thread, with an id that was never used, comes last in level 0.
  lemma CreateAppends(c: Config, s: State)
    requires Inv(c, s) && Enabled(s, Create)
    ensures var s' := Step(c, s, Create);
            && s.count !in s.threads && s.count in s'.threads && s'.count == s.count + 1
            && s'.threads[s.count] == Thread(0, READY, None, None, 0)
            && s' == s.(count := s'.count, threads := s.threads[s.count := s'.threads[s.count]],
                        ready := s.ready[0 := s.ready[0] + [s.count]])
  {
  }
}
