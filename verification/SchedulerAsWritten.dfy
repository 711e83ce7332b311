/** What the scheduler does where its text departs from its evident intent, and when
    that makes a difference. */
module SchedulerAsWritten {
  import opened Options
  import opened Queues
  import opened SchedulerModel
  import opened SchedulerProofs
  import opened SchedulerRuns

  // ---------- the demotion test ----------

  // The test asks for a priority beyond the last level, so it can only succeed where
  // it would lead out of the table; the intended test succeeds in all other cases.
  lemma DemotionReadings(c: Config, priority: int)
    requires 0 <= priority < c.levels
    ensures !MayDemote(c.(demotion := Written), priority)
    ensures MayDemote(c.(demotion := Intended), priority) <==> priority + 1 < c.levels
  {
  }

  ghost predicate AllFront(s: State) {
    |s.ready| > 0 && forall t :: t in s.threads ==> s.threads[t].priority == 0
  }

  lemma {:induction false} WakeAllFrontOnly(s: State, ts: seq<int>)
    requires AllFront(s)
    ensures AllFront(WakeAll(s, ts))
    decreases |ts|
  {
    if ts == [] {
    } else {
      WakeAllFrontOnly(Wake(s, ts[0]), ts[1..]);
    }
  }

  lemma HandedFront(c: Config, s: State, a: Action)
    requires c.demotion == Written && c.levels >= 1
    requires Enabled(s, a) && Schedules(c, s, a) && AllFront(s)
    ensures AllFront(Handed(c, s, a))
    ensures Handed(c, s, a) == Handed(c.(policy := RoundRobin), s, a)
  {
    var t := s.running.value;
    assert Demoted(c, Leave(s, 0).threads[t]) == Leave(s, 0).threads[t];
  }

  lemma QueuedPriority(s: State, l: int, t: int)
    requires Queued(s) && 0 <= l < |s.ready| && t in s.ready[l]
    ensures t in s.threads && s.threads[t].priority == l
  {
  }

  // With everything in front a boost changes nothing.
  lemma BoostIdle(c: Config, s: State)
    requires Inv(c, s) && AllFront(s)
    ensures Boost(s) == s
  {
    forall l | 0 < l < |s.ready| ensures s.ready[l] == [] {
      if s.ready[l] != [] {
        QueuedPriority(s, l, s.ready[l][0]);
      }
    }
    FlatEmpty(s.ready[1..]);
    assert Flat(s.ready) == s.ready[0];
    assert Boost(s).ready == s.ready;
    forall t | t in s.threads ensures Boost(s).threads[t] == s.threads[t] {
      assert s.threads[t].priority == 0;
    }
    assert Boost(s).threads == s.threads;
  }

  lemma DispatchCounter(s: State, n: int)
    ensures Dispatch(s.(cycles := n)) == Dispatch(s).(cycles := n)
  {
  }

  lemma DispatchFront(s: State)
    requires AllFront(s)
    ensures AllFront(Dispatch(s))
  {
  }

  lemma RescheduleFrontOnly(c: Config, s: State)
    requires Inv(c, s) && s.running == None && AllFront(s)
    ensures AllFront(Reschedule(c, s))
    ensures Reschedule(c, s).(cycles := 0) == Reschedule(c.(policy := RoundRobin), s).(cycles := 0)
  {
    BoostIdle(c, s);
    var n := Cycle(c, s).cycles;
    assert Cycle(c, s) == s.(cycles := n);
    DispatchCounter(s, n);
    DispatchFront(s);
    hide Inv, Cycle, Dispatch;
    assert Cycle(c.(policy := RoundRobin), s) == s by { CycleRoundRobin(c.(policy := RoundRobin), s); }
  }

  lemma CycleRoundRobin(c: Config, s: State)
    requires c.policy == RoundRobin
    ensures Cycle(c, s) == s
  {
  }

  lemma StepFrontOnly(c: Config, s: State, a: Action)
    requires c.demotion == Written && Inv(c, s) && Enabled(s, a) && AllFront(s)
    ensures AllFront(Step(c, s, a))
    ensures Step(c, s, a).(cycles := 0) == Step(c.(policy := RoundRobin), s, a).(cycles := 0)
  {
    var rr := c.(policy := RoundRobin);
    if Schedules(c, s, a) {
      HandedFront(c, s, a);
      HandedKeeps(c, s, a);
      HandedKeeps(rr, s, a);
      hide Step, Handed, Inv;
      RescheduleFrontOnly(c, Handed(c, s, a));
    } else if a.Unlock? && a.m in s.mutexes {
      WakeAllFrontOnly(s.(mutexes := s.mutexes[a.m := Mutex(false, None, [])]), s.mutexes[a.m].queue);
    }
  }

  // The cycle counter only matters to the multi-level policy.
  lemma {:induction false} WakeAllCounter(s: State, ts: seq<int>, n: int)
    ensures WakeAll(s.(cycles := n), ts) == WakeAll(s, ts).(cycles := n)
    decreases |ts|
  {
    if ts == [] {
    } else {
      WakeAllCounter(Wake(s, ts[0]), ts[1..], n);
    }
  }

  lemma HandedCounter(c: Config, s: State, a: Action, n: int)
    requires Enabled(s, a) && Schedules(c, s, a)
    ensures Enabled(s.(cycles := n), a) && Schedules(c, s.(cycles := n), a)
    ensures Handed(c, s.(cycles := n), a) == Handed(c, s, a).(cycles := n)
  {
    match a
    case Yield(e) =>
    case Exit(e) => ExitedCounter(s, e, n);
    case Join(t, e) =>
    case Lock(m, e) =>
  }

  lemma ExitedCounter(s: State, e: int, n: int)
    requires s.running.Some? && s.running.value in s.threads
    ensures Exited(s.(cycles := n), e) == Exited(s, e).(cycles := n)
  {
    var t := s.running.value;
    var s1 := Leave(s, e);
    assert Leave(s.(cycles := n), e) == s1.(cycles := n);
    hide Leave, Append;
    assert s.threads[t].joiner.Some? ==> Wake(s1.(cycles := n), s.threads[t].joiner.value) == Wake(s1, s.threads[t].joiner.value).(cycles := n) by {
      if s.threads[t].joiner.Some? { WakeCounter(s1, s.threads[t].joiner.value, n); }
    }
  }

  lemma WakeCounter(s: State, t: int, n: int)
    ensures Wake(s.(cycles := n), t) == Wake(s, t).(cycles := n)
  {
  }

  lemma RoundRobinCounter(c: Config, s: State, a: Action, n: int)
    requires c.policy == RoundRobin && Inv(c, s) && Inv(c, s.(cycles := n)) && Enabled(s, a)
    ensures Enabled(s.(cycles := n), a)
    ensures Step(c, s.(cycles := n), a) == Step(c, s, a).(cycles := n)
  {
    if Schedules(c, s, a) {
      HandedCounter(c, s, a, n);
      HandedKeeps(c, s, a);
      HandedKeeps(c, s.(cycles := n), a);
      hide Step, Handed, Inv, Schedules;
      var s1 := Handed(c, s, a);
      CycleRoundRobin(c, s1);
      CycleRoundRobin(c, s1.(cycles := n));
      DispatchCounter(s1, n);
      hide Dispatch, Cycle;
    } else if a.Unlock? && a.m in s.mutexes {
      hide Inv;
      WakeAllCounter(s.(mutexes := s.mutexes[a.m := Mutex(false, None, [])]), s.mutexes[a.m].queue, n);
    } else {
      hide Inv;
    }
  }

  lemma InvCounter(c: Config, s: State)
    requires Inv(c, s)
    ensures Inv(c.(policy := RoundRobin), s) && Inv(c.(policy := RoundRobin), s.(cycles := 0))
  {
    FrameCycles(s, 0);
    hide Placed, Queued, Settled, Sleepers;
  }

  // As written the multi-level scheduler never demotes anybody: every run of it is,
  // state by state, the round robin run of the same actions. From the first thread on
  // all threads keep priority 0.
  lemma {:induction false} MlfqAsWrittenIsRoundRobin(c: Config, s: State, actions: seq<Action>)
    requires c.demotion == Written && Inv(c, s) && AllFront(s) && Runs(c, s, actions)
    ensures var rr, s0 := c.(policy := RoundRobin), s.(cycles := 0);
            && Runs(rr, s0, actions)
            && End(c, s, actions).(cycles := 0) == End(rr, s0, actions)
    ensures AllFront(End(c, s, actions))
    decreases |actions|
  {
    var rr, s0 := c.(policy := RoundRobin), s.(cycles := 0);
    if actions == [] {
    } else {
      var a := actions[0];
      StepFrontOnly(c, s, a);
      StepKeeps(c, s, a);
      InvCounter(c, s);
      RoundRobinCounter(rr, s, a, 0);
      hide Inv, Step, AllFront, Enabled;
      MlfqAsWrittenIsRoundRobin(c, Step(c, s, a), actions[1..]);
    }
  }

  // In particular so is every run from the start.
  lemma MlfqAsWrittenFromStart(c: Config, actions: seq<Action>)
    requires c.demotion == Written && c.levels >= 1 && Runs(c, Init(c), actions)
    ensures var rr := c.(policy := RoundRobin);
            Runs(rr, Init(rr), actions) && End(c, Init(c), actions).(cycles := 0) == End(rr, Init(rr), actions)
  {
    assert Init(c.(policy := RoundRobin)).ready == Init(c).ready;
    assert Init(c.(policy := RoundRobin)) == Init(c).(cycles := 0);
    assert AllFront(Init(c));
    InitKeeps(c);
    hide Init, Inv, AllFront;
    MlfqAsWrittenIsRoundRobin(c, Init(c), actions);
  }

  // ---------- join ----------

  // Joining a live thread other than oneself waits for it unless somebody with a
  // positive id joined it before, or (as written) the thread happens to be asleep.
  lemma JoinWaits(c: Config, s: State, target: int, e: int)
    requires Inv(c, s) && Enabled(s, Join(target, e)) && target in s.threads && s.running != Some(target)
    ensures Schedules(c, s, Join(target, e)) <==>
              && !(s.threads[target].joiner.Some? && s.threads[target].joiner.value > 0)
              && (c.join == Intended || s.threads[target].status == READY)
  {
    Partition(c, s, target);
    FlatMember(s.ready, target);
    if target in Flat(s.ready) {
      var l :| 0 <= l < |s.ready| && target in s.ready[l];
    }
  }

  // The guard against a second join does not recognise the main thread, whose id is 0:
  // of the steps of other threads exactly a later join of the same target takes a
  // registered joiner away, and only the main thread.
  lemma JoinerDropped(c: Config, s: State, a: Action, target: int)
    requires Inv(c, s) && Enabled(s, a)
    requires target in s.threads && s.threads[target].joiner.Some? && s.running != Some(target)
    ensures target in Step(c, s, a).threads
    ensures Step(c, s, a).threads[target].joiner != s.threads[target].joiner <==>
              && a.Join? && a.target == target && Joinable(c, s, target)
              && s.threads[target].joiner == Some(0)
  {
    assert Joiners(s.threads)[target] == s.threads[target].joiner;
    PlacedOnce(s, None, s.threads[target].joiner.value);
    PlacedOnce(s, None, s.running.value);
    if Schedules(c, s, a) {
      HandedKeeps(c, s, a);
      HandedJoiner(c, s, a, target);
      hide Inv, Handed, Step;
      RescheduleLinks(c, Handed(c, s, a), target);
    } else if a.Unlock? && a.m in s.mutexes {
      WakeAllLinks(s.(mutexes := s.mutexes[a.m := Mutex(false, None, [])]), s.mutexes[a.m].queue, target);
    }
  }

  lemma HandedJoiner(c: Config, s: State, a: Action, target: int)
    requires Enabled(s, a) && Schedules(c, s, a) && target in s.threads && s.running != Some(target)
    ensures target in Handed(c, s, a).threads
    ensures Handed(c, s, a).threads[target].joiner ==
            if a.Join? && a.target == target then s.running else s.threads[target].joiner
  {
  }

  // The scheduler proper and waking change no joiner and no wish for a mutex.
  ghost predicate SameLinks(s: State, s': State, t: int) {
    && (t in s.threads <==> t in s'.threads)
    && (t in s.threads ==>
          s'.threads[t].joiner == s.threads[t].joiner && s'.threads[t].blockedFrom == s.threads[t].blockedFrom)
  }

  lemma RescheduleLinks(c: Config, s: State, t: int)
    ensures SameLinks(s, Reschedule(c, s), t) && Reschedule(c, s).waiting == s.waiting
  {
  }

  lemma WakeLinks(s: State, j: int, t: int)
    ensures SameLinks(s, Wake(s, j), t)
    ensures t != j && t in s.waiting ==> t in Wake(s, j).waiting
  {
    WithoutOther(s.waiting, j, t);
    hide Without;
  }

  lemma WithoutOther(q: seq<int>, j: int, t: int)
    ensures t != j && t in q ==> t in Without(q, j)
  {
    if t != j && j in q && t in q {
      assert t in multiset(Without(q, j));
    }
  }

  lemma {:induction false} WakeAllLinks(s: State, ts: seq<int>, t: int)
    ensures SameLinks(s, WakeAll(s, ts), t)
    ensures t !in ts && t in s.waiting ==> t in WakeAll(s, ts).waiting
    decreases |ts|
  {
    if ts == [] {
    } else {
      WakeLinks(s, ts[0], t);
      hide Wake;
      WakeAllLinks(Wake(s, ts[0]), ts[1..], t);
    }
  }

  // A sleeper whom no unlock and no exit will wake.
  ghost predicate Lost(s: State, t: int) {
    && t in s.waiting && t in s.threads && s.threads[t].blockedFrom == None
    && forall x :: x in s.threads ==> s.threads[x].joiner != Some(t)
  }

  lemma RescheduleLost(c: Config, s: State, t: int)
    requires Lost(s, t)
    ensures Lost(Reschedule(c, s), t)
  {
    forall x | x in Reschedule(c, s).threads ensures Reschedule(c, s).threads[x].joiner != Some(t) {
      RescheduleLinks(c, s, x);
    }
    RescheduleLinks(c, s, t);
    hide Reschedule;
  }

  lemma WakeLost(s: State, j: int, t: int)
    requires Lost(s, t) && t != j
    ensures Lost(Wake(s, j), t)
  {
    forall x | x in Wake(s, j).threads ensures Wake(s, j).threads[x].joiner != Some(t) {
      WakeLinks(s, j, x);
    }
    WakeLinks(s, j, t);
    hide Wake;
  }

  lemma {:induction false} WakeAllLost(s: State, ts: seq<int>, t: int)
    requires Lost(s, t) && t !in ts
    ensures Lost(WakeAll(s, ts), t)
    decreases |ts|
  {
    if ts == [] {
    } else {
      WakeLost(s, ts[0], t);
      hide Wake, Lost;
      WakeAllLost(Wake(s, ts[0]), ts[1..], t);
    }
  }

  lemma HandedLost(c: Config, s: State, a: Action, t: int)
    requires Enabled(s, a) && Schedules(c, s, a) && Lost(s, t) && s.running != Some(t)
    ensures Lost(Handed(c, s, a), t)
  {
    if a.Exit? {
      var r := s.running.value;
      var s1 := Leave(s, a.elapsed);
      assert Lost(s1, t);
      if s.threads[r].joiner.Some? {
        WakeLost(s1, s.threads[r].joiner.value, t);
        hide Wake;
      }
    }
  }

  lemma StepLost(c: Config, s: State, a: Action, t: int)
    requires Inv(c, s) && Enabled(s, a) && Lost(s, t)
    ensures s.running != Some(t) && Lost(Step(c, s, a), t)
  {
    PlacedOnce(s, None, t);
    assert Blocks(s.threads)[t] == None;
    if Schedules(c, s, a) {
      HandedKeeps(c, s, a);
      HandedLost(c, s, a, t);
      hide Inv, Handed, Step, Lost;
      RescheduleLost(c, Handed(c, s, a), t);
    } else if a.Unlock? && a.m in s.mutexes {
      var s1 := s.(mutexes := s.mutexes[a.m := Mutex(false, None, [])]);
      assert Lost(s1, t);
      WakeAllLost(s1, s.mutexes[a.m].queue, t);
    }
  }

  // Once lost, a thread stays so over every run, and it never runs again.
  lemma {:induction false} LostForever(c: Config, s: State, actions: seq<Action>, t: int)
    requires Inv(c, s) && Lost(s, t) && Runs(c, s, actions)
    ensures Lost(End(c, s, actions), t) && !Dispatched(c, s, actions, t)
    decreases |actions|
  {
    if actions == [] {
      PlacedOnce(s, None, t);
    } else {
      StepLost(c, s, actions[0], t);
      StepKeeps(c, s, actions[0]);
      hide Inv, Step, Lost, Enabled;
      LostForever(c, Step(c, s, actions[0]), actions[1..], t);
    }
  }

  // Whoever joins the target of the main thread a second time leaves the main thread
  // asleep over every run.
  lemma SecondJoinLosesMain(c: Config, s: State, target: int, e: int, actions: seq<Action>)
    requires Inv(c, s) && Enabled(s, Join(target, e)) && Schedules(c, s, Join(target, e))
    requires s.threads[target].joiner == Some(0) && Runs(c, Step(c, s, Join(target, e)), actions)
    ensures Lost(Step(c, s, Join(target, e)), 0)
    ensures !Dispatched(c, Step(c, s, Join(target, e)), actions, 0)
  {
    RegisterLoses(c, s, target);
    var s1 := FallAsleep(Register(s, target), e);
    assert Lost(s1, 0);
    RescheduleLost(c, s1, 0);
    StepKeeps(c, s, Join(target, e));
    hide Inv, Lost, Reschedule, FallAsleep;
    LostForever(c, Step(c, s, Join(target, e)), actions, 0);
  }

  lemma RegisterLoses(c: Config, s: State, target: int)
    requires Inv(c, s) && s.running.Some? && target in s.threads && s.threads[target].joiner == Some(0)
    ensures s.running != Some(0) && Lost(Register(s, target), 0)
  {
    assert Joiners(s.threads)[target] == Some(0);
    PlacedOnce(s, None, 0);
    assert Blocks(s.threads)[0] == s.threads[0].blockedFrom;
    forall x | x in s.threads && x != target ensures s.threads[x].joiner != Some(0) {
      assert Joiners(s.threads)[x] == s.threads[x].joiner;
    }
  }

  // The shipped round robin scheduler.
  const SHIPPED := Config(RoundRobin, 1, 30, 20, Written, Written)

  // The main thread creates two threads and joins the first; that one yields, and the
  // second joins it as well.
  const TWO_JOINS := [Create, Create, Join(1, 0), Yield(0), Join(1, 0)]

  const FRESH := Thread(0, READY, None, None, 0)

  // Its states after the two creations, the first join, the yield and the second join.
  function TwoJoinsAt(k: nat): State {
    var main, asleep := FRESH.(status := RUNNING), FRESH.(status := BLOCKED);
    if k == 0 then
      State(map[0 := main, 1 := FRESH, 2 := FRESH], [[1, 2]], [], Some(0), map[], 0, 3)
    else if k == 1 then
      State(map[0 := asleep, 1 := main.(joiner := Some(0)), 2 := FRESH], [[2]], [0], Some(1), map[], 0, 3)
    else if k == 2 then
      State(map[0 := asleep, 1 := FRESH.(joiner := Some(0)), 2 := main], [[1]], [0], Some(2), map[], 0, 3)
    else
      State(map[0 := asleep, 1 := main.(joiner := Some(2)), 2 := asleep], [[]], [0, 2], Some(1), map[], 0, 3)
  }

  lemma FirstCreated()
    ensures Enabled(Init(SHIPPED), Create)
    ensures Step(SHIPPED, Init(SHIPPED), Create) ==
            State(map[0 := FRESH.(status := RUNNING), 1 := FRESH], [[1]], [], Some(0), map[], 0, 2)
  {
    var s := Init(SHIPPED);
    assert s.ready == [[]];
    assert [] + [1] == [1];
    assert Step(SHIPPED, s, Create).ready == [[1]];
  }

  lemma SecondCreated()
    ensures var s := State(map[0 := FRESH.(status := RUNNING), 1 := FRESH], [[1]], [], Some(0), map[], 0, 2);
            Enabled(s, Create) && Step(SHIPPED, s, Create) == TwoJoinsAt(0)
  {
    var s := State(map[0 := FRESH.(status := RUNNING), 1 := FRESH], [[1]], [], Some(0), map[], 0, 2);
    assert [1] + [2] == [1, 2];
    assert Step(SHIPPED, s, Create).ready == [[1, 2]];
  }

  lemma FirstJoin()
    ensures Enabled(TwoJoinsAt(0), Join(1, 0)) && Step(SHIPPED, TwoJoinsAt(0), Join(1, 0)) == TwoJoinsAt(1)
  {
    assert [1, 2][1..] == [2];
    assert [[1, 2]][0 := [2]] == [[2]];
    assert Flat([[1, 2]]) == [1, 2];
  }

  lemma FirstYields()
    ensures Enabled(TwoJoinsAt(1), Yield(0)) && Step(SHIPPED, TwoJoinsAt(1), Yield(0)) == TwoJoinsAt(2)
  {
    assert [2] + [1] == [2, 1] && [2, 1][1..] == [1];
    assert [[2]][0 := [2] + [1]] == [[2, 1]] && [[2, 1]][0 := [1]] == [[1]];
  }

  lemma SecondJoin()
    ensures Enabled(TwoJoinsAt(2), Join(1, 0)) && Step(SHIPPED, TwoJoinsAt(2), Join(1, 0)) == TwoJoinsAt(3)
    ensures Lost(TwoJoinsAt(3), 0)
  {
    assert [1][1..] == [];
    assert [[1]][0 := []] == [[]];
    assert Flat([[1]]) == [1];
  }

  lemma MainIsLost()
    ensures Runs(SHIPPED, Init(SHIPPED), TWO_JOINS)
    ensures Lost(End(SHIPPED, Init(SHIPPED), TWO_JOINS), 0)
  {
    hide Step, Lost, TwoJoinsAt, Enabled, Runs, End, Init;
    FirstCreated();
    SecondCreated();
    FirstJoin();
    FirstYields();
    SecondJoin();
    Start(SHIPPED, TwoJoinsAt(3));
    Before(SHIPPED, TwoJoinsAt(2), [Join(1, 0)], []);
    Before(SHIPPED, TwoJoinsAt(1), [Yield(0), Join(1, 0)], [Join(1, 0)]);
    Before(SHIPPED, TwoJoinsAt(0), [Join(1, 0), Yield(0), Join(1, 0)], [Yield(0), Join(1, 0)]);
    var s, later := Step(SHIPPED, Init(SHIPPED), Create), [Create, Join(1, 0), Yield(0), Join(1, 0)];
    Before(SHIPPED, s, later, [Join(1, 0), Yield(0), Join(1, 0)]);
    Before(SHIPPED, Init(SHIPPED), TWO_JOINS, later);
  }

  lemma Start(c: Config, s: State)
    ensures Runs(c, s, []) && End(c, s, []) == s
  {
  }

  lemma Before(c: Config, s: State, actions: seq<Action>, rest: seq<Action>)
    requires actions != [] && actions[1..] == rest
    requires Enabled(s, actions[0]) && Runs(c, Step(c, s, actions[0]), rest)
    ensures Runs(c, s, actions) && End(c, s, actions) == End(c, Step(c, s, actions[0]), rest)
  {
  }

  // ---------- nothing ready ----------

  // When no thread is ready the source makes the main thread run regardless.
  function Forced(s: State): State {
    s.(running := Some(0),
       threads := if 0 in s.threads then s.threads[0 := s.threads[0].(status := RUNNING)] else s.threads)
  }

  // That never yields a proper state: the main thread is asleep or has exited.
  lemma ForcingMainBreaksPartition(c: Config, s: State)
    requires Inv(c, s) && s.running == None && forall l :: 0 <= l < |s.ready| ==> s.ready[l] == []
    ensures 0 in s.threads ==> 0 in s.waiting && s.threads[0].status == BLOCKED
    ensures !Inv(c, Forced(s))
  {
    FlatEmpty(s.ready);
    PlacedOnce(s, None, 0);
    if 0 in s.threads && Inv(c, Forced(s)) {
      PlacedOnce(Forced(s), None, 0);
    }
  }
}
