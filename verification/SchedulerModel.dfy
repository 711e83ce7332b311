/** The thread scheduler as a transition system. Every library call and every timer
    tick is one atomic step; the time a thread spent on the processor is an input of
    the steps that enter the scheduler. */
module SchedulerModel {
  import opened Options
  import opened Queues

  datatype Status = RUNNING | READY | BLOCKED

  // joiner: the thread waiting for this one to exit (waiting_thread).
  // blockedFrom: the mutex this thread still has to acquire (blocked_from_mutex).
  datatype Thread = Thread(priority: int, status: Status, joiner: Option<int>, blockedFrom: Option<int>, cpu: int)

  datatype Mutex = Mutex(locked: bool, owner: Option<int>, queue: seq<int>)

  // ready[l] is the run queue of level l; round robin uses level 0 only. Exited
  // threads are freed and disappear from threads.
  datatype State = State(
    threads: map<int, Thread>,
    ready: seq<seq<int>>,
    waiting: seq<int>,
    running: Option<int>,
    mutexes: map<int, Mutex>,
    cycles: int,
    count: int)

  datatype Policy = RoundRobin | Mlfq

  // Two tests of the source do not say what they are for; the model carries both
  // readings of each.
  datatype Reading = Written | Intended

  datatype Config = Config(policy: Policy, levels: int, boost: int, slice: int, demotion: Reading, join: Reading)

  datatype Action =
    | Create
    | Yield(elapsed: int)
    | Exit(elapsed: int)
    | Join(target: int, elapsed: int)
    | MutexInit(m: int)
    | Lock(m: int, elapsed: int)
    | Unlock(m: int)

  // ---------- queue operations ----------

  function Flat(queues: seq<seq<int>>): seq<int> {
    if queues == [] then [] else queues[0] + Flat(queues[1..])
  }

  // Make t ready at the end of the queue of its own priority.
  function Append(s: State, t: int): State
    requires t in s.threads && 0 <= s.threads[t].priority < |s.ready|
  {
    var p := s.threads[t].priority;
    s.(threads := s.threads[t := s.threads[t].(status := READY)],
       ready := s.ready[p := s.ready[p] + [t]])
  }

  // Take t off the waiting queue and make it ready; a thread that is not there is skipped.
  function Wake(s: State, t: int): State {
    if t in s.waiting && t in s.threads && 0 <= s.threads[t].priority < |s.ready| then
      Append(s.(waiting := Without(s.waiting, t)), t)
    else s
  }

  function WakeAll(s: State, ts: seq<int>): State
    decreases |ts|
  {
    if ts == [] then s else WakeAll(Wake(s, ts[0]), ts[1..])
  }

  // ---------- entering the scheduler ----------

  predicate MayDemote(c: Config, priority: int) {
    match c.demotion
    case Written => priority > c.levels - 1
    case Intended => priority < c.levels - 1
  }

  function Demoted(c: Config, t: Thread): Thread {
    if c.policy == Mlfq && t.cpu >= c.slice * (t.priority + 1) && MayDemote(c, t.priority)
    then t.(cpu := 0, priority := t.priority + 1)
    else t
  }

  // The running thread leaves the processor; its time is accounted.
  function Leave(s: State, elapsed: int): State
    requires s.running.Some? && s.running.value in s.threads
  {
    var t := s.running.value;
    s.(running := None, threads := s.threads[t := s.threads[t].(cpu := s.threads[t].cpu + elapsed)])
  }

  function Demote(c: Config, s: State, t: int): State
    requires t in s.threads
  {
    s.(threads := s.threads[t := Demoted(c, s.threads[t])])
  }

  // Every queue is emptied into level 0, in level order.
  function Boost(s: State): State {
    s.(ready := seq(|s.ready|, l => if l == 0 then Flat(s.ready) else []),
       threads := map t | t in s.threads :: if t in Flat(s.ready) then s.threads[t].(priority := 0) else s.threads[t])
  }

  function Cycle(c: Config, s: State): State {
    if c.policy == RoundRobin then s
    else if s.cycles + 1 >= c.boost then Boost(s).(cycles := 0)
    else s.(cycles := s.cycles + 1)
  }

  function FirstLevel(ready: seq<seq<int>>): (r: Option<int>)
    ensures r.Some? ==> 0 <= r.value < |ready| && ready[r.value] != []
    ensures r.Some? ==> forall l :: 0 <= l < r.value ==> ready[l] == []
    ensures r.None? ==> forall l :: 0 <= l < |ready| ==> ready[l] == []
  {
    if ready == [] then None
    else if ready[0] != [] then Some(0)
    else match FirstLevel(ready[1..])
      case Some(l) => Some(l + 1)
      case None => None
  }

  function Dispatch(s: State): State {
    match FirstLevel(s.ready)
    case None => s
    case Some(l) =>
      var t := s.ready[l][0];
      if t in s.threads then
        s.(ready := s.ready[l := s.ready[l][1..]],
           running := Some(t),
           threads := s.threads[t := s.threads[t].(status := RUNNING)])
      else s
  }

  function Reschedule(c: Config, s: State): State {
    Dispatch(Cycle(c, s))
  }

  // ---------- the steps ----------

  // The running thread leaves for the waiting queue.
  function FallAsleep(s: State, elapsed: int): State
    requires s.running.Some? && s.running.value in s.threads
  {
    var t := s.running.value;
    var s' := Leave(s, elapsed);
    s'.(threads := s'.threads[t := s'.threads[t].(status := BLOCKED)], waiting := s'.waiting + [t])
  }

  function DoCreate(s: State): State
    requires |s.ready| > 0
  {
    Append(s.(threads := s.threads[s.count := Thread(0, READY, None, None, 0)], count := s.count + 1), s.count)
  }

  // The states in which the scheduler proper is entered.
  function Yielded(c: Config, s: State, elapsed: int): State
    requires s.running.Some? && s.running.value in s.threads
  {
    var t := s.running.value;
    var s' := Demote(c, Leave(s, elapsed), t);
    if 0 <= s'.threads[t].priority < |s.ready| then Append(s', t) else s'
  }

  function Exited(s: State, elapsed: int): State
    requires s.running.Some? && s.running.value in s.threads
  {
    var t := s.running.value;
    var s' := Leave(s, elapsed);
    Free(match s.threads[t].joiner case Some(j) => Wake(s', j) case None => s', t)
  }

  function Free(s: State, t: int): State {
    s.(threads := map x | x in s.threads && x != t :: s.threads[x])
  }

  // As written join only looks for its target among the ready threads.
  predicate Joinable(c: Config, s: State, target: int) {
    && target in s.threads
    && (target in Flat(s.ready) || (c.join == Intended && target in s.waiting))
  }

  // The running thread is written down as the joiner of target.
  function Register(s: State, target: int): State
    requires s.running.Some? && target in s.threads
  {
    s.(threads := s.threads[target := s.threads[target].(joiner := Some(s.running.value))])
  }

  function DoJoin(c: Config, s: State, target: int, elapsed: int): State
    requires s.running.Some? && s.running.value in s.threads
  {
    if !Joinable(c, s, target) then s
    else if s.threads[target].joiner.Some? && s.threads[target].joiner.value > 0 then s
    else
      var s' := Register(s, target);
      Reschedule(c, FallAsleep(s', elapsed))
  }

  // The running thread joins the wait queue of mutex m.
  function Enlist(s: State, m: int): State
    requires s.running.Some? && s.running.value in s.threads && m in s.mutexes
  {
    var t := s.running.value;
    s.(mutexes := s.mutexes[m := s.mutexes[m].(queue := s.mutexes[m].queue + [t])],
       threads := s.threads[t := s.threads[t].(blockedFrom := Some(m))])
  }

  // The running thread takes mutex m.
  function Acquire(s: State, m: int): State
    requires s.running.Some? && s.running.value in s.threads && m in s.mutexes
  {
    var t := s.running.value;
    s.(mutexes := s.mutexes[m := s.mutexes[m].(locked := true, owner := Some(t))],
       threads := s.threads[t := s.threads[t].(blockedFrom := None)])
  }

  function DoLock(c: Config, s: State, m: int, elapsed: int): State
    requires s.running.Some? && s.running.value in s.threads
  {
    var t := s.running.value;
    if m !in s.mutexes then s
    else if s.mutexes[m].locked then
      if s.mutexes[m].owner == Some(t) then s
      else
        Reschedule(c, FallAsleep(Enlist(s, m), elapsed))
    else
      Acquire(s, m)
  }

  function DoUnlock(s: State, m: int): State
    requires s.running.Some?
  {
    if m !in s.mutexes || !s.mutexes[m].locked || s.mutexes[m].owner != s.running then s
    else
      WakeAll(s.(mutexes := s.mutexes[m := Mutex(false, None, [])]), s.mutexes[m].queue)
  }

  // A thread that was woken inside worker_mutex_lock can only be preempted or try again.
  predicate Enabled(s: State, a: Action) {
    && s.running.Some? && s.running.value in s.threads && |s.ready| > 0
    && (s.threads[s.running.value].blockedFrom.Some? ==>
          a.Yield? || (a.Lock? && a.m == s.threads[s.running.value].blockedFrom.value))
    && (a.MutexInit? ==> a.m !in s.mutexes)
  }

  function Step(c: Config, s: State, a: Action): State
    requires Enabled(s, a)
  {
    match a
    case Create => DoCreate(s)
    case Yield(e) => Reschedule(c, Yielded(c, s, e))
    case Exit(e) => Reschedule(c, Exited(s, e))
    case Join(t, e) => DoJoin(c, s, t, e)
    case MutexInit(m) => s.(mutexes := s.mutexes[m := Mutex(false, None, [])])
    case Lock(m, e) => DoLock(c, s, m, e)
    case Unlock(m) => DoUnlock(s, m)
  }

  // Whether the step passes through the scheduler.
  predicate Schedules(c: Config, s: State, a: Action)
    requires Enabled(s, a)
  {
    match a
    case Create => false
    case Yield(_) => true
    case Exit(_) => true
    case Join(t, _) => Joinable(c, s, t) && !(s.threads[t].joiner.Some? && s.threads[t].joiner.value > 0)
    case MutexInit(_) => false
    case Lock(m, _) => m in s.mutexes && s.mutexes[m].locked && s.mutexes[m].owner != s.running
    case Unlock(_) => false
  }

  // The state such a step hands to the scheduler.
  function Handed(c: Config, s: State, a: Action): State
    requires Enabled(s, a) && Schedules(c, s, a)
  {
    match a
    case Yield(e) => Yielded(c, s, e)
    case Exit(e) => Exited(s, e)
    case Join(t, e) => FallAsleep(Register(s, t), e)
    case Lock(m, e) => FallAsleep(Enlist(s, m), e)
  }

  // ---------- runs ----------

  predicate Runs(c: Config, s: State, actions: seq<Action>)
    decreases |actions|
  {
    actions == [] || (Enabled(s, actions[0]) && Runs(c, Step(c, s, actions[0]), actions[1..]))
  }

  function End(c: Config, s: State, actions: seq<Action>): State
    requires Runs(c, s, actions)
    decreases |actions|
  {
    if actions == [] then s else End(c, Step(c, s, actions[0]), actions[1..])
  }

  // How often a run passes through the scheduler.
  function Calls(c: Config, s: State, actions: seq<Action>): nat
    requires Runs(c, s, actions)
    decreases |actions|
  {
    if actions == [] then 0
    else (if Schedules(c, s, actions[0]) then 1 else 0) + Calls(c, Step(c, s, actions[0]), actions[1..])
  }

  // Whether t is the running thread in some state of a run.
  predicate Dispatched(c: Config, s: State, actions: seq<Action>, t: int)
    requires Runs(c, s, actions)
    decreases |actions|
  {
    s.running == Some(t) || (actions != [] && Dispatched(c, Step(c, s, actions[0]), actions[1..], t))
  }

  // Whether no state of a run has more than n live threads.
  predicate AtMost(c: Config, s: State, actions: seq<Action>, n: nat)
    requires Runs(c, s, actions)
    decreases |actions|
  {
    |s.threads| <= n && (actions != [] ==> AtMost(c, Step(c, s, actions[0]), actions[1..], n))
  }

  // The state after the first worker_create has registered the calling thread.
  function Init(c: Config): State
    requires c.levels >= 1
  {
    State(map[0 := Thread(0, RUNNING, None, None, 0)], seq(c.levels, _ => []), [], Some(0), map[], 0, 1)
  }
}
