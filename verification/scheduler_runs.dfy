/** Any interleaving of scheduler steps on any number of CPUs: safety, order of waking and the round-robin bound. */
module SchedulerRuns {
  import opened Collections
  import opened Scheduling

  datatype Step =
    | Spawn(t: TaskRef, c: nat, process: Option<nat>)
    | Yield(c: nat)
    | Park(c: nat, q: QueueId)
    | SleepUntil(c: nat, deadline: nat)
    | Wake(q: QueueId)
    | WakeAll(q: QueueId)
    | Tick(c: nat, now: nat)
    | Exit(c: nat)
    | Cleanup(c: nat)
    | MarkExiting(pid: nat)

  predicate Enabled(s: Sched, step: Step) {
    match step
    case Spawn(t, c, _) => t !in s.tasks && c < |s.cpus|
    case Yield(c) => c < |s.cpus|
    case Park(c, q) => Acts(s, c) && !q.Sleeping?
    case SleepUntil(c, _) => Acts(s, c)
    case Wake(q) => !q.Sleeping?
    case WakeAll(q) => !q.Sleeping?
    case Tick(c, _) => c < |s.cpus|
    case Exit(c) => Acts(s, c)
    case Cleanup(c) => c < |s.cpus| && s.cpus[c].current == Some(s.cpus[c].cleanup)
    case MarkExiting(_) => true
  }

  /** What the running task has done to itself when it enters the switch. */
  function BeforeSwitch(s: Sched, step: Step): Sched
    requires Enabled(s, step)
  {
    match step
    case Park(c, q) => Parked(s, c, q)
    case SleepUntil(c, d) => Slept(s, c, d)
    case Exit(c) => Died(s, c)
    case Cleanup(c) => Cleared(s, c)
    case _ => s
  }

  function After(s: Sched, step: Step): Sched
    requires Enabled(s, step)
  {
    match step
    case Spawn(t, c, p) => Spawned(s, t, c, p)
    case Wake(q) => if s.Waiters(q) == [] then s else Woken(s, q)
    case WakeAll(q) => AllWoken(s, q)
    case Tick(c, now) => DueWoken(s, c, now)
    case MarkExiting(pid) => s.(exiting := s.exiting + {pid})
    case Cleanup(c) =>
      var n := FirstDead(s, s.all);
      if n < |s.all| then Reaped(s, n) else Switched(BeforeSwitch(s, step), c)
    case _ => Switched(BeforeSwitch(s, step), step.c)
  }

  lemma BeforeSwitchKeeps(s: Sched, step: Step, c: nat)
    requires Inv(s) && Enabled(s, step) && SwitchesOn(s, step, c)
    ensures c < |s.cpus| && |BeforeSwitch(s, step).cpus| == |s.cpus| && Inv(Left(BeforeSwitch(s, step), c))
  {
    match step
    case Park(_, q) => ParkedKeeps(s, c, q);
    case SleepUntil(_, d) => SleptKeeps(s, c, d);
    case Exit(_) => DiedKeeps(s, c);
    case Cleanup(_) => ClearedKeeps(s, c); LeftKeeps(Cleared(s, c), c);
    case _ => LeftKeeps(s, c);
  }

  /** Every step keeps the invariant. */
  lemma AfterKeeps(s: Sched, step: Step)
    requires Inv(s) && Enabled(s, step)
    ensures Inv(After(s, step))
  {
    match step
    case Spawn(t, c, p) => SpawnedKeeps(s, t, c, p);
    case Wake(q) => if s.Waiters(q) != [] { WokenKeeps(s, q); }
    case WakeAll(q) => WokenFirstKeeps(s, q, |s.Waiters(q)|);
    case Tick(c, now) => WokenFirstKeeps(s, Sleeping(c), Due(s, s.Waiters(Sleeping(c)), now));
    case MarkExiting(pid) => ExitingKeeps(s, s.exiting + {pid});
    case Cleanup(c) =>
      FirstDeadFinds(s, s.all);
      if FirstDead(s, s.all) < |s.all| {
        ReapedKeeps(s, FirstDead(s, s.all));
      } else {
        BeforeSwitchKeeps(s, step, c);
        SwitchedKeeps(BeforeSwitch(s, step), c);
      }
    case _ =>
      BeforeSwitchKeeps(s, step, step.c);
      SwitchedKeeps(BeforeSwitch(s, step), step.c);
  }

  /** The state the first switch starts from: two tasks on each CPU, nothing current, nothing queued. */
  predicate Booted(s: Sched) {
    && (forall c :: 0 <= c < |s.cpus| ==> BootedCpu(s, c))
    && (forall t :: t in s.tasks ==> BootedTask(s, t))
    && s.waiting == map[] && s.all == []
  }

  predicate BootedCpu(s: Sched, c: nat)
    requires c < |s.cpus|
  {
    var cpu := s.cpus[c];
    && cpu.idle in s.tasks && cpu.cleanup in s.tasks && cpu.idle != cpu.cleanup
       && s.tasks[cpu.idle].cpu == s.tasks[cpu.cleanup].cpu == c
    && cpu.current == None && cpu.runnable == [] && !cpu.needsCleanup
  }

  predicate BootedTask(s: Sched, t: TaskRef)
    requires t in s.tasks
  {
    s.Service(t) && s.tasks[t].state == Ready && s.tasks[t].waitingOn == None
  }

  ghost predicate StepAt(states: seq<Sched>, steps: seq<Step>, i: nat) {
    i < |steps| && i + 1 < |states| && Enabled(states[i], steps[i]) && states[i + 1] == After(states[i], steps[i])
  }

  /** `states` are what one run of `steps` goes through, from the first switch on. */
  ghost predicate Trace(states: seq<Sched>, steps: seq<Step>) {
    |states| == |steps| + 1 && Booted(states[0]) && forall i :: 0 <= i < |steps| ==> StepAt(states, steps, i)
  }

  lemma BootInv(s: Sched)
    requires Booted(s)
    ensures Inv(s)
  {
    forall c | 0 <= c < |s.cpus| ensures CpuOk(s, c) { assert BootedCpu(s, c); }
    forall t | t in s.tasks ensures TaskOk(s, t) { assert BootedTask(s, t); }
    forall q ensures QueueOk(s, q) {}
  }

  // ---------------------------------------------------------------- where every task is

  /** READY is to be in one's own run queue and in no other, RUNNING to be current, BLOCKED to be in the queue waited
      on. */
  ghost predicate WhereItsStateSays(s: Sched, t: TaskRef)
    requires t in s.tasks
  {
    var task := s.tasks[t];
    && task.cpu < |s.cpus|
    && (task.state == Ready <==> t in s.cpus[task.cpu].runnable)
    && (task.state == Running <==> s.cpus[task.cpu].current == Some(t))
    && (forall q :: t in s.Waiters(q) <==> task.state == Blocked && task.waitingOn == Some(q))
    && (task.state == Blocked ==> task.waitingOn.Some?)
    && (task.state == Dead <==>
          t !in s.cpus[task.cpu].runnable && s.cpus[task.cpu].current != Some(t) && forall q :: t !in s.Waiters(q))
    && (forall c :: 0 <= c < |s.cpus| && c != task.cpu ==> t !in s.cpus[c].runnable && s.cpus[c].current != Some(t))
  }

  /** In every state of every run, for every task but the idle and cleanup ones, which are in no queue at all. */
  lemma EveryTaskIsWhereItsStateSays(states: seq<Sched>, steps: seq<Step>, i: nat, t: TaskRef)
    requires Trace(states, steps) && i < |states| && t in states[i].tasks
    ensures !states[i].Service(t) ==> WhereItsStateSays(states[i], t)
    ensures states[i].Service(t) ==>
              (forall c :: 0 <= c < |states[i].cpus| ==> t !in states[i].cpus[c].runnable)
                  && forall q :: t !in states[i].Waiters(q)
    ensures forall c :: 0 <= c < |states[i].cpus| ==> NoDuplicates(states[i].cpus[c].runnable)
    ensures forall q :: NoDuplicates(states[i].Waiters(q))
  {
    TraceInv(states, steps, i);
    var s := states[i];
    assert TaskOk(s, t);
    forall c | 0 <= c < |s.cpus|
      ensures NoDuplicates(s.cpus[c].runnable) && (t in s.cpus[c].runnable <==> RunnableOn(s, c, t))
      ensures s.cpus[c].current == Some(t) ==> CurrentOn(s, c, t)
      ensures !s.Service(t) ==> (s.cpus[c].current == Some(t) <==> CurrentOn(s, c, t))
    {
      NotElsewhere(s, t, c);
    }
    forall q ensures NoDuplicates(s.Waiters(q)) && (t in s.Waiters(q) <==> WaitingIn(s, q, t)) {
      assert QueueOk(s, q);
      NotWaiting(s, t, q);
    }
  }

  lemma {:induction false} TraceInv(states: seq<Sched>, steps: seq<Step>, i: nat)
    requires Trace(states, steps) && i < |states|
    ensures Inv(states[i])
  {
    if i == 0 {
      BootInv(states[0]);
    } else {
      TraceInv(states, steps, i - 1);
      assert StepAt(states, steps, i - 1);
      AfterKeeps(states[i - 1], steps[i - 1]);
    }
  }

  // ---------------------------------------------------------------- the asserts of the switch

  /** The step ends in a switch on `c`. */
  predicate SwitchesOn(s: Sched, step: Step, c: nat) {
    match step
    case Yield(d) => d == c
    case Park(d, _) => d == c
    case SleepUntil(d, _) => d == c
    case Exit(d) => d == c
    case Cleanup(d) => d == c && FirstDead(s, s.all) == |s.all|
    case _ => false
  }

  /** What is asserted of the task switched away from. */
  predicate MayLeave(s: Sched, c: nat, prev: TaskRef)
    requires c < |s.cpus|
  {
    && prev in s.tasks && s.tasks[prev].cpu == c
    && (s.tasks[prev].state == Blocked ==> s.tasks[prev].waitingOn != None)
    && (s.tasks[prev].state == Ready ==> s.tasks[prev].waitingOn == None)
    && (prev != s.cpus[c].idle && prev != s.cpus[c].cleanup && s.tasks[prev].state == Running ==>
          s.tasks[prev].waitingOn == None)
  }

  lemma LeavingAssertsHold(s: Sched, step: Step, c: nat)
    requires Inv(s) && Enabled(s, step) && SwitchesOn(s, step, c)
    ensures var b := BeforeSwitch(s, step);
            c < |b.cpus| && (b.cpus[c].current.Some? ==> MayLeave(b, c, b.cpus[c].current.value))
  {
    BeforeSwitchKeeps(s, step, c);
    if s.cpus[c].current.Some? { assert CpuOk(s, c) && TaskOk(s, s.cpus[c].current.value); }
  }

  /** In every run, at every switch: what is asserted of the previous and of the next task holds. */
  lemma SwitchAssertsHold(states: seq<Sched>, steps: seq<Step>, i: nat, c: nat)
    requires Trace(states, steps) && i < |steps| && SwitchesOn(states[i], steps[i], c)
    ensures c < |states[i].cpus| && Enabled(states[i], steps[i])
    ensures var s := BeforeSwitch(states[i], steps[i]);
            && c < |s.cpus| && (s.cpus[c].current.Some? ==> MayLeave(s, c, s.cpus[c].current.value))
            && var (r, next) := Chosen(Left(s, c), c);
               MayRunNext(r, c, next) && states[i + 1] == Dispatched(r, c, next)
  {
    StepOf(states, steps, i);
    LeavingAssertsHold(states[i], steps[i], c);
    BeforeSwitchKeeps(states[i], steps[i], c);
    SwitchedKeeps(BeforeSwitch(states[i], steps[i]), c);
  }

  /** The cleanup task's asserts: what it frees waits for nothing and is linked in no queue. */
  lemma CleanupAssertsHold(states: seq<Sched>, steps: seq<Step>, i: nat)
    requires Trace(states, steps) && i < |steps| && steps[i].Cleanup?
    requires FirstDead(states[i], states[i].all) < |states[i].all|
    ensures var s := states[i];
            var t := s.all[FirstDead(s, s.all)];
            && t in s.tasks && s.tasks[t].state == Dead && s.tasks[t].waitingOn == None
            && (forall q :: t !in s.Waiters(q))
               && forall d :: 0 <= d < |s.cpus| ==> t !in s.cpus[d].runnable && s.cpus[d].current != Some(t)
  {
    TraceInv(states, steps, i);
    FirstDeadFinds(states[i], states[i].all);
    DeadNowhere(states[i], states[i].all[FirstDead(states[i], states[i].all)]);
  }

  // ---------------------------------------------------------------- who is woken, and in which order

  /** Those of `w` that belong to CPU `d`, in the same order. */
  function OfCpu(s: Sched, w: seq<TaskRef>, d: nat): seq<TaskRef> {
    if w == [] then []
    else if s.Of(w[0]).cpu == d then [w[0]] + OfCpu(s, w[1..], d) else OfCpu(s, w[1..], d)
  }

  lemma {:induction false} OfCpuSame(s: Sched, r: Sched, w: seq<TaskRef>, d: nat)
    requires forall t :: t in w ==> r.Of(t).cpu == s.Of(t).cpu
    ensures OfCpu(s, w, d) == OfCpu(r, w, d)
  {
    if w != [] {
      assert w[0] in w;
      OfCpuSame(s, r, w[1..], d);
    }
  }

  lemma {:induction false} OfCpuAll(s: Sched, w: seq<TaskRef>, c: nat, d: nat)
    requires forall t :: t in w ==> s.Of(t).cpu == c
    ensures OfCpu(s, w, d) == if d == c then w else []
  {
    if w != [] {
      assert w[0] in w;
      OfCpuAll(s, w[1..], c, d);
    }
  }

  /** What waking leaves as it was, and where the woken end up. */
  ghost predicate Appended(s: Sched, r: Sched, q: QueueId, n: nat, d: nat)
    requires n <= |s.Waiters(q)| && d < |s.cpus|
  {
    && d < |r.cpus| && |r.cpus| == |s.cpus|
    && r.cpus[d] == s.cpus[d].(runnable := s.cpus[d].runnable + OfCpu(s, s.Waiters(q)[..n], d))
  }

  ghost predicate Untouched(s: Sched, r: Sched, q: QueueId, n: nat)
    requires n <= |s.Waiters(q)|
  {
    && r.Waiters(q) == s.Waiters(q)[n..]
    && (forall t :: t !in s.Waiters(q)[..n] ==> r.Of(t) == s.Of(t))
    && (forall t :: r.Of(t).cpu == s.Of(t).cpu)
    && forall p :: p != q ==> r.Waiters(p) == s.Waiters(p)
  }

  /** One waiter is woken, and its CPU is not that of anything else that changes. */
  lemma WokenAppends(s: Sched, q: QueueId, d: nat)
    requires Inv(s) && s.Waiters(q) != [] && d < |s.cpus|
    ensures Appended(s, Woken(s, q), q, 1, d) && Untouched(s, Woken(s, q), q, 1)
  {
    HeadWaits(s, q);
    var w, r := s.Waiters(q), Woken(s, q);
    assert w[..1] == [w[0]];
    assert OfCpu(s, [w[0]], d) == if s.Of(w[0]).cpu == d then [w[0]] else [];
    assert s.cpus[d].runnable + [] == s.cpus[d].runnable;
  }

  lemma {:induction false} OfCpuHead(s: Sched, v: seq<TaskRef>, d: nat)
    requires v != []
    ensures OfCpu(s, v, d) == OfCpu(s, v[..1], d) + OfCpu(s, v[1..], d)
  {
    assert v[..1] == [v[0]] && OfCpu(s, v[..1][1..], d) == [];
  }

  lemma AppendedBoth(s: Sched, r: Sched, z: Sched, q: QueueId, n: nat, d: nat)
    requires n < |s.Waiters(q)| && d < |s.cpus| && Appended(s, r, q, 1, d) && Untouched(s, r, q, 1)
    requires n <= |r.Waiters(q)| && Appended(r, z, q, n, d)
    ensures Appended(s, z, q, n + 1, d)
  {
    var w := s.Waiters(q);
    OfCpuSame(s, r, r.Waiters(q)[..n], d);
    assert w[..n + 1][1..] == w[1..][..n] && w[..n + 1][..1] == w[..1];
    OfCpuHead(s, w[..n + 1], d);
    var a, b, e := s.cpus[d].runnable, OfCpu(s, w[..1], d), OfCpu(s, w[1..][..n], d);
    assert (a + b) + e == a + (b + e);
  }

  lemma UntouchedBoth(s: Sched, r: Sched, z: Sched, q: QueueId, n: nat)
    requires n < |s.Waiters(q)| && Untouched(s, r, q, 1) && n <= |r.Waiters(q)| && Untouched(r, z, q, n)
    ensures Untouched(s, z, q, n + 1)
  {
    TakeOne(s.Waiters(q), n);
  }

  lemma TakeOne(w: seq<TaskRef>, n: nat)
    requires n < |w|
    ensures w[1..][n..] == w[n + 1..]
    ensures forall t :: t in w[..n + 1] <==> t in w[..1] || t in w[1..][..n]
  {
    var a, b, whole := w[..1], w[1..][..n], w[..n + 1];
    assert |whole| == |a + b|;
    assert forall i :: 0 <= i < |whole| ==> whole[i] == (a + b)[i];
    assert whole == a + b;
  }

  lemma {:induction false} WokenFirstAppends(s: Sched, q: QueueId, n: nat, d: nat)
    requires Inv(s) && n <= |s.Waiters(q)| && d < |s.cpus|
    ensures Appended(s, WokenFirst(s, q, n), q, n, d) && Untouched(s, WokenFirst(s, q, n), q, n)
    decreases n
  {
    if n == 0 {
      assert s.cpus[d].runnable + OfCpu(s, [], d) == s.cpus[d].runnable;
    } else {
      WokenKeeps(s, q);
      WokenAppends(s, q, d);
      var r := Woken(s, q);
      WokenFirstAppends(r, q, n - 1, d);
      AppendedBoth(s, r, WokenFirst(r, q, n - 1), q, n - 1, d);
      UntouchedBoth(s, r, WokenFirst(r, q, n - 1), q, n - 1);
    }
  }

  /** Waking all: the queue is emptied, and each CPU's waiters go to the end of its run queue in the order they came. */
  lemma WakeAllAppendsInOrder(s: Sched, q: QueueId, d: nat)
    requires Inv(s) && d < |s.cpus|
    ensures AllWoken(s, q).Waiters(q) == [] && Untouched(s, AllWoken(s, q), q, |s.Waiters(q)|)
    ensures d < |AllWoken(s, q).cpus|
    ensures AllWoken(s, q).cpus[d] == s.cpus[d].(runnable := s.cpus[d].runnable + OfCpu(s, s.Waiters(q), d))
  {
    WokenFirstAppends(s, q, |s.Waiters(q)|, d);
    assert s.Waiters(q)[..|s.Waiters(q)|] == s.Waiters(q);
  }

  /** In a queue ordered by deadline the due sleepers are the first ones. */
  lemma {:induction false} DueSplits(s: Sched, w: seq<TaskRef>, now: nat)
    requires Ordered(s, w) && forall t :: t in w ==> t in s.tasks
    ensures forall i :: 0 <= i < |w| ==> (s.Of(w[i]).sleepUntil <= now <==> i < Due(s, w, now))
  {
    if w != [] {
      assert forall i :: 0 < i < |w| ==> InOrder(s, w[0], w[i]);
      forall i | 0 <= i < |w| ensures w[i] in s.tasks { assert w[i] in w; }
      if s.Of(w[0]).sleepUntil <= now {
        forall i, j | 0 <= i < j < |w[1..]| ensures InOrder(s, w[1..][i], w[1..][j]) {
          assert InOrder(s, w[i + 1], w[j + 1]);
        }
        DueSplits(s, w[1..], now);
        forall i | 0 < i < |w| ensures w[i] == w[1..][i - 1] {}
      }
    }
  }

  /** A tick wakes exactly the sleepers whose deadline has come, appended to the run queue in deadline order. */
  lemma TickWakesExactlyTheDue(s: Sched, c: nat, now: nat, d: nat)
    requires Inv(s) && d < |s.cpus|
    ensures var w, r := s.Waiters(Sleeping(c)), DueWoken(s, c, now);
            var n := Due(s, w, now);
            && (forall i :: 0 <= i < |w| ==> (s.Of(w[i]).sleepUntil <= now <==> i < n))
            && d < |r.cpus|
            && r.cpus[d] == s.cpus[d].(runnable := s.cpus[d].runnable + if d == c then w[..n] else [])
            && Untouched(s, r, Sleeping(c), n)
  {
    var q := Sleeping(c);
    var w := s.Waiters(q);
    var n := Due(s, w, now);
    assert QueueOk(s, q);
    forall t | t in w ensures t in s.tasks && s.Of(t).cpu == c { assert WaitingIn(s, q, t); }
    DueSplits(s, w, now);
    WokenFirstAppends(s, q, n, d);
    OfCpuAll(s, w[..n], c, d);
  }

  // ---------------------------------------------------------------- the round-robin bound

  /** Nothing of a task changes but its state. */
  ghost predicate SameButState(s: Sched, r: Sched) {
    && |r.cpus| == |s.cpus| && r.waiting == s.waiting && r.exiting == s.exiting
    && (forall t :: r.Of(t).sleepUntil == s.Of(t).sleepUntil && r.Of(t).process == s.Of(t).process)
  }

  /** Tasks are taken from the front of one run queue, and nothing else changes but states. */
  ghost predicate TakenFrom(s: Sched, r: Sched, c: nat, m: nat)
    requires c < |s.cpus|
  {
    && SameButState(s, r) && m <= |s.cpus[c].runnable| && r.cpus[c].runnable == s.cpus[c].runnable[m..]
    && r.cpus[c].idle == s.cpus[c].idle && r.cpus[c].cleanup == s.cpus[c].cleanup
    && (forall d :: 0 <= d < |s.cpus| && d != c ==> r.cpus[d] == s.cpus[d])
  }

  /** The last one taken is the one picked; those in front of it belong to processes that are exiting. */
  ghost predicate PickedLast(s: Sched, c: nat, next: TaskRef, m: nat)
    requires c < |s.cpus| && m <= |s.cpus[c].runnable|
  {
    var queue := s.cpus[c].runnable;
    || (next == s.cpus[c].idle && m == |queue| && forall i :: 0 <= i < m ==> s.ProcessExiting(queue[i]))
    || (m > 0 && next == queue[m - 1] && forall i :: 0 <= i < m - 1 ==> s.ProcessExiting(queue[i]))
  }

  lemma KilledFirst(s: Sched, r: Sched, c: nat, next: TaskRef, m: nat)
    requires c < |s.cpus| && s.cpus[c].runnable != [] && s.cpus[c].runnable[0] in s.tasks
    requires s.ProcessExiting(s.cpus[c].runnable[0])
    requires TakenFrom(Killed(s, c), r, c, m) && PickedLast(Killed(s, c), c, next, m)
    ensures TakenFrom(s, r, c, m + 1) && PickedLast(s, c, next, m + 1)
  {
    var k, queue := Killed(s, c), s.cpus[c].runnable;
    assert forall i :: 0 < i < |queue| ==> queue[i] == k.cpus[c].runnable[i - 1];
    assert forall t :: k.ProcessExiting(t) == s.ProcessExiting(t);
  }

  lemma {:induction false} PickedTakes(s: Sched, c: nat) returns (m: nat)
    requires Inv(s) && c < |s.cpus|
    ensures TakenFrom(s, Picked(s, c).0, c, m) && PickedLast(s, c, Picked(s, c).1, m)
    decreases |s.cpus[c].runnable|
  {
    var queue := s.cpus[c].runnable;
    m := 0;
    if queue != [] {
      assert CpuOk(s, c) && queue[0] in queue;
      assert RunnableOn(s, c, queue[0]);
      m := 1;
      if s.ProcessExiting(queue[0]) {
        KilledKeeps(s, c);
        m := PickedTakes(Killed(s, c), c);
        KilledFirst(s, Picked(s, c).0, c, Picked(s, c).1, m);
        m := m + 1;
      }
    }
  }

  /** `t` is at most `k` places from the head of the run queue of `c`. */
  ghost predicate Within(s: Sched, c: nat, t: TaskRef, k: int) {
    c < |s.cpus| && exists i :: 0 <= i <= k && i < |s.cpus[c].runnable| && s.cpus[c].runnable[i] == t
  }

  predicate Runs(s: Sched, c: nat, t: TaskRef) {
    c < |s.cpus| && s.cpus[c].current == Some(t)
  }

  lemma PrefixWithin(s: Sched, r: Sched, c: nat, t: TaskRef, k: int)
    requires Within(s, c, t, k) && |r.cpus| == |s.cpus| && s.cpus[c].runnable <= r.cpus[c].runnable
    ensures Within(r, c, t, k)
  {
    var i :| 0 <= i <= k && i < |s.cpus[c].runnable| && s.cpus[c].runnable[i] == t;
    assert r.cpus[c].runnable[i] == t;
  }

  lemma PickMovesUp(l: Sched, c: nat, t: TaskRef, k: int)
    requires Within(l, c, t, k) && Inv(l) && !l.ProcessExiting(t)
    ensures var (r, next) := Picked(l, c); next == t || Within(Dispatched(r, c, next), c, t, k - 1)
  {
    var m := PickedTakes(l, c);
    var queue := l.cpus[c].runnable;
    var (r, next) := Picked(l, c);
    var i :| 0 <= i <= k && i < |queue| && queue[i] == t;
    if i >= m {
      assert CpuOk(l, c);
      assert Dispatched(r, c, next).cpus[c].runnable[i - m] == t;
    }
  }

  /** A switch on `c` that does not choose the cleanup task runs `t` or moves it up by at least one place. */
  lemma SwitchMovesUp(s: Sched, c: nat, t: TaskRef, k: int)
    requires Within(s, c, t, k) && Inv(Left(s, c)) && !s.ProcessExiting(t)
    ensures var r := Switched(s, c);
            Runs(r, c, t) || Within(r, c, t, k - 1)
                || (r.cpus[c].current == Some(r.cpus[c].cleanup) && Within(r, c, t, k))
  {
    var l := Left(s, c);
    PrefixWithin(s, l, c, t, k);
    if l.cpus[c].needsCleanup {
      PrefixWithin(l, Switched(s, c), c, t, k);
    } else {
      assert l.ProcessExiting(t) == s.ProcessExiting(t);
      PickMovesUp(l, c, t, k);
    }
  }

  lemma SwitchElsewhere(s: Sched, c: nat, d: nat)
    requires c < |s.cpus| && d < |s.cpus| && c != d && Inv(Left(s, c))
    ensures |Switched(s, c).cpus| == |s.cpus| && Switched(s, c).cpus[d] == s.cpus[d]
  {
    if !Left(s, c).cpus[c].needsCleanup { var _ := PickedTakes(Left(s, c), c); }
  }

  /** A step that does not switch on `c` puts tasks at the end of its run queue, if it touches the queue at all. */
  lemma OthersAppend(s: Sched, step: Step, c: nat)
    requires Inv(s) && Enabled(s, step) && c < |s.cpus| && !SwitchesOn(s, step, c)
    ensures |After(s, step).cpus| == |s.cpus| && s.cpus[c].runnable <= After(s, step).cpus[c].runnable
  {
    match step
    case Spawn(_, _, _) =>
    case Wake(q) => if s.Waiters(q) != [] { WokenAppends(s, q, c); }
    case WakeAll(q) => WokenFirstAppends(s, q, |s.Waiters(q)|, c);
    case Tick(d, now) => WokenFirstAppends(s, Sleeping(d), Due(s, s.Waiters(Sleeping(d)), now), c);
    case MarkExiting(_) =>
    case _ =>
      if SwitchesOn(s, step, step.c) {
        BeforeSwitchKeeps(s, step, step.c);
        SwitchElsewhere(BeforeSwitch(s, step), step.c, c);
      }
  }

  lemma StepMovesUp(s: Sched, step: Step, c: nat, t: TaskRef, k: int)
    requires Inv(s) && Enabled(s, step) && Within(s, c, t, k) && !s.ProcessExiting(t)
    ensures var r := After(s, step);
            Runs(r, c, t) || Within(r, c, t, if Picks(s, step, c) then k - 1 else k)
  {
    if SwitchesOn(s, step, c) {
      var b := BeforeSwitch(s, step);
      BeforeSwitchKeeps(s, step, c);
      PrefixWithin(s, b, c, t, k);
      SwitchMovesUp(b, c, t, k);
      var r := After(s, step);
      if Within(r, c, t, k - 1) {
        var i :| 0 <= i <= k - 1 && i < |r.cpus[c].runnable| && r.cpus[c].runnable[i] == t;
      }
    } else {
      OthersAppend(s, step, c);
      PrefixWithin(s, After(s, step), c, t, k);
    }
  }

  /** A switch on `c` that does not choose the cleanup task. */
  predicate Picks(s: Sched, step: Step, c: nat)
    requires Enabled(s, step)
  {
    var r := After(s, step);
    SwitchesOn(s, step, c) && c < |r.cpus| && r.cpus[c].current != Some(r.cpus[c].cleanup)
  }

  ghost function CountPicks(states: seq<Sched>, steps: seq<Step>, c: nat, i: nat, j: nat): nat
    requires Trace(states, steps) && i <= j <= |steps|
    decreases j - i
  {
    if i == j then 0
    else
      assert StepAt(states, steps, i);
      (if Picks(states[i], steps[i], c) then 1 else 0) + CountPicks(states, steps, c, i + 1, j)
  }

  ghost predicate RunsBetween(states: seq<Sched>, c: nat, t: TaskRef, i: nat, j: nat) {
    exists m :: i < m <= j && m < |states| && Runs(states[m], c, t)
  }

  /**
   * A task with at most `k` others in front of it is run within `k + 1` picks on its CPU, whatever else
   * happens there or elsewhere in between, unless its process starts to exit.
   */
  lemma {:induction false} RoundRobinBound(states: seq<Sched>, steps: seq<Step>, c: nat, t: TaskRef, k: int, i: nat,
                                           j: nat)
    requires Trace(states, steps) && i <= j <= |steps| && Within(states[i], c, t, k)
    requires forall m :: i <= m < j ==> !states[m].ProcessExiting(t)
    requires CountPicks(states, steps, c, i, j) > k
    ensures RunsBetween(states, c, t, i, j)
    decreases j - i
  {
    TraceInv(states, steps, i);
    if i < j {
      assert StepAt(states, steps, i);
      StepMovesUp(states[i], steps[i], c, t, k);
      if !Runs(states[i + 1], c, t) {
        RoundRobinBound(states, steps, c, t, if Picks(states[i], steps[i], c) then k - 1 else k, i + 1, j);
        var m :| i + 1 < m <= j && m < |states| && Runs(states[m], c, t);
      }
    }
  }

  // ---------------------------------------------------------------- the order of sleepers

  /** `t` is the one that goes to sleep in this step. */
  predicate GoesToSleep(s: Sched, step: Step, t: TaskRef) {
    step.SleepUntil? && Acts(s, step.c) && s.cpus[step.c].current == Some(t)
  }

  /** The last step before `i` in which `t` went to sleep. */
  ghost function SleptAt(states: seq<Sched>, steps: seq<Step>, i: nat, t: TaskRef): (m: int)
    requires i <= |steps| && |states| == |steps| + 1
    ensures m < i
  {
    if i == 0 then -1 else if GoesToSleep(states[i - 1], steps[i - 1], t) then i - 1
        else SleptAt(states, steps, i - 1, t)
  }

  /** An earlier deadline, or the same one and asleep for longer. */
  ghost predicate Precedes(states: seq<Sched>, steps: seq<Step>, i: nat, t: TaskRef, u: TaskRef)
    requires i <= |steps| && |states| == |steps| + 1
  {
    var a, b := states[i].Of(t).sleepUntil, states[i].Of(u).sleepUntil;
    a < b || (a == b && SleptAt(states, steps, i, t) < SleptAt(states, steps, i, u))
  }

  lemma SwitchKeepsSleeper(s: Sched, c: nat, t: TaskRef)
    requires c < |s.cpus| && Inv(Left(s, c))
    ensures Switched(s, c).waiting == s.waiting && Switched(s, c).Of(t).sleepUntil == s.Of(t).sleepUntil
  {
    var l := Left(s, c);
    assert l.Of(t).sleepUntil == s.Of(t).sleepUntil;
    if !l.cpus[c].needsCleanup { var _ := PickedTakes(l, c); }
    var (r, next) := Chosen(l, c);
    assert r.Of(t).sleepUntil == l.Of(t).sleepUntil;
  }

  lemma SwitchKeepsSleepers(s: Sched, c: nat)
    requires c < |s.cpus| && Inv(Left(s, c))
    ensures Switched(s, c).waiting == s.waiting && forall t :: Switched(s, c).Of(t).sleepUntil == s.Of(t).sleepUntil
  {
    forall t ensures Switched(s, c).waiting == s.waiting && Switched(s, c).Of(t).sleepUntil == s.Of(t).sleepUntil {
      SwitchKeepsSleeper(s, c, t);
    }
    SwitchKeepsSleeper(s, c, 0);
  }

  lemma Apart(w: seq<TaskRef>, n: nat)
    requires NoDuplicates(w) && n <= |w|
    ensures forall t :: t in w[n..] ==> t in w && t !in w[..n]
  {
    forall b | n <= b < |w| ensures w[b] !in w[..n] {
      assert forall a :: 0 <= a < n ==> w[..n][a] == w[a] != w[b];
    }
  }

  lemma OtherQueue(s: Sched, q: QueueId, n: nat, p: QueueId)
    requires Inv(s) && n <= |s.Waiters(q)|
    ensures var r := WokenFirst(s, q, n);
            && r.Waiters(q) == s.Waiters(q)[n..] && (forall t :: t !in s.Waiters(q)[..n] ==> r.Of(t) == s.Of(t))
            && (p != q ==> r.Waiters(p) == s.Waiters(p) && forall t :: t in s.Waiters(p) ==> r.Of(t) == s.Of(t))
  {
    if n > 0 {
      HeadWaits(s, q);
      WokenFirstAppends(s, q, n, s.tasks[s.Waiters(q)[0]].cpu);
    }
    forall t | t in s.Waiters(p) && p != q ensures t !in s.Waiters(q)[..n] {
      assert QueueOk(s, p) && WaitingIn(s, p, t);
      NotWaiting(s, t, q);
    }
  }

  /** Across the step, `t` keeps its deadline and does not go to sleep anew. */
  predicate StaysAsleep(s: Sched, step: Step, t: TaskRef)
    requires Enabled(s, step)
  {
    After(s, step).Of(t).sleepUntil == s.Of(t).sleepUntil && !GoesToSleep(s, step, t)
  }

  /** The queue of sleepers of `c` loses `n` from its front. */
  ghost predicate FrontLeaves(s: Sched, step: Step, c: nat, n: nat)
    requires Enabled(s, step)
  {
    var w := s.Waiters(Sleeping(c));
    n <= |w| && After(s, step).Waiters(Sleeping(c)) == w[n..] && forall t :: t in w[n..] ==> StaysAsleep(s, step, t)
  }

  lemma SleeperNotCurrent(s: Sched, step: Step, c: nat, t: TaskRef)
    requires Inv(s) && Enabled(s, step) && t in s.Waiters(Sleeping(c))
    ensures t in s.tasks && !GoesToSleep(s, step, t)
  {
    assert QueueOk(s, Sleeping(c)) && WaitingIn(s, Sleeping(c), t);
    if GoesToSleep(s, step, t) { ActsRunning(s, step.c); }
  }

  lemma SwitchLeaves(s: Sched, step: Step, c: nat, d: nat)
    requires Inv(s) && Enabled(s, step) && !(step.SleepUntil? && step.c == c) && SwitchesOn(s, step, d)
    ensures FrontLeaves(s, step, c, 0)
  {
    var w := s.Waiters(Sleeping(c));
    assert w[0..] == w;
    BeforeSwitchKeeps(s, step, d);
    SwitchKeepsSleepers(BeforeSwitch(s, step), d);
    forall t | t in w ensures StaysAsleep(s, step, t) { SleeperNotCurrent(s, step, c, t); }
  }

  lemma TickLeaves(s: Sched, step: Step, c: nat) returns (n: nat)
    requires Inv(s) && Enabled(s, step) && step.Tick?
    ensures FrontLeaves(s, step, c, n)
  {
    var w, v := s.Waiters(Sleeping(c)), s.Waiters(Sleeping(step.c));
    var due := Due(s, v, step.now);
    n := if step.c == c then due else 0;
    assert QueueOk(s, Sleeping(c)) && w[0..] == w;
    OtherQueue(s, Sleeping(step.c), due, Sleeping(c));
    Apart(w, n);
    forall t | t in w[n..] ensures StaysAsleep(s, step, t) { SleeperNotCurrent(s, step, c, t); }
  }

  lemma OthersLeave(s: Sched, step: Step, c: nat)
    requires Inv(s) && Enabled(s, step)
             && (step.Spawn? || step.Wake? || step.WakeAll? || step.MarkExiting? || step.Cleanup?)
    requires step.Cleanup? ==> FirstDead(s, s.all) < |s.all|
    ensures FrontLeaves(s, step, c, 0)
  {
    var w := s.Waiters(Sleeping(c));
    assert w[0..] == w;
    match step {
      case Spawn(t, _, _) => FreshNowhere(s, t);
      case Wake(q) =>
        if s.Waiters(q) != [] {
          OtherQueue(s, q, 1, Sleeping(c));
          assert WokenFirst(s, q, 1) == Woken(s, q);
        }
      case WakeAll(q) => OtherQueue(s, q, |s.Waiters(q)|, Sleeping(c));
      case Cleanup(_) =>
        FirstDeadFinds(s, s.all);
        DeadNowhere(s, s.all[FirstDead(s, s.all)]);
      case _ =>
    }
    forall t | t in w ensures StaysAsleep(s, step, t) { SleeperNotCurrent(s, step, c, t); }
  }

  /** Only going to sleep adds to a queue of sleepers; every other step leaves it or takes from its front. */
  lemma SleepersAfter(s: Sched, step: Step, c: nat) returns (n: nat)
    requires Inv(s) && Enabled(s, step) && !(step.SleepUntil? && step.c == c)
    ensures FrontLeaves(s, step, c, n)
  {
    n := 0;
    match step
    case Tick(_, _) => n := TickLeaves(s, step, c);
    case Yield(d) => SwitchLeaves(s, step, c, d);
    case Park(d, _) => SwitchLeaves(s, step, c, d);
    case SleepUntil(d, _) => SwitchLeaves(s, step, c, d);
    case Exit(d) => SwitchLeaves(s, step, c, d);
    case Cleanup(d) =>
      if FirstDead(s, s.all) < |s.all| {
        OthersLeave(s, step, c);
      } else {
        SwitchLeaves(s, step, c, d);
      }
    case _ => OthersLeave(s, step, c);
  }

  /** The one that goes to sleep stands behind all deadlines up to its own; the others keep their places and
      deadlines. */
  ghost predicate StandsAt(s: Sched, step: Step, c: nat, i: nat)
    requires Enabled(s, step) && step.SleepUntil? && i < |s.Waiters(Sleeping(c))|
  {
    var w, v := s.Waiters(Sleeping(c)), After(s, step).Waiters(Sleeping(c));
    var n := Earlier(s, w, step.deadline);
    && |v| == |w| + 1 && v[if i < n then i else i + 1] == w[i] && StaysAsleep(s, step, w[i])
    && (if i < n then s.Of(w[i]).sleepUntil <= step.deadline else step.deadline < s.Of(w[i]).sleepUntil)
  }

  lemma DeadlineSide(s: Sched, c: nat, deadline: nat, i: nat)
    requires Inv(s) && i < |s.Waiters(Sleeping(c))|
    ensures var w := s.Waiters(Sleeping(c));
            if i < Earlier(s, w, deadline) then s.Of(w[i]).sleepUntil <= deadline else deadline < s.Of(w[i]).sleepUntil
  {
    var w := s.Waiters(Sleeping(c));
    assert QueueOk(s, Sleeping(c));
    forall t | t in w ensures t in s.tasks { assert WaitingIn(s, Sleeping(c), t); }
    EarlierSplits(s, w, deadline);
  }

  lemma SleepersNow(s: Sched, step: Step, c: nat)
    requires Inv(s) && Enabled(s, step) && step.SleepUntil? && step.c == c
    ensures After(s, step).Waiters(Sleeping(c)) == SleepersWith(s, c, s.cpus[c].current.value, step.deadline)
  {
    BeforeSwitchKeeps(s, step, c);
    SwitchKeepsSleeper(BeforeSwitch(s, step), c, 0);
  }

  lemma PlaceWith(s: Sched, c: nat, t: TaskRef, deadline: nat, i: nat)
    requires i < |s.Waiters(Sleeping(c))|
    ensures var w, v := s.Waiters(Sleeping(c)), SleepersWith(s, c, t, deadline);
            |v| == |w| + 1 && v[if i < Earlier(s, w, deadline) then i else i + 1] == w[i]
  {
  }

  lemma KeepsDeadline(s: Sched, step: Step, c: nat, t: TaskRef)
    requires Inv(s) && Enabled(s, step) && step.SleepUntil? && step.c == c && s.cpus[c].current != Some(t)
    ensures StaysAsleep(s, step, t)
  {
    BeforeSwitchKeeps(s, step, c);
    SwitchKeepsSleeper(BeforeSwitch(s, step), c, t);
  }

  lemma OldSleeper(s: Sched, step: Step, c: nat, i: nat)
    requires Inv(s) && Enabled(s, step) && step.SleepUntil? && step.c == c && i < |s.Waiters(Sleeping(c))|
    ensures StandsAt(s, step, c, i)
  {
    var t := s.Waiters(Sleeping(c))[i];
    DeadlineSide(s, c, step.deadline, i);
    SleeperNotCurrent(s, step, c, t);
    SleepersNow(s, step, c);
    PlaceWith(s, c, s.cpus[c].current.value, step.deadline, i);
    KeepsDeadline(s, step, c, t);
  }

  lemma NewSleeper(s: Sched, step: Step, c: nat)
    requires Inv(s) && Enabled(s, step) && step.SleepUntil? && step.c == c
    ensures var w, r := s.Waiters(Sleeping(c)), After(s, step);
            var n, v := Earlier(s, w, step.deadline), r.Waiters(Sleeping(c));
            && |v| == |w| + 1 && GoesToSleep(s, step, v[n]) && r.Of(v[n]).sleepUntil == step.deadline
  {
    SleepersNow(s, step, c);
    BeforeSwitchKeeps(s, step, c);
    SwitchKeepsSleeper(BeforeSwitch(s, step), c, s.cpus[c].current.value);
  }

  lemma PrecedesStill(states: seq<Sched>, steps: seq<Step>, i: nat, t: TaskRef, u: TaskRef)
    requires i < |steps| && |states| == |steps| + 1 && StepAt(states, steps, i) && Precedes(states, steps, i, t, u)
    requires StaysAsleep(states[i], steps[i], t) && StaysAsleep(states[i], steps[i], u)
    ensures Precedes(states, steps, i + 1, t, u)
  {
  }

  /** The order of deadline, then of arrival. */
  ghost predicate SleepersSorted(states: seq<Sched>, steps: seq<Step>, i: nat, c: nat)
    requires i <= |steps| && |states| == |steps| + 1
  {
    var w := states[i].Waiters(Sleeping(c));
    forall a, b :: 0 <= a < b < |w| ==> Precedes(states, steps, i, w[a], w[b])
  }

  lemma PairAfterSleep(states: seq<Sched>, steps: seq<Step>, i: nat, c: nat, a: nat, b: nat)
    requires i < |steps| && |states| == |steps| + 1 && StepAt(states, steps, i) && Inv(states[i])
    requires steps[i].SleepUntil? && steps[i].c == c && SleepersSorted(states, steps, i, c)
    requires a < b < |states[i + 1].Waiters(Sleeping(c))|
    ensures var v := states[i + 1].Waiters(Sleeping(c)); Precedes(states, steps, i + 1, v[a], v[b])
  {
    var w := states[i].Waiters(Sleeping(c));
    var n := Earlier(states[i], w, steps[i].deadline);
    NewSleeper(states[i], steps[i], c);
    var a', b' := if a > n then a - 1 else a, if b > n then b - 1 else b;
    if a != n { OldSleeper(states[i], steps[i], c, a'); }
    if b != n { OldSleeper(states[i], steps[i], c, b'); }
    if a != n && b != n { PrecedesStill(states, steps, i, w[a'], w[b']); }
  }

  lemma SortedAfterSleep(states: seq<Sched>, steps: seq<Step>, i: nat, c: nat)
    requires i < |steps| && |states| == |steps| + 1 && StepAt(states, steps, i) && Inv(states[i])
    requires steps[i].SleepUntil? && steps[i].c == c && SleepersSorted(states, steps, i, c)
    ensures SleepersSorted(states, steps, i + 1, c)
  {
    var v := states[i + 1].Waiters(Sleeping(c));
    forall a, b | 0 <= a < b < |v| ensures Precedes(states, steps, i + 1, v[a], v[b]) {
      PairAfterSleep(states, steps, i, c, a, b);
    }
  }

  lemma SortedAfterOther(states: seq<Sched>, steps: seq<Step>, i: nat, c: nat)
    requires i < |steps| && |states| == |steps| + 1 && StepAt(states, steps, i) && Inv(states[i])
    requires !(steps[i].SleepUntil? && steps[i].c == c) && SleepersSorted(states, steps, i, c)
    ensures SleepersSorted(states, steps, i + 1, c)
  {
    var n := SleepersAfter(states[i], steps[i], c);
    var w, v := states[i].Waiters(Sleeping(c)), states[i + 1].Waiters(Sleeping(c));
    forall a, b | 0 <= a < b < |v| ensures Precedes(states, steps, i + 1, v[a], v[b]) {
      assert v[a] == w[n + a] && v[b] == w[n + b] && v[a] in v && v[b] in v;
      PrecedesStill(states, steps, i, v[a], v[b]);
    }
  }

  lemma SortedAfterStep(states: seq<Sched>, steps: seq<Step>, i: nat, c: nat)
    requires i < |steps| && |states| == |steps| + 1 && StepAt(states, steps, i) && Inv(states[i])
    requires SleepersSorted(states, steps, i, c)
    ensures SleepersSorted(states, steps, i + 1, c)
  {
    if steps[i].SleepUntil? && steps[i].c == c {
      SortedAfterSleep(states, steps, i, c);
    } else {
      SortedAfterOther(states, steps, i, c);
    }
  }

  lemma StepOf(states: seq<Sched>, steps: seq<Step>, i: nat)
    requires Trace(states, steps) && i < |steps|
    ensures StepAt(states, steps, i) && Inv(states[i])
  {
    TraceInv(states, steps, i);
  }

  /** In every state of every run: sleepers stand in order of deadline, and equal deadlines in order of arrival. */
  lemma {:induction false} SleepersInDeadlineThenArrivalOrder(states: seq<Sched>, steps: seq<Step>, i: nat, c: nat)
    requires Trace(states, steps) && i < |states|
    ensures SleepersSorted(states, steps, i, c)
  {
    if i == 0 {
      assert states[0].Waiters(Sleeping(c)) == [];
    } else {
      SleepersInDeadlineThenArrivalOrder(states, steps, i - 1, c);
      StepOf(states, steps, i - 1);
      SortedAfterStep(states, steps, i - 1, c);
    }
  }
}
