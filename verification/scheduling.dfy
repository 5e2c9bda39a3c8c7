/** What the scheduler keeps: every task is where its state says, on every CPU, through every step. */
module Scheduling {
  import opened Collections

  type TaskRef = nat

  datatype State = Ready | Running | Blocked | Dead

  /** The wait queues: one of sleepers on each CPU, one for the children of each process, and any others. */
  datatype QueueId = Sleeping(cpu: nat) | Children(pid: nat) | Channel(id: nat)

  datatype Task = Task(cpu: nat, state: State, waitingOn: Option<QueueId>, sleepUntil: nat, process: Option<nat>)

  datatype Cpu = Cpu(current: Option<TaskRef>, idle: TaskRef, cleanup: TaskRef, needsCleanup: bool,
                     runnable: seq<TaskRef>)

  /** `all` is the global task list, which holds neither the idle nor the cleanup tasks. */
  datatype Sched = Sched(tasks: map<TaskRef, Task>, cpus: seq<Cpu>, waiting: map<QueueId, seq<TaskRef>>,
                         exiting: set<nat>,
                         all: seq<TaskRef>) {

    function Waiters(q: QueueId): seq<TaskRef> {
      if q in waiting then waiting[q] else []
    }

    /** The task `t` refers to; a dead one for a reference to nothing, which the invariant rules out. */
    function Of(t: TaskRef): Task {
      if t in tasks then tasks[t] else Task(0, Dead, None, 0, None)
    }

    function WithTask(t: TaskRef, task: Task): Sched {
      this.(tasks := tasks[t := task])
    }

    function WithCpu(c: nat, cpu: Cpu): Sched
      requires c < |cpus|
    {
      this.(cpus := cpus[c := cpu])
    }

    function WithWaiters(q: QueueId, w: seq<TaskRef>): Sched {
      this.(waiting := waiting[q := w])
    }

    /** The idle or the cleanup task of its CPU. */
    predicate Service(t: TaskRef) {
      t in tasks && tasks[t].cpu < |cpus| && t in {cpus[tasks[t].cpu].idle, cpus[tasks[t].cpu].cleanup}
    }

    predicate ProcessExiting(t: TaskRef) {
      Of(t).process.Some? && Of(t).process.value in exiting
    }
  }

  // ---------------------------------------------------------------- the invariant

  lemma Tail(s: seq<TaskRef>)
    requires NoDuplicates(s) && s != []
    ensures NoDuplicates(s[1..]) && forall t :: t in s[1..] <==> t in s && t != s[0]
  {
    forall t | t in s && t != s[0] ensures t in s[1..] {
      var i :| 0 <= i < |s| && s[i] == t;
      assert s[1..][i - 1] == t;
    }
  }

  lemma Append(s: seq<TaskRef>, t: TaskRef)
    requires NoDuplicates(s) && t !in s
    ensures NoDuplicates(s + [t]) && forall u :: u in s + [t] <==> u in s || u == t
  {
  }

  predicate RunnableOn(s: Sched, c: nat, t: TaskRef) {
    t in s.tasks && !s.Service(t) && s.tasks[t].cpu == c && s.tasks[t].state == Ready
  }

  predicate CurrentOn(s: Sched, c: nat, t: TaskRef) {
    t in s.tasks && s.tasks[t].cpu == c && (s.Service(t) || s.tasks[t].state == Running)
  }

  ghost predicate CpuOk(s: Sched, c: nat)
    requires c < |s.cpus|
  {
    var cpu := s.cpus[c];
    && cpu.idle in s.tasks && s.tasks[cpu.idle].cpu == c
    && cpu.cleanup in s.tasks && s.tasks[cpu.cleanup].cpu == c && cpu.idle != cpu.cleanup
    && NoDuplicates(cpu.runnable)
    && (forall t :: t in cpu.runnable ==> RunnableOn(s, c, t))
    && (cpu.current.Some? ==> CurrentOn(s, c, cpu.current.value))
  }

  ghost predicate TaskOk(s: Sched, t: TaskRef)
    requires t in s.tasks
  {
    var task := s.tasks[t];
    && task.cpu < |s.cpus|
    && task.waitingOn.Some? == (task.state == Blocked)
    && (s.Service(t) || t in s.all)
    && (s.Service(t) ==> task.state in {Ready, Running})
    && (!s.Service(t) ==>
          match task.state
          case Ready => t in s.cpus[task.cpu].runnable
          case Running => s.cpus[task.cpu].current == Some(t)
          case Blocked => t in s.Waiters(task.waitingOn.value)
          case Dead => s.cpus[task.cpu].needsCleanup)
  }

  predicate WaitingIn(s: Sched, q: QueueId, t: TaskRef) {
    && t in s.tasks && !s.Service(t) && s.tasks[t].state == Blocked && s.tasks[t].waitingOn == Some(q)
    && (q.Sleeping? ==> s.tasks[t].cpu == q.cpu)
  }

  predicate InOrder(s: Sched, t: TaskRef, u: TaskRef) {
    t in s.tasks && u in s.tasks && s.tasks[t].sleepUntil <= s.tasks[u].sleepUntil
  }

  ghost predicate Ordered(s: Sched, w: seq<TaskRef>) {
    forall i, j :: 0 <= i < j < |w| ==> InOrder(s, w[i], w[j])
  }

  ghost predicate QueueOk(s: Sched, q: QueueId) {
    && NoDuplicates(s.Waiters(q))
    && (forall t :: t in s.Waiters(q) ==> WaitingIn(s, q, t))
    && (q.Sleeping? ==> Ordered(s, s.Waiters(q)))
  }

  predicate Listed(s: Sched, t: TaskRef) {
    t in s.tasks && !s.Service(t)
  }

  /** The scheduler's invariant. */
  ghost predicate Inv(s: Sched) {
    && (forall c :: 0 <= c < |s.cpus| ==> CpuOk(s, c))
    && (forall t :: t in s.tasks ==> TaskOk(s, t))
    && (forall q :: QueueOk(s, q))
    && NoDuplicates(s.all) && (forall t :: t in s.all ==> Listed(s, t))
  }

  // ---------------------------------------------------------------- moving one task

  /** As far as tasks other than `t` go, nothing changes on the CPU. */
  ghost predicate CpuSameBut(s: Sched, r: Sched, t: TaskRef, c: nat)
    requires c < |s.cpus| && c < |r.cpus|
  {
    var was, now := s.cpus[c], r.cpus[c];
    && now.idle == was.idle && now.cleanup == was.cleanup && (was.needsCleanup ==> now.needsCleanup)
    && (now.current == was.current || {now.current, was.current} == {None, Some(t)})
    && NoDuplicates(now.runnable)
    && (forall u :: u != t ==> (u in now.runnable <==> u in was.runnable))
    && (t in now.runnable ==> RunnableOn(r, c, t))
    && (now.current == Some(t) ==> CurrentOn(r, c, t))
  }

  ghost predicate QueueSameBut(s: Sched, r: Sched, t: TaskRef, q: QueueId) {
    || (r.Waiters(q) == s.Waiters(q) && t !in s.Waiters(q))
    || (&& NoDuplicates(r.Waiters(q))
        && (forall u :: u != t ==> (u in r.Waiters(q) <==> u in s.Waiters(q)))
        && (t in r.Waiters(q) ==> WaitingIn(r, q, t))
        && (q.Sleeping? ==> Ordered(r, r.Waiters(q))))
  }

  ghost predicate SameBut(s: Sched, r: Sched, t: TaskRef) {
    && |r.cpus| == |s.cpus| && NoDuplicates(r.all)
    && (forall u :: u != t ==> (u in r.all <==> u in s.all)) && (t in r.all ==> Listed(r, t))
    && (if t in r.tasks then t in s.tasks ==> r.tasks[t].cpu == s.tasks[t].cpu else !s.Service(t))
    && (forall u :: u != t ==> (u in r.tasks <==> u in s.tasks))
    && (forall u :: u in s.tasks && u != t ==> r.tasks[u] == s.tasks[u])
    && (forall c :: 0 <= c < |s.cpus| ==> CpuSameBut(s, r, t, c))
    && (forall q :: QueueSameBut(s, r, t, q))
  }

  /** A change that concerns one task keeps the invariant when that task ends up where its state says. */
  lemma MoveKeeps(s: Sched, r: Sched, t: TaskRef)
    requires Inv(s) && SameBut(s, r, t) && (t in r.tasks ==> TaskOk(r, t))
    ensures Inv(r)
  {
    forall u | u in s.tasks && u in r.tasks ensures r.Service(u) == s.Service(u) {
      assert TaskOk(s, u) && CpuSameBut(s, r, t, s.tasks[u].cpu);
    }
    forall c | 0 <= c < |r.cpus| ensures CpuOk(r, c) { MovedCpu(s, r, t, c); }
    forall u | u in r.tasks ensures TaskOk(r, u) { if u != t { MovedTask(s, r, t, u); } }
    forall q ensures QueueOk(r, q) { MovedQueue(s, r, t, q); }
    forall u | u in r.all ensures Listed(r, u) { assert u != t ==> Listed(s, u); }
  }

  lemma MovedCpu(s: Sched, r: Sched, t: TaskRef, c: nat)
    requires Inv(s) && SameBut(s, r, t) && c < |r.cpus|
             && forall u :: u in s.tasks && u in r.tasks ==> r.Service(u) == s.Service(u)
    ensures CpuOk(r, c)
  {
    assert CpuOk(s, c) && CpuSameBut(s, r, t, c);
    forall u | u in r.cpus[c].runnable ensures RunnableOn(r, c, u) {
      if u != t { assert RunnableOn(s, c, u); }
    }
  }

  lemma MovedTask(s: Sched, r: Sched, t: TaskRef, u: TaskRef)
    requires Inv(s) && SameBut(s, r, t) && u in s.tasks && u != t && u in r.tasks && r.Service(u) == s.Service(u)
    ensures TaskOk(r, u)
  {
    assert TaskOk(s, u) && CpuSameBut(s, r, t, s.tasks[u].cpu);
    if s.tasks[u].state == Blocked && s.tasks[u].waitingOn.Some? {
      assert QueueSameBut(s, r, t, s.tasks[u].waitingOn.value);
    }
  }

  lemma MovedQueue(s: Sched, r: Sched, t: TaskRef, q: QueueId)
    requires Inv(s) && SameBut(s, r, t) && forall u :: u in s.tasks && u in r.tasks ==> r.Service(u) == s.Service(u)
    ensures QueueOk(r, q)
  {
    assert QueueOk(s, q) && QueueSameBut(s, r, t, q);
    forall u | u in r.Waiters(q) && u != t ensures WaitingIn(r, q, u) { assert WaitingIn(s, q, u); }
    if r.Waiters(q) == s.Waiters(q) && t !in s.Waiters(q) && q.Sleeping? {
      var w := r.Waiters(q);
      forall i, j | 0 <= i < j < |w| ensures InOrder(r, w[i], w[j]) {
        assert InOrder(s, w[i], w[j]) && w[i] in w && w[j] in w;
      }
    }
  }

  // ---------------------------------------------------------------- the parts of a switch

  /** The running task is put back at the end of the run queue; nothing is current in the meantime. */
  function Left(s: Sched, c: nat): Sched
    requires c < |s.cpus|
  {
    var cpu := s.cpus[c];
    if cpu.current.Some? && cpu.current.value != cpu.idle && cpu.current.value != cpu.cleanup
       && s.Of(cpu.current.value).state == Running then
      var t := cpu.current.value;
      s.WithTask(t, s.Of(t).(state := Ready)).WithCpu(c, cpu.(current := None, runnable := cpu.runnable + [t]))
    else
      s.WithCpu(c, cpu.(current := None))
  }

  function Dispatched(s: Sched, c: nat, t: TaskRef): Sched
    requires c < |s.cpus|
  {
    s.WithTask(t, s.Of(t).(state := Running)).WithCpu(c, s.cpus[c].(current := Some(t)))
  }

  function Dropped(s: Sched, c: nat): Sched
    requires c < |s.cpus| && s.cpus[c].runnable != []
  {
    s.WithCpu(c, s.cpus[c].(runnable := s.cpus[c].runnable[1..]))
  }

  /** The head of the run queue belongs to a process that is exiting: it dies without being run. */
  function Killed(s: Sched, c: nat): Sched
    requires c < |s.cpus| && s.cpus[c].runnable != []
  {
    var t := s.cpus[c].runnable[0];
    s.WithTask(t, s.Of(t).(state := Dead))
    .WithCpu(c, s.cpus[c].(runnable := s.cpus[c].runnable[1..], needsCleanup := true))
  }

  /** The first task of the run queue whose process is not exiting, or the idle task; those in front of it die. */
  function Picked(s: Sched, c: nat): (r: (Sched, TaskRef))
    requires c < |s.cpus|
    ensures |r.0.cpus| == |s.cpus|
    decreases |s.cpus[c].runnable|
  {
    var queue := s.cpus[c].runnable;
    if queue == [] then (s, s.cpus[c].idle)
    else if s.ProcessExiting(queue[0]) then Picked(Killed(s, c), c)
    else (Dropped(s, c), queue[0])
  }

  /** The cleanup task when one is due, else whatever is picked from the run queue. */
  function Chosen(s: Sched, c: nat): (r: (Sched, TaskRef))
    requires c < |s.cpus|
    ensures |r.0.cpus| == |s.cpus|
  {
    if s.cpus[c].needsCleanup then (s, s.cpus[c].cleanup) else Picked(s, c)
  }

  lemma KilledKeeps(s: Sched, c: nat)
    requires Inv(s) && c < |s.cpus| && s.cpus[c].runnable != []
    ensures s.cpus[c].runnable[0] in s.tasks && Inv(Killed(s, c))
  {
    assert CpuOk(s, c) && s.cpus[c].runnable[0] in s.cpus[c].runnable;
    assert RunnableOn(s, c, s.cpus[c].runnable[0]);
    var t, r := s.cpus[c].runnable[0], Killed(s, c);
    Tail(s.cpus[c].runnable);
    assert TaskOk(s, t);
    forall d | 0 <= d < |s.cpus| ensures CpuSameBut(s, r, t, d) { NotElsewhere(s, t, d); }
    forall q ensures QueueSameBut(s, r, t, q) { NotWaiting(s, t, q); }
    MoveKeeps(s, r, t);
  }

  /** Whatever is in a run queue or current on some CPU is in no wait queue, and on no other CPU. */
  lemma NotElsewhere(s: Sched, t: TaskRef, d: nat)
    requires Inv(s) && t in s.tasks && d < |s.cpus|
    ensures NoDuplicates(s.cpus[d].runnable) && (t in s.cpus[d].runnable <==> RunnableOn(s, d, t))
    ensures s.cpus[d].current == Some(t) ==> CurrentOn(s, d, t)
    ensures !s.Service(t) ==> (s.cpus[d].current == Some(t) <==> CurrentOn(s, d, t))
  {
    assert CpuOk(s, d) && TaskOk(s, t);
  }

  lemma NotWaiting(s: Sched, t: TaskRef, q: QueueId)
    requires Inv(s) && t in s.tasks
    ensures t in s.Waiters(q) <==> WaitingIn(s, q, t)
  {
    assert QueueOk(s, q) && TaskOk(s, t);
  }

  // ---------------------------------------------------------------- one lemma for each way a task moves

  /** What is asserted of the task chosen to run next. */
  predicate MayRunNext(s: Sched, c: nat, next: TaskRef)
    requires c < |s.cpus|
  {
    && next in s.tasks && s.tasks[next].cpu == c && s.tasks[next].waitingOn == None
    && (s.tasks[next].state == Ready || next == s.cpus[c].idle || next == s.cpus[c].cleanup)
    && (next == s.cpus[c].idle ==> s.cpus[c].runnable == [])
  }

  lemma PickedKeeps(s: Sched, c: nat)
    requires Inv(s) && c < |s.cpus| && s.cpus[c].current == None
    ensures var (r, next) := Picked(s, c); Inv(Dispatched(r, c, next)) && MayRunNext(r, c, next)
    decreases |s.cpus[c].runnable|
  {
    assert CpuOk(s, c);
    var queue := s.cpus[c].runnable;
    if queue == [] {
      assert TaskOk(s, s.cpus[c].idle);
      DispatchServiceKeeps(s, c, s.cpus[c].idle);
    } else {
      assert queue[0] in queue && RunnableOn(s, c, queue[0]);
      KilledKeeps(s, c);
      if s.ProcessExiting(queue[0]) {
        PickedKeeps(Killed(s, c), c);
      } else {
        assert TaskOk(s, queue[0]);
        DispatchHeadKeeps(s, c);
      }
    }
  }

  lemma DispatchServiceKeeps(s: Sched, c: nat, t: TaskRef)
    requires Inv(s) && c < |s.cpus| && s.cpus[c].current == None && t in {s.cpus[c].idle, s.cpus[c].cleanup}
    ensures t in s.tasks && Inv(Dispatched(s, c, t))
  {
    assert CpuOk(s, c) && TaskOk(s, t);
    var r := Dispatched(s, c, t);
    assert r.Service(t);
    forall d | 0 <= d < |s.cpus| ensures CpuSameBut(s, r, t, d) { NotElsewhere(s, t, d); }
    forall q ensures QueueSameBut(s, r, t, q) { NotWaiting(s, t, q); }
    MoveKeeps(s, r, t);
  }

  lemma DispatchHeadKeeps(s: Sched, c: nat)
    requires Inv(s) && c < |s.cpus| && s.cpus[c].current == None && s.cpus[c].runnable != []
    ensures s.cpus[c].runnable[0] in s.tasks && Inv(Dispatched(Dropped(s, c), c, s.cpus[c].runnable[0]))
  {
    var t := s.cpus[c].runnable[0];
    assert CpuOk(s, c) && t in s.cpus[c].runnable;
    assert RunnableOn(s, c, t) && TaskOk(s, t);
    Tail(s.cpus[c].runnable);
    var r := Dispatched(Dropped(s, c), c, t);
    forall d | 0 <= d < |s.cpus| ensures CpuSameBut(s, r, t, d) { NotElsewhere(s, t, d); }
    forall q ensures QueueSameBut(s, r, t, q) { NotWaiting(s, t, q); }
    MoveKeeps(s, r, t);
  }

  lemma LeftKeeps(s: Sched, c: nat)
    requires Inv(s) && c < |s.cpus|
    ensures Inv(Left(s, c)) && Left(s, c).cpus[c].current == None
  {
    assert CpuOk(s, c);
    var r := Left(s, c);
    if s.cpus[c].current == None {
      assert r == s;
    } else {
      var t := s.cpus[c].current.value;
      assert CurrentOn(s, c, t) && TaskOk(s, t);
      NotElsewhere(s, t, c);
      if !s.Service(t) { Append(s.cpus[c].runnable, t); }
      forall d | 0 <= d < |s.cpus| ensures CpuSameBut(s, r, t, d) { NotElsewhere(s, t, d); }
      forall q ensures QueueSameBut(s, r, t, q) { NotWaiting(s, t, q); }
      MoveKeeps(s, r, t);
    }
  }

  /** The switch away from whatever was current: to the cleanup task when one is due, else to the first task of the run
      queue whose process is not exiting. */
  function Switched(s: Sched, c: nat): (r: Sched)
    requires c < |s.cpus|
  {
    var (r, next) := Chosen(Left(s, c), c);
    if c < |r.cpus| then Dispatched(r, c, next) else r
  }

  lemma SwitchedKeeps(s: Sched, c: nat)
    requires c < |s.cpus| && Inv(Left(s, c))
    ensures var (r, next) := Chosen(Left(s, c), c); Inv(Switched(s, c)) && MayRunNext(r, c, next)
  {
    var l := Left(s, c);
    assert l.cpus[c].current == None && CpuOk(l, c);
    if l.cpus[c].needsCleanup {
      assert TaskOk(l, l.cpus[c].cleanup);
      DispatchServiceKeeps(l, c, l.cpus[c].cleanup);
    } else {
      PickedKeeps(l, c);
    }
  }

  // ---------------------------------------------------------------- what the running task does before it switches

  /** An ordinary task is current on `c`. */
  predicate Acts(s: Sched, c: nat) {
    c < |s.cpus| && s.cpus[c].current.Some? && s.cpus[c].current.value in s.tasks && !s.Service(s.cpus[c].current.value)
  }

  function Parked(s: Sched, c: nat, q: QueueId): Sched
    requires Acts(s, c)
  {
    var t := s.cpus[c].current.value;
    s.WithTask(t, s.tasks[t].(state := Blocked, waitingOn := Some(q))).WithWaiters(q, s.Waiters(q) + [t])
  }

  /** How many sleepers stay in front of a new one: all up to the first with a later deadline. */
  function Earlier(s: Sched, w: seq<TaskRef>, deadline: nat): (n: nat)
    ensures n <= |w|
  {
    if w == [] || (w[0] in s.tasks && s.tasks[w[0]].sleepUntil > deadline) then 0 else 1 + Earlier(s, w[1..], deadline)
  }

  function SleepersWith(s: Sched, c: nat, t: TaskRef, deadline: nat): seq<TaskRef> {
    var w := s.Waiters(Sleeping(c));
    var n := Earlier(s, w, deadline);
    w[..n] + [t] + w[n..]
  }

  function Slept(s: Sched, c: nat, deadline: nat): Sched
    requires Acts(s, c)
  {
    var t := s.cpus[c].current.value;
    s.WithTask(t, s.tasks[t].(state := Blocked, waitingOn := Some(Sleeping(c)), sleepUntil := deadline))
    .WithWaiters(Sleeping(c), SleepersWith(s, c, t, deadline))
  }

  function Died(s: Sched, c: nat): Sched
    requires Acts(s, c)
  {
    var t := s.cpus[c].current.value;
    s.WithTask(t, s.tasks[t].(state := Dead)).WithCpu(c, s.cpus[c].(needsCleanup := true))
  }

  lemma ActsRunning(s: Sched, c: nat)
    requires Inv(s) && Acts(s, c)
    ensures var t := s.cpus[c].current.value;
            && s.tasks[t].state == Running && s.tasks[t].cpu == c && s.tasks[t].waitingOn == None && t in s.all
            && t != s.cpus[c].idle && t != s.cpus[c].cleanup
            && (forall d :: 0 <= d < |s.cpus| ==> t !in s.cpus[d].runnable && (s.cpus[d].current == Some(t) ==> d == c))
            && forall q :: t !in s.Waiters(q)
  {
    var t := s.cpus[c].current.value;
    assert CpuOk(s, c) && TaskOk(s, t);
    assert CurrentOn(s, c, t);
    forall d | 0 <= d < |s.cpus| ensures t !in s.cpus[d].runnable && (s.cpus[d].current == Some(t) ==> d == c) {
      NotElsewhere(s, t, d);
    }
    forall q ensures t !in s.Waiters(q) { NotWaiting(s, t, q); }
  }

  lemma ParkedKeeps(s: Sched, c: nat, q: QueueId)
    requires Inv(s) && Acts(s, c) && !q.Sleeping?
    ensures Inv(Left(Parked(s, c, q), c))
  {
    var t, r := s.cpus[c].current.value, Left(Parked(s, c, q), c);
    ActsRunning(s, c);
    forall d | 0 <= d < |s.cpus| ensures CpuSameBut(s, r, t, d) { assert CpuOk(s, d); }
    forall p ensures QueueSameBut(s, r, t, p) {
      assert QueueOk(s, p);
      if p == q { Append(s.Waiters(q), t); }
    }
    MoveKeeps(s, r, t);
  }

  lemma DiedKeeps(s: Sched, c: nat)
    requires Inv(s) && Acts(s, c)
    ensures Inv(Left(Died(s, c), c))
  {
    var t, r := s.cpus[c].current.value, Left(Died(s, c), c);
    ActsRunning(s, c);
    forall d | 0 <= d < |s.cpus| ensures CpuSameBut(s, r, t, d) { assert CpuOk(s, d); }
    forall q ensures QueueSameBut(s, r, t, q) { assert QueueOk(s, q); }
    MoveKeeps(s, r, t);
  }

  /** The new sleeper stands behind every deadline up to its own and in front of every later one. */
  lemma EarlierSplits(s: Sched, w: seq<TaskRef>, deadline: nat)
    requires Ordered(s, w) && forall t :: t in w ==> t in s.tasks
    ensures var n := Earlier(s, w, deadline);
            && (forall i :: 0 <= i < n ==> w[i] in s.tasks && s.tasks[w[i]].sleepUntil <= deadline)
            && forall i :: n <= i < |w| ==> w[i] in s.tasks && deadline < s.tasks[w[i]].sleepUntil
  {
    if w != [] {
      assert w[0] in w;
      if s.tasks[w[0]].sleepUntil > deadline {
        forall i | 0 <= i < |w| ensures w[i] in s.tasks && deadline < s.tasks[w[i]].sleepUntil {
          assert i > 0 ==> InOrder(s, w[0], w[i]);
        }
      } else {
        forall i, j | 0 <= i < j < |w[1..]| ensures InOrder(s, w[1..][i], w[1..][j]) {
          assert InOrder(s, w[i + 1], w[j + 1]);
        }
        EarlierSplits(s, w[1..], deadline);
        var n := Earlier(s, w[1..], deadline);
        forall i | 0 < i < |w| ensures w[i] == w[1..][i - 1] {}
      }
    }
  }

  lemma SleepersStay(s: Sched, c: nat, t: TaskRef, deadline: nat)
    requires Inv(s) && t !in s.Waiters(Sleeping(c))
    ensures var w := SleepersWith(s, c, t, deadline);
            NoDuplicates(w) && forall u :: u in w <==> u in s.Waiters(Sleeping(c)) || u == t
  {
    assert QueueOk(s, Sleeping(c));
    var w := s.Waiters(Sleeping(c));
    var n := Earlier(s, w, deadline);
    assert w == w[..n] + w[n..];
  }

  lemma SleepersOrdered(s: Sched, r: Sched, c: nat, t: TaskRef, deadline: nat)
    requires Inv(s) && t !in s.Waiters(Sleeping(c)) && t in r.tasks && r.tasks[t].sleepUntil == deadline
    requires forall u :: u in s.tasks && u != t ==> u in r.tasks && r.tasks[u] == s.tasks[u]
    ensures Ordered(r, SleepersWith(s, c, t, deadline))
  {
    assert QueueOk(s, Sleeping(c));
    var w := s.Waiters(Sleeping(c));
    forall u | u in w ensures u in s.tasks { assert WaitingIn(s, Sleeping(c), u); }
    EarlierSplits(s, w, deadline);
    var n, v := Earlier(s, w, deadline), SleepersWith(s, c, t, deadline);
    forall i, j | 0 <= i < j < |v| ensures InOrder(r, v[i], v[j]) {
      var a, b := if i > n then i - 1 else i, if j > n then j - 1 else j;
      if i != n { assert v[i] == w[a] && w[a] in w; }
      if j != n { assert v[j] == w[b] && w[b] in w; }
      if i != n && j != n { assert InOrder(s, w[a], w[b]); }
    }
  }

  lemma SleptKeeps(s: Sched, c: nat, deadline: nat)
    requires Inv(s) && Acts(s, c)
    ensures Inv(Left(Slept(s, c, deadline), c))
  {
    var t, r := s.cpus[c].current.value, Left(Slept(s, c, deadline), c);
    ActsRunning(s, c);
    forall d | 0 <= d < |s.cpus| ensures CpuSameBut(s, r, t, d) { assert CpuOk(s, d); }
    SleepersStay(s, c, t, deadline);
    SleepersOrdered(s, r, c, t, deadline);
    forall q ensures QueueSameBut(s, r, t, q) { assert QueueOk(s, q); }
    MoveKeeps(s, r, t);
  }

  // ---------------------------------------------------------------- waking

  /** At the end of the run queue of its own CPU. */
  function Enqueued(s: Sched, t: TaskRef): Sched {
    var c := s.Of(t).cpu;
    if c < |s.cpus| then s.WithCpu(c, s.cpus[c].(runnable := s.cpus[c].runnable + [t])) else s
  }

  /** The head of `q` is taken out of it and made ready. */
  function Woken(s: Sched, q: QueueId): Sched
    requires s.Waiters(q) != []
  {
    var t := s.Waiters(q)[0];
    var task := s.Of(t);
    Enqueued(s.WithTask(t, task.(state := Ready, waitingOn := None,
                                 sleepUntil := if q.Sleeping? then 0 else task.sleepUntil))
             .WithWaiters(q, s.Waiters(q)[1..]), t)
  }

  lemma HeadWaits(s: Sched, q: QueueId)
    requires Inv(s) && s.Waiters(q) != []
    ensures var t := s.Waiters(q)[0];
            && WaitingIn(s, q, t) && s.tasks[t].cpu < |s.cpus| && t in s.all
            && forall d :: 0 <= d < |s.cpus| ==> t !in s.cpus[d].runnable && s.cpus[d].current != Some(t)
  {
    var t := s.Waiters(q)[0];
    assert QueueOk(s, q) && t in s.Waiters(q);
    assert WaitingIn(s, q, t) && TaskOk(s, t);
    forall d | 0 <= d < |s.cpus| ensures t !in s.cpus[d].runnable && s.cpus[d].current != Some(t) {
      NotElsewhere(s, t, d);
    }
  }

  lemma WokenKeeps(s: Sched, q: QueueId)
    requires Inv(s) && s.Waiters(q) != []
    ensures Inv(Woken(s, q))
  {
    HeadWaits(s, q);
    var t, r := s.Waiters(q)[0], Woken(s, q);
    forall d | 0 <= d < |s.cpus| ensures CpuSameBut(s, r, t, d) {
      assert CpuOk(s, d);
      Append(s.cpus[d].runnable, t);
    }
    forall p ensures QueueSameBut(s, r, t, p) { WokenQueue(s, q, p); }
    MoveKeeps(s, r, t);
  }

  lemma WokenQueue(s: Sched, q: QueueId, p: QueueId)
    requires Inv(s) && s.Waiters(q) != [] && s.Waiters(q)[0] in s.tasks && s.tasks[s.Waiters(q)[0]].cpu < |s.cpus|
    ensures QueueSameBut(s, Woken(s, q), s.Waiters(q)[0], p)
  {
    assert QueueOk(s, q) && QueueOk(s, p) && s.Waiters(q)[0] in s.Waiters(q);
    assert WaitingIn(s, q, s.Waiters(q)[0]);
    if p == q {
      var w, r := s.Waiters(q), Woken(s, q);
      Tail(w);
      if q.Sleeping? {
        forall i, j | 0 <= i < j < |w[1..]| ensures InOrder(r, w[1..][i], w[1..][j]) {
          assert w[1..][i] in w[1..] && w[1..][j] in w[1..] && InOrder(s, w[i + 1], w[j + 1]);
        }
      }
    } else {
      assert s.Waiters(q)[0] in s.Waiters(p) ==> WaitingIn(s, p, s.Waiters(q)[0]);
    }
  }

  /** The first `n` waiters of `q` are woken, one after the other. */
  function WokenFirst(s: Sched, q: QueueId, n: nat): Sched
    requires n <= |s.Waiters(q)|
    decreases n
  {
    if n == 0 then s else WokenFirst(Woken(s, q), q, n - 1)
  }

  function AllWoken(s: Sched, q: QueueId): Sched {
    WokenFirst(s, q, |s.Waiters(q)|)
  }

  /** How many sleepers at the front of `w` have a deadline that has come. */
  function Due(s: Sched, w: seq<TaskRef>, now: nat): (n: nat)
    ensures n <= |w|
  {
    if w == [] || now < s.Of(w[0]).sleepUntil then 0 else 1 + Due(s, w[1..], now)
  }

  function DueWoken(s: Sched, c: nat, now: nat): Sched {
    WokenFirst(s, Sleeping(c), Due(s, s.Waiters(Sleeping(c)), now))
  }

  lemma {:induction false} WokenFirstKeeps(s: Sched, q: QueueId, n: nat)
    requires Inv(s) && n <= |s.Waiters(q)|
    ensures Inv(WokenFirst(s, q, n)) && WokenFirst(s, q, n).Waiters(q) == s.Waiters(q)[n..]
    decreases n
  {
    if n > 0 {
      WokenKeeps(s, q);
      WokenFirstKeeps(Woken(s, q), q, n - 1);
    }
  }

  lemma {:induction false} WokenFirstLast(s: Sched, q: QueueId, n: nat)
    requires Inv(s) && n < |s.Waiters(q)|
    ensures WokenFirst(s, q, n).Waiters(q) != [] && WokenFirst(s, q, n + 1) == Woken(WokenFirst(s, q, n), q)
    decreases n
  {
    WokenFirstKeeps(s, q, n);
    if n > 0 {
      WokenKeeps(s, q);
      WokenFirstLast(Woken(s, q), q, n - 1);
    }
  }

  // ---------------------------------------------------------------- coming and going

  /** A task is made and put in the run queue of its CPU. */
  function Spawned(s: Sched, t: TaskRef, c: nat, process: Option<nat>): Sched
    requires c < |s.cpus|
  {
    s.WithTask(t, Task(c, Ready, None, 0, process))
    .WithCpu(c, s.cpus[c].(runnable := s.cpus[c].runnable + [t])).(all := s.all + [t])
  }

  lemma FreshNowhere(s: Sched, t: TaskRef)
    requires Inv(s) && t !in s.tasks
    ensures t !in s.all && forall q :: t !in s.Waiters(q)
    ensures forall d :: 0 <= d < |s.cpus| ==>
              t !in s.cpus[d].runnable && s.cpus[d].current != Some(t) && s.cpus[d].idle != t && s.cpus[d].cleanup != t
  {
    forall q ensures t !in s.Waiters(q) { assert QueueOk(s, q) && (t in s.Waiters(q) ==> WaitingIn(s, q, t)); }
    forall d | 0 <= d < |s.cpus|
      ensures t !in s.cpus[d].runnable && s.cpus[d].current != Some(t) && s.cpus[d].idle != t && s.cpus[d].cleanup != t
    {
      assert CpuOk(s, d) && (t in s.cpus[d].runnable ==> RunnableOn(s, d, t));
    }
    assert t in s.all ==> Listed(s, t);
  }

  lemma SpawnedKeeps(s: Sched, t: TaskRef, c: nat, process: Option<nat>)
    requires Inv(s) && c < |s.cpus| && t !in s.tasks
    ensures Inv(Spawned(s, t, c, process))
  {
    var r := Spawned(s, t, c, process);
    FreshNowhere(s, t);
    Append(s.all, t);
    forall d | 0 <= d < |s.cpus| ensures CpuSameBut(s, r, t, d) {
      assert CpuOk(s, d);
      Append(s.cpus[d].runnable, t);
    }
    forall q ensures QueueSameBut(s, r, t, q) { assert QueueOk(s, q); }
    MoveKeeps(s, r, t);
  }

  /** The index of the first dead task of the list; its length when there is none. */
  function FirstDead(s: Sched, list: seq<TaskRef>): (n: nat)
    ensures n <= |list|
  {
    if list == [] || (list[0] in s.tasks && s.tasks[list[0]].state == Dead) then 0 else 1 + FirstDead(s, list[1..])
  }

  lemma FirstDeadFinds(s: Sched, list: seq<TaskRef>)
    ensures var n := FirstDead(s, list);
            && (n < |list| ==> list[n] in s.tasks && s.tasks[list[n]].state == Dead)
            && forall i :: 0 <= i < n ==> !(list[i] in s.tasks && s.tasks[list[i]].state == Dead)
  {
    if list != [] && !(list[0] in s.tasks && s.tasks[list[0]].state == Dead) {
      FirstDeadFinds(s, list[1..]);
      forall i | 0 < i < |list| ensures list[i] == list[1..][i - 1] {}
    }
  }

  /** The task at index `i` of the list is freed. */
  function Reaped(s: Sched, i: nat): Sched
    requires i < |s.all|
  {
    s.(tasks := s.tasks - {s.all[i]}, all := s.all[..i] + s.all[i + 1..])
  }

  /** A dead task is on no list but the global one. */
  lemma DeadNowhere(s: Sched, t: TaskRef)
    requires Inv(s) && t in s.tasks && s.tasks[t].state == Dead
    ensures !s.Service(t) && t in s.all && s.tasks[t].waitingOn == None && (forall q :: t !in s.Waiters(q))
    ensures forall d :: 0 <= d < |s.cpus| ==> t !in s.cpus[d].runnable && s.cpus[d].current != Some(t)
  {
    assert TaskOk(s, t);
    forall q ensures t !in s.Waiters(q) { NotWaiting(s, t, q); }
    forall d | 0 <= d < |s.cpus| ensures t !in s.cpus[d].runnable && s.cpus[d].current != Some(t) {
      NotElsewhere(s, t, d);
    }
  }

  lemma ReapedKeeps(s: Sched, i: nat)
    requires Inv(s) && i < |s.all| && s.all[i] in s.tasks && s.tasks[s.all[i]].state == Dead
    ensures Inv(Reaped(s, i))
  {
    var t, r := s.all[i], Reaped(s, i);
    DeadNowhere(s, t);
    assert s.all == s.all[..i] + [t] + s.all[i + 1..];
    forall d | 0 <= d < |s.cpus| ensures CpuSameBut(s, r, t, d) { assert CpuOk(s, d); }
    forall q ensures QueueSameBut(s, r, t, q) { assert QueueOk(s, q); }
    MoveKeeps(s, r, t);
  }

  function Cleared(s: Sched, c: nat): Sched
    requires c < |s.cpus|
  {
    s.WithCpu(c, s.cpus[c].(needsCleanup := false))
  }

  /** With no dead task left there is nothing to clean up, on any CPU. */
  lemma ClearedKeeps(s: Sched, c: nat)
    requires Inv(s) && c < |s.cpus| && FirstDead(s, s.all) == |s.all|
    ensures Inv(Cleared(s, c))
  {
    FirstDeadFinds(s, s.all);
    var r := Cleared(s, c);
    forall t ensures r.Service(t) == s.Service(t) {}
    forall d | 0 <= d < |r.cpus| ensures CpuOk(r, d) {
      assert CpuOk(s, d);
      forall t | t in r.cpus[d].runnable ensures RunnableOn(r, d, t) { assert RunnableOn(s, d, t); }
    }
    forall t | t in r.tasks ensures TaskOk(r, t) { assert TaskOk(s, t); }
    forall q ensures QueueOk(r, q) { SameQueue(s, r, q); }
    forall t | t in r.all ensures Listed(r, t) { assert Listed(s, t); }
  }

  lemma SameQueue(s: Sched, r: Sched, q: QueueId)
    requires QueueOk(s, q) && r.tasks == s.tasks && r.waiting == s.waiting && forall t :: r.Service(t) == s.Service(t)
    ensures QueueOk(r, q)
  {
    forall t | t in r.Waiters(q) ensures WaitingIn(r, q, t) { assert WaitingIn(s, q, t); }
    if q.Sleeping? {
      var w := r.Waiters(q);
      forall i, j | 0 <= i < j < |w| ensures InOrder(r, w[i], w[j]) { assert InOrder(s, w[i], w[j]); }
    }
  }

  /** Whether a process is exiting is nothing the queues depend on. */
  lemma ExitingKeeps(s: Sched, exiting: set<nat>)
    requires Inv(s)
    ensures Inv(s.(exiting := exiting))
  {
    var r := s.(exiting := exiting);
    forall t ensures r.Service(t) == s.Service(t) {}
    forall d | 0 <= d < |r.cpus| ensures CpuOk(r, d) {
      assert CpuOk(s, d);
      forall t | t in r.cpus[d].runnable ensures RunnableOn(r, d, t) { assert RunnableOn(s, d, t); }
    }
    forall t | t in r.tasks ensures TaskOk(r, t) { assert TaskOk(s, t); }
    forall q ensures QueueOk(r, q) { SameQueue(s, r, q); }
    forall t | t in r.all ensures Listed(r, t) { assert Listed(s, t); }
  }
}
