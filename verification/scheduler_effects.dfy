/** What each step of the scheduler does, told queue by queue and task by task, and the order in which waiters stand. */
module SchedulerEffects {
  import opened Collections
  import opened Scheduling
  import opened SchedulerRuns

  // ---------------------------------------------------------------- the CPU is handed over

  /** The CPU goes to the cleanup task when one is due; else to the first task of `queue` whose process is not exiting,
      behind the `k` that die, or to the idle task when there is none. */
  ghost predicate HandedOver(s: Sched, r: Sched, c: nat, queue: seq<TaskRef>, cleanup: bool, k: nat) {
    && c < |s.cpus| == |r.cpus| && k <= |queue|
    && (forall d :: 0 <= d < |s.cpus| && d != c ==> r.cpus[d] == s.cpus[d])
    && (forall i :: 0 <= i < k ==> s.ProcessExiting(queue[i]))
    && var was := s.cpus[c];
    if cleanup then k == 0 && r.cpus[c] == Cpu(Some(was.cleanup), was.idle, was.cleanup, true, queue)
    else if k < |queue| then
      && !s.ProcessExiting(queue[k])
      && r.cpus[c] == Cpu(Some(queue[k]), was.idle, was.cleanup, k > 0, queue[k + 1..])
    else r.cpus[c] == Cpu(Some(was.idle), was.idle, was.cleanup, k > 0, [])
  }

  /** The state of a task after the CPU has been handed over. */
  function StateThen(s: Sched, queue: seq<TaskRef>, k: nat, next: Option<TaskRef>, u: TaskRef): State
    requires k <= |queue|
  {
    if u in queue[..k] then Dead else if next == Some(u) then Running else if u in queue then Ready else s.Of(u).state
  }

  /** Every task but the one that left is as it was, but for its state. */
  ghost predicate StatesThen(s: Sched, r: Sched, c: nat, queue: seq<TaskRef>, k: nat, left: Option<TaskRef>) {
    && c < |r.cpus| && k <= |queue| && r.tasks.Keys == s.tasks.Keys
    && forall u: TaskRef :: left != Some(u) ==>
         r.Of(u) == s.Of(u).(state := StateThen(s, queue, k, r.cpus[c].current, u))
  }

  ghost predicate SameQueuesBut(s: Sched, r: Sched, q: QueueId) {
    forall p :: p != q ==> r.Waiters(p) == s.Waiters(p)
  }

  ghost predicate SameQueues(s: Sched, r: Sched) {
    forall p :: r.Waiters(p) == s.Waiters(p)
  }

  // ---------------------------------------------------------------- the steps that end in a switch

  /** An ordinary task that gives up its CPU goes to the end of the run queue; the idle and the cleanup task do not. */
  ghost predicate Yields(s: Sched, r: Sched, c: nat, k: nat) {
    && c < |s.cpus| && r.exiting == s.exiting && r.all == s.all && SameQueues(s, r)
    && var queue := s.cpus[c].runnable + if Acts(s, c) then [s.cpus[c].current.value] else [];
    HandedOver(s, r, c, queue, s.cpus[c].needsCleanup, k) && StatesThen(s, r, c, queue, k, None)
  }

  /** The running task goes to the end of a wait queue, and its CPU to the next. */
  ghost predicate Blocks(s: Sched, r: Sched, c: nat, q: QueueId, k: nat) {
    && Acts(s, c) && r.exiting == s.exiting && r.all == s.all && SameQueuesBut(s, r, q)
    && var t := s.cpus[c].current.value;
    && r.Waiters(q) == s.Waiters(q) + [t] && r.Of(t) == s.Of(t).(state := Blocked, waitingOn := Some(q))
    && HandedOver(s, r, c, s.cpus[c].runnable, s.cpus[c].needsCleanup, k)
    && StatesThen(s, r, c, s.cpus[c].runnable, k, Some(t))
  }

  /** The running task goes among the sleepers, behind those with a deadline up to its own, and its CPU to the next. */
  ghost predicate Sleeps(s: Sched, r: Sched, c: nat, deadline: nat, n: nat, k: nat) {
    && Acts(s, c) && r.exiting == s.exiting && r.all == s.all && SameQueuesBut(s, r, Sleeping(c))
    && var t, w := s.cpus[c].current.value, s.Waiters(Sleeping(c));
    && n <= |w| && r.Waiters(Sleeping(c)) == w[..n] + [t] + w[n..]
    && (forall i :: 0 <= i < |w| ==> (i < n <==> s.Of(w[i]).sleepUntil <= deadline))
    && r.Of(t) == s.Of(t).(state := Blocked, waitingOn := Some(Sleeping(c)), sleepUntil := deadline)
    && HandedOver(s, r, c, s.cpus[c].runnable, s.cpus[c].needsCleanup, k)
    && StatesThen(s, r, c, s.cpus[c].runnable, k, Some(t))
  }

  /** The running task is dead, and its CPU goes to the cleanup task. */
  ghost predicate Ends(s: Sched, r: Sched, c: nat) {
    && Acts(s, c) && r.exiting == s.exiting && r.all == s.all && SameQueues(s, r)
    && var t := s.cpus[c].current.value;
    && r.Of(t) == s.Of(t).(state := Dead)
    && HandedOver(s, r, c, s.cpus[c].runnable, true, 0) && StatesThen(s, r, c, s.cpus[c].runnable, 0, Some(t))
  }

  /** The first dead task of the list is gone, from the list too; with none left, the CPU is given up. */
  ghost predicate CleansUp(s: Sched, r: Sched, c: nat, k: nat) {
    && c < |s.cpus| && r.exiting == s.exiting && SameQueues(s, r)
    && if NoneDead(s, |s.all|) then
         && r.all == s.all && HandedOver(s, r, c, s.cpus[c].runnable, false, k)
         && StatesThen(s, r, c, s.cpus[c].runnable, k, None)
       else
         && k < |s.all| && s.Of(s.all[k]).state == Dead && NoneDead(s, k)
         && r.all == s.all[..k] + s.all[k + 1..] && r.tasks == s.tasks - {s.all[k]} && r.cpus == s.cpus
  }

  ghost predicate NoneDead(s: Sched, n: nat) {
    forall i :: 0 <= i < n && i < |s.all| ==> s.Of(s.all[i]).state != Dead
  }

  // ---------------------------------------------------------------- the steps that wake

  /** What a task is when it has been woken. */
  function Awake(task: Task, sleeper: bool): Task {
    task.(state := Ready, waitingOn := None, sleepUntil := if sleeper then 0 else task.sleepUntil)
  }

  /** The first `n` waiters are ready, and each CPU's are at the end of its run queue, in the order they stood in. */
  ghost predicate Wakes(s: Sched, r: Sched, q: QueueId, n: nat) {
    && r.exiting == s.exiting && r.all == s.all && r.tasks.Keys == s.tasks.Keys && |r.cpus| == |s.cpus|
    && n <= |s.Waiters(q)| && r.Waiters(q) == s.Waiters(q)[n..] && SameQueuesBut(s, r, q)
    && var woken := s.Waiters(q)[..n];
    && (forall t: TaskRef :: r.Of(t) == if t in woken then Awake(s.Of(t), q.Sleeping?) else s.Of(t))
    && forall d :: 0 <= d < |s.cpus| ==>
         r.cpus[d] == s.cpus[d].(runnable := s.cpus[d].runnable + OfCpu(s, woken, d))
  }

  /** The sleepers of `c` that are due, and no others, are woken. */
  ghost predicate WakesDue(s: Sched, r: Sched, c: nat, now: nat, n: nat) {
    && Wakes(s, r, Sleeping(c), n)
    && forall i :: 0 <= i < |s.Waiters(Sleeping(c))| ==>
         (i < n <==> s.Of(s.Waiters(Sleeping(c))[i]).sleepUntil <= now)
  }

  /** A new task, at the end of the run queue of its CPU. */
  ghost predicate Starts(s: Sched, r: Sched, t: TaskRef, c: nat, process: Option<nat>) {
    && c < |s.cpus| && r.exiting == s.exiting && r.all == s.all + [t] && SameQueues(s, r) && t !in s.tasks
    && r.tasks == s.tasks[t := Task(c, Ready, None, 0, process)]
    && r.cpus == s.cpus[c := s.cpus[c].(runnable := s.cpus[c].runnable + [t])]
  }

  // ---------------------------------------------------------------- proofs: picking and switching

  /** What the picker does to the queue it takes from. */
  ghost predicate TakesNext(s: Sched, r: Sched, c: nat, next: TaskRef, k: nat) {
    && c < |s.cpus| && k <= |s.cpus[c].runnable| && SameQueues(s, r) && r.exiting == s.exiting && r.all == s.all
    && r.tasks.Keys == s.tasks.Keys
    && var was, queue := s.cpus[c], s.cpus[c].runnable;
    && (forall i :: 0 <= i < k ==> s.ProcessExiting(queue[i]))
    && (if k < |queue| then next == queue[k] && !s.ProcessExiting(next) else next == was.idle)
    && r.cpus == s.cpus[c := was.(needsCleanup := was.needsCleanup || k > 0,
                                  runnable := if k < |queue| then queue[k + 1..] else [])]
    && forall u: TaskRef :: r.Of(u) == if u in queue[..k] then s.Of(u).(state := Dead) else s.Of(u)
  }

  lemma {:induction false} PickDoes(s: Sched, c: nat) returns (k: nat)
    requires Inv(s) && c < |s.cpus|
    ensures TakesNext(s, Picked(s, c).0, c, Picked(s, c).1, k)
    decreases |s.cpus[c].runnable|
  {
    var queue := s.cpus[c].runnable;
    k := 0;
    if queue != [] {
      assert CpuOk(s, c) && queue[0] in queue;
      if s.ProcessExiting(queue[0]) {
        KilledKeeps(s, c);
        k := PickDoes(Killed(s, c), c);
        PickBehindKilled(s, Picked(s, c).0, c, Picked(s, c).1, k);
        k := k + 1;
      }
    }
  }

  lemma PickBehindKilled(s: Sched, r: Sched, c: nat, next: TaskRef, k: nat)
    requires c < |s.cpus| && s.cpus[c].runnable != [] && s.cpus[c].runnable[0] in s.tasks
    requires NoDuplicates(s.cpus[c].runnable) && s.ProcessExiting(s.cpus[c].runnable[0])
    requires TakesNext(Killed(s, c), r, c, next, k)
    ensures TakesNext(s, r, c, next, k + 1)
  {
    var m, queue := Killed(s, c), s.cpus[c].runnable;
    assert forall u :: m.ProcessExiting(u) == s.ProcessExiting(u);
    forall i | 0 <= i < k + 1 ensures s.ProcessExiting(queue[i]) {
      if i > 0 { assert queue[i] == queue[1..][i - 1]; }
    }
    assert k < |queue[1..]| ==> queue[1..][k + 1..] == queue[k + 2..];
    TasksBehindKilled(s, r, c, next, k);
  }

  lemma TasksBehindKilled(s: Sched, r: Sched, c: nat, next: TaskRef, k: nat)
    requires c < |s.cpus| && s.cpus[c].runnable != [] && s.cpus[c].runnable[0] in s.tasks
    requires NoDuplicates(s.cpus[c].runnable) && TakesNext(Killed(s, c), r, c, next, k)
    ensures var queue := s.cpus[c].runnable;
            && k + 1 <= |queue|
            && forall u: TaskRef :: r.Of(u) == if u in queue[..k + 1] then s.Of(u).(state := Dead) else s.Of(u)
  {
    var m, queue := Killed(s, c), s.cpus[c].runnable;
    TakeOne(queue, k);
    Tail(queue);
    assert queue[..1] == [queue[0]];
    assert forall u :: u in queue[1..][..k] ==> u in queue[1..];
  }

  /** The tasks of a run queue are ready, and neither the idle nor the cleanup task is among them. */
  lemma QueueIsReady(l: Sched, c: nat)
    requires Inv(l) && c < |l.cpus|
    ensures NoDuplicates(l.cpus[c].runnable)
    ensures forall u :: u in l.cpus[c].runnable ==> u in l.tasks && l.Of(u).state == Ready
    ensures l.cpus[c].idle !in l.cpus[c].runnable && l.cpus[c].cleanup !in l.cpus[c].runnable
    ensures l.cpus[c].idle in l.tasks && l.cpus[c].cleanup in l.tasks
  {
    assert CpuOk(l, c);
    forall u | u in l.cpus[c].runnable ensures u in l.tasks && l.Of(u).state == Ready && !l.Service(u) {
      assert RunnableOn(l, c, u);
    }
    assert l.Service(l.cpus[c].idle) && l.Service(l.cpus[c].cleanup);
  }

  lemma PickedStates(l: Sched, m: Sched, c: nat, next: TaskRef, k: nat)
    requires Inv(l) && TakesNext(l, m, c, next, k)
    ensures StatesThen(l, Dispatched(m, c, next), c, l.cpus[c].runnable, k, None)
  {
    var r, queue := Dispatched(m, c, next), l.cpus[c].runnable;
    QueueIsReady(l, c);
    assert next in l.tasks && next !in queue[..k];
    forall u: TaskRef ensures r.Of(u) == l.Of(u).(state := StateThen(l, queue, k, r.cpus[c].current, u)) {
      assert u in queue[..k] ==> u in queue;
    }
  }

  lemma CleanupStates(l: Sched, c: nat)
    requires Inv(l) && c < |l.cpus|
    ensures StatesThen(l, Dispatched(l, c, l.cpus[c].cleanup), c, l.cpus[c].runnable, 0, None)
  {
    var r, queue := Dispatched(l, c, l.cpus[c].cleanup), l.cpus[c].runnable;
    QueueIsReady(l, c);
    forall u: TaskRef ensures r.Of(u) == l.Of(u).(state := StateThen(l, queue, 0, r.cpus[c].current, u)) {}
  }

  /** What a switch does to the state in which nothing is current any more. */
  lemma SwitchDoes(b: Sched, c: nat) returns (k: nat)
    requires c < |b.cpus| && Inv(Left(b, c))
    ensures var l, r := Left(b, c), Switched(b, c);
            && HandedOver(l, r, c, l.cpus[c].runnable, l.cpus[c].needsCleanup, k)
            && StatesThen(l, r, c, l.cpus[c].runnable, k, None)
            && SameQueues(l, r) && r.exiting == l.exiting && r.all == l.all
  {
    var l := Left(b, c);
    k := 0;
    if l.cpus[c].needsCleanup {
      CleanupStates(l, c);
    } else {
      k := PickDoes(l, c);
      PickedStates(l, Picked(l, c).0, c, Picked(l, c).1, k);
    }
  }

  /** `l` is `s` with the running task taken off its CPU. */
  ghost predicate LeftBy(s: Sched, l: Sched, c: nat, queue: seq<TaskRef>, left: Option<TaskRef>) {
    && c < |s.cpus| == |l.cpus| && l.exiting == s.exiting && l.tasks.Keys == s.tasks.Keys
    && l.cpus[c].idle == s.cpus[c].idle && l.cpus[c].cleanup == s.cpus[c].cleanup
    && (forall d :: 0 <= d < |s.cpus| && d != c ==> l.cpus[d] == s.cpus[d])
    && (forall u: TaskRef :: l.Of(u).process == s.Of(u).process)
    && (forall u: TaskRef :: left != Some(u) ==>
          l.Of(u) == s.Of(u) || (u in queue && l.Of(u) == s.Of(u).(state := Ready)))
  }

  lemma FromBefore(s: Sched, l: Sched, r: Sched, c: nat, queue: seq<TaskRef>, cleanup: bool, k: nat,
                   left: Option<TaskRef>)
    requires LeftBy(s, l, c, queue, left)
    requires HandedOver(l, r, c, queue, cleanup, k) && StatesThen(l, r, c, queue, k, None)
    ensures HandedOver(s, r, c, queue, cleanup, k) && StatesThen(s, r, c, queue, k, left)
  {
    assert forall u: TaskRef :: l.ProcessExiting(u) == s.ProcessExiting(u);
  }

  // ---------------------------------------------------------------- proofs: the steps

  lemma YieldDoes(s: Sched, c: nat) returns (k: nat)
    requires Inv(s) && c < |s.cpus|
    ensures Yields(s, After(s, Yield(c)), c, k)
  {
    LeftKeeps(s, c);
    k := SwitchDoes(s, c);
    YieldLeaves(s, c);
    FromBefore(s, Left(s, c), Switched(s, c), c, Left(s, c).cpus[c].runnable, s.cpus[c].needsCleanup, k, None);
  }

  lemma YieldLeaves(s: Sched, c: nat)
    requires Inv(s) && c < |s.cpus|
    ensures var l := Left(s, c);
            && l.cpus[c].runnable == s.cpus[c].runnable + (if Acts(s, c) then [s.cpus[c].current.value] else [])
            && LeftBy(s, l, c, l.cpus[c].runnable, None) && l.cpus[c].needsCleanup == s.cpus[c].needsCleanup
            && l.all == s.all && SameQueues(s, l)
  {
    assert CpuOk(s, c);
    if s.cpus[c].current.Some? {
      assert CurrentOn(s, c, s.cpus[c].current.value) && TaskOk(s, s.cpus[c].current.value);
    }
  }

  /** `b` is `s` but for the task that is about to leave `c`, which does not run any more, and for the wait queues. */
  ghost predicate Leaving(s: Sched, b: Sched, c: nat) {
    && Acts(s, c) && |b.cpus| == |s.cpus| && b.exiting == s.exiting && b.tasks.Keys == s.tasks.Keys
    && b.cpus == s.cpus[c := s.cpus[c].(needsCleanup := b.cpus[c].needsCleanup)]
    && var t := s.cpus[c].current.value;
    && b.Of(t).state in {Blocked, Dead} && b.Of(t).process == s.Of(t).process
    && forall u: TaskRef :: u != t ==> b.Of(u) == s.Of(u)
  }

  lemma LeavingLeft(s: Sched, b: Sched, c: nat)
    requires Leaving(s, b, c)
    ensures var l, t := Left(b, c), s.cpus[c].current.value;
            && LeftBy(s, l, c, s.cpus[c].runnable, Some(t)) && l.Of(t) == b.Of(t) && SameQueues(b, l)
            && l.cpus[c].runnable == s.cpus[c].runnable && l.cpus[c].needsCleanup == b.cpus[c].needsCleanup
            && l.all == b.all
  {
  }

  /** What is left of `s` when its running task has gone to the wait queues of `b`. */
  ghost predicate GaveUp(s: Sched, b: Sched, r: Sched, c: nat, k: nat) {
    && Acts(s, c) && c < |b.cpus|
    && var t := s.cpus[c].current.value;
    && HandedOver(s, r, c, s.cpus[c].runnable, b.cpus[c].needsCleanup, k)
    && StatesThen(s, r, c, s.cpus[c].runnable, k, Some(t))
    && SameQueues(b, r) && r.exiting == b.exiting && r.all == b.all && r.Of(t) == b.Of(t)
  }

  /** A task that left its CPU in another state than running is not put back. */
  lemma LeavesFor(s: Sched, b: Sched, c: nat) returns (k: nat)
    requires Inv(s) && Leaving(s, b, c) && Inv(Left(b, c))
    ensures GaveUp(s, b, Switched(b, c), c, k)
  {
    var t, l := s.cpus[c].current.value, Left(b, c);
    k := SwitchDoes(b, c);
    LeavingLeft(s, b, c);
    FromBefore(s, l, Switched(b, c), c, s.cpus[c].runnable, b.cpus[c].needsCleanup, k, Some(t));
    ActsRunning(s, c);
    StaysLeft(s, l, Switched(b, c), c, k, b.cpus[c].needsCleanup, t);
  }

  lemma StaysLeft(s: Sched, l: Sched, r: Sched, c: nat, k: nat, cleanup: bool, t: TaskRef)
    requires c < |s.cpus| && t !in s.cpus[c].runnable && t != s.cpus[c].idle && t != s.cpus[c].cleanup
    requires StatesThen(l, r, c, s.cpus[c].runnable, k, None) && HandedOver(s, r, c, s.cpus[c].runnable, cleanup, k)
    ensures r.Of(t) == l.Of(t)
  {
    var queue := s.cpus[c].runnable;
    assert forall u :: u in queue[..k] ==> u in queue;
    assert k < |queue| ==> queue[k] in queue;
    assert r.cpus[c].current != Some(t);
  }

  lemma ParkDoes(s: Sched, c: nat, q: QueueId) returns (k: nat)
    requires Inv(s) && Enabled(s, Park(c, q))
    ensures Blocks(s, After(s, Park(c, q)), c, q, k)
  {
    k := ParkedGone(s, c, q);
  }

  lemma ParkedGone(s: Sched, c: nat, q: QueueId) returns (k: nat)
    requires Inv(s) && Enabled(s, Park(c, q))
    ensures GaveUp(s, Parked(s, c, q), Switched(Parked(s, c, q), c), c, k)
  {
    ParkedKeeps(s, c, q);
    k := LeavesFor(s, Parked(s, c, q), c);
  }

  lemma SleptGone(s: Sched, c: nat, deadline: nat) returns (k: nat)
    requires Inv(s) && Acts(s, c)
    ensures GaveUp(s, Slept(s, c, deadline), Switched(Slept(s, c, deadline), c), c, k)
  {
    SleptKeeps(s, c, deadline);
    k := LeavesFor(s, Slept(s, c, deadline), c);
  }

  lemma DiedGone(s: Sched, c: nat) returns (k: nat)
    requires Inv(s) && Acts(s, c)
    ensures GaveUp(s, Died(s, c), Switched(Died(s, c), c), c, k)
  {
    DiedKeeps(s, c);
    k := LeavesFor(s, Died(s, c), c);
  }

  lemma SleepDoes(s: Sched, c: nat, deadline: nat) returns (n: nat, k: nat)
    requires Inv(s) && Enabled(s, SleepUntil(c, deadline))
    ensures Sleeps(s, After(s, SleepUntil(c, deadline)), c, deadline, n, k)
  {
    n := SleeperBehind(s, c, deadline);
    k := SleptGone(s, c, deadline);
    SleepsSo(s, Slept(s, c, deadline), Switched(Slept(s, c, deadline), c), c, deadline, n, k);
  }

  /** `b` is `s` with the running task of `c` among the sleepers, behind the first `n`. */
  ghost predicate AmongSleepers(s: Sched, b: Sched, c: nat, deadline: nat, n: nat) {
    && Acts(s, c) && b.exiting == s.exiting && b.all == s.all && b.cpus == s.cpus
    && SameQueuesBut(s, b, Sleeping(c))
    && var t, w := s.cpus[c].current.value, s.Waiters(Sleeping(c));
    && n <= |w| && b.Waiters(Sleeping(c)) == w[..n] + [t] + w[n..]
    && (forall i :: 0 <= i < |w| ==> (i < n <==> s.Of(w[i]).sleepUntil <= deadline))
    && b.Of(t) == s.Of(t).(state := Blocked, waitingOn := Some(Sleeping(c)), sleepUntil := deadline)
  }

  lemma SleepsSo(s: Sched, b: Sched, r: Sched, c: nat, deadline: nat, n: nat, k: nat)
    requires AmongSleepers(s, b, c, deadline, n) && GaveUp(s, b, r, c, k)
    ensures Sleeps(s, r, c, deadline, n, k)
  {
  }

  lemma SleeperBehind(s: Sched, c: nat, deadline: nat) returns (n: nat)
    requires Inv(s) && Acts(s, c)
    ensures AmongSleepers(s, Slept(s, c, deadline), c, deadline, n)
  {
    var w := s.Waiters(Sleeping(c));
    n := Earlier(s, w, deadline);
    forall i | 0 <= i < |w| ensures i < n <==> s.Of(w[i]).sleepUntil <= deadline { DeadlineSide(s, c, deadline, i); }
  }

  lemma ExitDoes(s: Sched, c: nat)
    requires Inv(s) && Enabled(s, Exit(c))
    ensures Ends(s, After(s, Exit(c)), c)
  {
    var k := DiedGone(s, c);
  }

  lemma CleanupDoes(s: Sched, c: nat) returns (k: nat)
    requires Inv(s) && Enabled(s, Cleanup(c))
    ensures CleansUp(s, After(s, Cleanup(c)), c, k)
  {
    var n := FirstDead(s, s.all);
    FirstDeadFinds(s, s.all);
    forall t | t in s.all ensures t in s.tasks { assert Listed(s, t); }
    if n < |s.all| {
      k := n;
    } else {
      k := ClearedDoes(s, c);
    }
  }

  lemma ClearedDoes(s: Sched, c: nat) returns (k: nat)
    requires Inv(s) && Enabled(s, Cleanup(c)) && FirstDead(s, s.all) == |s.all|
    ensures var r := Switched(Cleared(s, c), c);
            && HandedOver(s, r, c, s.cpus[c].runnable, false, k) && StatesThen(s, r, c, s.cpus[c].runnable, k, None)
            && SameQueues(s, r) && r.exiting == s.exiting && r.all == s.all
  {
    ClearedKeeps(s, c);
    LeftKeeps(Cleared(s, c), c);
    ClearedLeaves(s, c);
    k := SwitchDoes(Cleared(s, c), c);
    FromBefore(s, Left(Cleared(s, c), c), Switched(Cleared(s, c), c), c, s.cpus[c].runnable, false, k, None);
  }

  lemma ClearedLeaves(s: Sched, c: nat)
    requires Inv(s) && Enabled(s, Cleanup(c))
    ensures var l := Left(Cleared(s, c), c);
            && l.cpus[c].runnable == s.cpus[c].runnable && LeftBy(s, l, c, s.cpus[c].runnable, None)
            && !l.cpus[c].needsCleanup && l.all == s.all && SameQueues(s, l)
  {
    assert CpuOk(s, c);
  }

  lemma SpawnDoes(s: Sched, t: TaskRef, c: nat, process: Option<nat>)
    requires Enabled(s, Spawn(t, c, process))
    ensures Starts(s, After(s, Spawn(t, c, process)), t, c, process)
  {
  }

  // ---------------------------------------------------------------- proofs: waking

  ghost predicate TasksWoken(s: Sched, r: Sched, q: QueueId, n: nat) {
    && n <= |s.Waiters(q)| && r.exiting == s.exiting && r.all == s.all && r.tasks.Keys == s.tasks.Keys
    && var woken := s.Waiters(q)[..n];
    forall t: TaskRef :: r.Of(t) == if t in woken then Awake(s.Of(t), q.Sleeping?) else s.Of(t)
  }

  predicate WaitersAreTasks(s: Sched, q: QueueId) {
    NoDuplicates(s.Waiters(q)) && forall t :: t in s.Waiters(q) ==> t in s.tasks
  }

  lemma TaskWoken(s: Sched, q: QueueId)
    requires WaitersAreTasks(s, q) && s.Waiters(q) != []
    ensures TasksWoken(s, Woken(s, q), q, 1) && Woken(s, q).Waiters(q) == s.Waiters(q)[1..]
    ensures WaitersAreTasks(Woken(s, q), q)
  {
    Tail(s.Waiters(q));
    assert s.Waiters(q)[..1] == [s.Waiters(q)[0]];
  }

  lemma BothWoken(s: Sched, r: Sched, z: Sched, q: QueueId, n: nat)
    requires TasksWoken(s, r, q, 1) && r.Waiters(q) == s.Waiters(q)[1..] && TasksWoken(r, z, q, n)
    requires NoDuplicates(s.Waiters(q))
    ensures TasksWoken(s, z, q, n + 1)
  {
    TakeOne(s.Waiters(q), n);
    Apart(s.Waiters(q), 1);
    assert forall t :: t in s.Waiters(q)[1..][..n] ==> t in s.Waiters(q)[1..];
  }

  lemma {:induction false} WokenTasks(s: Sched, q: QueueId, n: nat)
    requires WaitersAreTasks(s, q) && n <= |s.Waiters(q)|
    ensures TasksWoken(s, WokenFirst(s, q, n), q, n)
    decreases n
  {
    if n > 0 {
      TaskWoken(s, q);
      WokenTasks(Woken(s, q), q, n - 1);
      BothWoken(s, Woken(s, q), WokenFirst(s, q, n), q, n - 1);
    }
  }

  lemma WakesFirst(s: Sched, q: QueueId, n: nat)
    requires Inv(s) && n <= |s.Waiters(q)|
    ensures Wakes(s, WokenFirst(s, q, n), q, n)
  {
    assert QueueOk(s, q);
    forall t | t in s.Waiters(q) ensures t in s.tasks { assert WaitingIn(s, q, t); }
    WokenTasks(s, q, n);
    WokenQueues(s, q, n);
    SameNumber(s, q, n);
    var r, woken := WokenFirst(s, q, n), s.Waiters(q)[..n];
    forall d | 0 <= d < |s.cpus|
      ensures r.cpus[d] == s.cpus[d].(runnable := s.cpus[d].runnable + OfCpu(s, woken, d))
    {
      assert Appended(s, r, q, n, d);
    }
  }

  lemma WokenQueues(s: Sched, q: QueueId, n: nat)
    requires Inv(s) && n <= |s.Waiters(q)|
    ensures forall d :: 0 <= d < |s.cpus| ==> Appended(s, WokenFirst(s, q, n), q, n, d)
  {
    forall d | 0 <= d < |s.cpus| ensures Appended(s, WokenFirst(s, q, n), q, n, d) { WokenFirstAppends(s, q, n, d); }
  }

  lemma SameNumber(s: Sched, q: QueueId, n: nat)
    requires Inv(s) && n <= |s.Waiters(q)|
    ensures |WokenFirst(s, q, n).cpus| == |s.cpus| && Untouched(s, WokenFirst(s, q, n), q, n)
  {
    if n > 0 {
      HeadWaits(s, q);
      WokenFirstAppends(s, q, n, s.tasks[s.Waiters(q)[0]].cpu);
    }
  }

  /** The one that has waited longest is woken, if anybody waits. */
  lemma WakeDoes(s: Sched, q: QueueId)
    requires Inv(s) && Enabled(s, Wake(q))
    ensures Wakes(s, After(s, Wake(q)), q, if s.Waiters(q) == [] then 0 else 1)
  {
    WakesFirst(s, q, if s.Waiters(q) == [] then 0 else 1);
    if s.Waiters(q) != [] { assert WokenFirst(s, q, 1) == WokenFirst(Woken(s, q), q, 0) == Woken(s, q); }
  }

  lemma WakeAllDoes(s: Sched, q: QueueId)
    requires Inv(s) && Enabled(s, WakeAll(q))
    ensures Wakes(s, After(s, WakeAll(q)), q, |s.Waiters(q)|)
  {
    WakesFirst(s, q, |s.Waiters(q)|);
  }

  lemma TickDoes(s: Sched, c: nat, now: nat) returns (n: nat)
    requires Inv(s) && Enabled(s, Tick(c, now))
    ensures WakesDue(s, After(s, Tick(c, now)), c, now, n)
  {
    n := Due(s, s.Waiters(Sleeping(c)), now);
    WakesFirst(s, Sleeping(c), n);
    TickWakesExactlyTheDue(s, c, now, c);
  }

  // ---------------------------------------------------------------- what holds of every run

  /** Whoever a switch picks is not of a process that is exiting, unless it is the idle or the cleanup task. */
  lemma ExitingIsNeverPicked(states: seq<Sched>, steps: seq<Step>, i: nat, c: nat)
    requires Trace(states, steps) && i < |steps| && SwitchesOn(states[i], steps[i], c)
    ensures var r := states[i + 1];
            && c < |r.cpus| && r.cpus[c].current.Some?
            && (r.cpus[c].current.value in {r.cpus[c].idle, r.cpus[c].cleanup}
                || !r.ProcessExiting(r.cpus[c].current.value))
  {
    StepOf(states, steps, i);
    var b := BeforeSwitch(states[i], steps[i]);
    BeforeSwitchKeeps(states[i], steps[i], c);
    var k := SwitchDoes(b, c);
    assert states[i + 1] == Switched(b, c);
  }

  /** The last step before `i` in which `t` entered a wait queue. */
  ghost function ArrivedAt(states: seq<Sched>, steps: seq<Step>, i: nat, t: TaskRef): (m: int)
    requires i <= |steps| && |states| == |steps| + 1
    ensures m < i
  {
    if i == 0 then -1 else if Arrives(states[i - 1], steps[i - 1], t) then i - 1
        else ArrivedAt(states, steps, i - 1, t)
  }

  predicate Arrives(s: Sched, step: Step, t: TaskRef) {
    step.Park? && Acts(s, step.c) && s.cpus[step.c].current == Some(t)
  }

  ghost predicate ByArrival(states: seq<Sched>, steps: seq<Step>, i: nat, q: QueueId)
    requires i <= |steps| && |states| == |steps| + 1
  {
    var w := states[i].Waiters(q);
    forall a, b :: 0 <= a < b < |w| ==> ArrivedAt(states, steps, i, w[a]) < ArrivedAt(states, steps, i, w[b])
  }

  /** A wait queue loses some from its front, or one joins at its end. */
  lemma QueueAfter(s: Sched, step: Step, q: QueueId) returns (n: nat)
    requires Inv(s) && Enabled(s, step) && !q.Sleeping?
    ensures n <= |s.Waiters(q)|
    ensures After(s, step).Waiters(q)
            == s.Waiters(q)[n..] + if step.Park? && step.q == q then [s.cpus[step.c].current.value] else []
    ensures step.Park? ==> n == 0
  {
    n := 0;
    assert s.Waiters(q)[0..] == s.Waiters(q);
    match step
    case Yield(c) => var _ := YieldDoes(s, c);
    case Park(c, p) => var _ := ParkDoes(s, c, p);
    case SleepUntil(c, d) => var _, _ := SleepDoes(s, c, d);
    case Exit(c) => ExitDoes(s, c);
    case Cleanup(c) => var _ := CleanupDoes(s, c);
    case Wake(p) => WakeDoes(s, p); n := if p == q && s.Waiters(p) != [] then 1 else 0;
    case WakeAll(p) => WakeAllDoes(s, p); n := if p == q then |s.Waiters(p)| else 0;
    case Tick(c, now) => var _ := TickDoes(s, c, now);
    case _ =>
  }

  lemma ByArrivalStill(states: seq<Sched>, steps: seq<Step>, i: nat, q: QueueId)
    requires i < |steps| && |states| == |steps| + 1 && StepAt(states, steps, i) && Inv(states[i]) && !q.Sleeping?
    requires ByArrival(states, steps, i, q)
    ensures ByArrival(states, steps, i + 1, q)
  {
    var n := QueueAfter(states[i], steps[i], q);
    var w, v := states[i].Waiters(q), states[i + 1].Waiters(q);
    forall a, b | 0 <= a < b < |v|
      ensures ArrivedAt(states, steps, i + 1, v[a]) < ArrivedAt(states, steps, i + 1, v[b])
    {
      StoodAlready(states, steps, i, q, n + a);
      if n + b < |w| { StoodAlready(states, steps, i, q, n + b); }
    }
  }

  lemma StoodAlready(states: seq<Sched>, steps: seq<Step>, i: nat, q: QueueId, a: nat)
    requires i < |steps| && |states| == |steps| + 1 && StepAt(states, steps, i) && Inv(states[i])
    requires a < |states[i].Waiters(q)|
    ensures var t := states[i].Waiters(q)[a];
            ArrivedAt(states, steps, i + 1, t) == ArrivedAt(states, steps, i, t)
  {
    if steps[i].Park? { ActsRunning(states[i], steps[i].c); }
  }

  /** In every state of every run: whoever stands in front of another in a wait queue has been waiting for longer, and
      so is woken first. */
  lemma {:induction false} WaitersInArrivalOrder(states: seq<Sched>, steps: seq<Step>, i: nat, q: QueueId)
    requires Trace(states, steps) && i < |states| && !q.Sleeping?
    ensures ByArrival(states, steps, i, q)
  {
    if i > 0 {
      WaitersInArrivalOrder(states, steps, i - 1, q);
      StepOf(states, steps, i - 1);
      ByArrivalStill(states, steps, i - 1, q);
    }
  }
}
