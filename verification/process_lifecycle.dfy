/** Processes on one CPU: fork, exit, wait4 and the cleanup task, as steps that are atomic with respect to each
    other. */
module Lifecycle {
  import opened Collections
  import opened Scheduling
  import opened SchedulerRuns

  datatype Proc = Proc(zombie: bool, exitCode: int, parent: Option<nat>, children: seq<nat>, threads: seq<TaskRef>,
                       hasSpace: bool)

  /** `procs` is the process list.  The rest is history: who exited with what, what wait4 returned, whose exit code
      was lost on its way to the user, and whose address space was destroyed. */
  datatype World = World(sched: Sched, procs: map<nat, Proc>, pidCount: nat,
                         exited: map<nat, int>, returned: seq<(nat, int)>, lost: set<nat>, destroyed: seq<nat>)

  datatype Act =
    | Scheduling(step: Step)
    | Launch(t: TaskRef)
    | Fork(t: TaskRef)
    | Exit(code: int)
    | Wait4(copied: bool)
    | CleanUp

  // ---------------------------------------------------------------- what may happen

  /** The process of the running task. */
  function Caller(w: World): Option<nat>
    requires Acts(w.sched, 0)
  {
    w.sched.Of(w.sched.cpus[0].current.value).process
  }

  /** A system call: an ordinary task of a process is running. */
  predicate Calls(w: World) {
    Acts(w.sched, 0) && Caller(w).Some? && Caller(w).value in w.procs
  }

  /** Whatever else goes on: preemption, sleeping, blocking on and waking from other queues, and kernel tasks. */
  predicate Elsewhere(w: World, step: Step) {
    && Enabled(w.sched, step)
    && match step
       case Yield(_) => true
       case SleepUntil(_, _) => true
       case Tick(_, _) => true
       case Park(_, q) => q.Channel?
       case Wake(q) => q.Channel?
       case WakeAll(q) => q.Channel?
       case Spawn(_, _, process) => process == None
       case Exit(_) => Acts(w.sched, 0) && Caller(w) == None
       case _ => false
  }

  /** All children of `p` have exited. */
  predicate Outlives(w: World, p: nat)
    requires p in w.procs
  {
    forall c :: c in w.procs[p].children ==> c in w.procs && w.procs[c].zombie
  }

  /** Parents outlive their children: a process does not exit while one of them runs. */
  predicate Can(w: World, a: Act) {
    && |w.sched.cpus| == 1
    && match a
       case Scheduling(step) => Elsewhere(w, step)
       case Launch(t) => t !in w.sched.tasks
       case Fork(t) => Calls(w) && t !in w.sched.tasks
       case Exit(_) => Calls(w) && w.procs[Caller(w).value].parent.Some? && Outlives(w, Caller(w).value)
       case Wait4(_) => Calls(w)
       case CleanUp => Enabled(w.sched, Cleanup(0))
  }

  // ---------------------------------------------------------------- what happens

  /** A process with one thread, which is put in the run queue. */
  function Launched(w: World, t: TaskRef, parent: Option<nat>): World
    requires |w.sched.cpus| == 1
  {
    w.(sched := Spawned(w.sched, t, 0, Some(w.pidCount)),
       procs := w.procs[w.pidCount := Proc(false, 0, parent, [], [t], true)],
       pidCount := w.pidCount + 1)
  }

  function Forked(w: World, t: TaskRef): World
    requires |w.sched.cpus| == 1 && Calls(w)
  {
    var p := Caller(w).value;
    var l := Launched(w, t, Some(p));
    if p in l.procs then l.(procs := l.procs[p := l.procs[p].(children := l.procs[p].children + [w.pidCount])]) else l
  }

  /** The process is marked, everybody waiting for a child of the parent is woken, and the task dies. */
  function ExitSched(s: Sched, p: nat, parent: nat): Sched {
    AllWoken(s.(exiting := s.exiting + {p}), Children(parent))
  }

  function Exited(w: World, code: int): World
    requires |w.sched.cpus| == 1 && Calls(w) && w.procs[Caller(w).value].parent.Some?
  {
    var p := Caller(w).value;
    var s := ExitSched(w.sched, p, w.procs[p].parent.value);
    w.(sched := if Acts(s, 0) then Switched(Scheduling.Died(s, 0), 0) else s,
       procs := w.procs[p := w.procs[p].(zombie := true, exitCode := code)],
       exited := w.exited[p := code])
  }

  /** The index of the first zombie among the children. */
  function FirstZombie(procs: map<nat, Proc>, children: seq<nat>): (n: nat)
    ensures n <= |children|
  {
    if children == [] || (children[0] in procs && procs[children[0]].zombie) then 0
        else 1 + FirstZombie(procs, children[1..])
  }

  function Waited(w: World, copied: bool): World
    requires |w.sched.cpus| == 1 && Calls(w)
  {
    var p := Caller(w).value;
    var children := w.procs[p].children;
    var n := FirstZombie(w.procs, children);
    if n < |children| && children[n] in w.procs then
      var c := children[n];
      var procs := w.procs[p := w.procs[p].(children := children[..n] + children[n + 1..])];
      if copied then w.(procs := procs - {c}, returned := w.returned + [(c, w.procs[c].exitCode)])
      else w.(procs := procs, lost := w.lost + {c})
    else if children == [] then w
    else w.(sched := Switched(Parked(w.sched, 0, Children(p)), 0))
  }

  /** The dead task leaves its process; with the last thread of an exiting process its address space goes. */
  function CleanedUp(w: World): World
    requires |w.sched.cpus| == 1 && Enabled(w.sched, Cleanup(0))
  {
    var s := w.sched;
    var n := FirstDead(s, s.all);
    var r := w.(sched := After(s, Cleanup(0)));
    if n < |s.all| && s.Of(s.all[n]).process.Some? && s.Of(s.all[n]).process.value in w.procs then
      var p := s.Of(s.all[n]).process.value;
      var threads := Removed(w.procs[p].threads, s.all[n]);
      if p in s.exiting && threads == [] then
        r.(procs := w.procs[p := w.procs[p].(threads := threads, hasSpace := false)], destroyed := w.destroyed + [p])
      else r.(procs := w.procs[p := w.procs[p].(threads := threads)])
    else r
  }

  function Removed(s: seq<TaskRef>, t: TaskRef): seq<TaskRef> {
    if s == [] then [] else if s[0] == t then s[1..] else [s[0]] + Removed(s[1..], t)
  }

  function Do(w: World, a: Act): World
    requires Can(w, a)
  {
    match a
    case Scheduling(step) => w.(sched := After(w.sched, step))
    case Launch(t) => Launched(w, t, None)
    case Fork(t) => Forked(w, t)
    case Exit(code) => Exited(w, code)
    case Wait4(copied) => Waited(w, copied)
    case CleanUp => CleanedUp(w)
  }

  // ---------------------------------------------------------------- the invariant

  /** The process with pid `p` has one live thread, a dead one, or none left. */
  predicate ProcOk(w: World, p: nat)
    requires p in w.procs
  {
    var proc := w.procs[p];
    && p < w.pidCount && proc.hasSpace == (proc.threads != []) && (proc.zombie <==> p in w.sched.exiting)
    && (if proc.threads == [] then proc.zombie
        else |proc.threads| == 1 && ThreadOf(w, p, proc.threads[0]))
  }

  predicate ThreadOf(w: World, p: nat, t: TaskRef)
    requires p in w.procs
  {
    t in w.sched.tasks && w.sched.tasks[t].process == Some(p) && (w.procs[p].zombie <==> w.sched.tasks[t].state == Dead)
  }

  predicate TaskOwned(w: World, t: TaskRef)
    requires t in w.sched.tasks
  {
    match w.sched.tasks[t].process
    case None => true
    case Some(p) => p in w.procs && w.procs[p].threads == [t]
  }

  /** Only a zombie's parent may be gone. */
  predicate ParentOk(w: World, p: nat, parent: nat)
    requires p in w.procs
  {
    && parent < w.pidCount && (!w.procs[p].zombie ==> parent in w.procs)
    && (parent in w.procs && (p !in w.lost || !w.procs[p].zombie) ==> p in w.procs[parent].children)
  }

  /** Children know their parents; a child that is not on its parent's list has been waited for in vain. */
  ghost predicate FamilyOk(w: World, p: nat)
    requires p in w.procs
  {
    var proc := w.procs[p];
    && (forall c :: c in proc.children ==> ChildOf(w, p, c))
    && (forall i, j :: 0 <= i < j < |proc.children| ==> proc.children[i] != proc.children[j])
    && (proc.parent.Some? ==> ParentOk(w, p, proc.parent.value))
    && (proc.zombie ==> Outlives(w, p))
  }

  predicate ChildOf(w: World, p: nat, c: nat) {
    c in w.procs && w.procs[c].parent == Some(p) && c !in w.lost && c != p
  }

  /** Whoever waits for a child is a thread of the parent, and no child of its is a zombie. */
  predicate WaiterOk(w: World, p: nat, t: TaskRef) {
    && t in w.sched.tasks && w.sched.tasks[t].process == Some(p) && p in w.procs
    && w.procs[p].children != [] && forall c :: c in w.procs[p].children ==> c in w.procs && !w.procs[c].zombie
  }

  /** Every exit is accounted for exactly once. */
  ghost predicate BooksOk(w: World) {
    && (forall p :: p in w.exited <==> p in w.sched.exiting)
    && (forall p :: p in w.exited <==> (p in w.procs && w.procs[p].zombie) || ReturnedPid(w, p))
    && (forall p :: p in w.procs && p in w.exited ==> !ReturnedPid(w, p) && w.procs[p].exitCode == w.exited[p])
    && (forall i :: 0 <= i < |w.returned| ==>
          w.returned[i].0 in w.exited && w.exited[w.returned[i].0] == w.returned[i].1)
    && (forall i, j :: 0 <= i < j < |w.returned| ==> w.returned[i].0 != w.returned[j].0)
    && (forall p :: p in w.lost ==> p in w.procs && w.procs[p].zombie)
    && (forall p :: p in w.exited ==> p < w.pidCount)
  }

  ghost predicate ReturnedPid(w: World, p: nat) {
    exists i :: 0 <= i < |w.returned| && w.returned[i].0 == p
  }

  /** Every address space that is gone was destroyed once. */
  ghost predicate SpacesOk(w: World) {
    && (forall i, j :: 0 <= i < j < |w.destroyed| ==> w.destroyed[i] != w.destroyed[j])
    && (forall p :: p in w.destroyed ==> p in w.exited && (p in w.procs ==> w.procs[p].threads == []))
    && (forall p :: p in w.procs && w.procs[p].threads == [] ==> p in w.destroyed)
    && (forall p :: ReturnedPid(w, p) ==> p in w.destroyed)
  }

  ghost predicate SchedOk(w: World) {
    && Inv(w.sched) && |w.sched.cpus| == 1
    && (w.sched.cpus[0].needsCleanup ==> w.sched.cpus[0].current == Some(w.sched.cpus[0].cleanup))
  }

  ghost predicate ProcsOk(w: World) { forall p :: p in w.procs ==> ProcOk(w, p) }

  ghost predicate TasksOk(w: World) { forall t :: t in w.sched.tasks ==> TaskOwned(w, t) }

  ghost predicate FamiliesOk(w: World) { forall p :: p in w.procs ==> FamilyOk(w, p) }

  ghost predicate WaitersOk(w: World) { forall p, t :: t in w.sched.Waiters(Children(p)) ==> WaiterOk(w, p, t) }

  ghost predicate WorldInv(w: World) {
    SchedOk(w) && ProcsOk(w) && TasksOk(w) && FamiliesOk(w) && WaitersOk(w) && BooksOk(w) && SpacesOk(w)
  }

  // ---------------------------------------------------------------- steps that do not concern processes

  predicate SameOwned(s: Sched, r: Sched, t: TaskRef) {
    s.Of(t).process.Some? || r.Of(t).process.Some? ==>
      && t in s.tasks && t in r.tasks && r.tasks[t].process == s.tasks[t].process
      && (r.tasks[t].state == Dead <==> s.tasks[t].state == Dead)
  }

  /** As far as processes can tell, nothing has happened. */
  ghost predicate Calm(s: Sched, r: Sched) {
    && |s.cpus| == 1 && |r.cpus| == 1 && r.exiting == s.exiting
    && (forall t :: SameOwned(s, r, t))
    && (forall p :: r.Waiters(Children(p)) == s.Waiters(Children(p)))
    && (r.cpus[0].needsCleanup ==> r.cpus[0].current == Some(r.cpus[0].cleanup))
  }

  lemma CalmKeeps(w: World, r: Sched)
    requires ProcsOk(w) && TasksOk(w) && FamiliesOk(w) && WaitersOk(w) && BooksOk(w) && SpacesOk(w)
    requires Inv(r) && Calm(w.sched, r)
    ensures WorldInv(w.(sched := r))
  {
    var u := w.(sched := r);
    forall p | p in u.procs ensures ProcOk(u, p) {
      assert ProcOk(w, p);
      if w.procs[p].threads != [] { assert SameOwned(w.sched, r, w.procs[p].threads[0]); }
    }
    forall t | t in r.tasks ensures TaskOwned(u, t) {
      assert SameOwned(w.sched, r, t);
      assert t in w.sched.tasks ==> TaskOwned(w, t);
    }
    SameFamilies(w, u);
    forall p, t | t in r.Waiters(Children(p)) ensures WaiterOk(u, p, t) {
      assert WaiterOk(w, p, t) && SameOwned(w.sched, r, t);
    }
    SameBooks(w, u);
  }

  lemma SameFamily(w: World, v: World, p: nat)
    requires p in w.procs && FamilyOk(w, p) && v.procs == w.procs && v.lost == w.lost
             && v.pidCount == w.pidCount
    ensures FamilyOk(v, p)
  {
    forall c | c in v.procs[p].children ensures ChildOf(v, p, c) { assert ChildOf(w, p, c); }
  }

  lemma SameFamilies(w: World, v: World)
    requires FamiliesOk(w) && v == w.(sched := v.sched)
    ensures FamiliesOk(v)
  {
    forall q | q in v.procs ensures FamilyOk(v, q) {
      assert FamilyOk(w, q);
      SameFamily(w, v, q);
    }
  }

  lemma SameBooks(w: World, v: World)
    requires BooksOk(w) && SpacesOk(w) && v == w.(sched := v.sched) && v.sched.exiting == w.sched.exiting
    ensures BooksOk(v) && SpacesOk(v)
  {
    assert forall p :: ReturnedPid(w, p) <==> ReturnedPid(v, p);
  }

  /** No task of an exiting process is left but a dead one, so the picker never finds one. */
  ghost predicate Quiet(s: Sched) {
    forall t :: t in s.tasks && s.ProcessExiting(t) ==> s.tasks[t].state == Dead
  }

  lemma InvQuiet(w: World)
    requires ProcsOk(w) && TasksOk(w)
    ensures Quiet(w.sched)
  {
    forall t | t in w.sched.tasks && w.sched.ProcessExiting(t) ensures w.sched.tasks[t].state == Dead {
      assert TaskOwned(w, t);
      assert ProcOk(w, w.sched.tasks[t].process.value);
    }
  }

  lemma QuietPick(s: Sched)
    requires Inv(s) && |s.cpus| == 1 && Quiet(s)
    ensures Picked(s, 0) == if s.cpus[0].runnable == [] then (s, s.cpus[0].idle)
            else (Dropped(s, 0), s.cpus[0].runnable[0])
    ensures s.cpus[0].runnable != [] ==> s.Of(s.cpus[0].runnable[0]).state == Ready
  {
    var queue := s.cpus[0].runnable;
    if queue != [] {
      assert CpuOk(s, 0) && queue[0] in queue;
      assert RunnableOn(s, 0, queue[0]);
    }
  }

  lemma LeftQuiet(s: Sched)
    requires |s.cpus| == 1 && Quiet(s)
    ensures Quiet(Left(s, 0))
  {
  }

  lemma LeftSame(s: Sched, t: TaskRef)
    requires |s.cpus| == 1 && forall u :: s.cpus[0].current == Some(u) ==> u in s.tasks
    ensures SameOwned(s, Left(s, 0), t)
  {
  }

  /** The pick takes nothing but the head of the run queue, and that one is alive. */
  lemma ChosenSame(l: Sched)
    requires Inv(l) && |l.cpus| == 1 && Quiet(l)
    ensures var (r, next) := Chosen(l, 0);
            && r.tasks == l.tasks && r.waiting == l.waiting && r.exiting == l.exiting && |r.cpus| == 1
            && r.cpus[0].cleanup == l.cpus[0].cleanup && r.cpus[0].needsCleanup == l.cpus[0].needsCleanup
            && next in l.tasks && l.tasks[next].state != Dead && (l.cpus[0].needsCleanup ==> next == l.cpus[0].cleanup)
  {
    assert CpuOk(l, 0) && TaskOk(l, l.cpus[0].idle) && TaskOk(l, l.cpus[0].cleanup);
    QuietPick(l);
    if l.cpus[0].runnable != [] {
      assert l.cpus[0].runnable[0] in l.cpus[0].runnable;
      assert RunnableOn(l, 0, l.cpus[0].runnable[0]);
    }
  }

  lemma DispatchedSame(r: Sched, next: TaskRef, t: TaskRef)
    requires |r.cpus| == 1 && next in r.tasks && r.tasks[next].state != Dead
    ensures SameOwned(r, Dispatched(r, 0, next), t)
  {
  }

  lemma SameTwice(s: Sched, l: Sched, r: Sched, t: TaskRef)
    requires SameOwned(s, l, t) && SameOwned(l, r, t)
    ensures SameOwned(s, r, t)
  {
  }

  /** A switch makes nobody dead and moves nobody between wait queues; if cleanup is due, the cleanup task runs next. */
  lemma SwitchCalm(s: Sched)
    requires |s.cpus| == 1 && Inv(Left(s, 0)) && Quiet(s) && forall t :: s.cpus[0].current == Some(t) ==> t in s.tasks
    ensures Calm(s, Switched(s, 0)) && Switched(s, 0).waiting == s.waiting
    ensures s.cpus[0].needsCleanup ==> Switched(s, 0).cpus[0].current == Some(s.cpus[0].cleanup)
  {
    var l := Left(s, 0);
    LeftQuiet(s);
    ChosenSame(l);
    var (r, next) := Chosen(l, 0);
    forall t ensures SameOwned(s, Switched(s, 0), t) {
      LeftSame(s, t);
      DispatchedSame(r, next, t);
      assert SameOwned(l, Dispatched(r, 0, next), t);
      SameTwice(s, l, Switched(s, 0), t);
    }
  }

  /** The same for the switch at the end of a step. */
  lemma StepSwitchCalm(s: Sched, step: Step)
    requires Inv(s) && |s.cpus| == 1 && Enabled(s, step) && SwitchesOn(s, step, 0)
    requires |BeforeSwitch(s, step).cpus| == 1 && Quiet(BeforeSwitch(s, step))
    ensures Calm(BeforeSwitch(s, step), After(s, step)) && After(s, step).waiting == BeforeSwitch(s, step).waiting
    ensures BeforeSwitch(s, step).cpus[0].needsCleanup ==>
              After(s, step).cpus[0].current == Some(BeforeSwitch(s, step).cpus[0].cleanup)
  {
    BeforeSwitchKeeps(s, step, 0);
    assert CpuOk(s, 0);
    SwitchCalm(BeforeSwitch(s, step));
  }

  // ---------------------------------------------------------------- everything else that goes on

  /** Before its switch, the step has changed nothing that processes can tell. */
  lemma BeforeSame(w: World, step: Step)
    requires SchedOk(w) && Elsewhere(w, step) && SwitchesOn(w.sched, step, 0)
    ensures var b := BeforeSwitch(w.sched, step);
            && |b.cpus| == 1 && b.exiting == w.sched.exiting && (forall t :: SameOwned(w.sched, b, t))
            && (forall p :: b.Waiters(Children(p)) == w.sched.Waiters(Children(p)))
            && (b.cpus[0].needsCleanup ==> w.sched.cpus[0].needsCleanup || step.Exit?)
  {
    if !step.Yield? { ActsRunning(w.sched, 0); }
  }

  lemma ElsewhereKeeps(w: World, step: Step)
    requires SchedOk(w) && ProcsOk(w) && TasksOk(w) && Elsewhere(w, step)
    ensures Inv(After(w.sched, step)) && Calm(w.sched, After(w.sched, step))
  {
    var s, r := w.sched, After(w.sched, step);
    AfterKeeps(s, step);
    if SwitchesOn(s, step, 0) {
      BeforeSame(w, step);
      InvQuiet(w);
      var b := BeforeSwitch(s, step);
      forall t | t in b.tasks && b.ProcessExiting(t) ensures b.tasks[t].state == Dead { assert SameOwned(s, b, t); }
      StepSwitchCalm(s, step);
      forall t ensures SameOwned(s, r, t) { SameTwice(s, b, r, t); }
    } else {
      QueueingCalm(w, step);
    }
  }

  lemma QueueingCalm(w: World, step: Step)
    requires SchedOk(w) && Elsewhere(w, step) && !SwitchesOn(w.sched, step, 0)
    ensures Calm(w.sched, After(w.sched, step))
  {
    var s, r := w.sched, After(w.sched, step);
    match step
    case Spawn(t, c, p) =>
    case Wake(q) => if s.Waiters(q) != [] { WakingCalm(s, q, 1); assert WokenFirst(s, q, 1) == Woken(s, q); }
    case WakeAll(q) => WakingCalm(s, q, |s.Waiters(q)|);
    case Tick(c, now) => WakingCalm(s, Sleeping(c), Due(s, s.Waiters(Sleeping(c)), now));
  }

  /** Waking from a queue that is not one of children. */
  lemma WakingCalm(s: Sched, q: QueueId, n: nat)
    requires Inv(s) && |s.cpus| == 1 && n <= |s.Waiters(q)| && !q.Children?
    requires s.cpus[0].needsCleanup ==> s.cpus[0].current == Some(s.cpus[0].cleanup)
    ensures Calm(s, WokenFirst(s, q, n))
  {
    WokenSame(s, q, n);
    forall p ensures WokenFirst(s, q, n).Waiters(Children(p)) == s.Waiters(Children(p)) {
      OtherQueue(s, q, n, Children(p));
    }
  }

  /** Waking kills nobody and switches to nobody. */
  lemma {:induction false} WokenSame(s: Sched, q: QueueId, n: nat)
    requires Inv(s) && |s.cpus| == 1 && n <= |s.Waiters(q)|
    ensures var r := WokenFirst(s, q, n);
            && |r.cpus| == 1 && r.exiting == s.exiting && (forall t :: SameOwned(s, r, t))
            && r.cpus[0].current == s.cpus[0].current && r.cpus[0].cleanup == s.cpus[0].cleanup
            && r.cpus[0].idle == s.cpus[0].idle && r.cpus[0].needsCleanup == s.cpus[0].needsCleanup
    decreases n
  {
    if n > 0 {
      HeadWaits(s, q);
      WokenKeeps(s, q);
      var m := Woken(s, q);
      WokenSame(m, q, n - 1);
      forall t ensures SameOwned(s, WokenFirst(s, q, n), t) { SameTwice(s, m, WokenFirst(s, q, n), t); }
    }
  }

  // ---------------------------------------------------------------- launch and fork

  lemma WaiterIsThread(w: World, p: nat, u: TaskRef)
    requires Inv(w.sched) && TasksOk(w) && WaitersOk(w) && u in w.sched.Waiters(Children(p))
    ensures u in w.sched.tasks && p in w.procs && w.procs[p].threads == [u] && w.sched.tasks[u].state == Blocked
  {
    assert WaiterOk(w, p, u) && TaskOwned(w, u);
    NotWaiting(w.sched, u, Children(p));
  }

  /** The caller's only thread is running, so nobody waits for a child of it. */
  lemma CallerThread(w: World)
    requires SchedOk(w) && ProcsOk(w) && TasksOk(w) && WaitersOk(w) && Calls(w)
    ensures var p, t := Caller(w).value, w.sched.cpus[0].current.value;
            && w.procs[p].threads == [t] && !w.procs[p].zombie && w.sched.Waiters(Children(p)) == []
            && w.sched.tasks[t].state == Running
  {
    var s, p, t := w.sched, Caller(w).value, w.sched.cpus[0].current.value;
    ActsRunning(s, 0);
    assert TaskOwned(w, t) && ProcOk(w, p);
    if s.Waiters(Children(p)) != [] { WaiterIsThread(w, p, s.Waiters(Children(p))[0]); }
  }

  /** While an ordinary task runs no task is dead, and every zombie has been cleaned up. */
  lemma NobodyDead(w: World)
    requires SchedOk(w) && ProcsOk(w) && Acts(w.sched, 0)
    ensures !w.sched.cpus[0].needsCleanup && forall t :: t in w.sched.tasks ==> w.sched.tasks[t].state != Dead
    ensures forall q :: q in w.procs && w.procs[q].zombie ==> w.procs[q].threads == []
  {
    assert CpuOk(w.sched, 0);
    forall u | u in w.sched.tasks ensures w.sched.tasks[u].state != Dead { assert TaskOk(w.sched, u); }
    forall q | q in w.procs && w.procs[q].zombie ensures w.procs[q].threads == [] { assert ProcOk(w, q); }
  }

  /** A new process beside the others; `v` differs from `w` by it, and by its place on its parent's list. */
  ghost predicate Born(w: World, v: World, t: TaskRef, parent: Option<nat>) {
    var c := w.pidCount;
    && |w.sched.cpus| == 1 && t !in w.sched.tasks && v.sched == Spawned(w.sched, t, 0, Some(c))
    && v == w.(sched := v.sched, procs := v.procs, pidCount := c + 1)
    && (forall p :: p in v.procs <==> p in w.procs || p == c)
    && c in v.procs && v.procs[c] == Proc(false, 0, parent, [], [t], true)
    && (parent.Some? ==>
          parent.value in w.procs && !w.procs[parent.value].zombie && w.sched.Waiters(Children(parent.value)) == [])
    && forall p :: p in w.procs && p != c ==>
         v.procs[p] == if parent == Some(p) then w.procs[p].(children := w.procs[p].children + [c]) else w.procs[p]
  }

  lemma BornKeeps(w: World, v: World, t: TaskRef, parent: Option<nat>)
    requires WorldInv(w) && Born(w, v, t, parent)
    ensures WorldInv(v)
  {
    var c := w.pidCount;
    SpawnedKeeps(w.sched, t, 0, Some(c));
    PidIsNew(w);
    BornProcs(w, v, t, parent);
    BornFamilies(w, v, t, parent);
    BornWaiters(w, v, t, parent);
    BornBooks(w, v, t, parent);
  }

  lemma PidIsNew(w: World)
    requires ProcsOk(w) && BooksOk(w)
    ensures w.pidCount !in w.procs && w.pidCount !in w.lost
  {
    assert w.pidCount in w.procs ==> ProcOk(w, w.pidCount);
  }

  lemma BornWaiters(w: World, v: World, t: TaskRef, parent: Option<nat>)
    requires WaitersOk(w) && Born(w, v, t, parent) && w.pidCount !in w.procs
    ensures WaitersOk(v)
  {
    forall p, u | u in v.sched.Waiters(Children(p)) ensures WaiterOk(v, p, u) { assert WaiterOk(w, p, u); }
  }

  lemma BornProcs(w: World, v: World, t: TaskRef, parent: Option<nat>)
    requires ProcsOk(w) && TasksOk(w) && BooksOk(w) && Born(w, v, t, parent) && w.pidCount !in w.procs
    ensures ProcsOk(v) && TasksOk(v)
  {
    var c := w.pidCount;
    assert c !in w.exited;
    forall p | p in v.procs ensures ProcOk(v, p) { assert p != c ==> ProcOk(w, p); }
    forall u | u in v.sched.tasks ensures TaskOwned(v, u) { assert u != t ==> TaskOwned(w, u); }
  }

  lemma BornFamilies(w: World, v: World, t: TaskRef, parent: Option<nat>)
    requires ProcsOk(w) && FamiliesOk(w) && Born(w, v, t, parent) && w.pidCount !in w.procs && w.pidCount !in w.lost
    ensures FamiliesOk(v)
  {
    var c := w.pidCount;
    if parent.Some? { assert ProcOk(w, parent.value); }
    forall p | p in v.procs ensures FamilyOk(v, p) {
      if p != c { BornFamily(w, v, t, parent, p); }
    }
  }

  lemma BornFamily(w: World, v: World, t: TaskRef, parent: Option<nat>, p: nat)
    requires FamiliesOk(w) && Born(w, v, t, parent) && w.pidCount !in w.procs && w.pidCount !in w.lost
    requires p in v.procs && p != w.pidCount
    ensures FamilyOk(v, p)
  {
    var c := w.pidCount;
    assert FamilyOk(w, p);
    forall d | d in v.procs[p].children ensures ChildOf(v, p, d) { assert d != c ==> ChildOf(w, p, d); }
    assert c in w.procs[p].children ==> ChildOf(w, p, c);
  }

  lemma BornBooks(w: World, v: World, t: TaskRef, parent: Option<nat>)
    requires BooksOk(w) && SpacesOk(w) && Born(w, v, t, parent) && w.pidCount !in w.procs
    ensures BooksOk(v) && SpacesOk(v)
  {
    assert forall p :: ReturnedPid(v, p) <==> ReturnedPid(w, p);
    assert w.pidCount !in w.exited;
  }

  // ---------------------------------------------------------------- exit

  /** What an exit does to the scheduler. */
  ghost predicate ExitedSched(s: Sched, r: Sched, t: TaskRef, p: nat, parent: nat) {
    && Inv(r) && |r.cpus| == 1 && r.cpus[0].current == Some(r.cpus[0].cleanup) && r.exiting == s.exiting + {p}
    && t in r.tasks && t in s.tasks && r.tasks[t].state == Dead && r.tasks[t].process == s.tasks[t].process
    && (forall u :: u != t ==> SameOwned(s, r, u))
    && r.Waiters(Children(parent)) == [] && forall q :: q != parent ==> r.Waiters(Children(q)) == s.Waiters(Children(q))
  }

  lemma ExitWakes(w: World, p: nat, parent: nat)
    requires SchedOk(w) && Calls(w)
    ensures var s, m := w.sched, ExitSched(w.sched, p, parent);
            && Inv(m) && |m.cpus| == 1 && m.exiting == s.exiting + {p} && (forall u :: SameOwned(s, m, u))
            && m.cpus[0].current == s.cpus[0].current && Acts(m, 0)
            && m.Waiters(Children(parent)) == []
               && forall q :: q != parent ==> m.Waiters(Children(q)) == s.Waiters(Children(q))
  {
    var s := w.sched;
    var e := s.(exiting := s.exiting + {p});
    ActsRunning(s, 0);
    ExitingKeeps(s, s.exiting + {p});
    var q := Children(parent);
    WokenFirstKeeps(e, q, |e.Waiters(q)|);
    WokenSame(e, q, |e.Waiters(q)|);
    forall r | r != parent ensures AllWoken(e, q).Waiters(Children(r)) == s.Waiters(Children(r)) {
      OtherQueue(e, q, |e.Waiters(q)|, Children(r));
    }
    OtherQueue(e, q, |e.Waiters(q)|, Children(parent));
    forall u ensures SameOwned(s, AllWoken(e, q), u) { assert SameOwned(e, AllWoken(e, q), u); }
    StillActs(s, AllWoken(e, q));
  }

  lemma StillActs(s: Sched, m: Sched)
    requires Inv(s) && Inv(m) && Acts(s, 0) && |s.cpus| == 1 && |m.cpus| == 1 && m.cpus[0].current == s.cpus[0].current
    requires m.cpus[0].idle == s.cpus[0].idle && m.cpus[0].cleanup == s.cpus[0].cleanup
    ensures Acts(m, 0)
  {
    ActsRunning(s, 0);
    assert CpuOk(m, 0);
  }

  lemma ExitSchedule(w: World, p: nat, parent: nat)
    requires SchedOk(w) && ProcsOk(w) && TasksOk(w) && WaitersOk(w) && Calls(w) && p == Caller(w).value
    ensures var m := ExitSched(w.sched, p, parent);
            Acts(m, 0) && ExitedSched(w.sched, Switched(Scheduling.Died(m, 0), 0), w.sched.cpus[0].current.value, p,
                                      parent)
  {
    var s, t, m := w.sched, w.sched.cpus[0].current.value, ExitSched(w.sched, p, parent);
    ExitWakes(w, p, parent);
    ExitQuiet(w, p, m);
    DiedSchedule(s, m, t, p, parent);
  }

  lemma DiedSchedule(s: Sched, m: Sched, t: TaskRef, p: nat, parent: nat)
    requires Inv(m) && |m.cpus| == 1 && Acts(m, 0) && m.cpus[0].current == Some(t) && m.exiting == s.exiting + {p}
    requires s.Of(t).process.Some? && Quiet(Scheduling.Died(m, 0)) && forall u :: SameOwned(s, m, u)
    requires m.Waiters(Children(parent)) == []
             && forall q :: q != parent ==> m.Waiters(Children(q)) == s.Waiters(Children(q))
    ensures ExitedSched(s, Switched(Scheduling.Died(m, 0), 0), t, p, parent)
  {
    var d := Scheduling.Died(m, 0);
    DiedKeeps(m, 0);
    SwitchedKeeps(d, 0);
    SwitchCalm(d);
    var r := Switched(d, 0);
    forall u ensures u != t ==> SameOwned(s, r, u) {
      assert SameOwned(s, m, u) && SameOwned(d, r, u);
    }
    assert SameOwned(s, m, t) && SameOwned(d, r, t);
    forall q ensures r.Waiters(Children(q)) == m.Waiters(Children(q)) {
      assert d.Waiters(Children(q)) == m.Waiters(Children(q));
    }
  }

  lemma ExitQuiet(w: World, p: nat, m: Sched)
    requires SchedOk(w) && ProcsOk(w) && TasksOk(w) && WaitersOk(w) && Calls(w) && p == Caller(w).value
    requires Acts(m, 0) && m.cpus[0].current == w.sched.cpus[0].current
    requires m.exiting == w.sched.exiting + {p} && forall u :: SameOwned(w.sched, m, u)
    ensures Quiet(Scheduling.Died(m, 0))
  {
    CallerThread(w);
    NobodyDead(w);
    var t, d := w.sched.cpus[0].current.value, Scheduling.Died(m, 0);
    forall u | u in d.tasks && u != t ensures !d.ProcessExiting(u) {
      assert SameOwned(w.sched, m, u);
      if u in w.sched.tasks && w.sched.tasks[u].process.Some? {
        assert TaskOwned(w, u) && ProcOk(w, w.sched.tasks[u].process.value);
      }
    }
  }

  /** `v` is `w` after the exit of `p` by its thread `t`. */
  ghost predicate Gone(w: World, v: World, t: TaskRef, p: nat, code: int) {
    && p in w.procs && w.procs[p].threads == [t] && !w.procs[p].zombie && Outlives(w, p)
       && w.procs[p].parent.Some?
    && w.sched.Waiters(Children(p)) == [] && ExitedSched(w.sched, v.sched, t, p, w.procs[p].parent.value)
    && v == w.(sched := v.sched, procs := w.procs[p := w.procs[p].(zombie := true, exitCode := code)],
               exited := w.exited[p := code])
  }

  lemma GoneProcs(w: World, v: World, t: TaskRef, p: nat, code: int)
    requires ProcsOk(w) && TasksOk(w) && Gone(w, v, t, p, code)
    ensures ProcsOk(v) && TasksOk(v)
  {
    forall q | q in v.procs ensures ProcOk(v, q) {
      assert ProcOk(w, q);
      if q != p && w.procs[q].threads != [] {
        assert TaskOwned(w, w.procs[q].threads[0]);
        assert SameOwned(w.sched, v.sched, w.procs[q].threads[0]);
      }
    }
    assert ProcOk(w, p);
    forall u | u in v.sched.tasks ensures TaskOwned(v, u) {
      if u != t { assert SameOwned(w.sched, v.sched, u); }
      assert u in w.sched.tasks ==> TaskOwned(w, u);
    }
  }

  lemma GoneFamilies(w: World, v: World, t: TaskRef, p: nat, code: int)
    requires FamiliesOk(w) && Gone(w, v, t, p, code)
    ensures FamiliesOk(v)
  {
    forall q | q in v.procs ensures FamilyOk(v, q) {
      assert FamilyOk(w, q);
      forall c | c in v.procs[q].children ensures ChildOf(v, q, c) { assert ChildOf(w, q, c); }
    }
  }

  /** Only the parent's waiters could be waiting for the new zombie, and they have been woken. */
  lemma GoneWaiters(w: World, v: World, t: TaskRef, p: nat, code: int)
    requires Inv(w.sched) && TasksOk(w) && WaitersOk(w) && FamiliesOk(w) && Gone(w, v, t, p, code)
    ensures WaitersOk(v)
  {
    forall q, u | u in v.sched.Waiters(Children(q)) ensures WaiterOk(v, q, u) {
      assert WaiterOk(w, q, u) && FamilyOk(w, q);
      WaiterIsThread(w, q, u);
      assert u != t ==> SameOwned(w.sched, v.sched, u);
      assert p in w.procs[q].children ==> ChildOf(w, q, p);
    }
  }

  lemma GoneBooks(w: World, v: World, t: TaskRef, p: nat, code: int)
    requires ProcsOk(w) && BooksOk(w) && SpacesOk(w) && Gone(w, v, t, p, code)
    ensures BooksOk(v) && SpacesOk(v)
  {
    assert ProcOk(w, p) && p !in w.exited;
    assert forall q :: ReturnedPid(v, q) <==> ReturnedPid(w, q);
    forall i | 0 <= i < |w.returned| ensures w.returned[i].0 != p { assert ReturnedPid(w, w.returned[i].0); }
  }

  lemma ExitKeeps(w: World, code: int)
    requires WorldInv(w) && Can(w, Act.Exit(code))
    ensures WorldInv(Exited(w, code))
  {
    var p, t, v := Caller(w).value, w.sched.cpus[0].current.value, Exited(w, code);
    CallerThread(w);
    ExitSchedule(w, p, w.procs[p].parent.value);
    assert Gone(w, v, t, p, code);
    GoneProcs(w, v, t, p, code);
    GoneFamilies(w, v, t, p, code);
    GoneWaiters(w, v, t, p, code);
    GoneBooks(w, v, t, p, code);
  }

  // ---------------------------------------------------------------- wait4

  lemma FirstZombieIs(procs: map<nat, Proc>, children: seq<nat>)
    ensures var n := FirstZombie(procs, children);
            && (n < |children| ==> children[n] in procs && procs[children[n]].zombie)
            && forall i :: 0 <= i < n ==> !(children[i] in procs && procs[children[i]].zombie)
  {
    if children != [] && !(children[0] in procs && procs[children[0]].zombie) {
      FirstZombieIs(procs, children[1..]);
      forall i | 0 < i < |children| ensures children[i] == children[1..][i - 1] {}
    }
  }

  /** `v` is `w` with the zombie `c` taken off the list of its parent `p`: returned and freed, or lost. */
  ghost predicate Collected(w: World, v: World, p: nat, i: nat, copied: bool) {
    && p in w.procs && !w.procs[p].zombie && i < |w.procs[p].children| && w.sched.Waiters(Children(p)) == []
    && var c := w.procs[p].children[i];
    && ChildOf(w, p, c) && w.procs[c].zombie && w.procs[c].threads == []
    && (forall q :: q in v.procs <==> q in w.procs && (copied ==> q != c))
    && (forall q :: q in v.procs && q != p ==> v.procs[q] == w.procs[q])
    && v.procs[p] == w.procs[p].(children := w.procs[p].children[..i] + w.procs[p].children[i + 1..])
    && if copied then v == w.(procs := v.procs, returned := w.returned + [(c, w.procs[c].exitCode)])
       else v == w.(procs := v.procs, lost := w.lost + {c})
  }

  lemma CollectedProcs(w: World, v: World, p: nat, i: nat, copied: bool)
    requires ProcsOk(w) && TasksOk(w) && Collected(w, v, p, i, copied)
    ensures ProcsOk(v) && TasksOk(v)
  {
    var c := w.procs[p].children[i];
    forall q | q in v.procs ensures ProcOk(v, q) { assert ProcOk(w, q); }
    forall u | u in v.sched.tasks ensures TaskOwned(v, u) { assert TaskOwned(w, u); }
  }

  lemma TakenOut(s: seq<nat>, i: nat)
    requires i < |s| && forall j, k :: 0 <= j < k < |s| ==> s[j] != s[k]
    ensures var rest := s[..i] + s[i + 1..];
            && (forall j, k :: 0 <= j < k < |rest| ==> rest[j] != rest[k])
            && forall d :: d in rest <==> d in s && d != s[i]
  {
    var rest := s[..i] + s[i + 1..];
    assert forall j :: 0 <= j < |rest| ==> rest[j] == s[if j < i then j else j + 1];
    assert forall j :: 0 <= j < |s| && j != i ==> s[j] == rest[if j < i then j else j - 1];
  }

  lemma CollectedFamily(w: World, v: World, p: nat, i: nat, copied: bool, q: nat)
    requires Collected(w, v, p, i, copied) && q in v.procs
    requires FamilyOk(w, p) && FamilyOk(w, q) && FamilyOk(w, w.procs[p].children[i])
    ensures FamilyOk(v, q)
  {
    var c := w.procs[p].children[i];
    TakenOut(w.procs[p].children, i);
    forall d | d in v.procs[q].children ensures ChildOf(v, q, d) {
      assert ChildOf(w, q, d);
    }
    assert w.procs[q].parent == Some(c) ==> w.procs[q].zombie;
    if w.procs[q].zombie && c in w.procs[q].children { assert ChildOf(w, q, c); }
  }

  lemma CollectedFamilies(w: World, v: World, p: nat, i: nat, copied: bool)
    requires FamiliesOk(w) && Collected(w, v, p, i, copied)
    ensures FamiliesOk(v)
  {
    forall q | q in v.procs ensures FamilyOk(v, q) {
      assert FamilyOk(w, p) && FamilyOk(w, q) && FamilyOk(w, w.procs[p].children[i]);
      CollectedFamily(w, v, p, i, copied, q);
    }
  }

  lemma CollectedWaiters(w: World, v: World, p: nat, i: nat, copied: bool)
    requires WaitersOk(w) && FamiliesOk(w) && Collected(w, v, p, i, copied)
    ensures WaitersOk(v)
  {
    var c := w.procs[p].children[i];
    forall q, u | u in v.sched.Waiters(Children(q)) ensures WaiterOk(v, q, u) {
      assert WaiterOk(w, q, u) && q != p && FamilyOk(w, q);
      assert c in w.procs[q].children ==> ChildOf(w, q, c);
      assert w.procs[q].children[0] in w.procs[q].children && !Outlives(w, q);
      assert q != c;
    }
  }

  lemma CollectedReturns(w: World, v: World, p: nat, i: nat, copied: bool, q: nat)
    requires Collected(w, v, p, i, copied)
    ensures ReturnedPid(v, q) <==> ReturnedPid(w, q) || (copied && q == w.procs[p].children[i])
  {
    if ReturnedPid(w, q) {
      var j :| 0 <= j < |w.returned| && w.returned[j].0 == q;
      assert v.returned[j].0 == q;
    }
    if copied { assert v.returned[|w.returned|].0 == w.procs[p].children[i]; }
    if ReturnedPid(v, q) {
      var j :| 0 <= j < |v.returned| && v.returned[j].0 == q;
      assert j < |w.returned| ==> w.returned[j].0 == q;
    }
  }

  lemma CollectedBooks(w: World, v: World, p: nat, i: nat, copied: bool)
    requires BooksOk(w) && Collected(w, v, p, i, copied)
    ensures BooksOk(v)
  {
    var c := w.procs[p].children[i];
    forall q ensures ReturnedPid(v, q) <==> ReturnedPid(w, q) || (copied && q == c) {
      CollectedReturns(w, v, p, i, copied, q);
    }
    forall j | 0 <= j < |w.returned| ensures w.returned[j].0 != c { assert ReturnedPid(w, w.returned[j].0); }
  }

  lemma CollectedSpaces(w: World, v: World, p: nat, i: nat, copied: bool)
    requires SpacesOk(w) && Collected(w, v, p, i, copied)
    ensures SpacesOk(v)
  {
    forall q ensures ReturnedPid(v, q) <==> ReturnedPid(w, q) || (copied && q == w.procs[p].children[i]) {
      CollectedReturns(w, v, p, i, copied, q);
    }
  }

  lemma CollectKeeps(w: World, v: World, p: nat, i: nat, copied: bool)
    requires WorldInv(w) && Collected(w, v, p, i, copied)
    ensures WorldInv(v)
  {
    CollectedProcs(w, v, p, i, copied);
    CollectedFamilies(w, v, p, i, copied);
    CollectedWaiters(w, v, p, i, copied);
    CollectedBooks(w, v, p, i, copied);
    CollectedSpaces(w, v, p, i, copied);
  }

  /** The caller has children and none of them is a zombie: it waits on its own queue. */
  lemma BlockKeeps(w: World)
    requires WorldInv(w) && Calls(w) && w.procs[Caller(w).value].children != []
    requires FirstZombie(w.procs, w.procs[Caller(w).value].children) == |w.procs[Caller(w).value].children|
    ensures WorldInv(w.(sched := Switched(Parked(w.sched, 0, Children(Caller(w).value)), 0)))
  {
    var p, t := Caller(w).value, w.sched.cpus[0].current.value;
    var b := Parked(w.sched, 0, Children(p));
    var v, u := w.(sched := b), w.(sched := Switched(b, 0));
    CallerThread(w);
    NobodyDead(w);
    InvQuiet(w);
    ParkedKeeps(w.sched, 0, Children(p));
    SwitchedKeeps(b, 0);
    SwitchCalm(b);
    ParkedProcs(w, v, t, p);
    SameFamilies(w, v);
    ParkedWaiters(w, v, t, p);
    SameBooks(w, v);
    CalmKeeps(v, u.sched);
  }

  lemma ParkedProcs(w: World, v: World, t: TaskRef, p: nat)
    requires ProcsOk(w) && TasksOk(w) && Calls(w) && Caller(w) == Some(p) && w.sched.cpus[0].current == Some(t)
    requires w.sched.tasks[t].state == Running && v == w.(sched := Parked(w.sched, 0, Children(p)))
    ensures ProcsOk(v) && TasksOk(v)
  {
    forall q | q in v.procs ensures ProcOk(v, q) { assert ProcOk(w, q); }
    forall u | u in v.sched.tasks ensures TaskOwned(v, u) { assert TaskOwned(w, u); }
  }

  lemma ParkedWaiters(w: World, v: World, t: TaskRef, p: nat)
    requires WaitersOk(w) && FamiliesOk(w) && Calls(w) && Caller(w) == Some(p) && w.sched.cpus[0].current == Some(t)
    requires v == w.(sched := Parked(w.sched, 0, Children(p))) && w.procs[p].children != []
    requires FirstZombie(w.procs, w.procs[p].children) == |w.procs[p].children|
    ensures WaitersOk(v)
  {
    FirstZombieIs(w.procs, w.procs[p].children);
    assert FamilyOk(w, p);
    forall c | c in w.procs[p].children ensures c in w.procs && !w.procs[c].zombie { assert ChildOf(w, p, c); }
    forall q, u | u in v.sched.Waiters(Children(q)) ensures WaiterOk(v, q, u) {
      if u in w.sched.Waiters(Children(q)) { assert WaiterOk(w, q, u); }
    }
  }

  lemma WaitKeeps(w: World, copied: bool)
    requires WorldInv(w) && Can(w, Wait4(copied))
    ensures WorldInv(Waited(w, copied))
  {
    var p := Caller(w).value;
    var children := w.procs[p].children;
    var n := FirstZombie(w.procs, children);
    FirstZombieIs(w.procs, children);
    if n < |children| {
      CollectedNow(w, copied);
      CollectKeeps(w, Waited(w, copied), p, n, copied);
    } else if children != [] {
      BlockKeeps(w);
    }
  }

  /** What is asserted when a process is freed holds: it is a zombie, and it has no threads left. */
  lemma CollectedNow(w: World, copied: bool)
    requires SchedOk(w) && ProcsOk(w) && TasksOk(w) && FamiliesOk(w) && WaitersOk(w) && Can(w, Wait4(copied))
    requires FirstZombie(w.procs, w.procs[Caller(w).value].children) < |w.procs[Caller(w).value].children|
    ensures var p := Caller(w).value;
            Collected(w, Waited(w, copied), p, FirstZombie(w.procs, w.procs[p].children), copied)
  {
    CallerThread(w);
    NobodyDead(w);
    ZombieChild(w, Caller(w).value);
    WaitCollects(w, copied, Caller(w).value, FirstZombie(w.procs, w.procs[Caller(w).value].children));
  }

  lemma WaitCollects(w: World, copied: bool, p: nat, n: nat)
    requires Can(w, Wait4(copied)) && p == Caller(w).value
             && n == FirstZombie(w.procs, w.procs[p].children) < |w.procs[p].children|
    requires !w.procs[p].zombie && w.sched.Waiters(Children(p)) == []
    requires ChildOf(w, p, w.procs[p].children[n]) && w.procs[w.procs[p].children[n]].zombie
    requires w.procs[w.procs[p].children[n]].threads == []
    ensures Collected(w, Waited(w, copied), p, n, copied)
  {
  }

  lemma ZombieChild(w: World, p: nat)
    requires FamiliesOk(w) && p in w.procs && FirstZombie(w.procs, w.procs[p].children) < |w.procs[p].children|
    ensures var c := w.procs[p].children[FirstZombie(w.procs, w.procs[p].children)];
            ChildOf(w, p, c) && w.procs[c].zombie
  {
    var n := FirstZombie(w.procs, w.procs[p].children);
    FirstZombieIs(w.procs, w.procs[p].children);
    assert FamilyOk(w, p) && w.procs[p].children[n] in w.procs[p].children;
  }

  // ---------------------------------------------------------------- cleanup

  /** `v` is `w` after the dead thread `t` of `p` has been freed, and with it the address space. */
  ghost predicate Freed(w: World, v: World, t: TaskRef, p: nat) {
    && p in w.procs && w.procs[p].threads == [t] && w.procs[p].zombie
    && |v.sched.cpus| == 1 && v.sched.exiting == w.sched.exiting && v.sched.waiting == w.sched.waiting
    && t !in v.sched.tasks && (forall u :: u != t ==> SameOwned(w.sched, v.sched, u))
    && v == w.(sched := v.sched, procs := w.procs[p := w.procs[p].(threads := [], hasSpace := false)],
               destroyed := w.destroyed + [p])
  }

  lemma FreedProcs(w: World, v: World, t: TaskRef, p: nat)
    requires ProcsOk(w) && TasksOk(w) && Freed(w, v, t, p)
    ensures ProcsOk(v) && TasksOk(v)
  {
    forall q | q in v.procs ensures ProcOk(v, q) {
      assert ProcOk(w, q);
      if q != p && w.procs[q].threads != [] {
        assert TaskOwned(w, w.procs[q].threads[0]) && TaskOwned(w, t);
        assert SameOwned(w.sched, v.sched, w.procs[q].threads[0]);
      }
    }
    forall u | u in v.sched.tasks ensures TaskOwned(v, u) {
      assert SameOwned(w.sched, v.sched, u);
      assert u in w.sched.tasks ==> TaskOwned(w, u);
    }
  }

  lemma FreedFamilies(w: World, v: World, t: TaskRef, p: nat)
    requires FamiliesOk(w) && Freed(w, v, t, p)
    ensures FamiliesOk(v)
  {
    forall q | q in v.procs ensures FamilyOk(v, q) {
      assert FamilyOk(w, q);
      forall c | c in v.procs[q].children ensures ChildOf(v, q, c) { assert ChildOf(w, q, c); }
    }
  }

  lemma FreedWaiters(w: World, v: World, t: TaskRef, p: nat)
    requires WaitersOk(w) && Freed(w, v, t, p) && forall q :: t !in w.sched.Waiters(Children(q))
    ensures WaitersOk(v)
  {
    forall q, u | u in v.sched.Waiters(Children(q)) ensures WaiterOk(v, q, u) {
      assert WaiterOk(w, q, u) && u != t;
      assert SameOwned(w.sched, v.sched, u);
    }
  }

  lemma FreedBooks(w: World, v: World, t: TaskRef, p: nat)
    requires ProcsOk(w) && BooksOk(w) && SpacesOk(w) && Freed(w, v, t, p)
    ensures BooksOk(v) && SpacesOk(v)
  {
    assert ProcOk(w, p);
    assert forall q :: ReturnedPid(v, q) <==> ReturnedPid(w, q);
    assert p !in w.destroyed;
  }

  lemma RemovedOnly(t: TaskRef)
    ensures Removed([t], t) == []
  {
  }

  lemma FreedNow(w: World, i: nat)
    requires SchedOk(w) && ProcsOk(w) && TasksOk(w) && Can(w, CleanUp)
             && i == FirstDead(w.sched, w.sched.all) < |w.sched.all|
    requires w.sched.Of(w.sched.all[i]).process.Some?
    ensures Freed(w, CleanedUp(w), w.sched.all[i], w.sched.Of(w.sched.all[i]).process.value)
    ensures SchedOk(CleanedUp(w)) && forall q :: w.sched.all[i] !in w.sched.Waiters(Children(q))
  {
    var s := w.sched;
    FirstDeadFinds(s, s.all);
    DeadNowhere(s, s.all[i]);
    ReapedKeeps(s, i);
    assert TaskOwned(w, s.all[i]) && ProcOk(w, s.Of(s.all[i]).process.value);
    RemovedOnly(s.all[i]);
  }

  lemma FreeKeeps(w: World, i: nat)
    requires Can(w, CleanUp) && i == FirstDead(w.sched, w.sched.all) < |w.sched.all|
    requires w.sched.Of(w.sched.all[i]).process.Some? && WorldInv(w)
    ensures WorldInv(Do(w, CleanUp))
  {
    var v, t, p := Do(w, CleanUp), w.sched.all[i], w.sched.Of(w.sched.all[i]).process.value;
    FreedNow(w, i);
    FreedProcs(w, v, t, p);
    FreedFamilies(w, v, t, p);
    FreedWaiters(w, v, t, p);
    FreedBooks(w, v, t, p);
  }

  /** A kernel task is freed, or there is nothing to clean up and the CPU is given up. */
  lemma CleanCalm(w: World)
    requires SchedOk(w) && ProcsOk(w) && TasksOk(w) && Can(w, CleanUp)
    requires var n := FirstDead(w.sched, w.sched.all); n < |w.sched.all| ==> w.sched.Of(w.sched.all[n]).process == None
    ensures CleanedUp(w) == w.(sched := After(w.sched, Cleanup(0)))
    ensures Inv(After(w.sched, Cleanup(0))) && Calm(w.sched, After(w.sched, Cleanup(0)))
  {
    var s := w.sched;
    AfterKeeps(s, Cleanup(0));
    FirstDeadFinds(s, s.all);
    if FirstDead(s, s.all) == |s.all| {
      InvQuiet(w);
      BeforeSwitchKeeps(s, Cleanup(0), 0);
      assert CpuOk(s, 0);
      SwitchCalm(Cleared(s, 0));
      forall t ensures SameOwned(s, After(s, Cleanup(0)), t) { SameTwice(s, Cleared(s, 0), After(s, Cleanup(0)), t); }
    }
  }

  lemma CleanKeeps(w: World)
    requires WorldInv(w) && Can(w, CleanUp)
    ensures WorldInv(CleanedUp(w))
  {
    var n := FirstDead(w.sched, w.sched.all);
    if n < |w.sched.all| && w.sched.Of(w.sched.all[n]).process.Some? {
      FreeKeeps(w, n);
    } else {
      CleanCalm(w);
      CalmKeeps(w, After(w.sched, Cleanup(0)));
    }
  }

  // ---------------------------------------------------------------- runs

  lemma ForkKeeps(w: World, t: TaskRef)
    requires WorldInv(w) && Can(w, Fork(t))
    ensures WorldInv(Forked(w, t))
  {
    CallerThread(w);
    PidIsNew(w);
    assert Born(w, Forked(w, t), t, Some(Caller(w).value));
    BornKeeps(w, Forked(w, t), t, Some(Caller(w).value));
  }

  lemma LaunchKeeps(w: World, t: TaskRef)
    requires WorldInv(w) && Can(w, Launch(t))
    ensures WorldInv(Launched(w, t, None))
  {
    assert Born(w, Launched(w, t, None), t, None);
    BornKeeps(w, Launched(w, t, None), t, None);
  }

  lemma DoKeeps(w: World, a: Act)
    requires WorldInv(w) && Can(w, a)
    ensures WorldInv(Do(w, a))
  {
    match a
    case Scheduling(step) =>
      ElsewhereKeeps(w, step);
      CalmKeeps(w, After(w.sched, step));
    case Launch(t) => LaunchKeeps(w, t);
    case Fork(t) => ForkKeeps(w, t);
    case Exit(code) => ExitKeeps(w, code);
    case Wait4(copied) => WaitKeeps(w, copied);
    case CleanUp => CleanKeeps(w);
  }

  /** One CPU that has just booted, and no processes. */
  predicate Start(w: World) {
    && Booted(w.sched) && |w.sched.cpus| == 1 && w.sched.exiting == {} && w.procs == map[] && w.exited == map[]
    && w.returned == [] && w.lost == {} && w.destroyed == []
       && forall t :: t in w.sched.tasks ==> w.sched.tasks[t].process == None
  }

  ghost predicate ActAt(worlds: seq<World>, acts: seq<Act>, i: nat) {
    i < |acts| && i + 1 < |worlds| && Can(worlds[i], acts[i]) && worlds[i + 1] == Do(worlds[i], acts[i])
  }

  /** `worlds` are what one run of `acts` goes through. */
  ghost predicate History(worlds: seq<World>, acts: seq<Act>) {
    |worlds| == |acts| + 1 && Start(worlds[0]) && forall i :: 0 <= i < |acts| ==> ActAt(worlds, acts, i)
  }

  lemma StartInv(w: World)
    requires Start(w)
    ensures WorldInv(w)
  {
    BootInv(w.sched);
    assert BootedCpu(w.sched, 0) && forall q :: w.sched.Waiters(q) == [];
  }

  lemma {:induction false} HistoryInv(worlds: seq<World>, acts: seq<Act>, i: nat)
    requires History(worlds, acts) && i < |worlds|
    ensures WorldInv(worlds[i])
  {
    if i == 0 {
      StartInv(worlds[0]);
    } else {
      HistoryInv(worlds, acts, i - 1);
      assert ActAt(worlds, acts, i - 1);
      DoKeeps(worlds[i - 1], acts[i - 1]);
    }
  }

  // ---------------------------------------------------------------- what holds of every run

  /** No parent stays blocked in wait4 while it has a zombie child, or no child at all. */
  lemma NoParentWaitsInVain(worlds: seq<World>, acts: seq<Act>, i: nat, p: nat, t: TaskRef)
    requires History(worlds, acts) && i < |worlds| && t in worlds[i].sched.Waiters(Children(p))
    ensures var w := worlds[i];
            && p in w.procs && w.procs[p].threads == [t] && w.procs[p].children != []
            && forall c :: c in w.procs[p].children ==> c in w.procs && !w.procs[c].zombie
  {
    HistoryInv(worlds, acts, i);
    assert WaiterOk(worlds[i], p, t);
    WaiterIsThread(worlds[i], p, t);
  }

  /** Whoever has exited is either still a zombie or was returned by wait4, once, with its own exit code. */
  lemma EveryExitIsAccountedFor(worlds: seq<World>, acts: seq<Act>, i: nat, p: nat)
    requires History(worlds, acts) && i < |worlds|
    ensures var w := worlds[i];
            && (p in w.exited <==> (p in w.procs && w.procs[p].zombie) || ReturnedPid(w, p))
            && !(p in w.procs && ReturnedPid(w, p))
            && (p in w.procs && w.procs[p].zombie ==> w.procs[p].exitCode == w.exited[p])
            && (forall k :: 0 <= k < |w.returned| && w.returned[k].0 == p ==>
                  p in w.exited && w.returned[k].1 == w.exited[p])
            && forall j, k :: 0 <= j < k < |w.returned| ==> w.returned[j].0 != w.returned[k].0
  {
    HistoryInv(worlds, acts, i);
  }

  /** The asserts at the destruction of a process never fire, and there is no address space left to destroy a second
      time. */
  lemma DestructionAssertsHold(worlds: seq<World>, acts: seq<Act>, i: nat)
    requires History(worlds, acts) && i < |acts| && acts[i].Wait4? && Can(worlds[i], acts[i])
    requires var children := worlds[i].procs[Caller(worlds[i]).value].children;
             FirstZombie(worlds[i].procs, children) < |children|
    ensures var w, children := worlds[i], worlds[i].procs[Caller(worlds[i]).value].children;
            var c := children[FirstZombie(w.procs, children)];
            && c in w.procs && w.procs[c].zombie && w.procs[c].threads == [] && !w.procs[c].hasSpace
            && c in w.exited && (acts[i].copied ==> worlds[i + 1].returned == w.returned + [(c, w.exited[c])])
            && (!acts[i].copied ==> worlds[i + 1].returned == w.returned && worlds[i + 1].lost == w.lost + {c})
  {
    HistoryInv(worlds, acts, i);
    assert ActAt(worlds, acts, i);
    var w := worlds[i];
    CollectedNow(w, acts[i].copied);
    var children := w.procs[Caller(w).value].children;
    assert ProcOk(w, children[FirstZombie(w.procs, children)]);
  }

  /** Address spaces are destroyed by the cleanup task: each once, and before its process is returned. */
  lemma EverySpaceIsDestroyedOnce(worlds: seq<World>, acts: seq<Act>, i: nat)
    requires History(worlds, acts) && i < |worlds|
    ensures var w := worlds[i];
            && (forall j, k :: 0 <= j < k < |w.destroyed| ==> w.destroyed[j] != w.destroyed[k])
            && (forall p :: p in w.procs ==> (w.procs[p].hasSpace <==> p !in w.destroyed))
            && forall p :: ReturnedPid(w, p) ==> p in w.destroyed
  {
    HistoryInv(worlds, acts, i);
    forall p | p in worlds[i].procs ensures worlds[i].procs[p].hasSpace <==> p !in worlds[i].destroyed {
      assert ProcOk(worlds[i], p);
    }
  }

  /** A child whose exit code could not be copied out is never returned: it stays a zombie for good. */
  lemma LostIsNeverReturned(worlds: seq<World>, acts: seq<Act>, i: nat, j: nat, p: nat)
    requires History(worlds, acts) && i <= j < |worlds| && p in worlds[i].lost
    ensures p in worlds[j].lost && p in worlds[j].procs && worlds[j].procs[p].zombie && !ReturnedPid(worlds[j], p)
  {
    LostStaysLost(worlds, acts, i, j, p);
    HistoryInv(worlds, acts, j);
    LostIsZombie(worlds[j], p);
  }

  lemma {:induction false} LostStaysLost(worlds: seq<World>, acts: seq<Act>, i: nat, j: nat, p: nat)
    requires History(worlds, acts) && i <= j < |worlds| && p in worlds[i].lost
    ensures p in worlds[j].lost
    decreases j - i
  {
    if i < j {
      LostStaysLost(worlds, acts, i, j - 1, p);
      assert ActAt(worlds, acts, j - 1);
    }
  }

  lemma LostIsZombie(w: World, p: nat)
    requires BooksOk(w) && p in w.lost
    ensures p in w.procs && w.procs[p].zombie && !ReturnedPid(w, p)
  {
  }

  // ---------------------------------------------------------------- parents and exit codes

  /** Who called exit at step `k`, and with what. */
  ghost predicate ExitedAt(worlds: seq<World>, acts: seq<Act>, k: nat, p: nat, code: int) {
    ActAt(worlds, acts, k) && acts[k] == Act.Exit(code) && Caller(worlds[k]) == Some(p)
  }

  /** What is known of an exit is the status that the process itself passed to exit, once. */
  lemma {:induction false} ExitCodeIsStatus(worlds: seq<World>, acts: seq<Act>, i: nat, p: nat) returns (k: nat)
    requires History(worlds, acts) && i < |worlds| && p in worlds[i].exited
    ensures k < i && ExitedAt(worlds, acts, k, p, worlds[i].exited[p])
  {
    k := i - 1;
    assert ActAt(worlds, acts, k);
    ExitedStep(worlds[k], acts[k], p);
    if !(acts[k].Exit? && Caller(worlds[k]) == Some(p)) {
      k := ExitCodeIsStatus(worlds, acts, k, p);
    }
  }

  lemma ExitedStep(w: World, a: Act, p: nat)
    requires Can(w, a) && p in Do(w, a).exited
    ensures if a.Exit? && Caller(w) == Some(p) then Do(w, a).exited[p] == a.code
            else p in w.exited && Do(w, a).exited[p] == w.exited[p]
  {
  }

  /** What wait4 returns is the status that the child passed to exit. */
  lemma ReturnedCodeIsStatus(worlds: seq<World>, acts: seq<Act>, i: nat, n: nat) returns (k: nat)
    requires History(worlds, acts) && i < |worlds| && n < |worlds[i].returned|
    ensures k < i && ExitedAt(worlds, acts, k, worlds[i].returned[n].0, worlds[i].returned[n].1)
  {
    HistoryInv(worlds, acts, i);
    k := ExitCodeIsStatus(worlds, acts, i, worlds[i].returned[n].0);
  }

  /** A child of `parent`, on its list as long as it is not lost; or returned. */
  ghost predicate ChildOrReturned(w: World, c: nat, parent: nat) {
    if c in w.procs then
      && w.procs[c].parent == Some(parent)
      && (parent in w.procs && c !in w.lost ==> c in w.procs[parent].children)
    else ReturnedPid(w, c)
  }

  lemma StaysChild(w: World, a: Act, c: nat, parent: nat)
    requires Can(w, a) && FamiliesOk(Do(w, a)) && ChildOrReturned(w, c, parent) && c < w.pidCount
    ensures ChildOrReturned(Do(w, a), c, parent) && c < Do(w, a).pidCount
  {
    if c in w.procs {
      KeepsParent(w, a, c);
      if c in Do(w, a).procs { OnParentsList(Do(w, a), c, parent); }
    } else {
      KeepsReturned(w, a, c);
      NoneComesBack(w, a, c);
    }
  }

  lemma OnParentsList(v: World, c: nat, parent: nat)
    requires FamiliesOk(v) && c in v.procs && v.procs[c].parent == Some(parent)
    ensures parent in v.procs && c !in v.lost ==> c in v.procs[parent].children
  {
    assert FamilyOk(v, c) && ParentOk(v, c, parent);
  }

  lemma NoneComesBack(w: World, a: Act, c: nat)
    requires Can(w, a) && c !in w.procs && c < w.pidCount
    ensures c !in Do(w, a).procs && c < Do(w, a).pidCount
  {
  }

  lemma KeepsParent(w: World, a: Act, c: nat)
    requires Can(w, a) && c in w.procs && c < w.pidCount
    ensures c < Do(w, a).pidCount
    ensures c in Do(w, a).procs ==> Do(w, a).procs[c].parent == w.procs[c].parent
    ensures c !in Do(w, a).procs ==> ReturnedPid(Do(w, a), c)
  {
    match a
    case Wait4(copied) => WaitsKeepChild(w, copied, c);
    case _ =>
  }

  lemma KeepsReturned(w: World, a: Act, c: nat)
    requires Can(w, a) && ReturnedPid(w, c)
    ensures ReturnedPid(Do(w, a), c)
  {
    var i :| 0 <= i < |w.returned| && w.returned[i].0 == c;
    assert Do(w, a).returned[i].0 == c;
  }

  lemma WaitsKeepChild(w: World, copied: bool, c: nat)
    requires Can(w, Wait4(copied)) && c in w.procs
    ensures c in Waited(w, copied).procs ==> Waited(w, copied).procs[c].parent == w.procs[c].parent
    ensures c !in Waited(w, copied).procs ==> ReturnedPid(Waited(w, copied), c)
  {
    var v := Waited(w, copied);
    if c !in v.procs { assert v.returned[|w.returned|].0 == c; }
  }

  /** A process that was forked is on the list of its parent from then on, until wait4 returns it or loses it, or the
      parent itself is gone. */
  lemma {:induction false} ForkedStaysListed(worlds: seq<World>, acts: seq<Act>, i: nat, j: nat)
    requires History(worlds, acts) && i < j < |worlds| && ActAt(worlds, acts, i) && acts[i].Fork?
    ensures ChildOrReturned(worlds[j], worlds[i].pidCount, Caller(worlds[i]).value)
    ensures worlds[i].pidCount < worlds[j].pidCount && worlds[i].pidCount !in worlds[i].procs
    decreases j - i
  {
    if j == i + 1 {
      ForkedIsChild(worlds, acts, i);
    } else {
      ForkedStaysListed(worlds, acts, i, j - 1);
      FamiliesInRun(worlds, acts, j - 1);
      StaysChild(worlds[j - 1], acts[j - 1], worlds[i].pidCount, Caller(worlds[i]).value);
    }
  }

  lemma FamiliesInRun(worlds: seq<World>, acts: seq<Act>, i: nat)
    requires History(worlds, acts) && i < |acts|
    ensures Can(worlds[i], acts[i]) && worlds[i + 1] == Do(worlds[i], acts[i]) && FamiliesOk(worlds[i + 1])
  {
    HistoryInv(worlds, acts, i + 1);
    assert ActAt(worlds, acts, i);
  }

  lemma ForkedIsChild(worlds: seq<World>, acts: seq<Act>, i: nat)
    requires History(worlds, acts) && ActAt(worlds, acts, i) && acts[i].Fork?
    ensures var w, v := worlds[i], worlds[i + 1];
            ChildOrReturned(v, w.pidCount, Caller(w).value) && w.pidCount < v.pidCount && w.pidCount !in w.procs
  {
    HistoryInv(worlds, acts, i);
    var w, v := worlds[i], worlds[i + 1];
    PidIsNew(w);
    var p := Caller(w).value;
    assert v.procs[p].children[|w.procs[p].children|] == w.pidCount;
  }
}
