/** The system calls of the process manager as they are run: lists and fields updated in place over the scheduler. */
module Processes {
  import opened Collections
  import opened Scheduling
  import opened SchedulerEffects
  import opened SchedulerRuns
  import opened Schedulers
  import opened Lifecycle

  /** What one turn of wait4 comes to. */
  datatype WaitResult = Child(pid: nat, code: int) | BadAddress | NoChild | Blocked

  /** A process of its own with one thread, which is last in the run queue; it is the caller's last child. */
  ghost predicate ChildMade(w: World, v: World, pid: nat, t: TaskRef)
    requires |w.sched.cpus| == 1 && Calls(w)
  {
    var parent := Caller(w).value;
    && pid == w.pidCount && v.pidCount == pid + 1 && pid !in w.procs && pid in v.procs && parent in v.procs
    && (var child := v.procs[pid];
        && !child.zombie && child.parent == Some(parent) && child.children == [] && child.threads == [t]
        && child.hasSpace)
    && v.procs[parent].children == w.procs[parent].children + [pid]
    && v.procs[parent] == w.procs[parent].(children := v.procs[parent].children)
    && (forall q :: q in v.procs <==> q in w.procs || q == pid)
    && (forall q :: q in w.procs && q != parent ==> v.procs[q] == w.procs[q])
    && t in v.sched.tasks && v.sched.tasks[t].state == Ready && v.sched.tasks[t].process == Some(pid)
    && |v.sched.cpus| == 1 && v.sched.cpus[0].runnable == w.sched.cpus[0].runnable + [t]
    && v.sched.cpus[0].current == w.sched.cpus[0].current && v.sched.waiting == w.sched.waiting
    && (forall u :: u in w.sched.tasks && u != t ==> u in v.sched.tasks && v.sched.tasks[u] == w.sched.tasks[u])
    && v.exited == w.exited && v.returned == w.returned && v.lost == w.lost && v.destroyed == w.destroyed
  }

  /** The process is a zombie with that exit code and its thread dead; whoever waited for a child of the parent is
      ready, and nothing else has changed. */
  ghost predicate ExitMade(w: World, v: World, status: int)
    requires |w.sched.cpus| == 1 && Calls(w) && w.procs[Caller(w).value].parent.Some?
  {
    var p, t := Caller(w).value, w.sched.cpus[0].current.value;
    && (forall q :: q in v.procs <==> q in w.procs) && (forall q :: q in w.procs && q != p ==> v.procs[q] == w.procs[q])
    && (var was, now := w.procs[p], v.procs[p];
        && now.zombie && now.exitCode == status
        && now.parent == was.parent && now.children == was.children && now.threads == was.threads
        && now.hasSpace == was.hasSpace)
    && p in v.exited && v.exited[p] == status
    && (forall q :: q != p ==> (q in v.exited <==> q in w.exited) && (q in w.exited ==> v.exited[q] == w.exited[q]))
    && v.pidCount == w.pidCount && v.returned == w.returned && v.lost == w.lost && v.destroyed == w.destroyed
    && v.sched.exiting == w.sched.exiting + {p} && v.sched.all == w.sched.all
    && v.sched.Of(t) == w.sched.Of(t).(state := Dead)
    && ParentWoken(w.sched, v.sched, w.procs[p].parent.value, t)
  }

  /** Those who waited for a child of the parent are ready, in the order they came; the cleanup task runs. */
  ghost predicate ParentWoken(s: Sched, r: Sched, parent: nat, t: TaskRef)
    requires |s.cpus| == 1
  {
    var q := Children(parent);
    && |r.cpus| == 1 && r.Waiters(q) == [] && SameQueuesBut(s, r, q)
    && r.cpus[0] == Cpu(Some(s.cpus[0].cleanup), s.cpus[0].idle, s.cpus[0].cleanup, true,
                        s.cpus[0].runnable + s.Waiters(q))
    && (forall u :: u in s.Waiters(q) && u != t ==> r.Of(u) == s.Of(u).(state := Ready, waitingOn := None))
    && forall u :: u !in s.Waiters(q) && u != t && u != s.cpus[0].cleanup ==> r.Of(u) == s.Of(u)
  }

  /** What one turn of wait4 does: the first zombie on the list of children is at `i`, if there is one. */
  ghost predicate WaitMade(w: World, v: World, copied: bool, r: WaitResult, i: nat)
    requires |w.sched.cpus| == 1 && Calls(w)
  {
    var p := Caller(w).value;
    var children := w.procs[p].children;
    && i <= |children| && (forall j :: 0 <= j < i ==> children[j] in w.procs && !w.procs[children[j]].zombie)
    && v.pidCount == w.pidCount && v.exited == w.exited && v.destroyed == w.destroyed
    && if i < |children| then
         var c := children[i];
         && c in w.procs && w.procs[c].zombie && v.sched == w.sched
         && (forall q :: q in v.procs <==> q in w.procs && (copied ==> q != c)) && p in v.procs
         && v.procs[p] == w.procs[p].(children := children[..i] + children[i + 1..])
         && (forall q :: q in v.procs && q != p ==> v.procs[q] == w.procs[q])
         && (if copied then
               r == Child(c, w.procs[c].exitCode) && v.returned == w.returned + [(c, w.procs[c].exitCode)]
                 && v.lost == w.lost
             else r == BadAddress && v.returned == w.returned && v.lost == w.lost + {c})
       else
         && v.procs == w.procs && v.returned == w.returned && v.lost == w.lost
         && if children == [] then r == NoChild && v.sched == w.sched
            else r == WaitResult.Blocked && exists k :: Blocks(w.sched, v.sched, 0, Children(p), k)
  }

  /** A dead task is freed and leaves its process; if that is exiting, its address space goes. */
  ghost predicate CleanupMade(w: World, v: World, k: nat) {
    && CleansUp(w.sched, v.sched, 0, k)
    && v.pidCount == w.pidCount && v.exited == w.exited && v.returned == w.returned && v.lost == w.lost
    && if !NoneDead(w.sched, |w.sched.all|) && k < |w.sched.all| && w.sched.Of(w.sched.all[k]).process.Some? then
         var p := w.sched.Of(w.sched.all[k]).process.value;
         var ends := p in w.sched.exiting;
         && p in w.procs && v.procs.Keys == w.procs.Keys
         && v.procs[p] == w.procs[p].(threads := [], hasSpace := w.procs[p].hasSpace && !ends)
         && (forall q :: q in w.procs && q != p ==> v.procs[q] == w.procs[q])
         && v.destroyed == w.destroyed + if ends then [p] else []
       else v.procs == w.procs && v.destroyed == w.destroyed
  }

  class ProcessManager {
    const sched: Scheduler
    var procs: map<nat, Proc>
    var pidCount: nat
    ghost var exited: map<nat, int>
    ghost var returned: seq<(nat, int)>
    ghost var lost: set<nat>
    ghost var destroyed: seq<nat>

    constructor (sched: Scheduler)
      requires Booted(sched.View()) && |sched.cpus| == 1 && sched.exiting == {}
      requires forall t :: t in sched.tasks ==> sched.tasks[t].process == None
      ensures this.sched == sched && Start(View()) && WorldInv(View())
    {
      this.sched, procs, pidCount := sched, map[], 1;
      exited, returned, lost, destroyed := map[], [], {}, [];
      new;
      StartInv(View());
    }

    ghost function View(): World
      reads this, sched
    {
      World(sched.View(), procs, pidCount, exited, returned, lost, destroyed)
    }

    method CurrentProcess() returns (p: nat)
      requires |sched.cpus| == 1 && Calls(View())
      ensures p == Caller(View()).value
    {
      p := sched.tasks[sched.cpus[0].current.value].process.value;
    }

    /** A process and its one thread; the thread is queued before the process is on any list of children. */
    method CreateExecFrom(t: TaskRef) returns (pid: nat)
      requires Can(View(), Fork(t))
      modifies this, sched
      ensures pid == old(pidCount) && View() == Launched(old(View()), t, None)
      ensures pidCount == pid + 1 && procs == old(procs)[pid := Proc(false, 0, None, [], [t], true)]
      ensures Starts(old(sched.View()), sched.View(), t, 0, Some(pid))
    {
      pid := pidCount;
      pidCount := pidCount + 1;
      sched.tasks := sched.tasks[t := Task(0, Ready, None, 0, Some(pid))];
      sched.all := sched.all + [t];
      procs := procs[pid := Proc(false, 0, None, [], [t], true)];
      sched.Enqueue(t);
    }

    method SysFork(t: TaskRef) returns (pid: nat)
      requires Can(View(), Fork(t)) && pidCount !in procs
      modifies this, sched
      ensures pid == old(pidCount) && View() == Do(old(View()), Fork(t))
      ensures ChildMade(old(View()), View(), pid, t)
    {
      ghost var w := View();
      var parent := CurrentProcess();
      pid := CreateExecFrom(t);
      procs := procs[parent := procs[parent].(children := procs[parent].children + [pid])];
      procs := procs[pid := procs[pid].(parent := Some(parent))];
      assert View().procs == Forked(w, t).procs;
      assert ChildMade(w, View(), pid, t);
    }

    method SysExit(status: int)
      requires SchedOk(View()) && Can(View(), Act.Exit(status))
      modifies this, sched
      ensures View() == Do(old(View()), Act.Exit(status))
      ensures ExitMade(old(View()), View(), status)
    {
      ghost var w := View();
      var p := CurrentProcess();
      ExitWakes(w, p, w.procs[p].parent.value);
      ExitingKeeps(w.sched, w.sched.exiting + {p});
      procs := procs[p := procs[p].(exitCode := status, zombie := true)];
      sched.exiting := sched.exiting + {p};
      exited := exited[p := status];
      var parent := procs[p].parent;
      assert parent != None;
      LeaveFor(parent.value, w.sched, p);
      ExitDone(w, status);
    }

    /** The parent is woken, then the last thread leaves its CPU. */
    method LeaveFor(parent: nat, ghost s: Sched, ghost p: nat)
      requires sched.View() == s.(exiting := s.exiting + {p}) && Inv(sched.View()) && |s.cpus| == 1
      requires Inv(ExitSched(s, p, parent)) && Acts(ExitSched(s, p, parent), 0)
      modifies sched
      ensures sched.View() == Switched(Scheduling.Died(ExitSched(s, p, parent), 0), 0)
    {
      sched.WakeAll(Children(parent));
      sched.TaskExit(0);
    }

    /** The first zombie on the list of children. */
    method FindZombie(p: nat) returns (n: nat)
      requires p in procs
      ensures n == FirstZombie(procs, procs[p].children)
    {
      var children := procs[p].children;
      n := 0;
      assert children[0..] == children;
      while n < |children| && !(children[n] in procs && procs[children[n]].zombie)
        invariant n <= |children| && FirstZombie(procs, children) == n + FirstZombie(procs, children[n..])
      {
        assert children[n..][1..] == children[n + 1..];
        n := n + 1;
      }
    }

    /** Both asserts of the source are asserts here; the address space is gone by now. */
    method RemoveDestroy(c: nat)
      requires c in procs && procs[c].zombie && procs[c].threads == [] && !procs[c].hasSpace
      modifies this`procs
      ensures procs == old(procs) - {c}
    {
      assert procs[c].zombie;
      assert |procs[c].threads| == 0;
      procs := procs - {c};
    }

    /** One turn of the loop: a zombie child is taken off the list and returned, or the caller waits. */
    method SysWait4(copied: bool) returns (r: WaitResult)
      requires SchedOk(View()) && FamiliesOk(View()) && ZombiesClean(View()) && Can(View(), Wait4(copied))
      modifies this, sched
      ensures View() == Do(old(View()), Wait4(copied))
      ensures exists i :: WaitMade(old(View()), View(), copied, r, i)
      ensures r.Child? <==> copied && ZombieWaits(old(View()))
      ensures r.Child? ==> View().returned == old(View()).returned + [(r.pid, r.code)]
      ensures r == BadAddress <==> !copied && ZombieWaits(old(View()))
      ensures r == NoChild <==> old(procs)[Caller(old(View())).value].children == []
    {
      ghost var w := View();
      var p := CurrentProcess();
      var n := FindZombie(p);
      var children := procs[p].children;
      if n < |children| {
        r := Collect(p, n, copied);
        WaitDone(w, copied, r);
        return;
      }
      if children == [] {
        WaitDone(w, copied, NoChild);
        return NoChild;
      }
      sched.BlockOn(0, Children(p));
      WaitDone(w, copied, WaitResult.Blocked);
      return WaitResult.Blocked;
    }

    /** The zombie is taken off the list; if the copy to the caller fails, its exit code is gone. */
    method Collect(p: nat, n: nat, copied: bool) returns (r: WaitResult)
      requires |sched.cpus| == 1 && Calls(View()) && p == Caller(View()).value
      requires FamiliesOk(View()) && ZombiesClean(View())
      requires n == FirstZombie(procs, procs[p].children) < |procs[p].children|
      modifies this`procs, this`returned, this`lost
      ensures View() == Waited(old(View()), copied)
      ensures r == TurnResult(old(View()), copied)
      ensures r.Child? <==> copied
      ensures r.Child? ==> View().returned == old(View()).returned + [(r.pid, r.code)]
      ensures r == BadAddress <==> !copied
    {
      ghost var w := View();
      ZombieChild(w, p);
      var children := procs[p].children;
      var c := children[n];
      var code := procs[c].exitCode;
      procs := procs[p := procs[p].(children := children[..n] + children[n + 1..])];
      if !copied {
        lost := lost + {c};
        return BadAddress;
      }
      RemoveDestroy(c);
      returned := returned + [(c, code)];
      return Child(c, code);
    }

    /** One round of the cleanup task, with what it does to the process of the dead task. */
    method CleanupRound()
      requires SchedOk(View()) && TasksOk(View()) && Can(View(), CleanUp)
      modifies this, sched
      ensures View() == Do(old(View()), CleanUp)
      ensures exists k :: CleanupMade(old(View()), View(), k)
    {
      ghost var w := View();
      var n := sched.FindDead();
      if n < |sched.all| {
        FirstDeadFinds(w.sched, w.sched.all);
        var t := sched.all[n];
        var process := sched.tasks[t].process;
        if process.Some? {
          assert TaskOwned(w, t);
          DropThread(process.value, t);
        }
      }
      sched.CleanupRound(0);
      CleanupDone(w);
    }

    /** The dead task leaves its process; behind the last one of an exiting process its address space is destroyed. */
    method DropThread(p: nat, t: TaskRef)
      requires p in procs
      modifies this`procs, this`destroyed
      ensures var threads := Removed(old(procs)[p].threads, t);
              var ends := p in sched.exiting && threads == [];
              && procs == old(procs)[p := old(procs)[p].(threads := threads,
                                                         hasSpace := !ends && old(procs)[p].hasSpace)]
              && destroyed == if ends then old(destroyed) + [p] else old(destroyed)
    {
      var threads := RemoveThread(procs[p].threads, t);
      procs := procs[p := procs[p].(threads := threads)];
      if p in sched.exiting && threads == [] {
        procs := procs[p := procs[p].(hasSpace := false)];
        destroyed := destroyed + [p];
      }
    }

    method RemoveThread(threads: seq<TaskRef>, t: TaskRef) returns (rest: seq<TaskRef>)
      ensures rest == Removed(threads, t)
    {
      var i := 0;
      assert threads[0..] == threads;
      while i < |threads| && threads[i] != t
        invariant i <= |threads| && Removed(threads, t) == threads[..i] + Removed(threads[i..], t)
      {
        assert threads[i..][1..] == threads[i + 1..];
        assert threads[..i + 1] == threads[..i] + [threads[i]];
        i := i + 1;
      }
      rest := if i < |threads| then threads[..i] + threads[i + 1..] else threads;
    }
  }

  lemma ExitDone(w: World, status: int)
    requires SchedOk(w) && Can(w, Act.Exit(status))
    ensures ExitMade(w, Do(w, Act.Exit(status)), status)
  {
    var p, t, s := Caller(w).value, w.sched.cpus[0].current.value, w.sched;
    var parent := w.procs[p].parent.value;
    ExitWakes(w, p, parent);
    ExitWoken(s, p, parent);
  }

  lemma ExitWoken(s: Sched, p: nat, parent: nat)
    requires Inv(s) && |s.cpus| == 1 && Acts(s, 0) && Acts(ExitSched(s, p, parent), 0)
    requires Inv(ExitSched(s, p, parent))
    ensures var r, t := Switched(Scheduling.Died(ExitSched(s, p, parent), 0), 0), s.cpus[0].current.value;
            && r.exiting == s.exiting + {p} && r.all == s.all && r.Of(t) == s.Of(t).(state := Dead)
            && ParentWoken(s, r, parent, t)
  {
    var m := ExitSched(s, p, parent);
    ChildWaitersWoken(s, p, parent);
    ExitDoes(m, 0);
    ActsRunning(s, 0);
    CleanupWaitsNowhere(s, Children(parent));
    QueueIsReady(s, 0);
    EndsWoken(s, m, After(m, Step.Exit(0)), parent, s.cpus[0].current.value);
  }

  lemma CleanupWaitsNowhere(s: Sched, q: QueueId)
    requires Inv(s) && |s.cpus| == 1
    ensures s.cpus[0].cleanup !in s.Waiters(q)
  {
    assert CpuOk(s, 0);
    NotWaiting(s, s.cpus[0].cleanup, q);
    assert s.Service(s.cpus[0].cleanup);
  }

  /** `m` is `s` after those who wait for a child of the parent have been woken. */
  ghost predicate WokenFor(s: Sched, m: Sched, parent: nat)
    requires |s.cpus| == 1
  {
    var q := Children(parent);
    && m.all == s.all && m.Waiters(q) == [] && SameQueuesBut(s, m, q)
    && m.cpus == [s.cpus[0].(runnable := s.cpus[0].runnable + s.Waiters(q))]
    && forall u: TaskRef :: m.Of(u) == if u in s.Waiters(q) then Awake(s.Of(u), false) else s.Of(u)
  }

  lemma ChildWaitersWoken(s: Sched, p: nat, parent: nat)
    requires Inv(s) && |s.cpus| == 1
    ensures WokenFor(s, ExitSched(s, p, parent), parent) && ExitSched(s, p, parent).exiting == s.exiting + {p}
  {
    var e, q := s.(exiting := s.exiting + {p}), Children(parent);
    ExitingKeeps(s, s.exiting + {p});
    WakeAllDoes(e, q);
    forall u | u in s.Waiters(q) ensures e.Of(u).cpu == 0 {
      assert QueueOk(s, q);
      assert WaitingIn(s, q, u) && TaskOk(s, u);
    }
    OfCpuAll(e, s.Waiters(q), 0, 0);
    assert s.Waiters(q)[..|s.Waiters(q)|] == s.Waiters(q);
  }

  lemma EndsWoken(s: Sched, m: Sched, r: Sched, parent: nat, t: TaskRef)
    requires |s.cpus| == 1 && WokenFor(s, m, parent) && Ends(m, r, 0) && m.cpus[0].current == Some(t)
    requires t !in s.Waiters(Children(parent)) && s.cpus[0].cleanup !in s.Waiters(Children(parent))
    requires forall u :: u in s.cpus[0].runnable ==> s.Of(u).state == Ready
    ensures ParentWoken(s, r, parent, t) && r.Of(t) == s.Of(t).(state := Dead)
  {
    var w := s.Waiters(Children(parent));
    assert m.cpus[0].runnable == s.cpus[0].runnable + w;
    forall u: TaskRef | u != t && u != s.cpus[0].cleanup
      ensures u in w ==> r.Of(u) == s.Of(u).(state := Ready, waitingOn := None)
      ensures u !in w ==> r.Of(u) == s.Of(u)
    {
      assert m.cpus[0].runnable[..0] == [];
      assert u in w ==> u in m.cpus[0].runnable;
    }
  }

  /** What a turn of wait4 answers. */
  function TurnResult(w: World, copied: bool): WaitResult
    requires |w.sched.cpus| == 1 && Calls(w)
  {
    var children := w.procs[Caller(w).value].children;
    var n := FirstZombie(w.procs, children);
    if n < |children| && children[n] in w.procs then
      if copied then Child(children[n], w.procs[children[n]].exitCode) else BadAddress
    else if children == [] then NoChild else WaitResult.Blocked
  }

  lemma WaitDone(w: World, copied: bool, r: WaitResult)
    requires SchedOk(w) && FamiliesOk(w) && Can(w, Wait4(copied))
    requires r == TurnResult(w, copied)
    ensures exists i :: WaitMade(w, Do(w, Wait4(copied)), copied, r, i)
  {
    var p := Caller(w).value;
    var children := w.procs[p].children;
    var n := FirstZombie(w.procs, children);
    FirstZombieIs(w.procs, children);
    assert FamilyOk(w, p);
    forall c | c in children ensures c in w.procs && c != p { assert ChildOf(w, p, c); }
    if n == |children| && children != [] { var k := ParkDoes(w.sched, 0, Children(p)); }
    assert WaitMade(w, Do(w, Wait4(copied)), copied, r, n);
  }

  lemma CleanupDone(w: World)
    requires SchedOk(w) && TasksOk(w) && Can(w, CleanUp)
    ensures exists k :: CleanupMade(w, Do(w, CleanUp), k)
  {
    var k := CleanupDoes(w.sched, 0);
    FirstDeadFinds(w.sched, w.sched.all);
    var n := FirstDead(w.sched, w.sched.all);
    forall t | t in w.sched.all ensures t in w.sched.tasks && TaskOwned(w, t) { assert Listed(w.sched, t); }
    if n < |w.sched.all| {
      assert k == n;
      RemovedOnly(w.sched.all[n]);
    }
    assert CleanupMade(w, Do(w, CleanUp), k);
  }

  /** Every zombie has been cleaned up. */
  predicate ZombiesClean(w: World) {
    forall q :: q in w.procs && w.procs[q].zombie ==> w.procs[q].threads == [] && !w.procs[q].hasSpace
  }

  /** What the routines ask for holds in every run, by `HistoryInv`. */
  lemma InvSuffices(w: World)
    requires WorldInv(w)
    ensures w.pidCount !in w.procs && SchedOk(w) && FamiliesOk(w) && TasksOk(w)
    ensures |w.sched.cpus| == 1 && Calls(w) ==> ZombiesClean(w)
  {
    PidIsNew(w);
    if Calls(w) {
      NobodyDead(w);
      forall q | q in w.procs && w.procs[q].zombie ensures !w.procs[q].hasSpace { assert ProcOk(w, q); }
    }
  }

  /** The caller of wait4 has a zombie child. */
  predicate ZombieWaits(w: World)
    requires |w.sched.cpus| == 1 && Calls(w)
  {
    var children := w.procs[Caller(w).value].children;
    FirstZombie(w.procs, children) < |children|
  }
}
