/** The scheduler as it is run: fields updated step by step, each routine with the effect the steps of a run have. */
module Schedulers {
  import opened Collections
  import opened Scheduling
  import opened SchedulerEffects
  import opened SchedulerRuns
  import opened IntrusiveLists

  class Scheduler {
    var tasks: map<TaskRef, Task>
    var cpus: seq<Cpu>
    var waiting: map<QueueId, seq<TaskRef>>
    var exiting: set<nat>
    var all: seq<TaskRef>

    function View(): Sched
      reads this
    {
      Sched(tasks, cpus, waiting, exiting, all)
    }

    method SetState(t: TaskRef, state: State)
      requires t in tasks
      modifies this`tasks
      ensures View() == old(View()).WithTask(t, old(tasks)[t].(state := state))
    {
      tasks := tasks[t := tasks[t].(state := state)];
    }

    method RunqueueEnqueue(c: nat, t: TaskRef)
      requires c < |cpus| && t in tasks && tasks[t].state == Ready
      modifies this`cpus
      ensures View() == old(View()).WithCpu(c, old(cpus)[c].(runnable := old(cpus)[c].runnable + [t]))
    {
      cpus := cpus[c := cpus[c].(runnable := cpus[c].runnable + [t])];
    }

    method RunqueueDequeue(c: nat) returns (t: Option<TaskRef>)
      requires c < |cpus|
      modifies this`cpus
      ensures old(cpus)[c].runnable == [] ==> t == None && View() == old(View())
      ensures old(cpus)[c].runnable != [] ==> t == Some(old(cpus)[c].runnable[0]) && View() == Dropped(old(View()), c)
    {
      var queue := cpus[c].runnable;
      if queue == [] {
        return None;
      }
      cpus := cpus[c := cpus[c].(runnable := queue[1..])];
      return Some(queue[0]);
    }

    method WaitqueueEnqueue(q: QueueId, t: TaskRef)
      requires t in tasks && tasks[t].state != Ready
      modifies this`tasks, this`waiting
      ensures View() == old(View()).WithTask(t, old(tasks)[t].(waitingOn := Some(q)))
                        .WithWaiters(q, old(View()).Waiters(q) + [t])
    {
      waiting := waiting[q := View().Waiters(q) + [t]];
      tasks := tasks[t := tasks[t].(waitingOn := Some(q))];
    }

    method WaitqueueDequeue(q: QueueId) returns (t: Option<TaskRef>)
      requires forall u :: u in View().Waiters(q) ==> u in tasks
      modifies this`tasks, this`waiting
      ensures old(View()).Waiters(q) == [] ==> t == None && View() == old(View())
      ensures old(View()).Waiters(q) != [] ==>
                var u := old(View()).Waiters(q)[0];
                && t == Some(u) && u in old(tasks)
                && View() == old(View()).WithTask(u, old(tasks)[u].(waitingOn := None))
                             .WithWaiters(q, old(View()).Waiters(q)[1..])
    {
      var w := View().Waiters(q);
      if w == [] {
        return None;
      }
      assert w[0] in w;
      waiting := waiting[q := w[1..]];
      tasks := tasks[w[0] := tasks[w[0]].(waitingOn := None)];
      return Some(w[0]);
    }

    method Enqueue(t: TaskRef)
      requires t in tasks && tasks[t].cpu < |cpus| && tasks[t].state !in {Running, Blocked}
               && tasks[t].waitingOn == None
      modifies this`tasks, this`cpus
      ensures View() == Enqueued(old(View()).WithTask(t, old(tasks)[t].(state := Ready)), t)
    {
      tasks := tasks[t := tasks[t].(waitingOn := None, state := Ready)];
      RunqueueEnqueue(tasks[t].cpu, t);
    }

    /** The state is set twice, as in the source. */
    method WakeBlocked(blocked: Option<TaskRef>)
      requires blocked.Some? ==> blocked.value in tasks && tasks[blocked.value].cpu < |cpus|
      requires blocked.Some? ==> tasks[blocked.value].state == Blocked && tasks[blocked.value].waitingOn == None
      modifies this`tasks, this`cpus
      ensures blocked == None ==> View() == old(View())
      ensures blocked.Some? ==>
                View() == Enqueued(old(View()).WithTask(blocked.value, old(tasks)[blocked.value].(state := Ready)),
                                   blocked.value)
    {
      if blocked.Some? {
        SetState(blocked.value, Ready);
        Enqueue(blocked.value);
      }
    }

    /** What a release of a semaphore or a mutex does to its waiters. */
    method Wake(q: QueueId)
      requires Inv(View()) && Enabled(View(), SchedulerRuns.Wake(q))
      modifies this`tasks, this`cpus, this`waiting
      ensures View() == After(old(View()), SchedulerRuns.Wake(q)) && Inv(View())
      ensures Wakes(old(View()), View(), q, if old(View()).Waiters(q) == [] then 0 else 1)
    {
      ghost var s := View();
      AfterKeeps(View(), SchedulerRuns.Wake(q));
      WaitersExist(View(), q);
      if View().Waiters(q) != [] { HeadWaits(View(), q); }
      var blocked := WaitqueueDequeue(q);
      WakeBlocked(blocked);
      WakeDoes(s, q);
    }

    /** One round of waking all: the head of the queue, if there is one. */
    method WakeHead(q: QueueId) returns (more: bool)
      requires Inv(View()) && !q.Sleeping?
      modifies this`tasks, this`cpus, this`waiting
      ensures more == (old(View()).Waiters(q) != []) && Inv(View())
      ensures more ==> View() == Woken(old(View()), q)
      ensures !more ==> View() == old(View())
    {
      ghost var s := View();
      WaitersExist(s, q);
      if s.Waiters(q) != [] {
        HeadWaits(s, q);
        WokenKeeps(s, q);
      }
      var blocked := WaitqueueDequeue(q);
      if blocked == None {
        return false;
      }
      assert tasks[blocked.value].state == Blocked && tasks[blocked.value].waitingOn == None;
      SetState(blocked.value, Ready);
      Enqueue(blocked.value);
      assert View() == Woken(s, q);
      return true;
    }

    method WakeAll(q: QueueId)
      requires Inv(View()) && Enabled(View(), SchedulerRuns.WakeAll(q))
      modifies this`tasks, this`cpus, this`waiting
      ensures View() == After(old(View()), SchedulerRuns.WakeAll(q)) && Inv(View())
      ensures Wakes(old(View()), View(), q, |old(View()).Waiters(q)|)
    {
      ghost var s, i := View(), 0;
      var more := true;
      while more
        invariant i <= |s.Waiters(q)| && View() == WokenFirst(s, q, i) && Inv(View())
        invariant View().Waiters(q) == s.Waiters(q)[i..]
        invariant !more ==> i == |s.Waiters(q)|
        decreases |s.Waiters(q)| - i, more
      {
        if i < |s.Waiters(q)| {
          WokenFirstLast(s, q, i);
          WokenFirstKeeps(s, q, i + 1);
        }
        more := WakeHead(q);
        if more {
          i := i + 1;
        }
      }
      WakeAllDoes(s, q);
    }

    /** The tick of the timer: sleepers leave from the front of the queue until one is not yet due. */
    method WakeSleepers(c: nat, now: nat)
      requires Inv(View()) && Enabled(View(), Tick(c, now))
      modifies this`tasks, this`cpus, this`waiting
      ensures View() == After(old(View()), Tick(c, now)) && Inv(View())
      ensures exists n :: WakesDue(old(View()), View(), c, now, n)
    {
      ghost var due := TickDoes(View(), c, now);
      ghost var s, i := View(), 0;
      ghost var w := s.Waiters(Sleeping(c));
      while View().Waiters(Sleeping(c)) != []
        invariant i <= |w| && View() == WokenFirst(s, Sleeping(c), i) && Inv(View())
        invariant View().Waiters(Sleeping(c)) == w[i..]
        invariant i <= Due(s, w, now)
        decreases |w| - i
      {
        WokenFirstLast(s, Sleeping(c), i);
        WokenFirstKeeps(s, Sleeping(c), i + 1);
        DueAt(s, c, now, i);
        HeadWaits(View(), Sleeping(c));
        var t := View().Waiters(Sleeping(c))[0];
        if now < tasks[t].sleepUntil {
          break;
        }
        WakeSleeper(c);
        i := i + 1;
      }
      assert i == Due(s, w, now);
    }

    /** The head of the sleepers: unlinked, its deadline forgotten, and woken. */
    method WakeSleeper(c: nat)
      requires Inv(View()) && View().Waiters(Sleeping(c)) != []
      modifies this`tasks, this`cpus, this`waiting
      ensures View() == Woken(old(View()), Sleeping(c)) && Inv(View())
    {
      HeadWaits(View(), Sleeping(c));
      WokenKeeps(View(), Sleeping(c));
      var w := View().Waiters(Sleeping(c));
      waiting := waiting[Sleeping(c) := w[1..]];
      tasks := tasks[w[0] := tasks[w[0]].(waitingOn := None, sleepUntil := 0)];
      WakeBlocked(Some(w[0]));
    }

    /** One round of the picker: nothing left to run, a task to run, or one whose process is exiting and that dies
        instead. */
    method PickRound(c: nat) returns (found: bool, next: TaskRef)
      requires c < |cpus| && Inv(Detached(View(), c))
      modifies this`tasks, this`cpus
      ensures c < |cpus| && cpus[c].current == old(cpus)[c].current
      ensures found ==> (Detached(View(), c), next) == Picked(Detached(old(View()), c), c)
      ensures !found ==> old(cpus)[c].runnable != [] && Inv(Detached(View(), c))
                         && Picked(Detached(View(), c), c) == Picked(Detached(old(View()), c), c)
                         && |cpus[c].runnable| < |old(cpus)[c].runnable|
    {
      ghost var d := Detached(View(), c);
      var picked := RunqueueDequeue(c);
      if picked == None {
        assert Detached(View(), c) == d;
        return true, cpus[c].idle;
      }
      assert CpuOk(d, c) && picked.value in d.cpus[c].runnable;
      assert RunnableOn(d, c, picked.value);
      if !(tasks[picked.value].process.Some? && tasks[picked.value].process.value in exiting) {
        assert Detached(View(), c) == Dropped(d, c);
        return true, picked.value;
      }
      KilledKeeps(d, c);
      SetState(picked.value, Dead);
      cpus := cpus[c := cpus[c].(needsCleanup := true)];
      assert Detached(View(), c) == Killed(d, c);
      return false, picked.value;
    }

    method PickNext(c: nat) returns (next: TaskRef)
      requires c < |cpus| && Inv(Detached(View(), c))
      modifies this`tasks, this`cpus
      ensures c < |cpus| && cpus[c].current == old(cpus)[c].current
      ensures (Detached(View(), c), next) == Chosen(Detached(old(View()), c), c)
    {
      if cpus[c].needsCleanup {
        return cpus[c].cleanup;
      }
      ghost var s := Detached(View(), c);
      var found;
      found, next := PickRound(c);
      while !found
        invariant c < |cpus| && cpus[c].current == old(cpus)[c].current
        invariant if found then (Detached(View(), c), next) == Picked(s, c)
                  else Inv(Detached(View(), c)) && Picked(Detached(View(), c), c) == Picked(s, c)
        decreases if found then 0 else |cpus[c].runnable| + 1
      {
        found, next := PickRound(c);
      }
    }

    /** A task that is still running is put back on the run queue. */
    method PutBack(c: nat)
      requires c < |cpus| && (cpus[c].current.Some? ==> MayLeave(View(), c, cpus[c].current.value))
      modifies this`tasks, this`cpus
      ensures c < |cpus| && cpus[c].current == old(cpus)[c].current && Detached(View(), c) == Left(old(View()), c)
    {
      var prev := cpus[c].current;
      if prev.Some? {
        var t := prev.value;
        assert tasks[t].cpu == c;
        assert tasks[t].state != Blocked || tasks[t].waitingOn != None;
        assert tasks[t].state != Ready || tasks[t].waitingOn == None;
        if t != cpus[c].idle && t != cpus[c].cleanup && tasks[t].state == Running {
          assert tasks[t].waitingOn == None;
          SetState(t, Ready);
          RunqueueEnqueue(c, t);
        }
      }
    }

    /** Every assert of the source's switch is an assert here. */
    method Switch(c: nat)
      requires c < |cpus| && Inv(Left(View(), c))
      requires cpus[c].current.Some? ==> MayLeave(View(), c, cpus[c].current.value)
      modifies this`tasks, this`cpus
      ensures View() == Switched(old(View()), c) && Inv(View())
    {
      var prev := cpus[c].current;
      SwitchedKeeps(View(), c);
      PutBack(c);
      var next := PickNext(c);
      assert tasks[next].cpu == c;
      assert tasks[next].state == Ready || next == cpus[c].idle || next == cpus[c].cleanup;
      assert tasks[next].waitingOn == None;
      assert prev == None ==> next != cpus[c].idle || cpus[c].runnable == [];
      ghost var s := Detached(View(), c);
      SetState(next, Running);
      cpus := cpus[c := cpus[c].(current := Some(next))];
      assert View() == Dispatched(s, c, next);
      assert prev == Some(next) ==> next == cpus[c].idle || tasks[next].state == Running;
    }

    method YieldCpu(c: nat)
      requires Inv(View()) && Enabled(View(), Yield(c))
      modifies this`tasks, this`cpus
      ensures View() == After(old(View()), Yield(c)) && Inv(View())
      ensures exists k :: Yields(old(View()), View(), c, k)
    {
      ghost var k := YieldDoes(View(), c);
      BeforeSwitchKeeps(View(), Yield(c), c);
      LeavingAssertsHold(View(), Yield(c), c);
      Switch(c);
    }

    /** A wait queue entered and the block that follows: one step, as between the two nothing else may come. */
    method BlockOn(c: nat, q: QueueId)
      requires Inv(View()) && Enabled(View(), Park(c, q))
      modifies this`tasks, this`cpus, this`waiting
      ensures View() == After(old(View()), Park(c, q)) && Inv(View())
      ensures exists k :: Blocks(old(View()), View(), c, q, k)
    {
      BeforeSwitchKeeps(View(), Park(c, q), c);
      LeavingAssertsHold(View(), Park(c, q), c);
      ActsRunning(View(), c);
      ghost var s := View();
      var current := cpus[c].current.value;
      WaitqueueEnqueue(q, current);
      assert current != cpus[c].idle && tasks[current].cpu == c && tasks[current].state == Running;
      assert tasks[current].waitingOn != None;
      SetState(current, Blocked);
      assert View() == Parked(s, c, q);
      Switch(c);
      ghost var k := ParkDoes(s, c, q);
    }

    method FindEarlier(c: nat, deadline: nat) returns (n: nat)
      ensures n == Earlier(View(), View().Waiters(Sleeping(c)), deadline)
    {
      var w := View().Waiters(Sleeping(c));
      n := 0;
      assert w[0..] == w;
      while n < |w| && !(w[n] in tasks && tasks[w[n]].sleepUntil > deadline)
        invariant n <= |w| && Earlier(View(), w, deadline) == n + Earlier(View(), w[n..], deadline)
      {
        assert w[n..][1..] == w[n + 1..];
        n := n + 1;
      }
    }

    /** The place among the sleepers is found as in the sorted insertion of an intrusive list. */
    method EnterSleepers(c: nat, current: TaskRef, deadline: nat)
      requires Acts(View(), c) && cpus[c].current == Some(current)
      modifies this`tasks, this`waiting
      ensures View() == Slept(old(View()), c, deadline)
    {
      var w := View().Waiters(Sleeping(c));
      var n := FindEarlier(c, deadline);
      tasks := tasks[current := tasks[current].(sleepUntil := deadline)];
      waiting := waiting[Sleeping(c) := w[..n] + [current] + w[n..]];
      tasks := tasks[current := tasks[current].(waitingOn := Some(Sleeping(c)), state := Blocked)];
    }

    method SleepCurrent(c: nat, deadline: nat)
      requires Inv(View()) && Enabled(View(), SleepUntil(c, deadline))
      modifies this`tasks, this`cpus, this`waiting
      ensures View() == After(old(View()), SleepUntil(c, deadline)) && Inv(View())
      ensures exists n, k :: Sleeps(old(View()), View(), c, deadline, n, k)
    {
      BeforeSwitchKeeps(View(), SleepUntil(c, deadline), c);
      LeavingAssertsHold(View(), SleepUntil(c, deadline), c);
      ActsRunning(View(), c);
      ghost var s := View();
      var current := cpus[c].current.value;
      assert current != cpus[c].idle && tasks[current].cpu == c && tasks[current].state == Running;
      EnterSleepers(c, current, deadline);
      Switch(c);
      ghost var m, k := SleepDoes(s, c, deadline);
    }

    method TaskExit(c: nat)
      requires Inv(View()) && Enabled(View(), Exit(c))
      modifies this`tasks, this`cpus
      ensures View() == After(old(View()), Exit(c)) && Inv(View())
      ensures Ends(old(View()), View(), c)
    {
      ExitDoes(View(), c);
      BeforeSwitchKeeps(View(), Exit(c), c);
      LeavingAssertsHold(View(), Exit(c), c);
      ghost var s := View();
      cpus := cpus[c := cpus[c].(needsCleanup := true)];
      SetState(cpus[c].current.value, Dead);
      assert View() == Died(s, c);
      Switch(c);
    }

    method FindDead() returns (n: nat)
      ensures n == FirstDead(View(), all)
    {
      n := 0;
      assert all[0..] == all;
      while n < |all| && !(all[n] in tasks && tasks[all[n]].state == Dead)
        invariant n <= |all| && FirstDead(View(), all) == n + FirstDead(View(), all[n..])
      {
        assert all[n..][1..] == all[n + 1..];
        n := n + 1;
      }
    }

    /** One round of the cleanup task: a dead task is freed, or there is none left and the CPU is given up. */
    method CleanupRound(c: nat)
      requires Inv(View()) && Enabled(View(), Cleanup(c))
      modifies this`tasks, this`cpus, this`all
      ensures View() == After(old(View()), Cleanup(c)) && Inv(View())
      ensures exists k :: CleansUp(old(View()), View(), c, k)
    {
      ghost var s := View();
      var n := FindDead();
      FirstDeadFinds(s, all);
      if n < |all| {
        DeadNowhere(s, all[n]);
        ReapedKeeps(s, n);
        assert tasks[all[n]].waitingOn == None && forall q :: all[n] !in s.Waiters(q);
        assert forall d :: 0 <= d < |cpus| ==> all[n] !in cpus[d].runnable;
        tasks, all := tasks - {all[n]}, all[..n] + all[n + 1..];
        assert View() == Reaped(s, n);
      } else {
        BeforeSwitchKeeps(s, Cleanup(c), c);
        LeavingAssertsHold(s, Cleanup(c), c);
        cpus := cpus[c := cpus[c].(needsCleanup := false)];
        assert View() == Cleared(s, c);
        Switch(c);
      }
      ghost var k := CleanupDoes(s, c);
    }
  }

  /** Nothing current on `c`: what the picker sees does not depend on the task being left. */
  function Detached(s: Sched, c: nat): Sched
    requires c < |s.cpus|
  {
    s.WithCpu(c, s.cpus[c].(current := None))
  }

  /** The index at which the sorted insertion of an intrusive list links the new sleeper is that of the queue of
      sleepers. */
  lemma {:induction false} SortedInsertFindsEarlier(s: Sched, nodes: seq<Node>, task: Node -> TaskRef,
                                                    later: Node -> bool,
                                                    deadline: nat, i: nat)
    requires forall n :: n in nodes ==> task(n) in s.tasks && (later(n) <==> s.tasks[task(n)].sleepUntil > deadline)
    requires FirstLater(nodes, later, i)
    ensures Earlier(s, seq(|nodes|, k requires 0 <= k < |nodes| => task(nodes[k])), deadline) == i
  {
    var w := seq(|nodes|, k requires 0 <= k < |nodes| => task(nodes[k]));
    if nodes != [] {
      assert nodes[0] in nodes;
      if i > 0 {
        var rest := nodes[1..];
        assert w[1..] == seq(|rest|, k requires 0 <= k < |rest| => task(rest[k]));
        assert forall k :: 0 <= k < |rest| ==> rest[k] == nodes[k + 1];
        SortedInsertFindsEarlier(s, rest, task, later, deadline, i - 1);
      }
    }
  }

  lemma WaitersExist(s: Sched, q: QueueId)
    requires Inv(s)
    ensures forall u :: u in s.Waiters(q) ==> u in s.tasks
  {
    forall u | u in s.Waiters(q) ensures u in s.tasks { assert QueueOk(s, q) && WaitingIn(s, q, u); }
  }

  /** The sleeper at index `i` is looked at with the deadline it had when the tick came. */
  lemma DueAt(s: Sched, c: nat, now: nat, i: nat)
    requires Inv(s) && i < |s.Waiters(Sleeping(c))| && i <= Due(s, s.Waiters(Sleeping(c)), now)
    ensures var w := s.Waiters(Sleeping(c));
            && WokenFirst(s, Sleeping(c), i).Of(w[i]).sleepUntil == s.Of(w[i]).sleepUntil
            && (s.Of(w[i]).sleepUntil <= now <==> i < Due(s, w, now))
  {
    var w := s.Waiters(Sleeping(c));
    HeadWaits(s, Sleeping(c));
    assert QueueOk(s, Sleeping(c));
    TickWakesExactlyTheDue(s, c, now, s.tasks[w[0]].cpu);
    OtherQueue(s, Sleeping(c), i, Sleeping(c));
    Apart(w, i);
    assert w[i] == w[i..][0];
  }
}
