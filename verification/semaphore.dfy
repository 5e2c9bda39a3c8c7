/** Counting semaphores with a queue of waiters who try again when woken: no wake-up is lost. */
module Semaphores {
  import opened Collections
  import opened Scheduling

  /** `holders` are the acquisitions outstanding; `woken` the tasks taken off the queue that have not tried again
      yet. */
  datatype Sem = Sem(count: nat, initial: nat, waiters: seq<TaskRef>, woken: set<TaskRef>, holders: seq<TaskRef>)

  /** Joining the queue and blocking are one step. */
  datatype Step = Try(t: TaskRef) | TryOnce(t: TaskRef) | Release(i: nat)

  predicate Can(s: Sem, step: Step) {
    match step
    case Try(t) => t !in s.waiters
    case TryOnce(t) => t !in s.waiters && t !in s.woken
    case Release(i) => i < |s.holders|
  }

  function Taken(s: Sem, t: TaskRef): Sem
    requires s.count > 0
  {
    s.(count := s.count - 1, holders := s.holders + [t], woken := s.woken - {t})
  }

  function Do(s: Sem, step: Step): Sem
    requires Can(s, step)
  {
    match step
    case Try(t) => if s.count > 0 then Taken(s, t) else s.(waiters := s.waiters + [t], woken := s.woken - {t})
    case TryOnce(t) => if s.count > 0 then Taken(s, t) else s
    case Release(i) =>
      var r := s.(count := s.count + 1, holders := s.holders[..i] + s.holders[i + 1..]);
      if s.waiters == [] then r else r.(waiters := s.waiters[1..], woken := s.woken + {s.waiters[0]})
  }

  /** Nothing is lost or made up, and while anybody waits every free unit has a woken task coming for it. */
  predicate Sound(s: Sem) {
    && s.count + |s.holders| == s.initial
    && (s.waiters != [] ==> s.count <= |s.woken|)
    && NoDuplicates(s.waiters) && forall t :: t in s.waiters ==> t !in s.woken
  }

  lemma Without(s: set<TaskRef>, t: TaskRef)
    ensures |s - {t}| >= |s| - 1 && (t !in s ==> s - {t} == s)
  {
    if t in s {
      assert s == (s - {t}) + {t};
    } else {
      assert s - {t} == s;
    }
  }

  lemma DoKeeps(s: Sem, step: Step)
    requires Sound(s) && Can(s, step)
    ensures Sound(Do(s, step))
  {
    match step
    case Try(t) =>
      Without(s.woken, t);
      if s.count == 0 { Append(s.waiters, t); }
    case TryOnce(t) => Without(s.woken, t);
    case Release(i) =>
      if s.waiters != [] {
        Tail(s.waiters);
        assert s.waiters[0] in s.waiters;
        assert |s.woken + {s.waiters[0]}| == |s.woken| + 1;
      }
  }

  ghost predicate StepAt(states: seq<Sem>, steps: seq<Step>, i: nat) {
    i < |steps| && i + 1 < |states| && Can(states[i], steps[i]) && states[i + 1] == Do(states[i], steps[i])
  }

  ghost predicate Trace(states: seq<Sem>, steps: seq<Step>, n: nat) {
    |states| == |steps| + 1 && states[0] == Sem(n, n, [], {}, [])
        && forall i :: 0 <= i < |steps| ==> StepAt(states, steps, i)
  }

  lemma {:induction false} TraceSound(states: seq<Sem>, steps: seq<Step>, n: nat, i: nat)
    requires Trace(states, steps, n) && i < |states|
    ensures Sound(states[i]) && states[i].initial == n
  {
    if i > 0 {
      TraceSound(states, steps, n, i - 1);
      assert StepAt(states, steps, i - 1);
      DoKeeps(states[i - 1], steps[i - 1]);
    }
  }

  /** Over every run: units are conserved, the assert at a release holds, and no wake-up is lost to barging or to
      anything else. */
  lemma NoWakeUpIsLost(states: seq<Sem>, steps: seq<Step>, n: nat, i: nat)
    requires Trace(states, steps, n) && i < |states|
    ensures states[i].count + |states[i].holders| == n
    ensures i < |steps| && steps[i].Release? ==> states[i].count < states[i].initial
    ensures states[i].waiters != [] ==> states[i].count <= |states[i].woken|
    ensures states[i].waiters != [] && states[i].woken == {} ==> states[i].count == 0 && |states[i].holders| == n
  {
    TraceSound(states, steps, n, i);
    if i < |steps| { assert StepAt(states, steps, i); }
  }

  /** Whether the task of a step is told that it has a unit. */
  predicate Answered(s: Sem, step: Step) {
    !step.Release? && s.count > 0
  }

  /** How often a task was told that it has a unit, less the releases, after the first `i` steps. */
  ghost function UnitsOut(states: seq<Sem>, steps: seq<Step>, i: nat): int
    requires i <= |steps| <= |states|
  {
    if i == 0 then 0 else
      var before := UnitsOut(states, steps, i - 1);
      if steps[i - 1].Release? then before - 1
      else if Answered(states[i - 1], steps[i - 1]) then before + 1
      else before
  }

  /** Over every run: no more units are out than there were at the start, and those that are not out are counted. */
  lemma {:induction false} AtMostInitialUnits(states: seq<Sem>, steps: seq<Step>, n: nat, i: nat)
    requires Trace(states, steps, n) && i < |states|
    ensures 0 <= UnitsOut(states, steps, i) <= n && states[i].count == n - UnitsOut(states, steps, i)
    ensures UnitsOut(states, steps, i) == |states[i].holders|
  {
    if i > 0 {
      AtMostInitialUnits(states, steps, n, i - 1);
      assert StepAt(states, steps, i - 1);
    }
  }

  class Semaphore {
    var count: nat
    const initialCount: nat
    var waiters: seq<TaskRef>
    ghost var woken: set<TaskRef>
    ghost var holders: seq<TaskRef>

    constructor (count: nat)
      ensures View() == Sem(count, count, [], {}, [])
    {
      this.count, initialCount, waiters, woken, holders := count, count, [], {}, [];
    }

    ghost function View(): Sem
      reads this
    {
      Sem(count, initialCount, waiters, woken, holders)
    }

    /** One turn of the retry loop: a unit is taken, or the task waits. */
    method AcquireTurn(t: TaskRef) returns (taken: bool)
      requires Can(View(), Try(t))
      modifies this
      ensures View() == Do(old(View()), Try(t)) && taken == Answered(old(View()), Try(t))
      ensures taken ==> count == old(count) - 1 && holders == old(holders) + [t] && waiters == old(waiters)
      ensures !taken ==> count == old(count) == 0 && holders == old(holders) && waiters == old(waiters) + [t]
      ensures woken == old(woken) - {t}
    {
      if count > 0 {
        count := count - 1;
        holders, woken := holders + [t], woken - {t};
        return true;
      }
      waiters := waiters + [t];
      woken := woken - {t};
      return false;
    }

    method TryAcquire(t: TaskRef) returns (taken: bool)
      requires Can(View(), TryOnce(t))
      modifies this
      ensures View() == Do(old(View()), TryOnce(t)) && taken == Answered(old(View()), TryOnce(t))
      ensures taken ==> count == old(count) - 1 && holders == old(holders) + [t]
      ensures !taken ==> count == old(count) == 0 && holders == old(holders)
      ensures waiters == old(waiters) && woken == old(woken)
    {
      if count > 0 {
        count := count - 1;
        holders, woken := holders + [t], woken - {t};
        return true;
      }
      return false;
    }

    /** The task to wake, if there is one. */
    method Release(ghost i: nat) returns (blocked: Option<TaskRef>)
      requires Sound(View()) && Can(View(), Step.Release(i))
      modifies this
      ensures View() == Do(old(View()), Step.Release(i))
      ensures count == old(count) + 1 && holders == old(holders)[..i] + old(holders)[i + 1..]
      ensures blocked == None <==> old(waiters) == []
      ensures blocked == None ==> waiters == [] && woken == old(woken)
      ensures blocked.Some? ==> old(waiters) == [blocked.value] + waiters && woken == old(woken) + {blocked.value}
    {
      assert count < initialCount;
      count := count + 1;
      holders := holders[..i] + holders[i + 1..];
      if waiters == [] {
        return None;
      }
      var head := waiters[0];
      waiters := waiters[1..];
      woken := woken + {head};
      return Some(head);
    }
  }
}
