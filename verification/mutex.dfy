/** Mutexes: one owner, and a queue of waiters who try again when woken. */
module Mutexes {
  import opened Collections
  import opened Scheduling

  datatype Mtx = Mtx(owner: Option<TaskRef>, waiters: seq<TaskRef>, woken: set<TaskRef>)

  datatype Step = Try(t: TaskRef) | TryOnce(t: TaskRef) | Release(t: TaskRef)

  /** A release by anybody but the owner is stopped by an assert. */
  predicate Can(m: Mtx, step: Step) {
    match step
    case Try(t) => t !in m.waiters
    case TryOnce(t) => t !in m.waiters && t !in m.woken
    case Release(t) => m.owner == Some(t)
  }

  function Do(m: Mtx, step: Step): Mtx
    requires Can(m, step)
  {
    match step
    case Try(t) =>
      if m.owner == None then m.(owner := Some(t), woken := m.woken - {t})
      else m.(waiters := m.waiters + [t], woken := m.woken - {t})
    case TryOnce(t) => if m.owner == None then m.(owner := Some(t)) else m
    case Release(t) =>
      var r := m.(owner := None);
      if m.waiters == [] then r else r.(waiters := m.waiters[1..], woken := m.woken + {m.waiters[0]})
  }

  /** Whoever waits waits for an owner, or for a woken task that will take or pass on the mutex. */
  predicate Sound(m: Mtx) {
    && (m.waiters != [] ==> m.owner.Some? || m.woken != {})
    && NoDuplicates(m.waiters) && forall t :: t in m.waiters ==> t !in m.woken
  }

  lemma DoKeeps(m: Mtx, step: Step)
    requires Sound(m) && Can(m, step)
    ensures Sound(Do(m, step))
  {
    match step
    case Try(t) => if m.owner.Some? { Append(m.waiters, t); }
    case TryOnce(t) =>
    case Release(t) =>
      if m.waiters != [] {
        Tail(m.waiters);
        assert m.waiters[0] in m.waiters && m.waiters[0] in Do(m, step).woken;
      }
  }

  ghost predicate StepAt(states: seq<Mtx>, steps: seq<Step>, i: nat) {
    i < |steps| && i + 1 < |states| && Can(states[i], steps[i]) && states[i + 1] == Do(states[i], steps[i])
  }

  ghost predicate Trace(states: seq<Mtx>, steps: seq<Step>) {
    |states| == |steps| + 1 && states[0] == Mtx(None, [], {})
        && forall i :: 0 <= i < |steps| ==> StepAt(states, steps, i)
  }

  /** Over every run, despite barging: waiters imply an owner, or a woken task that has not tried again. */
  lemma {:induction false} NoWakeUpIsLost(states: seq<Mtx>, steps: seq<Step>, i: nat)
    requires Trace(states, steps) && i < |states|
    ensures Sound(states[i]) && (states[i].waiters != [] ==> states[i].owner.Some? || states[i].woken != {})
  {
    if i > 0 {
      NoWakeUpIsLost(states, steps, i - 1);
      assert StepAt(states, steps, i - 1);
      DoKeeps(states[i - 1], steps[i - 1]);
    }
  }

  /** Whether the task of a step is told that it has the mutex. */
  predicate Answered(m: Mtx, step: Step) {
    !step.Release? && m.owner == None
  }

  /** Who was told that it has the mutex and has not released it since, after the first `i` steps. */
  ghost function Holders(states: seq<Mtx>, steps: seq<Step>, i: nat): set<TaskRef>
    requires i <= |steps| <= |states|
  {
    if i == 0 then {} else
      var before := Holders(states, steps, i - 1);
      if steps[i - 1].Release? then before - {steps[i - 1].t}
      else if Answered(states[i - 1], steps[i - 1]) then before + {steps[i - 1].t}
      else before
  }

  /** Over every run: the mutex is held by its owner and by nobody else, so by one task at most, and by none when it
      has no owner. */
  lemma {:induction false} MutualExclusion(states: seq<Mtx>, steps: seq<Step>, i: nat)
    requires Trace(states, steps) && i < |states|
    ensures forall t :: t in Holders(states, steps, i) <==> states[i].owner == Some(t)
    ensures forall t, u :: t in Holders(states, steps, i) && u in Holders(states, steps, i) ==> t == u
  {
    if i > 0 {
      MutualExclusion(states, steps, i - 1);
      assert StepAt(states, steps, i - 1);
    }
  }

  /** Over every run: whoever is told that it has the mutex is the owner until it releases it. */
  lemma {:induction false} OwnsUntilRelease(states: seq<Mtx>, steps: seq<Step>, i: nat, j: nat)
    requires Trace(states, steps) && i < j < |states| && Answered(states[i], steps[i])
    requires forall k :: i < k < j ==> steps[k] != Release(steps[i].t)
    ensures states[j].owner == Some(steps[i].t)
  {
    assert StepAt(states, steps, j - 1);
    if i + 1 < j { OwnsUntilRelease(states, steps, i, j - 1); }
  }

  class Mutex {
    var owner: Option<TaskRef>
    var waiters: seq<TaskRef>
    ghost var woken: set<TaskRef>

    constructor ()
      ensures View() == Mtx(None, [], {})
    {
      owner, waiters, woken := None, [], {};
    }

    ghost function View(): Mtx
      reads this
    {
      Mtx(owner, waiters, woken)
    }

    method AcquireTurn(t: TaskRef) returns (taken: bool)
      requires Can(View(), Try(t))
      modifies this
      ensures View() == Do(old(View()), Try(t)) && taken == Answered(old(View()), Try(t))
      ensures taken ==> old(owner) == None && owner == Some(t) && waiters == old(waiters)
      ensures !taken ==> old(owner).Some? && owner == old(owner) && waiters == old(waiters) + [t]
      ensures woken == old(woken) - {t}
    {
      taken := owner == None;
      woken := woken - {t};
      if taken {
        owner := Some(t);
      } else {
        waiters := waiters + [t];
      }
    }

    method TryAcquire(t: TaskRef) returns (taken: bool)
      requires Can(View(), TryOnce(t))
      modifies this
      ensures View() == Do(old(View()), TryOnce(t)) && taken == Answered(old(View()), TryOnce(t))
      ensures taken ==> old(owner) == None && owner == Some(t)
      ensures !taken ==> old(owner).Some? && owner == old(owner)
      ensures waiters == old(waiters) && woken == old(woken)
    {
      if owner == None {
        owner := Some(t);
        return true;
      }
      return false;
    }

    method Release(current: TaskRef) returns (blocked: Option<TaskRef>)
      requires Can(View(), Step.Release(current))
      modifies this
      ensures View() == Do(old(View()), Step.Release(current))
      ensures owner == None
      ensures blocked == None <==> old(waiters) == []
      ensures blocked == None ==> waiters == [] && woken == old(woken)
      ensures blocked.Some? ==> old(waiters) == [blocked.value] + waiters && woken == old(woken) + {blocked.value}
    {
      assert owner != None;
      assert owner == Some(current);
      owner := None;
      if waiters == [] {
        return None;
      }
      var head := waiters[0];
      waiters := waiters[1..];
      woken := woken + {head};
      return Some(head);
    }
  }
}
