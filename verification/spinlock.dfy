/** Spinlocks and interrupt masking, one atomic step of one CPU at a time, on any number of CPUs. */
module Spinlocks {
  import opened Collections

  /** `cpu` is written in a step of its own, after the lock has been taken and before it is given up. */
  datatype Lock = Lock(locked: bool, cpu: Option<nat>)

  /** Where a CPU is: outside, in the middle of taking or giving up a lock, or stopped by a panic. */
  datatype Point =
    | Running
    | Checking(l: nat)    // interrupts pushed, about to look at `locked`
    | Comparing(l: nat)   // it was set, about to look at `cpu`
    | Spinning(l: nat)    // about to exchange
    | Owning(l: nat)      // the lock is taken, about to write `cpu`
    | Unlocking(l: nat)   // `cpu` is cleared, about to clear `locked`
    | Popping             // about to pop interrupts
    | Panicked(l: nat)

  /** `held` are the locks taken and not yet given up; it is what the other fields are measured against. */
  datatype Cpu = Cpu(depth: nat, wasEnabled: bool, enabled: bool, at: Point, held: set<nat>)

  datatype State = State(locks: map<nat, Lock>, cpus: seq<Cpu>) {
    function With(c: nat, cpu: Cpu): State
      requires c < |cpus|
    {
      this.(cpus := cpus[c := cpu])
    }

    predicate HoldingNow(l: nat, c: nat)
      requires l in locks
    {
      locks[l].locked && locks[l].cpu == Some(c)
    }
  }

  datatype Step =
    | Acquire(c: nat, l: nat)
    | Look(c: nat)
    | Compare(c: nat)
    | Exchange(c: nat)
    | WriteOwner(c: nat)
    | Release(c: nat, l: nat)
    | Unlock(c: nat)
    | Pop(c: nat)
    | Mask(c: nat, on: bool)   // interrupts switched on or off by other code, while no push is outstanding

  predicate Can(s: State, step: Step) {
    && step.c < |s.cpus|
    && var cpu := s.cpus[step.c];
    match step
    case Acquire(_, l) => cpu.at == Running && l in s.locks
    case Look(_) => cpu.at.Checking? && cpu.at.l in s.locks
    case Compare(_) => cpu.at.Comparing? && cpu.at.l in s.locks
    case Exchange(_) => cpu.at.Spinning? && cpu.at.l in s.locks
    case WriteOwner(_) => cpu.at.Owning? && cpu.at.l in s.locks
    case Release(_, l) => cpu.at == Running && l in s.locks
    case Unlock(_) => cpu.at.Unlocking? && cpu.at.l in s.locks
    case Pop(_) => cpu.at == Popping
    case Mask(_, _) => cpu.at == Running && cpu.depth == 0
  }

  function Pushed(cpu: Cpu): Cpu {
    cpu.(enabled := false, wasEnabled := if cpu.depth == 0 then cpu.enabled else cpu.wasEnabled, depth := cpu.depth + 1)
  }

  /** A pop panics when interrupts are on or nothing was pushed. */
  function Popped(cpu: Cpu): Cpu {
    if cpu.enabled || cpu.depth == 0 then cpu.(at := Panicked(0))
    else cpu.(depth := cpu.depth - 1, enabled := cpu.depth == 1 && cpu.wasEnabled, at := Running)
  }

  function Do(s: State, step: Step): State
    requires Can(s, step)
  {
    var c, cpu := step.c, s.cpus[step.c];
    match step
    case Acquire(_, l) => s.With(c, Pushed(cpu).(at := Checking(l)))
    case Look(_) =>
      var l := cpu.at.l;
      s.With(c, cpu.(at := if s.locks[l].locked then Comparing(l) else Spinning(l)))
    case Compare(_) =>
      var l := cpu.at.l;
      s.With(c, cpu.(at := if s.locks[l].cpu == Some(c) then Panicked(l) else Spinning(l)))
    case Exchange(_) =>
      var l := cpu.at.l;
      if s.locks[l].locked then s
      else s.With(c, cpu.(at := Owning(l), held := cpu.held + {l})).(locks := s.locks[l := s.locks[l].(locked := true)])
    case WriteOwner(_) =>
      var l := cpu.at.l;
      s.With(c, cpu.(at := Running)).(locks := s.locks[l := s.locks[l].(cpu := Some(c))])
    case Release(_, l) =>
      if s.HoldingNow(l, c) then s.With(c, cpu.(at := Unlocking(l))).(locks := s.locks[l := s.locks[l].(cpu := None)])
      else s.With(c, cpu.(at := Panicked(l)))
    case Unlock(_) =>
      var l := cpu.at.l;
      s.With(c, cpu.(at := Popping, held := cpu.held - {l})).(locks := s.locks[l := s.locks[l].(locked := false)])
    case Pop(_) => s.With(c, Popped(cpu))
    case Mask(_, on) => s.With(c, cpu.(enabled := on))
  }

  // ---- the invariant ---------------------------------------------------------------

  /** A lock is taken just while one CPU holds it, and its `cpu` field never names anybody else. */
  ghost predicate LockOk(s: State, l: nat)
    requires l in s.locks
  {
    && (forall c, d :: 0 <= c < |s.cpus| && 0 <= d < |s.cpus| && l in s.cpus[c].held && l in s.cpus[d].held ==> c == d)
    && (s.locks[l].locked <==> exists c :: 0 <= c < |s.cpus| && l in s.cpus[c].held)
    && (s.locks[l].cpu.Some? ==> Owns(s, s.locks[l].cpu.value, l))
  }

  /** The CPU holds the lock and has written, and not yet cleared, its name there. */
  predicate Owns(s: State, c: nat, l: nat) {
    c < |s.cpus| && l in s.cpus[c].held && s.cpus[c].at != Owning(l) && s.cpus[c].at != Unlocking(l)
  }

  /** One push for each lock held, one more while another is being taken or given up. */
  function Pushes(cpu: Cpu): nat {
    |cpu.held| + (match cpu.at
                  case Checking(_) => 1
                  case Comparing(_) => 1
                  case Spinning(_) => 1
                  case Popping => 1
                  case _ => 0)
  }

  predicate CpuOk(s: State, c: nat)
    requires c < |s.cpus|
  {
    var cpu := s.cpus[c];
    && (forall l :: l in cpu.held ==> l in s.locks && (Owns(s, c, l) ==> s.locks[l].cpu == Some(c)))
    && (cpu.at.Owning? || cpu.at.Unlocking? ==>
          cpu.at.l in cpu.held && cpu.at.l in s.locks && s.locks[cpu.at.l].cpu == None)
    && (cpu.at.Comparing? || cpu.at.Spinning? || cpu.at.Checking? ==> cpu.at.l in s.locks)
    && (cpu.at.Spinning? ==> cpu.at.l !in cpu.held)
    && (!cpu.at.Panicked? ==> cpu.depth == Pushes(cpu))
    && (cpu.depth > 0 ==> !cpu.enabled)
  }

  ghost predicate Inv(s: State) {
    (forall l :: l in s.locks ==> LockOk(s, l)) && forall c :: 0 <= c < |s.cpus| ==> CpuOk(s, c)
  }

  /** A step on one CPU and at most one lock: the others are as they were. */
  lemma OthersOk(s: State, r: State, c: nat, l: nat, d: nat)
    requires Inv(s) && c < |s.cpus| && |r.cpus| == |s.cpus| && d < |s.cpus| && d != c
    requires r.cpus == s.cpus[c := r.cpus[c]] && (forall k :: k in r.locks <==> k in s.locks)
    requires forall k :: k in s.locks && k != l ==> r.locks[k] == s.locks[k]
    requires l in s.locks && l in s.cpus[d].held ==> r.locks[l].cpu == s.locks[l].cpu
    ensures CpuOk(r, d)
  {
    assert CpuOk(s, d);
    forall k | k in r.cpus[d].held ensures k in r.locks && (Owns(r, d, k) ==> r.locks[k].cpu == Some(d)) {
      assert Owns(r, d, k) == Owns(s, d, k);
    }
  }

  lemma OtherLock(s: State, r: State, c: nat, l: nat, k: nat)
    requires Inv(s) && c < |s.cpus| && |r.cpus| == |s.cpus| && k in s.locks && k in r.locks && r.locks[k] == s.locks[k]
    requires r.cpus == s.cpus[c := r.cpus[c]] && (k in r.cpus[c].held <==> k in s.cpus[c].held)
    requires s.locks[k].cpu == Some(c) ==> Owns(r, c, k)
    ensures LockOk(r, k)
  {
    assert LockOk(s, k);
    forall d | 0 <= d < |s.cpus| ensures k in r.cpus[d].held <==> k in s.cpus[d].held {}
    if s.locks[k].locked {
      var d :| 0 <= d < |s.cpus| && k in s.cpus[d].held;
      assert k in r.cpus[d].held;
    }
    if s.locks[k].cpu.Some? { assert Owns(s, s.locks[k].cpu.value, k); }
  }

  /** Steps that leave the locks and what is held alone. */
  lemma LocalKeeps(s: State, r: State, c: nat)
    requires Inv(s) && c < |s.cpus| && |r.cpus| == |s.cpus| && r.locks == s.locks && r.cpus == s.cpus[c := r.cpus[c]]
    requires r.cpus[c].held == s.cpus[c].held && CpuOk(r, c)
    requires !s.cpus[c].at.Owning? && !s.cpus[c].at.Unlocking? && !r.cpus[c].at.Owning? && !r.cpus[c].at.Unlocking?
    ensures Inv(r)
  {
    forall k | k in r.locks ensures LockOk(r, k) {
      assert LockOk(s, k);
      OtherLock(s, r, c, 0, k);
    }
    forall d | 0 <= d < |r.cpus| ensures CpuOk(r, d) {
      if d != c { OthersOk(s, r, c, 0, d); }
    }
  }

  lemma PushPopKeeps(s: State, step: Step)
    requires Inv(s) && Can(s, step) && (step.Acquire? || step.Look? || step.Compare? || step.Pop? || step.Mask?)
    ensures Inv(Do(s, step))
  {
    var c := step.c;
    assert CpuOk(s, c);
    if step.Look? && s.cpus[c].at.l in s.cpus[c].held { HeldIsLocked(s, c, s.cpus[c].at.l); }
    LocalKeeps(s, Do(s, step), c);
  }

  lemma HeldIsLocked(s: State, c: nat, l: nat)
    requires Inv(s) && c < |s.cpus| && l in s.locks && l in s.cpus[c].held
    ensures s.locks[l].locked
  {
    assert LockOk(s, l);
  }

  lemma ExchangeKeeps(s: State, step: Step)
    requires Inv(s) && Can(s, step) && step.Exchange?
    ensures Inv(Do(s, step))
  {
    var c, l, r := step.c, s.cpus[step.c].at.l, Do(s, step);
    assert CpuOk(s, c) && LockOk(s, l);
    if !s.locks[l].locked {
      forall k | k in r.locks ensures LockOk(r, k) {
        if k == l { TakenOk(s, r, c, l); } else { OtherLock(s, r, c, l, k); }
      }
      forall d | 0 <= d < |r.cpus| ensures CpuOk(r, d) {
        if d == c { TakerOk(s, r, c, l); } else { OthersOk(s, r, c, l, d); }
      }
    }
  }

  lemma TakerOk(s: State, r: State, c: nat, l: nat)
    requires Inv(s) && c < |s.cpus| && l in s.locks && !s.locks[l].locked && s.cpus[c].at == Spinning(l)
    requires r == s.With(c, s.cpus[c].(at := Owning(l), held := s.cpus[c].held + {l}))
                  .(locks := s.locks[l := s.locks[l].(locked := true)])
    ensures CpuOk(r, c)
  {
    assert CpuOk(s, c);
    OneMoreHeld(s.cpus[c], l);
    NobodyOwns(s, l);
    forall k | k in r.cpus[c].held ensures k in r.locks && (Owns(r, c, k) ==> r.locks[k].cpu == Some(c)) {
      if k != l { assert Owns(r, c, k) == Owns(s, c, k); }
    }
  }

  lemma OneMoreHeld(cpu: Cpu, l: nat)
    requires cpu.at == Spinning(l) && l !in cpu.held
    ensures Pushes(cpu.(at := Owning(l), held := cpu.held + {l})) == Pushes(cpu)
  {
  }

  lemma NobodyOwns(s: State, l: nat)
    requires Inv(s) && l in s.locks && !s.locks[l].locked
    ensures s.locks[l].cpu == None
  {
    assert LockOk(s, l);
    assert s.locks[l].cpu.Some? ==> Owns(s, s.locks[l].cpu.value, l);
  }

  lemma TakenOk(s: State, r: State, c: nat, l: nat)
    requires Inv(s) && c < |s.cpus| && l in s.locks && !s.locks[l].locked && s.cpus[c].at == Spinning(l)
    requires r == s.With(c, s.cpus[c].(at := Owning(l), held := s.cpus[c].held + {l}))
                  .(locks := s.locks[l := s.locks[l].(locked := true)])
    ensures LockOk(r, l)
  {
    assert LockOk(s, l);
    assert forall d :: 0 <= d < |s.cpus| ==> l !in s.cpus[d].held;
    assert l in r.cpus[c].held;
    NobodyOwns(s, l);
  }

  lemma WriteOwnerKeeps(s: State, step: Step)
    requires Inv(s) && Can(s, step) && step.WriteOwner?
    ensures Inv(Do(s, step))
  {
    var c, l, r := step.c, s.cpus[step.c].at.l, Do(s, step);
    assert CpuOk(s, c) && LockOk(s, l);
    forall k | k in r.locks ensures LockOk(r, k) {
      if k == l { SameHolder(s, r, c, l); } else { OtherLock(s, r, c, l, k); }
    }
    forall d | 0 <= d < |r.cpus| ensures CpuOk(r, d) {
      if d != c { OthersOk(s, r, c, l, d); }
    }
  }

  lemma SameHolder(s: State, r: State, c: nat, l: nat)
    requires LockOk'(s, l) && c < |s.cpus| && |r.cpus| == |s.cpus| && r.cpus == s.cpus[c := r.cpus[c]] && l in r.locks
    requires r.cpus[c].held == s.cpus[c].held && l in s.cpus[c].held && r.locks[l].locked == s.locks[l].locked
    requires r.locks[l].cpu.Some? ==> Owns(r, r.locks[l].cpu.value, l)
    ensures LockOk(r, l)
  {
    assert LockOk(s, l);
    forall d | 0 <= d < |s.cpus| ensures l in r.cpus[d].held <==> l in s.cpus[d].held {}
    assert l in r.cpus[c].held;
  }

  ghost predicate LockOk'(s: State, l: nat) {
    l in s.locks && LockOk(s, l)
  }

  lemma ReleaseKeeps(s: State, step: Step)
    requires Inv(s) && Can(s, step) && step.Release?
    ensures Inv(Do(s, step))
  {
    var c, l := step.c, step.l;
    assert CpuOk(s, c) && LockOk(s, l);
    if s.HoldingNow(l, c) {
      ClearingKeeps(s, Do(s, step), c, l);
    } else {
      LocalKeeps(s, Do(s, step), c);
    }
  }

  /** The holder takes its name off the lock. */
  lemma ClearingKeeps(s: State, r: State, c: nat, l: nat)
    requires Inv(s) && c < |s.cpus| && s.cpus[c].at == Running && l in s.locks && s.HoldingNow(l, c)
    requires r == s.With(c, s.cpus[c].(at := Unlocking(l))).(locks := s.locks[l := s.locks[l].(cpu := None)])
    ensures Inv(r)
  {
    assert CpuOk(s, c) && LockOk(s, l);
    assert Owns(s, c, l);
    forall k | k in r.locks ensures LockOk(r, k) {
      if k == l { SameHolder(s, r, c, l); } else { OtherLock(s, r, c, l, k); }
    }
    forall d | 0 <= d < |r.cpus| ensures CpuOk(r, d) {
      if d != c { OthersOk(s, r, c, l, d); }
    }
  }

  lemma UnlockKeeps(s: State, step: Step)
    requires Inv(s) && Can(s, step) && step.Unlock?
    ensures Inv(Do(s, step))
  {
    var c, l, r := step.c, s.cpus[step.c].at.l, Do(s, step);
    assert CpuOk(s, c) && LockOk(s, l);
    forall k | k in r.locks ensures LockOk(r, k) {
      if k == l {
        assert forall d :: 0 <= d < |s.cpus| && d != c ==> l !in s.cpus[d].held;
      } else {
        OtherLock(s, r, c, l, k);
      }
    }
    forall d | 0 <= d < |r.cpus| ensures CpuOk(r, d) {
      if d != c { OthersOk(s, r, c, l, d); }
    }
  }

  lemma DoKeeps(s: State, step: Step)
    requires Inv(s) && Can(s, step)
    ensures Inv(Do(s, step))
  {
    match step
    case Exchange(_) => ExchangeKeeps(s, step);
    case WriteOwner(_) => WriteOwnerKeeps(s, step);
    case Release(_, _) => ReleaseKeeps(s, step);
    case Unlock(_) => UnlockKeeps(s, step);
    case _ => PushPopKeeps(s, step);
  }

  // ---- runs ------------------------------------------------------------------------

  /** No lock taken, nothing pushed; interrupts on or off. */
  predicate Start(s: State) {
    && (forall l :: l in s.locks ==> s.locks[l] == Lock(false, None))
    && forall c :: 0 <= c < |s.cpus| ==> s.cpus[c].depth == 0 && s.cpus[c].at == Running && s.cpus[c].held == {}
  }

  ghost predicate StepAt(states: seq<State>, steps: seq<Step>, i: nat) {
    i < |steps| && i + 1 < |states| && Can(states[i], steps[i]) && states[i + 1] == Do(states[i], steps[i])
  }

  ghost predicate Trace(states: seq<State>, steps: seq<Step>) {
    |states| == |steps| + 1 && Start(states[0]) && forall i :: 0 <= i < |steps| ==> StepAt(states, steps, i)
  }

  lemma {:induction false} TraceInv(states: seq<State>, steps: seq<Step>, i: nat)
    requires Trace(states, steps) && i < |states|
    ensures Inv(states[i])
  {
    if i == 0 {
      forall l | l in states[0].locks ensures LockOk(states[0], l) {}
      forall c | 0 <= c < |states[0].cpus| ensures CpuOk(states[0], c) {}
    } else {
      TraceInv(states, steps, i - 1);
      assert StepAt(states, steps, i - 1);
      DoKeeps(states[i - 1], steps[i - 1]);
    }
  }

  /** At any moment at most one CPU holds a lock, and the lock names a CPU only if that CPU holds it. */
  lemma MutualExclusion(states: seq<State>, steps: seq<Step>, i: nat, l: nat, c: nat, d: nat)
    requires Trace(states, steps) && i < |states| && l in states[i].locks
    requires c < |states[i].cpus| && d < |states[i].cpus| && l in states[i].cpus[c].held
    ensures l in states[i].cpus[d].held ==> c == d
    ensures states[i].locks[l].locked && (states[i].locks[l].cpu == Some(d) ==> c == d)
  {
    TraceInv(states, steps, i);
    assert LockOk(states[i], l);
    if states[i].locks[l].cpu == Some(d) { assert Owns(states[i], d, l); }
  }

  /** An acquirer panics exactly when it holds the lock already; whoever releases panics exactly when it does not. */
  lemma PanicsOnlyOnMisuse(states: seq<State>, steps: seq<Step>, i: nat)
    requires Trace(states, steps) && i < |steps|
    ensures Can(states[i], steps[i]) && steps[i].c < |states[i + 1].cpus|
    ensures var cpu, now := states[i].cpus[steps[i].c], states[i + 1].cpus[steps[i].c].at;
            match steps[i]
            case Look(_) => cpu.at.l in cpu.held ==> now == Comparing(cpu.at.l)
            case Compare(_) => now.Panicked? <==> cpu.at.l in cpu.held
            case Release(_, l) => now.Panicked? <==> l !in cpu.held
            case _ => !now.Panicked?
  {
    TraceInv(states, steps, i);
    assert StepAt(states, steps, i);
    var s, c, cpu := states[i], steps[i].c, states[i].cpus[steps[i].c];
    assert CpuOk(s, c);
    if steps[i].Look? || steps[i].Compare? { HolderNamed(s, c, cpu.at.l); }
    if steps[i].Release? { HolderNamed(s, c, steps[i].l); }
  }

  /** Outside the two short windows a lock names exactly its holder. */
  lemma HolderNamed(s: State, c: nat, l: nat)
    requires Inv(s) && c < |s.cpus| && l in s.locks && s.cpus[c].at != Owning(l) && s.cpus[c].at != Unlocking(l)
    ensures l in s.cpus[c].held <==> s.locks[l].cpu == Some(c)
    ensures l in s.cpus[c].held ==> s.locks[l].locked
  {
    assert CpuOk(s, c) && LockOk(s, l);
    if l in s.cpus[c].held { assert Owns(s, c, l); }
    if s.locks[l].cpu == Some(c) { assert Owns(s, c, l); }
  }

  /** The disable depth counts the locks held and the one being taken or given up; while it is positive, interrupts
      are off. */
  lemma DepthCountsLocks(states: seq<State>, steps: seq<Step>, i: nat, c: nat)
    requires Trace(states, steps) && i < |states| && c < |states[i].cpus|
    ensures var cpu := states[i].cpus[c];
            (!cpu.at.Panicked? ==> cpu.depth == Pushes(cpu)) && (cpu.depth > 0 ==> !cpu.enabled)
  {
    TraceInv(states, steps, i);
    assert CpuOk(states[i], c);
  }

  /** In no order of releases is the flag lost: back at depth 0, interrupts are as they were before the first push. */
  lemma {:induction false} FlagIsRestored(states: seq<State>, steps: seq<Step>, i: nat, j: nat, c: nat)
    requires Trace(states, steps) && i < j < |states| && c < |states[i].cpus|
    requires forall k :: i < k < j ==> c < |states[k].cpus| && states[k].cpus[c].depth > 0
    requires states[i].cpus[c].depth == 0 && c < |states[i + 1].cpus| && states[i + 1].cpus[c].depth > 0
    ensures c < |states[j].cpus|
    ensures if states[j].cpus[c].depth == 0 then states[j].cpus[c].enabled == states[i].cpus[c].enabled
            else states[j].cpus[c].wasEnabled == states[i].cpus[c].enabled
    decreases j
  {
    assert StepAt(states, steps, j - 1);
    if j > i + 1 { FlagIsRestored(states, steps, i, j - 1, c); }
  }

  // ---- what an acquire and a release come to ---------------------------------------

  /** As long as the lock is taken, whoever wants it spins; the exchange that finds it free takes it. */
  lemma SpinsUntilFree(s: State, c: nat)
    requires Inv(s) && Can(s, Exchange(c))
    ensures var l, r := s.cpus[c].at.l, Do(s, Exchange(c));
            if s.locks[l].locked then r == s
            else r.locks == s.locks[l := Lock(true, None)] && r.cpus[c].held == s.cpus[c].held + {l}
                 && r.cpus[c].at == Owning(l)
  {
    NobodyHolds(s, s.cpus[c].at.l);
  }

  lemma NobodyHolds(s: State, l: nat)
    requires Inv(s) && l in s.locks
    ensures !s.locks[l].locked ==>
              s.locks[l] == Lock(false, None) && forall c :: 0 <= c < |s.cpus| ==> l !in s.cpus[c].held
  {
    if !s.locks[l].locked {
      NobodyOwns(s, l);
      assert LockOk(s, l);
    }
  }

  /** The other CPUs and locks are as they were. */
  ghost predicate OnlyChanges(s: State, r: State, c: nat, l: nat) {
    && |r.cpus| == |s.cpus| && (forall k :: k in r.locks <==> k in s.locks)
    && (forall d :: 0 <= d < |s.cpus| && d != c ==> r.cpus[d] == s.cpus[d])
    && forall k :: k in s.locks && k != l ==> r.locks[k] == s.locks[k]
  }

  /** The four steps of an acquire that nobody comes between: the lock is taken, and names the CPU; interrupts are off,
      and the flag of the first push is kept. */
  lemma AcquireTakes(s: State, c: nat, l: nat) returns (a: State, b: State, d: State, r: State)
    requires Inv(s) && Can(s, Acquire(c, l)) && !s.locks[l].locked
    ensures a == Do(s, Acquire(c, l)) && Can(a, Look(c)) && b == Do(a, Look(c)) && Can(b, Exchange(c))
    ensures d == Do(b, Exchange(c)) && Can(d, WriteOwner(c)) && r == Do(d, WriteOwner(c))
    ensures OnlyChanges(s, r, c, l) && r.locks[l] == Lock(true, Some(c))
    ensures var was, now := s.cpus[c], r.cpus[c];
            && now.at == Running && now.held == was.held + {l} && l !in was.held && now.depth == was.depth + 1
            && !now.enabled && now.wasEnabled == if was.depth == 0 then was.enabled else was.wasEnabled
  {
    NobodyHolds(s, l);
    a := Do(s, Acquire(c, l));
    b := Do(a, Look(c));
    d := Do(b, Exchange(c));
    r := Do(d, WriteOwner(c));
  }

  /** The three steps of a release by the holder: the lock is free again; with the last pop interrupts are as they were
      at the first push. */
  lemma ReleaseFrees(s: State, c: nat, l: nat) returns (a: State, b: State, r: State)
    requires Inv(s) && Can(s, Release(c, l)) && l in s.cpus[c].held
    ensures a == Do(s, Release(c, l)) && Can(a, Unlock(c)) && b == Do(a, Unlock(c)) && Can(b, Pop(c))
    ensures r == Do(b, Pop(c)) && OnlyChanges(s, r, c, l) && r.locks[l] == Lock(false, None)
    ensures var was, now := s.cpus[c], r.cpus[c];
            && now.at == Running && now.held == was.held - {l} && was.depth > 0 && now.depth == was.depth - 1
            && now.enabled == (was.depth == 1 && was.wasEnabled)
  {
    HolderNamed(s, c, l);
    assert CpuOk(s, c);
    assert l in s.cpus[c].held && |s.cpus[c].held| > 0;
    a := Do(s, Release(c, l));
    b := Do(a, Unlock(c));
    r := Do(b, Pop(c));
  }
}
