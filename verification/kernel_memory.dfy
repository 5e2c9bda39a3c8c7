/** Many address spaces over one physical memory: over any run no frame is lost, and none has two owners. */
module KernelMemory {
  import opened Collections
  import opened Descriptors
  import opened Frames
  import opened PageTree
  import opened Ownership
  import opened Growth

  // ---- the books ------------------------------------------------------------------

  /** Every frame is free, or loose in somebody's hands, or held by exactly one address space. */
  ghost predicate Balanced(total: set<Frame>, free: seq<Frame>, loose: set<Frame>, held: seq<set<Frame>>) {
    && (forall f :: f in total <==> f in free || f in loose || HeldSomewhere(f, held))
    && (forall f :: f in loose ==> f !in free)
    && (forall i, f :: 0 <= i < |held| && f in held[i] ==> f !in free && f !in loose)
    && (forall i, j :: 0 <= i < j < |held| ==> held[i] !! held[j])
  }

  ghost predicate HeldSomewhere(f: Frame, held: seq<set<Frame>>) {
    exists i :: 0 <= i < |held| && f in held[i]
  }

  lemma BooksAfter(total: set<Frame>, free: seq<Frame>, loose: set<Frame>, held: seq<set<Frame>>, k: nat,
                   given: set<Frame>,
                   mem: Memory, mem': Memory, free': seq<Frame>, held': set<Frame>)
    requires Balanced(total, free, loose, held) && k < |held| && given <= loose
    requires Exchanged(mem, free, held[k], given, mem', free', held')
    requires forall f :: f in held' ==> f !in free'
    ensures Balanced(total, free', loose - given, held[k := held'])
  {
    var now := held[k := held'];
    forall f: Frame ensures f in total <==> f in free' || f in loose - given || HeldSomewhere(f, now) {
      if HeldSomewhere(f, held) {
        var i :| 0 <= i < |held| && f in held[i];
        assert i != k ==> f in now[i];
        assert f in held' ==> f in now[k];
      }
      if f in held' { assert f in now[k]; }
      if HeldSomewhere(f, now) {
        var i :| 0 <= i < |held| && f in now[i];
        assert i != k ==> f in held[i];
      }
    }
    forall i, f | 0 <= i < |held| && f in now[i] ensures f !in free' && f !in loose - given {
      if i != k { OthersKeep(total, free, loose, held, k, given, mem, mem', free', held', i, f); }
    }
    forall i, j | 0 <= i < j < |held| ensures now[i] !! now[j] {
      forall f | f in now[i] ensures f !in now[j] {
        if i != k { OthersKeep(total, free, loose, held, k, given, mem, mem', free', held', i, f); }
        if j != k && f in held[j] { OthersKeep(total, free, loose, held, k, given, mem, mem', free', held', j, f); }
      }
    }
  }

  /** Frames of the other address spaces stay out of reach. */
  lemma OthersKeep(total: set<Frame>, free: seq<Frame>, loose: set<Frame>, held: seq<set<Frame>>, k: nat,
                   given: set<Frame>,
                   mem: Memory, mem': Memory, free': seq<Frame>, held': set<Frame>, i: nat, f: Frame)
    requires Balanced(total, free, loose, held) && k < |held| && given <= loose
    requires Exchanged(mem, free, held[k], given, mem', free', held')
    requires i < |held| && i != k && f in held[i]
    ensures f !in free' && f !in held' && f !in held[k] && f !in free && f !in given
  {
    assert if i < k then held[i] !! held[k] else held[k] !! held[i];
    assert f !in held[k];
  }

  /** A new holder takes its frames from the free list. */
  lemma BooksWithNew(total: set<Frame>, free: seq<Frame>, loose: set<Frame>, held: seq<set<Frame>>,
                     mem: Memory, mem': Memory, free': seq<Frame>, held': set<Frame>)
    requires Balanced(total, free, loose, held)
    requires Exchanged(mem, free, {}, {}, mem', free', held')
    requires forall f :: f in held' ==> f !in free'
    ensures Balanced(total, free', loose, held + [held'])
  {
    BooksWithNobody(total, free, loose, held);
    var more := held + [{}];
    BooksAfter(total, free, loose, more, |held|, {}, mem, mem', free', held');
    assert more[|held| := held'] == held + [held'];
    assert loose - {} == loose;
  }

  lemma BooksWithNobody(total: set<Frame>, free: seq<Frame>, loose: set<Frame>, held: seq<set<Frame>>)
    requires Balanced(total, free, loose, held)
    ensures Balanced(total, free, loose, held + [{}])
  {
    var more := held + [{}];
    forall f: Frame ensures HeldSomewhere(f, held) <==> HeldSomewhere(f, more) {
      if HeldSomewhere(f, held) {
        var i :| 0 <= i < |held| && f in held[i];
        assert f in more[i];
      }
    }
  }

  /** A holder that holds nothing any more can be struck off. */
  lemma BooksWithout(total: set<Frame>, free: seq<Frame>, loose: set<Frame>, held: seq<set<Frame>>, k: nat)
    requires Balanced(total, free, loose, held) && k < |held| && held[k] == {}
    ensures Balanced(total, free, loose, held[..k] + held[k + 1..])
  {
    var less := held[..k] + held[k + 1..];
    assert forall i :: 0 <= i < |less| ==> less[i] == held[if i < k then i else i + 1];
    forall f: Frame ensures HeldSomewhere(f, held) <==> HeldSomewhere(f, less) {
      if HeldSomewhere(f, held) {
        var i :| 0 <= i < |held| && f in held[i];
        assert f in less[if i < k then i else i - 1];
      }
    }
  }

  lemma BooksWithLoose(total: set<Frame>, free: seq<Frame>, loose: set<Frame>, held: seq<set<Frame>>,
                       free': seq<Frame>, f: Frame)
    requires Balanced(total, free, loose, held) && free == [f] + free' && NoDuplicates(free)
    ensures Balanced(total, free', loose + {f}, held)
  {
    assert f == free[0] && forall g :: g in free <==> g == f || g in free';
    assert f !in free' by { assert forall i :: 0 <= i < |free'| ==> free[i + 1] == free'[i]; }
  }

  lemma BooksWithFreed(total: set<Frame>, free: seq<Frame>, loose: set<Frame>, held: seq<set<Frame>>, f: Frame)
    requires Balanced(total, free, loose, held) && f in loose
    ensures Balanced(total, [f] + free, loose - {f}, held)
  {
    assert forall g :: g in [f] + free <==> g == f || g in free;
  }

  // ---- runs -----------------------------------------------------------------------

  /** An address space, as far as frames are concerned: its root, tables and owned pages. */
  datatype Space = Space(root: Frame, tables: map<Node, Frame>, pages: map<Node, Frame>)

  datatype System = System(mem: Memory, free: seq<Frame>, spaces: seq<Space>, loose: set<Frame>)

  ghost predicate Held(mem: Memory, free: seq<Frame>, s: Space) {
    Owns(mem, free, s.root, s.tables, s.pages)
  }

  ghost function SpaceFrames(s: Space): set<Frame> { FramesOf(s.tables, s.pages) }

  ghost function Holdings(spaces: seq<Space>): (held: seq<set<Frame>>)
    ensures |held| == |spaces| && forall i :: 0 <= i < |spaces| ==> held[i] == SpaceFrames(spaces[i])
  {
    seq(|spaces|, i requires 0 <= i < |spaces| => SpaceFrames(spaces[i]))
  }

  /** Every address space is sound in the one memory, and every frame of `total` has exactly one owner. */
  ghost predicate Sound(s: System, total: set<Frame>) {
    match s
    case System(mem, free, spaces, loose) =>
      && NoDuplicates(free)
      && (forall i :: 0 <= i < |spaces| ==> Held(mem, free, spaces[i]))
      && Balanced(total, free, loose, Holdings(spaces))
      && forall f :: f in loose ==> f in mem
  }

  /** An operation on space `k`: allocating, freeing, or mapping the `given` loose frames. */
  ghost predicate ChangeStep(s: System, t: System, k: nat, given: set<Frame>) {
    match s
    case System(mem, free, spaces, loose) =>
      && k < |spaces| && |t.spaces| == |spaces| && t.spaces == spaces[k := t.spaces[k]]
      && t.spaces[k].root == spaces[k].root
      && given <= loose && t.loose == loose - given && NoDuplicates(t.free)
      && Held(t.mem, t.free, t.spaces[k])
      && Exchanged(mem, free, SpaceFrames(spaces[k]), given, t.mem, t.free, SpaceFrames(t.spaces[k]))
  }

  /** A new address space, empty or a copy of another. */
  ghost predicate CreateStep(s: System, t: System, new': Space) {
    match s
    case System(mem, free, spaces, loose) =>
      && t.spaces == spaces + [new'] && t.loose == loose && NoDuplicates(t.free)
      && Held(t.mem, t.free, new')
      && Exchanged(mem, free, {}, {}, t.mem, t.free, SpaceFrames(new'))
  }

  ghost predicate DestroyStep(s: System, t: System, k: nat) {
    match s
    case System(mem, free, spaces, loose) =>
      && k < |spaces| && t.spaces == spaces[..k] + spaces[k + 1..] && t.loose == loose && NoDuplicates(t.free)
      && Exchanged(mem, free, SpaceFrames(spaces[k]), {}, t.mem, t.free, {})
  }

  /** A frame is handed out by itself. */
  ghost predicate TakeStep(s: System, t: System, f: Frame) {
    match s
    case System(mem, free, spaces, loose) =>
      && t.spaces == spaces && t.loose == loose + {f} && free == [f] + t.free && f in mem
      && Exchanged(mem, free, {}, {}, t.mem, t.free, {f})
  }

  /** A loose frame comes back. */
  ghost predicate GiveStep(s: System, t: System, f: Frame) {
    match s
    case System(mem, free, spaces, loose) =>
      && f in loose && t.spaces == spaces && t.loose == loose - {f} && t.free == [f] + free && NoDuplicates(t.free)
      && Exchanged(mem, free, {f}, {}, t.mem, t.free, {})
  }

  ghost predicate Step(s: System, t: System) {
    || (exists k, given :: ChangeStep(s, t, k, given))
    || (exists n :: CreateStep(s, t, n))
    || (exists k :: DestroyStep(s, t, k))
    || (exists f :: TakeStep(s, t, f))
    || (exists f :: GiveStep(s, t, f))
  }

  /** What one holder does leaves any other sound, and its memory as it was. */
  lemma OtherStays(mem: Memory, free: seq<Frame>, held: set<Frame>, given: set<Frame>,
                   mem': Memory, free': seq<Frame>, held': set<Frame>, s: Space)
    requires Held(mem, free, s) && Exchanged(mem, free, held, given, mem', free', held')
    requires SpaceFrames(s) !! held && SpaceFrames(s) !! given
    ensures Held(mem', free', s)
    ensures forall f :: f in SpaceFrames(s) ==> f in mem && f in mem' && mem'[f] == mem[f]
  {
    forall f | f in mem && Holds(s.tables, s.pages, f) ensures f in SpaceFrames(s) && f !in free' && mem'[f] == mem[f] {
    }
    forall n | n in s.tables ensures mem'[s.tables[n]] == mem[s.tables[n]] {
      assert Holds(s.tables, s.pages, s.tables[n]);
    }
    forall f | f in SpaceFrames(s) ensures f in mem && Holds(s.tables, s.pages, f) {
    }
    OwnsFrame(mem, free, mem', free', s.root, s.tables, s.pages);
  }

  lemma HeldNotFree(mem: Memory, free: seq<Frame>, s: Space)
    requires Held(mem, free, s)
    ensures forall f :: f in SpaceFrames(s) ==> f !in free
  {
  }

  lemma ChangeKeeps(s: System, t: System, total: set<Frame>, k: nat, given: set<Frame>)
    requires Sound(s, total) && ChangeStep(s, t, k, given)
    ensures Sound(t, total)
  {
    var held := Holdings(s.spaces);
    forall i | 0 <= i < |t.spaces| ensures Held(t.mem, t.free, t.spaces[i]) {
      if i != k {
        assert if i < k then held[i] !! held[k] else held[k] !! held[i];
        OtherStays(s.mem, s.free, held[k], given, t.mem, t.free, SpaceFrames(t.spaces[k]), s.spaces[i]);
      }
    }
    HeldNotFree(t.mem, t.free, t.spaces[k]);
    BooksAfter(total, s.free, s.loose, held, k, given, s.mem, t.mem, t.free, SpaceFrames(t.spaces[k]));
    assert Holdings(t.spaces) == held[k := SpaceFrames(t.spaces[k])];
  }

  lemma CreateKeeps(s: System, t: System, total: set<Frame>, n: Space)
    requires Sound(s, total) && CreateStep(s, t, n)
    ensures Sound(t, total)
  {
    forall i | 0 <= i < |s.spaces| ensures Held(t.mem, t.free, t.spaces[i]) {
      OtherStays(s.mem, s.free, {}, {}, t.mem, t.free, SpaceFrames(n), s.spaces[i]);
    }
    HeldNotFree(t.mem, t.free, n);
    BooksWithNew(total, s.free, s.loose, Holdings(s.spaces), s.mem, t.mem, t.free, SpaceFrames(n));
    assert Holdings(t.spaces) == Holdings(s.spaces) + [SpaceFrames(n)];
  }

  lemma DestroyKeeps(s: System, t: System, total: set<Frame>, k: nat)
    requires Sound(s, total) && DestroyStep(s, t, k)
    ensures Sound(t, total)
  {
    SurvivorsHeld(s, t, total, k);
    OthersHeld(t.mem, t.free, s.spaces, t.spaces, k);
    DestroyedBooks(s, t, total, k);
  }

  ghost predicate OthersAreHeld(mem: Memory, free: seq<Frame>, spaces: seq<Space>, k: nat) {
    forall j :: 0 <= j < |spaces| && j != k ==> Held(mem, free, spaces[j])
  }

  lemma SurvivorsHeld(s: System, t: System, total: set<Frame>, k: nat)
    requires Sound(s, total) && DestroyStep(s, t, k)
    ensures OthersAreHeld(t.mem, t.free, s.spaces, k)
  {
    var held := Holdings(s.spaces);
    forall j | 0 <= j < |s.spaces| && j != k ensures Held(t.mem, t.free, s.spaces[j]) {
      assert if j < k then held[j] !! held[k] else held[k] !! held[j];
      OtherStays(s.mem, s.free, held[k], {}, t.mem, t.free, {}, s.spaces[j]);
    }
  }

  lemma OthersHeld(mem: Memory, free: seq<Frame>, spaces: seq<Space>, rest: seq<Space>, k: nat)
    requires k < |spaces| && OthersAreHeld(mem, free, spaces, k) && rest == spaces[..k] + spaces[k + 1..]
    ensures forall i :: 0 <= i < |rest| ==> Held(mem, free, rest[i])
  {
    forall i | 0 <= i < |rest| ensures Held(mem, free, rest[i]) {
      assert rest[i] == spaces[if i < k then i else i + 1];
    }
  }

  lemma DestroyedBooks(s: System, t: System, total: set<Frame>, k: nat)
    requires Sound(s, total) && DestroyStep(s, t, k)
    ensures Balanced(total, t.free, t.loose, Holdings(t.spaces))
  {
    var held := Holdings(s.spaces);
    BooksAfter(total, s.free, s.loose, held, k, {}, s.mem, t.mem, t.free, {});
    assert s.loose - {} == s.loose;
    BooksWithout(total, t.free, s.loose, held[k := {}], k);
    HoldingsWithout(s.spaces, k);
  }

  lemma HoldingsWithout(spaces: seq<Space>, k: nat)
    requires k < |spaces|
    ensures var held := Holdings(spaces)[k := {}];
            Holdings(spaces[..k] + spaces[k + 1..]) == held[..k] + held[k + 1..]
  {
  }

  lemma TakeKeeps(s: System, t: System, total: set<Frame>, f: Frame)
    requires Sound(s, total) && TakeStep(s, t, f)
    ensures Sound(t, total)
  {
    forall i | 0 <= i < |t.spaces| ensures Held(t.mem, t.free, t.spaces[i]) {
      OtherStays(s.mem, s.free, {}, {}, t.mem, t.free, {f}, s.spaces[i]);
    }
    BooksWithLoose(total, s.free, s.loose, Holdings(s.spaces), t.free, f);
    assert forall i :: 0 <= i < |t.free| ==> t.free[i] == s.free[i + 1];
  }

  lemma GiveKeeps(s: System, t: System, total: set<Frame>, f: Frame)
    requires Sound(s, total) && GiveStep(s, t, f)
    ensures Sound(t, total)
  {
    var held := Holdings(s.spaces);
    forall i | 0 <= i < |t.spaces| ensures Held(t.mem, t.free, t.spaces[i]) {
      assert f !in held[i];
      OtherStays(s.mem, s.free, {f}, {}, t.mem, t.free, {}, s.spaces[i]);
    }
    BooksWithFreed(total, s.free, s.loose, held, f);
  }

  lemma StepKeeps(s: System, t: System, total: set<Frame>)
    requires Sound(s, total) && Step(s, t)
    ensures Sound(t, total)
  {
    if k, given :| ChangeStep(s, t, k, given) {
      ChangeKeeps(s, t, total, k, given);
    } else if n :| CreateStep(s, t, n) {
      CreateKeeps(s, t, total, n);
    } else if k :| DestroyStep(s, t, k) {
      DestroyKeeps(s, t, total, k);
    } else if f :| TakeStep(s, t, f) {
      TakeKeeps(s, t, total, f);
    } else {
      var f :| GiveStep(s, t, f);
      GiveKeeps(s, t, total, f);
    }
  }

  ghost predicate Run(trace: seq<System>) {
    |trace| > 0 && forall i {:trigger trace[i]} :: 0 < i < |trace| ==> Step(trace[i - 1], trace[i])
  }

  /** Over any run from a system without address spaces, every frame that was free at the start is, at
      every moment, free, loose, or held by exactly one sound address space. */
  lemma {:induction false} RunIsSound(trace: seq<System>, i: nat)
    requires Run(trace) && trace[0].spaces == [] && trace[0].loose == {} && NoDuplicates(trace[0].free)
    requires i < |trace|
    ensures Sound(trace[i], Elements(trace[0].free))
  {
    if i == 0 {
      assert Holdings([]) == [];
    } else {
      RunIsSound(trace, i - 1);
      assert Step(trace[i - 1], trace[i]);
      StepKeeps(trace[i - 1], trace[i], Elements(trace[0].free));
    }
  }

  /** When every address space is gone and no frame is loose, the free frames are those of the start. */
  lemma DestroyingAllRestores(trace: seq<System>)
    requires Run(trace) && trace[0].spaces == [] && trace[0].loose == {} && NoDuplicates(trace[0].free)
    requires var end := trace[|trace| - 1]; end.spaces == [] && end.loose == {}
    ensures Elements(trace[|trace| - 1].free) == Elements(trace[0].free)
    ensures |trace[|trace| - 1].free| == |trace[0].free|
  {
    RunIsSound(trace, |trace| - 1);
    var first, end := trace[0].free, trace[|trace| - 1].free;
    assert Sound(trace[|trace| - 1], Elements(first));
    assert forall f :: f in Elements(first) <==> f in end;
    ElementsSize(first);
    ElementsSize(end);
  }
}
