/** Descriptor tables: three arrays of 64 entries, over the reference counts of the files. */
module FdTables {
  import opened Results
  import opened FileReferences

  /** The reference counts of all files.  A count is taken up or down in one atomic step. */
  class FileCounts {
    var counts: map<FileRef, nat>
    ghost var held: multiset<FileRef>
    ghost var closed: seq<FileRef>

    method FileGet(f: FileRef)
      requires f in counts && counts[f] != MAX_COUNT
      modifies this`counts
      ensures counts == Got(old(counts), f) && OneMore(old(counts), counts, f)
    {
      counts := counts[f := counts[f] + 1];
    }

    /** What is left after the drop; 0 when the file was closed, an error when it was gone already. */
    method FilePut(f: FileRef) returns (r: int)
      modifies this`counts, this`closed
      ensures counts == Put(old(counts), f) && closed == ClosedBy(old(counts), old(closed), f)
      ensures OneLess(old(counts), old(closed), counts, closed, f)
      ensures r == if f !in old(counts) || old(counts)[f] == 0 then -ENOENT else old(counts)[f] - 1
    {
      if f !in counts || counts[f] == 0 {
        return -ENOENT;
      }
      var was := counts[f];
      if was == 1 {
        counts, closed := counts - {f}, closed + [f];
        return EOK;
      }
      counts := counts[f := was - 1];
      return was - 1;
    }
  }

  /** One table and the files, as a system of its own. */
  ghost function Local(slots: seq<Slot>, c: FileCounts): System
    reads c
  {
    System([slots], c.counts, c.held, c.closed)
  }

  /** Table `t` of `s` by itself. */
  function Alone(s: System, t: nat): System
    requires t < |s.tables|
  {
    System([s.tables[t]], s.counts, s.held, s.closed)
  }

  /** `r` is `s` with its table `t` as in `one`, which has no other. */
  predicate Agrees(s: System, t: nat, r: System, one: System)
    requires t < |s.tables|
  {
    |one.tables| == 1 && r == System(s.tables[t := one.tables[0]], one.counts, one.held, one.closed)
  }

  /** What an operation does to a table does not depend on which one it is, or on the others. */
  lemma DoIsLocal(s: System, op: Op, local: Op)
    requires Can(s, op) && !op.Create? && !op.Release? && !op.NewTable? && !op.CopyOf?
    requires local == op.(t := 0)
    ensures Can(Alone(s, op.t), local) && Agrees(s, op.t, Do(s, op), Do(Alone(s, op.t), local))
  {
    match op
    case DupAt(t, src, dst, on) => DupAtLocal(s, t, src, dst, on);
    case Dup(t, src) => DupLocal(s, t, src);
    case Close(t, fd) => CloseLocal(s, t, fd);
    case CloseAll(t) => CloseAllLocal(s, t);
    case InstallAt(t, f, fd) => InstallLocal(s, t, f, fd);
    case Reserve(t, minFd) => ReserveLocal(s, t, minFd);
    case _ =>
  }

  lemma DupAtLocal(s: System, t: nat, src: nat, dst: nat, on: bool)
    requires Can(s, Op.DupAt(t, src, dst, on))
    ensures Agrees(s, t, Do(s, Op.DupAt(t, src, dst, on)), Do(Alone(s, t), Op.DupAt(0, src, dst, on)))
  {
    DupAtCases(s, t, src, dst, on);
    DupAtCases(Alone(s, t), 0, src, dst, on);
    if IsOpen(s.tables[t], src) && dst < MAX_FILES && src != dst { DuppedAtLocal(s, t, src, dst, on); }
  }

  /** Refused; the flag only, when source and target are one; or the replacement. */
  lemma DupAtCases(s: System, t: nat, src: nat, dst: nat, on: bool)
    requires Can(s, Op.DupAt(t, src, dst, on))
    ensures var r := Do(s, Op.DupAt(t, src, dst, on));
            if !IsOpen(s.tables[t], src) || dst >= MAX_FILES then r == s
            else if src == dst then r == s.(tables :=
                                            s.tables[t := s.tables[t][src := s.tables[t][src].(closeOnExec := on)]])
            else r == DuppedAt(s, t, src, dst, on)
  {
  }

  lemma DupLocal(s: System, t: nat, src: nat)
    requires Can(s, Op.Dup(t, src))
    ensures Agrees(s, t, Do(s, Op.Dup(t, src)), Do(Alone(s, t), Op.Dup(0, src)))
  {
  }

  lemma CloseLocal(s: System, t: nat, fd: nat)
    requires Can(s, Op.Close(t, fd))
    ensures Agrees(s, t, Do(s, Op.Close(t, fd)), Do(Alone(s, t), Op.Close(0, fd)))
  {
  }

  lemma CloseAllLocal(s: System, t: nat)
    requires Can(s, Op.CloseAll(t))
    ensures Agrees(s, t, Do(s, Op.CloseAll(t)), Do(Alone(s, t), Op.CloseAll(0)))
  {
    DroppedAllLocal(Stripped(s, t), Stripped(Alone(s, t), 0), Files(s.tables[t]));
  }

  lemma InstallLocal(s: System, t: nat, f: FileRef, fd: nat)
    requires Can(s, Op.InstallAt(t, f, fd))
    ensures Agrees(s, t, Do(s, Op.InstallAt(t, f, fd)), Do(Alone(s, t), Op.InstallAt(0, f, fd)))
  {
  }

  lemma ReserveLocal(s: System, t: nat, minFd: nat)
    requires Can(s, Op.Reserve(t, minFd))
    ensures Agrees(s, t, Do(s, Op.Reserve(t, minFd)), Do(Alone(s, t), Op.Reserve(0, minFd)))
  {
  }

  lemma DuppedAtLocal(s: System, t: nat, src: nat, dst: nat, on: bool)
    requires t < |s.tables| && |s.tables[t]| == MAX_FILES && IsOpen(s.tables[t], src) && dst < MAX_FILES && src != dst
    ensures Agrees(s, t, DuppedAt(s, t, src, dst, on), DuppedAt(Alone(s, t), 0, src, dst, on))
  {
    DuppedAtIs(s, t, src, dst, on);
    DuppedAtIs(Alone(s, t), 0, src, dst, on);
  }

  /** The slot is replaced, the source counted once more and then the replaced file once less. */
  lemma DuppedAtIs(s: System, t: nat, src: nat, dst: nat, on: bool)
    requires t < |s.tables| && |s.tables[t]| == MAX_FILES && IsOpen(s.tables[t], src) && dst < MAX_FILES && src != dst
    ensures var f, was, got := s.tables[t][src].file, s.tables[t][dst].file, Got(s.counts, s.tables[t][src].file);
            DuppedAt(s, t, src, dst, on)
            == System(s.tables[t := s.tables[t][dst := Slot(Installed, f, on)]],
                      if IsOpen(s.tables[t], dst) then Put(got, was) else got, s.held,
                      if IsOpen(s.tables[t], dst) then ClosedBy(got, s.closed, was) else s.closed)
  {
    var f, was := s.tables[t][src].file, s.tables[t][dst].file;
    var slots := s.tables[t];
    assert slots[dst := EMPTY][dst := Slot(Installed, f, on)] == slots[dst := Slot(Installed, f, on)];
    assert s.tables[t := slots[dst := EMPTY]][t := slots[dst := Slot(Installed, f, on)]]
           == s.tables[t := slots[dst := Slot(Installed, f, on)]];
    assert (s.held + multiset{was}) - multiset{was} == s.held;
  }

  lemma {:induction false} DroppedAllLocal(s: System, one: System, list: seq<FileRef>)
    requires s.counts == one.counts && s.held == one.held && s.closed == one.closed
    ensures var a, b := DroppedAll(s, list), DroppedAll(one, list);
            && a.counts == b.counts && a.held == b.held && a.closed == b.closed && a.tables == s.tables
               && b.tables == one.tables
    decreases |list|
  {
    if list != [] { DroppedAllLocal(Dropped(s, list[0]), Dropped(one, list[0]), list[1..]); }
  }

  /** What is open at the source is referred to once more, and then what was open at the target once less. */
  ghost predicate Recounted(was: map<FileRef, nat>, wasClosed: seq<FileRef>, counts: map<FileRef, nat>,
                            closed: seq<FileRef>, src: Slot, dst: Slot)
  {
    && src.file in was
    && if dst.state == Installed then OneLess(was[src.file := was[src.file] + 1], wasClosed, counts, closed, dst.file)
       else OneMore(was, counts, src.file) && closed == wasClosed
  }

  class FDTable {
    const files: array<FileRef>
    const state: array<SlotState>
    const closeOnExec: array<bool>

    constructor ()
      ensures Valid() && fresh(files) && fresh(state) && fresh(closeOnExec) && Slots() == Unused()
    {
      files := new FileRef[MAX_FILES](_ => 0);
      state := new SlotState[MAX_FILES](_ => Free);
      closeOnExec := new bool[MAX_FILES](_ => false);
      new;
      assert forall i :: 0 <= i < MAX_FILES ==> Slots()[i] == EMPTY;
    }

    predicate Valid() {
      files.Length == MAX_FILES && state.Length == MAX_FILES && closeOnExec.Length == MAX_FILES
    }

    ghost function Slots(): (s: seq<Slot>)
      requires Valid()
      reads files, state, closeOnExec
      ensures |s| == MAX_FILES && forall i :: 0 <= i < MAX_FILES ==> s[i] == Slot(state[i], files[i], closeOnExec[i])
    {
      seq(MAX_FILES, i requires 0 <= i < MAX_FILES reads files, state,
          closeOnExec => Slot(state[i], files[i], closeOnExec[i]))
    }

    predicate Open(fd: nat)
      requires Valid()
      reads state
    {
      fd < MAX_FILES && state[fd] == Installed
    }

    method Set(fd: nat, s: SlotState, f: FileRef, on: bool)
      requires Valid() && fd < MAX_FILES
      modifies files, state, closeOnExec
      ensures Slots() == old(Slots())[fd := Slot(s, f, on)]
    {
      files[fd], state[fd], closeOnExec[fd] := f, s, on;
    }

    method FindFree(from: nat) returns (fd: nat)
      requires Valid() && from <= MAX_FILES
      ensures fd == LowestFree(Slots(), from)
      ensures if fd < MAX_FILES then IsLowestFree(Slots(), from, fd) else NoneFree(Slots(), from)
    {
      fd := from;
      while fd < MAX_FILES && state[fd] != Free
        invariant from <= fd <= MAX_FILES && LowestFree(Slots(), from) == LowestFree(Slots(), fd)
        invariant forall i :: from <= i < fd ==> Slots()[i].state != Free
      {
        fd := fd + 1;
      }
    }

    method Reserve(minFd: nat, ghost c: FileCounts) returns (err: int, fd: nat)
      requires Valid()
      modifies files, state
      ensures Local(Slots(), c) == Do(old(Local(Slots(), c)), Op.Reserve(0, minFd))
      ensures err == if minFd >= MAX_FILES then -EINVAL else if NoneFree(old(Slots()), minFd) then -EMFILE else EOK
      ensures err == EOK ==> IsLowestFree(old(Slots()), minFd, fd) && SameBut(old(Slots()), Slots(), fd)
      ensures err == EOK ==> Slots()[fd] == Slot(Reserved, 0, old(closeOnExec[fd]))
      ensures err != EOK ==> Slots() == old(Slots())
    {
      if minFd >= MAX_FILES {
        return -EINVAL, 0;
      }
      fd := FindFree(minFd);
      if fd == MAX_FILES {
        return -EMFILE, 0;
      }
      state[fd] := Reserved;
      files[fd] := 0;
      assert Slots() == old(Slots())[fd := old(Slots())[fd].(state := Reserved, file := 0)];
      return EOK, fd;
    }

    method InstallAt(f: FileRef, fd: nat, c: FileCounts) returns (err: int)
      requires Valid() && f in c.held
      modifies files, state, c`held
      ensures Local(Slots(), c) == Do(old(Local(Slots(), c)), Op.InstallAt(0, f, fd))
      ensures err == if fd >= MAX_FILES then -EINVAL else if old(state[fd]) != Reserved then -EBADF else EOK
      ensures err == EOK ==> Slots()[fd] == Slot(Installed, f, old(closeOnExec[fd]))
      ensures err == EOK ==> SameBut(old(Slots()), Slots(), fd) && c.held == old(c.held) - multiset{f}
      ensures err != EOK ==> Slots() == old(Slots()) && c.held == old(c.held)
    {
      if fd >= MAX_FILES {
        return -EINVAL;
      }
      if state[fd] != Reserved {
        return -EBADF;
      }
      files[fd] := f;
      state[fd] := Installed;
      c.held := c.held - multiset{f};
      assert Slots() == old(Slots())[fd := old(Slots())[fd].(state := Installed, file := f)];
      return EOK;
    }

    method GetFile(fd: nat, c: FileCounts) returns (r: Result<FileRef>)
      requires Valid() && (Open(fd) ==> files[fd] in c.counts && c.counts[files[fd]] != MAX_COUNT)
      modifies c`counts, c`held
      ensures Local(Slots(), c) == Do(old(Local(Slots(), c)), Op.Get(0, fd))
      ensures r == if Open(fd) then Ok(files[fd]) else Err(-EBADF)
      ensures r.Ok? ==> c.held == old(c.held) + multiset{r.value} && OneMore(old(c.counts), c.counts, r.value)
      ensures r.Err? ==> c.held == old(c.held) && c.counts == old(c.counts)
      ensures Slots() == old(Slots()) && c.closed == old(c.closed)
    {
      if fd >= MAX_FILES || state[fd] != Installed {
        return Err(-EBADF);
      }
      c.FileGet(files[fd]);
      c.held := c.held + multiset{files[fd]};
      return Ok(files[fd]);
    }

    method CloseFile(fd: nat, c: FileCounts) returns (err: int)
      requires Valid()
      modifies files, state, closeOnExec, c`counts, c`closed
      ensures Local(Slots(), c) == Do(old(Local(Slots(), c)), Op.Close(0, fd))
      ensures err == if old(Open(fd)) then EOK else -EBADF
      ensures err == EOK ==> Slots()[fd] == EMPTY && SameBut(old(Slots()), Slots(), fd)
      ensures err == EOK ==> OneLess(old(c.counts), old(c.closed), c.counts, c.closed, old(files[fd]))
      ensures err != EOK ==> Slots() == old(Slots()) && c.counts == old(c.counts) && c.closed == old(c.closed)
    {
      if fd >= MAX_FILES || state[fd] != Installed {
        return -EBADF;
      }
      var f := files[fd];
      Set(fd, Free, 0, false);
      var left := c.FilePut(f);
      return EOK;
    }

    method SetCloseOnExec(fd: nat, on: bool, ghost c: FileCounts) returns (err: int)
      requires Valid()
      modifies closeOnExec
      ensures Local(Slots(), c) == Do(old(Local(Slots(), c)), Op.SetCloseOnExec(0, fd, on))
      ensures err == if Open(fd) then EOK else -EBADF
      ensures err == EOK ==> Slots()[fd] == Slot(Installed, files[fd], on) && SameBut(old(Slots()), Slots(), fd)
      ensures err != EOK ==> Slots() == old(Slots())
    {
      if fd >= MAX_FILES || state[fd] != Installed {
        return -EBADF;
      }
      closeOnExec[fd] := on;
      assert Slots() == old(Slots())[fd := old(Slots())[fd].(closeOnExec := on)];
      return EOK;
    }

    /** The copy goes to the lowest free slot. */
    method Dup(src: nat, c: FileCounts) returns (err: int, dst: nat)
      requires Valid() && (Open(src) ==> files[src] in c.counts && c.counts[files[src]] != MAX_COUNT)
      modifies files, state, closeOnExec, c`counts
      ensures Local(Slots(), c) == Do(old(Local(Slots(), c)), Op.Dup(0, src))
      ensures err == if !old(Open(src)) then -EBADF else if NoneFree(old(Slots()), 0) then -EMFILE else EOK
      ensures err == EOK ==> IsLowestFree(old(Slots()), 0, dst) && SameBut(old(Slots()), Slots(), dst)
      ensures err == EOK ==> Slots()[dst] == Slot(Installed, old(files[src]), false)
      ensures err == EOK ==> OneMore(old(c.counts), c.counts, old(files[src]))
      ensures err != EOK ==> Slots() == old(Slots()) && c.counts == old(c.counts)
    {
      if src >= MAX_FILES || state[src] != Installed {
        return -EBADF, 0;
      }
      var f := files[src];
      dst := FindFree(0);
      if dst == MAX_FILES {
        return -EMFILE, 0;
      }
      c.FileGet(f);
      Set(dst, Installed, f, false);
      return EOK, dst;
    }

    /** The copy goes to `dst`; what was open there loses its reference only after the copy has its own. */
    method DupAt(src: nat, dst: nat, on: bool, c: FileCounts) returns (err: int)
      requires Valid() && (Open(src) ==> files[src] in c.counts && c.counts[files[src]] != MAX_COUNT)
      modifies files, state, closeOnExec, c`counts, c`closed
      ensures Local(Slots(), c) == Do(old(Local(Slots(), c)), Op.DupAt(0, src, dst, on))
      ensures err == if old(Open(src)) && dst < MAX_FILES then EOK else -EBADF
      ensures err == EOK ==> Slots()[dst] == Slot(Installed, old(files[src]), on) && SameBut(old(Slots()), Slots(), dst)
      ensures err != EOK || src == dst ==> c.counts == old(c.counts) && c.closed == old(c.closed)
      ensures err != EOK ==> Slots() == old(Slots())
      ensures err == EOK && src != dst
              ==> Recounted(old(c.counts), old(c.closed), c.counts, c.closed, old(Slots())[src], old(Slots())[dst])
    {
      if src >= MAX_FILES || state[src] != Installed {
        return -EBADF;
      }
      DupAtCases(Local(Slots(), c), 0, src, dst, on);
      if src == dst {
        err := SetCloseOnExec(src, on, c);
        return err;
      }
      if dst >= MAX_FILES {
        return -EBADF;
      }
      Replace(src, dst, on, c);
      return EOK;
    }

    method Replace(src: nat, dst: nat, on: bool, c: FileCounts)
      requires Valid() && Open(src) && dst < MAX_FILES && src != dst
      requires files[src] in c.counts && c.counts[files[src]] != MAX_COUNT
      modifies files, state, closeOnExec, c`counts, c`closed
      ensures Local(Slots(), c) == DuppedAt(old(Local(Slots(), c)), 0, src, dst, on)
      ensures Slots() == old(Slots())[dst := Slot(Installed, old(files[src]), on)]
      ensures Recounted(old(c.counts), old(c.closed), c.counts, c.closed, old(Slots())[src], old(Slots())[dst])
    {
      var f, was, replaced := files[src], files[dst], false;
      ghost var s, one := Slots(), Local(Slots(), c);
      DuppedAtIs(one, 0, src, dst, on);
      if state[dst] == Installed {
        replaced := true;
        Set(dst, Free, 0, false);
      }
      c.FileGet(f);
      Set(dst, Installed, f, on);
      assert Slots() == s[dst := Slot(Installed, f, on)];
      if replaced {
        var left := c.FilePut(was);
      }
      assert [s][0 := Slots()] == [Slots()];
    }

    /** All slots are emptied first; the references that were in them are dropped afterwards, in the order of the
        slots. */
    method CloseAll(c: FileCounts)
      requires Valid()
      modifies files, state, closeOnExec, c`counts, c`closed
      ensures Local(Slots(), c) == Do(old(Local(Slots(), c)), Op.CloseAll(0))
      ensures forall fd :: 0 <= fd < MAX_FILES ==> Slots()[fd] == EMPTY
      ensures forall f :: AllPut(old(Slots()), old(c.counts), c.counts, c.closed, f)
    {
      ghost var one := Local(Slots(), c);
      var toPut := EmptyAll();
      PutEach(toPut, c);
      ClosedAllIs(one, toPut, c.counts, c.closed);
      forall f ensures AllPut(one.tables[0], one.counts, c.counts, c.closed, f) {
        FilesCount(one.tables[0], f);
        PutAllCounts(one.counts, one.closed, toPut, f);
      }
      assert [Slots()] == [Unused()];
    }

    static method PutEach(list: seq<FileRef>, c: FileCounts)
      modifies c`counts, c`closed
      ensures (c.counts, c.closed) == PutAll(old(c.counts), old(c.closed), list)
    {
      assert list[0..] == list;
      for i := 0 to |list|
        invariant PutAll(c.counts, c.closed, list[i..]) == PutAll(old(c.counts), old(c.closed), list)
      {
        assert list[i..][1..] == list[i + 1..];
        var left := c.FilePut(list[i]);
      }
    }

    method EmptyAll() returns (toPut: seq<FileRef>)
      requires Valid()
      modifies files, state, closeOnExec
      ensures toPut == Files(old(Slots())) && Slots() == Unused()
    {
      ghost var s := Slots();
      toPut := [];
      assert s[..0] == [];
      for fd := 0 to MAX_FILES
        invariant toPut == Files(s[..fd])
        invariant forall i :: 0 <= i < MAX_FILES ==> Slots()[i] == if i < fd then EMPTY else s[i]
      {
        FilesNext(s, fd);
        if state[fd] == Installed {
          toPut := toPut + [files[fd]];
        }
        Set(fd, Free, 0, false);
      }
      assert s[..MAX_FILES] == s;
    }

    /** A copy of a table: every open file gets one more reference; reserved slots are copied as they are. */
    static method CreateFrom(src: FDTable, c: FileCounts) returns (dst: FDTable)
      requires src.Valid() && forall fd :: 0 <= fd < MAX_FILES && src.Open(fd) ==> src.files[fd] in c.counts
      requires forall f :: f in c.counts ==> c.counts[f] <= MAX_COUNT - MAX_FILES
      modifies c`counts
      ensures fresh(dst) && dst.Valid() && dst.Slots() == src.Slots() && src.Slots() == old(src.Slots())
      ensures System([src.Slots(), dst.Slots()], c.counts, c.held, c.closed) == Do(old(Local(src.Slots(), c)),
              CopyOf(0))
      ensures c.counts.Keys == old(c.counts).Keys
      ensures forall f :: f in c.counts ==> c.counts[f] == old(c.counts)[f] + Count(src.Slots(), f)
    {
      dst := new FDTable();
      ghost var s, counts := src.Slots(), c.counts;
      assert s[..0] == [];
      assert forall fd :: 0 <= fd < MAX_FILES && s[fd].state == Installed ==> src.Open(fd);
      for fd := 0 to MAX_FILES
        invariant dst.Valid() && src.Slots() == s && CopiedTo(s, dst.Slots(), counts, c.counts, fd)
      {
        ghost var d, now := dst.Slots(), c.counts;
        CopySlot(src, dst, fd, c);
        CopyNext(s, d, counts, now, fd);
      }
      CopyDone(s, dst.Slots(), counts, c.counts);
      CopyCounts(s, counts, c.counts);
      CopyIsDone(s, counts, c.held, c.closed);
    }

    static method CopySlot(src: FDTable, dst: FDTable, fd: nat, c: FileCounts)
      requires src.Valid() && dst.Valid() && fd < MAX_FILES
      requires dst.files != src.files && dst.state != src.state && dst.closeOnExec != src.closeOnExec
      requires src.Open(fd) ==> src.files[fd] in c.counts && c.counts[src.files[fd]] != MAX_COUNT
      modifies dst.files, dst.state, dst.closeOnExec, c`counts
      ensures dst.Slots() == old(dst.Slots())[fd := src.Slots()[fd]]
      ensures c.counts == if src.Open(fd) then Got(old(c.counts), src.files[fd]) else old(c.counts)
    {
      if src.state[fd] == Installed {
        c.FileGet(src.files[fd]);
      }
      dst.Set(fd, src.state[fd], src.files[fd], src.closeOnExec[fd]);
    }
  }

  /** The counts and closed files after dropping a list of references. */
  function PutAll(counts: map<FileRef, nat>, closed: seq<FileRef>, list: seq<FileRef>): (map<FileRef, nat>,
      seq<FileRef>)
    decreases |list|
  {
    if list == [] then (counts, closed) else PutAll(Put(counts, list[0]), ClosedBy(counts, closed, list[0]), list[1..])
  }

  /** A file has lost as many references as there were slots open to it; if those were all it had, it is closed. */
  ghost predicate AllPut(slots: seq<Slot>, was: map<FileRef, nat>, counts: map<FileRef, nat>, closed: seq<FileRef>,
                         f: FileRef)
  {
    f in was && was[f] >= Count(slots, f)
    ==> if Count(slots, f) == 0 then f in counts && counts[f] == was[f]
        else if Count(slots, f) < was[f] then f in counts && counts[f] == was[f] - Count(slots, f)
        else f !in counts && f in closed
  }

  lemma {:induction false} PutAllCounts(counts: map<FileRef, nat>, closed: seq<FileRef>, list: seq<FileRef>, f: FileRef)
    ensures var (now, done) := PutAll(counts, closed, list);
            && (f in closed ==> f in done) && (f !in counts ==> f !in now)
            && (f in counts && counts[f] >= Occurs(list, f)
                ==> if Occurs(list, f) == 0 then f in now && now[f] == counts[f]
                    else if Occurs(list, f) < counts[f] then f in now && now[f] == counts[f] - Occurs(list, f)
                    else f !in now && f in done)
    decreases |list|
  {
    if list != [] {
      assert (closed + [list[0]])[|closed|] == list[0];
      PutAllCounts(Put(counts, list[0]), ClosedBy(counts, closed, list[0]), list[1..], f);
    }
  }

  lemma {:induction false} PutAllIs(s: System, held: multiset<FileRef>, list: seq<FileRef>)
    requires s.held == held + multiset(list)
    ensures var (counts, closed) := PutAll(s.counts, s.closed, list);
            DroppedAll(s, list) == System(s.tables, counts, held, closed)
    decreases |list|
  {
    if list != [] {
      assert list == [list[0]] + list[1..];
      PutAllIs(Dropped(s, list[0]), held, list[1..]);
    }
  }

  /** The first `fd` slots have been copied, and their files counted. */
  ghost predicate CopiedTo(s: seq<Slot>, d: seq<Slot>, counts: map<FileRef, nat>, now: map<FileRef, nat>, fd: nat) {
    && |s| == |d| == MAX_FILES && fd <= MAX_FILES && (forall i :: 0 <= i < fd ==> d[i] == s[i])
    && now == GotAll(counts, Files(s[..fd])) && forall f :: f in counts ==> f in now && now[f] <= counts[f] + fd
  }

  lemma CopyNext(s: seq<Slot>, d: seq<Slot>, counts: map<FileRef, nat>, now: map<FileRef, nat>, fd: nat)
    requires CopiedTo(s, d, counts, now, fd) && fd < MAX_FILES
    ensures CopiedTo(s, d[fd := s[fd]], counts, if s[fd].state == Installed then Got(now, s[fd].file) else now, fd + 1)
  {
    FilesNext(s, fd);
    GotOneMore(counts, Files(s[..fd]), s[fd].file);
    assert Files(s[..fd]) + [] == Files(s[..fd]);
  }

  lemma CopyIsDone(s: seq<Slot>, counts: map<FileRef, nat>, held: multiset<FileRef>, closed: seq<FileRef>)
    requires |s| == MAX_FILES
    ensures Do(System([s], counts, held, closed), CopyOf(0)) == System([s, s], GotAll(counts, Files(s)), held, closed)
  {
    assert [s] + [s] == [s, s];
  }

  lemma CopyCounts(s: seq<Slot>, counts: map<FileRef, nat>, now: map<FileRef, nat>)
    requires now == GotAll(counts, Files(s))
    requires forall fd :: 0 <= fd < |s| && s[fd].state == Installed ==> s[fd].file in counts
    ensures now.Keys == counts.Keys && forall f :: f in now ==> now[f] == counts[f] + Count(s, f)
  {
    forall f | f in Files(s) ensures f in counts { FilesAreOpen(s, f); }
    forall f ensures (f in now <==> f in counts) && (f in now ==> now[f] == counts[f] + Count(s, f)) {
      GotAllCounts(counts, Files(s), f);
      FilesCount(s, f);
    }
  }

  lemma {:induction false} FilesAreOpen(s: seq<Slot>, f: FileRef)
    requires f in Files(s)
    ensures exists fd :: 0 <= fd < |s| && RefersTo(s[fd], f)
  {
    if RefersTo(s[0], f) {
    } else {
      assert Files(s) == (if s[0].state == Installed then [s[0].file] else []) + Files(s[1..]);
      FilesAreOpen(s[1..], f);
      var fd :| 0 <= fd < |s[1..]| && RefersTo(s[1..][fd], f);
      assert RefersTo(s[fd + 1], f);
    }
  }

  lemma CopyDone(s: seq<Slot>, d: seq<Slot>, counts: map<FileRef, nat>, now: map<FileRef, nat>)
    requires CopiedTo(s, d, counts, now, MAX_FILES)
    ensures d == s && now == GotAll(counts, Files(s))
  {
    assert s[..MAX_FILES] == s;
  }

  lemma ClosedAllIs(one: System, list: seq<FileRef>, counts: map<FileRef, nat>, closed: seq<FileRef>)
    requires |one.tables| == 1 && |one.tables[0]| == MAX_FILES && list == Files(one.tables[0])
    requires (counts, closed) == PutAll(one.counts, one.closed, list)
    ensures Do(one, Op.CloseAll(0)) == System([Unused()], counts, one.held, closed)
  {
    PutAllIs(Stripped(one, 0), one.held, list);
    assert one.tables[0 := Unused()] == [Unused()];
  }

  lemma {:induction false} FilesNext(s: seq<Slot>, i: nat)
    requires i < |s|
    ensures Files(s[..i + 1]) == Files(s[..i]) + if s[i].state == Installed then [s[i].file] else []
  {
    if i == 0 {
      assert s[..1] == [s[0]] && s[..1][1..] == [];
    } else {
      assert s[..i + 1][1..] == s[1..][..i] && s[..i][1..] == s[1..][..i - 1];
      FilesNext(s[1..], i - 1);
    }
  }

  lemma {:induction false} GotOneMore(counts: map<FileRef, nat>, list: seq<FileRef>, f: FileRef)
    ensures GotAll(counts, list + [f]) == Got(GotAll(counts, list), f)
    decreases |list|
  {
    if list == [] {
      assert list + [f] == [f] && [f][1..] == [];
    } else {
      assert (list + [f])[1..] == list[1..] + [f];
      GotOneMore(Got(counts, list[0]), list[1..], f);
    }
  }
}
