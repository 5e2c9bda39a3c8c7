/** Reference counts of open files against everything that refers to them: slots of tables and references handed out. */
module FileReferences {

  const MAX_FILES := 64
  const MAX_COUNT := 0xFFFF_FFFF

  type FileRef = nat

  datatype SlotState = Free | Reserved | Installed

  datatype Slot = Slot(state: SlotState, file: FileRef, closeOnExec: bool)

  const EMPTY := Slot(Free, 0, false)

  /** All tables, the count of every live file, the references handed out, and the files closed so far. */
  datatype System = System(tables: seq<seq<Slot>>, counts: map<FileRef, nat>, held: multiset<FileRef>,
                           closed: seq<FileRef>)

  // ---- what refers to a file -------------------------------------------------------

  predicate RefersTo(s: Slot, f: FileRef) { s.state == Installed && s.file == f }

  function One(b: bool): nat { if b then 1 else 0 }

  function Count(slots: seq<Slot>, f: FileRef): nat {
    if slots == [] then 0 else One(RefersTo(slots[0], f)) + Count(slots[1..], f)
  }

  function CountAll(tables: seq<seq<Slot>>, f: FileRef): nat {
    if tables == [] then 0 else Count(tables[0], f) + CountAll(tables[1..], f)
  }

  lemma {:induction false} SlotChanges(slots: seq<Slot>, i: nat, s: Slot, f: FileRef)
    requires i < |slots|
    ensures Count(slots[i := s], f) + One(RefersTo(slots[i], f)) == Count(slots, f) + One(RefersTo(s, f))
  {
    if i == 0 {
      assert slots[i := s][1..] == slots[1..];
    } else {
      assert slots[i := s][1..] == slots[1..][i - 1 := s];
      SlotChanges(slots[1..], i - 1, s, f);
    }
  }

  lemma {:induction false} TableChanges(tables: seq<seq<Slot>>, t: nat, slots: seq<Slot>, f: FileRef)
    requires t < |tables|
    ensures CountAll(tables[t := slots], f) + Count(tables[t], f) == CountAll(tables, f) + Count(slots, f)
  {
    if t == 0 {
      assert tables[t := slots][1..] == tables[1..];
    } else {
      assert tables[t := slots][1..] == tables[1..][t - 1 := slots];
      TableChanges(tables[1..], t - 1, slots, f);
    }
  }

  lemma {:induction false} TableAdded(tables: seq<seq<Slot>>, slots: seq<Slot>, f: FileRef)
    ensures CountAll(tables + [slots], f) == CountAll(tables, f) + Count(slots, f)
  {
    if tables == [] {
      assert tables + [slots] == [slots];
    } else {
      assert (tables + [slots])[1..] == tables[1..] + [slots];
      TableAdded(tables[1..], slots, f);
    }
  }

  lemma {:induction false} OpenIsCounted(tables: seq<seq<Slot>>, t: nat, fd: nat)
    requires t < |tables| && IsOpen(tables[t], fd)
    ensures CountAll(tables, tables[t][fd].file) > 0
  {
    if t == 0 { SlotIsCounted(tables[0], fd); } else { OpenIsCounted(tables[1..], t - 1, fd); }
  }

  lemma {:induction false} SlotIsCounted(slots: seq<Slot>, fd: nat)
    requires IsOpen(slots, fd)
    ensures Count(slots, slots[fd].file) > 0
  {
    if fd > 0 { SlotIsCounted(slots[1..], fd - 1); }
  }

  predicate IsOpen(slots: seq<Slot>, fd: nat) {
    fd < |slots| && slots[fd].state == Installed
  }

  /** How many references there are to a file: in slots of tables, and handed out. */
  function References(s: System, f: FileRef): nat {
    CountAll(s.tables, f) + s.held[f]
  }

  ghost predicate FileCounted(s: System, f: FileRef) {
    if f in s.counts then s.counts[f] == References(s, f) > 0 else References(s, f) == 0
  }

  /** The count of a live file is the number of references to it; a file nobody refers to is gone, and was closed
      once. */
  ghost predicate Counted(s: System) {
    && (forall f :: FileCounted(s, f))
    && (forall f :: f in s.closed ==> f !in s.counts)
    && (forall i, j :: 0 <= i < j < |s.closed| ==> s.closed[i] != s.closed[j])
    && forall t :: 0 <= t < |s.tables| ==> |s.tables[t]| == MAX_FILES
  }

  // ---- counting up and down --------------------------------------------------------

  function Got(counts: map<FileRef, nat>, f: FileRef): map<FileRef, nat> {
    if f in counts then counts[f := counts[f] + 1] else counts
  }

  /** A file that is gone, or whose count is zero, is left alone. */
  function Put(counts: map<FileRef, nat>, f: FileRef): map<FileRef, nat> {
    if f !in counts || counts[f] == 0 then counts else if counts[f] == 1 then counts - {f}
        else counts[f := counts[f] - 1]
  }

  function ClosedBy(counts: map<FileRef, nat>, closed: seq<FileRef>, f: FileRef): seq<FileRef> {
    if f in counts && counts[f] == 1 then closed + [f] else closed
  }

  /** A reference dropped: the last one closes the file. */
  function Dropped(s: System, f: FileRef): System {
    s.(held := s.held - multiset{f}, counts := Put(s.counts, f), closed := ClosedBy(s.counts, s.closed, f))
  }

  lemma DropKeeps(s: System, f: FileRef)
    requires Counted(s) && f in s.held
    ensures f in s.counts && s.counts[f] > 0 && Counted(Dropped(s, f))
  {
    assert FileCounted(s, f);
    var r := Dropped(s, f);
    forall g ensures FileCounted(r, g) { assert FileCounted(s, g); }
  }

  /** One more reference handed out. */
  function Handed(s: System, f: FileRef): System {
    s.(held := s.held + multiset{f}, counts := Got(s.counts, f))
  }

  lemma HandKeeps(s: System, f: FileRef)
    requires Counted(s) && f in s.counts
    ensures Counted(Handed(s, f))
  {
    forall g ensures FileCounted(Handed(s, f), g) { assert FileCounted(s, g); }
  }

  function Created(s: System, f: FileRef): System {
    s.(held := s.held + multiset{f}, counts := s.counts[f := 1])
  }

  lemma CreateKeeps(s: System, f: FileRef)
    requires Counted(s) && f !in s.counts && f !in s.closed
    ensures Counted(Created(s, f))
  {
    forall g ensures FileCounted(Created(s, f), g) { assert FileCounted(s, g); }
  }

  // ---- what changes, slot by slot and count by count --------------------------------

  /** All slots but one are as they were. */
  ghost predicate SameBut(was: seq<Slot>, slots: seq<Slot>, fd: nat) {
    |slots| == |was| && forall i :: 0 <= i < |was| && i != fd ==> slots[i] == was[i]
  }

  /** A slot is the lowest free one from `fd` on. */
  ghost predicate IsLowestFree(slots: seq<Slot>, fd: nat, r: nat) {
    fd <= r < |slots| && slots[r].state == Free && forall i :: fd <= i < r ==> slots[i].state != Free
  }

  ghost predicate NoneFree(slots: seq<Slot>, fd: nat) {
    forall i :: fd <= i < |slots| ==> slots[i].state != Free
  }

  /** The count of every file but one is as it was. */
  ghost predicate OthersCount(was: map<FileRef, nat>, counts: map<FileRef, nat>, f: FileRef) {
    forall g :: g != f ==> (g in counts <==> g in was) && (g in was ==> counts[g] == was[g])
  }

  /** A file is referred to once more. */
  ghost predicate OneMore(was: map<FileRef, nat>, counts: map<FileRef, nat>, f: FileRef) {
    f in was && f in counts && counts[f] == was[f] + 1 && OthersCount(was, counts, f)
  }

  /** A file is referred to once less; with its last reference it goes, and is closed. */
  ghost predicate OneLess(was: map<FileRef, nat>, wasClosed: seq<FileRef>, counts: map<FileRef, nat>,
                          closed: seq<FileRef>, f: FileRef)
  {
    && OthersCount(was, counts, f)
    && (f in was && was[f] > 1 ==> f in counts && counts[f] == was[f] - 1 && closed == wasClosed)
    && (f in was && was[f] == 1 ==> f !in counts && closed == wasClosed + [f])
    && (f !in was || was[f] == 0 ==> counts == was && closed == wasClosed)
  }

  // ---- moving references between slots and hands -----------------------------------

  function WithSlot(s: System, t: nat, fd: nat, slot: Slot): System
    requires t < |s.tables| && fd < |s.tables[t]|
  {
    s.(tables := s.tables[t := s.tables[t][fd := slot]])
  }

  lemma SlotCounts(s: System, t: nat, fd: nat, slot: Slot, f: FileRef)
    requires t < |s.tables| && fd < |s.tables[t]|
    ensures CountAll(WithSlot(s, t, fd, slot).tables, f) + One(RefersTo(s.tables[t][fd], f))
            == CountAll(s.tables, f) + One(RefersTo(slot, f))
  {
    SlotChanges(s.tables[t], fd, slot, f);
    TableChanges(s.tables, t, s.tables[t][fd := slot], f);
  }

  // ---- the operations --------------------------------------------------------------

  /** The lowest free slot from `fd` on; the end of the table when there is none. */
  function LowestFree(slots: seq<Slot>, fd: nat): (r: nat)
    requires fd <= |slots|
    ensures fd <= r <= |slots|
    decreases |slots| - fd
  {
    if fd == |slots| || slots[fd].state == Free then fd else LowestFree(slots, fd + 1)
  }

  lemma LowestFreeIs(slots: seq<Slot>, fd: nat)
    requires fd <= |slots|
    ensures var r := LowestFree(slots, fd);
            (r < |slots| ==> slots[r].state == Free) && forall i :: fd <= i < r ==> slots[i].state != Free
    decreases |slots| - fd
  {
    if fd < |slots| && slots[fd].state != Free { LowestFreeIs(slots, fd + 1); }
  }

  datatype Op =
    | Create(f: FileRef)
    | Release(f: FileRef)
    | NewTable
    | Reserve(t: nat, minFd: nat)
    | InstallAt(t: nat, f: FileRef, fd: nat)
    | Get(t: nat, fd: nat)
    | Close(t: nat, fd: nat)
    | SetCloseOnExec(t: nat, fd: nat, on: bool)
    | Dup(t: nat, src: nat)
    | DupAt(t: nat, src: nat, dst: nat, on: bool)
    | CloseAll(t: nat)
    | CopyOf(t: nat)

  /** Tables exist, and a reference is given up only by whoever holds it. */
  predicate Can(s: System, op: Op) {
    match op
    case Create(f) => f !in s.counts && f !in s.closed
    case Release(f) => f in s.held
    case NewTable => true
    case InstallAt(t, f, _) => t < |s.tables| && |s.tables[t]| == MAX_FILES && f in s.held
    case _ => op.t < |s.tables| && |s.tables[op.t]| == MAX_FILES
  }

  /** A slot set to a file that is referred to once more. */
  function Duplicated(s: System, t: nat, f: FileRef, dst: nat, on: bool): System
    requires t < |s.tables| && dst < |s.tables[t]|
  {
    WithSlot(s, t, dst, Slot(Installed, f, on)).(counts := Got(s.counts, f))
  }

  lemma DuplicateKeeps(s: System, t: nat, f: FileRef, dst: nat, on: bool)
    requires Counted(s) && t < |s.tables| && dst < MAX_FILES && f in s.counts && s.tables[t][dst].state != Installed
    ensures Counted(Duplicated(s, t, f, dst, on))
  {
    forall g ensures FileCounted(Duplicated(s, t, f, dst, on), g) {
      assert FileCounted(s, g);
      SlotCounts(s, t, dst, Slot(Installed, f, on), g);
    }
  }

  /** A slot emptied, and the reference that was in it dropped. */
  function Emptied(s: System, t: nat, fd: nat): System
    requires t < |s.tables| && IsOpen(s.tables[t], fd)
  {
    var f := s.tables[t][fd].file;
    WithSlot(s, t, fd, EMPTY).(counts := Put(s.counts, f), closed := ClosedBy(s.counts, s.closed, f))
  }

  lemma OpenCounts(s: System, t: nat, fd: nat)
    requires Counted(s) && t < |s.tables| && IsOpen(s.tables[t], fd)
    ensures s.tables[t][fd].file in s.counts && s.counts[s.tables[t][fd].file] > 0
  {
    OpenIsCounted(s.tables, t, fd);
    assert FileCounted(s, s.tables[t][fd].file);
  }

  lemma EmptyKeeps(s: System, t: nat, fd: nat)
    requires Counted(s) && t < |s.tables| && IsOpen(s.tables[t], fd)
    ensures s.tables[t][fd].file in s.counts && s.counts[s.tables[t][fd].file] > 0 && Counted(Emptied(s, t, fd))
  {
    OpenCounts(s, t, fd);
    forall g ensures FileCounted(Emptied(s, t, fd), g) {
      assert FileCounted(s, g);
      SlotCounts(s, t, fd, EMPTY, g);
    }
  }

  /** A held reference moved into a slot that has none. */
  lemma InstallKeeps(s: System, t: nat, f: FileRef, fd: nat, on: bool)
    requires Counted(s) && t < |s.tables| && fd < MAX_FILES && f in s.held && s.tables[t][fd].state != Installed
    ensures Counted(WithSlot(s, t, fd, Slot(Installed, f, on)).(held := s.held - multiset{f}))
  {
    var r := WithSlot(s, t, fd, Slot(Installed, f, on)).(held := s.held - multiset{f});
    forall g ensures FileCounted(r, g) {
      assert FileCounted(s, g);
      SlotCounts(s, t, fd, Slot(Installed, f, on), g);
    }
  }

  /** A slot changed in a way that refers to the same file, or to none as before. */
  lemma RetouchKeeps(s: System, t: nat, fd: nat, slot: Slot)
    requires Counted(s) && t < |s.tables| && fd < MAX_FILES
             && forall g :: RefersTo(slot, g) == RefersTo(s.tables[t][fd], g)
    ensures Counted(WithSlot(s, t, fd, slot))
  {
    forall g ensures FileCounted(WithSlot(s, t, fd, slot), g) {
      assert FileCounted(s, g);
      SlotCounts(s, t, fd, slot, g);
    }
  }

  // ---- whole tables ----------------------------------------------------------------

  /** The files of the installed slots, in order. */
  function Files(slots: seq<Slot>): seq<FileRef> {
    if slots == [] then [] else (if slots[0].state == Installed then [slots[0].file] else []) + Files(slots[1..])
  }

  function Occurs(list: seq<FileRef>, f: FileRef): nat {
    if list == [] then 0 else One(list[0] == f) + Occurs(list[1..], f)
  }

  lemma {:induction false} FilesCount(slots: seq<Slot>, f: FileRef)
    ensures Occurs(Files(slots), f) == Count(slots, f)
  {
    if slots != [] {
      FilesCount(slots[1..], f);
      var rest := Files(slots[1..]);
      assert Files(slots) == if slots[0].state == Installed then [slots[0].file] + rest else rest;
      assert ([slots[0].file] + rest)[1..] == rest;
    }
  }

  function Unused(): (slots: seq<Slot>)
    ensures |slots| == MAX_FILES && forall i :: 0 <= i < MAX_FILES ==> slots[i] == EMPTY
  {
    seq(MAX_FILES, _ => EMPTY)
  }

  lemma {:induction false} NoneOpen(slots: seq<Slot>, f: FileRef)
    requires forall i :: 0 <= i < |slots| ==> slots[i].state != Installed
    ensures Count(slots, f) == 0
  {
    if slots != [] { NoneOpen(slots[1..], f); }
  }

  function GotAll(counts: map<FileRef, nat>, list: seq<FileRef>): map<FileRef, nat> {
    if list == [] then counts
    else GotAll(Got(counts, list[0]), list[1..])
  }

  lemma {:induction false} GotAllCounts(counts: map<FileRef, nat>, list: seq<FileRef>, f: FileRef)
    requires forall g :: g in list ==> g in counts
    ensures f in GotAll(counts, list) <==> f in counts
    ensures f in counts ==> GotAll(counts, list)[f] == counts[f] + Occurs(list, f)
    decreases |list|
  {
    if list != [] {
      assert list[0] in list;
      GotAllCounts(Got(counts, list[0]), list[1..], f);
    }
  }

  /** The references on the list dropped, one after the other. */
  function DroppedAll(s: System, list: seq<FileRef>): System
    decreases |list|
  {
    if list == [] then s
    else DroppedAll(Dropped(s, list[0]), list[1..])
  }

  lemma {:induction false} DropAllKeeps(s: System, list: seq<FileRef>)
    requires Counted(s) && forall f :: Occurs(list, f) <= s.held[f]
    ensures Counted(DroppedAll(s, list)) && DroppedAll(s, list).tables == s.tables
    ensures forall f :: DroppedAll(s, list).held[f] == s.held[f] - Occurs(list, f)
    decreases |list|
  {
    if list != [] {
      var f := list[0];
      assert Occurs(list, f) > 0;
      DropKeeps(s, f);
      var r := Dropped(s, f);
      forall g ensures Occurs(list[1..], g) <= r.held[g] {
        assert Occurs(list, g) == One(f == g) + Occurs(list[1..], g);
      }
      DropAllKeeps(r, list[1..]);
      forall g ensures DroppedAll(s, list).held[g] == s.held[g] - Occurs(list, g) {
        assert r.held[g] == s.held[g] - One(f == g);
      }
    }
  }

  /** The reference in a slot handed to whoever is about to drop it. */
  function Unhooked(s: System, t: nat, fd: nat): System
    requires t < |s.tables| && IsOpen(s.tables[t], fd)
  {
    WithSlot(s, t, fd, EMPTY).(held := s.held + multiset{s.tables[t][fd].file})
  }

  lemma UnhookKeeps(s: System, t: nat, fd: nat)
    requires Counted(s) && t < |s.tables| && IsOpen(s.tables[t], fd)
    ensures Counted(Unhooked(s, t, fd))
  {
    forall g ensures FileCounted(Unhooked(s, t, fd), g) {
      assert FileCounted(s, g);
      SlotCounts(s, t, fd, EMPTY, g);
    }
  }

  /** All references of a table handed out, and its slots emptied. */
  function Stripped(s: System, t: nat): System
    requires t < |s.tables|
  {
    s.(tables := s.tables[t := Unused()], held := s.held + multiset(Files(s.tables[t])))
  }

  lemma {:induction false} OccursIs(list: seq<FileRef>, f: FileRef)
    ensures multiset(list)[f] == Occurs(list, f)
  {
    if list != [] {
      OccursIs(list[1..], f);
      assert list == [list[0]] + list[1..];
    }
  }

  lemma StripKeeps(s: System, t: nat)
    requires Counted(s) && t < |s.tables|
    ensures Counted(Stripped(s, t)) && forall f :: Occurs(Files(s.tables[t]), f) <= Stripped(s, t).held[f]
  {
    var r := Stripped(s, t);
    forall g ensures FileCounted(r, g) && Occurs(Files(s.tables[t]), g) <= r.held[g] {
      assert FileCounted(s, g);
      TableChanges(s.tables, t, Unused(), g);
      NoneOpen(Unused(), g);
      FilesCount(s.tables[t], g);
      OccursIs(Files(s.tables[t]), g);
    }
  }

  function Copied(s: System, t: nat): System
    requires t < |s.tables|
  {
    s.(tables := s.tables + [s.tables[t]], counts := GotAll(s.counts, Files(s.tables[t])))
  }

  lemma {:induction false} FilesOpen(slots: seq<Slot>, f: FileRef)
    requires f in Files(slots)
    ensures Count(slots, f) > 0
  {
    if slots[0].state == Installed && slots[0].file == f {
    } else {
      assert Files(slots) == (if slots[0].state == Installed then [slots[0].file] else []) + Files(slots[1..]);
      FilesOpen(slots[1..], f);
    }
  }

  lemma {:induction false} CountedIn(tables: seq<seq<Slot>>, t: nat, f: FileRef)
    requires t < |tables|
    ensures Count(tables[t], f) <= CountAll(tables, f)
  {
    if t > 0 { CountedIn(tables[1..], t - 1, f); }
  }

  lemma CopyKeeps(s: System, t: nat)
    requires Counted(s) && t < |s.tables|
    ensures Counted(Copied(s, t))
  {
    var list := Files(s.tables[t]);
    forall g | g in list ensures g in s.counts {
      FilesOpen(s.tables[t], g);
      CountedIn(s.tables, t, g);
      assert FileCounted(s, g);
    }
    forall g ensures FileCounted(Copied(s, t), g) && (g in Copied(s, t).counts <==> g in s.counts) {
      assert FileCounted(s, g);
      GotAllCounts(s.counts, list, g);
      TableAdded(s.tables, s.tables[t], g);
      FilesCount(s.tables[t], g);
      CountedIn(s.tables, t, g);
    }
  }

  // ---- every operation -------------------------------------------------------------

  /** The slot `dst` made to refer to what is open at `src`; what it referred to before is dropped at the end. */
  function DuppedAt(s: System, t: nat, src: nat, dst: nat, on: bool): System
    requires t < |s.tables| && |s.tables[t]| == MAX_FILES && IsOpen(s.tables[t], src) && dst < MAX_FILES
  {
    var f := s.tables[t][src].file;
    if IsOpen(s.tables[t], dst) then Dropped(Duplicated(Unhooked(s, t, dst), t, f, dst, on), s.tables[t][dst].file)
    else Duplicated(s, t, f, dst, on)
  }

  function Do(s: System, op: Op): System
    requires Can(s, op)
  {
    match op
    case Create(f) => Created(s, f)
    case Release(f) => Dropped(s, f)
    case NewTable => s.(tables := s.tables + [Unused()])
    case Reserve(t, minFd) =>
      if minFd < MAX_FILES && LowestFree(s.tables[t], minFd) < MAX_FILES then
        var fd := LowestFree(s.tables[t], minFd);
        WithSlot(s, t, fd, s.tables[t][fd].(state := Reserved, file := 0))
      else s
    case InstallAt(t, f, fd) =>
      if fd < MAX_FILES && s.tables[t][fd].state == Reserved then
        WithSlot(s, t, fd, s.tables[t][fd].(state := Installed, file := f)).(held := s.held - multiset{f})
      else s
    case Get(t, fd) => if IsOpen(s.tables[t], fd) then Handed(s, s.tables[t][fd].file) else s
    case Close(t, fd) => if IsOpen(s.tables[t], fd) then Emptied(s, t, fd) else s
    case SetCloseOnExec(t, fd, on) =>
      if IsOpen(s.tables[t], fd) then WithSlot(s, t, fd, s.tables[t][fd].(closeOnExec := on)) else s
    case Dup(t, src) =>
      if IsOpen(s.tables[t], src) && LowestFree(s.tables[t], 0) < MAX_FILES then
        Duplicated(s, t, s.tables[t][src].file, LowestFree(s.tables[t], 0), false)
      else s
    case DupAt(t, src, dst, on) =>
      if !IsOpen(s.tables[t], src) || dst >= MAX_FILES then s
      else if src == dst then WithSlot(s, t, src, s.tables[t][src].(closeOnExec := on))
      else DuppedAt(s, t, src, dst, on)
    case CloseAll(t) => DroppedAll(Stripped(s, t), Files(s.tables[t]))
    case CopyOf(t) => Copied(s, t)
  }

  /** A new file is held once by whoever made it. */
  lemma NewFileIsHeld(s: System, f: FileRef)
    requires Counted(s) && Can(s, Create(f))
    ensures var r := Do(s, Create(f));
            && f in r.counts && r.counts[f] == 1 == References(r, f) && r.held[f] == 1
            && r.tables == s.tables && r.closed == s.closed && OthersCount(s.counts, r.counts, f)
  {
    assert FileCounted(s, f);
  }

  /** Giving a reference up takes one reference away, and closes the file if it was the last. */
  lemma ReleaseIsCounted(s: System, f: FileRef)
    requires Counted(s) && Can(s, Release(f))
    ensures var r := Do(s, Release(f));
            && r.tables == s.tables && r.held[f] == s.held[f] - 1 && References(r, f) == References(s, f) - 1
            && OthersCount(s.counts, r.counts, f)
            && (f in r.counts <==> References(r, f) > 0) && (f in r.closed <==> References(r, f) == 0)
  {
    assert FileCounted(s, f);
    DropKeeps(s, f);
    assert FileCounted(Dropped(s, f), f);
    assert References(s, f) == 1 ==> (s.closed + [f])[|s.closed|] == f;
  }

  /** Every operation keeps the counts. */
  lemma DoKeeps(s: System, op: Op)
    requires Counted(s) && Can(s, op)
    ensures Counted(Do(s, op))
  {
    match op
    case Create(f) => CreateKeeps(s, f);
    case Release(f) => DropKeeps(s, f);
    case NewTable => NewTableKeeps(s);
    case Reserve(t, minFd) =>
      if minFd < MAX_FILES && LowestFree(s.tables[t], minFd) < MAX_FILES {
        var fd := LowestFree(s.tables[t], minFd);
        LowestFreeIs(s.tables[t], minFd);
        RetouchKeeps(s, t, fd, s.tables[t][fd].(state := Reserved, file := 0));
      }
    case InstallAt(t, f, fd) =>
      if fd < MAX_FILES && s.tables[t][fd].state == Reserved { InstallKeeps(s, t, f, fd, s.tables[t][fd].closeOnExec); }
    case Get(t, fd) => if IsOpen(s.tables[t], fd) { OpenCounts(s, t, fd); HandKeeps(s, s.tables[t][fd].file); }
    case Close(t, fd) => if IsOpen(s.tables[t], fd) { EmptyKeeps(s, t, fd); }
    case SetCloseOnExec(t, fd, on) =>
      if IsOpen(s.tables[t], fd) { RetouchKeeps(s, t, fd, s.tables[t][fd].(closeOnExec := on)); }
    case Dup(t, src) =>
      if IsOpen(s.tables[t], src) && LowestFree(s.tables[t], 0) < MAX_FILES {
        OpenCounts(s, t, src);
        LowestFreeIs(s.tables[t], 0);
        DuplicateKeeps(s, t, s.tables[t][src].file, LowestFree(s.tables[t], 0), false);
      }
    case DupAt(t, src, dst, on) => DupAtKeeps(s, t, src, dst, on);
    case CloseAll(t) => StripKeeps(s, t); DropAllKeeps(Stripped(s, t), Files(s.tables[t]));
    case CopyOf(t) => CopyKeeps(s, t);
  }

  lemma NewTableKeeps(s: System)
    requires Counted(s)
    ensures Counted(s.(tables := s.tables + [Unused()]))
  {
    forall g ensures FileCounted(s.(tables := s.tables + [Unused()]), g) {
      assert FileCounted(s, g);
      TableAdded(s.tables, Unused(), g);
      NoneOpen(Unused(), g);
    }
  }

  lemma DupAtKeeps(s: System, t: nat, src: nat, dst: nat, on: bool)
    requires Counted(s) && Can(s, DupAt(t, src, dst, on))
    ensures Counted(Do(s, DupAt(t, src, dst, on)))
  {
    if IsOpen(s.tables[t], src) && dst < MAX_FILES {
      if src == dst {
        RetouchKeeps(s, t, src, s.tables[t][src].(closeOnExec := on));
      } else {
        OpenCounts(s, t, src);
        var f := s.tables[t][src].file;
        if IsOpen(s.tables[t], dst) {
          UnhookKeeps(s, t, dst);
          DuplicateKeeps(Unhooked(s, t, dst), t, f, dst, on);
          DropKeeps(Duplicated(Unhooked(s, t, dst), t, f, dst, on), s.tables[t][dst].file);
        } else {
          DuplicateKeeps(s, t, f, dst, on);
        }
      }
    }
  }

  ghost predicate OpAt(states: seq<System>, ops: seq<Op>, i: nat) {
    i < |ops| && i + 1 < |states| && Can(states[i], ops[i]) && states[i + 1] == Do(states[i], ops[i])
  }

  /** A run from a system without tables and files. */
  ghost predicate Run(states: seq<System>, ops: seq<Op>) {
    |states| == |ops| + 1 && states[0] == System([], map[], multiset{}, [])
        && forall i :: 0 <= i < |ops| ==> OpAt(states, ops, i)
  }

  /** In every state of every run a file is alive just while somebody refers to it, counted exactly, and closed once. */
  lemma {:induction false} CountsAreReferences(states: seq<System>, ops: seq<Op>, i: nat)
    requires Run(states, ops) && i < |states|
    ensures Counted(states[i])
    ensures forall f :: (f in states[i].counts <==> References(states[i], f) > 0)
                        && (f in states[i].counts ==> states[i].counts[f] == References(states[i], f))
  {
    if i > 0 {
      CountsAreReferences(states, ops, i - 1);
      assert OpAt(states, ops, i - 1);
      DoKeeps(states[i - 1], ops[i - 1]);
    }
    assert Counted(states[i]);
    forall f
      ensures (f in states[i].counts <==> References(states[i], f) > 0)
              && (f in states[i].counts ==> states[i].counts[f] == References(states[i], f))
    {
      assert FileCounted(states[i], f);
    }
  }

  /** Once all tables are empty and nothing is held, every file that was ever created has been closed, exactly once. */
  lemma {:induction false} EveryFileIsClosed(states: seq<System>, ops: seq<Op>, i: nat, j: nat, f: FileRef)
    requires Run(states, ops) && i <= j < |states| && f in states[i].counts && References(states[j], f) == 0
    ensures f in states[j].closed && f !in states[j].counts
    ensures forall k, l :: 0 <= k < l < |states[j].closed| ==> states[j].closed[k] != states[j].closed[l]
    decreases j - i
  {
    CountsAreReferences(states, ops, j);
    StaysKnown(states, ops, i, j, f);
  }

  lemma {:induction false} StaysKnown(states: seq<System>, ops: seq<Op>, i: nat, j: nat, f: FileRef)
    requires Run(states, ops) && i <= j < |states| && (f in states[i].counts || f in states[i].closed)
    ensures f in states[j].counts || f in states[j].closed
    decreases j - i
  {
    if i < j {
      StaysKnown(states, ops, i, j - 1, f);
      assert OpAt(states, ops, j - 1);
      KeptOrClosed(states[j - 1], ops[j - 1], f);
    }
  }

  /** No operation forgets a file without closing it. */
  lemma KeptOrClosed(s: System, op: Op, f: FileRef)
    requires Can(s, op) && (f in s.counts || f in s.closed)
    ensures f in Do(s, op).counts || f in Do(s, op).closed
  {
    match op
    case CloseAll(t) => DropAllKnown(Stripped(s, t), Files(s.tables[t]), f);
    case CopyOf(t) => if f in s.counts { GotAllKnown(s.counts, Files(s.tables[t]), f); }
    case Release(g) => PutKnown(s.counts, s.closed, g, f);
    case Close(t, fd) => if IsOpen(s.tables[t], fd) { PutKnown(s.counts, s.closed, s.tables[t][fd].file, f); }
    case DupAt(t, src, dst, on) =>
      if IsOpen(s.tables[t], src) && IsOpen(s.tables[t], dst) {
        PutKnown(Got(s.counts, s.tables[t][src].file), s.closed, s.tables[t][dst].file, f);
      }
    case _ =>
  }

  lemma PutKnown(counts: map<FileRef, nat>, closed: seq<FileRef>, g: FileRef, f: FileRef)
    requires f in counts || f in closed
    ensures f in Put(counts, g) || f in ClosedBy(counts, closed, g)
  {
    if f == g && f in counts && counts[f] == 1 { assert (closed + [f])[|closed|] == f; }
  }

  lemma {:induction false} DropAllKnown(s: System, list: seq<FileRef>, f: FileRef)
    requires f in s.counts || f in s.closed
    ensures f in DroppedAll(s, list).counts || f in DroppedAll(s, list).closed
    decreases |list|
  {
    if list != [] {
      PutKnown(s.counts, s.closed, list[0], f);
      DropAllKnown(Dropped(s, list[0]), list[1..], f);
    }
  }

  lemma {:induction false} GotAllKnown(counts: map<FileRef, nat>, list: seq<FileRef>, f: FileRef)
    requires f in counts
    ensures f in GotAll(counts, list)
    decreases |list|
  {
    if list != [] { GotAllKnown(Got(counts, list[0]), list[1..], f); }
  }

  /** Replacing does not spare a slot that somebody has reserved: the file meant for it can no longer be installed
      there. */
  lemma ReservedSlotIsTaken(s: System, t: nat, src: nat, fd: nat, on: bool, f: FileRef)
    requires t < |s.tables| && |s.tables[t]| == MAX_FILES && IsOpen(s.tables[t], src) && f in s.held
    requires fd < MAX_FILES && s.tables[t][fd].state == Reserved
    ensures var r := Do(s, DupAt(t, src, fd, on));
            Can(r, InstallAt(t, f, fd)) && IsOpen(r.tables[t], fd) && Do(r, InstallAt(t, f, fd)) == r
  {
  }

  /** What ends a reservation: installing, closing the whole table, or replacing the slot by an open file. */
  predicate Takes(s: System, op: Op, t: nat, fd: nat)
    requires t < |s.tables|
  {
    match op
    case InstallAt(u, _, dst) => u == t && dst == fd
    case CloseAll(u) => u == t
    case DupAt(u, src, dst, _) => u == t && dst == fd && IsOpen(s.tables[t], src)
    case _ => false
  }

  lemma {:induction false} DroppedAllTables(s: System, list: seq<FileRef>)
    ensures DroppedAll(s, list).tables == s.tables
    decreases |list|
  {
    if list != [] { DroppedAllTables(Dropped(s, list[0]), list[1..]); }
  }

  lemma FreeIsNotReserved(slots: seq<Slot>, from: nat, fd: nat)
    requires from <= |slots| && fd < |slots| && slots[fd].state == Reserved
    ensures LowestFree(slots, from) != fd
  {
    LowestFreeIs(slots, from);
  }

  predicate Reserves(s: System, t: nat, fd: nat) {
    t < |s.tables| && |s.tables[t]| == MAX_FILES && fd < MAX_FILES && s.tables[t][fd].state == Reserved
  }

  lemma ReservedOverDup(s: System, t: nat, src: nat, u: nat, fd: nat)
    requires Can(s, Dup(u, src)) && Reserves(s, t, fd)
    ensures Reserves(Do(s, Dup(u, src)), t, fd)
  {
    if u == t { FreeIsNotReserved(s.tables[t], 0, fd); }
  }

  /** The table after a replacement. */
  lemma DuppedAtTables(s: System, t: nat, src: nat, dst: nat, on: bool)
    requires t < |s.tables| && |s.tables[t]| == MAX_FILES && IsOpen(s.tables[t], src) && dst < MAX_FILES
    ensures var slot := Slot(Installed, s.tables[t][src].file, on);
            DuppedAt(s, t, src, dst, on).tables == s.tables[t := s.tables[t][dst := slot]]
  {
    if IsOpen(s.tables[t], dst) {
      var slots, slot := s.tables[t], Slot(Installed, s.tables[t][src].file, on);
      var r := Unhooked(s, t, dst);
      assert r.tables[t][dst := slot] == slots[dst := slot];
    }
  }

  lemma ReservedOverDupAt(s: System, t: nat, u: nat, src: nat, dst: nat, on: bool, fd: nat)
    requires Can(s, DupAt(u, src, dst, on)) && Reserves(s, t, fd)
    ensures Reserves(Do(s, DupAt(u, src, dst, on)), t, fd) <==> !Takes(s, DupAt(u, src, dst, on), t, fd)
  {
    if IsOpen(s.tables[u], src) && dst < MAX_FILES && src != dst { DuppedAtTables(s, u, src, dst, on); }
  }

  lemma ReservedOverSlot(s: System, op: Op, t: nat, fd: nat)
    requires Can(s, op) && Reserves(s, t, fd)
    requires op.Reserve? || op.InstallAt? || op.Close? || op.SetCloseOnExec?
    ensures Reserves(Do(s, op), t, fd) <==> !Takes(s, op, t, fd)
  {
    if op.Reserve? && op.t == t && op.minFd < MAX_FILES { FreeIsNotReserved(s.tables[t], op.minFd, fd); }
  }

  lemma ReservedOverTable(s: System, op: Op, t: nat, fd: nat)
    requires Can(s, op) && Reserves(s, t, fd)
    requires op.Create? || op.Release? || op.NewTable? || op.Get? || op.CloseAll? || op.CopyOf?
    ensures Reserves(Do(s, op), t, fd) <==> !Takes(s, op, t, fd)
  {
    if op.CloseAll? { DroppedAllTables(Stripped(s, op.t), Files(s.tables[op.t])); }
  }

  /** A reserved slot stays reserved exactly over all other operations, of this table or another. */
  lemma ReservedStaysIff(s: System, op: Op, t: nat, fd: nat)
    requires Can(s, op) && Reserves(s, t, fd)
    ensures Reserves(Do(s, op), t, fd) <==> !Takes(s, op, t, fd)
  {
    match op
    case Dup(u, src) => ReservedOverDup(s, t, src, u, fd);
    case DupAt(u, src, dst, on) => ReservedOverDupAt(s, t, u, src, dst, on, fd);
    case Reserve(_, _) => ReservedOverSlot(s, op, t, fd);
    case InstallAt(_, _, _) => ReservedOverSlot(s, op, t, fd);
    case Close(_, _) => ReservedOverSlot(s, op, t, fd);
    case SetCloseOnExec(_, _, _) => ReservedOverSlot(s, op, t, fd);
    case _ => ReservedOverTable(s, op, t, fd);
  }
}
