/** The kernel's address spaces over its one physical memory: each operation is a step that keeps the books. */
module Kernels {
  import opened Collections
  import opened Results
  import opened Descriptors
  import opened Frames
  import opened PageTree
  import opened Ownership
  import opened Growth
  import opened Bitmap
  import opened Region
  import opened Vmm
  import opened Fork
  import opened MapOwned
  import opened AddressSpaces
  import opened KernelMemory

  ghost function SpaceOf(s: AddressSpace): Space
    reads s
  {
    Space(s.root, s.tables, s.pages)
  }

  ghost predicate Shared(s: AddressSpace, t: AddressSpace) {
    || s == t || s.region.allocator.bitmap == t.region.allocator.bitmap || s.region.allocations == t.region.allocations
    || s.region.allocator.bitmap as object == t.region.allocations as object
    || s.region.allocations as object == t.region.allocator.bitmap as object
  }

  ghost predicate Separate(spaces: seq<AddressSpace>) {
    forall i, j :: 0 <= i < |spaces| && 0 <= j < |spaces| && i != j ==> !Shared(spaces[i], spaces[j])
  }

  /** An address space as the books show it: its frames, and its region's bits and table. */
  datatype Entry = Entry(space: Space, bits: seq<bool>, allocs: seq<Allocation>)

  ghost function EntryOf(s: AddressSpace): Entry
    requires s.Shape()
    reads s, s.region.allocator.bitmap, s.region.allocations
  {
    Entry(SpaceOf(s), s.region.Bits(), s.region.Table())
  }

  ghost predicate AllBooked(spaces: seq<AddressSpace>, books: seq<Entry>)
    reads set s | s in spaces :: s, set s | s in spaces :: s.region.allocator.bitmap,
          set s | s in spaces :: s.region.allocations
  {
    && |books| == |spaces|
    && forall i :: 0 <= i < |spaces| ==>
       (assert spaces[i] in spaces; spaces[i].Shape() && EntryOf(spaces[i]) == books[i])
  }

  /** The part of an address space's soundness that does not depend on physical memory. */
  ghost predicate RegionSound(s: AddressSpace, e: Entry) {
    s.Shape() && Agree(s.region.allocator.pool, e.bits, e.allocs) && InRegion(s.places, e.bits, e.space.pages)
  }

  ghost predicate RegionsSound(spaces: seq<AddressSpace>, books: seq<Entry>) {
    |books| == |spaces| && forall i :: 0 <= i < |spaces| ==> RegionSound(spaces[i], books[i])
  }

  ghost function SpacesOf(books: seq<Entry>): (spaces: seq<Space>)
    ensures |spaces| == |books| && forall i :: 0 <= i < |books| ==> spaces[i] == books[i].space
  {
    seq(|books|, i requires 0 <= i < |books| => books[i].space)
  }

  function Without<T>(s: seq<T>, k: nat): seq<T>
    requires k < |s|
  {
    s[..k] + s[k + 1..]
  }

  /** The others share nothing with space `k`. */
  lemma OthersApart(spaces: seq<AddressSpace>, k: nat)
    requires Separate(spaces) && k < |spaces|
    ensures Separate(Without(spaces, k))
    ensures SharesNothing(Without(spaces, k), spaces[k])
  {
  }

  lemma WithoutBooked(spaces: seq<AddressSpace>, books: seq<Entry>, k: nat)
    requires AllBooked(spaces, books) && k < |spaces|
    ensures AllBooked(Without(spaces, k), Without(books, k)) && spaces[k].Shape() && EntryOf(spaces[k]) == books[k]
  {
  }

  lemma RejoinBooked(spaces: seq<AddressSpace>, books: seq<Entry>, k: nat)
    requires k < |spaces| == |books| && AllBooked(Without(spaces, k), Without(books, k)) && spaces[k].Shape()
    ensures AllBooked(spaces, books[k := EntryOf(spaces[k])])
  {
    var rest, kept := Without(spaces, k), Without(books, k);
    forall i | 0 <= i < |spaces| && i != k ensures spaces[i].Shape() && EntryOf(spaces[i]) == books[i] {
      var j := if i < k then i else i - 1;
      assert rest[j] == spaces[i] && kept[j] == books[i] && EntryOf(rest[j]) == kept[j];
    }
  }

  lemma WithoutSpaces(spaces: seq<AddressSpace>, books: seq<Entry>, k: nat)
    requires RegionsSound(spaces, books) && k < |spaces|
    ensures SpacesOf(Without(books, k)) == SpacesOf(books)[..k] + SpacesOf(books)[k + 1..]
    ensures RegionsSound(Without(spaces, k), Without(books, k))
  {
  }

  lemma JoinSeparate(spaces: seq<AddressSpace>, new': AddressSpace)
    requires Separate(spaces) && SharesNothing(spaces, new')
    ensures Separate(spaces + [new'])
  {
  }

  lemma JoinBooked(spaces: seq<AddressSpace>, books: seq<Entry>, new': AddressSpace)
    requires AllBooked(spaces, books) && new'.Shape()
    ensures AllBooked(spaces + [new'], books + [EntryOf(new')])
  {
  }

  lemma JoinRegions(spaces: seq<AddressSpace>, books: seq<Entry>, new': AddressSpace, e: Entry)
    requires RegionsSound(spaces, books) && RegionSound(new', e)
    ensures RegionsSound(spaces + [new'], books + [e])
  {
  }

  lemma JoinSpaces(books: seq<Entry>, e: Entry)
    ensures SpacesOf(books + [e]) == SpacesOf(books) + [e.space]
  {
  }

  /** What a new address space does to the machine is a step, and the system stays sound. */
  lemma Created(s: System, total: set<Frame>, mem: Memory, free: seq<Frame>, n: Space) returns (t: System)
    requires Sound(s, total) && NoDuplicates(free) && Held(mem, free, n)
    requires Exchanged(s.mem, s.free, {}, {}, mem, free, SpaceFrames(n))
    ensures t == System(mem, free, s.spaces + [n], s.loose) && CreateStep(s, t, n) && Sound(t, total)
  {
    t := System(mem, free, s.spaces + [n], s.loose);
    CreateKeeps(s, t, total, n);
  }

  ghost predicate SharesNothing(rest: seq<AddressSpace>, s: AddressSpace) {
    forall i :: 0 <= i < |rest| ==> !Shared(rest[i], s)
  }

  /** Allocation in one address space, and the others as they were. */
  method AllocBeside(s: AddressSpace, m: Machine, size: nat, perms: PagePerms, uxn: ExecPerms, ghost all: set<Node>,
                     ghost rest: seq<AddressSpace>, ghost kept: seq<Entry>)
    returns (r: Result<nat>)
    requires s.Valid(m) && size / PAGE_SIZE > 0
             && Enough(m.free, s.tables, s.region.Bits(), s.places, size / PAGE_SIZE, all)
    requires AllBooked(rest, kept) && SharesNothing(rest, s)
    modifies m, s, s.region.allocator.bitmap, s.region.allocations
    ensures s.Valid(m)
    ensures Exchanged(old(m.mem), old(m.free), old(s.Frames()), {}, m.mem, m.free, s.Frames())
    ensures r.Err? <==> Full(old(s.region.Table())) || NoRun(old(s.region.Bits()), size / PAGE_SIZE)
    ensures AllBooked(rest, kept)
  {
    ghost var slot, start;
    r, slot, start := s.Alloc(m, size, perms, uxn, all);
  }

  ghost predicate IsRange(given: set<Frame>, frame: nat, n: nat) {
    forall f: Frame :: f in given <==> frame <= f < frame + n
  }

  /** As far as frames are concerned: those handed over join the holder, unless the mapping is refused. */
  method MapHanded(s: AddressSpace, m: Machine, va: Word, pa: Word, size: Word, perms: PagePerms, uxn: ExecPerms,
                   ghost frame: nat, ghost start: nat, ghost n: nat, ghost all: set<Node>, ghost given: set<Frame>)
    returns (err: int)
    requires IsRange(given, frame, n)
    requires s.Valid(m) && size == n * PAGE_SIZE && pa == frame * PAGE_SIZE
    requires n > 0 ==> s.region.InPool(va, n) && start == (va - s.region.allocator.pool) / PAGE_SIZE
    requires Handed(m.mem, m.free, s.tables, s.pages, frame, n) && Missing(all, s.tables) <= |m.free|
    requires forall p :: start <= p < start + n && p < |s.places| ==> HasPath(all, s.places[p])
    modifies m, s`tables, s`pages, s.region.allocator.bitmap, s.region.allocations
    ensures s.Valid(m)
    ensures err == if n > 0 && (Full(old(s.region.Table())) || !FreeRun(old(s.region.Bits()), start, n)) then ENOMEM
                   else EOK
    ensures Exchanged(old(m.mem), old(m.free), FramesOf(old(s.tables), old(s.pages)),
                      if err == EOK then given else {}, m.mem, m.free, FramesOf(s.tables, s.pages))
  {
    ghost var slot, bits, allocs, mem, free, tables, pages :=
      0, s.region.Bits(), s.region.Table(), m.mem, m.free, s.tables, s.pages;
    err, slot := s.MapOwned(m, va, pa, size, perms, uxn, frame, start, n, all);
    if err == EOK && n > 0 {
      JoinsFrames(s.region.allocator.pool, bits, allocs, s.region.Bits(), s.region.Table(), mem, free, tables, pages,
                  m.mem, m.free, s.tables, s.pages, s.root, s.places, slot, start, n, frame,
                  UserAttributes(perms, uxn), given);
    } else {
      NoRange(given, frame, n);
      NothingExchanged(mem, free, FramesOf(tables, pages));
    }
  }

  lemma JoinsFrames(pool: nat, bits: seq<bool>, allocs: seq<Allocation>, bits': seq<bool>, allocs': seq<Allocation>,
                    mem: Memory, free: seq<Frame>, tables: map<Node, Frame>, pages: map<Node, Frame>,
                    mem': Memory, free': seq<Frame>, tables': map<Node, Frame>, pages': map<Node, Frame>,
                    root: Frame, places: seq<Node>, slot: nat, start: nat, n: nat, frame: nat, a: Attributes,
                    given: set<Frame>)
    requires IsRange(given, frame, n)
    requires TakenOver(pool, bits, allocs, bits', allocs', mem, free, tables, pages, mem', free', tables', pages',
                       root, places, slot, start, n, frame, a)
    ensures Exchanged(mem, free, FramesOf(tables, pages), given, mem', free', FramesOf(tables', pages'))
  {
    assert given == GivenFrames(frame, n);
  }

  lemma NothingExchanged(mem: Memory, free: seq<Frame>, held: set<Frame>)
    ensures Exchanged(mem, free, held, {}, mem, free, held)
  {
  }

  lemma NoRange(given: set<Frame>, frame: nat, n: nat)
    requires IsRange(given, frame, n)
    ensures n == 0 ==> given == {}
  {
  }

  /** Mapping handed frames in one address space, and the others as they were. */
  method MapOwnedBeside(s: AddressSpace, m: Machine, va: Word, pa: Word, size: Word, perms: PagePerms, uxn: ExecPerms,
                        ghost frame: nat, ghost start: nat, ghost n: nat, ghost all: set<Node>,
                        ghost given: set<Frame>, ghost rest: seq<AddressSpace>, ghost kept: seq<Entry>)
    returns (err: int)
    requires IsRange(given, frame, n)
    requires s.Valid(m) && size == n * PAGE_SIZE && pa == frame * PAGE_SIZE
    requires n > 0 ==> s.region.InPool(va, n) && start == (va - s.region.allocator.pool) / PAGE_SIZE
    requires Handed(m.mem, m.free, s.tables, s.pages, frame, n) && Missing(all, s.tables) <= |m.free|
    requires forall p :: start <= p < start + n && p < |s.places| ==> HasPath(all, s.places[p])
    requires AllBooked(rest, kept) && SharesNothing(rest, s)
    modifies m, s, s.region.allocator.bitmap, s.region.allocations
    ensures s.Valid(m)
    ensures err == if n > 0 && (Full(old(s.region.Table())) || !FreeRun(old(s.region.Bits()), start, n)) then ENOMEM
                   else EOK
    ensures Exchanged(old(m.mem), old(m.free), old(s.Frames()), if err == EOK then given else {},
                      m.mem, m.free, s.Frames())
    ensures AllBooked(rest, kept)
  {
    err := MapHanded(s, m, va, pa, size, perms, uxn, frame, start, n, all, given);
  }

  ghost predicate ApartFrom(spaces: seq<AddressSpace>, storage: array<bv8>) {
    forall i :: 0 <= i < |spaces| ==>
                  storage != spaces[i].region.allocator.bitmap
                      && storage as object != spaces[i].region.allocations as object
  }

  predicate Clear(storage: array<bv8>)
    requires USER_PAGES <= 8 * storage.Length
    reads storage
  {
    forall p {:trigger GetBit(storage[p / 8], p % 8)} :: 0 <= p < USER_PAGES ==> !GetBit(storage[p / 8], p % 8)
  }

  /** A new address space beside the others; its storage is cleared, as creation itself does not see to that. */
  method CreateBeside(m: Machine, storage: array<bv8>, ghost rest: seq<AddressSpace>, ghost kept: seq<Entry>)
    returns (r: Result<AddressSpace>)
    requires m.Valid() && USER_PAGES <= 8 * storage.Length && Clear(storage)
    requires AllBooked(rest, kept) && ApartFrom(rest, storage)
    modifies m
    ensures m.Valid() && AllBooked(rest, kept) && (r.Err? <==> old(m.free) == [])
    ensures r.Err? ==> r == Err(ENOMEM) && m.mem == old(m.mem) && m.free == old(m.free)
    ensures r.Ok? ==> r.value.Valid(m) && SharesNothing(rest, r.value)
                      && Exchanged(old(m.mem), old(m.free), {}, {}, m.mem, m.free, r.value.Frames())
  {
    r := AddressSpace.Create(m, storage);
    if r.Ok? {
      assert r.value.region.allocator.Valid();
      CreatedConserves(old(m.mem), old(m.free), m.mem, m.free, r.value.root);
    }
  }

  lemma CreatedConserves(mem: Memory, free: seq<Frame>, mem': Memory, free': seq<Frame>, root: Frame)
    requires free != [] && free' == free[1..] && root == free[0] && mem'.Keys == mem.Keys
    requires forall f :: f in mem && f != root ==> mem'[f] == mem[f]
    ensures Exchanged(mem, free, {}, {}, mem', free', FramesOf(OnlyRoot(root), map[]))
  {
    assert OnlyRoot(root)[Root] == root;
    assert forall f :: f in FramesOf(OnlyRoot(root), map[]) <==> f == root;
    assert free == [root] + free';
  }

  /** A copy of one address space.  The bitmap's storage comes from the heap with whatever is in it: the copy
      overwrites it. */
  method ForkOf(s: AddressSpace, m: Machine) returns (r: AddressSpace)
    requires s.Valid(m) && |s.tables| + |s.pages| <= |m.free|
    modifies m
    ensures r.Valid(m) && fresh(r) && fresh(r.region.allocator.bitmap) && fresh(r.region.allocations)
    ensures Exchanged(old(m.mem), old(m.free), {}, {}, m.mem, m.free, r.Frames())
  {
    var storage := new bv8[USER_PAGES / 8];
    var fork := s.CreateFrom(m, storage, s.region.Bits(), s.region.Table());
    r := fork.value;
  }

  /** The same beside all the others, which stay as they were, the original among them. */
  method ForkBeside(s: AddressSpace, m: Machine, ghost spaces: seq<AddressSpace>, ghost books: seq<Entry>)
    returns (r: AddressSpace)
    requires s.Valid(m) && |s.tables| + |s.pages| <= |m.free| && AllBooked(spaces, books)
    modifies m
    ensures r.Valid(m) && SharesNothing(spaces, r)
    ensures Exchanged(old(m.mem), old(m.free), {}, {}, m.mem, m.free, r.Frames())
    ensures AllBooked(spaces, books)
  {
    r := ForkOf(s, m);
    NewSharesNothing(spaces, r);
  }

  twostate lemma NewSharesNothing(spaces: seq<AddressSpace>, new r: AddressSpace)
    requires fresh(r) && fresh(r.region.allocator.bitmap) && fresh(r.region.allocations)
    ensures SharesNothing(spaces, r)
  {
  }

  /** Destruction of one address space, and the others as they were. */
  method DestroyBeside(s: AddressSpace, m: Machine, ghost rest: seq<AddressSpace>, ghost kept: seq<Entry>)
    requires s.Valid(m) && AllBooked(rest, kept) && SharesNothing(rest, s)
    modifies m, s, s.region.allocator.bitmap, s.region.allocations
    ensures m.Valid() && AllBooked(rest, kept)
    ensures Exchanged(old(m.mem), old(m.free), old(s.Frames()), {}, m.mem, m.free, {})
  {
    s.Destroy(m);
  }

  class Kernel {
    const m: Machine
    var spaces: seq<AddressSpace>
    ghost var books: seq<Entry>
    ghost var loose: set<Frame>    // held by somebody, but by no address space
    ghost const total: set<Frame>  // all frames that were free at boot

    ghost function View(): System
      reads this, m
    {
      System(m.mem, m.free, SpacesOf(books), loose)
    }

    /** Every address space is sound, and every frame of `total` has exactly one owner. */
    ghost predicate Valid()
      reads this, m, set s | s in spaces :: s, set s | s in spaces :: s.region.allocator.bitmap,
            set s | s in spaces :: s.region.allocations
    {
      && m.Valid() && Sound(View(), total)
      && Separate(spaces) && AllBooked(spaces, books) && RegionsSound(spaces, books)
    }

    constructor (m: Machine)
      requires m.Valid()
      ensures Valid() && this.m == m && spaces == [] && loose == {} && total == Elements(m.free)
    {
      this.m, spaces, books, loose, total := m, [], [], {}, Elements(m.free);
      new;
      assert Holdings([]) == [];
    }

    lemma SpaceValid(k: nat)
      requires Valid() && k < |spaces|
      ensures |books| == |spaces| && spaces[k].Valid(m) && EntryOf(spaces[k]) == books[k]
    {
      assert RegionSound(spaces[k], books[k]) && EntryOf(spaces[k]) == books[k];
      assert Held(m.mem, m.free, SpacesOf(books)[k]);
    }

    method Alloc(k: nat, size: nat, perms: PagePerms, uxn: ExecPerms, ghost all: set<Node>) returns (r: Result<nat>)
      requires Valid() && k < |spaces| && size / PAGE_SIZE > 0 && spaces[k].Shape()
      requires Enough(m.free, spaces[k].tables, spaces[k].region.Bits(), spaces[k].places, size / PAGE_SIZE, all)
      modifies this`books, this`loose, m, spaces[k], spaces[k].region.allocator.bitmap, spaces[k].region.allocations
      ensures Valid() && ChangeStep(old(View()), View(), k, {})
      ensures r.Err? <==> Full(old(spaces[k].region.Table())) || NoRun(old(spaces[k].region.Bits()), size / PAGE_SIZE)
    {
      ghost var s, rest, kept := View(), Without(spaces, k), Without(books, k);
      SpaceValid(k);
      OthersApart(spaces, k);
      WithoutBooked(spaces, books, k);
      r := AllocBeside(spaces[k], m, size, perms, uxn, all, rest, kept);
      Changed(s, k, {}, rest, kept);
    }

    /** The books are brought up to date. */
    ghost method Enter(books': seq<Entry>, t: System)
      requires m.Valid() && Separate(spaces) && AllBooked(spaces, books') && RegionsSound(spaces, books')
               && Sound(t, total)
      requires t.mem == m.mem && t.free == m.free && t.spaces == SpacesOf(books')
      modifies this`books, this`loose
      ensures Valid() && View() == t
    {
      books, loose := books', t.loose;
    }

    /** An operation has kept space `k` sound; the books still show state `s`. */
    ghost method Changed(s: System, k: nat, given: set<Frame>, rest: seq<AddressSpace>, kept: seq<Entry>)
      requires Separate(spaces) && RegionsSound(spaces, books) && k < |spaces| && spaces[k].Valid(m)
      requires rest == Without(spaces, k) && kept == Without(books, k) && AllBooked(rest, kept)
      requires Sound(s, total) && s.spaces == SpacesOf(books) && given <= s.loose
      requires books[k].space.root == spaces[k].root
      requires Exchanged(s.mem, s.free, SpaceFrames(books[k].space), given, m.mem, m.free, spaces[k].Frames())
      modifies this`books, this`loose
      ensures Valid() && ChangeStep(s, View(), k, given)
    {
      ghost var e := EntryOf(spaces[k]);
      ghost var t := System(m.mem, m.free, s.spaces[k := e.space], s.loose - given);
      assert ChangeStep(s, t, k, given);
      ChangeKeeps(s, t, total, k, given);
      RejoinBooked(spaces, books, k);
      assert SpacesOf(books[k := e]) == t.spaces;
      Enter(books[k := e], t);
    }

    /** Maps loose frames, which belong to the address space from then on. */
    method MapOwned(k: nat, va: Word, pa: Word, size: Word, perms: PagePerms, uxn: ExecPerms,
                    ghost frame: nat, ghost start: nat, ghost n: nat, ghost all: set<Node>, ghost given: set<Frame>)
      returns (err: int)
      requires Valid() && k < |spaces| && size == n * PAGE_SIZE && pa == frame * PAGE_SIZE
      requires n > 0 ==> spaces[k].region.InPool(va, n) && start == (va - spaces[k].region.allocator.pool) / PAGE_SIZE
      requires IsRange(given, frame, n) && frame + n <= VPN_LIMIT && given <= loose
      requires Missing(all, spaces[k].tables) <= |m.free|
      requires forall p :: start <= p < start + n && p < |spaces[k].places| ==> HasPath(all, spaces[k].places[p])
      modifies this`books, this`loose, m, spaces[k], spaces[k].region.allocator.bitmap, spaces[k].region.allocations
      ensures Valid() && (err == EOK || err == ENOMEM)
      ensures ChangeStep(old(View()), View(), k, if err == EOK then given else {})
    {
      ghost var s, rest, kept := View(), Without(spaces, k), Without(books, k);
      SpaceValid(k);
      OthersApart(spaces, k);
      WithoutBooked(spaces, books, k);
      LooseHanded(s, total, k, frame, n, given);
      err := MapOwnedBeside(spaces[k], m, va, pa, size, perms, uxn, frame, start, n, all, given, rest, kept);
      Changed(s, k, if err == EOK then given else {}, rest, kept);
    }

    method Create(storage: array<bv8>) returns (r: Result<AddressSpace>)
      requires Valid() && USER_PAGES <= 8 * storage.Length && Clear(storage) && ApartFrom(spaces, storage)
      modifies this, m
      ensures Valid() && (r.Err? <==> old(m.free) == [])
      ensures r.Err? ==> r == Err(ENOMEM) && spaces == old(spaces) && View() == old(View())
      ensures r.Ok? ==> spaces == old(spaces) + [r.value] && CreateStep(old(View()), View(), SpaceOf(r.value))
    {
      ghost var s := View();
      r := CreateBeside(m, storage, spaces, books);
      if r.Ok? {
        Added(s, r.value);
      }
    }

    /** The new address space is entered in the books. */
    method Added(ghost s: System, new': AddressSpace)
      requires Separate(spaces) && AllBooked(spaces, books) && RegionsSound(spaces, books)
      requires SharesNothing(spaces, new') && new'.Valid(m) && Sound(s, total) && s.spaces == SpacesOf(books)
      requires Exchanged(s.mem, s.free, {}, {}, m.mem, m.free, new'.Frames())
      modifies this`spaces, this`books, this`loose
      ensures Valid() && spaces == old(spaces) + [new'] && CreateStep(s, View(), SpaceOf(new'))
    {
      ghost var e := EntryOf(new');
      ghost var t := Created(s, total, m.mem, m.free, e.space);
      JoinSeparate(spaces, new');
      JoinBooked(spaces, books, new');
      JoinRegions(spaces, books, new', e);
      JoinSpaces(books, e);
      spaces := spaces + [new'];
      Enter(books + [e], t);
    }

    method ForkSpace(k: nat) returns (r: AddressSpace)
      requires Valid() && k < |spaces| && |spaces[k].tables| + |spaces[k].pages| <= |m.free|
      modifies m
      ensures r.Valid(m) && SharesNothing(spaces, r)
      ensures Exchanged(old(m.mem), old(m.free), {}, {}, m.mem, m.free, r.Frames())
      ensures AllBooked(spaces, books)
    {
      SpaceValid(k);
      r := ForkBeside(spaces[k], m, spaces, books);
    }

    /** A copy of space `k`. */
    method Fork(k: nat) returns (r: AddressSpace)
      requires Valid() && k < |spaces| && |spaces[k].tables| + |spaces[k].pages| <= |m.free|
      modifies this, m
      ensures Valid() && spaces == old(spaces) + [r] && CreateStep(old(View()), View(), SpaceOf(r))
    {
      ghost var s := View();
      r := ForkSpace(k);
      Added(s, r);
    }

    method Destroy(k: nat)
      requires Valid() && k < |spaces|
      modifies this, m, spaces[k], spaces[k].region.allocator.bitmap, spaces[k].region.allocations
      ensures Valid() && spaces == Without(old(spaces), k) && DestroyStep(old(View()), View(), k)
    {
      ghost var s, kept := View(), Without(books, k);
      var rest := Without(spaces, k);
      SpaceValid(k);
      OthersApart(spaces, k);
      WithoutBooked(spaces, books, k);
      DestroyBeside(spaces[k], m, rest, kept);
      Removed(s, k, rest, kept);
    }

    /** The address space is struck off the books. */
    method Removed(ghost s: System, ghost k: nat, rest: seq<AddressSpace>, ghost kept: seq<Entry>)
      requires m.Valid() && Separate(rest) && RegionsSound(spaces, books) && k < |spaces|
      requires rest == Without(spaces, k) && kept == Without(books, k) && AllBooked(rest, kept)
      requires Sound(s, total) && s.spaces == SpacesOf(books)
      requires Exchanged(s.mem, s.free, SpaceFrames(books[k].space), {}, m.mem, m.free, {})
      modifies this`spaces, this`books, this`loose
      ensures Valid() && spaces == rest && DestroyStep(s, View(), k)
    {
      ghost var t := System(m.mem, m.free, SpacesOf(kept), s.loose);
      WithoutSpaces(spaces, books, k);
      DestroyKeeps(s, t, total, k);
      spaces := rest;
      Enter(kept, t);
    }

    /** A frame is handed out by itself. */
    method TakeFrame() returns (r: Result<nat>)
      requires Valid()
      modifies this, m
      ensures Valid() && (r.Err? <==> old(m.free) == [])
      ensures r.Err? ==> View() == old(View())
      ensures r.Ok? ==> r.value == old(m.free)[0] * PAGE_SIZE && TakeStep(old(View()), View(), old(m.free)[0])
    {
      ghost var s := View();
      r := m.PmmAlloc();
      if r.Ok? {
        ghost var t := System(m.mem, m.free, s.spaces, s.loose + {s.free[0]});
        assert s.free == [s.free[0]] + t.free;
        TakeKeeps(s, t, total, s.free[0]);
        Enter(books, t);
      }
    }

    /** A loose frame comes back. */
    method GiveFrame(pa: nat)
      requires Valid() && PageAligned(pa) && pa / PAGE_SIZE in loose
      modifies this, m
      ensures Valid() && GiveStep(old(View()), View(), pa / PAGE_SIZE)
    {
      ghost var s := View();
      LooseNotFree(s, total, pa / PAGE_SIZE);
      m.PmmFree(pa);
      ghost var t := System(m.mem, m.free, s.spaces, s.loose - {pa / PAGE_SIZE});
      GiveKeeps(s, t, total, pa / PAGE_SIZE);
      Enter(books, t);
    }
  }

  lemma LooseNotFree(s: System, total: set<Frame>, f: Frame)
    requires Sound(s, total) && f in s.loose
    ensures f in s.mem && f !in s.free
  {
  }

  /** Loose frames may be handed to any address space: they are neither free nor held. */
  lemma LooseHanded(s: System, total: set<Frame>, k: nat, frame: nat, n: nat, given: set<Frame>)
    requires Sound(s, total) && k < |s.spaces| && IsRange(given, frame, n) && frame + n <= VPN_LIMIT && given <= s.loose
    ensures Handed(s.mem, s.free, s.spaces[k].tables, s.spaces[k].pages, frame, n)
  {
    var held := Holdings(s.spaces);
    forall f: Frame | frame <= f < frame + n ensures f in s.mem && f !in s.free
        && !Holds(s.spaces[k].tables, s.spaces[k].pages, f) {
      assert f in given && f in s.loose && f !in held[k];
    }
  }

  /** With no address space left and nothing loose, the free frames are again those of the start. */
  lemma AllFreeAgain(s: System, total: set<Frame>)
    requires Sound(s, total) && s.spaces == [] && s.loose == {}
    ensures Elements(s.free) == total && |s.free| == |total|
  {
    assert forall f :: f in total <==> f in s.free;
    ElementsSize(s.free);
  }
}
