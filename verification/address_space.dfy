/** User address spaces: a translation tree and a region allocator that agree about every page. */
module AddressSpaces {
  import opened Collections
  import opened Results
  import opened Descriptors
  import opened Frames
  import opened PageTree
  import opened TableWords
  import opened Paging
  import opened TableDestroy
  import opened Ownership
  import opened Growth
  import opened Bitmap
  import opened Region
  import opened Vmm
  import opened Fork
  import opened MapOwned

  const USER_VM_RANGE_BASE := 0x10000
  const USER_VM_RANGE_SIZE := 0x4000_0000
  const USER_PAGES := 0x4_0000
  const VM_MAX_USER_ALLOCATIONS := 256

  const ATTR_INDEX_NORMAL: Bits3 := 1
  const SHAREABLE_INNER_SHAREABLE: Bits2 := 3

  function UserAttributes(perms: PagePerms, uxn: ExecPerms): Attributes {
    Attributes(perms, ATTR_INDEX_NORMAL, SHAREABLE_INNER_SHAREABLE, NOT_EXECUTABLE, uxn)
  }

  /** A user page's word: valid and accessed, normal memory that is inner shareable, with the permissions asked for,
      and never executed by the kernel. */
  lemma UserWord(f: Frame, perms: PagePerms, uxn: ExecPerms)
    ensures var w := Encode(PageEntry(f, UserAttributes(perms, uxn)));
            && w % 2 == 1 && w / 2 % 2 == 1 && w / 0x400 % 2 == 1 && w / 0x1000 % VPN_LIMIT == f
            && w / 4 % 8 == 1 && w / 0x100 % 4 == 3
            && (w / 0x40 % 2 == 1 <==> perms == EL1_READ_WRITE_EL0_READ_WRITE || perms == EL1_READ_ONLY_EL0_READ_ONLY)
            && (w / 0x80 % 2 == 1 <==> perms == EL1_READ_ONLY_EL0_NONE || perms == EL1_READ_ONLY_EL0_READ_ONLY)
            && w / 0x20_0000_0000_0000 % 2 == 1
            && (w / 0x40_0000_0000_0000 % 2 == 1 <==> uxn == NOT_EXECUTABLE)
  {
    PageEntryWord(f, UserAttributes(perms, uxn));
  }

  // ---- address spaces -------------------------------------------------------------

  class AddressSpace {
    const root: Frame
    const region: AllocRegion
    ghost const places: seq<Node>      // the places of the region's pages
    ghost var tables: map<Node, Frame>
    ghost var pages: map<Node, Frame>  // the owned pages and their frames

    ghost predicate Shape() {
      && region.Shape() && Placed(region, places)
      && region.allocator.pool == USER_VM_RANGE_BASE && region.allocator.pageCount == USER_PAGES
      && region.allocations.Length == VM_MAX_USER_ALLOCATIONS
    }

    ghost predicate Valid(m: Machine)
      reads this, m, region.allocator.bitmap, region.allocations
    {
      Shape() && InStep(m, root, region, places, tables, pages)
    }

    ghost function Frames(): set<Frame>
      reads this
    {
      FramesOf(tables, pages)
    }

    constructor (root: Frame, region: AllocRegion)
      requires region.Shape() && region.allocator.pool == USER_VM_RANGE_BASE && region.allocator.pageCount == USER_PAGES
      requires region.allocations.Length == VM_MAX_USER_ALLOCATIONS
      ensures this.root == root && this.region == region && Shape() && tables == OnlyRoot(root) && pages == map[]
    {
      this.root := root;
      this.region := region;
      places := PlacesFrom(USER_VM_RANGE_BASE, USER_PAGES);
      tables := OnlyRoot(root);
      pages := map[];
      PlacesFromAre(USER_VM_RANGE_BASE, USER_PAGES);
    }

    /** A new address space holds one table and nothing else.  Its bitmap is the storage that the
        heap handed out, as it is, so it is sound exactly when that is clear. */
    static method Create(m: Machine, storage: array<bv8>) returns (r: Result<AddressSpace>)
      requires m.Valid() && USER_PAGES <= 8 * storage.Length
      modifies m
      ensures m.Valid()
      ensures old(m.free) == [] ==> r == Err(ENOMEM) && m.mem == old(m.mem) && m.free == []
      ensures old(m.free) != [] ==> r.Ok? && r.value.Created(m, old(m.mem), old(m.free), storage)
                                    && fresh(r.value) && fresh(r.value.region) && fresh(r.value.region.allocations)
      ensures r.Ok? ==> (r.value.Valid(m) <==> forall p :: 0 <= p < USER_PAGES ==> !r.value.region.Bits()[p])
    {
      var root := PagingCreateTable(m);
      if root.Err? {
        return Err(ENOMEM);
      }
      var region := new AllocRegion(USER_VM_RANGE_BASE, USER_VM_RANGE_SIZE, VM_MAX_USER_ALLOCATIONS, storage);
      var s := new AddressSpace(root.value, region);
      region.FreshRegionValidIffZeroed();
      return Ok(s);
    }

    ghost predicate Created(m: Machine, mem: Memory, free: seq<Frame>, storage: array<bv8>)
      reads this, m, region.allocator.bitmap, region.allocations
    {
      && free != [] && Shape() && m.free == free[1..] && m.mem.Keys == mem.Keys
      && (forall f :: f in mem && f != free[0] ==> m.mem[f] == mem[f])
      && region.allocator.bitmap == storage
      && (forall i :: 0 <= i < region.allocations.Length ==> region.allocations[i] == FREE)
      && root == free[0] && tables == OnlyRoot(root) && pages == map[]
      && Owns(m.mem, m.free, root, tables, pages)
    }

    /** Allocates memory at the lowest free run, zeroed, with the given permissions. */
    method Alloc(m: Machine, size: nat, perms: PagePerms, uxn: ExecPerms, ghost all: set<Node>)
      returns (r: Result<nat>, ghost slot: nat, ghost start: nat)
      requires Valid(m) && size / PAGE_SIZE > 0
      requires Enough(m.free, tables, region.Bits(), places, size / PAGE_SIZE, all)
      modifies m, this`tables, this`pages, region.allocator.bitmap, region.allocations
      ensures Valid(m)
      ensures Exchanged(old(m.mem), old(m.free), old(Frames()), {}, m.mem, m.free, Frames())
      ensures r.Err? <==> Full(old(region.Table())) || NoRun(old(region.Bits()), size / PAGE_SIZE)
      ensures r.Err? ==> r == Err(ENOMEM) && tables == old(tables) && pages == old(pages)
                         && m.mem == old(m.mem) && m.free == old(m.free)
                         && region.Bits() == old(region.Bits()) && region.Table() == old(region.Table())
      ensures r.Ok? ==> r.value == region.allocator.pool + start * PAGE_SIZE
      ensures r.Ok? ==> AllocatedRun(region.allocator.pool, old(region.Bits()), old(region.Table()),
                                     region.Bits(), region.Table(),
                                     old(m.mem), old(m.free), old(pages), m.mem, pages,
                                     root, places, slot, start, size / PAGE_SIZE, UserAttributes(perms, uxn))
    {
      ghost var tables', pages';
      r, tables', pages', slot, start :=
          VmAlloc(m, root, size, region, UserAttributes(perms, uxn), places, tables, pages, all);
      ghost var bits, allocs := region.Bits(), region.Table();
      tables, pages := tables', pages';
      assert region.Bits() == bits && region.Table() == allocs;
    }

    /** Maps the `n` frames from `frame` on, which the caller holds and hands over, at pages of its choice. */
    method MapOwned(m: Machine, va: Word, pa: Word, size: Word, perms: PagePerms, uxn: ExecPerms,
                    ghost frame: nat, ghost start: nat, ghost n: nat, ghost all: set<Node>)
      returns (err: int, ghost slot: nat)
      requires Valid(m) && size == n * PAGE_SIZE && pa == frame * PAGE_SIZE
      requires n > 0 ==> region.InPool(va, n) && start == (va - region.allocator.pool) / PAGE_SIZE
      requires Handed(m.mem, m.free, tables, pages, frame, n)
      requires Missing(all, tables) <= |m.free|
      requires forall p :: start <= p < start + n && p < |places| ==> HasPath(all, places[p])
      modifies m, this`tables, this`pages, region.allocator.bitmap, region.allocations
      ensures Valid(m)
      ensures err == EOK || err == ENOMEM
      ensures err == ENOMEM <==> n > 0 && (Full(old(region.Table())) || !FreeRun(old(region.Bits()), start, n))
      ensures err == ENOMEM || n == 0 ==>
                && tables == old(tables) && pages == old(pages) && m.mem == old(m.mem) && m.free == old(m.free)
                && region.Bits() == old(region.Bits()) && region.Table() == old(region.Table())
      ensures err == EOK && n > 0 ==>
                TakenOver(region.allocator.pool, old(region.Bits()), old(region.Table()),
                          region.Bits(), region.Table(),
                          old(m.mem), old(m.free), old(tables), old(pages), m.mem, m.free, tables, pages,
                          root, places, slot, start, n, frame, UserAttributes(perms, uxn))
      ensures err == EOK && n > 0 ==> Grew(old(m.mem), old(m.free), old(tables), m.mem, m.free, tables, all, 0)
    {
      var pageCount := size / PAGE_SIZE;
      FrameOf(size, n);
      slot := 0;
      if pageCount == 0 {
        return EOK, slot;
      }
      err, slot := TakeOver(m, va, pa, size, pageCount, UserAttributes(perms, uxn), start, frame, all);
    }

    method TakeOver(m: Machine, va: Word, pa: Word, size: Word, n: nat, a: Attributes, ghost start: nat,
                    ghost frame: nat, ghost all: set<Node>)
      returns (err: int, ghost slot: nat)
      requires Valid(m) && size == n * PAGE_SIZE && pa == frame * PAGE_SIZE && n > 0
      requires region.InPool(va, n) && start == (va - region.allocator.pool) / PAGE_SIZE
      requires Handed(m.mem, m.free, tables, pages, frame, n)
      requires Missing(all, tables) <= |m.free|
      requires forall p :: start <= p < start + n && p < |places| ==> HasPath(all, places[p])
      modifies m, this`tables, this`pages, region.allocator.bitmap, region.allocations
      ensures Valid(m)
      ensures err == EOK || err == ENOMEM
      ensures err == ENOMEM <==> Full(old(region.Table())) || !FreeRun(old(region.Bits()), start, n)
      ensures err == ENOMEM ==>
                && tables == old(tables) && pages == old(pages) && m.mem == old(m.mem) && m.free == old(m.free)
                && region.Bits() == old(region.Bits()) && region.Table() == old(region.Table())
      ensures err == EOK ==>
                TakenOver(region.allocator.pool, old(region.Bits()), old(region.Table()),
                          region.Bits(), region.Table(),
                          old(m.mem), old(m.free), old(tables), old(pages), m.mem, m.free, tables, pages,
                          root, places, slot, start, n, frame, a)
      ensures err == EOK ==> Grew(old(m.mem), old(m.free), old(tables), m.mem, m.free, tables, all, 0)
    {
      ghost var tables', pages';
      err, slot, tables', pages' := ReserveAndMap(m, root, region, places, tables, pages, va, pa, size, n, a, start,
                                                  frame, all);
      ghost var bits, allocs := region.Bits(), region.Table();
      tables, pages := tables', pages';
      assert region.Bits() == bits && region.Table() == allocs;
    }

    /** A new address space with a copy of this one's region but none of its pages yet. */
    method CreateWithRegionOf(m: Machine, storage: array<bv8>, ghost bits: seq<bool>, ghost allocs: seq<Allocation>)
      returns (dst: AddressSpace, err: int)
      requires m.Valid() && Shape() && region.Is(bits, allocs) && m.free != [] && USER_PAGES <= 8 * storage.Length
      requires storage != region.allocator.bitmap && storage as object != region.allocations as object
      modifies m, storage
      ensures m.Valid() && err == EOK
      ensures fresh(dst) && dst.Shape() && dst.region.allocator.bitmap == storage && fresh(dst.region.allocations)
      ensures region.Is(bits, allocs) && dst.region.Is(bits, allocs)
      ensures m.free == old(m.free)[1..] && FirstTaken(old(m.mem), old(m.free), m.mem)
      ensures dst.root == old(m.free)[0] && Owns(m.mem, m.free, dst.root, OnlyRoot(dst.root), map[])
    {
      var r := Create(m, storage);
      dst := r.value;
      err := dst.TakeRegion(region, bits, allocs);
    }

    method TakeRegion(src: AllocRegion, ghost bits: seq<bool>, ghost allocs: seq<Allocation>) returns (err: int)
      requires Shape() && src.Is(bits, allocs) && src.allocator.pool == USER_VM_RANGE_BASE
      requires src.allocator.pageCount == USER_PAGES && src.allocations.Length == VM_MAX_USER_ALLOCATIONS
      requires src != region && region.allocator.bitmap != src.allocator.bitmap && region.allocations != src.allocations
      requires region.allocator.bitmap as object != src.allocations
               && region.allocations as object != src.allocator.bitmap
      modifies region.allocator.bitmap, region.allocations
      ensures err == EOK && src.Is(bits, allocs) && region.Is(bits, allocs)
    {
      CopyIsSame(src.allocator.pool, bits, allocs, region.Table());
      err := region.CopyFrom(src);
    }

    /** Once its pages are copied, the new space is sound, and the original still is. */
    ghost method Copied(m: Machine, dst: AddressSpace, mem0: Memory, free0: seq<Frame>,
                        dstTables: map<Node, Frame>, dstPages: map<Node, Frame>, bits: seq<bool>,
                        allocs: seq<Allocation>)
      requires dst != this && m.Valid() && Shape() && dst.Shape() && region.Is(bits, allocs)
               && dst.region.Is(bits, allocs)
      requires InRegion(places, bits, pages) && InRegion(places, bits, dstPages)
      requires Forked(mem0, free0, m.mem, m.free, root, tables, pages, dst.root, dstTables, dstPages)
      modifies dst`tables, dst`pages
      ensures Valid(m) && dst.Valid(m) && dst.region.Is(bits, allocs)
      ensures dst.tables == dstTables && dst.pages == dstPages
    {
      dst.tables, dst.pages := dstTables, dstPages;
    }

    /** The copying itself, once the new space has its root table and its region. */
    method CopyInto(m: Machine, dst: AddressSpace, ghost mem0: Memory, ghost free0: seq<Frame>,
                    ghost bits: seq<bool>, ghost allocs: seq<Allocation>)
      returns (err: int)
      requires dst != this && m.Valid() && Shape() && dst.Shape() && region.Is(bits, allocs)
               && dst.region.Is(bits, allocs)
      requires Owns(mem0, free0, root, tables, pages) && InRegion(places, bits, pages)
      requires FirstTaken(mem0, free0, m.mem) && m.free == free0[1..] && dst.root == free0[0]
      requires Owns(m.mem, m.free, dst.root, OnlyRoot(dst.root), map[])
      requires |tables| + |pages| <= |free0|
      modifies m, dst`tables, dst`pages
      ensures Valid(m) && dst.Valid(m) && dst.region.Is(bits, allocs) && err == EOK
      ensures Forked(mem0, free0, m.mem, m.free, root, tables, pages, dst.root, dst.tables, dst.pages)
    {
      ghost var dstTables, dstPages;
      assert this as object != m && dst as object != m;
      assert dst.region.allocator.bitmap as object != m && dst.region.allocations as object != m;
      err, dstTables, dstPages := CopyAddressSpace(m, root, region, dst.root, places, tables, pages, mem0, free0,
                                                   bits, allocs);
      Copied(m, dst, mem0, free0, dstTables, dstPages, bits, allocs);
    }

    /** A copy of this address space: the same regions, and every page at the same place with the same
        permissions and contents in a frame of its own.  It takes one free frame for each page, and no
        more tables than the original has.  The original, its memory included, is as before. */
    method CreateFrom(m: Machine, storage: array<bv8>, ghost bits: seq<bool>, ghost allocs: seq<Allocation>)
      returns (r: Result<AddressSpace>)
      requires Valid(m) && USER_PAGES <= 8 * storage.Length && region.Is(bits, allocs)
      requires storage != region.allocator.bitmap && storage as object != region.allocations as object
      requires |tables| + |pages| <= |m.free|
      modifies m, storage
      ensures r.Ok? && fresh(r.value) && r.value.region.allocator.bitmap == storage && fresh(r.value.region.allocations)
      ensures Valid(m) && r.value.Valid(m) && r.value.region.Is(bits, allocs)
      ensures Forked(old(m.mem), old(m.free), m.mem, m.free, root, tables, pages, r.value.root, r.value.tables,
                     r.value.pages)
      ensures |old(m.free)| == |m.free| + |r.value.tables| + |pages| && |r.value.tables| <= |tables|
    {
      TableKeysNotEmpty(tables);
      var dst, err := CreateWithRegionOf(m, storage, bits, allocs);
      if err != EOK {
        return Err(err);
      }
      err := CopyInto(m, dst, old(m.mem), old(m.free), bits, allocs);
      ForkCount(old(m.mem), old(m.free), m.mem, m.free, root, tables, pages, dst.root, dst.tables, dst.pages);
      return Ok(dst);
    }

    /** Gives everything back: the tables and the owned pages, each frame once. */
    method Destroy(m: Machine)
      requires Valid(m)
      modifies m, this`tables, this`pages, region.allocator.bitmap, region.allocations
      ensures m.Valid()
      ensures Exchanged(old(m.mem), old(m.free), old(Frames()), {}, m.mem, m.free, {})
      ensures |m.free| == |old(m.free)| + |old(tables)| + |old(pages)|
      ensures tables == map[] && pages == map[]
    {
      DestroyTree(m, root, region, places, tables, pages);
      tables, pages := map[], map[];
    }
  }

  /** The two halves of a destruction: the allocations, then the tables. */
  method DestroyTree(m: Machine, root: Frame, region: AllocRegion, ghost places: seq<Node>,
                     ghost tables: map<Node, Frame>,
                     ghost pages: map<Node, Frame>)
    requires InStep(m, root, region, places, tables, pages)
    modifies m, region.allocator.bitmap, region.allocations
    ensures m.Valid()
    ensures Exchanged(old(m.mem), old(m.free), FramesOf(tables, pages), {}, m.mem, m.free, {})
    ensures |m.free| == |old(m.free)| + |tables| + |pages|
  {
    FreeAllSlots(m, root, region, places, tables, pages);
    ghost var mem1, free1 := m.mem, m.free;
    PagingDestroyTable(m, root, tables, map[]);
    AllReleased(old(m.mem), old(m.free), root, tables, pages, mem1, free1, m.mem, m.free);
  }

  /** Everything a tree held is free again, each frame once. */
  lemma AllReleased(mem: Memory, free: seq<Frame>, root: Frame, tables: map<Node, Frame>, pages: map<Node, Frame>,
                    mem1: Memory, free1: seq<Frame>, mem2: Memory, free2: seq<Frame>)
    requires Owns(mem, free, root, tables, pages) && NoDuplicates(free) && NoDuplicates(free2)
    requires GaveBack(mem, free, pages, mem1, free1, map[], root, tables)
    requires Released(mem1, free1, mem2, free2, (tables + map[]).Values)
    ensures Exchanged(mem, free, FramesOf(tables, pages), {}, mem2, free2, {})
    ensures |free2| == |free| + |tables| + |pages|
  {
    assert tables + map[] == tables;
    forall f | f in mem && f !in free && f !in FramesOf(tables, pages) ensures mem2[f] == mem[f] {
      assert NotTable(f, tables);
    }
    ReleasedCount(free, free2, tables, pages);
  }

  lemma ForkCount(mem0: Memory, free0: seq<Frame>, mem: Memory, free: seq<Frame>,
                  src: Frame, srcTables: map<Node, Frame>, srcPages: map<Node, Frame>,
                  dst: Frame, dstTables: map<Node, Frame>, dstPages: map<Node, Frame>)
    requires NoDuplicates(free0) && NoDuplicates(free)
    requires Forked(mem0, free0, mem, free, src, srcTables, srcPages, dst, dstTables, dstPages)
    ensures |free0| == |free| + |dstTables| + |srcPages| && |dstTables| <= |srcTables|
  {
    OwnedCount(mem0, free0, mem, free, dst, dstTables, dstPages);
    SameKeys(srcTables, srcPages, dstTables, dstPages);
  }

  /** All that a new holder holds has left the free list. */
  lemma OwnedCount(mem0: Memory, free0: seq<Frame>, mem: Memory, free: seq<Frame>, root: Frame,
                   tables: map<Node, Frame>,
                   pages: map<Node, Frame>)
    requires NoDuplicates(free0) && NoDuplicates(free) && Owns(mem, free, root, tables, pages)
    requires Exchanged(mem0, free0, {}, {}, mem, free, FramesOf(tables, pages))
    ensures |free0| == |free| + |tables| + |pages|
  {
    ReleasedCount(free, free0, tables, pages);
  }

  lemma SameKeys(srcTables: map<Node, Frame>, srcPages: map<Node, Frame>, dstTables: map<Node, Frame>,
                 dstPages: map<Node, Frame>)
    requires forall q :: q in dstPages <==> q in srcPages
    requires forall n :: n in dstTables ==> n in srcTables
    ensures |dstPages| == |srcPages| && |dstTables| <= |srcTables|
  {
    assert forall q :: q in dstPages.Keys <==> q in srcPages.Keys;
    assert dstPages.Keys == srcPages.Keys;
    SubsetSize(dstTables.Keys, srcTables.Keys);
  }

  lemma ReleasedCount(free: seq<Frame>, free2: seq<Frame>, tables: map<Node, Frame>, pages: map<Node, Frame>)
    requires NoDuplicates(free) && NoDuplicates(free2) && Injective(tables) && Injective(pages)
    requires forall n :: n in tables ==> tables[n] !in free
    requires forall q :: q in pages ==> pages[q] !in free && NotTable(pages[q], tables)
    requires forall f :: f in free2 <==> f in free || f in tables.Values || f in pages.Values
    ensures |free2| == |free| + |tables| + |pages|
  {
    ElementsSize(free);
    ElementsSize(free2);
    ImageSize(tables);
    ImageSize(pages);
    Apart(free, tables, pages, tables.Values, pages.Values);
    forall f: Frame ensures f in Elements(free2) <==> f in Elements(free) || f in tables.Values || f in pages.Values {
      assert f in Elements(free2) <==> f in free2;
      assert f in Elements(free) <==> f in free;
    }
    ThreeSizes(Elements(free2), Elements(free), tables.Values, pages.Values);
  }

  lemma ThreeSizes<T(!new)>(whole: set<T>, a: set<T>, b: set<T>, c: set<T>)
    requires a !! b && a !! c && b !! c
    requires forall x :: x in whole <==> x in a || x in b || x in c
    ensures |whole| == |a| + |b| + |c|
  {
    DisjointSum(a, b, a + b);
    DisjointSum(a + b, c, whole);
  }

  lemma TableKeysNotEmpty(tables: map<Node, Frame>)
    requires Root in tables
    ensures |tables| > 0
  {
    assert Root in tables.Keys;
  }

  /** A copy within one pool changes nothing. */
  lemma CopyIsSame(pool: nat, bits: seq<bool>, allocs: seq<Allocation>, dst: seq<Allocation>)
    requires Agree(pool, bits, allocs) && |dst| == |allocs| && pool + |bits| * PAGE_SIZE < WORD_LIMIT
    ensures CopiedBits(bits, |bits|) == bits && CopiedTable(allocs, dst, 0) == allocs
  {
    forall i | 0 <= i < |allocs| ensures Translate(allocs[i], 0) == allocs[i] {
      assert WellPlaced(allocs[i], pool, |bits|);
    }
  }
}
