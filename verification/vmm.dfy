/** Allocating, mapping and freeing virtual pages: region, translation tree and frames in step. */
module Vmm {
  import opened Collections
  import opened Results
  import opened Descriptors
  import opened Frames
  import opened PageTree
  import opened Paging
  import opened Ownership
  import opened Growth
  import opened Bitmap
  import opened Region

  // ---- one page -------------------------------------------------------------------

  /** `PagingMap` for a single page. */
  method MapOne(m: Machine, root: Frame, ghost tables: map<Node, Frame>, va: nat, pa: nat, a: Attributes,
                ghost n: Node, ghost f: Frame, ghost all: set<Node>)
    returns (ghost tables': map<Node, Frame>)
    requires TreeIn(m, root, tables) && n == Place(va) && !Leaf(m.mem, root, n).valid
    requires PageAligned(va) && va + PAGE_SIZE < WORD_LIMIT && pa == f * PAGE_SIZE
    requires HasPath(all, n) && Missing(all, tables) <= |m.free|
    modifies m
    ensures TreeIn(m, root, tables') && AddsWithin(tables, tables', all)
    ensures Extended(old(m.mem), old(m.free), m.mem, m.free, tables, tables')
    ensures LeafSet(old(m.mem), m.mem, root, n, PageEntry(f, a))
  {
    ghost var places := [n];
    SingletonPlaces(va, n, pa, f);
    var err;
    err, tables' := PagingMap(m, root, tables, va, pa, PAGE_SIZE, a, all, places);
    assert Leaf(m.mem, root, places[0]) == PageEntry(f, a);
    forall k | IsPlace(k) && k != n ensures Leaf(m.mem, root, k) == Leaf(old(m.mem), root, k) {
      assert !Among(k, places, 1);
    }
  }

  lemma SingletonPlaces(va: nat, n: Node, pa: nat, f: Frame)
    requires n == Place(va) && va + PAGE_SIZE < WORD_LIMIT && pa == f * PAGE_SIZE
    ensures PageCount(va, PAGE_SIZE) == 1 && [n] == PlacesFrom(va, 1) && Places([n])
    ensures pa / PAGE_SIZE == f && PageAligned(pa) && pa < WORD_LIMIT
  {
    PlacesFromAt(va, 1, 0, va);
  }

  /** The place `n` was mapped to frame `f`, which came off the free list with the tables it needed. */
  ghost predicate PageAdded(mem: Memory, free: seq<Frame>, tables: map<Node, Frame>,
                            mem': Memory, free': seq<Frame>, tables': map<Node, Frame>,
                            root: Frame, f: Frame, n: Node, a: Attributes, all: set<Node>)
    requires IsPlace(n)
  {
    && f in free && f in mem' && f !in free' && NotTable(f, tables')
    && LeafSet(mem, mem', root, n, PageEntry(f, a))
    && Grew(mem, free, tables, mem', free', tables', all, 1)
  }

  /** The first free frame was taken and given some contents. */
  ghost predicate FirstTaken(mem: Memory, free: seq<Frame>, mem': Memory) {
    && free != [] && NoDuplicates(free) && free[0] in mem && mem'.Keys == mem.Keys
    && forall g :: g in mem && g != free[0] ==> mem'[g] == mem[g]
  }

  /** Taking the first free frame and giving it new contents leaves a tree's ownership as it was. */
  lemma FreeFrameIsNew(mem: Memory, free: seq<Frame>, root: Frame, tables: map<Node, Frame>, pages: map<Node, Frame>,
                       mem': Memory)
    requires Owns(mem, free, root, tables, pages) && FirstTaken(mem, free, mem')
    ensures Owns(mem', free[1..], root, tables, pages) && SameLeaves(mem, mem', root)
    ensures free[0] !in free[1..] && !Holds(tables, pages, free[0])
  {
    assert free[0] in free;
    OwnsFrame(mem, free, mem', free[1..], root, tables, pages);
  }

  lemma GrewAfterAlloc(mem: Memory, free: seq<Frame>, tables: map<Node, Frame>,
                       mem1: Memory, mem': Memory, free': seq<Frame>, tables': map<Node, Frame>, all: set<Node>)
    requires FirstTaken(mem, free, mem1)
    requires Extended(mem1, free[1..], mem', free', tables, tables') && AddsWithin(tables, tables', all)
    ensures Grew(mem, free, tables, mem', free', tables', all, 1)
  {
    UntouchedAfterAlloc(mem, free, tables, mem1, mem');
    assert |free[1..]| + 1 == |free|;
    assert forall g :: g in free' ==> g in free[1..];
  }

  lemma UntouchedAfterAlloc(mem: Memory, free: seq<Frame>, tables: map<Node, Frame>, mem1: Memory, mem': Memory)
    requires FirstTaken(mem, free, mem1) && Untouched(mem1, mem', tables, free[1..])
    ensures Untouched(mem, mem', tables, free)
    ensures forall g :: g in free[1..] ==> g in free
  {
    assert free[0] in free;
  }

  lemma PageAddedAfterAlloc(mem: Memory, free: seq<Frame>, tables: map<Node, Frame>,
                            mem1: Memory, mem': Memory, free': seq<Frame>, tables': map<Node, Frame>,
                            root: Frame, n: Node, a: Attributes, all: set<Node>)
    requires FirstTaken(mem, free, mem1) && NotTable(free[0], tables) && IsPlace(n)
    requires Extended(mem1, free[1..], mem', free', tables, tables') && AddsWithin(tables, tables', all)
    requires SameLeaves(mem, mem1, root) && LeafSet(mem1, mem', root, n, PageEntry(free[0], a))
    ensures PageAdded(mem, free, tables, mem', free', tables', root, free[0], n, a, all)
    ensures mem'[free[0]] == mem1[free[0]]
  {
    var f := free[0];
    assert f in free && f !in free[1..];
    GrewAfterAlloc(mem, free, tables, mem1, mem', free', tables', all);
    assert forall g :: g in free' ==> g in free[1..];
  }

  /** The new page belongs to the tree now. */
  lemma OwnAfterAlloc(mem: Memory, free: seq<Frame>, tables: map<Node, Frame>, pages: map<Node, Frame>,
                      mem1: Memory, mem': Memory, free': seq<Frame>, tables': map<Node, Frame>,
                      root: Frame, n: Node, a: Attributes, all: set<Node>)
    requires Owns(mem, free, root, tables, pages) && IsPlace(n) && FirstTaken(mem, free, mem1)
    requires Extended(mem1, free[1..], mem', free', tables, tables') && AddsWithin(tables, tables', all)
    requires HeldTree(mem', free', root, tables')
    requires LeafSet(mem1, mem', root, n, PageEntry(free[0], a))
    ensures Owns(mem', free', root, tables', pages[n := free[0]])
    ensures PageAdded(mem, free, tables, mem', free', tables', root, free[0], n, a, all)
    ensures mem'[free[0]] == mem1[free[0]]
  {
    FreeFrameIsNew(mem, free, root, tables, pages, mem1);
    OwnOneMore(mem1, free[1..], mem', free', root, tables, tables', pages, n, free[0], a);
    assert NotTable(free[0], tables);
    PageAddedAfterAlloc(mem, free, tables, mem1, mem', free', tables', root, n, a, all);
  }

  /** Growth leaves the contents of owned pages alone. */
  lemma OwnedPagesStay(mem: Memory, free: seq<Frame>, tables: map<Node, Frame>, pages: map<Node, Frame>, root: Frame,
                       mem': Memory, free': seq<Frame>, tables': map<Node, Frame>, all: set<Node>, taken: nat)
    requires Owns(mem, free, root, tables, pages) && Grew(mem, free, tables, mem', free', tables', all, taken)
    ensures forall q :: q in pages ==> pages[q] in mem' && mem'[pages[q]] == mem[pages[q]]
  {
  }

  lemma PageIsUnmapped(mem: Memory, root: Frame, tables: map<Node, Frame>, pages: map<Node, Frame>, n: Node)
    requires Mapping(mem, root, tables, pages) && IsPlace(n)
    ensures Leaf(mem, root, n).valid <==> n in pages
    ensures n in pages ==> Leaf(mem, root, n).address == pages[n]
  {
    assert Maps(Leaf(mem, root, n), n, pages);
  }

  // ---- runs of new pages ----------------------------------------------------------

  /** The first `k` of the places from `start` on, and no others, are newly mapped, each to a zeroed
      frame that was free. */
  ghost predicate FreshRun(mem0: Memory, free0: seq<Frame>, mem: Memory, root: Frame,
                           pages0: map<Node, Frame>, pages: map<Node, Frame>,
                           places: seq<Node>, start: nat, k: nat, a: Attributes)
    requires Places(places) && start + k <= |places|
  {
    && (forall q :: q in pages0 ==> q in pages && pages[q] == pages0[q])
    && (forall p :: start <= p < start + k ==> NewPage(mem, free0, root, pages, places[p], a))
    && (forall n :: IsPlace(n) && (forall p :: start <= p < start + k ==> places[p] != n) ==>
          Leaf(mem, root, n) == Leaf(mem0, root, n))
  }

  ghost predicate NewPage(mem: Memory, free0: seq<Frame>, root: Frame, pages: map<Node, Frame>, n: Node, a: Attributes)
    requires IsPlace(n)
  {
    && n in pages && pages[n] in free0 && pages[n] in mem && mem[pages[n]] == ZeroPage()
    && Leaf(mem, root, n) == PageEntry(pages[n], a)
  }

  lemma RunLonger(mem0: Memory, free0: seq<Frame>, mem: Memory, pages0: map<Node, Frame>, pages: map<Node, Frame>,
                  mem': Memory, root: Frame, places: seq<Node>, start: nat, k: nat, f: Frame, a: Attributes)
    requires Places(places) && start + k < |places| && places[start + k] !in pages
    requires FreshRun(mem0, free0, mem, root, pages0, pages, places, start, k, a)
    requires LeafSet(mem, mem', root, places[start + k], PageEntry(f, a))
    requires f in free0 && f in mem' && mem'[f] == ZeroPage()
    requires forall q :: q in pages ==> pages[q] in mem' && (pages[q] in mem ==> mem'[pages[q]] == mem[pages[q]])
    ensures FreshRun(mem0, free0, mem', root, pages0, pages[places[start + k] := f], places, start, k + 1, a)
  {
    var n := places[start + k];
    var pages' := pages[n := f];
    forall p | start <= p < start + k + 1 ensures NewPage(mem', free0, root, pages', places[p], a) {
      if p < start + k {
        assert NewPage(mem, free0, root, pages, places[p], a) && places[p] != n;
      }
    }
    forall q | IsPlace(q) && (forall p :: start <= p < start + k + 1 ==> places[p] != q)
      ensures Leaf(mem', root, q) == Leaf(mem0, root, q)
    {
      assert q != n;
    }
  }

  /** How far an allocation of the pages from `start` on has come after `k` pages. */
  ghost predicate Running(mem0: Memory, free0: seq<Frame>, tables0: map<Node, Frame>, pages0: map<Node, Frame>,
                          mem: Memory, free: seq<Frame>, tables: map<Node, Frame>, pages: map<Node, Frame>,
                          root: Frame, bits: seq<bool>, places: seq<Node>, start: nat, k: nat, a: Attributes,
                          all: set<Node>)
    requires Places(places) && start + k <= |places|
  {
    && Owns(mem, free, root, tables, pages)
    && Grew(mem0, free0, tables0, mem, free, tables, all, k)
    && FreshRun(mem0, free0, mem, root, pages0, pages, places, start, k, a)
    && InRegion(places, Mark(bits, start, k, true), pages)
    && |pages| == |pages0| + k
  }

  lemma RunningStep(mem0: Memory, free0: seq<Frame>, tables0: map<Node, Frame>, pages0: map<Node, Frame>,
                    mem: Memory, free: seq<Frame>, tables: map<Node, Frame>, pages: map<Node, Frame>,
                    mem': Memory, free': seq<Frame>, tables': map<Node, Frame>, f: Frame,
                    root: Frame, bits: seq<bool>, places: seq<Node>, start: nat, k: nat, a: Attributes, all: set<Node>)
    requires Places(places) && start + k < |places| && |bits| == |places| && !bits[start + k]
    requires Running(mem0, free0, tables0, pages0, mem, free, tables, pages, root, bits, places, start, k, a, all)
    requires Owns(mem', free', root, tables', pages[places[start + k] := f])
    requires PageAdded(mem, free, tables, mem', free', tables', root, f, places[start + k], a, all)
    requires mem'[f] == ZeroPage()
    ensures Running(mem0, free0, tables0, pages0, mem', free', tables', pages[places[start + k] := f],
                    root, bits, places, start, k + 1, a, all)
  {
    OwnedPagesStay(mem, free, tables, pages, root, mem', free', tables', all, 1);
    RunLonger(mem0, free0, mem, pages0, pages, mem', root, places, start, k, f, a);
    GrewTwice(mem0, free0, tables0, mem, free, tables, mem', free', tables', all, k, 1);
    InRegionMark(places, bits, pages, start, k, f);
    OneMoreKey(pages, places[start + k], f);
  }

  lemma InRegionMark(places: seq<Node>, bits: seq<bool>, pages: map<Node, Frame>, start: nat, k: nat, f: Frame)
    requires Places(places) && start + k < |places|
    requires InRegion(places, Mark(bits, start, k, true), pages)
    ensures InRegion(places, Mark(bits, start, k + 1, true), pages[places[start + k] := f])
  {
    InRegionAdd(places, Mark(bits, start, k, true), pages, start + k, f);
    MarkNext(bits, start, k, true);
  }

  /** Which places a region's pages have. */
  ghost predicate Placed(region: AllocRegion, places: seq<Node>) {
    var pool, count := region.allocator.pool, region.allocator.pageCount;
    && PageAligned(pool) && pool + count * PAGE_SIZE < VPN_LIMIT * PAGE_SIZE
    && places == PlacesFrom(pool, count) && Places(places)
  }

  lemma PlaceOfPage(region: AllocRegion, places: seq<Node>, p: nat, va: nat)
    requires Placed(region, places) && p < |places| && va == region.allocator.pool + p * PAGE_SIZE
    ensures places[p] == Place(va) && PageAligned(va) && va + PAGE_SIZE < WORD_LIMIT
  {
    PlacesFromAt(region.allocator.pool, |places|, p, va);
  }

  /** The pages that an allocation adds have frames that were free. */
  lemma NewPagesWereFree(mem0: Memory, free0: seq<Frame>, mem: Memory, root: Frame, pages: map<Node, Frame>,
                         pages': map<Node, Frame>,
                         places: seq<Node>, bits': seq<bool>, bits: seq<bool>, start: nat, n: nat, a: Attributes)
    requires Places(places) && start + n <= |places|
             && FreshRun(mem0, free0, mem, root, pages, pages', places, start, n, a)
    requires InRegion(places, bits, pages) && InRegion(places, bits', pages') && bits' == Mark(bits, start, n, true)
    ensures forall q :: q in pages ==> q in pages' && pages'[q] == pages[q]
    ensures forall q :: q in pages' && q !in pages ==> pages'[q] in free0
  {
    forall q | q in pages' && q !in pages ensures pages'[q] in free0 {
      var p :| 0 <= p < |places| && places[p] == q;
      assert bits'[p] && !bits[p];
      assert NewPage(mem, free0, root, pages', places[p], a);
    }
  }

  lemma AllocationConserves(mem0: Memory, free0: seq<Frame>, tables0: map<Node, Frame>, pages0: map<Node, Frame>,
                            mem: Memory, free: seq<Frame>, tables: map<Node, Frame>, pages: map<Node, Frame>,
                            root: Frame, bits: seq<bool>, places: seq<Node>, start: nat, n: nat, a: Attributes,
                            all: set<Node>)
    requires Owns(mem0, free0, root, tables0, pages0) && NoDuplicates(free0) && NoDuplicates(free)
    requires Places(places) && start + n <= |places| && InRegion(places, bits, pages0)
    requires Running(mem0, free0, tables0, pages0, mem, free, tables, pages, root, bits, places, start, n, a, all)
    ensures Exchanged(mem0, free0, FramesOf(tables0, pages0), {}, mem, free, FramesOf(tables, pages))
  {
    NewPagesWereFree(mem0, free0, mem, root, pages0, pages, places, Mark(bits, start, n, true), bits, start, n, a);
    GrowthConserves(mem0, free0, tables0, pages0, mem, free, tables, pages, all, n);
  }

  // ---- allocating pages -----------------------------------------------------------

  /** One turn of the allocation loop: a zeroed frame from the free list, mapped at `va`. */
  method AllocPage(m: Machine, root: Frame, ghost tables: map<Node, Frame>, ghost pages: map<Node, Frame>,
                   va: nat, a: Attributes, ghost n: Node, ghost all: set<Node>)
    returns (ghost tables': map<Node, Frame>, ghost f: Frame)
    requires m.Valid() && Owns(m.mem, m.free, root, tables, pages) && n == Place(va) && n !in pages
    requires PageAligned(va) && va + PAGE_SIZE < WORD_LIMIT
    requires HasPath(all, n) && 1 + Missing(all, tables) <= |m.free|
    modifies m
    ensures m.Valid() && Owns(m.mem, m.free, root, tables', pages[n := f])
    ensures PageAdded(old(m.mem), old(m.free), tables, m.mem, m.free, tables', root, f, n, a, all)
    ensures m.mem[f] == ZeroPage()
  {
    ghost var mem, free := m.mem, m.free;
    var pa := m.PmmAlloc();
    f := free[0];
    ghost var mem1 := m.mem;
    FreeFrameIsNew(mem, free, root, tables, pages, mem1);
    PageIsUnmapped(mem1, root, tables, pages, n);
    tables' := MapOne(m, root, tables, va, pa.value, a, n, f, all);
    OwnAfterAlloc(mem, free, tables, pages, mem1, m.mem, m.free, tables', root, n, a, all);
  }

  /** The same, as the `k`-th turn. */
  method AllocNext(m: Machine, root: Frame, ghost tables: map<Node, Frame>, ghost pages: map<Node, Frame>,
                   va: nat, a: Attributes, ghost region: AllocRegion,
                   ghost mem0: Memory, ghost free0: seq<Frame>, ghost tables0: map<Node, Frame>,
                   ghost pages0: map<Node, Frame>, ghost bits: seq<bool>, ghost places: seq<Node>,
                   ghost start: nat, ghost k: nat, ghost all: set<Node>)
    returns (ghost tables': map<Node, Frame>, ghost pages': map<Node, Frame>)
    requires m.Valid() && Places(places) && start + k < |places| && |bits| == |places| && !bits[start + k]
    requires Running(mem0, free0, tables0, pages0, m.mem, m.free, tables, pages, root, bits, places, start, k, a, all)
    requires Placed(region, places) && va == region.allocator.pool + (start + k) * PAGE_SIZE
    requires HasPath(all, places[start + k]) && k + 1 + Missing(all, tables0) <= |free0|
    modifies m
    ensures m.Valid()
    ensures Running(mem0, free0, tables0, pages0, m.mem, m.free, tables', pages', root, bits, places, start, k + 1, a,
                    all)
  {
    ghost var mem, free, n := m.mem, m.free, places[start + k];
    PlaceOfPage(region, places, start + k, va);
    GrewBudget(mem0, free0, tables0, mem, free, tables, all, k);
    assert n !in pages;
    ghost var f;
    tables', f := AllocPage(m, root, tables, pages, va, a, n, all);
    pages' := pages[n := f];
    RunningStep(mem0, free0, tables0, pages0, mem, free, tables, pages, m.mem, m.free, tables', f,
                root, bits, places, start, k, a, all);
  }

  /** The pages that an allocation of `n` would take all have the tables they need in `all`, and there
      are enough free frames for those tables and the pages themselves. */
  ghost predicate Enough(free: seq<Frame>, tables: map<Node, Frame>, bits: seq<bool>, places: seq<Node>, n: nat,
                         all: set<Node>)
    requires Places(places) && |bits| == |places|
  {
    && n + Missing(all, tables) <= |free|
    && forall s: nat, p: nat :: LowestRun(bits, s, n) && s <= p < s + n ==> HasPath(all, places[p])
  }

  /** The invariant: memory, tree, region table and bitmap tell one story. */
  ghost predicate InStep(m: Machine, root: Frame, region: AllocRegion, places: seq<Node>,
                         tables: map<Node, Frame>, pages: map<Node, Frame>)
    reads m, region.allocator.bitmap, region.allocations
  {
    && m.Valid() && region.Valid() && Placed(region, places)
    && Owns(m.mem, m.free, root, tables, pages)
    && InRegion(places, region.Bits(), pages)
  }

  /** The mapping loop of an allocation whose pages the region has just handed out. */
  method AllocLoop(m: Machine, root: Frame, region: AllocRegion, ghost places: seq<Node>,
                   ghost tables: map<Node, Frame>, ghost pages: map<Node, Frame>, va: nat, n: nat, a: Attributes,
                   ghost bits: seq<bool>, ghost start: nat, ghost all: set<Node>,
                   ghost mem0: Memory, ghost free0: seq<Frame>)
    returns (ghost tables': map<Node, Frame>, ghost pages': map<Node, Frame>)
    requires m.Valid() && Placed(region, places) && start + n <= |places| == |bits|
    requires Running(mem0, free0, tables, pages, m.mem, m.free, tables, pages, root, bits, places, start, 0, a, all)
    requires va == region.allocator.pool + start * PAGE_SIZE && n + Missing(all, tables) <= |free0|
    requires forall p :: start <= p < start + n ==> !bits[p] && HasPath(all, places[p])
    modifies m
    ensures m.Valid()
    ensures Running(mem0, free0, tables, pages, m.mem, m.free, tables', pages', root, bits, places, start, n, a, all)
  {
    tables', pages' := tables, pages;
    for page := 0 to n
      invariant m.Valid()
      invariant Running(mem0, free0, tables, pages, m.mem, m.free, tables', pages', root, bits, places, start, page, a,
                        all)
    {
      tables', pages' := AllocNext(m, root, tables', pages', va + page * PAGE_SIZE, a, region, mem0, free0, tables,
                                   pages, bits, places, start, page, all);
    }
  }

  lemma NothingYet(mem: Memory, free: seq<Frame>, tables: map<Node, Frame>, pages: map<Node, Frame>,
                   root: Frame, bits: seq<bool>, places: seq<Node>, start: nat, a: Attributes, all: set<Node>)
    requires Owns(mem, free, root, tables, pages) && InRegion(places, bits, pages) && Places(places)
    requires start <= |places|
    ensures Running(mem, free, tables, pages, mem, free, tables, pages, root, bits, places, start, 0, a, all)
  {
    MarkNone(bits, start, true);
  }

  method AllocPages(m: Machine, root: Frame, region: AllocRegion, ghost places: seq<Node>,
                    ghost tables: map<Node, Frame>,
                    ghost pages: map<Node, Frame>, va: nat, n: nat, a: Attributes,
                    ghost bits: seq<bool>, ghost start: nat, ghost all: set<Node>)
    returns (ghost tables': map<Node, Frame>, ghost pages': map<Node, Frame>)
    requires m.Valid() && Placed(region, places) && Owns(m.mem, m.free, root, tables, pages)
    requires InRegion(places, bits, pages) && FreeRun(bits, start, n) && va == region.allocator.pool + start * PAGE_SIZE
    requires n + Missing(all, tables) <= |m.free| && forall p :: start <= p < start + n ==> HasPath(all, places[p])
    modifies m
    ensures m.Valid()
    ensures Running(old(m.mem), old(m.free), tables, pages, m.mem, m.free, tables', pages', root, bits, places, start,
                    n, a, all)
    ensures Exchanged(old(m.mem), old(m.free), FramesOf(tables, pages), {}, m.mem, m.free, FramesOf(tables', pages'))
  {
    ghost var mem, free := m.mem, m.free;
    NothingYet(mem, free, tables, pages, root, bits, places, start, a, all);
    tables', pages' := AllocLoop(m, root, region, places, tables, pages, va, n, a, bits, start, all, mem, free);
    AllocationConserves(mem, free, tables, pages, m.mem, m.free, tables', pages', root, bits, places, start, n, a, all);
  }

  /** Everything that a successful allocation of `n` pages does: the lowest free run, from page `start`
      on, was taken, entered in `slot` and mapped to zeroed frames that were free. */
  ghost predicate AllocatedRun(pool: nat, bits: seq<bool>, allocs: seq<Allocation>, bits': seq<bool>,
                               allocs': seq<Allocation>,
                               mem: Memory, free: seq<Frame>, pages: map<Node, Frame>, mem': Memory,
                               pages': map<Node, Frame>,
                               root: Frame, places: seq<Node>, slot: nat, start: nat, n: nat, a: Attributes) {
    && LowestRun(bits, start, n)
    && Taken(pool, bits, allocs, bits', allocs', slot, start, n)
    && Places(places) && start + n <= |places|
    && FreshRun(mem, free, mem', root, pages, pages', places, start, n, a)
  }

  /** Allocates the lowest run of `size / PAGE_SIZE` free pages and maps each to a zeroed frame that
      was free; every other translation and every page owned before stay as they were. */
  method VmAlloc(m: Machine, root: Frame, size: nat, region: AllocRegion, a: Attributes, ghost places: seq<Node>,
                 ghost tables: map<Node, Frame>, ghost pages: map<Node, Frame>, ghost all: set<Node>)
    returns (r: Result<nat>, ghost tables': map<Node, Frame>, ghost pages': map<Node, Frame>, ghost slot: nat,
             ghost start: nat)
    requires size / PAGE_SIZE > 0 && InStep(m, root, region, places, tables, pages)
    requires Enough(m.free, tables, region.Bits(), places, size / PAGE_SIZE, all)
    modifies m, region.allocator.bitmap, region.allocations
    ensures InStep(m, root, region, places, tables', pages')
    ensures Exchanged(old(m.mem), old(m.free), FramesOf(tables, pages), {}, m.mem, m.free, FramesOf(tables', pages'))
    ensures r.Err? <==> Full(old(region.Table())) || NoRun(old(region.Bits()), size / PAGE_SIZE)
    ensures r.Err? ==> r == Err(ENOMEM) && tables' == tables && pages' == pages
                       && m.mem == old(m.mem) && m.free == old(m.free)
                       && region.Bits() == old(region.Bits()) && region.Table() == old(region.Table())
    ensures r.Ok? ==> r.value == region.allocator.pool + start * PAGE_SIZE
    ensures r.Ok? ==> AllocatedRun(region.allocator.pool, old(region.Bits()), old(region.Table()),
                                   region.Bits(), region.Table(),
                                   old(m.mem), old(m.free), pages, m.mem, pages',
                                   root, places, slot, start, size / PAGE_SIZE, a)
  {
    var n := size / PAGE_SIZE;
    ghost var bits := region.Bits();
    r, slot, start := region.Alloc(n);
    if r.Err? {
      return r, tables, pages, slot, start;
    }
    tables', pages' := AllocPages(m, root, region, places, tables, pages, r.value, n, a, bits, start, all);
  }

  // ---- freeing pages --------------------------------------------------------------

  /** `PagingUnmap` for a single page. */
  method UnmapOne(m: Machine, root: Frame, ghost tables: map<Node, Frame>, va: nat, ghost n: Node)
    requires TreeIn(m, root, tables) && n == Place(va) && Leaf(m.mem, root, n).valid
    requires PageAligned(va) && va + PAGE_SIZE < WORD_LIMIT
    modifies m
    ensures TreeIn(m, root, tables) && m.free == old(m.free)
    ensures Untouched(old(m.mem), m.mem, tables, []) && LeafSet(old(m.mem), m.mem, root, n, ZERO)
  {
    ghost var places := [n];
    SingletonPlaces(va, n, 0, 0);
    PagingUnmap(m, root, tables, va, PAGE_SIZE, places);
    assert Leaf(m.mem, root, places[0]) == ZERO;
    forall k | IsPlace(k) && k != n ensures Leaf(m.mem, root, k) == Leaf(old(m.mem), root, k) {
      assert !Among(k, places, 1);
    }
  }

  /** An owned page is looked up as a frame other than 0. */
  lemma LookupOwned(mem: Memory, free: seq<Frame>, root: Frame, tables: map<Node, Frame>, pages: map<Node, Frame>,
                    va: nat, n: Node)
    requires Owns(mem, free, root, tables, pages) && 0 !in mem && n == Place(va) && n in pages && PageAligned(va)
    ensures PhysicalAddress(mem, root, va) == pages[n] * PAGE_SIZE != 0
    ensures Leaf(mem, root, n).valid
  {
    LeafTableInTree(mem, root, tables, n);
    assert Maps(Leaf(mem, root, n), n, pages);
  }

  /** The page at `n` was unmapped and its frame put back. */
  ghost predicate PageRemoved(mem: Memory, free: seq<Frame>, mem': Memory, free': seq<Frame>, root: Frame,
                              tables: map<Node, Frame>, pages: map<Node, Frame>, n: Node)
    requires IsPlace(n) && n in pages
  {
    && free' == [pages[n]] + free && mem'.Keys == mem.Keys
    && LeafSet(mem, mem', root, n, ZERO)
    && forall g :: g in mem && NotTable(g, tables) && g != pages[n] ==> mem'[g] == mem[g]
  }

  /** One turn of the freeing loop. */
  method FreePage(m: Machine, root: Frame, ghost tables: map<Node, Frame>, ghost pages: map<Node, Frame>,
                  va: nat, ghost n: Node)
    requires m.Valid() && Owns(m.mem, m.free, root, tables, pages) && n == Place(va) && n in pages
    requires PageAligned(va) && va + PAGE_SIZE < WORD_LIMIT
    modifies m
    ensures m.Valid() && Owns(m.mem, m.free, root, tables, pages - {n})
    ensures PageRemoved(old(m.mem), old(m.free), m.mem, m.free, root, tables, pages, n)
  {
    LookupOwned(m.mem, m.free, root, tables, pages, va, n);
    var pa := PagingLookup(m, root, tables, va);
    if pa != 0 {
      UnmapOne(m, root, tables, va, n);
      ghost var mem1 := m.mem;
      m.PmmFreeFrame(pa, pages[n]);
      OwnOneLess(old(m.mem), old(m.free), mem1, m.mem, root, tables, pages, n);
    }
  }

  /** How far freeing has come: the bits of the pages done are clear, their frames are back on the free list,
      each once, and nothing else about the tree has changed. */
  ghost predicate Freeing(mem0: Memory, free0: seq<Frame>, pages0: map<Node, Frame>,
                          mem: Memory, free: seq<Frame>, pages: map<Node, Frame>, root: Frame, tables: map<Node, Frame>,
                          bits: seq<bool>, places: seq<Node>)
  {
    && Owns(mem, free, root, tables, pages)
    && InRegion(places, bits, pages)
    && GaveBack(mem0, free0, pages0, mem, free, pages, root, tables)
  }

  /** The pages in `pages0` but not in `pages` were unmapped and their frames freed. */
  ghost predicate GaveBack(mem0: Memory, free0: seq<Frame>, pages0: map<Node, Frame>,
                           mem: Memory, free: seq<Frame>, pages: map<Node, Frame>, root: Frame,
                           tables: map<Node, Frame>) {
    && (forall q :: q in pages ==> q in pages0 && pages[q] == pages0[q])
    && (forall f :: f in free <==> f in free0 || (f in pages0.Values && f !in pages.Values))
    && mem.Keys == mem0.Keys
    && (forall f :: f in mem && NotTable(f, tables) && (f in pages0.Values ==> f in pages.Values) ==> mem[f] == mem0[f])
    && (forall q :: IsPlace(q) && (q in pages0 ==> q in pages) ==> Leaf(mem, root, q) == Leaf(mem0, root, q))
  }

  lemma GaveBackOneMore(mem0: Memory, free0: seq<Frame>, pages0: map<Node, Frame>,
                        mem: Memory, free: seq<Frame>, pages: map<Node, Frame>, root: Frame, tables: map<Node, Frame>,
                        mem': Memory, free': seq<Frame>, n: Node)
    requires GaveBack(mem0, free0, pages0, mem, free, pages, root, tables)
    requires Injective(pages) && Injective(pages0) && IsPlace(n) && n in pages
    requires PageRemoved(mem, free, mem', free', root, tables, pages, n)
    ensures GaveBack(mem0, free0, pages0, mem', free', pages - {n}, root, tables)
  {
    ValuesWithout(pages, n);
    assert pages0[n] in pages0.Values;
  }

  lemma FreeingStep(mem0: Memory, free0: seq<Frame>, pages0: map<Node, Frame>,
                    mem: Memory, free: seq<Frame>, pages: map<Node, Frame>, root: Frame, tables: map<Node, Frame>,
                    mem': Memory, free': seq<Frame>, pages': map<Node, Frame>,
                    bits: seq<bool>, bits': seq<bool>, places: seq<Node>, p: nat)
    requires Places(places) && p < |places| && Injective(pages0)
    requires Freeing(mem0, free0, pages0, mem, free, pages, root, tables, bits, places)
    requires |bits| == |places| && bits' == bits[p := false]
    requires places[p] in pages && pages' == pages - {places[p]}
    requires Owns(mem', free', root, tables, pages')
    requires PageRemoved(mem, free, mem', free', root, tables, pages, places[p])
    ensures Freeing(mem0, free0, pages0, mem', free', pages', root, tables, bits', places)
  {
    GaveBackOneMore(mem0, free0, pages0, mem, free, pages, root, tables, mem', free', places[p]);
    InRegionRemove(places, bits, pages, p);
  }

  /** The same, as one turn of many. */
  method FreeNext(m: Machine, root: Frame, ghost region: AllocRegion, ghost places: seq<Node>,
                  ghost tables: map<Node, Frame>, ghost pages: map<Node, Frame>, va: nat,
                  ghost mem0: Memory, ghost free0: seq<Frame>, ghost pages0: map<Node, Frame>,
                  ghost bits: seq<bool>, ghost bits': seq<bool>, ghost p: nat)
    returns (ghost pages': map<Node, Frame>)
    requires m.Valid() && Placed(region, places) && p < |places| == |bits| && bits[p] && bits' == bits[p := false]
    requires va == region.allocator.pool + p * PAGE_SIZE && Injective(pages0)
    requires Freeing(mem0, free0, pages0, m.mem, m.free, pages, root, tables, bits, places)
    modifies m
    ensures m.Valid()
    ensures Freeing(mem0, free0, pages0, m.mem, m.free, pages', root, tables, bits', places)
  {
    ghost var n, mem, free := places[p], m.mem, m.free;
    PlaceOfPage(region, places, p, va);
    FreePage(m, root, tables, pages, va, n);
    pages' := pages - {n};
    FreeingStep(mem0, free0, pages0, mem, free, pages, root, tables, m.mem, m.free, pages', bits, bits', places, p);
  }

  method FreeTurn(m: Machine, root: Frame, ghost region: AllocRegion, ghost places: seq<Node>,
                  ghost tables: map<Node, Frame>, ghost pages: map<Node, Frame>, va: nat,
                  ghost mem0: Memory, ghost free0: seq<Frame>, ghost pages0: map<Node, Frame>,
                  ghost bits: seq<bool>, ghost start: nat, ghost k: nat)
    returns (ghost pages': map<Node, Frame>)
    requires m.Valid() && Placed(region, places) && start + k < |bits| == |places| && bits[start + k]
    requires va == region.allocator.pool + (start + k) * PAGE_SIZE && Injective(pages0)
    requires Freeing(mem0, free0, pages0, m.mem, m.free, pages, root, tables, Mark(bits, start, k, false), places)
    modifies m
    ensures m.Valid()
    ensures Freeing(mem0, free0, pages0, m.mem, m.free, pages', root, tables, Mark(bits, start, k + 1, false), places)
  {
    ghost var before, after := MarkTurn(bits, start, k, false, start + k);
    pages' := FreeNext(m, root, region, places, tables, pages, va, mem0, free0, pages0, before, after,
                       start + k);
  }

  method FreePages(m: Machine, root: Frame, ghost region: AllocRegion, ghost places: seq<Node>,
                   ghost tables: map<Node, Frame>,
                   ghost pages: map<Node, Frame>, va: nat, n: nat, ghost bits: seq<bool>, ghost start: nat)
    returns (ghost pages': map<Node, Frame>)
    requires m.Valid() && Placed(region, places) && Owns(m.mem, m.free, root, tables, pages)
    requires InRegion(places, bits, pages) && start + n <= |bits| && va == region.allocator.pool + start * PAGE_SIZE
    requires forall p :: start <= p < start + n ==> bits[p]
    modifies m
    ensures m.Valid()
    ensures Freeing(old(m.mem), old(m.free), pages, m.mem, m.free, pages', root, tables, Mark(bits, start, n, false),
                    places)
  {
    pages' := pages;
    MarkNone(bits, start, false);
    for page := 0 to n
      invariant m.Valid()
      invariant Freeing(old(m.mem), old(m.free), pages, m.mem, m.free, pages', root, tables,
                        Mark(bits, start, page, false), places)
    {
      pages' := FreeTurn(m, root, region, places, tables, pages', va + page * PAGE_SIZE, old(m.mem), old(m.free),
                         pages, bits, start, page);
    }
  }

  /** Frees the allocation at `addr`: exactly its pages are unmapped and their frames go back. */
  method VmFree(m: Machine, root: Frame, addr: nat, region: AllocRegion, ghost places: seq<Node>,
                ghost tables: map<Node, Frame>, ghost pages: map<Node, Frame>)
    returns (ghost pages': map<Node, Frame>, ghost slot: nat)
    requires InStep(m, root, region, places, tables, pages)
    requires addr != 0 && exists i :: 0 <= i < region.allocations.Length && region.allocations[i].va == addr
    modifies m, region.allocator.bitmap, region.allocations
    ensures InStep(m, root, region, places, tables, pages')
    ensures Returned(region.allocator.pool, old(region.Bits()), old(region.Table()),
                     region.Bits(), region.Table(), slot)
    ensures slot < region.allocations.Length && old(region.allocations[slot].va) == addr
    ensures GaveBack(old(m.mem), old(m.free), pages, m.mem, m.free, pages', root, tables)
    ensures Exchanged(old(m.mem), old(m.free), FramesOf(tables, pages), {}, m.mem, m.free, FramesOf(tables, pages'))
  {
    ghost var mem, free := m.mem, m.free;
    var entry := region.Find(addr);
    var n := region.allocations[entry.value].pageCount;
    ghost var bits, allocs := region.Bits(), region.Table();
    ghost var start := FirstPage(allocs[entry.value], region.allocator.pool);
    RangeIsMarked(region.allocator.pool, bits, allocs, entry.value);
    pages' := FreePages(m, root, region, places, tables, pages, addr, n, bits, start);
    var count;
    count, slot := region.Free(addr);
    SameSlot(region.allocator.pool, bits, allocs, entry.value, slot);
    GaveBackConserves(mem, free, pages, m.mem, m.free, pages', root, tables);
  }

  /** What a tree gives back is exactly what it no longer holds. */
  lemma GaveBackConserves(mem: Memory, free: seq<Frame>, pages: map<Node, Frame>, mem': Memory, free': seq<Frame>,
                          pages': map<Node, Frame>, root: Frame, tables: map<Node, Frame>)
    requires GaveBack(mem, free, pages, mem', free', pages', root, tables)
    ensures Exchanged(mem, free, FramesOf(tables, pages), {}, mem', free', FramesOf(tables, pages'))
  {
    ValuesWithin(pages', pages);
    forall f | f in mem && f !in free && f !in FramesOf(tables, pages) ensures mem'[f] == mem[f] {
      assert NotTable(f, tables);
    }
  }

  /** One turn of the freeing loop over the slots. */
  method FreeSlot(m: Machine, root: Frame, region: AllocRegion, ghost places: seq<Node>, ghost tables: map<Node, Frame>,
                  ghost pages: map<Node, Frame>, i: nat, ghost mem0: Memory, ghost free0: seq<Frame>,
                  ghost pages0: map<Node, Frame>)
    returns (ghost pages': map<Node, Frame>)
    requires InStep(m, root, region, places, tables, pages)
    requires i < region.allocations.Length && region.allocations[i].va != 0
    requires GaveBack(mem0, free0, pages0, m.mem, m.free, pages, root, tables)
    modifies m, region.allocator.bitmap, region.allocations
    ensures InStep(m, root, region, places, tables, pages')
    ensures GaveBack(mem0, free0, pages0, m.mem, m.free, pages', root, tables)
    ensures region.Table() == old(region.Table())[i := FREE]
  {
    ghost var mem, free, slot := m.mem, m.free, 0;
    ghost var bits, allocs := region.Bits(), region.Table();
    pages', slot := VmFree(m, root, region.allocations[i].va, region, places, tables, pages);
    SameSlot(region.allocator.pool, bits, allocs, i, slot);
    GaveBackTwice(mem0, free0, pages0, mem, free, pages, m.mem, m.free, pages', root, tables);
  }

  /** Frees every allocation of a region; what is left is a tree without pages. */
  method FreeAllSlots(m: Machine, root: Frame, region: AllocRegion, ghost places: seq<Node>,
                      ghost tables: map<Node, Frame>,
                      ghost pages: map<Node, Frame>)
    requires InStep(m, root, region, places, tables, pages)
    modifies m, region.allocator.bitmap, region.allocations
    ensures InStep(m, root, region, places, tables, map[])
    ensures GaveBack(old(m.mem), old(m.free), pages, m.mem, m.free, map[], root, tables)
  {
    ghost var left := pages;
    for i := 0 to region.allocations.Length
      invariant InStep(m, root, region, places, tables, left)
      invariant GaveBack(old(m.mem), old(m.free), pages, m.mem, m.free, left, root, tables)
      invariant forall j :: 0 <= j < i ==> region.Table()[j].va == 0
    {
      if region.allocations[i].va != 0 {
        left := FreeSlot(m, root, region, places, tables, left, i, old(m.mem), old(m.free), pages);
      }
    }
    NothingMarked(region.allocator.pool, region.Bits(), region.Table(), places, left);
  }

  lemma GaveBackTwice(mem0: Memory, free0: seq<Frame>, pages0: map<Node, Frame>,
                      mem1: Memory, free1: seq<Frame>, pages1: map<Node, Frame>,
                      mem2: Memory, free2: seq<Frame>, pages2: map<Node, Frame>, root: Frame, tables: map<Node, Frame>)
    requires GaveBack(mem0, free0, pages0, mem1, free1, pages1, root, tables)
    requires GaveBack(mem1, free1, pages1, mem2, free2, pages2, root, tables)
    ensures GaveBack(mem0, free0, pages0, mem2, free2, pages2, root, tables)
  {
    ValuesWithin(pages1, pages0);
    ValuesWithin(pages2, pages1);
  }

  lemma ValuesWithin(m: map<Node, Frame>, m': map<Node, Frame>)
    requires forall n :: n in m ==> n in m' && m'[n] == m[n]
    ensures forall f :: f in m.Values ==> f in m'.Values
  {
    forall f | f in m.Values ensures f in m'.Values {
      var n :| n in m && m[n] == f;
      assert n in m';
    }
  }

  /** With every slot empty no bit is set, so no page is owned. */
  lemma NothingMarked(pool: nat, bits: seq<bool>, allocs: seq<Allocation>, places: seq<Node>, pages: map<Node, Frame>)
    requires Agree(pool, bits, allocs) && forall i :: 0 <= i < |allocs| ==> allocs[i].va == 0
    requires InRegion(places, bits, pages)
    ensures pages == map[]
  {
    forall p | 0 <= p < |places| ensures places[p] !in pages {
      assert !Covered(pool, allocs, p);
    }
  }

  lemma SameSlot(pool: nat, bits: seq<bool>, allocs: seq<Allocation>, i: nat, j: nat)
    requires Agree(pool, bits, allocs) && i < |allocs| && j < |allocs| && allocs[i].va == allocs[j].va != 0
    ensures i == j
  {
    if i < j { AddressesDiffer(pool, bits, allocs, i, j); }
    if j < i { AddressesDiffer(pool, bits, allocs, j, i); }
  }
}
