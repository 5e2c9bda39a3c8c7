/** Copying the pages of one address space into another. */
module Fork {
  import opened Collections
  import opened Results
  import opened Descriptors
  import opened Frames
  import opened PageTree
  import opened TableWords
  import opened Paging
  import opened Ownership
  import opened Growth
  import opened Bitmap
  import opened Region
  import opened Vmm

  /** Every page of the copy is a page of the original: at the same place, with the same permissions
      and attributes, and with the same contents in a frame that was free. */
  ghost predicate CopiedPages(mem0: Memory, free0: seq<Frame>, mem: Memory, src: Frame, srcPages: map<Node, Frame>,
                              dst: Frame, dstPages: map<Node, Frame>) {
    forall q :: q in dstPages ==> q in srcPages && CopiedPage(mem0, free0, mem, src, srcPages[q], dst, dstPages[q], q)
  }

  ghost predicate CopiedPage(mem0: Memory, free0: seq<Frame>, mem: Memory, src: Frame, from: Frame,
                             dst: Frame, to: Frame, q: Node) {
    && IsPlace(q) && to in free0 && to in mem && from in mem0
    && mem[to] == mem0[from]
    && Leaf(mem, dst, q) == PageEntry(to, AttributesOf(Leaf(mem0, src, q)))
  }

  /** The tables of a tree that has just been made. */
  ghost function OnlyRoot(root: Frame): map<Node, Frame> { map[Root := root] }

  /** The original as it was when copying began, and the new tree's root apart from it. */
  ghost predicate Original(mem0: Memory, free0: seq<Frame>, src: Frame, srcTables: map<Node, Frame>,
                           srcPages: map<Node, Frame>, dst: Frame) {
    && Owns(mem0, free0, src, srcTables, srcPages)
    && dst !in free0 && !Holds(srcTables, srcPages, dst)
  }

  /** How far copying has come: the places of set bits in `done` are copied. */
  ghost predicate Copying(mem0: Memory, free0: seq<Frame>, src: Frame, srcTables: map<Node, Frame>,
                          srcPages: map<Node, Frame>,
                          mem: Memory, free: seq<Frame>, dst: Frame, dstTables: map<Node, Frame>,
                          dstPages: map<Node, Frame>,
                          places: seq<Node>, done: seq<bool>) {
    && Owns(mem, free, dst, dstTables, dstPages)
    && Grew(mem0, free0, OnlyRoot(dst), mem, free, dstTables, srcTables.Keys, |dstPages|)
    && CopiedPages(mem0, free0, mem, src, srcPages, dst, dstPages)
    && InRegion(places, done, dstPages)
  }

  /** The original keeps its tables, its pages and their contents. */
  lemma OriginalStays(mem0: Memory, free0: seq<Frame>, src: Frame, srcTables: map<Node, Frame>,
                      srcPages: map<Node, Frame>,
                      mem: Memory, free: seq<Frame>, dst: Frame, dstTables: map<Node, Frame>, taken: nat)
    requires Original(mem0, free0, src, srcTables, srcPages, dst)
    requires Grew(mem0, free0, OnlyRoot(dst), mem, free, dstTables, srcTables.Keys, taken)
    ensures Owns(mem, free, src, srcTables, srcPages) && SameLeaves(mem0, mem, src)
    ensures forall f :: f in mem0 && Holds(srcTables, srcPages, f) ==> mem[f] == mem0[f]
  {
    forall f | f in mem0 && Holds(srcTables, srcPages, f) ensures f !in free && mem[f] == mem0[f] {
      assert f !in free0 && f != dst;
      assert NotTable(f, OnlyRoot(dst));
    }
    forall n | n in srcTables ensures mem[srcTables[n]] == mem0[srcTables[n]] {
      assert Holds(srcTables, srcPages, srcTables[n]);
    }
    OwnsFrame(mem0, free0, mem, free, src, srcTables, srcPages);
  }

  /** There is a frame for the next page and one for every table it may need. */
  lemma RoomToCopy(mem0: Memory, free0: seq<Frame>, src: Frame, srcTables: map<Node, Frame>, srcPages: map<Node, Frame>,
                   mem: Memory, free: seq<Frame>, dst: Frame, dstTables: map<Node, Frame>, dstPages: map<Node, Frame>,
                   n: Node)
    requires Original(mem0, free0, src, srcTables, srcPages, dst)
    requires Grew(mem0, free0, OnlyRoot(dst), mem, free, dstTables, srcTables.Keys, |dstPages|)
    requires |srcTables| + |srcPages| <= |free0| + 1
    requires (forall q :: q in dstPages ==> q in srcPages) && n in srcPages && n !in dstPages
    ensures 1 + Missing(srcTables.Keys, dstTables) <= |free|
    ensures IsPlace(n) && HasPath(srcTables.Keys, n)
  {
    GrewBudget(mem0, free0, OnlyRoot(dst), mem, free, dstTables, srcTables.Keys, |dstPages|);
    Fewer(srcPages.Keys, dstPages.Keys, n);
    MissingAllButRoot(srcTables, dst);
    assert n.parent in srcTables;
    assert n.parent.parent in srcTables;
  }

  lemma Fewer<T>(s: set<T>, t: set<T>, x: T)
    requires t <= s && x in s && x !in t
    ensures |t| + 1 <= |s|
  {
    assert |s - t| > 0 by { assert x in s - t; }
    DisjointSum(t, s - t, s);
  }

  lemma MissingAllButRoot(tables: map<Node, Frame>, root: Frame)
    requires Root in tables
    ensures Missing(tables.Keys, OnlyRoot(root)) + 1 == |tables|
  {
    DisjointSum(tables.Keys - {Root}, {Root}, tables.Keys);
    assert tables.Keys - OnlyRoot(root).Keys == tables.Keys - {Root};
  }

  lemma CopyOneMore(mem0: Memory, free0: seq<Frame>, src: Frame, srcPages: map<Node, Frame>,
                    mem: Memory, free: seq<Frame>, mem': Memory, free': seq<Frame>,
                    dst: Frame, dstTables: map<Node, Frame>, dstTables': map<Node, Frame>,
                    dstPages: map<Node, Frame>, n: Node, f: Frame, a: Attributes, all: set<Node>)
    requires CopiedPages(mem0, free0, mem, src, srcPages, dst, dstPages)
    requires n in srcPages && n !in dstPages && IsPlace(n) && a == AttributesOf(Leaf(mem0, src, n))
    requires PageAdded(mem, free, dstTables, mem', free', dstTables', dst, f, n, a, all)
    requires f in free0 && srcPages[n] in mem0 && mem'[f] == mem0[srcPages[n]]
    requires forall q :: q in dstPages ==> dstPages[q] in mem' && mem'[dstPages[q]] == mem[dstPages[q]]
    ensures CopiedPages(mem0, free0, mem', src, srcPages, dst, dstPages[n := f])
  {
    var dstPages' := dstPages[n := f];
    forall q | q in dstPages'
      ensures q in srcPages && CopiedPage(mem0, free0, mem', src, srcPages[q], dst, dstPages'[q], q)
    {
      if q != n { assert CopiedPage(mem0, free0, mem, src, srcPages[q], dst, dstPages[q], q); }
    }
  }

  lemma CopyingStep(mem0: Memory, free0: seq<Frame>, src: Frame, srcTables: map<Node, Frame>,
                    srcPages: map<Node, Frame>,
                    mem: Memory, free: seq<Frame>, mem': Memory, free': seq<Frame>,
                    dst: Frame, dstTables: map<Node, Frame>, dstTables': map<Node, Frame>, dstPages: map<Node, Frame>,
                    places: seq<Node>, done: seq<bool>, p: nat, f: Frame, a: Attributes)
    requires Original(mem0, free0, src, srcTables, srcPages, dst) && Places(places)
    requires Copying(mem0, free0, src, srcTables, srcPages, mem, free, dst, dstTables, dstPages, places, done)
    requires p < |places| && places[p] in srcPages && places[p] !in dstPages
    requires a == AttributesOf(Leaf(mem0, src, places[p]))
    requires Owns(mem', free', dst, dstTables', dstPages[places[p] := f])
    requires PageAdded(mem, free, dstTables, mem', free', dstTables', dst, f, places[p], a, srcTables.Keys)
    requires mem'[f] == mem0[srcPages[places[p]]]
    ensures Copying(mem0, free0, src, srcTables, srcPages, mem', free', dst, dstTables', dstPages[places[p] := f],
                    places, done[p := true])
  {
    var n := places[p];
    OwnedPagesStay(mem, free, dstTables, dstPages, dst, mem', free', dstTables', srcTables.Keys, 1);
    CopyOneMore(mem0, free0, src, srcPages, mem, free, mem', free', dst, dstTables, dstTables', dstPages, n, f, a,
                srcTables.Keys);
    GrewTwice(mem0, free0, OnlyRoot(dst), mem, free, dstTables, mem', free', dstTables', srcTables.Keys, |dstPages|, 1);
    InRegionAdd(places, done, dstPages, p, f);
    OneMoreKey(dstPages, n, f);
  }

  /** What the original's descriptor for an owned page says. */
  method SourcePage(m: Machine, src: Frame, ghost srcTables: map<Node, Frame>, ghost srcPages: map<Node, Frame>,
                    va: nat, ghost n: Node)
    returns (d: Descriptor)
    requires m.Valid() && Owns(m.mem, m.free, src, srcTables, srcPages) && n == Place(va) && n in srcPages
    modifies m
    ensures m.mem == old(m.mem) && m.free == old(m.free) && m.Valid()
    ensures d == Leaf(m.mem, src, n) && d.valid && d.table && d.address == srcPages[n]
  {
    LeafTableInTree(m.mem, src, srcTables, n);
    assert Maps(Leaf(m.mem, src, n), n, srcPages);
    var pde := PagingLookupDesc(m, src, srcTables, va, n);
    return m.mem[pde.value.0][pde.value.1];
  }

  /** A frame from the free list with the contents of page `from`. */
  method DuplicatePage(m: Machine, from: Frame) returns (pa: nat)
    requires m.Valid() && m.free != [] && from in m.mem && from != m.free[0]
    modifies m
    ensures m.Valid() && pa == old(m.free[0]) * PAGE_SIZE && m.free == old(m.free)[1..]
    ensures FirstTaken(old(m.mem), old(m.free), m.mem) && m.mem[old(m.free[0])] == old(m.mem)[from]
  {
    ghost var f := m.free[0];
    assert f in m.free;
    var r := m.PmmAlloc();
    var to: Frame := r.value / PAGE_SIZE;
    assert to == f;
    m.CopyPage(to, from);
    return r.value;
  }

  /** Reads the original's descriptor, copies the page into a frame from the free list, maps that. */
  method CopyPage(m: Machine, src: Frame, ghost srcTables: map<Node, Frame>, ghost srcPages: map<Node, Frame>,
                  dst: Frame, ghost dstTables: map<Node, Frame>, ghost dstPages: map<Node, Frame>,
                  va: nat, ghost n: Node, ghost all: set<Node>)
    returns (ghost dstTables': map<Node, Frame>, ghost f: Frame)
    requires m.Valid() && Owns(m.mem, m.free, src, srcTables, srcPages) && Owns(m.mem, m.free, dst, dstTables, dstPages)
    requires n == Place(va) && n in srcPages && n !in dstPages && PageAligned(va) && va + PAGE_SIZE < WORD_LIMIT
    requires HasPath(all, n) && 1 + Missing(all, dstTables) <= |m.free|
    modifies m
    ensures m.Valid() && Owns(m.mem, m.free, dst, dstTables', dstPages[n := f])
    ensures PageAdded(old(m.mem), old(m.free), dstTables, m.mem, m.free, dstTables', dst, f, n,
                      AttributesOf(Leaf(old(m.mem), src, n)), all)
    ensures srcPages[n] in old(m.mem) && m.mem[f] == old(m.mem)[srcPages[n]]
  {
    ghost var mem, free := m.mem, m.free;
    OwnedIsNotFirst(mem, free, src, srcTables, srcPages, n);
    var d := SourcePage(m, src, srcTables, srcPages, va, n);
    if d.valid && d.table {
      var pa := DuplicatePage(m, d.address);
      f := free[0];
      ghost var mem1 := m.mem;
      FreeFrameIsNew(mem, free, dst, dstTables, dstPages, mem1);
      PageIsUnmapped(mem1, dst, dstTables, dstPages, n);
      dstTables' := MapOne(m, dst, dstTables, va, pa, AttributesOf(d), n, f, all);
      OwnAfterAlloc(mem, free, dstTables, dstPages, mem1, m.mem, m.free, dstTables', dst, n, AttributesOf(d), all);
    }
  }

  lemma OwnedIsNotFirst(mem: Memory, free: seq<Frame>, root: Frame, tables: map<Node, Frame>, pages: map<Node, Frame>,
                        n: Node)
    requires Owns(mem, free, root, tables, pages) && n in pages && free != []
    ensures pages[n] in mem && pages[n] != free[0]
  {
    assert free[0] in free;
  }

  /** The same for page `p` of the region, as one more step of copying. */
  method CopyNext(m: Machine, ghost mem0: Memory, ghost free0: seq<Frame>,
                  src: Frame, ghost srcTables: map<Node, Frame>, ghost srcPages: map<Node, Frame>,
                  dst: Frame, ghost dstTables: map<Node, Frame>, ghost dstPages: map<Node, Frame>,
                  va: nat, ghost region: AllocRegion, ghost places: seq<Node>,
                  ghost done: seq<bool>, ghost done': seq<bool>, ghost p: nat)
    returns (ghost dstTables': map<Node, Frame>, ghost dstPages': map<Node, Frame>)
    requires m.Valid() && Original(mem0, free0, src, srcTables, srcPages, dst) && Placed(region, places)
    requires Copying(mem0, free0, src, srcTables, srcPages, m.mem, m.free, dst, dstTables, dstPages, places, done)
    requires |srcTables| + |srcPages| <= |free0| + 1
    requires p < |done| && !done[p] && done' == done[p := true]
    requires p < |places| && places[p] in srcPages && va == region.allocator.pool + p * PAGE_SIZE
    modifies m
    ensures m.Valid()
    ensures Copying(mem0, free0, src, srcTables, srcPages, m.mem, m.free, dst, dstTables', dstPages', places, done')
  {
    ghost var mem, free, n := m.mem, m.free, places[p];
    PlaceOfPage(region, places, p, va);
    OriginalStays(mem0, free0, src, srcTables, srcPages, mem, free, dst, dstTables, |dstPages|);
    RoomToCopy(mem0, free0, src, srcTables, srcPages, mem, free, dst, dstTables, dstPages, n);
    assert Holds(srcTables, srcPages, srcPages[n]);
    ghost var f;
    dstTables', f := CopyPage(m, src, srcTables, srcPages, dst, dstTables, dstPages, va, n, srcTables.Keys);
    dstPages' := dstPages[n := f];
    CopyingStep(mem0, free0, src, srcTables, srcPages, mem, free, m.mem, m.free, dst, dstTables, dstTables', dstPages,
                places, done, p, f, AttributesOf(Leaf(mem0, src, n)));
  }

  /** The same for page `start + k`, when the `k` pages from `start` on are done. */
  method CopyTurn(m: Machine, ghost mem0: Memory, ghost free0: seq<Frame>,
                  src: Frame, ghost srcTables: map<Node, Frame>, ghost srcPages: map<Node, Frame>,
                  dst: Frame, ghost dstTables: map<Node, Frame>, ghost dstPages: map<Node, Frame>,
                  va: nat, ghost region: AllocRegion, ghost places: seq<Node>, ghost done: seq<bool>,
                  ghost start: nat, ghost k: nat, ghost p: nat)
    returns (ghost dstTables': map<Node, Frame>, ghost dstPages': map<Node, Frame>)
    requires m.Valid() && Original(mem0, free0, src, srcTables, srcPages, dst) && Placed(region, places)
    requires Copying(mem0, free0, src, srcTables, srcPages, m.mem, m.free, dst, dstTables, dstPages, places,
                     Mark(done, start, k, true))
    requires |srcTables| + |srcPages| <= |free0| + 1
    requires p == start + k < |done| == |places| && !done[p] && places[p] in srcPages
    requires va == region.allocator.pool + p * PAGE_SIZE
    modifies m
    ensures m.Valid()
    ensures Copying(mem0, free0, src, srcTables, srcPages, m.mem, m.free, dst, dstTables', dstPages', places,
                    Mark(done, start, k + 1, true))
  {
    ghost var before, after := MarkTurn(done, start, k, true, p);
    dstTables', dstPages' := CopyNext(m, mem0, free0, src, srcTables, srcPages, dst, dstTables, dstPages,
                                      va, region, places, before, after, p);
  }

  /** The inner loop: the `n` pages of one allocation. */
  method CopyPages(m: Machine, ghost mem0: Memory, ghost free0: seq<Frame>,
                   src: Frame, ghost srcTables: map<Node, Frame>, ghost srcPages: map<Node, Frame>,
                   dst: Frame, ghost dstTables: map<Node, Frame>, ghost dstPages: map<Node, Frame>,
                   va: nat, n: nat, ghost region: AllocRegion, ghost places: seq<Node>, ghost done: seq<bool>,
                   ghost start: nat)
    returns (ghost dstTables': map<Node, Frame>, ghost dstPages': map<Node, Frame>)
    requires m.Valid() && Original(mem0, free0, src, srcTables, srcPages, dst) && Placed(region, places)
    requires Copying(mem0, free0, src, srcTables, srcPages, m.mem, m.free, dst, dstTables, dstPages, places,
                     Mark(done, start, 0, true))
    requires |srcTables| + |srcPages| <= |free0| + 1
    requires va == region.allocator.pool + start * PAGE_SIZE
    requires start + n <= |done| == |places|
    requires forall p :: start <= p < start + n ==> !done[p] && places[p] in srcPages
    modifies m
    ensures m.Valid()
    ensures Copying(mem0, free0, src, srcTables, srcPages, m.mem, m.free, dst, dstTables', dstPages', places,
                    Mark(done, start, n, true))
  {
    dstTables', dstPages' := dstTables, dstPages;
    for page := 0 to n
      invariant m.Valid()
      invariant Copying(mem0, free0, src, srcTables, srcPages, m.mem, m.free, dst, dstTables', dstPages', places,
                        Mark(done, start, page, true))
    {
      dstTables', dstPages' := CopyTurn(m, mem0, free0, src, srcTables, srcPages, dst, dstTables', dstPages',
                                        va + page * PAGE_SIZE, region, places, done, start, page, start + page);
    }
  }

  /** The same from the bits of the pages done so far. */
  method CopyAllocation(m: Machine, ghost mem0: Memory, ghost free0: seq<Frame>,
                        src: Frame, ghost srcTables: map<Node, Frame>, ghost srcPages: map<Node, Frame>,
                        dst: Frame, ghost dstTables: map<Node, Frame>, ghost dstPages: map<Node, Frame>,
                        va: nat, n: nat, ghost region: AllocRegion, ghost places: seq<Node>, ghost done: seq<bool>,
                        ghost start: nat)
    returns (ghost dstTables': map<Node, Frame>, ghost dstPages': map<Node, Frame>)
    requires m.Valid() && Original(mem0, free0, src, srcTables, srcPages, dst) && Placed(region, places)
    requires Copying(mem0, free0, src, srcTables, srcPages, m.mem, m.free, dst, dstTables, dstPages, places, done)
    requires |srcTables| + |srcPages| <= |free0| + 1
    requires n > 0 ==> va == region.allocator.pool + start * PAGE_SIZE
    requires |done| == |places| && FreeRun(done, start, n)
    requires forall p :: start <= p < start + n ==> places[p] in srcPages
    modifies m
    ensures m.Valid()
    ensures Copying(mem0, free0, src, srcTables, srcPages, m.mem, m.free, dst, dstTables', dstPages', places,
                    Mark(done, start, n, true))
  {
    MarkNone(done, start, true);
    if n == 0 {
      return dstTables, dstPages;
    }
    dstTables', dstPages' := CopyPages(m, mem0, free0, src, srcTables, srcPages, dst, dstTables, dstPages, va, n,
                                       region, places, done, start);
  }

  // ---- which pages the first slots cover ------------------------------------------

  ghost function BitsOf(pool: nat, allocs: seq<Allocation>, i: nat, count: nat): (r: seq<bool>)
    requires i <= |allocs|
    ensures |r| == count && forall p :: 0 <= p < count ==> (r[p] <==> Covered(pool, allocs[..i], p))
  {
    seq(count, p requires 0 <= p < count => Covered(pool, allocs[..i], p))
  }

  ghost function StartOf(a: Allocation, pool: nat): nat { if a.va < pool then 0 else FirstPage(a, pool) }

  lemma SlotCovers(pool: nat, bits: seq<bool>, allocs: seq<Allocation>, i: nat)
    requires Agree(pool, bits, allocs) && i < |allocs|
    ensures var a := allocs[i]; var start := StartOf(a, pool);
            && (a.pageCount > 0 ==> a.va == pool + start * PAGE_SIZE)
            && start + a.pageCount <= |bits|
            && forall p: nat :: Covers(a, pool, p) <==> start <= p < start + a.pageCount
  {
    var a := allocs[i];
    assert WellPlaced(a, pool, |bits|);
    forall p: nat ensures Covers(a, pool, p) <==> StartOf(a, pool) <= p < StartOf(a, pool) + a.pageCount {
      if a.va != 0 { CoversItsPages(a, pool, |bits|, p); }
    }
  }

  /** One more slot marks exactly its own pages, and they were not marked before. */
  lemma NextSlot(pool: nat, bits: seq<bool>, allocs: seq<Allocation>, i: nat)
    requires Agree(pool, bits, allocs) && i < |allocs|
    ensures var a := allocs[i]; var start := StartOf(a, pool); var done := BitsOf(pool, allocs, i, |bits|);
            && FreeRun(done, start, a.pageCount)
            && Mark(done, start, a.pageCount, true) == BitsOf(pool, allocs, i + 1, |bits|)
            && forall p: nat :: start <= p < start + a.pageCount ==> bits[p]
  {
    var a := allocs[i];
    var start := StartOf(a, pool);
    SlotCovers(pool, bits, allocs, i);
    forall p: nat | p < |bits|
      ensures Covered(pool, allocs[..i + 1], p) <==> Covered(pool, allocs[..i], p) || Covers(a, pool, p)
      ensures !(Covered(pool, allocs[..i], p) && Covers(a, pool, p))
      ensures Covers(a, pool, p) ==> bits[p]
    {
      if Covers(a, pool, p) { assert Covers(allocs[..i + 1][i], pool, p); }
      if Covered(pool, allocs[..i], p) {
        var j :| 0 <= j < i && Covers(allocs[..i][j], pool, p);
        assert Covers(allocs[..i + 1][j], pool, p);
        assert Disjoint(allocs[j], a, pool, |bits|);
      }
      if Covered(pool, allocs[..i + 1], p) {
        var j :| 0 <= j < i + 1 && Covers(allocs[..i + 1][j], pool, p);
        if j < i { assert Covers(allocs[..i][j], pool, p); }
      }
    }
  }

  lemma AllSlots(pool: nat, bits: seq<bool>, allocs: seq<Allocation>)
    requires Agree(pool, bits, allocs)
    ensures BitsOf(pool, allocs, |allocs|, |bits|) == bits
  {
    assert allocs[..|allocs|] == allocs;
  }

  /** Nothing is copied yet. */
  lemma NothingCopied(mem: Memory, free: seq<Frame>, src: Frame, srcTables: map<Node, Frame>,
                      srcPages: map<Node, Frame>,
                      dst: Frame, places: seq<Node>, pool: nat, allocs: seq<Allocation>)
    requires Owns(mem, free, dst, OnlyRoot(dst), map[])
    ensures Copying(mem, free, src, srcTables, srcPages, mem, free, dst, OnlyRoot(dst), map[], places,
                    BitsOf(pool, allocs, 0, |places|))
  {
  }

  /** Copies every page of every allocation of the original. */
  method CopyMappings(m: Machine, src: Frame, srcRegion: AllocRegion, ghost places: seq<Node>,
                      ghost srcTables: map<Node, Frame>, ghost srcPages: map<Node, Frame>, dst: Frame)
    returns (err: int, ghost dstTables: map<Node, Frame>, ghost dstPages: map<Node, Frame>)
    requires InStep(m, src, srcRegion, places, srcTables, srcPages)
    requires Original(m.mem, m.free, src, srcTables, srcPages, dst)
    requires Owns(m.mem, m.free, dst, OnlyRoot(dst), map[])
    requires |srcTables| + |srcPages| <= |m.free| + 1
    modifies m
    ensures m.Valid() && err == EOK
    ensures srcRegion.Bits() == old(srcRegion.Bits()) && srcRegion.Table() == old(srcRegion.Table())
    ensures Copying(old(m.mem), old(m.free), src, srcTables, srcPages, m.mem, m.free, dst, dstTables, dstPages,
                    places, old(srcRegion.Bits()))
  {
    ghost var mem0, free0 := m.mem, m.free;
    ghost var pool, bits, allocs := srcRegion.allocator.pool, srcRegion.Bits(), srcRegion.allocations[..];
    dstTables, dstPages := OnlyRoot(dst), map[];
    NothingCopied(mem0, free0, src, srcTables, srcPages, dst, places, pool, allocs);
    for i := 0 to srcRegion.allocations.Length
      invariant m.Valid()
      invariant Copying(mem0, free0, src, srcTables, srcPages, m.mem, m.free, dst, dstTables, dstPages, places,
                        BitsOf(pool, allocs, i, |bits|))
    {
      SlotCovers(pool, bits, allocs, i);
      NextSlot(pool, bits, allocs, i);
      dstTables, dstPages := CopyAllocation(m, mem0, free0, src, srcTables, srcPages, dst, dstTables, dstPages,
                                            srcRegion.allocations[i].va, srcRegion.allocations[i].pageCount,
                                            srcRegion, places, BitsOf(pool, allocs, i, |bits|),
                                            StartOf(allocs[i], pool));
    }
    AllSlots(pool, bits, allocs);
    return EOK, dstTables, dstPages;
  }

  // ---- the result -----------------------------------------------------------------

  /** The exact and isolated copy: the original's tree, pages and contents are what they were; the new
      tree has a copy of every page; all it holds was free, and nothing else left the free list. */
  ghost predicate Forked(mem0: Memory, free0: seq<Frame>, mem: Memory, free: seq<Frame>,
                         src: Frame, srcTables: map<Node, Frame>, srcPages: map<Node, Frame>,
                         dst: Frame, dstTables: map<Node, Frame>, dstPages: map<Node, Frame>) {
    && Unharmed(mem0, mem, free, src, srcTables, srcPages)
    && Owns(mem, free, dst, dstTables, dstPages)
    && (forall q :: q in dstPages <==> q in srcPages) && (forall n :: n in dstTables ==> n in srcTables)
    && CopiedPages(mem0, free0, mem, src, srcPages, dst, dstPages)
    && Exchanged(mem0, free0, {}, {}, mem, free, FramesOf(dstTables, dstPages))
  }

  ghost predicate Unharmed(mem0: Memory, mem: Memory, free: seq<Frame>, src: Frame, srcTables: map<Node, Frame>,
                           srcPages: map<Node, Frame>) {
    && Owns(mem, free, src, srcTables, srcPages) && SameLeaves(mem0, mem, src)
    && forall f :: f in mem0 && Holds(srcTables, srcPages, f) ==> f in mem && mem[f] == mem0[f]
  }

  /** Word for word: the copy of a page has the permissions, memory type and shareability of the original, the access
      flag, the same contents, and a frame of its own. */
  lemma ForkReadsAlike(mem0: Memory, free0: seq<Frame>, mem: Memory, free: seq<Frame>,
                       src: Frame, srcTables: map<Node, Frame>, srcPages: map<Node, Frame>,
                       dst: Frame, dstTables: map<Node, Frame>, dstPages: map<Node, Frame>, va: nat)
    requires Owns(mem0, free0, src, srcTables, srcPages)
    requires Forked(mem0, free0, mem, free, src, srcTables, srcPages, dst, dstTables, dstPages)
    ensures Walk(mem, src, va) == Walk(mem0, src, va)
    ensures Walk(mem, dst, va).Some? <==> Walk(mem0, src, va).Some?
    ensures Walk(mem0, src, va).Some? ==>
              var f, g := Walk(mem0, src, va).value, Walk(mem, dst, va).value;
              var d, e := Leaf(mem0, src, Place(va)), Leaf(mem, dst, Place(va));
              && f in mem0 && f !in free0 && g in free0 && g in mem && mem[g] == mem0[f]
              && e.valid && e.table && e.af && e.ap == d.ap && e.attrIndex == d.attrIndex && e.sh == d.sh
              && e.pxn == d.pxn && e.uxn == d.uxn
  {
    WalkIsLeaf(mem0, src, srcTables, srcPages, va);
    WalkIsLeaf(mem, src, srcTables, srcPages, va);
    WalkIsLeaf(mem, dst, dstTables, dstPages, va);
    if Place(va) in srcPages {
      assert CopiedPage(mem0, free0, mem, src, srcPages[Place(va)], dst, dstPages[Place(va)], Place(va));
    }
  }

  /** The step from before the new root table was taken. */
  lemma ForkedFrom(mem0: Memory, free0: seq<Frame>, mem1: Memory, mem: Memory, free: seq<Frame>,
                   src: Frame, srcTables: map<Node, Frame>, srcPages: map<Node, Frame>,
                   dst: Frame, dstTables: map<Node, Frame>, dstPages: map<Node, Frame>,
                   places: seq<Node>, bits: seq<bool>)
    requires Owns(mem0, free0, src, srcTables, srcPages) && InRegion(places, bits, srcPages)
    requires FirstTaken(mem0, free0, mem1) && NoDuplicates(free) && dst == free0[0]
    requires Owns(mem1, free0[1..], dst, OnlyRoot(dst), map[])
    requires Copying(mem1, free0[1..], src, srcTables, srcPages, mem, free, dst, dstTables, dstPages, places, bits)
    ensures Forked(mem0, free0, mem, free, src, srcTables, srcPages, dst, dstTables, dstPages)
  {
    FreeFrameIsNew(mem0, free0, src, srcTables, srcPages, mem1);
    assert dst in free0;
    OriginalStays(mem1, free0[1..], src, srcTables, srcPages, mem, free, dst, dstTables, |dstPages|);
    UnharmedFrom(mem0, free0, mem1, mem, free, src, srcTables, srcPages);
    CopiedFrom(mem0, free0, mem1, mem, src, srcTables, srcPages, dst, dstPages);
    ConservedFrom(mem0, free0, mem1, mem, free, src, srcTables, srcPages, dst, dstTables, dstPages);
    CopiedEverywhere(places, bits, srcPages, dstPages);
  }

  lemma UnharmedFrom(mem0: Memory, free0: seq<Frame>, mem1: Memory, mem: Memory, free: seq<Frame>,
                     src: Frame, srcTables: map<Node, Frame>, srcPages: map<Node, Frame>)
    requires Owns(mem0, free0, src, srcTables, srcPages)
    requires FirstTaken(mem0, free0, mem1) && SameLeaves(mem0, mem1, src)
    requires Unharmed(mem1, mem, free, src, srcTables, srcPages)
    ensures Unharmed(mem0, mem, free, src, srcTables, srcPages)
  {
    assert free0[0] in free0;
  }

  lemma CopiedFrom(mem0: Memory, free0: seq<Frame>, mem1: Memory, mem: Memory,
                   src: Frame, srcTables: map<Node, Frame>, srcPages: map<Node, Frame>, dst: Frame,
                   dstPages: map<Node, Frame>)
    requires Owns(mem0, free0, src, srcTables, srcPages)
    requires FirstTaken(mem0, free0, mem1) && SameLeaves(mem0, mem1, src)
    requires CopiedPages(mem1, free0[1..], mem, src, srcPages, dst, dstPages)
    ensures CopiedPages(mem0, free0, mem, src, srcPages, dst, dstPages)
  {
    forall q | q in dstPages ensures CopiedPage(mem0, free0, mem, src, srcPages[q], dst, dstPages[q], q) {
      assert CopiedPage(mem1, free0[1..], mem, src, srcPages[q], dst, dstPages[q], q);
      OwnedIsNotFirst(mem0, free0, src, srcTables, srcPages, q);
    }
  }

  lemma ConservedFrom(mem0: Memory, free0: seq<Frame>, mem1: Memory, mem: Memory, free: seq<Frame>,
                      src: Frame, srcTables: map<Node, Frame>, srcPages: map<Node, Frame>,
                      dst: Frame, dstTables: map<Node, Frame>, dstPages: map<Node, Frame>)
    requires FirstTaken(mem0, free0, mem1) && NoDuplicates(free) && dst == free0[0]
    requires Owns(mem, free, dst, dstTables, dstPages)
    requires Grew(mem1, free0[1..], OnlyRoot(dst), mem, free, dstTables, srcTables.Keys, |dstPages|)
    requires CopiedPages(mem1, free0[1..], mem, src, srcPages, dst, dstPages)
    ensures Exchanged(mem0, free0, {}, {}, mem, free, FramesOf(dstTables, dstPages))
  {
    CopiesWereFree(mem1, free0[1..], mem, src, srcPages, dst, dstPages);
    TailHasNoDuplicates(free0);
    GrowthConserves(mem1, free0[1..], OnlyRoot(dst), map[], mem, free, dstTables, dstPages, srcTables.Keys, |dstPages|);
    ConservedWithRoot(mem0, free0, mem1, mem, free, FramesOf(dstTables, dstPages));
  }

  lemma TailHasNoDuplicates(s: seq<Frame>)
    requires NoDuplicates(s) && s != []
    ensures NoDuplicates(s[1..])
  {
  }

  lemma ConservedWithRoot(mem0: Memory, free0: seq<Frame>, mem1: Memory, mem: Memory, free: seq<Frame>,
                          held: set<Frame>)
    requires FirstTaken(mem0, free0, mem1)
    requires Exchanged(mem1, free0[1..], FramesOf(OnlyRoot(free0[0]), map[]), {}, mem, free, held)
    ensures Exchanged(mem0, free0, {}, {}, mem, free, held)
  {
    var root := OnlyRoot(free0[0]);
    assert root[Root] == free0[0];
    assert forall f :: f in FramesOf(root, map[]) <==> f == free0[0];
    assert forall f :: f in free0 <==> f == free0[0] || f in free0[1..];
  }

  lemma CopiesWereFree(mem0: Memory, free0: seq<Frame>, mem: Memory, src: Frame, srcPages: map<Node, Frame>,
                       dst: Frame, dstPages: map<Node, Frame>)
    requires CopiedPages(mem0, free0, mem, src, srcPages, dst, dstPages)
    ensures forall q :: q in dstPages ==> dstPages[q] in free0
  {
    forall q | q in dstPages ensures dstPages[q] in free0 {
      assert CopiedPage(mem0, free0, mem, src, srcPages[q], dst, dstPages[q], q);
    }
  }

  lemma CopiedEverywhere(places: seq<Node>, bits: seq<bool>, srcPages: map<Node, Frame>, dstPages: map<Node, Frame>)
    requires InRegion(places, bits, srcPages) && InRegion(places, bits, dstPages)
    ensures forall q :: q in dstPages <==> q in srcPages
  {
  }

  /** Copying, from right after the new root table was taken to the end. */
  method CopyAddressSpace(m: Machine, src: Frame, srcRegion: AllocRegion, dst: Frame, ghost places: seq<Node>,
                          ghost srcTables: map<Node, Frame>, ghost srcPages: map<Node, Frame>,
                          ghost mem0: Memory, ghost free0: seq<Frame>, ghost bits: seq<bool>,
                          ghost allocs: seq<Allocation>)
    returns (err: int, ghost dstTables: map<Node, Frame>, ghost dstPages: map<Node, Frame>)
    requires m.Valid() && srcRegion.Is(bits, allocs) && Placed(srcRegion, places)
    requires Owns(mem0, free0, src, srcTables, srcPages) && InRegion(places, bits, srcPages)
    requires FirstTaken(mem0, free0, m.mem) && m.free == free0[1..] && dst == free0[0]
    requires Owns(m.mem, m.free, dst, OnlyRoot(dst), map[])
    requires |srcTables| + |srcPages| <= |free0|
    modifies m
    ensures m.Valid() && err == EOK && InRegion(places, bits, dstPages)
    ensures srcRegion.Is(bits, allocs)
    ensures Forked(mem0, free0, m.mem, m.free, src, srcTables, srcPages, dst, dstTables, dstPages)
  {
    ghost var mem1 := m.mem;
    FreeFrameIsNew(mem0, free0, src, srcTables, srcPages, mem1);
    err, dstTables, dstPages := CopyMappings(m, src, srcRegion, places, srcTables, srcPages, dst);
    ForkedFrom(mem0, free0, mem1, m.mem, m.free, src, srcTables, srcPages, dst, dstTables, dstPages, places, bits);
  }
}
