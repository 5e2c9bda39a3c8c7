/** Mapping a run of frames that the caller hands over. */
module MapOwned {
  import opened Collections
  import opened Results
  import opened Descriptors
  import opened Frames
  import opened PageTree
  import opened Paging
  import opened Ownership
  import opened Growth
  import opened Bitmap
  import opened Region
  import opened Vmm

  /** `pages` with the first `k` places of `run` mapped to the frames from `frame` on. */
  ghost function AddRange(pages: map<Node, Frame>, run: seq<Node>, frame: nat, k: nat): map<Node, Frame>
    requires k <= |run| && frame + |run| <= VPN_LIMIT
  {
    if k == 0 then pages else AddRange(pages, run, frame, k - 1)[run[k - 1] := frame + k - 1]
  }

  /** What `AddRange` is, place by place. */
  ghost predicate RangeAdded(pages: map<Node, Frame>, pages': map<Node, Frame>, run: seq<Node>, frame: nat, k: nat)
    requires k <= |run|
  {
    && (forall j :: 0 <= j < k ==> run[j] in pages' && pages'[run[j]] == frame + j)
    && (forall q :: q in pages && !Among(q, run, k) ==> q in pages' && pages'[q] == pages[q])
    && (forall q :: q in pages' ==> q in pages || Among(q, run, k))
  }

  lemma {:induction false} AddRangeIs(pages: map<Node, Frame>, run: seq<Node>, frame: nat, k: nat)
    requires Places(run) && k <= |run| && frame + |run| <= VPN_LIMIT
    ensures RangeAdded(pages, AddRange(pages, run, frame, k), run, frame, k)
  {
    if k > 0 {
      AddRangeIs(pages, run, frame, k - 1);
      var was, now := AddRange(pages, run, frame, k - 1), AddRange(pages, run, frame, k);
      forall j | 0 <= j < k ensures run[j] in now && now[run[j]] == frame + j {
        if j < k - 1 { assert run[j] != run[k - 1]; }
      }
      forall q | q in now ensures q in pages || Among(q, run, k) {
        if q != run[k - 1] { assert q in was; }
      }
      forall q | q in pages && !Among(q, run, k) ensures q in now && now[q] == pages[q] {
        assert q != run[k - 1] && !Among(q, run, k - 1);
      }
    }
  }

  /** `n` frames that are held, but not by this tree. */
  ghost predicate Handed(mem: Memory, free: seq<Frame>, tables: map<Node, Frame>, pages: map<Node, Frame>, frame: nat,
                         n: nat)
  {
    && frame + n <= VPN_LIMIT
    && forall f: Frame :: frame <= f < frame + n ==> f in mem && f !in free && !Holds(tables, pages, f)
  }

  lemma RangeMaps(mem: Memory, mem': Memory, root: Frame, tables: map<Node, Frame>, tables': map<Node, Frame>,
                  pages: map<Node, Frame>, pages': map<Node, Frame>, run: seq<Node>, frame: nat, a: Attributes)
    requires Mapping(mem, root, tables, pages) && Tree(mem', root, tables')
    requires Places(run) && frame + |run| <= VPN_LIMIT && RangeMapped(mem, mem', root, run, |run|, frame, a)
    requires RangeAdded(pages, pages', run, frame, |run|)
    ensures Mapping(mem', root, tables', pages')
  {
    forall k | IsPlace(k) ensures Maps(Leaf(mem', root, k), k, pages') {
      assert Maps(Leaf(mem, root, k), k, pages);
    }
    forall k | k in pages' ensures IsPlace(k) && k.parent in tables' {
      LeafTableInTree(mem', root, tables', k);
      assert Maps(Leaf(mem', root, k), k, pages');
    }
  }

  lemma OwnRange(mem: Memory, free: seq<Frame>, mem': Memory, free': seq<Frame>, root: Frame,
                 tables: map<Node, Frame>, tables': map<Node, Frame>, pages: map<Node, Frame>, pages': map<Node, Frame>,
                 run: seq<Node>, frame: nat, a: Attributes)
    requires Owns(mem, free, root, tables, pages) && Places(run) && Handed(mem, free, tables, pages, frame, |run|)
    requires HeldTree(mem', free', root, tables') && Extended(mem, free, mem', free', tables, tables')
    requires RangeMapped(mem, mem', root, run, |run|, frame, a)
    requires RangeAdded(pages, pages', run, frame, |run|)
    ensures Owns(mem', free', root, tables', pages')
  {
    RangeMaps(mem, mem', root, tables, tables', pages, pages', run, frame, a);
    OwnPagesRange(mem, free, mem', free', tables, tables', pages, pages', run, frame);
  }

  lemma OwnPagesRange(mem: Memory, free: seq<Frame>, mem': Memory, free': seq<Frame>,
                      tables: map<Node, Frame>, tables': map<Node, Frame>, pages: map<Node, Frame>,
                      pages': map<Node, Frame>,
                      run: seq<Node>, frame: nat)
    requires OwnPages(mem, free, tables, pages) && Handed(mem, free, tables, pages, frame, |run|)
    requires Extended(mem, free, mem', free', tables, tables')
    requires RangeAdded(pages, pages', run, frame, |run|)
    ensures OwnPages(mem', free', tables', pages')
  {
    RangeInjective(mem, free, tables, pages, pages', run, frame);
    assert forall g :: g in free' ==> g in free;
    forall q | q in pages' ensures pages'[q] in mem' && pages'[q] !in free' && NotTable(pages'[q], tables') {
      RangePageHeld(mem, free, tables, pages, pages', run, frame, q);
      NewTablesApart(free, tables, tables', pages'[q]);
    }
  }

  lemma RangePageHeld(mem: Memory, free: seq<Frame>, tables: map<Node, Frame>, pages: map<Node, Frame>,
                      pages': map<Node, Frame>, run: seq<Node>, frame: nat, q: Node)
    requires OwnPages(mem, free, tables, pages) && Handed(mem, free, tables, pages, frame, |run|)
    requires RangeAdded(pages, pages', run, frame, |run|) && q in pages'
    ensures pages'[q] in mem && pages'[q] !in free && NotTable(pages'[q], tables)
  {
    if Among(q, run, |run|) {
      var f := pages'[q];
      assert !Holds(tables, pages, f);
    }
  }

  lemma NewTablesApart(free: seq<Frame>, tables: map<Node, Frame>, tables': map<Node, Frame>, f: Frame)
    requires f !in free && NotTable(f, tables)
    requires forall n :: n in tables' && n in tables ==> tables'[n] == tables[n]
    requires forall n :: n in tables' && n !in tables ==> tables'[n] in free
    ensures NotTable(f, tables')
  {
  }

  lemma RangeInjective(mem: Memory, free: seq<Frame>, tables: map<Node, Frame>, pages: map<Node, Frame>,
                       pages': map<Node, Frame>, run: seq<Node>, frame: nat)
    requires Injective(pages) && Handed(mem, free, tables, pages, frame, |run|)
    requires RangeAdded(pages, pages', run, frame, |run|)
    ensures Injective(pages')
  {
    forall q | q in pages' ensures Among(q, run, |run|) <==> frame <= pages'[q] < frame + |run| {
      if !Among(q, run, |run|) { assert Holds(tables, pages, pages[q]); }
    }
  }

  /** The run's places in the region: where they start and how many there are. */
  lemma RunPlaces(region: AllocRegion, places: seq<Node>, va: nat, start: nat, n: nat)
    requires Placed(region, places) && va == region.allocator.pool + start * PAGE_SIZE && start + n <= |places|
    ensures places[start..start + n] == PlacesFrom(va, n) && Places(places[start..start + n])
    ensures PageAligned(va) && va < WORD_LIMIT && n * PAGE_SIZE < WORD_LIMIT && PageCount(va, n * PAGE_SIZE) == n
  {
    var run := places[start..start + n];
    forall k | 0 <= k < n ensures run[k] == PlacesFrom(va, n)[k] {
      PlacesFromAt(region.allocator.pool, |places|, start + k, va + k * PAGE_SIZE);
    }
  }

  lemma RangeInRegion(places: seq<Node>, bits: seq<bool>, pages: map<Node, Frame>, pages': map<Node, Frame>,
                      start: nat, n: nat, run: seq<Node>, frame: nat)
    requires Places(places) && InRegion(places, bits, pages) && start + n <= |places| && run == places[start..start + n]
    requires RangeAdded(pages, pages', run, frame, n)
    ensures InRegion(places, Mark(bits, start, n, true), pages')
  {
    forall p | 0 <= p < |places| ensures Among(places[p], run, n) <==> start <= p < start + n {
      if start <= p < start + n { assert run[p - start] == places[p]; }
    }
  }

  /** Nothing in a free run is mapped. */
  lemma FreeRunUnmapped(mem: Memory, root: Frame, tables: map<Node, Frame>, pages: map<Node, Frame>,
                        places: seq<Node>, bits: seq<bool>, start: nat, n: nat, run: seq<Node>)
    requires Mapping(mem, root, tables, pages) && Places(places) && InRegion(places, bits, pages)
             && FreeRun(bits, start, n)
    requires run == places[start..start + n] && Places(run)
    ensures forall k :: 0 <= k < n ==> !Leaf(mem, root, run[k]).valid
  {
    forall k | 0 <= k < n ensures !Leaf(mem, root, run[k]).valid {
      PageIsUnmapped(mem, root, tables, pages, places[start + k]);
    }
  }

  /** When `n` given frames join a tree, only tables leave the free list. */
  lemma RangeConserves(mem: Memory, free: seq<Frame>, tables: map<Node, Frame>, pages: map<Node, Frame>,
                       mem': Memory, free': seq<Frame>, tables': map<Node, Frame>, pages': map<Node, Frame>,
                       run: seq<Node>, frame: nat, given: set<Frame>)
    requires OwnPages(mem, free, tables, pages) && NoDuplicates(free) && NoDuplicates(free')
    requires Extended(mem, free, mem', free', tables, tables') && Injective(tables')
    requires forall n :: n in tables' ==> tables'[n] !in free'
    requires RangeAdded(pages, pages', run, frame, |run|) && frame + |run| <= VPN_LIMIT
    requires forall q :: q in pages ==> !Among(q, run, |run|)
    requires forall f :: f in given <==> frame <= f < frame + |run|
    ensures Exchanged(mem, free, FramesOf(tables, pages), given, mem', free', FramesOf(tables', pages'))
  {
    var t := NewValues(tables, tables');
    ElementsSize(free);
    ElementsSize(free');
    assert t <= Elements(free) by {
      forall f | f in t ensures f in free { var n :| n in tables' && n !in tables && tables'[n] == f; }
    }
    assert Elements(free') !! t;
    ThreeParts(Elements(free), Elements(free'), t, {});
    assert forall f :: f in free <==> f in Elements(free);
    RangeValues(pages, pages', run, frame, given);
    forall f | f in mem && f !in free && f !in FramesOf(tables, pages) ensures mem'[f] == mem[f] {
      assert NotTable(f, tables);
    }
  }

  lemma RangeValues(pages: map<Node, Frame>, pages': map<Node, Frame>, run: seq<Node>, frame: nat, given: set<Frame>)
    requires RangeAdded(pages, pages', run, frame, |run|) && frame + |run| <= VPN_LIMIT
    requires forall q :: q in pages ==> !Among(q, run, |run|)
    requires forall f :: f in given <==> frame <= f < frame + |run|
    ensures forall f :: f in pages'.Values <==> f in pages.Values || f in given
  {
    forall f | f in pages.Values ensures f in pages'.Values {
      var q :| q in pages && pages[q] == f;
      assert q in pages' && pages'[q] == f;
    }
    forall f | f in given ensures f in pages'.Values {
      var j := f - frame;
      assert run[j] in pages' && pages'[run[j]] == f;
    }
    forall f | f in pages'.Values ensures f in pages.Values || f in given {
      var q :| q in pages' && pages'[q] == f;
      if !Among(q, run, |run|) { assert pages[q] == f; }
    }
  }

  ghost function GivenFrames(frame: nat, n: nat): (s: set<Frame>)
    requires frame + n <= VPN_LIMIT
    ensures forall f: Frame :: f in s <==> frame <= f < frame + n
  {
    if n == 0 then {} else GivenFrames(frame, n - 1) + {frame + n - 1}
  }

  /** The places of a free run are not owned yet. */
  lemma RunIsNew(places: seq<Node>, bits: seq<bool>, pages: map<Node, Frame>, start: nat, n: nat, run: seq<Node>)
    requires InRegion(places, bits, pages) && FreeRun(bits, start, n) && run == places[start..start + n]
    ensures forall q :: q in pages ==> !Among(q, run, |run|)
  {
    forall q | q in pages ensures !Among(q, run, |run|) {
      forall j | 0 <= j < |run| ensures run[j] != q { assert run[j] == places[start + j]; }
    }
  }

  /** After a run of handed frames is mapped, they belong to the tree and to the region's marked pages. */
  lemma RunOwned(mem: Memory, free: seq<Frame>, mem': Memory, free': seq<Frame>, root: Frame,
                 tables: map<Node, Frame>, tables': map<Node, Frame>, pages: map<Node, Frame>, pages': map<Node, Frame>,
                 places: seq<Node>, bits: seq<bool>, start: nat, n: nat, run: seq<Node>, frame: nat, a: Attributes,
                 all: set<Node>)
    requires AddsWithin(tables, tables', all)
    requires Owns(mem, free, root, tables, pages) && NoDuplicates(free) && NoDuplicates(free')
    requires Places(places) && InRegion(places, bits, pages) && FreeRun(bits, start, n)
    requires run == places[start..start + n] && Places(run) && Handed(mem, free, tables, pages, frame, n)
    requires HeldTree(mem', free', root, tables') && Extended(mem, free, mem', free', tables, tables')
    requires RangeMapped(mem, mem', root, run, n, frame, a) && pages' == AddRange(pages, run, frame, n)
    ensures Owns(mem', free', root, tables', pages') && InRegion(places, Mark(bits, start, n, true), pages')
    ensures Exchanged(mem, free, FramesOf(tables, pages), GivenFrames(frame, n), mem', free', FramesOf(tables', pages'))
    ensures Grew(mem, free, tables, mem', free', tables', all, 0)
  {
    assert |run| == n;
    assert forall f :: f in free' ==> f in free;
    AddRangeIs(pages, run, frame, |run|);
    OwnRange(mem, free, mem', free', root, tables, tables', pages, pages', run, frame, a);
    RangeInRegion(places, bits, pages, pages', start, n, run, frame);
    RunIsNew(places, bits, pages, start, n, run);
    RangeConserves(mem, free, tables, pages, mem', free', tables', pages', run, frame, GivenFrames(frame, n));
  }

  /** The mapping of a run that the region has just reserved. */
  method MapRun(m: Machine, root: Frame, ghost region: AllocRegion, ghost places: seq<Node>,
                ghost tables: map<Node, Frame>,
                ghost pages: map<Node, Frame>, va: Word, pa: Word, size: Word, a: Attributes,
                ghost bits: seq<bool>, ghost start: nat, ghost n: nat, ghost frame: nat, ghost run: seq<Node>,
                ghost all: set<Node>)
    returns (err: int, ghost tables': map<Node, Frame>, ghost pages': map<Node, Frame>)
    requires m.Valid() && Placed(region, places) && Owns(m.mem, m.free, root, tables, pages)
    requires InRegion(places, bits, pages) && FreeRun(bits, start, n) && run == places[start..start + n] && Places(run)
    requires va == region.allocator.pool + start * PAGE_SIZE && size == n * PAGE_SIZE && pa == frame * PAGE_SIZE
    requires Handed(m.mem, m.free, tables, pages, frame, n)
    requires HasPaths(all, run) && Missing(all, tables) <= |m.free|
    modifies m
    ensures m.Valid() && err == EOK && pages' == AddRange(pages, run, frame, n)
    ensures Owns(m.mem, m.free, root, tables', pages') && InRegion(places, Mark(bits, start, n, true), pages')
    ensures Exchanged(old(m.mem), old(m.free), FramesOf(tables, pages), GivenFrames(frame, n), m.mem, m.free,
                      FramesOf(tables', pages'))
    ensures RangeMapped(old(m.mem), m.mem, root, run, n, frame, a)
    ensures Grew(old(m.mem), old(m.free), tables, m.mem, m.free, tables', all, 0)
  {
    ghost var mem, free := m.mem, m.free;
    RunPlaces(region, places, va, start, n);
    FrameOf(pa, frame);
    FreeRunUnmapped(mem, root, tables, pages, places, bits, start, n, run);
    err, tables' := PagingMap(m, root, tables, va, pa, size, a, all, run);
    pages' := AddRange(pages, run, frame, n);
    RunOwned(mem, free, m.mem, m.free, root, tables, tables', pages, pages', places, bits, start, n, run, frame, a,
             all);
  }

  /** Everything that a successful owned mapping does: `n` pages from page `start` were taken, entered in
      `slot` and mapped to the frames from `frame` on; besides those only tables left the free list. */
  ghost predicate TakenOver(pool: nat, bits: seq<bool>, allocs: seq<Allocation>, bits': seq<bool>,
                            allocs': seq<Allocation>,
                            mem: Memory, free: seq<Frame>, tables: map<Node, Frame>, pages: map<Node, Frame>,
                            mem': Memory, free': seq<Frame>, tables': map<Node, Frame>, pages': map<Node, Frame>,
                            root: Frame, places: seq<Node>, slot: nat, start: nat, n: nat, frame: nat, a: Attributes) {
    && Taken(pool, bits, allocs, bits', allocs', slot, start, n)
    && start + n <= |places| && Places(places[start..start + n]) && frame + n <= VPN_LIMIT
    && pages' == AddRange(pages, places[start..start + n], frame, n)
    && RangeMapped(mem, mem', root, places[start..start + n], n, frame, a)
    && Exchanged(mem, free, FramesOf(tables, pages), GivenFrames(frame, n), mem', free', FramesOf(tables', pages'))
  }

  /** Reserves the range and maps the frames there; both happen or neither. */
  method ReserveAndMap(m: Machine, root: Frame, region: AllocRegion, ghost places: seq<Node>,
                       ghost tables: map<Node, Frame>,
                       ghost pages: map<Node, Frame>, va: Word, pa: Word, size: Word, n: nat, a: Attributes,
                       ghost start: nat, ghost frame: nat, ghost all: set<Node>)
    returns (err: int, ghost slot: nat, ghost tables': map<Node, Frame>, ghost pages': map<Node, Frame>)
    requires InStep(m, root, region, places, tables, pages)
    requires size == n * PAGE_SIZE && pa == frame * PAGE_SIZE && n > 0 && region.InPool(va, n)
    requires start == (va - region.allocator.pool) / PAGE_SIZE
    requires Handed(m.mem, m.free, tables, pages, frame, n) && Missing(all, tables) <= |m.free|
    requires forall p :: start <= p < start + n && p < |places| ==> HasPath(all, places[p])
    modifies m, region.allocator.bitmap, region.allocations
    ensures InStep(m, root, region, places, tables', pages')
    ensures err == EOK || err == ENOMEM
    ensures err == ENOMEM <==> Full(old(region.Table())) || !FreeRun(old(region.Bits()), start, n)
    ensures err == ENOMEM ==> tables' == tables && pages' == pages && m.mem == old(m.mem) && m.free == old(m.free)
                              && region.Bits() == old(region.Bits()) && region.Table() == old(region.Table())
    ensures err == EOK ==> TakenOver(region.allocator.pool, old(region.Bits()), old(region.Table()),
                                     region.Bits(), region.Table(),
                                     old(m.mem), old(m.free), tables, pages, m.mem, m.free, tables', pages',
                                     root, places, slot, start, n, frame, a)
    ensures err == EOK ==> Grew(old(m.mem), old(m.free), tables, m.mem, m.free, tables', all, 0)
  {
    tables', pages' := tables, pages;
    ghost var bits := region.Bits();
    err, slot := region.Reserve(va, n);
    if err != EOK {
      return;
    }
    RunPlaces(region, places, va, start, n);
    err, tables', pages' := MapRun(m, root, region, places, tables, pages, va, pa, size, a,
                                   bits, start, n, frame, places[start..start + n], all);
  }

  lemma FrameOf(pa: nat, frame: nat)
    requires pa == frame * PAGE_SIZE
    ensures pa / PAGE_SIZE == frame && PageAligned(pa)
  {
  }
}
