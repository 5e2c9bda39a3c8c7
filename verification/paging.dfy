/** The operations on translation tables. */
module Paging {
  import opened Descriptors
  import opened Results
  import opened Frames
  import opened PageTree
  import opened TableWords

  ghost predicate TreeIn(m: Machine, root: Frame, tables: map<Node, Frame>)
    reads m
  {
    m.Valid() && HeldTree(m.mem, m.free, root, tables)
  }

  method PagingCreateTable(m: Machine) returns (r: Result<Frame>)
    requires m.Valid()
    modifies m
    ensures m.Valid()
    ensures old(m.free) == [] ==> r == Err(ENOMEM) && m.mem == old(m.mem) && m.free == []
    ensures old(m.free) != [] ==>
              && r == Ok(old(m.free)[0]) && m.free == old(m.free)[1..]
              && m.mem == old(m.mem)[r.value := ZeroPage()]
              && TreeIn(m, r.value, map[Root := r.value])
              && (forall n :: IsPlace(n) ==> Leaf(m.mem, r.value, n) == ZERO)
  {
    var pa := m.PmmAlloc();
    if pa.Err? {
      return Err(pa.errno);
    }
    var td: Frame := pa.value / PAGE_SIZE;
    ghost var tables := map[Root := td];
    forall n | IsPlace(n) ensures Leaf(m.mem, td, n) == ZERO {
      LeafTableInTree(m.mem, td, tables, n);
    }
    return Ok(td);
  }

  /** The table that entry `i` of the table at `n` leads to, made on demand when asked.  `all` holds
      the tables that may still have to be made. */
  method TableNextTable(m: Machine, ghost root: Frame, ghost tables: map<Node, Frame>, ghost n: Node,
                        f: Frame, i: nat, allocate: bool, ghost all: set<Node>)
    returns (r: Result<Frame>, ghost tables': map<Node, Frame>)
    requires TreeIn(m, root, tables)
    requires n in tables && Level(n) < 3 && tables[n] == f && i < ENTRIES
    requires allocate ==> Child(n, i) in all && Missing(all, tables) <= |m.free|
    modifies m
    ensures TreeIn(m, root, tables') && AddsWithin(tables, tables', all)
    ensures !allocate ==> |m.free| == |old(m.free)|
    ensures allocate ==> Child(n, i) in tables' && Missing(all, tables') <= |m.free|
    ensures r == if Child(n, i) in tables' then Ok(tables'[Child(n, i)]) else Err(ENOMEM)
    ensures Grown(old(m.mem), old(m.free), m.mem, m.free, root, tables, tables')
  {
    tables' := tables;
    assert Linked(m.mem[f][i], Child(n, i), tables);
    if m.mem[f][i].valid {
      return Ok(m.mem[f][i].address), tables;
    }
    if !allocate {
      return Err(ENOMEM), tables;
    }
    NotFull(all, Child(n, i), tables, |m.free|);
    r, tables' := LinkNewTable(m, root, tables, n, f, i);
    Budget(all, tables, |old(m.free)|, tables', |m.free|);
  }

  method LinkNewTable(m: Machine, ghost root: Frame, ghost tables: map<Node, Frame>, ghost n: Node, f: Frame, i: nat)
    returns (r: Result<Frame>, ghost tables': map<Node, Frame>)
    requires TreeIn(m, root, tables) && m.free != []
    requires n in tables && Level(n) < 3 && tables[n] == f && i < ENTRIES && Child(n, i) !in tables
    modifies m
    ensures m.Valid() && m.free == old(m.free)[1..]
    ensures tables' == tables[Child(n, i) := old(m.free)[0]] && r == Ok(tables'[Child(n, i)])
    ensures HeldTree(m.mem, m.free, root, tables')
    ensures Grown(old(m.mem), old(m.free), m.mem, m.free, root, tables, tables')
  {
    var pa := m.PmmAlloc();
    var page: Frame := pa.value / PAGE_SIZE;
    m.Store(f, i, ZERO.(valid := true, table := true, address := page));
    GrowStep(old(m.mem), old(m.free), root, tables, n, i, m.mem);
    return Ok(page), tables[Child(n, i) := page];
  }

  /** The three steps of a walk towards place `n`. */
  method WalkLevels(m: Machine, root: Frame, ghost tables: map<Node, Frame>, i0: nat, i1: nat, i2: nat, allocate: bool,
                    ghost n: Node, ghost all: set<Node>)
    returns (r: Result<Frame>, ghost tables': map<Node, Frame>)
    requires TreeIn(m, root, tables) && IsPlace(n)
    requires i0 == n.parent.parent.parent.index && i1 == n.parent.parent.index && i2 == n.parent.index
    requires allocate ==> HasPath(all, n) && Missing(all, tables) <= |m.free|
    modifies m
    ensures TreeIn(m, root, tables') && AddsWithin(tables, tables', all)
    ensures !allocate ==> |m.free| == |old(m.free)|
    ensures r == if n.parent in tables' then Ok(tables'[n.parent]) else Err(ENOMEM)
    ensures allocate ==> n.parent in tables'
    ensures Grown(old(m.mem), old(m.free), m.mem, m.free, root, tables, tables')
  {
    ghost var n3, n2, n1 := n.parent, n.parent.parent, n.parent.parent.parent;
    ghost var tables1, tables2;
    var l1, l2;
    l1, tables1 := TableNextTable(m, root, tables, Root, root, i0, allocate, all);
    if l1.Err? {
      assert n2 !in tables1 && n3 !in tables1;
      return Err(l1.errno), tables1;
    }
    ghost var mem1, free1 := m.mem, m.free;
    l2, tables2 := TableNextTable(m, root, tables1, n1, l1.value, i1, allocate, all);
    GrownTwice(old(m.mem), old(m.free), mem1, free1, m.mem, m.free, root, tables, tables1, tables2);
    if l2.Err? {
      assert n3 !in tables2;
      return Err(l2.errno), tables2;
    }
    ghost var mem2, free2 := m.mem, m.free;
    r, tables' := TableNextTable(m, root, tables2, n2, l2.value, i2, allocate, all);
    GrownTwice(old(m.mem), old(m.free), mem2, free2, m.mem, m.free, root, tables, tables2, tables');
  }

  /** Walks to the leaf descriptor of `va`, making missing tables when `allocate` is set. */
  method WalkPagetable(m: Machine, root: Frame, ghost tables: map<Node, Frame>, va: nat, allocate: bool,
                       ghost n: Node, ghost all: set<Node>)
    returns (r: Result<(Frame, nat)>, ghost tables': map<Node, Frame>)
    requires TreeIn(m, root, tables) && n == Place(va)
    requires allocate ==> HasPath(all, n) && Missing(all, tables) <= |m.free|
    modifies m
    ensures TreeIn(m, root, tables') && AddsWithin(tables, tables', all)
    ensures !allocate ==> |m.free| == |old(m.free)|
    ensures r == if n.parent in tables' then Ok((tables'[n.parent], n.index)) else Err(ENOMEM)
    ensures allocate ==> n.parent in tables'
    ensures Grown(old(m.mem), old(m.free), m.mem, m.free, root, tables, tables')
  {
    var i0, i1, i2, i3 := L0Index(va), L1Index(va), L2Index(va), L3Index(va);
    assert n == Child(Child(Child(Child(Root, i0), i1), i2), i3);
    var l3;
    l3, tables' := WalkLevels(m, root, tables, i0, i1, i2, allocate, n, all);
    if l3.Err? {
      return Err(l3.errno), tables';
    }
    return Ok((l3.value, i3)), tables';
  }

  /** One turn of the mapping loop. */
  method MapPage(m: Machine, root: Frame, ghost tables: map<Node, Frame>, va: nat, pa: nat, a: Attributes,
                 ghost n: Node, ghost page: nat, ghost all: set<Node>)
    returns (ghost tables': map<Node, Frame>)
    requires TreeIn(m, root, tables) && n == Place(va) && pa == page * PAGE_SIZE && page < VPN_LIMIT
    requires !Leaf(m.mem, root, n).valid
    requires HasPath(all, n) && Missing(all, tables) <= |m.free|
    modifies m
    ensures TreeIn(m, root, tables') && AddsWithin(tables, tables', all)
    ensures Extended(old(m.mem), old(m.free), m.mem, m.free, tables, tables')
    ensures LeafSet(old(m.mem), m.mem, root, n, PageEntry(page, a))
  {
    var r;
    r, tables' := WalkPagetable(m, root, tables, va, true, n, all);
    var (l3, i) := r.value;
    ghost var mem1, free1 := m.mem, m.free;
    LeafTableInTree(m.mem, root, tables', n);
    assert m.mem[l3][i] == ZERO;   // an entry that is not valid is all zero
    FieldOfPage(pa, page);
    var field := pa / PAGE_SIZE % VPN_LIMIT;   // the field keeps 36 bits
    var pde := m.mem[l3][i].(table := true, valid := true, attrIndex := a.attrIndex, ap := a.ap, sh := a.sh,
                             af := true, address := field, pxn := a.pxn, uxn := a.uxn);
    m.Store(l3, i, pde);
    StoreLeaf(old(m.mem), old(m.free), mem1, free1, m.mem, root, tables, tables', n, pde);
  }

  lemma FieldOfPage(pa: nat, page: nat)
    requires pa == page * PAGE_SIZE && page < VPN_LIMIT
    ensures pa / PAGE_SIZE % VPN_LIMIT == page
  {
  }

  /** The same, as the `k`-th turn for a range that starts with memory `mem0`. */
  method MapNext(m: Machine, root: Frame, ghost tables0: map<Node, Frame>, ghost tables: map<Node, Frame>,
                 va: nat, pa: nat, a: Attributes, ghost mem0: Memory, ghost free0: seq<Frame>,
                 ghost all: set<Node>, ghost places: seq<Node>, ghost k: nat, ghost frame: nat)
    returns (ghost tables': map<Node, Frame>)
    requires TreeIn(m, root, tables) && Places(places) && frame + |places| <= VPN_LIMIT
    requires MappedSoFar(mem0, free0, m.mem, m.free, root, tables0, tables, all, places, k, frame, a)
    requires k < |places| && places[k] == Place(va) && pa == (frame + k) * PAGE_SIZE
    requires HasPath(all, places[k]) && Missing(all, tables0) <= |free0|
    requires !Leaf(mem0, root, places[k]).valid
    modifies m
    ensures TreeIn(m, root, tables')
    ensures MappedSoFar(mem0, free0, m.mem, m.free, root, tables0, tables', all, places, k + 1, frame, a)
  {
    RoomForPage(mem0, free0, m.mem, m.free, root, tables0, tables, all, places, k, frame, a);
    ghost var mem, free := m.mem, m.free;
    tables' := MapPage(m, root, tables, va, pa, a, places[k], frame + k, all);
    MappedOneMore(mem0, free0, mem, free, m.mem, m.free, root, tables0, tables, tables', all, places, k, frame, a);
  }

  /** The mapping loop, from `va` up to `end`. */
  method MapRange(m: Machine, root: Frame, ghost tables: map<Node, Frame>, va: nat, pa: nat, end: nat, a: Attributes,
                  ghost all: set<Node>, ghost places: seq<Node>, ghost frame: nat)
    returns (ghost tables': map<Node, Frame>)
    requires TreeIn(m, root, tables) && Places(places)
    requires places == PlacesFrom(va, |places|) && pa == frame * PAGE_SIZE && frame + |places| <= VPN_LIMIT
    requires if |places| == 0 then end <= va else end == va + |places| * PAGE_SIZE
    requires forall k :: 0 <= k < |places| ==> !Leaf(m.mem, root, places[k]).valid
    requires HasPaths(all, places) && Missing(all, tables) <= |m.free|
    modifies m
    ensures TreeIn(m, root, tables')
    ensures MappedSoFar(old(m.mem), old(m.free), m.mem, m.free, root, tables, tables', all, places, |places|, frame, a)
  {
    tables' := tables;
    ghost var k := 0;
    var va', pa' := va, pa;
    while va' < end
      invariant k <= |places| && va' == va + k * PAGE_SIZE && pa' == (frame + k) * PAGE_SIZE
      invariant va' >= end ==> k == |places|
      invariant TreeIn(m, root, tables')
      invariant MappedSoFar(old(m.mem), old(m.free), m.mem, m.free, root, tables, tables', all, places, k, frame, a)
      decreases end - va'
    {
      PlacesFromAt(va, |places|, k, va');
      tables' := MapNext(m, root, tables, tables', va', pa', a, old(m.mem), old(m.free), all, places, k, frame);
      k := k + 1;
      va', pa' := va' + PAGE_SIZE, pa' + PAGE_SIZE;
    }
  }

  /** The pages in `size` bytes from `va`; none when the end wraps around. */
  function PageCount(va: Word, size: Word): nat {
    if va + size < WORD_LIMIT then size / PAGE_SIZE else 0
  }

  lemma EndOfRange(va: Word, size: Word)
    requires PageAligned(size)
    ensures var n, end := PageCount(va, size), (va + size) % WORD_LIMIT;
            if n == 0 then end <= va else end == va + n * PAGE_SIZE
  {
  }

  /** Maps exactly the given range.  Besides the leaves it writes, it draws the missing tables on
      the paths to them, and nothing else, from the free list. */
  method PagingMap(m: Machine, root: Frame, ghost tables: map<Node, Frame>, va: Word, pa: Word, size: Word,
                   a: Attributes, ghost all: set<Node>, ghost places: seq<Node>)
    returns (err: int, ghost tables': map<Node, Frame>)
    requires TreeIn(m, root, tables)
    requires PageAligned(va) && PageAligned(pa) && PageAligned(size)
    requires places == PlacesFrom(va, PageCount(va, size)) && Places(places)
    requires pa / PAGE_SIZE + |places| <= VPN_LIMIT
    requires forall k :: 0 <= k < |places| ==> !Leaf(m.mem, root, places[k]).valid
    requires HasPaths(all, places) && Missing(all, tables) <= |m.free|
    modifies m
    ensures err == EOK
    ensures TreeIn(m, root, tables') && AddsWithin(tables, tables', all)
    ensures Extended(old(m.mem), old(m.free), m.mem, m.free, tables, tables')
    ensures RangeMapped(old(m.mem), m.mem, root, places, |places|, pa / PAGE_SIZE, a)
    ensures WordsMapped(m.mem, root, places, pa / PAGE_SIZE, a)
  {
    EndOfRange(va, size);
    tables' := MapRange(m, root, tables, va, pa, (va + size) % WORD_LIMIT, a, all, places, pa / PAGE_SIZE);
    RangeWords(old(m.mem), m.mem, root, places, pa / PAGE_SIZE, a);
    return EOK, tables';
  }

  /** One turn of the unmapping loop. */
  method UnmapPage(m: Machine, root: Frame, ghost tables: map<Node, Frame>, va: nat, ghost n: Node)
    requires TreeIn(m, root, tables) && n == Place(va) && Leaf(m.mem, root, n).valid
    modifies m
    ensures TreeIn(m, root, tables) && m.free == old(m.free)
    ensures Untouched(old(m.mem), m.mem, tables, []) && LeafSet(old(m.mem), m.mem, root, n, ZERO)
  {
    LeafTableInTree(m.mem, root, tables, n);
    ghost var same;
    var r;
    r, same := WalkPagetable(m, root, tables, va, false, n, {});
    var (l3, i) := r.value;
    m.Store(l3, i, ZERO);
    TreeSetLeaf(old(m.mem), root, tables, n, ZERO, m.mem);
    assert !NotTable(l3, tables);
  }

  method UnmapRange(m: Machine, root: Frame, ghost tables: map<Node, Frame>, va: nat, end: nat, ghost places: seq<Node>)
    requires TreeIn(m, root, tables) && Places(places)
    requires places == PlacesFrom(va, |places|)
    requires if |places| == 0 then end <= va else end == va + |places| * PAGE_SIZE
    requires forall k :: 0 <= k < |places| ==> Leaf(m.mem, root, places[k]).valid
    modifies m
    ensures TreeIn(m, root, tables) && m.free == old(m.free)
    ensures Untouched(old(m.mem), m.mem, tables, [])
    ensures RangeUnmapped(old(m.mem), m.mem, root, places, |places|)
  {
    ghost var k := 0;
    var va' := va;
    while va' < end
      invariant k <= |places| && va' == va + k * PAGE_SIZE
      invariant TreeIn(m, root, tables) && m.free == old(m.free)
      invariant Untouched(old(m.mem), m.mem, tables, [])
      invariant RangeUnmapped(old(m.mem), m.mem, root, places, k)
      decreases end - va'
    {
      PlacesFromAt(va, |places|, k, va');
      ghost var mem := m.mem;
      UnmapPage(m, root, tables, va', places[k]);
      OneMoreUnmapped(old(m.mem), mem, m.mem, root, places, k);
      k := k + 1;
      va' := va' + PAGE_SIZE;
    }
    assert k == |places|;
  }

  /** Unmaps exactly the given range; the tables stay. */
  method PagingUnmap(m: Machine, root: Frame, ghost tables: map<Node, Frame>, va: Word, size: Word,
                     ghost places: seq<Node>)
    requires TreeIn(m, root, tables)
    requires PageAligned(va) && PageAligned(size)
    requires places == PlacesFrom(va, PageCount(va, size)) && Places(places)
    requires forall k :: 0 <= k < |places| ==> Leaf(m.mem, root, places[k]).valid
    modifies m
    ensures TreeIn(m, root, tables) && m.free == old(m.free)
    ensures Untouched(old(m.mem), m.mem, tables, [])
    ensures RangeUnmapped(old(m.mem), m.mem, root, places, |places|)
  {
    EndOfRange(va, size);
    UnmapRange(m, root, tables, va, (va + size) % WORD_LIMIT, places);
  }

  /** Where the leaf descriptor of `va` is, if there is a table for it. */
  method PagingLookupDesc(m: Machine, root: Frame, ghost tables: map<Node, Frame>, va: nat, ghost n: Node)
    returns (r: Result<(Frame, nat)>)
    requires TreeIn(m, root, tables) && n == Place(va)
    modifies m
    ensures m.mem == old(m.mem) && m.free == old(m.free) && m.Valid()
    ensures r == if n.parent in tables then Ok((tables[n.parent], n.index)) else Err(ENOMEM)
  {
    ghost var same;
    r, same := WalkPagetable(m, root, tables, va, false, n, {});
  }

  /** The physical address that `va` translates to; 0 when there is no table for it. */
  method PagingLookup(m: Machine, root: Frame, ghost tables: map<Node, Frame>, va: nat) returns (pa: nat)
    requires TreeIn(m, root, tables)
    modifies m
    ensures m.mem == old(m.mem) && m.free == old(m.free) && m.Valid()
    ensures pa == PhysicalAddress(m.mem, root, va)
  {
    ghost var n := Place(va);
    LeafTableInTree(m.mem, root, tables, n);
    var r := PagingLookupDesc(m, root, tables, va, n);
    if r.Err? {
      return 0;
    }
    return m.mem[r.value.0][r.value.1].address * PAGE_SIZE + va % PAGE_SIZE;
  }
}
