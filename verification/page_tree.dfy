/** Four-level translation tables in physical memory: what they mean and when they are sound.

    `Leaf` is the translation itself: three table reads and a leaf read, as the hardware does
    them.  A tree of tables is described by the frame that each of its nodes occupies; the
    invariant `Tree` ties that description to the words in memory.
 */
module PageTree {
  import opened Collections
  import opened Descriptors
  import opened Frames

  // ---- positions in the tree ------------------------------------------------------

  /** The root table, or the thing that entry `index` of the table at `parent` leads to.
      Tables sit at levels 0 to 3; level 4 stands for a mapped page itself. */
  datatype Node = Root | Child(parent: Node, index: nat)

  function Level(n: Node): nat { if n.Root? then 0 else 1 + Level(n.parent) }

  function L0Index(va: nat): (i: nat) ensures i < ENTRIES { va / 0x80_0000_0000 % ENTRIES }

  function L1Index(va: nat): (i: nat) ensures i < ENTRIES { va / 0x4000_0000 % ENTRIES }

  function L2Index(va: nat): (i: nat) ensures i < ENTRIES { va / 0x20_0000 % ENTRIES }

  function L3Index(va: nat): (i: nat) ensures i < ENTRIES { va / 0x1000 % ENTRIES }

  /** The place of a page: four indices below the root. */
  predicate IsPlace(n: Node) {
    && n.Child? && n.index < ENTRIES
    && n.parent.Child? && n.parent.index < ENTRIES
    && n.parent.parent.Child? && n.parent.parent.index < ENTRIES
    && n.parent.parent.parent.Child? && n.parent.parent.parent.index < ENTRIES
    && n.parent.parent.parent.parent.Root?
  }

  /** The place that an address selects. */
  function Place(va: nat): (n: Node)
    ensures IsPlace(n)
  {
    Child(Child(Child(Child(Root, L0Index(va)), L1Index(va)), L2Index(va)), L3Index(va))
  }

  // ---- translation ----------------------------------------------------------------

  /** The table that entry `i` of table `f` points to. */
  function Next(mem: Memory, f: Frame, i: nat): Option<Frame>
    requires i < ENTRIES
  {
    if f in mem && mem[f][i].valid then Some(mem[f][i].address) else None
  }

  function LeafTable(mem: Memory, root: Frame, n: Node): Option<Frame>
    requires IsPlace(n)
  {
    match Next(mem, root, n.parent.parent.parent.index)
    case None => None
    case Some(l1) =>
      match Next(mem, l1, n.parent.parent.index)
      case None => None
      case Some(l2) => Next(mem, l2, n.parent.index)
  }

  /** The leaf descriptor that translates the page at `n`; all zero when there is no table for it. */
  function Leaf(mem: Memory, root: Frame, n: Node): Descriptor
    requires IsPlace(n)
  {
    match LeafTable(mem, root, n)
    case Some(l3) => if l3 in mem then mem[l3][n.index] else ZERO
    case None => ZERO
  }

  ghost predicate SameLeaves(mem: Memory, mem': Memory, root: Frame) {
    forall n :: IsPlace(n) ==> Leaf(mem', root, n) == Leaf(mem, root, n)
  }

  /** One page mapped or unmapped: its leaf is `d`, every other translation is as before. */
  ghost predicate LeafSet(mem: Memory, mem': Memory, root: Frame, n: Node, d: Descriptor)
    requires IsPlace(n)
  {
    && Leaf(mem', root, n) == d
    && forall k :: IsPlace(k) && k != n ==> Leaf(mem', root, k) == Leaf(mem, root, k)
  }

  // ---- the invariant --------------------------------------------------------------

  function TableEntry(f: Frame): Descriptor { ZERO.(valid := true, table := true, address := f) }

  ghost predicate Injective<K, V>(m: map<K, V>) {
    forall a, b :: a in m && b in m && m[a] == m[b] ==> a == b
  }

  /** An entry above the leaves is valid exactly when the node below it is there, and points to it. */
  ghost predicate Linked(d: Descriptor, c: Node, tables: map<Node, Frame>) {
    if c in tables then d == TableEntry(tables[c]) else !d.valid
  }

  /** Entry `i` of the table at `n`: a link above the leaves, and at the leaves a mapping or all zero. */
  ghost predicate Entry(d: Descriptor, n: Node, i: nat, tables: map<Node, Frame>) {
    if Level(n) < 3 then Linked(d, Child(n, i), tables) else d.valid || d == ZERO
  }

  ghost predicate Tree(mem: Memory, root: Frame, tables: map<Node, Frame>) {
    && Root in tables && tables[Root] == root
    && Injective(tables)
    && (forall n :: n in tables ==> Level(n) <= 3 && tables[n] in mem)
    && (forall n :: n in tables && n.Child? ==> n.parent in tables && n.index < ENTRIES)
    && (forall n, i {:trigger mem[tables[n]][i]} :: n in tables && 0 <= i < ENTRIES ==>
          Entry(mem[tables[n]][i], n, i, tables))
  }

  /** A tree whose tables are all off the free list. */
  ghost predicate HeldTree(mem: Memory, free: seq<Frame>, root: Frame, tables: map<Node, Frame>) {
    Tree(mem, root, tables) && forall n :: n in tables ==> tables[n] !in free
  }

  /** The walk finds the leaf table exactly when the tree has one. */
  lemma LeafTableInTree(mem: Memory, root: Frame, tables: map<Node, Frame>, n: Node)
    requires Tree(mem, root, tables) && IsPlace(n)
    ensures LeafTable(mem, root, n) == if n.parent in tables then Some(tables[n.parent]) else None
    ensures Leaf(mem, root, n) == if n.parent in tables then mem[tables[n.parent]][n.index] else ZERO
    ensures Leaf(mem, root, n).valid || Leaf(mem, root, n) == ZERO
  {
    var l3, l2, l1 := n.parent, n.parent.parent, n.parent.parent.parent;
    assert Level(l1) == 1;
    assert Level(l2) == 1 + Level(l1) == 2;
    assert Level(l3) == 1 + Level(l2) == 3;
    assert l3 in tables ==> l2 in tables;
    assert Linked(mem[tables[Root]][l1.index], l1, tables);
    if l1 in tables {
      assert Linked(mem[tables[l1]][l2.index], l2, tables);
      if l2 in tables {
        assert Linked(mem[tables[l2]][l3.index], l3, tables);
      }
    }
  }

  /** Memory outside a tree's own tables has no say in its translations. */
  lemma TreeFrame(mem: Memory, mem': Memory, root: Frame, tables: map<Node, Frame>)
    requires Tree(mem, root, tables)
    requires forall n :: n in tables ==> tables[n] in mem' && mem'[tables[n]] == mem[tables[n]]
    ensures Tree(mem', root, tables) && SameLeaves(mem, mem', root)
  {
    forall n, i | n in tables && 0 <= i < ENTRIES
      ensures mem'[tables[n]][i] == mem[tables[n]][i]
    {
    }
    forall n | IsPlace(n) ensures Leaf(mem', root, n) == Leaf(mem, root, n) {
      LeafTableInTree(mem, root, tables, n);
      LeafTableInTree(mem', root, tables, n);
    }
  }

  lemma GrownEntry(mem: Memory, root: Frame, tables: map<Node, Frame>, n: Node, i: nat, f: Frame, mem': Memory,
                   k: Node, j: nat)
    requires Tree(mem, root, tables) && n in tables && Level(n) < 3 && i < ENTRIES && Child(n, i) !in tables
    requires forall l :: l in tables ==> tables[l] != f
    requires mem' == mem[f := ZeroPage()][tables[n] := mem[tables[n]][i := TableEntry(f)]]
    requires (k in tables || k == Child(n, i)) && j < ENTRIES
    ensures var tables' := tables[Child(n, i) := f];
            Entry(mem'[tables'[k]][j], k, j, tables')
  {
    if k == Child(n, i) {
      assert mem'[f] == ZeroPage();
      assert Child(k, j) !in tables;
    } else if k == n {
      assert j != i ==> mem'[tables[k]][j] == mem[tables[k]][j];
    } else {
      assert mem'[tables[k]] == mem[tables[k]];
      assert Entry(mem[tables[k]][j], k, j, tables);
    }
  }

  lemma GrownShape(mem: Memory, root: Frame, tables: map<Node, Frame>, n: Node, i: nat, f: Frame, mem': Memory)
    requires Tree(mem, root, tables) && n in tables && Level(n) < 3 && i < ENTRIES && Child(n, i) !in tables
    requires f in mem && (forall k :: k in tables ==> tables[k] != f)
    requires mem' == mem[f := ZeroPage()][tables[n] := mem[tables[n]][i := TableEntry(f)]]
    ensures Tree(mem', root, tables[Child(n, i) := f])
  {
    var tables' := tables[Child(n, i) := f];
    forall k, j | k in tables' && 0 <= j < ENTRIES
      ensures Entry(mem'[tables'[k]][j], k, j, tables')
    {
      GrownEntry(mem, root, tables, n, i, f, mem', k, j);
    }
  }

  /** Hanging a fresh zeroed table below an empty entry changes no translation. */
  lemma TreeGrow(mem: Memory, root: Frame, tables: map<Node, Frame>, n: Node, i: nat, f: Frame, mem': Memory)
    requires Tree(mem, root, tables) && n in tables && Level(n) < 3 && i < ENTRIES && Child(n, i) !in tables
    requires f in mem && (forall k :: k in tables ==> tables[k] != f)
    requires mem' == mem[f := ZeroPage()][tables[n] := mem[tables[n]][i := TableEntry(f)]]
    ensures Tree(mem', root, tables[Child(n, i) := f])
    ensures SameLeaves(mem, mem', root)
  {
    GrownShape(mem, root, tables, n, i, f, mem');
    var tables' := tables[Child(n, i) := f];
    forall p | IsPlace(p) ensures Leaf(mem', root, p) == Leaf(mem, root, p) {
      LeafTableInTree(mem, root, tables, p);
      LeafTableInTree(mem', root, tables', p);
      if p.parent in tables {
        assert Level(p.parent) == 3 && p.parent != n;
      }
    }
  }

  /** Writing one leaf changes one translation and no other. */
  lemma TreeSetLeaf(mem: Memory, root: Frame, tables: map<Node, Frame>, n: Node, d: Descriptor, mem': Memory)
    requires Tree(mem, root, tables) && IsPlace(n) && n.parent in tables
    requires d.valid || d == ZERO
    requires var t := tables[n.parent]; mem' == mem[t := mem[t][n.index := d]]
    ensures Tree(mem', root, tables) && LeafSet(mem, mem', root, n, d)
  {
    forall k, i | k in tables && 0 <= i < ENTRIES
      ensures mem'[tables[k]][i] == if k == n.parent && i == n.index then d else mem[tables[k]][i]
    {
    }
    assert Level(n.parent) == 3;
    forall k | IsPlace(k)
      ensures Leaf(mem', root, k) == if k == n then d else Leaf(mem, root, k)
    {
      LeafTableInTree(mem, root, tables, k);
      LeafTableInTree(mem', root, tables, k);
    }
  }

  // ---- drawing tables from the free list ------------------------------------------

  /** `tables'` extends `tables` by frames taken off the front of the free list, one each. */
  ghost predicate Drawn(free: seq<Frame>, free': seq<Frame>, tables: map<Node, Frame>, tables': map<Node, Frame>) {
    && |free'| <= |free| && free' == free[|free| - |free'|..]
    && |tables| + |free| == |tables'| + |free'|
    && (forall n :: n in tables ==> n in tables' && tables'[n] == tables[n])
    && (forall n :: n in tables' && n !in tables ==> tables'[n] in free)
  }

  ghost predicate NotTable(f: Frame, tables: map<Node, Frame>) {
    forall n :: n in tables ==> tables[n] != f
  }

  /** Only the tree's tables and free pages may change. */
  ghost predicate Untouched(mem: Memory, mem': Memory, tables: map<Node, Frame>, free: seq<Frame>) {
    && mem'.Keys == mem.Keys
    && forall f :: f in mem && NotTable(f, tables) && f !in free ==> mem'[f] == mem[f]
  }

  ghost predicate Extended(mem: Memory, free: seq<Frame>, mem': Memory, free': seq<Frame>,
                           tables: map<Node, Frame>, tables': map<Node, Frame>) {
    Drawn(free, free', tables, tables') && Untouched(mem, mem', tables, free)
  }

  lemma ExtendedTwice(mem: Memory, a: seq<Frame>, mem': Memory, b: seq<Frame>, mem'': Memory, c: seq<Frame>,
                      s: map<Node, Frame>, t: map<Node, Frame>, u: map<Node, Frame>)
    requires Extended(mem, a, mem', b, s, t) && Extended(mem', b, mem'', c, t, u)
    ensures Extended(mem, a, mem'', c, s, u)
  {
    forall n | n in u && n !in s ensures u[n] in a {
      if n !in t { assert u[n] in b; }
    }
    forall f | f in mem && NotTable(f, s) && f !in a ensures mem''[f] == mem[f] {
      assert NotTable(f, t);
      assert f !in b;
    }
  }

  /** What making tables on demand may do: memory `mem` with tree `tables` becomes `mem'` with
      `tables'`, and every translation stays what it was. */
  ghost predicate Grown(mem: Memory, free: seq<Frame>, mem': Memory, free': seq<Frame>,
                        root: Frame, tables: map<Node, Frame>, tables': map<Node, Frame>) {
    && Extended(mem, free, mem', free', tables, tables') && SameLeaves(mem, mem', root)
    && (|free'| == |free| ==> mem' == mem && tables' == tables)
  }

  lemma GrownTwice(mem: Memory, a: seq<Frame>, mem': Memory, b: seq<Frame>, mem'': Memory, c: seq<Frame>,
                   root: Frame, s: map<Node, Frame>, t: map<Node, Frame>, u: map<Node, Frame>)
    requires Grown(mem, a, mem', b, root, s, t) && Grown(mem', b, mem'', c, root, t, u)
    ensures Grown(mem, a, mem'', c, root, s, u)
  {
    ExtendedTwice(mem, a, mem', b, mem'', c, s, t, u);
  }

  // ---- how many tables a range still needs ----------------------------------------

  /** The nodes of `tables'` that are not in `tables` come from `all`. */
  ghost predicate AddsWithin(tables: map<Node, Frame>, tables': map<Node, Frame>, all: set<Node>) {
    forall n :: n in tables' ==> n in tables || n in all
  }

  /** `all` holds the tables on the way to place `n`. */
  ghost predicate HasPath(all: set<Node>, n: Node)
    requires IsPlace(n)
  {
    n.parent in all && n.parent.parent in all && n.parent.parent.parent in all
  }

  /** How many of the nodes of `all` have no table yet. */
  ghost function Missing(all: set<Node>, tables: map<Node, Frame>): nat { |all - tables.Keys| }

  /** Every node of `all` that a step brings uses up one free page. */
  lemma Budget(all: set<Node>, tables: map<Node, Frame>, free: nat, tables': map<Node, Frame>, free': nat)
    requires AddsWithin(tables, tables', all) && (forall n :: n in tables ==> n in tables')
    requires |tables| + free == |tables'| + free'
    ensures Missing(all, tables') + free == Missing(all, tables) + free'
  {
    BudgetSets(all, tables'.Keys - tables.Keys, tables.Keys, tables'.Keys);
  }

  lemma BudgetSets(all: set<Node>, added: set<Node>, keys: set<Node>, keys': set<Node>)
    requires keys <= keys' && added == keys' - keys && added <= all
    ensures |all - keys| + |keys| == |all - keys'| + |keys'|
  {
    assert |all - keys| == |all - keys'| + |added| by {
      DisjointSum(all - keys', added, all - keys);
    }
    assert |keys'| == |keys| + |added| by {
      DisjointSum(keys, added, keys');
    }
  }

  lemma DisjointSum<T>(s: set<T>, t: set<T>, u: set<T>)
    requires s !! t && u == s + t
    ensures |u| == |s| + |t|
  {
  }

  lemma NotFull(all: set<Node>, c: Node, tables: map<Node, Frame>, free: nat)
    requires Missing(all, tables) <= free && c in all && c !in tables
    ensures free > 0
  {
    assert c in all - tables.Keys;
  }

  /** One new table, hung below an empty entry: everything the caller of the step relies on. */
  lemma GrowStep(mem: Memory, free: seq<Frame>, root: Frame, tables: map<Node, Frame>, n: Node, i: nat,
                 mem': Memory)
    requires HeldTree(mem, free, root, tables)
    requires n in tables && Level(n) < 3 && i < ENTRIES && Child(n, i) !in tables
    requires free != [] && NoDuplicates(free) && free[0] in mem
    requires mem' == mem[free[0] := ZeroPage()][tables[n] := mem[tables[n]][i := TableEntry(free[0])]]
    ensures var tables' := tables[Child(n, i) := free[0]];
            HeldTree(mem', free[1..], root, tables') && Grown(mem, free, mem', free[1..], root, tables, tables')
  {
    var f := free[0];
    assert f in free;
    assert f !in free[1..];
    TreeGrow(mem, root, tables, n, i, f, mem');
  }

  // ---- leaves ---------------------------------------------------------------------

  /** What a mapping allows and how it is cached. */
  datatype Attributes = Attributes(ap: PagePerms, attrIndex: Bits3, sh: Bits2, pxn: ExecPerms, uxn: ExecPerms)

  function AttributesOf(d: Descriptor): Attributes { Attributes(d.ap, d.attrIndex, d.sh, d.pxn, d.uxn) }

  /** A page descriptor with the access flag set and every bit that no store touches zero. */
  function PageEntry(address: Frame, a: Attributes): Descriptor {
    Descriptor(true, true, a.attrIndex, false, a.ap, a.sh, true, false, address, 0, a.pxn, a.uxn, 0)
  }

  /** Storing a leaf in the tree that the walk has left. */
  lemma StoreLeaf(mem: Memory, free: seq<Frame>, mem1: Memory, free1: seq<Frame>, mem2: Memory,
                  root: Frame, tables: map<Node, Frame>, tables': map<Node, Frame>, n: Node, d: Descriptor)
    requires Grown(mem, free, mem1, free1, root, tables, tables') && HeldTree(mem1, free1, root, tables')
    requires IsPlace(n) && n.parent in tables' && (d.valid || d == ZERO)
    requires var t := tables'[n.parent]; mem2 == mem1[t := mem1[t][n.index := d]]
    ensures HeldTree(mem2, free1, root, tables') && Extended(mem, free, mem2, free1, tables, tables')
    ensures LeafSet(mem, mem2, root, n, d)
  {
    TreeSetLeaf(mem1, root, tables', n, d, mem2);
    var t := tables'[n.parent];
    assert !NotTable(t, tables) || t in free;
  }

  // ---- ranges of pages ------------------------------------------------------------

  /** The places of the pages of a range, in order. */
  ghost predicate Places(places: seq<Node>) {
    NoDuplicates(places) && forall k :: 0 <= k < |places| ==> IsPlace(places[k])
  }

  ghost predicate HasPaths(all: set<Node>, places: seq<Node>)
    requires Places(places)
  {
    forall k :: 0 <= k < |places| ==> HasPath(all, places[k])
  }

  /** The first `k` places mapped to consecutive frames, every other translation as before. */
  ghost predicate RangeMapped(mem: Memory, mem': Memory, root: Frame, places: seq<Node>, k: nat, frame: nat,
                              a: Attributes)
    requires Places(places) && frame + |places| <= VPN_LIMIT
  {
    && (forall j :: 0 <= j < k && j < |places| ==> Leaf(mem', root, places[j]) == PageEntry(frame + j, a))
    && forall n :: IsPlace(n) && !Among(n, places, k) ==> Leaf(mem', root, n) == Leaf(mem, root, n)
  }

  /** `n` is one of the first `k` places. */
  ghost predicate Among(n: Node, places: seq<Node>, k: nat) {
    exists j :: 0 <= j < k && j < |places| && places[j] == n
  }

  ghost predicate RangeUnmapped(mem: Memory, mem': Memory, root: Frame, places: seq<Node>, k: nat)
    requires Places(places)
  {
    && (forall j :: 0 <= j < k && j < |places| ==> Leaf(mem', root, places[j]) == ZERO)
    && forall n :: IsPlace(n) && !Among(n, places, k) ==> Leaf(mem', root, n) == Leaf(mem, root, n)
  }

  ghost predicate MappedSoFar(mem0: Memory, free0: seq<Frame>, mem: Memory, free: seq<Frame>, root: Frame,
                              tables0: map<Node, Frame>, tables: map<Node, Frame>, all: set<Node>,
                              places: seq<Node>, k: nat, frame: nat, a: Attributes)
    requires Places(places) && frame + |places| <= VPN_LIMIT
  {
    && AddsWithin(tables0, tables, all)
    && Extended(mem0, free0, mem, free, tables0, tables)
    && RangeMapped(mem0, mem, root, places, k, frame, a)
  }

  /** The next page of the range is still unmapped and there are pages left for its tables. */
  lemma RoomForPage(mem0: Memory, free0: seq<Frame>, mem: Memory, free: seq<Frame>, root: Frame,
                    tables0: map<Node, Frame>, tables: map<Node, Frame>, all: set<Node>,
                    places: seq<Node>, k: nat, frame: nat, a: Attributes)
    requires Places(places) && frame + |places| <= VPN_LIMIT
    requires MappedSoFar(mem0, free0, mem, free, root, tables0, tables, all, places, k, frame, a)
    requires k < |places| && Missing(all, tables0) <= |free0|
    requires !Leaf(mem0, root, places[k]).valid
    ensures !Leaf(mem, root, places[k]).valid
    ensures Missing(all, tables) <= |free|
  {
    Budget(all, tables0, |free0|, tables, |free|);
  }

  lemma OneMorePage(mem0: Memory, mem: Memory, mem': Memory, root: Frame, places: seq<Node>, k: nat, frame: nat,
                    a: Attributes)
    requires Places(places) && frame + |places| <= VPN_LIMIT && k < |places|
    requires RangeMapped(mem0, mem, root, places, k, frame, a)
    requires LeafSet(mem, mem', root, places[k], PageEntry(frame + k, a))
    ensures RangeMapped(mem0, mem', root, places, k + 1, frame, a)
  {
    forall j | 0 <= j < k + 1 ensures Leaf(mem', root, places[j]) == PageEntry(frame + j, a) {
      if j < k { assert places[j] != places[k]; }
    }
    forall n | IsPlace(n) && !Among(n, places, k + 1) ensures Leaf(mem', root, n) == Leaf(mem0, root, n) {
      assert n != places[k] && !Among(n, places, k);
    }
  }

  lemma MappedOneMore(mem0: Memory, free0: seq<Frame>, mem: Memory, free: seq<Frame>, mem': Memory, free': seq<Frame>,
                      root: Frame, tables0: map<Node, Frame>, tables: map<Node, Frame>, tables': map<Node, Frame>,
                      all: set<Node>, places: seq<Node>, k: nat, frame: nat, a: Attributes)
    requires Places(places) && frame + |places| <= VPN_LIMIT
    requires MappedSoFar(mem0, free0, mem, free, root, tables0, tables, all, places, k, frame, a)
    requires k < |places| && AddsWithin(tables, tables', all)
    requires Extended(mem, free, mem', free', tables, tables')
    requires LeafSet(mem, mem', root, places[k], PageEntry(frame + k, a))
    ensures MappedSoFar(mem0, free0, mem', free', root, tables0, tables', all, places, k + 1, frame, a)
  {
    ExtendedTwice(mem0, free0, mem, free, mem', free', tables0, tables, tables');
    OneMorePage(mem0, mem, mem', root, places, k, frame, a);
  }

  lemma OneMoreUnmapped(mem0: Memory, mem: Memory, mem': Memory, root: Frame, places: seq<Node>, k: nat)
    requires Places(places) && k < |places| && RangeUnmapped(mem0, mem, root, places, k)
    requires LeafSet(mem, mem', root, places[k], ZERO)
    ensures RangeUnmapped(mem0, mem', root, places, k + 1)
  {
    forall j | 0 <= j < k + 1 ensures Leaf(mem', root, places[j]) == ZERO {
      if j < k { assert places[j] != places[k]; }
    }
    forall n | IsPlace(n) && !Among(n, places, k + 1) ensures Leaf(mem', root, n) == Leaf(mem0, root, n) {
      assert n != places[k] && !Among(n, places, k);
    }
  }

  /** Unmapping a range that has just been mapped gives every translation back. */
  lemma UnmapUndoesMap(mem0: Memory, mem1: Memory, mem2: Memory, root: Frame, tables: map<Node, Frame>,
                       places: seq<Node>, frame: nat, a: Attributes)
    requires Tree(mem0, root, tables) && Places(places) && frame + |places| <= VPN_LIMIT
    requires forall k :: 0 <= k < |places| ==> !Leaf(mem0, root, places[k]).valid
    requires RangeMapped(mem0, mem1, root, places, |places|, frame, a)
    requires RangeUnmapped(mem1, mem2, root, places, |places|)
    ensures SameLeaves(mem0, mem2, root)
  {
    forall n | IsPlace(n) ensures Leaf(mem2, root, n) == Leaf(mem0, root, n) {
      LeafTableInTree(mem0, root, tables, n);
    }
  }

  // ---- addresses and places -------------------------------------------------------

  lemma CutBelow(p: nat, unit: nat, count: nat)
    requires 0 < unit && 0 < count && VPN_LIMIT == unit * ENTRIES * count
    ensures p % VPN_LIMIT / unit % ENTRIES == p / unit % ENTRIES
  {
    var high, v := p / VPN_LIMIT, p % VPN_LIMIT;
    var q := v / unit;
    assert p == unit * (high * (ENTRIES * count) + q) + v % unit by {
      assert VPN_LIMIT * high == unit * (ENTRIES * count) * high == unit * (high * (ENTRIES * count));
    }
    DivUnique(p, unit, high * (ENTRIES * count) + q, v % unit);
    assert high * (ENTRIES * count) == ENTRIES * (high * count);
    DivUnique(p / unit, ENTRIES, high * count + q / ENTRIES, q % ENTRIES);
  }

  /** One index of an address, from its page number within the 48-bit space. */
  lemma CutOfAddress(va: nat, unit: nat, count: nat)
    requires 0 < unit && 0 < count && VPN_LIMIT == unit * ENTRIES * count
    ensures va / (PAGE_SIZE * unit) % ENTRIES == va / PAGE_SIZE % VPN_LIMIT / unit % ENTRIES
  {
    DivDiv(va, PAGE_SIZE, unit);
    CutBelow(va / PAGE_SIZE, unit, count);
  }

  lemma FourDigits(v: nat)
    requires v < VPN_LIMIT
    ensures v == ((v / 0x800_0000 % ENTRIES * ENTRIES + v / 0x4_0000 % ENTRIES) * ENTRIES
                  + v / 0x200 % ENTRIES) * ENTRIES + v % ENTRIES
  {
    DivDiv(v, 0x200, 0x200);
    DivDiv(v, 0x4_0000, 0x200);
  }

  /** Addresses select the same place exactly when they lie on the same page of the 48-bit space. */
  lemma PlaceOfAddress(a: nat, b: nat)
    ensures Place(a) == Place(b) <==> a / PAGE_SIZE % VPN_LIMIT == b / PAGE_SIZE % VPN_LIMIT
  {
    Indices(a);
    Indices(b);
    FourDigits(a / PAGE_SIZE % VPN_LIMIT);
    FourDigits(b / PAGE_SIZE % VPN_LIMIT);
  }

  lemma Indices(a: nat)
    ensures var v := a / PAGE_SIZE % VPN_LIMIT;
            && L0Index(a) == v / 0x800_0000 % ENTRIES && L1Index(a) == v / 0x4_0000 % ENTRIES
            && L2Index(a) == v / 0x200 % ENTRIES && L3Index(a) == v % ENTRIES
  {
    CutOfAddress(a, 0x800_0000, 1);
    CutOfAddress(a, 0x4_0000, 0x200);
    CutOfAddress(a, 0x200, 0x4_0000);
    CutOfAddress(a, 1, 0x800_0000);
  }

  /** The places of the `n` pages from `va`. */
  ghost function PlacesFrom(va: nat, n: nat): (places: seq<Node>)
    ensures |places| == n
  {
    seq(n, k requires 0 <= k < n => Place(va + k * PAGE_SIZE))
  }

  lemma PlacesFromAt(va: nat, n: nat, k: nat, va': nat)
    requires k < n && va' == va + k * PAGE_SIZE
    ensures PlacesFrom(va, n)[k] == Place(va')
  {
  }

  lemma PlacesFromAre(va: nat, n: nat)
    requires n <= VPN_LIMIT && PageAligned(va)
    ensures Places(PlacesFrom(va, n))
  {
    var places := PlacesFrom(va, n);
    forall j, k | 0 <= j < k < n ensures places[j] != places[k] {
      var p := va / PAGE_SIZE;
      PlaceOfAddress(va + j * PAGE_SIZE, va + k * PAGE_SIZE);
      assert (va + j * PAGE_SIZE) / PAGE_SIZE == p + j && (va + k * PAGE_SIZE) / PAGE_SIZE == p + k;
      FarApart(p, j, k);
    }
  }

  lemma FarApart(p: nat, j: nat, k: nat)
    requires j < k && k - j < VPN_LIMIT
    ensures (p + j) % VPN_LIMIT != (p + k) % VPN_LIMIT
  {
  }

  // ---- looking up -----------------------------------------------------------------

  /** What a lookup answers: the leaf's frame and the offset into the page, or 0 without a leaf table. */
  function PhysicalAddress(mem: Memory, root: Frame, va: nat): nat {
    if LeafTable(mem, root, Place(va)).None? then 0
    else Leaf(mem, root, Place(va)).address * PAGE_SIZE + va % PAGE_SIZE
  }

  /** Frame 0 is never mapped, so a zero answer can stand for "not mapped". */
  ghost predicate NoFrameZero(mem: Memory, root: Frame) {
    forall n :: IsPlace(n) && Leaf(mem, root, n).valid ==> Leaf(mem, root, n).address != 0
  }

  /** A lookup answers 0 for every unmapped address exactly when it is not asked about the inside of
      an unmapped page that shares its leaf table with others: there it answers the offset. */
  lemma LookupZeroIffUnmapped(mem: Memory, root: Frame, tables: map<Node, Frame>, va: nat)
    requires Tree(mem, root, tables) && NoFrameZero(mem, root)
    ensures PhysicalAddress(mem, root, va) == 0 <==>
              !Leaf(mem, root, Place(va)).valid && (PageAligned(va) || Place(va).parent !in tables)
    ensures Leaf(mem, root, Place(va)).valid ==>
              && PhysicalAddress(mem, root, va) / PAGE_SIZE == Leaf(mem, root, Place(va)).address
              && PhysicalAddress(mem, root, va) % PAGE_SIZE == va % PAGE_SIZE
  {
    LeafTableInTree(mem, root, tables, Place(va));
  }

  // ---- the pages a tree maps ------------------------------------------------------

  /** `pages` is the whole translation: which places are mapped, and to which frames. */
  ghost predicate Mapping(mem: Memory, root: Frame, tables: map<Node, Frame>, pages: map<Node, Frame>) {
    && (forall n :: n in pages ==> IsPlace(n) && n.parent in tables)
    && (forall n :: IsPlace(n) ==> Maps(Leaf(mem, root, n), n, pages))
  }

  ghost predicate Maps(d: Descriptor, n: Node, pages: map<Node, Frame>) {
    if n in pages then d.valid && d.table && d.address == pages[n] else !d.valid
  }

  /** Every mapped frame is mapped once, is not a table, and is held. */
  ghost predicate OwnPages(mem: Memory, free: seq<Frame>, tables: map<Node, Frame>, pages: map<Node, Frame>) {
    && Injective(pages)
    && (forall n :: n in pages ==> NotTable(pages[n], tables))
    && (forall n :: n in pages ==> pages[n] in mem && pages[n] !in free)
  }
}
