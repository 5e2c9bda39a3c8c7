/** Which physical pages a translation tree owns, and what one mapping step does to that. */
module Ownership {
  import opened Descriptors
  import opened Frames
  import opened PageTree

  /** A tree, the pages it maps, and both of them held. */
  ghost predicate Owns(mem: Memory, free: seq<Frame>, root: Frame, tables: map<Node, Frame>, pages: map<Node, Frame>) {
    && HeldTree(mem, free, root, tables)
    && Mapping(mem, root, tables, pages)
    && OwnPages(mem, free, tables, pages)
  }

  ghost predicate Holds(tables: map<Node, Frame>, pages: map<Node, Frame>, f: Frame) {
    (exists n :: n in tables && tables[n] == f) || (exists n :: n in pages && pages[n] == f)
  }

  // ---- adding one page ------------------------------------------------------------

  /** Mapping a held frame that is not yet part of the tree makes the tree its owner. */
  lemma OwnOneMore(mem: Memory, free: seq<Frame>, mem': Memory, free': seq<Frame>, root: Frame,
                   tables: map<Node, Frame>, tables': map<Node, Frame>, pages: map<Node, Frame>,
                   n: Node, f: Frame, a: Attributes)
    requires Owns(mem, free, root, tables, pages)
    requires IsPlace(n) && f in mem && f !in free && !Holds(tables, pages, f)
    requires HeldTree(mem', free', root, tables') && Extended(mem, free, mem', free', tables, tables')
    requires LeafSet(mem, mem', root, n, PageEntry(f, a))
    ensures Owns(mem', free', root, tables', pages[n := f])
  {
    LeafTableInTree(mem', root, tables', n);
    MapsOneMore(mem, mem', root, tables, pages, n, f, a);
    OwnPagesGrow(mem, free, mem', free', tables, tables', pages, n, f);
  }

  lemma MapsOneMore(mem: Memory, mem': Memory, root: Frame, tables: map<Node, Frame>, pages: map<Node, Frame>,
                    n: Node, f: Frame, a: Attributes)
    requires Mapping(mem, root, tables, pages) && IsPlace(n) && LeafSet(mem, mem', root, n, PageEntry(f, a))
    ensures forall k :: IsPlace(k) ==> Maps(Leaf(mem', root, k), k, pages[n := f])
  {
    var pages' := pages[n := f];
    forall k | IsPlace(k) ensures Maps(Leaf(mem', root, k), k, pages') {
      assert Maps(Leaf(mem, root, k), k, pages);
    }
  }

  lemma OwnPagesGrow(mem: Memory, free: seq<Frame>, mem': Memory, free': seq<Frame>,
                     tables: map<Node, Frame>, tables': map<Node, Frame>, pages: map<Node, Frame>, p: Node, f: Frame)
    requires OwnPages(mem, free, tables, pages) && Extended(mem, free, mem', free', tables, tables')
    requires f in mem && f !in free && !Holds(tables, pages, f)
    ensures OwnPages(mem', free', tables', pages[p := f])
  {
    var pages' := pages[p := f];
    forall q, n | q in pages' && n in tables' ensures tables'[n] != pages'[q] {
      if n !in tables { assert tables'[n] in free; }
    }
    assert forall g :: g in free' ==> g in free;
  }

  // ---- removing one page ----------------------------------------------------------

  /** Unmapping a page and freeing its frame takes it out of the tree's ownership. */
  lemma OwnOneLess(mem: Memory, free: seq<Frame>, mem1: Memory, mem2: Memory, root: Frame,
                   tables: map<Node, Frame>, pages: map<Node, Frame>, n: Node)
    requires Owns(mem, free, root, tables, pages) && n in pages
    requires HeldTree(mem1, free, root, tables) && mem1.Keys == mem.Keys
    requires IsPlace(n) && LeafSet(mem, mem1, root, n, ZERO)
    requires mem2.Keys == mem1.Keys && forall g :: g in mem1 && g != pages[n] ==> mem2[g] == mem1[g]
    ensures Owns(mem2, [pages[n]] + free, root, tables, pages - {n})
    ensures LeafSet(mem, mem2, root, n, ZERO)
  {
    var pages' := pages - {n};
    assert NotTable(pages[n], tables);
    TreeFrame(mem1, mem2, root, tables);
    forall k | IsPlace(k) ensures Maps(Leaf(mem2, root, k), k, pages') {
      assert Maps(Leaf(mem, root, k), k, pages);
    }
  }

  // ---- what others do -------------------------------------------------------------

  /** Memory that a tree does not hold, and a free list that does not touch it, are no concern of it. */
  lemma OwnsFrame(mem: Memory, free: seq<Frame>, mem': Memory, free': seq<Frame>, root: Frame,
                  tables: map<Node, Frame>, pages: map<Node, Frame>)
    requires Owns(mem, free, root, tables, pages) && mem'.Keys == mem.Keys
    requires forall f :: f in mem && Holds(tables, pages, f) ==> f !in free'
    requires forall n :: n in tables ==> mem'[tables[n]] == mem[tables[n]]
    ensures Owns(mem', free', root, tables, pages)
    ensures SameLeaves(mem, mem', root)
  {
    TreeFrame(mem, mem', root, tables);
    forall n | n in tables ensures tables[n] !in free' { assert Holds(tables, pages, tables[n]); }
    forall n | n in pages ensures pages[n] !in free' { assert Holds(tables, pages, pages[n]); }
  }

  // ---- the pages of a region ------------------------------------------------------

  /** The mapped pages are those whose bit is set; `places` are the places of the region's pages. */
  ghost predicate InRegion(places: seq<Node>, bits: seq<bool>, pages: map<Node, Frame>) {
    && |bits| == |places|
    && (forall p :: 0 <= p < |bits| ==> (bits[p] <==> places[p] in pages))
    && (forall q :: q in pages ==> q in places)
  }

  lemma InRegionAdd(places: seq<Node>, bits: seq<bool>, pages: map<Node, Frame>, p: nat, f: Frame)
    requires Places(places) && InRegion(places, bits, pages) && p < |bits|
    ensures InRegion(places, bits[p := true], pages[places[p] := f])
  {
  }

  lemma InRegionRemove(places: seq<Node>, bits: seq<bool>, pages: map<Node, Frame>, p: nat)
    requires Places(places) && InRegion(places, bits, pages) && p < |bits|
    ensures InRegion(places, bits[p := false], pages - {places[p]})
  {
  }
}
