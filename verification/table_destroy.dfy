/** Taking a translation tree apart.

    The source frees tables depth first and treats an entry of a leaf table as one more table
    pointer, because the bit that marks a page descriptor is the bit that marks a table.  The
    description here therefore lets level 4 of the tree hold the pages that are still mapped.
 */
module TableDestroy {
  import opened Descriptors
  import opened Frames
  import opened PageTree
  import opened Paging

  /** `n` is `top` or sits below it. */
  ghost predicate Under(n: Node, top: Node) {
    n == top || (n.Child? && Under(n.parent, top))
  }

  /** `n` sits below one of the first `i` entries of `top`. */
  ghost predicate UnderFirst(n: Node, top: Node, i: nat) {
    n.Child? && ((n.parent == top && n.index < i) || UnderFirst(n.parent, top, i))
  }

  lemma UnderIsDeeper(n: Node, top: Node)
    requires Under(n, top)
    ensures Level(n) >= Level(top) && (n != top ==> Level(n) > Level(top))
  {
  }

  lemma UnderFirstIsUnder(n: Node, top: Node, i: nat)
    requires UnderFirst(n, top, i)
    ensures Under(n, top) && Level(n) > Level(top)
  {
  }

  /** One more entry adds exactly the subtree of that entry. */
  lemma {:induction false} UnderFirstStep(n: Node, top: Node, i: nat)
    ensures UnderFirst(n, top, i + 1) <==> UnderFirst(n, top, i) || Under(n, Child(top, i))
    ensures !(UnderFirst(n, top, i) && Under(n, Child(top, i)))
  {
    if n.Child? {
      UnderFirstStep(n.parent, top, i);
      if n.parent == top {
        if UnderFirst(top, top, i) { UnderFirstIsUnder(top, top, i); }
        if Under(top, Child(top, i)) { UnderIsDeeper(top, Child(top, i)); }
      } else if n == Child(top, i) {
        assert false;
      }
    }
  }

  lemma {:induction false} UnderChildIsUnder(n: Node, top: Node, i: nat)
    requires Under(n, Child(top, i))
    ensures Under(n, top)
  {
    if n != Child(top, i) { UnderChildIsUnder(n.parent, top, i); }
  }

  /** The entry points to the node below it when there is one, and is invalid when there is none. */
  ghost predicate Leads(d: Descriptor, c: Node, nodes: map<Node, Frame>) {
    if c in nodes then d.valid && d.table && d.address == nodes[c] else !d.valid
  }

  /** Every entry of every node above level 4 points to the node below it, or is invalid. */
  ghost predicate Forest(mem: Memory, nodes: map<Node, Frame>) {
    && Injective(nodes)
    && (forall n :: n in nodes ==> Level(n) <= 4 && nodes[n] in mem)
    && (forall n :: n in nodes && n.Child? ==> n.parent in nodes && n.index < ENTRIES)
    && (forall n, i {:trigger mem[nodes[n]][i]} :: n in nodes && Level(n) < 4 && 0 <= i < ENTRIES ==>
          Leads(mem[nodes[n]][i], Child(n, i), nodes))
  }

  lemma {:induction false} AllUnderFirst(mem: Memory, nodes: map<Node, Frame>, n: Node, top: Node)
    requires Forest(mem, nodes) && n in nodes && top in nodes
    ensures Under(n, top) <==> n == top || UnderFirst(n, top, ENTRIES)
  {
    if n.Child? { AllUnderFirst(mem, nodes, n.parent, top); }
  }

  /** The frames below the first `i` entries of `top`. */
  ghost function FramesFirst(nodes: map<Node, Frame>, top: Node, i: nat): set<Frame> {
    set n | n in nodes && UnderFirst(n, top, i) :: nodes[n]
  }

  ghost function FramesUnder(nodes: map<Node, Frame>, top: Node): set<Frame> {
    set n | n in nodes && Under(n, top) :: nodes[n]
  }

  lemma FramesStep(mem: Memory, nodes: map<Node, Frame>, top: Node, i: nat)
    requires Forest(mem, nodes)
    ensures forall g :: g in FramesFirst(nodes, top, i + 1) <==>
              g in FramesFirst(nodes, top, i) || g in FramesUnder(nodes, Child(top, i))
    ensures FramesFirst(nodes, top, i) !! FramesUnder(nodes, Child(top, i))
  {
    forall n | n in nodes
      ensures UnderFirst(n, top, i + 1) <==> UnderFirst(n, top, i) || Under(n, Child(top, i))
      ensures !(UnderFirst(n, top, i) && Under(n, Child(top, i)))
    {
      UnderFirstStep(n, top, i);
    }
  }

  lemma FramesAll(mem: Memory, nodes: map<Node, Frame>, top: Node)
    requires Forest(mem, nodes) && top in nodes
    ensures forall g :: g in FramesUnder(nodes, top) <==> g == nodes[top] || g in FramesFirst(nodes, top, ENTRIES)
    ensures nodes[top] !in FramesFirst(nodes, top, ENTRIES)
  {
    forall n | n in nodes ensures Under(n, top) <==> n == top || UnderFirst(n, top, ENTRIES) {
      AllUnderFirst(mem, nodes, n, top);
    }
    if nodes[top] in FramesFirst(nodes, top, ENTRIES) {
      UnderFirstIsUnder(top, top, ENTRIES);
    }
  }

  /** Pages outside `frames` are untouched and `frames`, all held before, are now free. */
  ghost predicate Released(mem: Memory, free: seq<Frame>, mem': Memory, free': seq<Frame>, frames: set<Frame>) {
    && mem'.Keys == mem.Keys
    && (forall g :: g in free' <==> g in free || g in frames)
    && (forall g :: g in mem && g !in frames ==> mem'[g] == mem[g])
  }

  /** The same while page `f` is still being worked on. */
  ghost predicate ReleasedBut(mem: Memory, free: seq<Frame>, mem': Memory, free': seq<Frame>, frames: set<Frame>,
                              f: Frame)
  {
    && mem'.Keys == mem.Keys
    && (forall g :: g in free' <==> g in free || g in frames)
    && (forall g :: g in mem && g !in frames && g != f ==> mem'[g] == mem[g])
  }

  /** The subtree below `top` is as `mem0` describes it and none of it is free. */
  ghost predicate Standing(mem: Memory, free: seq<Frame>, mem0: Memory, nodes: map<Node, Frame>, top: Node) {
    forall n :: n in nodes && Under(n, top) ==>
      nodes[n] in mem && nodes[n] in mem0 && mem[nodes[n]] == mem0[nodes[n]] && nodes[n] !in free
  }

  /** While the first `i` entries of `top` are done: the rest of its own page and the subtrees of
      the other entries still stand. */
  ghost predicate HalfDone(mem: Memory, free: seq<Frame>, mem0: Memory, nodes: map<Node, Frame>, top: Node, i: nat)
    requires top in nodes
  {
    && nodes[top] in mem && nodes[top] in mem0 && nodes[top] !in free
    && (forall j :: i <= j < ENTRIES ==> mem[nodes[top]][j] == mem0[nodes[top]][j])
    && (forall n :: n in nodes && Under(n, top) && n != top && !UnderFirst(n, top, i) ==>
          nodes[n] in mem && nodes[n] in mem0 && mem[nodes[n]] == mem0[nodes[n]] && nodes[n] !in free)
  }

  lemma ChildStands(mem: Memory, free: seq<Frame>, mem0: Memory, nodes: map<Node, Frame>, top: Node, i: nat)
    requires top in nodes && HalfDone(mem, free, mem0, nodes, top, i)
    ensures Standing(mem, free, mem0, nodes, Child(top, i))
  {
    forall n | n in nodes && Under(n, Child(top, i))
      ensures nodes[n] in mem && nodes[n] in mem0 && mem[nodes[n]] == mem0[nodes[n]] && nodes[n] !in free
    {
      UnderChildIsUnder(n, top, i);
      UnderFirstStep(n, top, i);
      UnderIsDeeper(n, Child(top, i));
    }
  }

  /** Releasing the subtree of entry `i` and clearing the entry leaves the rest standing. */
  lemma EntryDone(mem: Memory, free: seq<Frame>, mem': Memory, free': seq<Frame>, mem'': Memory, mem0: Memory,
                  nodes: map<Node, Frame>, top: Node, i: nat)
    requires Forest(mem0, nodes) && top in nodes && i < ENTRIES && HalfDone(mem, free, mem0, nodes, top, i)
    requires Released(mem, free, mem', free', FramesUnder(nodes, Child(top, i)))
    requires mem'.Keys == mem''.Keys && (forall g :: g in mem' && g != nodes[top] ==> mem''[g] == mem'[g])
    requires forall j :: i < j < ENTRIES ==> mem''[nodes[top]][j] == mem[nodes[top]][j]
    ensures HalfDone(mem'', free', mem0, nodes, top, i + 1)
  {
    var gone := FramesUnder(nodes, Child(top, i));
    assert nodes[top] !in gone by {
      if Under(top, Child(top, i)) { UnderIsDeeper(top, Child(top, i)); }
    }
    forall n | n in nodes && Under(n, top) && n != top && !UnderFirst(n, top, i + 1)
      ensures nodes[n] in mem'' && mem''[nodes[n]] == mem0[nodes[n]] && nodes[n] !in free'
    {
      UnderFirstStep(n, top, i);
      assert nodes[n] !in gone;
    }
  }

  lemma NothingUnder(mem: Memory, nodes: map<Node, Frame>, top: Node)
    requires Forest(mem, nodes) && top !in nodes
    ensures FramesUnder(nodes, top) == {}
  {
    forall n | n in nodes ensures !Under(n, top) {
      NotUnder(mem, nodes, n, top);
    }
  }

  lemma {:induction false} NotUnder(mem: Memory, nodes: map<Node, Frame>, n: Node, top: Node)
    requires Forest(mem, nodes) && top !in nodes && n in nodes
    ensures !Under(n, top)
  {
    if n.Child? { NotUnder(mem, nodes, n.parent, top); }
  }

  /** What one entry leads to, as the source reads it. */
  lemma EntryLeads(mem: Memory, nodes: map<Node, Frame>, top: Node, i: nat)
    requires Forest(mem, nodes) && top in nodes && i < ENTRIES
    ensures Level(top) == 4 ==> Child(top, i) !in nodes
    ensures Level(top) < 4 ==> (Child(top, i) in nodes <==> mem[nodes[top]][i].valid)
    ensures Child(top, i) in nodes ==>
              mem[nodes[top]][i].table && mem[nodes[top]][i].address == nodes[Child(top, i)]
  {
    if Child(top, i) in nodes { assert Level(Child(top, i)) <= 4; }
    if Level(top) < 4 { assert Leads(mem[nodes[top]][i], Child(top, i), nodes); }
  }

  lemma NothingFirst(nodes: map<Node, Frame>, top: Node)
    ensures FramesFirst(nodes, top, 0) == {}
  {
    forall n | n in nodes ensures !UnderFirst(n, top, 0) {
      NotUnderNone(n, top);
    }
  }

  lemma NothingDone(mem: Memory, free: seq<Frame>, mem0: Memory, nodes: map<Node, Frame>, top: Node)
    requires top in nodes && Standing(mem, free, mem0, nodes, top)
    ensures HalfDone(mem, free, mem0, nodes, top, 0)
    ensures ReleasedBut(mem, free, mem, free, FramesFirst(nodes, top, 0), nodes[top])
  {
    NothingFirst(nodes, top);
    assert Under(top, top);
  }

  lemma {:induction false} NotUnderNone(n: Node, top: Node)
    ensures !UnderFirst(n, top, 0)
  {
    if n.Child? { NotUnderNone(n.parent, top); }
  }

  lemma OneMoreEntry(mem0: Memory, mem: Memory, a: seq<Frame>, mem': Memory, b: seq<Frame>, mem'': Memory,
                     c: seq<Frame>,
                     nodes: map<Node, Frame>, top: Node, i: nat, f: Frame)
    requires Forest(mem0, nodes)
    requires ReleasedBut(mem, a, mem', b, FramesFirst(nodes, top, i), f)
    requires ReleasedBut(mem', b, mem'', c, FramesUnder(nodes, Child(top, i)), f)
    ensures ReleasedBut(mem, a, mem'', c, FramesFirst(nodes, top, i + 1), f)
  {
    FramesStep(mem0, nodes, top, i);
  }

  lemma AllEntries(mem0: Memory, mem: Memory, a: seq<Frame>, mem': Memory, b: seq<Frame>, mem'': Memory, c: seq<Frame>,
                   nodes: map<Node, Frame>, top: Node)
    requires Forest(mem0, nodes) && top in nodes
    requires ReleasedBut(mem, a, mem', b, FramesFirst(nodes, top, ENTRIES), nodes[top])
    requires c == [nodes[top]] + b && mem''.Keys == mem'.Keys
    requires forall g :: g in mem' && g != nodes[top] ==> mem''[g] == mem'[g]
    ensures Released(mem, a, mem'', c, FramesUnder(nodes, top))
  {
    FramesAll(mem0, nodes, top);
  }

  /** Frees the table at `f` and everything below it, each frame once. */
  method DestroyRecursive(m: Machine, f: Frame, level: nat,
                          ghost mem0: Memory, ghost nodes: map<Node, Frame>, ghost top: Node)
    requires m.Valid() && Forest(mem0, nodes) && top in nodes && nodes[top] == f && Level(top) == level
    requires Standing(m.mem, m.free, mem0, nodes, top)
    modifies m
    ensures m.Valid()
    ensures Released(old(m.mem), old(m.free), m.mem, m.free, FramesUnder(nodes, top))
    decreases 4 - level, 2
  {
    NothingDone(m.mem, m.free, mem0, nodes, top);
    for i := 0 to ENTRIES
      invariant m.Valid() && HalfDone(m.mem, m.free, mem0, nodes, top, i)
      invariant ReleasedBut(old(m.mem), old(m.free), m.mem, m.free, FramesFirst(nodes, top, i), f)
    {
      DestroyNext(m, f, level, i, mem0, nodes, top, old(m.mem), old(m.free));
    }
    FreeTable(m, f, mem0, nodes, top, old(m.mem), old(m.free));
  }

  /** The last step: the table itself, when all its entries are done. */
  method FreeTable(m: Machine, f: Frame, ghost mem0: Memory, ghost nodes: map<Node, Frame>, ghost top: Node,
                   ghost mem1: Memory, ghost free1: seq<Frame>)
    requires m.Valid() && Forest(mem0, nodes) && top in nodes && nodes[top] == f && f in m.mem && f !in m.free
    requires ReleasedBut(mem1, free1, m.mem, m.free, FramesFirst(nodes, top, ENTRIES), f)
    modifies m
    ensures m.Valid() && Released(mem1, free1, m.mem, m.free, FramesUnder(nodes, top))
  {
    ghost var mem, free := m.mem, m.free;
    m.PmmFreeFrame(f * PAGE_SIZE, f);
    AllEntries(mem0, mem1, free1, mem, free, m.mem, m.free, nodes, top);
  }

  /** `DestroyEntry`, as one more turn after those that began with memory `mem1`. */
  method DestroyNext(m: Machine, f: Frame, level: nat, i: nat, ghost mem0: Memory, ghost nodes: map<Node, Frame>,
                     ghost top: Node, ghost mem1: Memory, ghost free1: seq<Frame>)
    requires m.Valid() && Forest(mem0, nodes) && top in nodes && nodes[top] == f && Level(top) == level
    requires i < ENTRIES && HalfDone(m.mem, m.free, mem0, nodes, top, i)
    requires ReleasedBut(mem1, free1, m.mem, m.free, FramesFirst(nodes, top, i), f)
    modifies m
    ensures m.Valid() && HalfDone(m.mem, m.free, mem0, nodes, top, i + 1)
    ensures ReleasedBut(mem1, free1, m.mem, m.free, FramesFirst(nodes, top, i + 1), f)
    decreases 4 - level, 1
  {
    ghost var mem, free := m.mem, m.free;
    DestroyEntry(m, f, level, i, mem0, nodes, top);
    OneMoreEntry(mem0, mem1, free1, mem, free, m.mem, m.free, nodes, top, i, f);
  }

  /** One turn of the loop: follow entry `i` if it is valid and marked as a table, then clear it. */
  method DestroyEntry(m: Machine, f: Frame, level: nat, i: nat,
                      ghost mem0: Memory, ghost nodes: map<Node, Frame>, ghost top: Node)
    requires m.Valid() && Forest(mem0, nodes) && top in nodes && nodes[top] == f && Level(top) == level
    requires i < ENTRIES && HalfDone(m.mem, m.free, mem0, nodes, top, i)
    modifies m
    ensures m.Valid() && HalfDone(m.mem, m.free, mem0, nodes, top, i + 1)
    ensures ReleasedBut(old(m.mem), old(m.free), m.mem, m.free, FramesUnder(nodes, Child(top, i)), f)
    decreases 4 - level, 0
  {
    EntryLeads(mem0, nodes, top, i);
    if Child(top, i) !in nodes { NothingUnder(mem0, nodes, Child(top, i)); }
    var td := m.mem[f][i];
    ghost var mem, free := m.mem, m.free;
    if td.valid {
      if td.table && level < 4 {
        ChildStands(m.mem, m.free, mem0, nodes, top, i);
        DestroyRecursive(m, td.address, level + 1, mem0, nodes, Child(top, i));
        ParentApart(mem0, nodes, top, i);
      }
      ghost var mem', free' := m.mem, m.free;
      m.Store(f, i, ZERO);
      EntryDone(mem, free, mem', free', m.mem, mem0, nodes, top, i);
    } else {
      EntryDone(mem, free, m.mem, m.free, m.mem, mem0, nodes, top, i);
    }
  }

  lemma ParentApart(mem: Memory, nodes: map<Node, Frame>, top: Node, i: nat)
    requires Forest(mem, nodes) && top in nodes
    ensures nodes[top] !in FramesUnder(nodes, Child(top, i))
  {
    if Under(top, Child(top, i)) { UnderIsDeeper(top, Child(top, i)); }
  }

  // ---- what is freed in all -------------------------------------------------------

  /** The tables, with the mapped pages hung below the leaf tables, are one forest. */
  lemma ForestOf(mem: Memory, free: seq<Frame>, root: Frame, tables: map<Node, Frame>, pages: map<Node, Frame>)
    requires HeldTree(mem, free, root, tables) && Mapping(mem, root, tables, pages)
             && OwnPages(mem, free, tables, pages)
    ensures Forest(mem, tables + pages)
  {
    var nodes := tables + pages;
    assert forall n :: n in pages ==> n !in tables && Level(n) == 4;
    assert forall n :: n in nodes ==> nodes[n] == if n in pages then pages[n] else tables[n];
    forall n, i | n in nodes && Level(n) < 4 && 0 <= i < ENTRIES
      ensures Leads(mem[nodes[n]][i], Child(n, i), nodes)
    {
      ForestEntry(mem, free, root, tables, pages, n, i);
    }
  }

  lemma ForestEntry(mem: Memory, free: seq<Frame>, root: Frame, tables: map<Node, Frame>, pages: map<Node, Frame>,
                    n: Node, i: nat)
    requires HeldTree(mem, free, root, tables) && Mapping(mem, root, tables, pages)
    requires i < ENTRIES && n in tables
    ensures Leads(mem[tables[n]][i], Child(n, i), tables + pages)
  {
    var c := Child(n, i);
    assert Entry(mem[tables[n]][i], n, i, tables);
    if Level(n) == 3 {
      assert Level(n.parent) == 2 && Level(n.parent.parent) == 1 && Level(n.parent.parent.parent) == 0;
      assert IsPlace(c) && c !in tables;
      LeafTableInTree(mem, root, tables, c);
      assert Maps(Leaf(mem, root, c), c, pages);
    } else {
      assert Level(c) < 4 && c !in pages;
    }
  }

  lemma {:induction false} UnderRoot(mem: Memory, nodes: map<Node, Frame>, n: Node)
    requires Forest(mem, nodes) && n in nodes
    ensures Under(n, Root)
  {
    if n.Child? { UnderRoot(mem, nodes, n.parent); }
  }

  lemma EverythingUnderRoot(mem: Memory, nodes: map<Node, Frame>)
    requires Forest(mem, nodes)
    ensures forall f :: f in FramesUnder(nodes, Root) <==> f in nodes.Values
  {
    forall n | n in nodes ensures Under(n, Root) {
      UnderRoot(mem, nodes, n);
    }
  }

  /** Destroying a table frees its tables and also every page it still maps, each once. */
  method PagingDestroyTable(m: Machine, root: Frame, ghost tables: map<Node, Frame>, ghost pages: map<Node, Frame>)
    requires TreeIn(m, root, tables)
    requires Mapping(m.mem, root, tables, pages) && OwnPages(m.mem, m.free, tables, pages)
    modifies m
    ensures m.Valid()
    ensures Released(old(m.mem), old(m.free), m.mem, m.free, (tables + pages).Values)
  {
    ghost var nodes := tables + pages;
    ForestOf(m.mem, m.free, root, tables, pages);
    EverythingUnderRoot(m.mem, nodes);
    DestroyRecursive(m, root, 0, m.mem, nodes, Root);
  }

  /** It frees exactly the tables when, and only when, nothing is mapped any more. */
  lemma FreesOnlyTablesIffUnmapped(mem: Memory, free: seq<Frame>, mem': Memory, free': seq<Frame>,
                                   tables: map<Node, Frame>, pages: map<Node, Frame>)
    requires OwnPages(mem, free, tables, pages)
    requires Released(mem, free, mem', free', (tables + pages).Values)
    ensures (forall f :: f in free' <==> f in free || f in tables.Values) <==> pages == map[]
  {
    if pages == map[] {
      assert tables + pages == tables;
    } else {
      var n :| n in pages;
      assert (tables + pages)[n] == pages[n];
      assert pages[n] in free' && pages[n] !in free && pages[n] !in tables.Values;
    }
  }
}
