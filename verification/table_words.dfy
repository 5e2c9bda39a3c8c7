/** The words of translation tables bit by bit, and the walk over them that the processor makes. */
module TableWords {
  import opened Collections
  import opened Descriptors
  import opened Frames
  import opened PageTree

  /** A page descriptor, by bit position: valid, a page, accessed, and nothing set that was not asked for. */
  predicate PageWord(w: Word, frame: Frame, a: Attributes) {
    && w % 2 == 1 && w / 2 % 2 == 1
    && w / 4 % 8 == a.attrIndex
    && w / 0x20 % 2 == 0
    && (w / 0x40 % 2 == 1 <==> a.ap == EL1_READ_WRITE_EL0_READ_WRITE || a.ap == EL1_READ_ONLY_EL0_READ_ONLY)
    && (w / 0x80 % 2 == 1 <==> a.ap == EL1_READ_ONLY_EL0_NONE || a.ap == EL1_READ_ONLY_EL0_READ_ONLY)
    && w / 0x100 % 4 == a.sh
    && w / 0x400 % 2 == 1 && w / 0x800 % 2 == 0
    && w / 0x1000 % VPN_LIMIT == frame
    && w / 0x1_0000_0000_0000 % 32 == 0
    && (w / 0x20_0000_0000_0000 % 2 == 1 <==> a.pxn == NOT_EXECUTABLE)
    && (w / 0x40_0000_0000_0000 % 2 == 1 <==> a.uxn == NOT_EXECUTABLE)
    && w / 0x80_0000_0000_0000 == 0
  }

  lemma PageEntryWord(frame: Frame, a: Attributes)
    ensures PageWord(Encode(PageEntry(frame, a)), frame, a)
  {
    var d := PageEntry(frame, a);
    PermBits(d);
    EncodeLow(d);
    EncodeMiddle(d);
    EncodeHigh(d);
  }

  /** Of the two permission bits the lower one lets programs in and the upper one forbids writing. */
  lemma PermBits(d: Descriptor)
    ensures var w := Encode(d);
            && (w / 0x40 % 2 == 1 <==> d.ap == EL1_READ_WRITE_EL0_READ_WRITE || d.ap == EL1_READ_ONLY_EL0_READ_ONLY)
            && (w / 0x80 % 2 == 1 <==> d.ap == EL1_READ_ONLY_EL0_NONE || d.ap == EL1_READ_ONLY_EL0_READ_ONLY)
  {
    var w := Encode(d);
    EncodeMiddle(d);
    DivDiv(w, 0x40, 2);
    TwoBits(w / 0x40);
  }

  lemma TwoBits(x: nat)
    ensures x % 4 == x % 2 + 2 * (x / 2 % 2)
  {
  }

  /** Page `k` of the range has such a word. */
  ghost predicate WordMapped(mem: Memory, root: Frame, places: seq<Node>, frame: nat, a: Attributes, k: nat)
    requires Places(places) && frame + |places| <= VPN_LIMIT && k < |places|
  {
    PageWord(Encode(Leaf(mem, root, places[k])), frame + k, a)
  }

  ghost predicate WordsMapped(mem: Memory, root: Frame, places: seq<Node>, frame: nat, a: Attributes)
    requires Places(places) && frame + |places| <= VPN_LIMIT
  {
    forall k :: 0 <= k < |places| ==> WordMapped(mem, root, places, frame, a, k)
  }

  lemma RangeWords(mem: Memory, mem': Memory, root: Frame, places: seq<Node>, frame: nat, a: Attributes)
    requires Places(places) && frame + |places| <= VPN_LIMIT
    requires RangeMapped(mem, mem', root, places, |places|, frame, a)
    ensures WordsMapped(mem', root, places, frame, a)
  {
    forall k | 0 <= k < |places| ensures WordMapped(mem', root, places, frame, a, k) {
      PageEntryWord(frame + k, a);
    }
  }

  // ---- the processor's walk -------------------------------------------------------

  /** The frame that word `i` of the table at `f` leads to: the word has its two lowest bits set. */
  function Follow(mem: Memory, f: Frame, i: nat): Option<Frame>
    requires i < ENTRIES
  {
    if f in mem && Encode(mem[f][i]) % 4 == 3 then Some(Encode(mem[f][i]) / 0x1000 % VPN_LIMIT) else None
  }

  /** Nine bits of the address for each of four tables, the highest first. */
  function Walk(mem: Memory, root: Frame, va: nat): Option<Frame> {
    match Follow(mem, root, va / 0x80_0000_0000 % 512)
    case None => None
    case Some(l1) =>
      match Follow(mem, l1, va / 0x4000_0000 % 512)
      case None => None
      case Some(l2) =>
        match Follow(mem, l2, va / 0x20_0000 % 512)
        case None => None
        case Some(l3) => Follow(mem, l3, va / 0x1000 % 512)
  }

  /** A table entry's word has bits 0 and 1 set, the address, and nothing else. */
  lemma TableEntryWord(f: Frame)
    ensures Encode(TableEntry(f)) == 0x1000 * f + 3
  {
  }

  lemma LowBits(d: Descriptor)
    ensures Encode(d) % 4 == 3 <==> d.valid && d.table
    ensures Encode(d) / 0x1000 % VPN_LIMIT == d.address
  {
    EncodeLow(d);
    EncodeMiddle(d);
  }

  lemma FollowsLink(mem: Memory, root: Frame, tables: map<Node, Frame>, n: Node, i: nat)
    requires Tree(mem, root, tables) && n in tables && Level(n) < 3 && i < ENTRIES
    ensures Follow(mem, tables[n], i) == if Child(n, i) in tables then Some(tables[Child(n, i)]) else None
  {
    assert Linked(mem[tables[n]][i], Child(n, i), tables);
    LowBits(mem[tables[n]][i]);
  }

  /** In a sound tree the processor's walk ends at the frame in the leaf, and fails where the leaf is not valid. */
  lemma WalkIsLeaf(mem: Memory, root: Frame, tables: map<Node, Frame>, pages: map<Node, Frame>, va: nat)
    requires Tree(mem, root, tables) && Mapping(mem, root, tables, pages)
    ensures Walk(mem, root, va) == if Place(va) in pages then Some(pages[Place(va)]) else None
  {
    var n := Place(va);
    var l1, l2, l3 := n.parent.parent.parent, n.parent.parent, n.parent;
    assert Level(l1) == 1 && Level(l2) == 2;
    FollowsLink(mem, root, tables, Root, l1.index);
    if l1 in tables {
      FollowsLink(mem, root, tables, l1, l2.index);
      if l2 in tables { FollowsLink(mem, root, tables, l2, l3.index); }
    }
    LeafTableInTree(mem, root, tables, n);
    assert Maps(Leaf(mem, root, n), n, pages);
    if l3 in tables { LowBits(mem[tables[l3]][n.index]); }
  }
}
