/** Loading an executable into an address space: frames, tables and region included. */
module ElfLoad {
  import opened Collections
  import opened Results
  import opened Descriptors
  import opened Frames
  import opened PageTree
  import opened Ownership
  import opened Growth
  import opened Bitmap
  import opened Region
  import opened Vmm
  import opened MapOwned
  import opened AddressSpaces
  import opened PageBytes
  import opened TableWords
  import opened Elf

  // ---- what the program sees -------------------------------------------------------

  ghost predicate IsMapped(mem: Memory, root: Frame, va: nat) {
    var d := Leaf(mem, root, Place(va));
    UserPage(va) && d.valid && d.address in mem
  }

  /** The page of memory that `va` translates to. */
  ghost function PageSeen(mem: Memory, root: Frame, va: nat): Mapped
    requires IsMapped(mem, root, va)
  {
    var d := Leaf(mem, root, Place(va));
    Mapped(BytesOf(mem[d.address]), d.(address := 0))
  }

  /** The user range as the translation tables at `root` show it. */
  ghost function ImageOf(mem: Memory, root: Frame): Image {
    imap va: nat | IsMapped(mem, root, va) :: PageSeen(mem, root, va)
  }

  ghost predicate ContentsStay(mem: Memory, mem': Memory, pages: map<Node, Frame>) {
    forall q :: q in pages ==> pages[q] in mem && pages[q] in mem' && mem'[pages[q]] == mem[pages[q]]
  }

  /** With the same translations to the same pages a program sees the same. */
  lemma ImageKept(mem: Memory, mem': Memory, root: Frame, tables: map<Node, Frame>, pages: map<Node, Frame>)
    requires Mapping(mem, root, tables, pages) && ContentsStay(mem, mem', pages) && SameLeaves(mem, mem', root)
    ensures ImageOf(mem', root) == ImageOf(mem, root)
  {
    forall va: nat | UserPage(va) ensures SeenSame(mem, mem', root, va) {
      PageIsUnmapped(mem, root, tables, pages, Place(va));
    }
  }

  ghost predicate SeenSame(mem: Memory, mem': Memory, root: Frame, va: nat) {
    && (IsMapped(mem', root, va) <==> IsMapped(mem, root, va))
    && (IsMapped(mem, root, va) ==> PageSeen(mem', root, va) == PageSeen(mem, root, va))
  }

  lemma UserPlaces(a: nat, b: nat)
    requires UserPage(a) && UserPage(b) && a != b
    ensures Place(a) != Place(b)
  {
    PlaceOfAddress(a, b);
  }

  /** Where the other translations and their pages are the same, the other pages look the same. */
  lemma OthersSeenSame(mem: Memory, mem': Memory, root: Frame, tables: map<Node, Frame>, pages: map<Node, Frame>,
                       va: nat, v: nat)
    requires Mapping(mem, root, tables, pages) && UserPage(va) && UserPage(v) && v != va
    requires forall k :: IsPlace(k) && k != Place(va) ==> Leaf(mem', root, k) == Leaf(mem, root, k)
    requires ContentsStay(mem, mem', pages - {Place(va)})
    ensures SeenSame(mem, mem', root, v)
  {
    UserPlaces(v, va);
    PageIsUnmapped(mem, root, tables, pages, Place(v));
    if Place(v) in pages {
      assert Place(v) in pages - {Place(va)};
    }
  }

  lemma ImageWith(mem: Memory, mem': Memory, root: Frame, va: nat, seen: Mapped)
    requires forall v: nat :: UserPage(v) && v != va ==> SeenSame(mem, mem', root, v)
    requires IsMapped(mem', root, va) && PageSeen(mem', root, va) == seen
    ensures ImageOf(mem', root) == ImageOf(mem, root)[va := seen]
  {
  }

  /** One more translation is one more page of the image. */
  lemma ImageGrown(mem: Memory, mem': Memory, root: Frame, tables: map<Node, Frame>, pages: map<Node, Frame>,
                   va: nat, f: Frame, a: Attributes)
    requires Mapping(mem, root, tables, pages) && ContentsStay(mem, mem', pages) && UserPage(va) && f in mem'
    requires LeafSet(mem, mem', root, Place(va), PageEntry(f, a))
    ensures ImageOf(mem', root) == ImageOf(mem, root)[va := Mapped(BytesOf(mem'[f]), PageEntry(0, a))]
  {
    forall v: nat | UserPage(v) && v != va ensures SeenSame(mem, mem', root, v) {
      OthersSeenSame(mem, mem', root, tables, pages, va, v);
    }
    ImageWith(mem, mem', root, va, Mapped(BytesOf(mem'[f]), PageEntry(0, a)));
  }

  /** New contents for one page of a tree. */
  lemma ImagePatched(mem: Memory, free: seq<Frame>, mem': Memory, root: Frame, tables: map<Node, Frame>,
                     pages: map<Node, Frame>, va: nat, f: Frame)
    requires Owns(mem, free, root, tables, pages) && UserPage(va)
    requires Place(va) in pages && pages[Place(va)] == f && f in mem' && mem' == mem[f := mem'[f]]
    ensures Owns(mem', free, root, tables, pages)
    ensures va in ImageOf(mem, root)
    ensures ImageOf(mem', root) == ImageOf(mem, root)[va := Mapped(BytesOf(mem'[f]), ImageOf(mem, root)[va].entry)]
  {
    PatchedStaysOwned(mem, free, mem', root, tables, pages, Place(va), f);
    PageIsUnmapped(mem, root, tables, pages, Place(va));
    forall v: nat | UserPage(v) && v != va ensures SeenSame(mem, mem', root, v) {
      OthersSeenSame(mem, mem', root, tables, pages, va, v);
    }
    ImageWith(mem, mem', root, va, Mapped(BytesOf(mem'[f]), ImageOf(mem, root)[va].entry));
  }

  lemma PatchedStaysOwned(mem: Memory, free: seq<Frame>, mem': Memory, root: Frame, tables: map<Node, Frame>,
                          pages: map<Node, Frame>, n: Node, f: Frame)
    requires Owns(mem, free, root, tables, pages)
    requires n in pages && pages[n] == f && f in mem' && mem' == mem[f := mem'[f]]
    ensures Owns(mem', free, root, tables, pages) && SameLeaves(mem, mem', root)
    ensures ContentsStay(mem, mem', pages - {n})
  {
    assert NotTable(f, tables);
    OwnsFrame(mem, free, mem', free, root, tables, pages);
  }

  /** A page of the user range is in the region's pool. */
  lemma PageInPool(s: AddressSpace, va: nat)
    requires s.Shape() && va % PAGE_SIZE == 0
    ensures UserPage(va) <==> s.region.InPool(va, 1)
    ensures UserPage(va) ==> var p := (va - USER_VM_RANGE_BASE) / PAGE_SIZE; p < |s.places| && s.places[p] == Place(va)
  {
    if UserPage(va) { PlaceOfPage(s.region, s.places, (va - USER_VM_RANGE_BASE) / PAGE_SIZE, va); }
  }

  /** The index of a user page in the pool, and what mapping it asks for. */
  lemma IndexOfPage(s: AddressSpace, va: nat, all: set<Node>) returns (p: nat)
    requires s.Shape() && UserPage(va) && HasPath(all, Place(va))
    ensures s.region.InPool(va, 1) && p == (va - s.region.allocator.pool) / PAGE_SIZE
    ensures p < |s.places| && s.places[p] == Place(va)
    ensures forall q :: p <= q < p + 1 && q < |s.places| ==> HasPath(all, s.places[q])
  {
    PageInPool(s, va);
    p := (va - USER_VM_RANGE_BASE) / PAGE_SIZE;
    forall q | p <= q < p + 1 && q < |s.places| ensures HasPath(all, s.places[q]) { assert q == p; }
  }

  // ---- frames ----------------------------------------------------------------------

  /** When frames run out, tables do not: either every table on the way is there, or there are frames for the missing
      ones and for `n` pages. */
  ghost predicate Room(all: set<Node>, tables: map<Node, Frame>, free: seq<Frame>, n: nat) {
    Missing(all, tables) == 0 || Missing(all, tables) + n <= |free|
  }

  lemma ExchangedTwice(mem: Memory, free: seq<Frame>, held: set<Frame>, mem1: Memory, free1: seq<Frame>,
                       held1: set<Frame>, mem2: Memory, free2: seq<Frame>, held2: set<Frame>)
    requires Exchanged(mem, free, held, {}, mem1, free1, held1) && Exchanged(mem1, free1, held1, {}, mem2, free2, held2)
    ensures Exchanged(mem, free, held, {}, mem2, free2, held2)
  {
  }

  /** A frame that was taken off the free list and then handed over. */
  lemma TakenThenGiven(mem: Memory, free: seq<Frame>, held: set<Frame>, mem1: Memory, given: set<Frame>,
                       mem2: Memory, free2: seq<Frame>, held2: set<Frame>)
    requires FirstTaken(mem, free, mem1) && forall g: Frame :: g in given <==> g == free[0]
    requires Exchanged(mem1, free[1..], held, given, mem2, free2, held2)
    ensures Exchanged(mem, free, held, {}, mem2, free2, held2)
  {
    assert forall g :: g in free <==> g == free[0] || g in free[1..];
  }

  /** Growth leaves owned pages and pages that belong to nobody alone. */
  lemma GrowthKeepsContents(mem: Memory, free: seq<Frame>, tables: map<Node, Frame>, pages: map<Node, Frame>,
                            mem': Memory, free': seq<Frame>, tables': map<Node, Frame>, all: set<Node>, f: Frame)
    requires OwnPages(mem, free, tables, pages) && Grew(mem, free, tables, mem', free', tables', all, 0)
    requires f in mem && f !in free && !Holds(tables, pages, f)
    ensures ContentsStay(mem, mem', pages) && f in mem' && mem'[f] == mem[f]
  {
    assert NotTable(f, tables);
  }

  /** A zeroed frame has been taken off the free list. */
  ghost predicate ZeroTaken(mem: Memory, free: seq<Frame>, mem1: Memory) {
    FirstTaken(mem, free, mem1) && mem1[free[0]] == ZeroPage()
  }

  /** A page of zeros has joined the address space at `va`. */
  ghost predicate ZeroPageAdded(mem: Memory, free: seq<Frame>, tables: map<Node, Frame>, pages: map<Node, Frame>,
                                mem': Memory, free': seq<Frame>, tables': map<Node, Frame>, pages': map<Node, Frame>,
                                root: Frame, va: nat, f: Frame, a: Attributes)
  {
    && pages' == pages[Place(va) := f]
    && Exchanged(mem, free, FramesOf(tables, pages), {}, mem', free', FramesOf(tables', pages'))
    && f in mem' && BytesOf(mem'[f]) == ZeroBytes()
    && ImageOf(mem', root) == ImageOf(mem, root)[va := Mapped(ZeroBytes(), PageEntry(0, a))]
  }

  lemma TakenAndMapped(mem: Memory, free: seq<Frame>, tables: map<Node, Frame>, pages: map<Node, Frame>,
                       mem1: Memory, mem': Memory, free': seq<Frame>, tables': map<Node, Frame>,
                       pages': map<Node, Frame>, root: Frame, va: nat, f: Frame, a: Attributes, all: set<Node>,
                       left: nat)
    requires left > 0 && Room(all, tables, free, left)
    requires Owns(mem, free, root, tables, pages) && ZeroTaken(mem, free, mem1) && f == free[0] && UserPage(va)
    requires Grew(mem1, free[1..], tables, mem', free', tables', all, 0)
    requires LeafSet(mem1, mem', root, Place(va), PageEntry(f, a)) && pages' == pages[Place(va) := f]
    requires Exchanged(mem1, free[1..], FramesOf(tables, pages), GivenFrames(f, 1), mem', free',
                       FramesOf(tables', pages'))
    ensures ZeroPageAdded(mem, free, tables, pages, mem', free', tables', pages', root, va, f, a)
    ensures Room(all, tables', free', left - 1)
  {
    FreeFrameIsNew(mem, free, root, tables, pages, mem1);
    GrowthKeepsContents(mem1, free[1..], tables, pages, mem', free', tables', all, f);
    HeldStay(mem, free, root, tables, pages, mem1);
    ImageKept(mem, mem1, root, tables, pages);
    ImageGrown(mem1, mem', root, tables, pages, va, f, a);
    ZeroPageBytes();
    TakenThenGiven(mem, free, FramesOf(tables, pages), mem1, GivenFrames(f, 1), mem', free', FramesOf(tables', pages'));
    GrewBudget(mem1, free[1..], tables, mem', free', tables', all, 0);
    SubsetSize(all - tables'.Keys, all - tables.Keys);
  }

  /** Frames of a tree are not the first free one. */
  lemma HeldStay(mem: Memory, free: seq<Frame>, root: Frame, tables: map<Node, Frame>, pages: map<Node, Frame>,
                 mem1: Memory)
    requires Owns(mem, free, root, tables, pages) && FirstTaken(mem, free, mem1)
    ensures ContentsStay(mem, mem1, pages)
  {
    assert free[0] in free;
  }

  lemma OneHanded(mem: Memory, free: seq<Frame>, tables: map<Node, Frame>, pages: map<Node, Frame>, f: Frame)
    requires f in mem && f !in free && !Holds(tables, pages, f)
    ensures Handed(mem, free, tables, pages, f, 1)
  {
  }

  /** One page of an owned mapping, taken apart. */
  lemma OnePageTakenOver(pool: nat, bits: seq<bool>, allocs: seq<Allocation>, bits': seq<bool>,
                         allocs': seq<Allocation>,
                         mem: Memory, free: seq<Frame>, tables: map<Node, Frame>, pages: map<Node, Frame>,
                         mem': Memory, free': seq<Frame>, tables': map<Node, Frame>, pages': map<Node, Frame>,
                         root: Frame, places: seq<Node>, slot: nat, start: nat, f: Frame, a: Attributes)
    requires TakenOver(pool, bits, allocs, bits', allocs', mem, free, tables, pages, mem', free', tables', pages',
                       root, places, slot, start, 1, f, a)
    ensures start < |places| && IsPlace(places[start]) && pages' == pages[places[start] := f]
    ensures LeafSet(mem, mem', root, places[start], PageEntry(f, a))
  {
    var run := places[start..start + 1];
    assert run[0] == places[start];
    assert AddRange(pages, run, f, 0) == pages;
    forall k | IsPlace(k) && k != places[start] ensures Leaf(mem', root, k) == Leaf(mem, root, k) {
      assert !Among(k, run, 1);
    }
  }

  /** The free bits are those of the pages that the program does not see. */
  lemma FreePageIff(mem: Memory, free: seq<Frame>, root: Frame, tables: map<Node, Frame>, pages: map<Node, Frame>,
                    places: seq<Node>, bits: seq<bool>, start: nat, va: nat)
    requires Owns(mem, free, root, tables, pages) && InRegion(places, bits, pages)
    requires start < |places| && places[start] == Place(va) && UserPage(va)
    ensures FreeRun(bits, start, 1) <==> va !in ImageOf(mem, root)
  {
    SeenIffOwned(mem, free, root, tables, pages, va);
    OneFreePage(bits, start);
  }

  lemma OneFreePage(bits: seq<bool>, p: nat)
    requires p < |bits|
    ensures FreeRun(bits, p, 1) <==> !bits[p]
  {
  }

  lemma SeenIffOwned(mem: Memory, free: seq<Frame>, root: Frame, tables: map<Node, Frame>, pages: map<Node, Frame>,
                     va: nat)
    requires Owns(mem, free, root, tables, pages) && UserPage(va)
    ensures va in ImageOf(mem, root) <==> Place(va) in pages
  {
    PageIsUnmapped(mem, root, tables, pages, Place(va));
  }

  /** Taking a frame is nothing to a tree, nor to a program. */
  lemma FirstIsTaken(mem: Memory, free: seq<Frame>, root: Frame, tables: map<Node, Frame>, pages: map<Node, Frame>,
                     mem1: Memory)
    requires Owns(mem, free, root, tables, pages) && FirstTaken(mem, free, mem1)
    ensures Owns(mem1, free[1..], root, tables, pages) && ImageOf(mem1, root) == ImageOf(mem, root)
    ensures free[0] in mem1 && free[0] !in free[1..] && !Holds(tables, pages, free[0]) && [free[0]] + free[1..] == free
  {
    FreeFrameIsNew(mem, free, root, tables, pages, mem1);
    HeldStay(mem, free, root, tables, pages, mem1);
    ImageKept(mem, mem1, root, tables, pages);
  }

  /** Giving back the frame that was just taken. */
  lemma TakenAndGivenBack(mem: Memory, free: seq<Frame>, tables: map<Node, Frame>, pages: map<Node, Frame>,
                          mem1: Memory, mem2: Memory, root: Frame)
    requires Owns(mem, free, root, tables, pages) && FirstTaken(mem, free, mem1) && FirstTaken(mem, free, mem2)
    ensures Owns(mem2, free, root, tables, pages) && ImageOf(mem2, root) == ImageOf(mem, root)
    ensures Exchanged(mem, free, FramesOf(tables, pages), {}, mem2, free, FramesOf(tables, pages))
  {
    FreeFrameIsNew(mem, free, root, tables, pages, mem2);
    OwnsFrame(mem, free, mem2, free, root, tables, pages);
    HeldStay(mem, free, root, tables, pages, mem2);
    ImageKept(mem, mem2, root, tables, pages);
    assert free[0] in free;
  }

  // ---- loading ---------------------------------------------------------------------

  /** Maps a frame that the loader holds at page `va`. */
  method MapTaken(s: AddressSpace, m: Machine, va: Word, pa: Word, perms: PagePerms, uxn: ExecPerms,
                  ghost all: set<Node>, ghost f: Frame)
    returns (err: int)
    requires s.Valid(m) && UserPage(va) && HasPath(all, Place(va)) && Missing(all, s.tables) <= |m.free|
    requires pa == f * PAGE_SIZE && f in m.mem && f !in m.free && !Holds(s.tables, s.pages, f)
    modifies m, s`tables, s`pages, s.region.allocator.bitmap, s.region.allocations
    ensures s.Valid(m)
    ensures err == if Full(old(s.region.Table())) || va in ImageOf(old(m.mem), s.root) then ENOMEM else EOK
    ensures err != EOK ==> m.mem == old(m.mem) && m.free == old(m.free) && s.tables == old(s.tables)
                           && s.pages == old(s.pages) && s.region.Table() == old(s.region.Table())
    ensures err == EOK ==>
              && LeafSet(old(m.mem), m.mem, s.root, Place(va), PageEntry(f, UserAttributes(perms, uxn)))
              && s.pages == old(s.pages)[Place(va) := f]
              && Grew(old(m.mem), old(m.free), old(s.tables), m.mem, m.free, s.tables, all, 0)
              && Exchanged(old(m.mem), old(m.free), old(s.Frames()), GivenFrames(f, 1), m.mem, m.free, s.Frames())
  {
    ghost var bits, allocs, slot := s.region.Bits(), s.region.Table(), 0;
    ghost var start := IndexOfPage(s, va, all);
    FreePageIff(m.mem, m.free, s.root, s.tables, s.pages, s.places, bits, start, va);
    OneHanded(m.mem, m.free, s.tables, s.pages, f);
    err, slot := s.MapOwned(m, va, pa, PAGE_SIZE, perms, uxn, f, start, 1, all);
    if err == EOK {
      OnePageTakenOver(USER_VM_RANGE_BASE, bits, allocs, s.region.Bits(), s.region.Table(), old(m.mem), old(m.free),
                       old(s.tables), old(s.pages), m.mem, m.free, s.tables, s.pages, s.root, s.places, slot, start, f,
                       UserAttributes(perms, uxn));
    }
  }

  /** A page that could not be loaded leaves no trace. */
  ghost predicate Unloaded(mem: Memory, free: seq<Frame>, tables: map<Node, Frame>, pages: map<Node, Frame>,
                           mem': Memory, free': seq<Frame>, tables': map<Node, Frame>, pages': map<Node, Frame>,
                           root: Frame)
  {
    && free' == free && tables' == tables && pages' == pages && ImageOf(mem', root) == ImageOf(mem, root)
    && Exchanged(mem, free, FramesOf(tables, pages), {}, mem', free', FramesOf(tables', pages'))
  }

  /** The frame that was just taken goes back. */
  method GiveBack(s: AddressSpace, m: Machine, pa: nat, ghost f: Frame, ghost mem: Memory, ghost free: seq<Frame>)
    requires s.Valid(m) && pa == f * PAGE_SIZE && f in m.mem && f !in m.free
    requires Owns(mem, free, s.root, s.tables, s.pages) && FirstTaken(mem, free, m.mem) && [f] + m.free == free
    modifies m
    ensures s.Valid(m)
    ensures Unloaded(mem, free, s.tables, s.pages, m.mem, m.free, s.tables, s.pages, s.root)
  {
    ghost var mem1 := m.mem;
    m.PmmFreeFrame(pa, f);
    TakenAndGivenBack(mem, free, s.tables, s.pages, mem1, m.mem, s.root);
  }

  /** A fresh zeroed frame at `va`.  When it cannot be mapped there it goes back. */
  method MapNewPage(s: AddressSpace, m: Machine, va: Word, perms: PagePerms, uxn: ExecPerms, ghost all: set<Node>,
                    ghost left: nat)
    returns (err: int, pa: nat, ghost f: Frame)
    requires s.Valid(m) && UserPage(va) && HasPath(all, Place(va)) && left > 0 && Room(all, s.tables, m.free, left)
    modifies m, s`tables, s`pages, s.region.allocator.bitmap, s.region.allocations
    ensures s.Valid(m)
    ensures err == if old(m.free) == [] || Full(old(s.region.Table())) || va in ImageOf(old(m.mem), s.root) then ENOMEM
                   else EOK
    ensures err != EOK ==> Unloaded(old(m.mem), old(m.free), old(s.tables), old(s.pages), m.mem, m.free, s.tables,
                                    s.pages, s.root)
                           && s.region.Table() == old(s.region.Table())
    ensures err == EOK ==> pa == f * PAGE_SIZE && Room(all, s.tables, m.free, left - 1)
    ensures err == EOK ==> ZeroPageAdded(old(m.mem), old(m.free), old(s.tables), old(s.pages), m.mem, m.free, s.tables,
                                         s.pages, s.root, va, f, UserAttributes(perms, uxn))
  {
    ghost var mem, free, tables, pages := m.mem, m.free, s.tables, s.pages;
    f := 0;
    var r := m.PmmAlloc();
    if r.Err? {
      return r.errno, 0, f;
    }
    pa, f := r.value, free[0];
    ghost var mem1 := m.mem;
    FirstIsTaken(mem, free, s.root, tables, pages, mem1);
    err := MapTaken(s, m, va, pa, perms, uxn, all, f);
    if err != EOK {
      GiveBack(s, m, pa, f, mem, free);
      return;
    }
    TakenAndMapped(mem, free, tables, pages, mem1, m.mem, m.free, s.tables, s.pages, s.root, va, f,
                   UserAttributes(perms, uxn), all, left);
  }

  /** The segment's page `va` has joined the address space. */
  ghost predicate PageLoaded(mem: Memory, free: seq<Frame>, held: set<Frame>, mem': Memory, free': seq<Frame>,
                             held': set<Frame>, root: Frame, elf: seq<Byte>, ph: ProgramHeader, va: nat)
  {
    && Exchanged(mem, free, held, {}, mem', free', held')
    && SegmentPage(ImageOf(mem, root), ImageOf(mem', root), elf, ph, va)
    && ImageOf(mem', root) == ImageOf(mem, root)[va := ImageOf(mem', root)[va]]
  }

  /** A page that the tree holds is changed; frames stay where they are. */
  lemma ExchangedAndPatched(mem: Memory, free: seq<Frame>, held: set<Frame>, mem1: Memory, mem': Memory,
                            free': seq<Frame>, held': set<Frame>, f: Frame)
    requires Exchanged(mem, free, held, {}, mem1, free', held') && f in held' && f in mem1
    requires f in mem' && mem' == mem1[f := mem'[f]]
    ensures Exchanged(mem, free, held, {}, mem', free', held')
  {
  }

  /** The page of zeros with the segment's bytes in it. */
  lemma BytesLoaded(mem: Memory, free: seq<Frame>, tables: map<Node, Frame>, pages: map<Node, Frame>,
                    mem1: Memory, mem': Memory, free': seq<Frame>, tables': map<Node, Frame>, pages': map<Node, Frame>,
                    root: Frame, elf: seq<Byte>, ph: ProgramHeader, va: nat, f: Frame)
    requires ZeroPageAdded(mem, free, tables, pages, mem1, free', tables', pages', root, va, f,
                           UserAttributes(PermsOf(ph), ExecPermsOf(ph)))
    requires UserPage(va) && Owns(mem1, free', root, tables', pages') && f in mem' && mem' == mem1[f := mem'[f]]
    requires PageShows(BytesOf(mem'[f]), elf, ph, va) && va !in ImageOf(mem, root)
    ensures Owns(mem', free', root, tables', pages')
    ensures PageLoaded(mem, free, FramesOf(tables, pages), mem', free', FramesOf(tables', pages'), root, elf, ph, va)
  {
    ImagePatched(mem1, free', mem', root, tables', pages', va, f);
    assert f in pages'.Values by { assert pages'[Place(va)] == f; }
    ExchangedAndPatched(mem, free, FramesOf(tables, pages), mem1, mem', free', FramesOf(tables', pages'), f);
    ImageTwice(ImageOf(mem, root), ImageOf(mem1, root), ImageOf(mem', root), va);
  }

  lemma ImageTwice(was: Image, mid: Image, now: Image, va: nat)
    requires va in mid && va in now && mid == was[va := mid[va]] && now == mid[va := now[va]]
    ensures now == was[va := now[va]]
  {
  }

  /** The part of the file that belongs on the page.  All reads stay within the file part, all writes within the
      page. */
  method CopyPart(m: Machine, elf: seq<Byte>, ph: ProgramHeader, va: Word, pa: nat, ghost f: Frame)
    requires m.Valid() && f in m.mem && f !in m.free && pa == f * PAGE_SIZE && BytesOf(m.mem[f]) == ZeroBytes()
    requires |elf| < WORD_LIMIT && Accepted(ph, |elf|) && InSegment(ph, va) && va <= ph.vaddr + ph.filesz
    modifies m
    ensures m.Valid() && m.free == old(m.free) && f in m.mem && m.mem == old(m.mem)[f := m.mem[f]]
    ensures PageShows(BytesOf(m.mem[f]), elf, ph, va)
  {
    var copyStart, copyEnd := CopyStart(ph, va), CopyEnd(ph, va);
    CopyStaysInPage(ph, |elf|, va);
    if copyEnd <= copyStart {
      NothingCopied(elf, ph, va);
      return;
    }
    var size := copyEnd - copyStart;
    var fileOffset := ph.offset + (va + copyStart - ph.vaddr);
    CopyIn(m, pa / PAGE_SIZE, copyStart, elf[fileOffset..fileOffset + size]);
    PartCopied(elf, ph, va, BytesOf(m.mem[f]));
  }

  /** The same for a page of zeros that has just joined the address space. */
  method FillPage(s: AddressSpace, m: Machine, elf: seq<Byte>, ph: ProgramHeader, va: Word, pa: nat, ghost f: Frame,
                  ghost mem: Memory, ghost free: seq<Frame>, ghost tables: map<Node, Frame>,
                  ghost pages: map<Node, Frame>)
    requires s.Valid(m) && UserPage(va) && va !in ImageOf(mem, s.root) && pa == f * PAGE_SIZE
    requires ZeroPageAdded(mem, free, tables, pages, m.mem, m.free, s.tables, s.pages, s.root, va, f,
                           UserAttributes(PermsOf(ph), ExecPermsOf(ph)))
    requires |elf| < WORD_LIMIT && Accepted(ph, |elf|) && InSegment(ph, va) && va <= ph.vaddr + ph.filesz
    modifies m
    ensures s.Valid(m) && m.free == old(m.free)
    ensures PageLoaded(mem, free, FramesOf(tables, pages), m.mem, m.free, s.Frames(), s.root, elf, ph, va)
  {
    ghost var mem1 := m.mem;
    assert s as object != m && s.region.allocator.bitmap as object != m && s.region.allocations as object != m;
    assert s.pages[Place(va)] == f;
    CopyPart(m, elf, ph, va, pa, f);
    BytesLoaded(mem, free, tables, pages, mem1, m.mem, m.free, s.tables, s.pages, s.root, elf, ph, va, f);
  }

  /** One turn of the loop: a page, and the part of the file that belongs there. */
  method LoadPage(s: AddressSpace, m: Machine, elf: seq<Byte>, ph: ProgramHeader, va: Word, ghost all: set<Node>,
                  ghost left: nat)
    returns (err: int)
    requires s.Valid(m) && |elf| < WORD_LIMIT && Accepted(ph, |elf|) && InSegment(ph, va)
    requires UserPage(va) && va <= ph.vaddr + ph.filesz
    requires HasPath(all, Place(va)) && left > 0 && Room(all, s.tables, m.free, left)
    modifies m, s`tables, s`pages, s.region.allocator.bitmap, s.region.allocations
    ensures s.Valid(m)
    ensures err == if old(m.free) == [] || Full(old(s.region.Table())) || va in ImageOf(old(m.mem), s.root) then ENOMEM
                   else EOK
    ensures err != EOK ==> Unloaded(old(m.mem), old(m.free), old(s.tables), old(s.pages), m.mem, m.free, s.tables,
                                    s.pages, s.root)
                           && s.region.Table() == old(s.region.Table())
    ensures err == EOK ==> Room(all, s.tables, m.free, left - 1)
    ensures err == EOK ==> PageLoaded(old(m.mem), old(m.free), old(s.Frames()), m.mem, m.free, s.Frames(), s.root, elf,
                                      ph, va)
  {
    ghost var mem, free, tables, pages, f := m.mem, m.free, s.tables, s.pages, 0;
    var pa;
    assert s as object != m;
    err, pa, f := MapNewPage(s, m, va, PermsOf(ph), ExecPermsOf(ph), all, left);
    if err == EOK {
      FillPage(s, m, elf, ph, va, pa, f, mem, free, tables, pages);
    }
  }

  // ---- segments --------------------------------------------------------------------

  function PagesIn(ph: ProgramHeader): nat {
    if ph.kind == PT_LOAD && ph.memsz > 0 && MapStart(ph) <= MapEnd(ph) then (MapEnd(ph) - MapStart(ph)) / PAGE_SIZE
    else 0
  }

  ghost predicate Paths(all: set<Node>, ph: ProgramHeader) {
    forall va: nat :: Segment(ph, va) ==> HasPath(all, Place(va))
  }

  /** How far a segment has been loaded. */
  ghost predicate Loading(mem: Memory, free: seq<Frame>, held: set<Frame>, mem': Memory, free': seq<Frame>,
                          held': set<Frame>, root: Frame, elf: seq<Byte>, ph: ProgramHeader, end: nat)
  {
    && Exchanged(mem, free, held, {}, mem', free', held')
    && AddedTo(ImageOf(mem, root), ImageOf(mem', root), elf, ph, end)
  }

  lemma LoadingStep(mem: Memory, free: seq<Frame>, held: set<Frame>, mem1: Memory, free1: seq<Frame>,
                    held1: set<Frame>, mem': Memory, free': seq<Frame>, held': set<Frame>,
                    root: Frame, elf: seq<Byte>, ph: ProgramHeader, va: nat, next: nat)
    requires Loading(mem, free, held, mem1, free1, held1, root, elf, ph, va) && InSegment(ph, va)
    requires next == va + PAGE_SIZE
    requires PageLoaded(mem1, free1, held1, mem', free', held', root, elf, ph, va)
    ensures Loading(mem, free, held, mem', free', held', root, elf, ph, next)
  {
    ExchangedTwice(mem, free, held, mem1, free1, held1, mem', free', held');
    OnePageAdded(ImageOf(mem, root), ImageOf(mem1, root), ImageOf(mem', root), elf, ph, va);
  }

  /** A page that is not loaded changes nothing, so the load has come as far as before. */
  lemma LoadingStops(mem: Memory, free: seq<Frame>, held: set<Frame>, mem1: Memory, free1: seq<Frame>,
                     tables: map<Node, Frame>, pages: map<Node, Frame>, mem': Memory, free': seq<Frame>,
                     tables': map<Node, Frame>, pages': map<Node, Frame>,
                     root: Frame, elf: seq<Byte>, ph: ProgramHeader, va: nat)
    requires Loading(mem, free, held, mem1, free1, FramesOf(tables, pages), root, elf, ph, va)
    requires Unloaded(mem1, free1, tables, pages, mem', free', tables', pages', root)
    ensures Loading(mem, free, held, mem', free', FramesOf(tables', pages'), root, elf, ph, va)
  {
    ExchangedTwice(mem, free, held, mem1, free1, FramesOf(tables, pages), mem', free', FramesOf(tables', pages'));
  }

  /** Why a page could not be had. */
  ghost predicate NoRoom(free: seq<Frame>, allocs: seq<Allocation>, was: Image, ph: ProgramHeader) {
    free == [] || Full(allocs) || exists va: nat :: Segment(ph, va) && va in was
  }

  lemma LoadingStarts(mem: Memory, free: seq<Frame>, held: set<Frame>, root: Frame, elf: seq<Byte>, ph: ProgramHeader)
    ensures Loading(mem, free, held, mem, free, held, root, elf, ph, MapStart(ph))
  {
  }

  /** Page `k` of a segment; the one after the last is the end. */
  lemma PageByPage(ph: ProgramHeader, k: nat, va: nat)
    requires ph.kind == PT_LOAD && ph.memsz > 0 && va == MapStart(ph) + k * PAGE_SIZE && k <= PagesIn(ph)
    ensures k < PagesIn(ph) ==> va < MapEnd(ph) && Segment(ph, va) && va + PAGE_SIZE <= MapEnd(ph)
    ensures k == PagesIn(ph) ==> va == MapEnd(ph)
  {
    LastPage(ph);
  }

  /** A page that is in the way was there before the segment. */
  lemma InTheWay(mem: Memory, free: seq<Frame>, held: set<Frame>, mem': Memory, free': seq<Frame>, held': set<Frame>,
                 root: Frame, elf: seq<Byte>, ph: ProgramHeader, va: nat)
    requires Loading(mem, free, held, mem', free', held', root, elf, ph, va)
    requires Segment(ph, va) && va in ImageOf(mem', root)
    ensures va in ImageOf(mem, root)
  {
  }

  /** One page more of a segment, or the reason why not. */
  method LoadNext(s: AddressSpace, m: Machine, elf: seq<Byte>, ph: ProgramHeader, va: Word, ghost next: nat,
                  ghost all: set<Node>, ghost left: nat, ghost mem: Memory, ghost free: seq<Frame>,
                  ghost held: set<Frame>)
    returns (err: int)
    requires s.Valid(m) && |elf| < WORD_LIMIT && Accepted(ph, |elf|) && Segment(ph, va)
    requires next == va + PAGE_SIZE && UserPage(va) && va <= ph.vaddr + ph.filesz
    requires HasPath(all, Place(va)) && left > 0 && Room(all, s.tables, m.free, left)
    requires Loading(mem, free, held, m.mem, m.free, s.Frames(), s.root, elf, ph, va)
    modifies m, s`tables, s`pages, s.region.allocator.bitmap, s.region.allocations
    ensures s.Valid(m) && (err == EOK || err == ENOMEM)
    ensures err == EOK ==> Room(all, s.tables, m.free, left - 1)
    ensures err == ENOMEM ==> NoRoom(m.free, s.region.Table(), ImageOf(mem, s.root), ph)
    ensures err == EOK ==> Loading(mem, free, held, m.mem, m.free, s.Frames(), s.root, elf, ph, next)
    ensures err == ENOMEM ==> Loading(mem, free, held, m.mem, m.free, s.Frames(), s.root, elf, ph, va)
  {
    ghost var mem1, free1, tables1, pages1 := m.mem, m.free, s.tables, s.pages;
    assert s as object != m;
    err := LoadPage(s, m, elf, ph, va, all, left);
    if err == EOK {
      LoadingStep(mem, free, held, mem1, free1, FramesOf(tables1, pages1), m.mem, m.free, s.Frames(), s.root, elf, ph,
                  va, next);
    } else {
      LoadingStops(mem, free, held, mem1, free1, tables1, pages1, m.mem, m.free, s.tables, s.pages, s.root, elf, ph,
                   va);
      if va in ImageOf(mem1, s.root) {
        InTheWay(mem, free, held, mem1, free1, FramesOf(tables1, pages1), s.root, elf, ph, va);
      }
    }
  }

  /** The pages of an accepted segment, from the first on. */
  method MapPages(s: AddressSpace, m: Machine, elf: seq<Byte>, ph: ProgramHeader, ghost all: set<Node>,
                  ghost after: nat)
    returns (err: int)
    requires s.Valid(m) && |elf| < WORD_LIMIT && Accepted(ph, |elf|) && Fits(ph) && ph.kind == PT_LOAD && ph.memsz > 0
    requires Paths(all, ph) && Room(all, s.tables, m.free, PagesIn(ph) + after)
    modifies m, s`tables, s`pages, s.region.allocator.bitmap, s.region.allocations
    ensures s.Valid(m) && (err == EOK || err == ENOMEM)
    ensures err == EOK ==> Room(all, s.tables, m.free, after)
    ensures err == EOK ==> Loading(old(m.mem), old(m.free), old(s.Frames()), m.mem, m.free, s.Frames(), s.root, elf, ph,
                                   MapEnd(ph))
    ensures err == ENOMEM ==> NoRoom(m.free, s.region.Table(), ImageOf(old(m.mem), s.root), ph)
    ensures Exchanged(old(m.mem), old(m.free), old(s.Frames()), {}, m.mem, m.free, s.Frames())
    ensures Kept(ImageOf(old(m.mem), s.root), ImageOf(m.mem, s.root))
  {
    var va, end := MapStart(ph), MapEnd(ph);
    ghost var k, mem, free, held := 0, m.mem, m.free, s.Frames();
    PageByPage(ph, 0, va);
    PagesInRangeIff(ph, |elf|);
    LoadingStarts(mem, free, held, s.root, elf, ph);
    while va < end
      invariant k <= PagesIn(ph) && va == MapStart(ph) + k * PAGE_SIZE <= end
      invariant s.Valid(m) && Room(all, s.tables, m.free, PagesIn(ph) - k + after)
      invariant Loading(mem, free, held, m.mem, m.free, s.Frames(), s.root, elf, ph, va)
      decreases end - va
    {
      PageByPage(ph, k, va);
      var next := va + PAGE_SIZE;
      err := LoadNext(s, m, elf, ph, va, next, all, PagesIn(ph) - k + after, mem, free, held);
      if err != EOK {
        return;
      }
      va := next;
      k := k + 1;
    }
    PageByPage(ph, k, va);
    return EOK;
  }

  /** A whole segment.  On failure the pages that were mapped stay. */
  method MapSection(s: AddressSpace, m: Machine, elf: seq<Byte>, ph: ProgramHeader, ghost all: set<Node>,
                    ghost after: nat)
    returns (err: int)
    requires s.Valid(m) && |elf| < WORD_LIMIT && ph.kind == PT_LOAD
    requires Accepted(ph, |elf|) ==> Fits(ph) && Paths(all, ph)
    requires Room(all, s.tables, m.free, PagesIn(ph) + after)
    modifies m, s`tables, s`pages, s.region.allocator.bitmap, s.region.allocations
    ensures s.Valid(m) && (err == EOK || err == ENOMEM || err == EINVAL)
    ensures err == EINVAL <==> !Accepted(ph, |elf|)
    ensures err == EOK ==> Room(all, s.tables, m.free, after)
    ensures err == EOK ==> SegmentAdded(ImageOf(old(m.mem), s.root), ImageOf(m.mem, s.root), elf, ph)
    ensures err == ENOMEM ==> NoRoom(m.free, s.region.Table(), ImageOf(old(m.mem), s.root), ph)
    ensures Exchanged(old(m.mem), old(m.free), old(s.Frames()), {}, m.mem, m.free, s.Frames())
    ensures Kept(ImageOf(old(m.mem), s.root), ImageOf(m.mem, s.root))
  {
    if !Accepted(ph, |elf|) {
      return EINVAL;
    }
    if ph.memsz == 0 {
      return EOK;
    }
    err := MapPages(s, m, elf, ph, all, after);
    if err == EOK {
      AllAdded(ImageOf(old(m.mem), s.root), ImageOf(m.mem, s.root), elf, ph);
    }
  }

  ghost predicate SegmentAdded(was: Image, now: Image, elf: seq<Byte>, ph: ProgramHeader) {
    if ph.memsz > 0 then Added(was, now, elf, ph) else now == was
  }

  // ---- executables -----------------------------------------------------------------

  /** The pages of the headers from the `i`-th on. */
  function PagesFrom(headers: seq<ProgramHeader>, i: nat): nat
    requires i <= |headers|
    decreases |headers| - i
  {
    if i == |headers| then 0 else PagesIn(headers[i]) + PagesFrom(headers, i + 1)
  }

  /** How far a load has come after `n` headers. */
  ghost predicate LoadedSoFar(mem: Memory, free: seq<Frame>, held: set<Frame>, mem': Memory, free': seq<Frame>,
                              held': set<Frame>, root: Frame, elf: seq<Byte>, headers: seq<ProgramHeader>, n: nat)
  {
    && Exchanged(mem, free, held, {}, mem', free', held')
    && Loaded(ImageOf(mem, root), ImageOf(mem', root), elf, headers, n)
  }

  /** Why a load fails for want of memory: no frame, no entry, or a page that is taken. */
  ghost predicate CannotLoad(free: seq<Frame>, allocs: seq<Allocation>, was: Image, headers: seq<ProgramHeader>) {
    free == [] || Full(allocs) || exists i :: 0 <= i < |headers| && Clash(was, headers, i)
  }

  lemma SegmentLoaded(mem: Memory, free: seq<Frame>, held: set<Frame>, mem1: Memory, free1: seq<Frame>,
                      held1: set<Frame>, mem': Memory, free': seq<Frame>, held': set<Frame>, root: Frame,
                      elf: seq<Byte>, headers: seq<ProgramHeader>, n: nat)
    requires n < |headers| && headers[n].kind == PT_LOAD && !Rejected(headers[n], |elf|)
    requires LoadedSoFar(mem, free, held, mem1, free1, held1, root, elf, headers, n)
    requires Exchanged(mem1, free1, held1, {}, mem', free', held')
    requires SegmentAdded(ImageOf(mem1, root), ImageOf(mem', root), elf, headers[n])
    ensures LoadedSoFar(mem, free, held, mem', free', held', root, elf, headers, n + 1)
  {
    ExchangedTwice(mem, free, held, mem1, free1, held1, mem', free', held');
    if headers[n].memsz > 0 {
      OneMoreLoaded(ImageOf(mem, root), ImageOf(mem1, root), ImageOf(mem', root), elf, headers, n);
    } else {
      Skipped(ImageOf(mem, root), ImageOf(mem', root), elf, headers, n);
    }
  }

  lemma HeaderSkipped(mem: Memory, free: seq<Frame>, held: set<Frame>, mem': Memory, free': seq<Frame>,
                      held': set<Frame>, root: Frame, elf: seq<Byte>, headers: seq<ProgramHeader>, n: nat)
    requires n < |headers| && headers[n].kind != PT_LOAD
    requires LoadedSoFar(mem, free, held, mem', free', held', root, elf, headers, n)
    ensures LoadedSoFar(mem, free, held, mem', free', held', root, elf, headers, n + 1)
  {
    Skipped(ImageOf(mem, root), ImageOf(mem', root), elf, headers, n);
  }

  lemma LoadStarts(mem: Memory, free: seq<Frame>, held: set<Frame>, root: Frame, elf: seq<Byte>,
                   headers: seq<ProgramHeader>)
    ensures LoadedSoFar(mem, free, held, mem, free, held, root, elf, headers, 0)
  {
  }

  /** What was there before the load is still there when it fails. */
  lemma LoadFails(mem: Memory, free: seq<Frame>, held: set<Frame>, mem1: Memory, free1: seq<Frame>,
                  held1: set<Frame>, mem': Memory, free': seq<Frame>, held': set<Frame>, allocs: seq<Allocation>,
                  root: Frame, elf: seq<Byte>, headers: seq<ProgramHeader>, n: nat)
    requires n < |headers| && LoadedSoFar(mem, free, held, mem1, free1, held1, root, elf, headers, n)
    requires Exchanged(mem1, free1, held1, {}, mem', free', held')
    requires Kept(ImageOf(mem1, root), ImageOf(mem', root))
    ensures Exchanged(mem, free, held, {}, mem', free', held') && Kept(ImageOf(mem, root), ImageOf(mem', root))
    ensures NoRoom(free', allocs, ImageOf(mem1, root), headers[n]) ==>
              CannotLoad(free', allocs, ImageOf(mem, root), headers)
  {
    ExchangedTwice(mem, free, held, mem1, free1, held1, mem', free', held');
    if va: nat :| Segment(headers[n], va) && va in ImageOf(mem1, root) {
      TakenIsClash(ImageOf(mem, root), ImageOf(mem1, root), elf, headers, n, va);
    }
  }

  /** What the source asks of the loadable headers of an executable. */
  ghost predicate Handled(elf: seq<Byte>, headers: seq<ProgramHeader>, all: set<Node>) {
    forall i :: 0 <= i < |headers| && headers[i].kind == PT_LOAD && |elf| < WORD_LIMIT
                && Accepted(headers[i], |elf|) ==>
      Fits(headers[i]) && Paths(all, headers[i])
  }

  /** The loadable segments, one after the other. */
  method Load(s: AddressSpace, m: Machine, elf: seq<Byte>, headers: seq<ProgramHeader>, ghost all: set<Node>)
    returns (err: int)
    requires s.Valid(m) && |elf| < WORD_LIMIT && Handled(elf, headers, all)
    requires Room(all, s.tables, m.free, PagesFrom(headers, 0))
    modifies m, s`tables, s`pages, s.region.allocator.bitmap, s.region.allocations
    ensures s.Valid(m) && (err == EOK || err == ENOMEM || err == EINVAL)
    ensures err == EOK ==> Loaded(ImageOf(old(m.mem), s.root), ImageOf(m.mem, s.root), elf, headers, |headers|)
    ensures err == EINVAL ==> exists i :: 0 <= i < |headers| && Rejected(headers[i], |elf|)
    ensures err == ENOMEM ==> CannotLoad(m.free, s.region.Table(), ImageOf(old(m.mem), s.root), headers)
    ensures Exchanged(old(m.mem), old(m.free), old(s.Frames()), {}, m.mem, m.free, s.Frames())
    ensures Kept(ImageOf(old(m.mem), s.root), ImageOf(m.mem, s.root))
  {
    ghost var mem, free, held := m.mem, m.free, s.Frames();
    LoadStarts(mem, free, held, s.root, elf, headers);
    for i := 0 to |headers|
      invariant s.Valid(m) && Room(all, s.tables, m.free, PagesFrom(headers, i))
      invariant LoadedSoFar(mem, free, held, m.mem, m.free, s.Frames(), s.root, elf, headers, i)
    {
      if headers[i].kind == PT_LOAD {
        ghost var mem1, free1, held1 := m.mem, m.free, s.Frames();
        err := MapSection(s, m, elf, headers[i], all, PagesFrom(headers, i + 1));
        if err != EOK {
          LoadFails(mem, free, held, mem1, free1, held1, m.mem, m.free, s.Frames(), s.region.Table(), s.root, elf,
                    headers, i);
          assert err == EINVAL ==> Rejected(headers[i], |elf|);
          return;
        }
        SegmentLoaded(mem, free, held, mem1, free1, held1, m.mem, m.free, s.Frames(), s.root, elf, headers, i);
      } else {
        HeaderSkipped(mem, free, held, m.mem, m.free, s.Frames(), s.root, elf, headers, i);
      }
    }
    return EOK;
  }

  /** The byte of memory that the processor reads at `x`. */
  function ByteAt(mem: Memory, root: Frame, x: nat): Option<Byte> {
    ByteIn(mem, Walk(mem, root, x), x % PAGE_SIZE)
  }

  function ByteIn(mem: Memory, f: Option<Frame>, offset: nat): Option<Byte>
    requires offset < PAGE_SIZE
  {
    if f.Some? && f.value in mem then Some(BytesOf(mem[f.value])[offset]) else None
  }

  /** After a successful load the processor reads the segment's byte at every address of every loaded segment: by
      `ImageByteIs` the file's, or zero where the file part has ended. */
  lemma EveryByteIsLoaded(was: Image, mem: Memory, root: Frame, tables: map<Node, Frame>, pages: map<Node, Frame>,
                          elf: seq<Byte>, headers: seq<ProgramHeader>, i: nat, x: nat)
    requires Tree(mem, root, tables) && Mapping(mem, root, tables, pages)
    requires Loaded(was, ImageOf(mem, root), elf, headers, |headers|) && i < |headers| && headers[i].kind == PT_LOAD
    requires headers[i].vaddr <= x < headers[i].vaddr + headers[i].memsz
    ensures ByteAt(mem, root, x) == Some(ImageByte(elf, headers[i], x))
  {
    EveryByteIsInItsPage(was, ImageOf(mem, root), elf, headers, i, x);
    ByteSeen(mem, root, tables, pages, x);
  }

  /** Its page is open to programs, writable and executable as the flags ask for, and never executed by the kernel. */
  lemma FlagsAreObeyed(was: Image, mem: Memory, root: Frame, elf: seq<Byte>, headers: seq<ProgramHeader>, i: nat,
                       x: nat)
    requires Loaded(was, ImageOf(mem, root), elf, headers, |headers|) && i < |headers| && headers[i].kind == PT_LOAD
    requires headers[i].vaddr <= x < headers[i].vaddr + headers[i].memsz
    ensures var w, flags := Encode(Leaf(mem, root, Place(x))), headers[i].flags;
            && w % 2 == 1 && w / 2 % 2 == 1 && w / 0x400 % 2 == 1
            && w / 4 % 8 == 1 && w / 0x100 % 4 == 3
            && w / 0x40 % 2 == 1 && (w / 0x80 % 2 == 0 <==> flags / 2 % 2 == 1)
            && w / 0x20_0000_0000_0000 % 2 == 1 && (w / 0x40_0000_0000_0000 % 2 == 0 <==> flags % 2 == 1)
  {
    EveryByteIsInItsPage(was, ImageOf(mem, root), elf, headers, i, x);
    SamePage(x);
    SegmentWord(Leaf(mem, root, Place(x)), headers[i]);
  }

  /** The bits of a segment's pages. */
  lemma SegmentWord(d: Descriptor, ph: ProgramHeader)
    requires d.(address := 0) == PageEntry(0, UserAttributes(PermsOf(ph), ExecPermsOf(ph)))
    ensures var w, flags := Encode(d), ph.flags;
            && w % 2 == 1 && w / 2 % 2 == 1 && w / 0x400 % 2 == 1
            && w / 4 % 8 == 1 && w / 0x100 % 4 == 3
            && w / 0x40 % 2 == 1 && (w / 0x80 % 2 == 0 <==> flags / 2 % 2 == 1)
            && w / 0x20_0000_0000_0000 % 2 == 1 && (w / 0x40_0000_0000_0000 % 2 == 0 <==> flags % 2 == 1)
  {
    assert d == PageEntry(d.address, UserAttributes(PermsOf(ph), ExecPermsOf(ph)));
    UserWord(d.address, PermsOf(ph), ExecPermsOf(ph));
    assert ph.flags / PF_X == ph.flags;
  }

  lemma ByteSeen(mem: Memory, root: Frame, tables: map<Node, Frame>, pages: map<Node, Frame>, x: nat)
    requires Tree(mem, root, tables) && Mapping(mem, root, tables, pages) && IsMapped(mem, root, RoundDown(x))
    ensures ByteAt(mem, root, x) == Some(PageSeen(mem, root, RoundDown(x)).bytes[x - RoundDown(x)])
  {
    SamePage(x);
    PageIsUnmapped(mem, root, tables, pages, Place(x));
    WalkIsLeaf(mem, root, tables, pages, x);
    ByteOfPage(mem, root, x, Walk(mem, root, x), x % PAGE_SIZE);
  }

  lemma ByteOfPage(mem: Memory, root: Frame, x: nat, f: Option<Frame>, offset: nat)
    requires IsMapped(mem, root, RoundDown(x)) && f == Some(Leaf(mem, root, Place(RoundDown(x))).address)
    requires offset == x - RoundDown(x) < PAGE_SIZE
    ensures ByteIn(mem, f, offset) == Some(PageSeen(mem, root, RoundDown(x)).bytes[offset])
  {
  }

  lemma SamePage(x: nat)
    ensures Place(RoundDown(x)) == Place(x) && x - RoundDown(x) == x % PAGE_SIZE
  {
    PlaceOfAddress(RoundDown(x), x);
  }
}
