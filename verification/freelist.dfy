/** The kernel heap: a first-fit free list threaded through the free blocks' own headers. */
module FreeLists {
  import opened Results
  import opened HeapBlocks

  /** The first two words of a block. */
  datatype Header = Header(size: nat, next: nat)

  const WORD_LIMIT := 0x1_0000_0000_0000_0000

  // ---- the heap as a whole ---------------------------------------------------------

  /** The free blocks, those handed out, and the regions all of them were cut from. */
  datatype Heap = Heap(free: seq<Block>, live: set<Block>, regions: seq<Block>)

  predicate LiveHas(live: set<Block>, x: nat) {
    exists b :: b in live && b.Has(x)
  }

  /** Free and live blocks tile the regions: no byte is in two of them, and none is missing. */
  ghost predicate Sound(h: Heap) {
    && Canonical(h.free) && (forall b :: b in h.live ==> b.Fits())
    && (forall b, c :: b in h.live && c in h.live && b != c ==> Apart(b, c))
    && (forall b, i :: b in h.live && 0 <= i < |h.free| ==> Apart(h.free[i], b))
    && (forall i :: 0 <= i < |h.regions| ==> h.regions[i].Fits())
    && (forall i, j :: 0 <= i < j < |h.regions| ==> Apart(h.regions[i], h.regions[j]))
    && forall x :: Covers(h.regions, x) <==> Covers(h.free, x) || LiveHas(h.live, x)
  }

  /** The index of the first block that is large enough. */
  function FirstFit(s: seq<Block>, size: nat): (k: nat)
    ensures k <= |s|
  {
    if s == [] || s[0].size >= size then 0 else 1 + FirstFit(s[1..], size)
  }

  /** A size with its header, in 64-bit arithmetic. */
  function Needed(size: nat): nat { (size + HEADER) % WORD_LIMIT }

  /** The block looked for is large enough exactly when the sum does not wrap. */
  lemma NeededIsEnoughIff(size: nat)
    requires size < WORD_LIMIT
    ensures Needed(size) >= size + HEADER <==> size + HEADER < WORD_LIMIT
  {
    if size + HEADER >= WORD_LIMIT { assert (size + HEADER) % WORD_LIMIT == size + HEADER - WORD_LIMIT; }
  }

  /** For the largest size any block would do, the whole of it smaller than a header. */
  lemma HugeSizeNeedsLittle()
    ensures Needed(WORD_LIMIT - 1) == HEADER - 1
  {
  }

  /** What is handed out of block `b`: all of it, unless a header fits behind the part asked for. */
  function Taken(b: Block, size: nat): Block {
    if b.size >= size + HEADER then Block(b.addr, size) else b
  }

  function Rest(b: Block, size: nat): seq<Block> {
    if b.size >= size + HEADER then [Block(b.addr + size, b.size - size)] else []
  }

  function AllocatedAt(h: Heap, k: nat, size: nat): Heap
    requires k < |h.free|
  {
    h.(free := h.free[..k] + Rest(h.free[k], size) + h.free[k + 1..], live := h.live + {Taken(h.free[k], size)})
  }

  function Freed(h: Heap, b: Block): Heap {
    h.(free := Inserted(h.free, b), live := h.live - {b})
  }

  function Grown(h: Heap, region: Block): Heap {
    h.(free := Inserted(h.free, region), regions := h.regions + [region])
  }

  lemma FirstFitIs(s: seq<Block>, size: nat)
    ensures var k := FirstFit(s, size);
            (k < |s| ==> s[k].size >= size) && forall i :: 0 <= i < k ==> s[i].size < size
  {
    if s != [] && s[0].size < size {
      FirstFitIs(s[1..], size);
      forall i | 0 < i < |s| ensures s[i] == s[1..][i - 1] {}
    }
  }

  lemma CutCanonical(s: seq<Block>, k: nat, size: nat)
    requires Canonical(s) && k < |s| && HEADER <= size <= s[k].size
    ensures Canonical(s[..k] + Rest(s[k], size) + s[k + 1..])
  {
    var r := Rest(s[k], size);
    assert forall i :: 0 <= i < |r| ==> s[k].addr <= r[i].addr && r[i].End() == s[k].End();
    SliceCanonical(s, 0, k);
    SliceCanonical(s, k + 1, |s|);
    assert s[0..k] == s[..k] && s[k + 1..|s|] == s[k + 1..];
    if k > 0 { assert s[k - 1].End() < s[k].addr; }
    JoinLists(s[..k], r);
    if k + 1 < |s| {
      assert s[k].End() < s[k + 1].addr;
      if r == [] && k > 0 { assert s[k - 1].End() < s[k + 1].addr; }
    }
    JoinLists(s[..k] + r, s[k + 1..]);
  }

  /** Cutting takes exactly the bytes handed out. */
  lemma CutCovers(s: seq<Block>, k: nat, size: nat, x: nat)
    requires Canonical(s) && k < |s| && HEADER <= size <= s[k].size
    ensures Covers(s, x) <==> Covers(s[..k] + Rest(s[k], size) + s[k + 1..], x) || Taken(s[k], size).Has(x)
    ensures !(Covers(s[..k] + Rest(s[k], size) + s[k + 1..], x) && Taken(s[k], size).Has(x))
  {
    var r, t := Rest(s[k], size), s[..k] + Rest(s[k], size) + s[k + 1..];
    ConcatCovers(s[..k] + r, s[k + 1..]);
    ConcatCovers(s[..k], r);
    ConcatCovers(s[..k], [s[k]] + s[k + 1..]);
    PrependCovers(s[k], s[k + 1..]);
    assert s == s[..k] + ([s[k]] + s[k + 1..]);
    assert Covers(r, x) <==> s[k].Has(x) && !Taken(s[k], size).Has(x) by {
      assert r != [] ==> (r[0].Has(x) <==> s[k].Has(x) && !Taken(s[k], size).Has(x));
    }
    if s[k].Has(x) { OnlyOne(s, k, x); }
  }

  lemma OnlyOne(s: seq<Block>, k: nat, x: nat)
    requires Canonical(s) && k < |s| && s[k].Has(x)
    ensures !Covers(s[..k], x) && !Covers(s[k + 1..], x)
  {
    var before, behind := s[..k], s[k + 1..];
    forall i | 0 <= i < |before| ensures !before[i].Has(x) { assert s[i].End() < s[k].addr; }
    forall i | 0 <= i < |behind| ensures !behind[i].Has(x) { assert s[k].End() < s[k + 1 + i].addr; }
  }

  /** Blocks that share no byte lie apart. */
  lemma NoCommonByte(a: Block, b: Block)
    requires a.Fits() && b.Fits() && forall x: nat :: a.Has(x) ==> !b.Has(x)
    ensures Apart(a, b)
  {
    assert !(a.Has(b.addr) && b.Has(b.addr));
    assert !(a.Has(a.addr) && b.Has(a.addr));
  }

  lemma AllocKeeps(h: Heap, size: nat)
    requires Sound(h) && size >= HEADER && FirstFit(h.free, size) < |h.free|
    ensures Sound(AllocatedAt(h, FirstFit(h.free, size), size))
    ensures Taken(h.free[FirstFit(h.free, size)], size) !in h.live
  {
    var k := FirstFit(h.free, size);
    FirstFitIs(h.free, size);
    var b, t := h.free[k], Taken(h.free[k], size);
    var g := AllocatedAt(h, k, size);
    CutCanonical(h.free, k, size);
    forall c | c in h.live ensures Apart(t, c) && t != c { assert Apart(b, c); }
    forall x ensures (Covers(h.free, x) <==> Covers(g.free, x) || t.Has(x)) && !(Covers(g.free, x) && t.Has(x)) {
      CutCovers(h.free, k, size, x);
    }
    forall c, i | c in g.live && 0 <= i < |g.free| ensures Apart(g.free[i], c) { CutApart(h, k, size, c, i); }
    forall x ensures Covers(h.regions, x) <==> Covers(g.free, x) || LiveHas(g.live, x) {
      assert LiveHas(g.live, x) <==> LiveHas(h.live, x) || t.Has(x) by {
        if LiveHas(h.live, x) { var c :| c in h.live && c.Has(x); assert c in g.live; }
        assert t in g.live;
      }
    }
  }

  /** The memory at `p` was handed out for `size` bytes: behind the header of one new block, the first that is large
      enough, which holds them with less than a header to spare.  Its bytes were free, and no others have changed
      hands. */
  ghost predicate HandsOut(was: Heap, now: Heap, size: nat, p: nat) {
    exists b :: NewBlock(was, now, size, p, b)
  }

  ghost predicate NewBlock(was: Heap, now: Heap, size: nat, p: nat, b: Block) {
    && b !in was.live && now.live == was.live + {b} && now.regions == was.regions
    && p == b.addr + HEADER && p + size <= b.End() < p + size + HEADER
    && (exists i :: 0 <= i < |was.free| && was.free[i].addr == b.addr && was.free[i].size >= HEADER + size)
    && (forall i :: 0 <= i < |was.free| && was.free[i].addr < b.addr ==> was.free[i].size < HEADER + size)
    && forall x :: (Covers(was.free, x) <==> Covers(now.free, x) || b.Has(x)) && !(Covers(now.free, x) && b.Has(x))
  }

  /** The bytes of `b`, and no others, have become free. */
  ghost predicate TakesBack(was: Heap, now: Heap, b: Block) {
    forall x :: Covers(now.free, x) <==> Covers(was.free, x) || b.Has(x)
  }

  lemma InsertedTakesBack(h: Heap, g: Heap, b: Block)
    requires Canonical(h.free) && b.Fits() && forall i :: 0 <= i < |h.free| ==> Apart(h.free[i], b)
    requires g.free == Inserted(h.free, b)
    ensures TakesBack(h, g, b)
  {
    InsertedCanonical(h.free, b);
  }

  lemma AllocHandsOut(h: Heap, k: nat, size: nat)
    requires Sound(h) && size > 0 && k == FirstFit(h.free, HEADER + size) < |h.free|
    ensures HandsOut(h, AllocatedAt(h, k, HEADER + size), size, h.free[k].addr + HEADER)
  {
    var b, g := Taken(h.free[k], HEADER + size), AllocatedAt(h, k, HEADER + size);
    FirstFitIs(h.free, HEADER + size);
    AllocKeeps(h, HEADER + size);
    assert forall i :: k < i < |h.free| ==> h.free[k].End() < h.free[i].addr;
    forall x
      ensures (Covers(h.free, x) <==> Covers(g.free, x) || b.Has(x)) && !(Covers(g.free, x) && b.Has(x))
    {
      CutCovers(h.free, k, HEADER + size, x);
    }
    assert NewBlock(h, g, size, h.free[k].addr + HEADER, b);
  }

  lemma CutApart(h: Heap, k: nat, size: nat, c: Block, i: nat)
    requires Sound(h) && k < |h.free| && HEADER <= size <= h.free[k].size
    requires c in AllocatedAt(h, k, size).live && i < |AllocatedAt(h, k, size).free|
    requires Canonical(AllocatedAt(h, k, size).free)
    ensures Apart(AllocatedAt(h, k, size).free[i], c)
  {
    var g := AllocatedAt(h, k, size);
    if c in h.live {
      assert i < k ==> g.free[i] == h.free[i];
      var n := |Rest(h.free[k], size)|;
      assert i >= k + n ==> g.free[i] == h.free[i - n + 1];
      assert k <= i < k + n ==> Apart(h.free[k], c);
    } else {
      forall x ensures !(g.free[i].Has(x) && c.Has(x)) {
        CutCovers(h.free, k, size, x);
      }
      NoCommonByte(g.free[i], c);
    }
  }

  lemma FreeKeeps(h: Heap, b: Block)
    requires Sound(h) && b in h.live
    ensures Sound(Freed(h, b))
  {
    var g := Freed(h, b);
    InsertedCanonical(h.free, b);
    forall c, i | c in g.live && 0 <= i < |g.free| ensures Apart(g.free[i], c) {
      forall x ensures !(g.free[i].Has(x) && c.Has(x)) {
        if g.free[i].Has(x) && c.Has(x) { FreedClash(h, b, c, i, x); }
      }
      NoCommonByte(g.free[i], c);
    }
    forall x ensures Covers(h.regions, x) <==> Covers(g.free, x) || LiveHas(g.live, x) {
      if LiveHas(h.live, x) { var c :| c in h.live && c.Has(x); assert c == b || c in g.live; }
    }
  }

  lemma FreedClash(h: Heap, b: Block, c: Block, i: nat, x: nat)
    requires Sound(h) && b in h.live && c in h.live && c != b && i < |Inserted(h.free, b)|
    requires forall y :: Covers(Inserted(h.free, b), y) <==> Covers(h.free, y) || b.Has(y)
    ensures !(Inserted(h.free, b)[i].Has(x) && c.Has(x))
  {
    assert Inserted(h.free, b)[i].Has(x) ==> Covers(Inserted(h.free, b), x);
    assert Apart(b, c);
    forall j | 0 <= j < |h.free| ensures !(h.free[j].Has(x) && c.Has(x)) { assert Apart(h.free[j], c); }
  }

  lemma GrowKeeps(h: Heap, region: Block)
    requires Sound(h) && region.Fits() && forall i :: 0 <= i < |h.regions| ==> Apart(h.regions[i], region)
    ensures Sound(Grown(h, region))
  {
    var g := Grown(h, region);
    forall b | b in h.live ensures Apart(b, region) { LiveInside(h, region, b); }
    forall i | 0 <= i < |h.free| ensures Apart(h.free[i], region) { FreeInside(h, region, i); }
    InsertedCanonical(h.free, region);
    ConcatCovers(h.regions, [region]);
    forall x ensures Covers([region], x) <==> region.Has(x) { assert [region][0].Has(x) <==> region.Has(x); }
    forall c, i | c in h.live && 0 <= i < |g.free| ensures Apart(g.free[i], c) {
      forall x: nat | g.free[i].Has(x) ensures !c.Has(x) { GrownClash(h, region, c, i, x); }
      NoCommonByte(g.free[i], c);
    }
  }

  lemma GrownClash(h: Heap, region: Block, c: Block, i: nat, x: nat)
    requires Sound(h) && c in h.live && Apart(c, region) && i < |Inserted(h.free, region)|
             && Inserted(h.free, region)[i].Has(x)
    requires forall y :: Covers(Inserted(h.free, region), y) <==> Covers(h.free, y) || region.Has(y)
    ensures !c.Has(x)
  {
    assert Covers(Inserted(h.free, region), x);
    forall j | 0 <= j < |h.free| ensures !(h.free[j].Has(x) && c.Has(x)) { assert Apart(h.free[j], c); }
  }

  lemma InsideApart(regions: seq<Block>, region: Block, b: Block)
    requires b.Fits() && region.Fits() && (forall x: nat :: b.Has(x) ==> Covers(regions, x))
    requires forall i :: 0 <= i < |regions| ==> Apart(regions[i], region)
    ensures Apart(b, region)
  {
    forall x: nat | b.Has(x) ensures !region.Has(x) {
      var i :| 0 <= i < |regions| && regions[i].Has(x);
      assert Apart(regions[i], region);
    }
    NoCommonByte(b, region);
  }

  lemma LiveInside(h: Heap, region: Block, b: Block)
    requires Sound(h) && b in h.live && region.Fits()
             && forall i :: 0 <= i < |h.regions| ==> Apart(h.regions[i], region)
    ensures Apart(b, region)
  {
    assert forall x: nat :: b.Has(x) ==> LiveHas(h.live, x);
    InsideApart(h.regions, region, b);
  }

  lemma FreeInside(h: Heap, region: Block, i: nat)
    requires Sound(h) && i < |h.free| && region.Fits()
             && forall j :: 0 <= j < |h.regions| ==> Apart(h.regions[j], region)
    ensures Apart(h.free[i], region)
  {
    assert forall x: nat :: h.free[i].Has(x) ==> Covers(h.free, x);
    InsideApart(h.regions, region, h.free[i]);
  }

  // ---- runs ------------------------------------------------------------------------

  datatype Op = Alloc(size: nat) | Free(b: Block) | Grow(region: Block)

  /** Allocating and freeing both demand that the list is not empty. */
  predicate Can(h: Heap, op: Op) {
    match op
    case Alloc(size) => size > 0 && size + HEADER < WORD_LIMIT && h.free != []
    case Free(b) => b in h.live && h.free != []
    case Grow(region) => region.Fits() && forall i :: 0 <= i < |h.regions| ==> Apart(h.regions[i], region)
  }

  /** An allocation that finds no block changes nothing. */
  function Do(h: Heap, op: Op): Heap
    requires Can(h, op)
  {
    match op
    case Alloc(size) =>
      var k := FirstFit(h.free, size + HEADER);
      if k < |h.free| then AllocatedAt(h, k, size + HEADER) else h
    case Free(b) => Freed(h, b)
    case Grow(region) => Grown(h, region)
  }

  lemma DoKeeps(h: Heap, op: Op)
    requires Sound(h) && Can(h, op)
    ensures Sound(Do(h, op))
  {
    match op
    case Alloc(size) => if FirstFit(h.free, size + HEADER) < |h.free| { AllocKeeps(h, size + HEADER); }
    case Free(b) => FreeKeeps(h, b);
    case Grow(region) => GrowKeeps(h, region);
  }

  ghost predicate OpAt(heaps: seq<Heap>, ops: seq<Op>, i: nat) {
    i < |ops| && i + 1 < |heaps| && Can(heaps[i], ops[i]) && heaps[i + 1] == Do(heaps[i], ops[i])
  }

  /** A run from the heap that has nothing yet. */
  ghost predicate Run(heaps: seq<Heap>, ops: seq<Op>) {
    |heaps| == |ops| + 1 && heaps[0] == Heap([], {}, []) && forall i :: 0 <= i < |ops| ==> OpAt(heaps, ops, i)
  }

  lemma {:induction false} RunSound(heaps: seq<Heap>, ops: seq<Op>, i: nat)
    requires Run(heaps, ops) && i < |heaps|
    ensures Sound(heaps[i])
  {
    if i > 0 {
      RunSound(heaps, ops, i - 1);
      assert OpAt(heaps, ops, i - 1);
      DoKeeps(heaps[i - 1], ops[i - 1]);
    }
  }

  /** Step `j` of the run handed out `b` for `size` bytes. */
  ghost predicate Served(heaps: seq<Heap>, ops: seq<Op>, j: nat, b: Block, size: nat) {
    && OpAt(heaps, ops, j) && ops[j] == Alloc(size) && b !in heaps[j].live && b in heaps[j + 1].live
    && NewBlock(heaps[j], heaps[j + 1], size, b.addr + HEADER, b)
  }

  /** Every live block was handed out by some step, for a size that fits behind its header. */
  lemma {:induction false} LiveWasServed(heaps: seq<Heap>, ops: seq<Op>, i: nat, b: Block)
    returns (j: nat, size: nat)
    requires Run(heaps, ops) && i < |heaps| && b in heaps[i].live
    ensures j < i && Served(heaps, ops, j, b, size)
  {
    if b in heaps[i - 1].live {
      j, size := LiveWasServed(heaps, ops, i - 1, b);
    } else {
      assert OpAt(heaps, ops, i - 1);
      RunSound(heaps, ops, i - 1);
      j, size := i - 1, ops[i - 1].size;
      var k := FirstFit(heaps[j].free, size + HEADER);
      AllocHandsOut(heaps[j], k, size);
      var c :| NewBlock(heaps[j], heaps[i], size, heaps[j].free[k].addr + HEADER, c);
      assert b == c;
    }
  }

  /** The bytes that two allocations asked for share nothing, lie in the regions, and meet no free block, headers
      included. */
  lemma PayloadsApart(heaps: seq<Heap>, ops: seq<Op>, i: nat, j: nat, b: Block, m: nat, k: nat, c: Block, n: nat)
    requires Run(heaps, ops) && i < |heaps| && b in heaps[i].live && c in heaps[i].live && b != c
    requires Served(heaps, ops, j, b, m) && Served(heaps, ops, k, c, n)
    ensures b.addr + HEADER + m <= c.addr || c.addr + HEADER + n <= b.addr
    ensures forall x :: b.addr + HEADER <= x < b.addr + HEADER + m ==>
              Covers(heaps[i].regions, x) && !Covers(heaps[i].free, x)
  {
    RunSound(heaps, ops, i);
    assert Apart(b, c);
    forall x | b.addr + HEADER <= x < b.addr + HEADER + m
      ensures Covers(heaps[i].regions, x) && !Covers(heaps[i].free, x)
    {
      assert b.Has(x) && LiveHas(heaps[i].live, x);
      forall f | 0 <= f < |heaps[i].free| ensures !heaps[i].free[f].Has(x) { assert Apart(heaps[i].free[f], b); }
    }
  }

  /** The maximal blocks that the regions form. */
  function Maximal(regions: seq<Block>): seq<Block> {
    if regions == [] then [] else Inserted(Maximal(regions[..|regions| - 1]), regions[|regions| - 1])
  }

  lemma {:induction false} MaximalCanonical(regions: seq<Block>)
    requires forall i :: 0 <= i < |regions| ==> regions[i].Fits()
    requires forall i, j :: 0 <= i < j < |regions| ==> Apart(regions[i], regions[j])
    ensures Canonical(Maximal(regions)) && forall x :: Covers(Maximal(regions), x) <==> Covers(regions, x)
    decreases |regions|
  {
    if regions != [] {
      var front, last := regions[..|regions| - 1], regions[|regions| - 1];
      MaximalCanonical(front);
      assert regions == front + [last];
      OneMoreRegion(front, last, Maximal(front));
    }
  }

  lemma OneMoreRegion(front: seq<Block>, last: Block, m: seq<Block>)
    requires Canonical(m) && last.Fits() && forall x :: Covers(m, x) <==> Covers(front, x)
    requires forall i :: 0 <= i < |front| ==> front[i].Fits() && Apart(front[i], last)
    ensures Canonical(Inserted(m, last)) && forall x :: Covers(Inserted(m, last), x) <==> Covers(front + [last], x)
  {
    forall i | 0 <= i < |m| ensures Apart(m[i], last) {
      assert forall x: nat :: m[i].Has(x) ==> Covers(m, x);
      InsideApart(front, last, m[i]);
    }
    InsertedCanonical(m, last);
    ConcatCovers(front, [last]);
    forall x ensures Covers([last], x) <==> last.Has(x) { assert [last][0].Has(x) <==> last.Has(x); }
  }

  /** Once all live blocks have been freed, whatever the order, the list is that of the maximal regions. */
  lemma AllFreedRestores(heaps: seq<Heap>, ops: seq<Op>, i: nat)
    requires Run(heaps, ops) && i < |heaps| && heaps[i].live == {}
    ensures heaps[i].free == Maximal(heaps[i].regions)
  {
    RunSound(heaps, ops, i);
    var h := heaps[i];
    MaximalCanonical(h.regions);
    assert forall x :: !LiveHas(h.live, x);
    CanonicalUnique(h.free, Maximal(h.regions));
  }

  /** What is left of the list after a cut, and the part handed out, are apart. */
  lemma TakenApart(s: seq<Block>, k: nat, size: nat, i: nat)
    requires Canonical(s) && k < |s| && HEADER <= size <= s[k].size
    requires var cut := s[..k] + Rest(s[k], size) + s[k + 1..]; Canonical(cut) && i < |cut|
    ensures var cut := s[..k] + Rest(s[k], size) + s[k + 1..]; Apart(cut[i], Taken(s[k], size))
  {
    var cut, t := s[..k] + Rest(s[k], size) + s[k + 1..], Taken(s[k], size);
    forall x: nat | cut[i].Has(x) ensures !t.Has(x) { CutCovers(s, k, size, x); }
    NoCommonByte(cut[i], t);
  }

  /** Inserting the part that was cut off gives the list back. */
  lemma InsertUndoesCut(s: seq<Block>, k: nat, size: nat)
    requires Canonical(s) && k < |s| && HEADER <= size <= s[k].size
    ensures Inserted(s[..k] + Rest(s[k], size) + s[k + 1..], Taken(s[k], size)) == s
  {
    var cut, t := s[..k] + Rest(s[k], size) + s[k + 1..], Taken(s[k], size);
    CutCanonical(s, k, size);
    forall i | 0 <= i < |cut| ensures Apart(cut[i], t) { TakenApart(s, k, size, i); }
    InsertedCanonical(cut, t);
    forall x ensures Covers(Inserted(cut, t), x) <==> Covers(s, x) { CutCovers(s, k, size, x); }
    CanonicalUnique(Inserted(cut, t), s);
  }

  /** Freeing what was just allocated gives the list back as it was. */
  lemma FreeUndoesAlloc(h: Heap, size: nat)
    requires Sound(h) && size > 0 && FirstFit(h.free, size + HEADER) < |h.free|
    ensures var k := FirstFit(h.free, size + HEADER);
            Freed(AllocatedAt(h, k, size + HEADER), Taken(h.free[k], size + HEADER)) == h
  {
    var k := FirstFit(h.free, size + HEADER);
    FirstFitIs(h.free, size + HEADER);
    InsertUndoesCut(h.free, k, size + HEADER);
    TakenIsNew(h, k, size + HEADER);
    FreedAsItWas(h, k, size + HEADER);
  }

  lemma FreedAsItWas(h: Heap, k: nat, size: nat)
    requires k < |h.free|
    requires Inserted(h.free[..k] + Rest(h.free[k], size) + h.free[k + 1..], Taken(h.free[k], size)) == h.free
    requires h.live + {Taken(h.free[k], size)} - {Taken(h.free[k], size)} == h.live
    ensures Freed(AllocatedAt(h, k, size), Taken(h.free[k], size)) == h
  {
  }

  lemma TakenIsNew(h: Heap, k: nat, size: nat)
    requires Sound(h) && k < |h.free| && HEADER <= size <= h.free[k].size
    ensures var t := Taken(h.free[k], size); t !in h.live && h.live + {t} - {t} == h.live
  {
    forall c | c in h.live ensures Taken(h.free[k], size) != c { assert Apart(h.free[k], c); }
  }

  // ---- the list in memory ----------------------------------------------------------

  predicate Increasing(s: seq<Block>) {
    forall i, j :: 0 <= i < j < |s| ==> s[i].addr < s[j].addr
  }

  function AddrAt(s: seq<Block>, i: nat): nat {
    if i < |s| then s[i].addr else 0
  }

  predicate LinkedAt(mem: map<nat, Header>, s: seq<Block>, i: nat)
    requires i < |s|
  {
    s[i].addr != 0 && s[i].addr in mem && mem[s[i].addr] == Header(s[i].size, AddrAt(s, i + 1))
  }

  /** The chain of headers from `head` on is the list `s`. */
  ghost predicate Linked(mem: map<nat, Header>, head: nat, s: seq<Block>) {
    Increasing(s) && head == AddrAt(s, 0) && forall i :: 0 <= i < |s| ==> LinkedAt(mem, s, i)
  }

  /** The list with block `j` and the one behind it made one, if they touch. */
  function MergedAt(s: seq<Block>, j: nat): seq<Block>
    requires j < |s|
  {
    s[..j] + Joined(s[j], s[j + 1..])
  }

  /** Blocks that do not touch stay as they are. */
  lemma NotMerged(mem: map<nat, Header>, head: nat, s: seq<Block>, j: nat)
    requires Linked(mem, head, s) && j < |s| && (j + 1 == |s| || s[j].End() != s[j + 1].addr)
    ensures Linked(mem, head, MergedAt(s, j)) && MergedAt(s, j) != []
  {
    SplitAround(s, j);
    assert MergedAt(s, j) == s;
  }

  lemma SplitAround<T>(s: seq<T>, j: nat)
    requires j < |s|
    ensures s[..j] + ([s[j]] + s[j + 1..]) == s
  {
  }

  /** Merging the last block of `front` with what follows. */
  lemma MergedFront(front: seq<Block>, right: seq<Block>)
    requires front != []
    ensures var k := |front| - 1; MergedAt(front + right, k) == front[..k] + Joined(front[k], right)
  {
    var m, k := front + right, |front| - 1;
    assert m[..k] == front[..k] && m[k] == front[k] && m[k + 1..] == right;
  }

  lemma MergedMiddle(s: seq<Block>, b: Block, k: nat)
    requires k <= |s|
    ensures MergedAt(s[..k] + [b] + s[k..], k) == s[..k] + Joined(b, s[k..])
  {
    MergedFront(s[..k] + [b], s[k..]);
    assert (s[..k] + [b])[..k] == s[..k];
  }

  lemma InsertedInFront(s: seq<Block>, b: Block)
    requires Below(s, b.addr) == 0
    ensures Inserted(s, b) == MergedAt(s[..0] + [b] + s[0..], 0)
  {
    MergedMiddle(s, b, 0);
    assert s[..0] == [];
  }

  lemma InsertedBehindFront(s: seq<Block>, b: Block)
    requires Below(s, b.addr) > 0
    ensures var k := Below(s, b.addr); Inserted(s, b) == MergedAt(s[..k] + Joined(b, s[k..]), k - 1)
  {
    var k := Below(s, b.addr);
    MergedFront(s[..k], Joined(b, s[k..]));
    assert s[..k][..k - 1] == s[..k - 1] && s[..k][k - 1] == s[k - 1];
  }

  lemma InsertedIsMerged(s: seq<Block>, b: Block)
    requires Canonical(s)
    ensures var k := Below(s, b.addr);
            var t := s[..k] + [b] + s[k..];
            && MergedAt(t, k) == s[..k] + Joined(b, s[k..])
            && (k == 0 ==> Inserted(s, b) == MergedAt(t, 0))
            && (k > 0 ==> k - 1 < |MergedAt(t, k)| && Inserted(s, b) == MergedAt(MergedAt(t, k), k - 1))
  {
    var k := Below(s, b.addr);
    MergedMiddle(s, b, k);
    if k > 0 { InsertedBehindFront(s, b); } else { InsertedInFront(s, b); }
  }

  /** Block `i` of the list with `j` and the one behind it made one. */
  function MergedBlock(s: seq<Block>, j: nat, i: nat): Block
    requires j + 1 < |s| && i + 1 < |s|
  {
    if i < j then s[i] else if i == j then Block(s[j].addr, s[j].size + s[j + 1].size) else s[i + 1]
  }

  lemma MergedIs(s: seq<Block>, j: nat)
    requires j + 1 < |s| && s[j].End() == s[j + 1].addr
    ensures |MergedAt(s, j)| == |s| - 1
    ensures forall i :: 0 <= i < |s| - 1 ==> MergedAt(s, j)[i] == MergedBlock(s, j, i)
  {
    var rest := s[j + 1..];
    assert MergedAt(s, j) == s[..j] + ([Block(s[j].addr, s[j].size + s[j + 1].size)] + rest[1..]);
  }

  lemma MergedIncreasing(s: seq<Block>, j: nat, m: seq<Block>)
    requires Increasing(s) && j + 1 < |s| && |m| == |s| - 1
    requires forall i :: 0 <= i < |m| ==> m[i] == MergedBlock(s, j, i)
    ensures Increasing(m)
  {
    forall a, b | 0 <= a < b < |m| ensures m[a].addr < m[b].addr {
      assert m[a] == MergedBlock(s, j, a) && m[b] == MergedBlock(s, j, b);
    }
  }

  lemma MergedLink(mem: map<nat, Header>, s: seq<Block>, j: nat, m: seq<Block>, mem': map<nat, Header>, i: nat)
    requires Increasing(s) && j + 1 < |s| && |m| == |s| - 1 && i < |m|
    requires forall l :: 0 <= l < |m| ==> m[l] == MergedBlock(s, j, l)
    requires mem' == mem[s[j].addr := Header(s[j].size + s[j + 1].size, AddrAt(s, j + 2))]
    requires LinkedAt(mem, s, if i <= j then i else i + 1)
    ensures LinkedAt(mem', m, i)
  {
    assert m[i] == MergedBlock(s, j, i) && (i + 1 < |m| ==> m[i + 1] == MergedBlock(s, j, i + 1));
    assert i != j ==> (if i < j then s[i].addr < s[j].addr else s[j].addr < s[i + 1].addr);
  }

  lemma MergeLinked(mem: map<nat, Header>, head: nat, s: seq<Block>, j: nat)
    requires Linked(mem, head, s) && j + 1 < |s| && s[j].End() == s[j + 1].addr
    ensures Linked(mem[s[j].addr := Header(s[j].size + s[j + 1].size, AddrAt(s, j + 2))], head, MergedAt(s, j))
    ensures MergedAt(s, j) != []
  {
    var m, mem' := MergedAt(s, j), mem[s[j].addr := Header(s[j].size + s[j + 1].size, AddrAt(s, j + 2))];
    MergedIs(s, j);
    MergedIncreasing(s, j, m);
    forall i | 0 <= i < |m| ensures LinkedAt(mem', m, i) {
      assert LinkedAt(mem, s, if i <= j then i else i + 1);
      MergedLink(mem, s, j, m, mem', i);
    }
    assert m[0] == MergedBlock(s, j, 0);
  }

  /** The list `t` is `s` with the blocks `r` in place of those from index `k` up to `k + n`. */
  ghost predicate Spliced(s: seq<Block>, k: nat, n: nat, r: seq<Block>, t: seq<Block>)
    requires k + n <= |s|
  {
    |t| == |s| - n + |r| && forall i :: 0 <= i < |t| ==> SplicedAt(s, k, n, r, t, i)
  }

  predicate SplicedAt(s: seq<Block>, k: nat, n: nat, r: seq<Block>, t: seq<Block>, i: nat)
    requires k + n <= |s| && |t| == |s| - n + |r| && i < |t|
  {
    t[i] == if i < k then s[i] else if i < k + |r| then r[i - k] else s[i + n - |r|]
  }

  lemma Splice(s: seq<Block>, k: nat, n: nat, r: seq<Block>)
    requires k + n <= |s|
    ensures Spliced(s, k, n, r, s[..k] + r + s[k + n..])
  {
  }

  lemma CanonicalIncreases(s: seq<Block>)
    requires Canonical(s)
    ensures Increasing(s)
  {
    forall i, j | 0 <= i < j < |s| ensures s[i].addr < s[j].addr { assert s[i].End() < s[j].addr; }
  }

  lemma InsertIncreasing(s: seq<Block>, b: Block, t: seq<Block>)
    requires Increasing(s) && Spliced(s, Below(s, b.addr), 0, [b], t)
    requires var k := Below(s, b.addr);
             (forall i :: 0 <= i < k ==> s[i].addr < b.addr) && forall i :: k <= i < |s| ==> b.addr < s[i].addr
    ensures Increasing(t)
  {
    var k := Below(s, b.addr);
    forall i, j | 0 <= i < j < |t| ensures t[i].addr < t[j].addr {
      assert SplicedAt(s, k, 0, [b], t, i) && SplicedAt(s, k, 0, [b], t, j);
    }
  }

  lemma InsertedLink(mem: map<nat, Header>, s: seq<Block>, b: Block, mem': map<nat, Header>, t: seq<Block>, i: nat)
    requires Increasing(s) && i < |t| && (forall j :: 0 <= j < |s| ==> s[j].addr != b.addr) && b.addr != 0
    requires Spliced(s, Below(s, b.addr), 0, [b], t) && (i < |s| ==> LinkedAt(mem, s, i))
             && (i > 0 ==> LinkedAt(mem, s, i - 1))
    requires var k := Below(s, b.addr);
             mem' == (if k == 0 then mem else mem[s[k - 1].addr := Header(s[k - 1].size, b.addr)])
                       [b.addr := Header(b.size, AddrAt(s, k))]
    ensures LinkedAt(mem', t, i)
  {
    var k := Below(s, b.addr);
    assert SplicedAt(s, k, 0, [b], t, i) && (i + 1 < |t| ==> SplicedAt(s, k, 0, [b], t, i + 1));
    if k > 0 && i < |s| && i != k - 1 { assert i < k - 1 ==> s[i].addr < s[k - 1].addr; }
    if k > 0 && i > k { assert s[k - 1].addr < s[i - 1].addr; }
  }

  lemma InsertLinked(mem: map<nat, Header>, head: nat, s: seq<Block>, b: Block, mem': map<nat, Header>, head': nat)
    requires Linked(mem, head, s) && Canonical(s) && b.addr != 0 && forall i :: 0 <= i < |s| ==> s[i].addr != b.addr
    requires var k := Below(s, b.addr);
             && mem' == (if k == 0 then mem else mem[s[k - 1].addr := Header(s[k - 1].size, b.addr)])
                          [b.addr := Header(b.size, AddrAt(s, k))]
             && head' == if k == 0 then b.addr else head
    ensures var k := Below(s, b.addr); Linked(mem', head', s[..k] + [b] + s[k..])
  {
    var k := Below(s, b.addr);
    var t := s[..k] + [b] + s[k..];
    BelowSplits(s, b.addr);
    Splice(s, k, 0, [b]);
    InsertIncreasing(s, b, t);
    InsertedLinks(mem, head, s, b, mem', t);
    assert SplicedAt(s, k, 0, [b], t, 0);
  }

  lemma InsertedLinks(mem: map<nat, Header>, head: nat, s: seq<Block>, b: Block, mem': map<nat, Header>,
                      t: seq<Block>)
    requires Linked(mem, head, s) && b.addr != 0 && forall i :: 0 <= i < |s| ==> s[i].addr != b.addr
    requires Spliced(s, Below(s, b.addr), 0, [b], t)
    requires var k := Below(s, b.addr);
             mem' == (if k == 0 then mem else mem[s[k - 1].addr := Header(s[k - 1].size, b.addr)])
                       [b.addr := Header(b.size, AddrAt(s, k))]
    ensures forall i :: 0 <= i < |t| ==> LinkedAt(mem', t, i)
  {
    forall i | 0 <= i < |t| ensures LinkedAt(mem', t, i) { InsertedLink(mem, s, b, mem', t, i); }
  }

  /** Cutting a block: its successor in the list is what is left of it, or the next block. */
  ghost predicate Cut(head: nat, s: seq<Block>, k: nat, size: nat, mem': map<nat, Header>, head': nat)
    requires k < |s| && size <= s[k].size
  {
    var r := Rest(s[k], size);
    var next := if r == [] then AddrAt(s, k + 1) else r[0].addr;
    && head' == (if k == 0 then next else head)
    && (r != [] ==> r[0].addr in mem' && mem'[r[0].addr] == Header(r[0].size, AddrAt(s, k + 1)))
    && (k > 0 ==> s[k - 1].addr in mem' && mem'[s[k - 1].addr] == Header(s[k - 1].size, next))
    && forall i :: 0 <= i < |s| && i != k && i != k - 1 ==> LinkedAt(mem', s, i)
  }

  lemma CutLink(head: nat, s: seq<Block>, k: nat, size: nat, mem': map<nat, Header>, head': nat, t: seq<Block>, i: nat)
    requires k < |s| && HEADER <= size <= s[k].size && Cut(head, s, k, size, mem', head') && s[k].addr != 0
    requires Spliced(s, k, 1, Rest(s[k], size), t) && i < |t| && (k > 0 ==> s[k - 1].addr != 0)
    ensures LinkedAt(mem', t, i)
  {
    var r := Rest(s[k], size);
    assert SplicedAt(s, k, 1, r, t, i) && (i + 1 < |t| ==> SplicedAt(s, k, 1, r, t, i + 1));
    if i < k - 1 { assert LinkedAt(mem', s, i); }
    if i >= k + |r| { assert LinkedAt(mem', s, i + 1 - |r|); }
  }

  lemma CutLinked(mem: map<nat, Header>, head: nat, s: seq<Block>, k: nat, size: nat, mem': map<nat, Header>,
                  head': nat)
    requires Linked(mem, head, s) && Canonical(s) && k < |s| && HEADER <= size <= s[k].size
    requires Cut(head, s, k, size, mem', head')
    ensures Linked(mem', head', s[..k] + Rest(s[k], size) + s[k + 1..])
  {
    var r := Rest(s[k], size);
    var t := s[..k] + r + s[k + 1..];
    CutCanonical(s, k, size);
    CanonicalIncreases(t);
    Splice(s, k, 1, r);
    assert LinkedAt(mem, s, k) && (k > 0 ==> LinkedAt(mem, s, k - 1));
    CutLinks(head, s, k, size, mem', head', t);
    assert t != [] ==> SplicedAt(s, k, 1, r, t, 0);
  }

  lemma CutLinks(head: nat, s: seq<Block>, k: nat, size: nat, mem': map<nat, Header>, head': nat, t: seq<Block>)
    requires k < |s| && HEADER <= size <= s[k].size && Cut(head, s, k, size, mem', head') && s[k].addr != 0
    requires Spliced(s, k, 1, Rest(s[k], size), t) && (k > 0 ==> s[k - 1].addr != 0)
    ensures forall i :: 0 <= i < |t| ==> LinkedAt(mem', t, i)
  {
    forall i | 0 <= i < |t| ensures LinkedAt(mem', t, i) { CutLink(head, s, k, size, mem', head', t, i); }
  }

  /** The headers written when block `k` is cut: of what is left, of the block in front, and of the part handed out. */
  function CutMemory(mem: map<nat, Header>, s: seq<Block>, k: nat, size: nat): map<nat, Header>
    requires k < |s| && size <= s[k].size
  {
    var rest := Rest(s[k], size);
    var next := if rest == [] then AddrAt(s, k + 1) else rest[0].addr;
    var cut := if rest == [] then mem else mem[s[k].addr + size := Header(rest[0].size, AddrAt(s, k + 1))];
    var front := if k == 0 then cut else cut[s[k - 1].addr := Header(s[k - 1].size, next)];
    if rest == [] then front else front[s[k].addr := Header(size, AddrAt(s, k + 1))]
  }

  lemma TakeLinked(mem: map<nat, Header>, head: nat, s: seq<Block>, k: nat, size: nat, head': nat)
    requires Linked(mem, head, s) && Canonical(s) && k < |s| && HEADER <= size <= s[k].size
    requires var rest := Rest(s[k], size);
             head' == if k > 0 then head else if rest == [] then AddrAt(s, k + 1) else rest[0].addr
    ensures Linked(CutMemory(mem, s, k, size), head', s[..k] + Rest(s[k], size) + s[k + 1..])
  {
    var mem' := CutMemory(mem, s, k, size);
    forall i | 0 <= i < |s| && i != k && i != k - 1 ensures LinkedAt(mem', s, i) {
      assert LinkedAt(mem, s, i);
      OtherHeader(s, k, i);
      assert k > 0 ==> (if i < k - 1 then s[i].addr < s[k - 1].addr else s[k - 1].addr < s[i].addr);
    }
    assert k > 0 ==> s[k - 1].End() < s[k].addr;
    CutLinked(mem, head, s, k, size, mem', head');
  }

  class FreeList {
    var head: nat
    var capacity: nat
    var mem: map<nat, Header>   // the headers, by address
    ghost var heap: Heap

    ghost predicate Valid()
      reads this
    {
      && Linked(mem, head, heap.free) && Sound(heap)
      && forall b :: b in heap.live ==> b.addr in mem && mem[b.addr].size == b.size
    }

    /** The pool becomes the first block.  Its link is whatever the pool's memory holds, so the list is sound
        exactly when that is clear. */
    constructor (pool: nat, size: nat, storage: map<nat, Header>)
      requires Block(pool, size).Fits() && pool in storage
      ensures heap == Grown(Heap([], {}, []), Block(pool, size)) && capacity == size
      ensures Valid() <==> storage[pool].next == 0
    {
      head := pool;
      mem := storage[pool := storage[pool].(size := size)];
      capacity := size;
      heap := Grown(Heap([], {}, []), Block(pool, size));
      new;
      assert Sound(Heap([], {}, []));
      GrowKeeps(Heap([], {}, []), Block(pool, size));
      assert heap.free == [Block(pool, size)];
      assert Linked(mem, head, heap.free) <==> LinkedAt(mem, heap.free, 0);
    }

    method Coalesce(left: nat, right: nat, ghost s: seq<Block>, ghost j: nat)
      requires Linked(mem, head, s) && j < |s| && left == s[j].addr && right == AddrAt(s, j + 1)
      modifies this`mem
      ensures Linked(mem, head, MergedAt(s, j))
      ensures forall a :: a in old(mem) ==> a in mem && (a != left ==> mem[a] == old(mem)[a])
      ensures MergedAt(s, j) != [] && mem.Keys == old(mem).Keys
    {
      assert LinkedAt(mem, s, j) && (j + 1 < |s| ==> LinkedAt(mem, s, j + 1));
      if left == 0 || right == 0 {
        NotMerged(mem, head, s, j);
        return;
      }
      if left + mem[left].size != right {
        NotMerged(mem, head, s, j);
        return;
      }
      MergeLinked(mem, head, s, j);
      mem := mem[left := Header(mem[left].size + mem[right].size, mem[right].next)];
    }

    /** The first block that is large enough, and the one in front of it. */
    method FindFit(size: nat) returns (prev: nat, curr: nat)
      requires Linked(mem, head, heap.free)
      ensures curr == AddrAt(heap.free, FirstFit(heap.free, size))
      ensures curr == 0 <==> FirstFit(heap.free, size) == |heap.free|
      ensures prev == if FirstFit(heap.free, size) == 0 then 0 else heap.free[FirstFit(heap.free, size) - 1].addr
    {
      ghost var s, i := heap.free, 0;
      prev, curr := 0, head;
      while curr != 0
        invariant i <= |s| && curr == AddrAt(s, i) && prev == (if i == 0 then 0 else s[i - 1].addr)
        invariant FirstFit(s, size) == i + FirstFit(s[i..], size)
        invariant i < |s| ==> LinkedAt(mem, s, i)
        decreases |s| - i
      {
        assert i + 1 < |s| ==> LinkedAt(mem, s, i + 1);
        assert s[i..][1..] == s[i + 1..];
        if mem[curr].size >= size {
          break;
        }
        prev := curr;
        curr := mem[curr].next;
        i := i + 1;
      }
      assert i < |s| ==> LinkedAt(mem, s, i);
    }

    /** Cuts the block at `curr`, or takes all of it. */
    method TakeFrom(prev: nat, curr: nat, size: nat, ghost k: nat)
      requires Linked(mem, head, heap.free) && Canonical(heap.free) && k < |heap.free|
      requires HEADER <= size <= heap.free[k].size && curr == heap.free[k].addr
      requires prev == if k == 0 then 0 else heap.free[k - 1].addr
      modifies this`mem, this`head
      ensures Linked(mem, head, heap.free[..k] + Rest(heap.free[k], size) + heap.free[k + 1..])
      ensures curr in mem && mem[curr].size == Taken(heap.free[k], size).size
      ensures forall a :: a in old(mem) ==> a in mem
      ensures forall a :: a in old(mem) && a != prev && !heap.free[k].Has(a) ==> mem[a] == old(mem)[a]
    {
      ghost var s, was, first := heap.free, mem, head;
      assert LinkedAt(mem, s, k) && (k > 0 ==> LinkedAt(mem, s, k - 1));
      assert k > 0 ==> s[k - 1].addr < s[k].addr;
      var remain := mem[curr].size - size;
      var next := mem[curr].next;
      if remain >= HEADER {
        mem := mem[curr + size := Header(remain, mem[curr].next)];
        next := curr + size;
      }
      if prev != 0 {
        mem := mem[prev := mem[prev].(next := next)];
      } else {
        head := next;
      }
      if remain >= HEADER {
        mem := mem[curr := mem[curr].(size := size)];
      }
      assert mem == CutMemory(was, s, k, size);
      TakeLinked(was, first, s, k, size, head);
    }

    /** The block's memory behind its header; ENOMEM when no block is large enough. */
    method Alloc(size: nat) returns (r: Result<nat>)
      requires Valid() && head != 0 && size > 0 && size + HEADER < WORD_LIMIT
      modifies this`mem, this`head, this`heap
      ensures Valid() && Can(old(heap), Op.Alloc(size)) && heap == Do(old(heap), Op.Alloc(size))
      ensures r.Err? ==> r == Err(ENOMEM) && heap == old(heap)
                         && forall i :: 0 <= i < |heap.free| ==> heap.free[i].size < size + HEADER
      ensures r.Ok? ==> HandsOut(old(heap), heap, size, r.value)
    {
      var actual := Needed(size);
      assert actual == size + HEADER;
      ghost var k := FirstFit(heap.free, size + HEADER);
      var prev, curr := FindFit(actual);
      if curr == 0 {
        FirstFitIs(heap.free, size + HEADER);
        return Err(ENOMEM);
      }
      ghost var was := heap;
      HandOut(prev, curr, actual, k);
      AllocHandsOut(was, k, size);
      r := Ok(curr + HEADER);
    }

    /** The block found is cut, and what was cut off counts as handed out. */
    method HandOut(prev: nat, curr: nat, size: nat, ghost k: nat)
      requires Valid() && size >= HEADER && k == FirstFit(heap.free, size) < |heap.free| && curr == heap.free[k].addr
      requires prev == if k == 0 then 0 else heap.free[k - 1].addr
      modifies this`mem, this`head, this`heap
      ensures Valid() && heap == AllocatedAt(old(heap), k, size)
    {
      FirstFitIs(heap.free, size);
      AllocKeeps(heap, size);
      LiveElsewhere(heap, k);
      TakeFrom(prev, curr, size, k);
      heap := AllocatedAt(heap, k, size);
    }

    /** Links a block in at its place and joins it with its neighbours; both freeing and adding a region do this. */
    method LinkIn(entry: nat, ghost b: Block)
      requires Linked(mem, head, heap.free) && Canonical(heap.free) && b.Fits() && entry == b.addr
      requires entry in mem && mem[entry].size == b.size
               && forall i :: 0 <= i < |heap.free| ==> heap.free[i].addr != entry
      modifies this`mem, this`head
      ensures Linked(mem, head, Inserted(heap.free, b))
      ensures mem.Keys == old(mem).Keys
      ensures forall a :: a in mem && a != entry && (forall i :: 0 <= i < |heap.free| ==> heap.free[i].addr != a) ==>
                mem[a] == old(mem)[a]
    {
      assert heap.free != [] ==> LinkedAt(mem, heap.free, 0);
      if head == 0 || entry < head {
        LinkFirst(entry, b);
      } else {
        var curr := FindPlace(entry);
        LinkBehind(curr, entry, b);
      }
    }

    method LinkFirst(entry: nat, ghost b: Block)
      requires Linked(mem, head, heap.free) && Canonical(heap.free) && b.Fits() && entry == b.addr
      requires entry in mem && mem[entry].size == b.size
               && forall i :: 0 <= i < |heap.free| ==> heap.free[i].addr != entry
      requires Below(heap.free, entry) == 0
      modifies this`mem, this`head
      ensures Linked(mem, head, Inserted(heap.free, b)) && mem.Keys == old(mem).Keys
      ensures forall a :: a in mem && a != entry ==> mem[a] == old(mem)[a]
    {
      ghost var s, was, first := heap.free, mem, head;
      mem := mem[entry := mem[entry].(next := head)];
      head := entry;
      InsertLinked(was, first, s, b, mem, head);
      ghost var t := s[..0] + [b] + s[0..];
      assert t == [b] + s;
      InsertedIsMerged(s, b);
      Coalesce(entry, mem[entry].next, t, 0);
    }

    method LinkBehind(curr: nat, entry: nat, ghost b: Block)
      requires Linked(mem, head, heap.free) && Canonical(heap.free) && b.Fits() && entry == b.addr
      requires entry in mem && mem[entry].size == b.size
               && forall i :: 0 <= i < |heap.free| ==> heap.free[i].addr != entry
      requires 0 < Below(heap.free, entry) <= |heap.free| && curr == heap.free[Below(heap.free, entry) - 1].addr
      modifies this`mem
      ensures Linked(mem, head, Inserted(heap.free, b)) && mem.Keys == old(mem).Keys
      ensures forall a :: a in mem && a != entry && a != curr ==> mem[a] == old(mem)[a]
    {
      ghost var s, k, was := heap.free, Below(heap.free, entry), mem;
      assert LinkedAt(mem, s, k - 1);
      mem := mem[entry := mem[entry].(next := mem[curr].next)];
      mem := mem[curr := mem[curr].(next := entry)];
      ghost var linked: map<nat, Header> := was[curr := Header(s[k - 1].size, b.addr)];
      assert mem == linked[entry := Header(b.size, AddrAt(s, k))];
      InsertLinked(was, head, s, b, mem, head);
      InsertedIsMerged(s, b);
      ghost var t := s[..k] + [b] + s[k..];
      assert t[k] == b && t[k - 1] == s[k - 1] && AddrAt(t, k + 1) == AddrAt(s, k);
      Coalesce(entry, mem[entry].next, t, k);
      ghost var m := MergedAt(t, k);
      assert m[k - 1] == s[k - 1] && m[k].addr == entry;
      Coalesce(curr, entry, m, k - 1);
    }

    /** The last block in front of `entry`. */
    method FindPlace(entry: nat) returns (curr: nat)
      requires Linked(mem, head, heap.free) && Canonical(heap.free) && heap.free != [] && heap.free[0].addr < entry
      requires forall i :: 0 <= i < |heap.free| ==> heap.free[i].addr != entry
      ensures 0 < Below(heap.free, entry) <= |heap.free| && curr == heap.free[Below(heap.free, entry) - 1].addr
    {
      ghost var s, i := heap.free, 0;
      BelowSplits(s, entry);
      curr := head;
      assert LinkedAt(mem, s, 0);
      while mem[curr].next != 0 && mem[curr].next < entry
        invariant i < |s| && curr == s[i].addr < entry && LinkedAt(mem, s, i)
        decreases |s| - i
      {
        assert LinkedAt(mem, s, i + 1);
        curr := mem[curr].next;
        i := i + 1;
      }
      assert i + 1 < |s| ==> LinkedAt(mem, s, i + 1);
    }

    method Free(ptr: nat, ghost b: Block)
      requires Valid() && head != 0 && b in heap.live && ptr == b.addr + HEADER
      modifies this`mem, this`head, this`heap
      ensures Valid() && Can(old(heap), Op.Free(b)) && heap == Do(old(heap), Op.Free(b))
      ensures TakesBack(old(heap), heap, b) && heap.live == old(heap).live - {b} && heap.regions == old(heap).regions
    {
      var entry := ptr - HEADER;
      assert heap.free != [];
      FreeKeeps(heap, b);
      LiveApart(heap, b);
      InsertedTakesBack(heap, Freed(heap, b), b);
      LinkIn(entry, b);
      heap := Freed(heap, b);
    }

    method AddRegion(pool: nat, size: nat)
      requires Valid() && Can(heap, Op.Grow(Block(pool, size))) && pool in mem
      modifies this
      ensures Valid() && heap == Do(old(heap), Op.Grow(Block(pool, size))) && capacity == old(capacity) + size
      ensures TakesBack(old(heap), heap, Block(pool, size)) && heap.live == old(heap).live
      ensures heap.regions == old(heap).regions + [Block(pool, size)]
    {
      ghost var region := Block(pool, size);
      GrowKeeps(heap, region);
      RegionApart(heap, region);
      InsertedTakesBack(heap, Grown(heap, region), region);
      WriteElsewhere(mem, head, heap.free, pool, mem[pool].(size := size));
      mem := mem[pool := mem[pool].(size := size)];
      capacity := capacity + size;
      LinkIn(pool, region);
      heap := Grown(heap, region);
    }
  }

  lemma WriteElsewhere(mem: map<nat, Header>, head: nat, s: seq<Block>, a: nat, header: Header)
    requires Linked(mem, head, s) && forall i :: 0 <= i < |s| ==> s[i].addr != a
    ensures Linked(mem[a := header], head, s)
  {
    var mem' := mem[a := header];
    forall i | 0 <= i < |s| ensures LinkedAt(mem', s, i) { assert LinkedAt(mem, s, i); }
  }

  lemma OtherHeader(s: seq<Block>, k: nat, i: nat)
    requires Canonical(s) && k < |s| && i < |s| && i != k
    ensures !s[k].Has(s[i].addr)
  {
    assert if i < k then s[i].End() < s[k].addr else s[k].End() < s[i].addr;
  }

  /** Headers of live blocks are neither in the block that is cut nor in front of it on the list. */
  lemma LiveElsewhere(h: Heap, k: nat)
    requires Sound(h) && k < |h.free|
    ensures forall b :: b in h.live ==> !h.free[k].Has(b.addr) && (k > 0 ==> b.addr != h.free[k - 1].addr)
  {
    forall b | b in h.live ensures !h.free[k].Has(b.addr) && (k > 0 ==> b.addr != h.free[k - 1].addr) {
      assert Apart(h.free[k], b) && (k > 0 ==> Apart(h.free[k - 1], b));
    }
  }

  lemma LiveApart(h: Heap, b: Block)
    requires Sound(h) && b in h.live
    ensures forall i :: 0 <= i < |h.free| ==> Apart(h.free[i], b)
    ensures forall c, i :: c in h.live && 0 <= i < |h.free| ==> h.free[i].addr != c.addr
    ensures forall c :: c in h.live && c != b ==> c.addr != b.addr
  {
    forall c, i | c in h.live && 0 <= i < |h.free| ensures h.free[i].addr != c.addr { assert Apart(h.free[i], c); }
    forall c | c in h.live && c != b ensures c.addr != b.addr { assert Apart(b, c); }
  }

  lemma RegionApart(h: Heap, region: Block)
    requires Sound(h) && Can(h, Op.Grow(region))
    ensures forall i :: 0 <= i < |h.free| ==> Apart(h.free[i], region) && h.free[i].addr != region.addr
    ensures forall c :: c in h.live ==> c.addr != region.addr
    ensures forall c, i :: c in h.live && 0 <= i < |h.free| ==> h.free[i].addr != c.addr
  {
    forall i | 0 <= i < |h.free| ensures Apart(h.free[i], region) { FreeInside(h, region, i); }
    forall c | c in h.live ensures c.addr != region.addr { LiveInside(h, region, c); }
    forall c, i | c in h.live && 0 <= i < |h.free| ensures h.free[i].addr != c.addr { assert Apart(h.free[i], c); }
  }
}
