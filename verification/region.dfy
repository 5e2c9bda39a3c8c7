/** Ranges of virtual pages: the bitmap plus a table that remembers each range's size. */
module Region {
  import opened Results
  import opened Descriptors
  import opened Bitmap

  datatype Allocation = Allocation(va: nat, pageCount: nat)

  const FREE := Allocation(0, 0)   // an empty slot of the table

  // ---- the agreement of table and bitmap ------------------------------------------

  predicate Covers(a: Allocation, pool: nat, p: nat) {
    a.va != 0 && a.va <= pool + p * PAGE_SIZE < a.va + a.pageCount * PAGE_SIZE
  }

  /** An empty slot, or a nonempty range of whole pages inside the pool. */
  predicate WellPlaced(a: Allocation, pool: nat, pages: nat) {
    if a.va == 0 then a == FREE
    else pool <= a.va && (a.va - pool) % PAGE_SIZE == 0 && 0 < a.pageCount
         && a.va + a.pageCount * PAGE_SIZE <= pool + pages * PAGE_SIZE
  }

  ghost predicate Disjoint(a: Allocation, b: Allocation, pool: nat, pages: nat) {
    forall p :: 0 <= p < pages ==> !(Covers(a, pool, p) && Covers(b, pool, p))
  }

  /** The set bits are the disjoint union of the ranges in the table. */
  ghost predicate Agree(pool: nat, bits: seq<bool>, allocs: seq<Allocation>) {
    && pool > 0
    && (forall i :: 0 <= i < |allocs| ==> WellPlaced(allocs[i], pool, |bits|))
    && (forall i, j :: 0 <= i < j < |allocs| ==> Disjoint(allocs[i], allocs[j], pool, |bits|))
    && (forall p :: 0 <= p < |bits| ==> (bits[p] <==> Covered(pool, allocs, p)))
  }

  ghost predicate Covered(pool: nat, allocs: seq<Allocation>, p: nat) {
    exists i :: 0 <= i < |allocs| && Covers(allocs[i], pool, p)
  }

  function FirstPage(a: Allocation, pool: nat): nat
    requires pool <= a.va
  {
    (a.va - pool) / PAGE_SIZE
  }

  lemma CoversItsPages(a: Allocation, pool: nat, pages: nat, p: nat)
    requires a.va != 0 && WellPlaced(a, pool, pages)
    ensures Covers(a, pool, p) <==> FirstPage(a, pool) <= p < FirstPage(a, pool) + a.pageCount
    ensures FirstPage(a, pool) + a.pageCount <= pages
  {
    assert a.va == pool + FirstPage(a, pool) * PAGE_SIZE;
  }

  /** Two entries at one address would cover the same first page. */
  lemma AddressesDiffer(pool: nat, bits: seq<bool>, allocs: seq<Allocation>, i: nat, j: nat)
    requires Agree(pool, bits, allocs) && i < j < |allocs| && allocs[i].va != 0
    ensures allocs[i].va != allocs[j].va
  {
    assert Disjoint(allocs[i], allocs[j], pool, |bits|);
    var p := FirstPage(allocs[i], pool);
    CoversItsPages(allocs[i], pool, |bits|, p);
    if allocs[j].va != 0 {
      CoversItsPages(allocs[j], pool, |bits|, p);
    }
  }

  /** Entering a range of free pages in an empty slot and marking its bits keeps the agreement. */
  lemma EnterAgrees(pool: nat, bits: seq<bool>, allocs: seq<Allocation>, slot: nat, start: nat, n: nat)
    requires Agree(pool, bits, allocs) && slot < |allocs| && allocs[slot] == FREE
    requires n > 0 && FreeRun(bits, start, n)
    ensures Agree(pool, Mark(bits, start, n, true), allocs[slot := Allocation(pool + start * PAGE_SIZE, n)])
  {
    var a := Allocation(pool + start * PAGE_SIZE, n);
    var bits', allocs' := Mark(bits, start, n, true), allocs[slot := a];
    forall p: nat ensures Covers(a, pool, p) <==> start <= p < start + n {
    }
    forall p | 0 <= p < |bits| ensures bits'[p] <==> Covered(pool, allocs', p) {
      if start <= p < start + n { assert Covers(allocs'[slot], pool, p); }
      if bits[p] {
        var i :| 0 <= i < |allocs| && Covers(allocs[i], pool, p);
        assert Covers(allocs'[i], pool, p);
      }
      if Covered(pool, allocs', p) && !(start <= p < start + n) {
        var i :| 0 <= i < |allocs| && Covers(allocs'[i], pool, p);
        assert Covers(allocs[i], pool, p);
      }
    }
    forall i | 0 <= i < |allocs| && i != slot
      ensures Disjoint(allocs'[i], a, pool, |bits|) && Disjoint(a, allocs'[i], pool, |bits|)
    {
      forall p | 0 <= p < |bits| && Covers(allocs[i], pool, p) ensures !Covers(a, pool, p) {
        assert bits[p];
      }
    }
    forall i, j | 0 <= i < j < |allocs| ensures Disjoint(allocs'[i], allocs'[j], pool, |bits'|) {
      if i != slot && j != slot { assert Disjoint(allocs[i], allocs[j], pool, |bits|); }
    }
  }

  /** Emptying a slot and clearing its bits keeps the agreement. */
  lemma LeaveAgrees(pool: nat, bits: seq<bool>, allocs: seq<Allocation>, slot: nat)
    requires Agree(pool, bits, allocs) && slot < |allocs| && allocs[slot].va != 0
    ensures var a := allocs[slot];
            Agree(pool, Mark(bits, FirstPage(a, pool), a.pageCount, false), allocs[slot := FREE])
  {
    var a := allocs[slot];
    var start := FirstPage(a, pool);
    var bits', allocs' := Mark(bits, start, a.pageCount, false), allocs[slot := FREE];
    forall p: nat ensures Covers(a, pool, p) <==> start <= p < start + a.pageCount {
      CoversItsPages(a, pool, |bits|, p);
    }
    forall p | 0 <= p < |bits| ensures bits'[p] <==> Covered(pool, allocs', p) {
      if Covered(pool, allocs', p) {
        var i :| 0 <= i < |allocs| && Covers(allocs'[i], pool, p);
        assert Covers(allocs[i], pool, p);
        if i < slot {
          assert Disjoint(allocs[i], a, pool, |bits|);
        } else {
          assert Disjoint(a, allocs[i], pool, |bits|);
        }
      }
      if bits'[p] {
        var i :| 0 <= i < |allocs| && Covers(allocs[i], pool, p);
        assert Covers(allocs'[i], pool, p);
      }
    }
    forall i, j | 0 <= i < j < |allocs| ensures Disjoint(allocs'[i], allocs'[j], pool, |bits'|) {
      if i != slot && j != slot { assert Disjoint(allocs[i], allocs[j], pool, |bits|); }
    }
  }

  // ---- copying to another pool ----------------------------------------------------

  /** The address moved from one pool to another, in 64-bit arithmetic; an empty slot stays empty. */
  function Translate(a: Allocation, delta: nat): Allocation {
    if a.va == 0 then a else a.(va := (a.va + delta) % WORD_LIMIT)
  }

  lemma TranslateKeepsPages(a: Allocation, pool: nat, pool': nat, pages: nat, p: nat)
    requires WellPlaced(a, pool, pages) && 0 < pool' && pool' + pages * PAGE_SIZE < WORD_LIMIT
    requires pool + pages * PAGE_SIZE < WORD_LIMIT
    ensures var a' := Translate(a, (pool' - pool) % WORD_LIMIT);
            WellPlaced(a', pool', pages) && (Covers(a', pool', p) <==> Covers(a, pool, p))
  {
    if a.va != 0 {
      var delta := (pool' - pool) % WORD_LIMIT;
      var moved := a.va - pool + pool';
      assert (a.va + delta) % WORD_LIMIT == moved;
    }
  }

  lemma WiderPool(a: Allocation, pool: nat, pages: nat, pages': nat)
    requires WellPlaced(a, pool, pages) && pages <= pages'
    ensures WellPlaced(a, pool, pages')
  {
  }

  /** The table after a copy: the source's entries moved to the new pool, then what was there before. */
  ghost function CopiedTable(src: seq<Allocation>, dst: seq<Allocation>, delta: nat): (r: seq<Allocation>)
    requires |src| <= |dst|
    ensures |r| == |dst|
    ensures forall i :: 0 <= i < |dst| ==> r[i] == if i < |src| then Translate(src[i], delta) else dst[i]
  {
    seq(|dst|, i requires 0 <= i < |dst| => if i < |src| then Translate(src[i], delta) else dst[i])
  }

  ghost function CopiedBits(src: seq<bool>, pages: nat): (r: seq<bool>)
    ensures |r| == pages
    ensures forall p :: 0 <= p < pages ==> r[p] == (p < |src| && src[p])
  {
    seq(pages, p requires 0 <= p < pages => p < |src| && src[p])
  }

  lemma CopiedEntries(pool: nat, bits: seq<bool>, src: seq<Allocation>, pool': nat, pages: nat, dst: seq<Allocation>)
    requires Agree(pool, bits, src) && |src| <= |dst| && |bits| <= pages && 0 < pool'
    requires pool + |bits| * PAGE_SIZE < WORD_LIMIT && pool' + pages * PAGE_SIZE < WORD_LIMIT
    ensures var table := CopiedTable(src, dst, (pool' - pool) % WORD_LIMIT);
            forall i :: 0 <= i < |src| ==>
              && WellPlaced(table[i], pool', |bits|) && WellPlaced(table[i], pool', pages)
              && forall p :: 0 <= p ==> (Covers(table[i], pool', p) <==> Covers(src[i], pool, p))
  {
    var delta := (pool' - pool) % WORD_LIMIT;
    var table := CopiedTable(src, dst, delta);
    forall i | 0 <= i < |src|
      ensures WellPlaced(table[i], pool', |bits|) && WellPlaced(table[i], pool', pages)
      ensures forall p :: 0 <= p ==> (Covers(table[i], pool', p) <==> Covers(src[i], pool, p))
    {
      forall p | 0 <= p
        ensures WellPlaced(table[i], pool', |bits|) && (Covers(table[i], pool', p) <==> Covers(src[i], pool, p))
      {
        TranslateKeepsPages(src[i], pool, pool', |bits|, p);
      }
      TranslateKeepsPages(src[i], pool, pool', |bits|, 0);
      WiderPool(table[i], pool', |bits|, pages);
    }
  }

  lemma CopyAgrees(pool: nat, bits: seq<bool>, src: seq<Allocation>, pool': nat, pages: nat, dst: seq<Allocation>)
    requires Agree(pool, bits, src) && |src| <= |dst| && |bits| <= pages && 0 < pool'
    requires pool + |bits| * PAGE_SIZE < WORD_LIMIT && pool' + pages * PAGE_SIZE < WORD_LIMIT
    requires forall i :: |src| <= i < |dst| ==> dst[i] == FREE
    ensures Agree(pool', CopiedBits(bits, pages), CopiedTable(src, dst, (pool' - pool) % WORD_LIMIT))
  {
    var bits', table := CopiedBits(bits, pages), CopiedTable(src, dst, (pool' - pool) % WORD_LIMIT);
    CopiedEntries(pool, bits, src, pool', pages, dst);
    forall p | 0 <= p < pages ensures bits'[p] <==> Covered(pool', table, p) {
      if p < |bits| && bits[p] {
        var i :| 0 <= i < |src| && Covers(src[i], pool, p);
        assert Covers(table[i], pool', p);
      }
      if Covered(pool', table, p) {
        var i :| 0 <= i < |dst| && Covers(table[i], pool', p);
        assert i < |src| && p < |bits| && Covers(src[i], pool, p);
      }
    }
    forall i, j | 0 <= i < j < |dst| ensures Disjoint(table[i], table[j], pool', pages) {
      if j < |src| { assert Disjoint(src[i], src[j], pool, |bits|); }
    }
  }

  lemma TailBreaksAgreement(pool: nat, bits: seq<bool>, src: seq<Allocation>,
                            pool': nat, pages: nat, dst: seq<Allocation>, i: nat)
    requires Agree(pool, bits, src) && |src| <= i < |dst| && |bits| <= pages && 0 < pool'
    requires pool + |bits| * PAGE_SIZE < WORD_LIMIT && pool' + pages * PAGE_SIZE < WORD_LIMIT
    requires dst[i] != FREE
    ensures !Agree(pool', CopiedBits(bits, pages), CopiedTable(src, dst, (pool' - pool) % WORD_LIMIT))
  {
    var bits', table := CopiedBits(bits, pages), CopiedTable(src, dst, (pool' - pool) % WORD_LIMIT);
    CopiedEntries(pool, bits, src, pool', pages, dst);
    assert table[i] == dst[i];
    if WellPlaced(dst[i], pool', pages) {
      var p := FirstPage(dst[i], pool');
      CoversItsPages(dst[i], pool', pages, p);
      assert Covers(table[i], pool', p);
      if bits'[p] {
        var j :| 0 <= j < |src| && Covers(src[j], pool, p);
        assert Covers(table[j], pool', p);
        assert !Disjoint(table[j], table[i], pool', pages);
      } else {
        assert Covered(pool', table, p);
      }
    }
  }

  /** The copy agrees with its table exactly when the destination had no ranges of its own beyond
      the source's slots: those entries stay while their bits are cleared. */
  lemma CopyAgreesIffTailEmpty(pool: nat, bits: seq<bool>, src: seq<Allocation>,
                               pool': nat, pages: nat, dst: seq<Allocation>)
    requires Agree(pool, bits, src) && |src| <= |dst| && |bits| <= pages && 0 < pool'
    requires pool + |bits| * PAGE_SIZE < WORD_LIMIT && pool' + pages * PAGE_SIZE < WORD_LIMIT
    ensures Agree(pool', CopiedBits(bits, pages), CopiedTable(src, dst, (pool' - pool) % WORD_LIMIT))
            <==> forall i :: |src| <= i < |dst| ==> dst[i] == FREE
  {
    if i :| |src| <= i < |dst| && dst[i] != FREE {
      TailBreaksAgreement(pool, bits, src, pool', pages, dst, i);
    } else {
      CopyAgrees(pool, bits, src, pool', pages, dst);
    }
  }

  // ---- the region -----------------------------------------------------------------

  ghost predicate FirstEmpty(allocs: seq<Allocation>, slot: nat) {
    slot < |allocs| && allocs[slot].va == 0 && forall i :: 0 <= i < slot ==> allocs[i].va != 0
  }

  ghost predicate Full(allocs: seq<Allocation>) {
    forall i :: 0 <= i < |allocs| ==> allocs[i].va != 0
  }

  ghost predicate NoRun(bits: seq<bool>, n: nat) {
    forall s :: 0 <= s ==> !FreeRun(bits, s, n)
  }

  /** `n` pages from page `start` were taken and entered in the first empty slot. */
  ghost predicate Taken(pool: nat, bits: seq<bool>, allocs: seq<Allocation>,
                        bits': seq<bool>, allocs': seq<Allocation>, slot: nat, start: nat, n: nat) {
    && FirstEmpty(allocs, slot) && FreeRun(bits, start, n)
    && bits' == Mark(bits, start, n, true)
    && allocs' == allocs[slot := Allocation(pool + start * PAGE_SIZE, n)]
  }

  /** The range in `slot` was given back. */
  ghost predicate Returned(pool: nat, bits: seq<bool>, allocs: seq<Allocation>,
                           bits': seq<bool>, allocs': seq<Allocation>, slot: nat) {
    && slot < |allocs| && pool <= allocs[slot].va
    && bits' == Mark(bits, FirstPage(allocs[slot], pool), allocs[slot].pageCount, false)
    && allocs' == allocs[slot := FREE]
  }

  /** Giving back what was just taken restores the bits and the table. */
  lemma FreeUndoesTake(pool: nat, bits: seq<bool>, allocs: seq<Allocation>, bits1: seq<bool>, allocs1: seq<Allocation>,
                       bits2: seq<bool>, allocs2: seq<Allocation>, slot: nat, start: nat, n: nat, slot': nat)
    requires Agree(pool, bits, allocs) && n > 0
    requires Taken(pool, bits, allocs, bits1, allocs1, slot, start, n)
    requires Returned(pool, bits1, allocs1, bits2, allocs2, slot') && allocs1[slot'].va == pool + start * PAGE_SIZE
    ensures bits2 == bits && allocs2 == allocs
  {
    EnterAgrees(pool, bits, allocs, slot, start, n);
    if slot < slot' { AddressesDiffer(pool, bits1, allocs1, slot, slot'); }
    if slot' < slot { AddressesDiffer(pool, bits1, allocs1, slot', slot); }
    ClearUndoesMark(bits, start, n);
    assert allocs[slot] == FREE;
  }

  class AllocRegion {
    const allocator: AllocBitMap
    const allocations: array<Allocation>

    ghost predicate Shape() {
      allocator.Valid() && allocator.pool > 0 && allocator.bitmap as object != allocations as object
    }

    ghost predicate Valid()
      reads allocator.bitmap, allocations
    {
      Shape() && Agree(allocator.pool, Bits(), Table())
    }

    ghost function Table(): (s: seq<Allocation>)
      reads allocations
      ensures s == allocations[..]
    {
      allocations[..]
    }

    ghost function Bits(): (s: seq<bool>)
      requires Shape()
      reads allocator.bitmap
      ensures |s| == allocator.pageCount
    {
      allocator.Bits()
    }

    /** The region is sound and has just these bits and entries. */
    ghost predicate Is(bits: seq<bool>, allocs: seq<Allocation>)
      reads allocator.bitmap, allocations
    {
      Valid() && Bits() == bits && Table() == allocs
    }

    /** The table starts empty; the bitmap holds whatever was in the storage the heap handed out. */
    constructor (base: nat, size: nat, maxAllocations: nat, storage: array<bv8>)
      requires base > 0 && size / PAGE_SIZE <= 8 * storage.Length
      ensures Shape() && fresh(allocator) && fresh(allocations) && allocator.bitmap == storage
      ensures allocator.pool == base && allocator.pageCount == size / PAGE_SIZE && allocations.Length == maxAllocations
      ensures forall i :: 0 <= i < maxAllocations ==> allocations[i] == FREE
    {
      allocator := new AllocBitMap(base, size / PAGE_SIZE, storage);
      allocations := new Allocation[maxAllocations](_ => FREE);
    }

    /** So a new region is sound exactly when that storage happened to be zero. */
    lemma FreshRegionValidIffZeroed()
      requires Shape() && forall i :: 0 <= i < allocations.Length ==> allocations[i] == FREE
      ensures Valid() <==> forall p :: 0 <= p < allocator.pageCount ==> !Bits()[p]
    {
      var bits, allocs := Bits(), allocations[..];
      forall p | 0 <= p < |bits| ensures !Covered(allocator.pool, allocs, p) {
      }
    }

    /** Clears both. */
    method Init()
      requires Shape()
      modifies allocator.bitmap, allocations
      ensures Valid()
      ensures forall i :: 0 <= i < allocations.Length ==> allocations[i] == FREE
      ensures forall p :: 0 <= p < allocator.pageCount ==> !Bits()[p]
    {
      allocator.Clear();
      for i := 0 to allocations.Length
        invariant forall j :: 0 <= j < i ==> allocations[j] == FREE
        invariant forall p :: 0 <= p < allocator.pageCount ==> !Bits()[p]
      {
        allocations[i] := FREE;
      }
      FreshRegionValidIffZeroed();
    }

    method Find(addr: nat) returns (r: Result<nat>)
      ensures r.Ok? ==> r.value < allocations.Length && allocations[r.value].va == addr
                        && forall i :: 0 <= i < r.value ==> allocations[i].va != addr
      ensures r.Err? ==> r == Err(ENOENT) && forall i :: 0 <= i < allocations.Length ==> allocations[i].va != addr
    {
      for i := 0 to allocations.Length
        invariant forall j :: 0 <= j < i ==> allocations[j].va != addr
      {
        if addr == allocations[i].va {
          return Ok(i);
        }
      }
      return Err(ENOENT);
    }

    /** The lowest run of `n` free pages, entered in the first empty slot.  Fails only when the table
        is full or there is no such run. */
    method Alloc(n: nat) returns (r: Result<nat>, ghost slot: nat, ghost start: nat)
      requires Valid() && n > 0
      modifies allocator.bitmap, allocations
      ensures Valid()
      ensures r.Err? <==> Full(old(allocations[..])) || NoRun(old(Bits()), n)
      ensures r.Err? ==> r == Err(ENOMEM) && Bits() == old(Bits()) && allocations[..] == old(allocations[..])
      ensures r.Ok? ==>
                && r.value == allocator.pool + start * PAGE_SIZE && LowestRun(old(Bits()), start, n)
                && Taken(allocator.pool, old(Bits()), old(allocations[..]), Bits(), allocations[..], slot, start, n)
    {
      slot, start := 0, 0;
      var entry := Find(0);
      if entry.Err? {
        return Err(ENOMEM), slot, start;
      }
      slot := entry.value;
      ghost var bits, allocs := Bits(), allocations[..];
      var va := allocator.Alloc(n);
      if va.Err? {
        return va, slot, start;
      }
      start :| LowestRun(bits, start, n) && va.value == allocator.pool + start * PAGE_SIZE
               && Bits() == Mark(bits, start, n, true);
      EnterAgrees(allocator.pool, bits, allocs, slot, start, n);
      allocations[entry.value] := Allocation(va.value, n);
      assert allocations[..] == allocs[slot := Allocation(va.value, n)];
      return va, slot, start;
    }

    /** What the bitmap asserts about a range it is given: a page-aligned start inside the pool, and
        an end inside it too unless a taken page comes first. */
    ghost predicate InPool(va: nat, n: nat)
      requires Shape()
      reads allocator.bitmap
    {
      && allocator.pool <= va < allocator.pool + allocator.pageCount * PAGE_SIZE
      && (va - allocator.pool) % PAGE_SIZE == 0
      && var page := (va - allocator.pool) / PAGE_SIZE;
         page + n <= allocator.pageCount || exists k :: page <= k < allocator.pageCount && Bits()[k]
    }

    /** Takes a given range of pages, all or nothing. */
    method Reserve(va: nat, n: nat) returns (err: int, ghost slot: nat)
      requires Valid() && n > 0 && InPool(va, n)
      modifies allocator.bitmap, allocations
      ensures Valid()
      ensures err == EOK || err == ENOMEM
      ensures err == ENOMEM <==> Full(old(allocations[..]))
                                 || !FreeRun(old(Bits()), (va - allocator.pool) / PAGE_SIZE, n)
      ensures err == ENOMEM ==> Bits() == old(Bits()) && allocations[..] == old(allocations[..])
      ensures err == EOK ==> Taken(allocator.pool, old(Bits()), old(allocations[..]), Bits(), allocations[..],
                                   slot, (va - allocator.pool) / PAGE_SIZE, n)
    {
      slot := 0;
      var entry := Find(0);
      if entry.Err? {
        return ENOMEM, slot;
      }
      slot := entry.value;
      ghost var bits, allocs := Bits(), allocations[..];
      ghost var start := (va - allocator.pool) / PAGE_SIZE;
      err := allocator.Reserve(va, n);
      if err != EOK {
        return err, slot;
      }
      EnterAgrees(allocator.pool, bits, allocs, slot, start, n);
      allocations[entry.value] := Allocation(va, n);
      assert allocations[..] == allocs[slot := Allocation(va, n)];
    }

    /** Gives back the range that starts at `addr`. */
    method Free(addr: nat) returns (n: nat, ghost slot: nat)
      requires Valid() && addr != 0 && exists i :: 0 <= i < allocations.Length && allocations[i].va == addr
      modifies allocator.bitmap, allocations
      ensures Valid()
      ensures slot < allocations.Length && old(allocations[slot]) == Allocation(addr, n)
      ensures Returned(allocator.pool, old(Bits()), old(allocations[..]), Bits(), allocations[..], slot)
    {
      var entry := Find(addr);
      slot := entry.value;
      n := allocations[entry.value].pageCount;
      ghost var bits, allocs, a := Bits(), allocations[..], allocations[slot];
      RangeIsMarked(allocator.pool, bits, allocs, slot);
      LeaveAgrees(allocator.pool, bits, allocs, slot);
      allocator.Free(addr, n);
      allocations[entry.value] := FREE;
      assert allocations[..] == allocs[slot := FREE];
    }

    /** Takes over the bits and the table of `src`, moved to this pool.  Slots of this table beyond
        those of `src` keep what they held. */
    method CopyFrom(src: AllocRegion) returns (err: int)
      requires Shape() && src.Valid()
      requires this != src ==> allocator.bitmap != src.allocator.bitmap && allocations != src.allocations
                               && allocator.bitmap as object != src.allocations
                                  && allocations as object != src.allocator.bitmap
      requires allocator.pool + allocator.pageCount * PAGE_SIZE < WORD_LIMIT
      requires src.allocator.pool + src.allocator.pageCount * PAGE_SIZE < WORD_LIMIT
      modifies allocator.bitmap, allocations
      ensures this == src ==> err == EOK && Bits() == old(Bits()) && allocations[..] == old(allocations[..])
      ensures this != src && (allocations.Length < src.allocations.Length
                              || allocator.pageCount < src.allocator.pageCount) ==>
                err == ENOMEM && Bits() == old(Bits()) && allocations[..] == old(allocations[..])
      ensures this != src && allocations.Length >= src.allocations.Length
              && allocator.pageCount >= src.allocator.pageCount ==>
                && err == EOK
                && Bits() == CopiedBits(src.Bits(), allocator.pageCount)
                && allocations[..] == CopiedTable(src.allocations[..], old(allocations[..]),
                                                  (allocator.pool - src.allocator.pool) % WORD_LIMIT)
    {
      if this == src {
        return EOK;
      }
      if allocations.Length < src.allocations.Length {
        return ENOMEM;
      }
      if allocator.pageCount < src.allocator.pageCount {
        return ENOMEM;
      }
      ghost var pool, pages := src.allocator.pool, src.allocator.pageCount;
      assert forall j :: 0 <= j < src.allocations.Length ==> WellPlaced(src.allocations[..][j], pool, pages);
      err := allocator.CopyFrom(src.allocator);
      CopyTable(src, (allocator.pool - src.allocator.pool) % WORD_LIMIT);
      return EOK;
    }

    /** The entries of `src`, first as they are and then, between different pools, moved by `delta`. */
    method CopyTable(src: AllocRegion, delta: nat)
      requires src.allocations.Length <= allocations.Length && src.allocations != allocations
      requires forall i :: 0 <= i < src.allocations.Length ==> src.allocations[i].va < WORD_LIMIT
      modifies allocations
      ensures allocations[..] == CopiedTable(src.allocations[..], old(allocations[..]), delta)
    {
      for i := 0 to src.allocations.Length
        invariant forall j :: 0 <= j < i ==> allocations[j] == src.allocations[j]
        invariant forall j :: i <= j < allocations.Length ==> allocations[j] == old(allocations[j])
      {
        allocations[i] := src.allocations[i];
      }
      if delta == 0 {
        return;
      }
      for i := 0 to src.allocations.Length
        invariant forall j :: 0 <= j < i ==> allocations[j] == Translate(src.allocations[j], delta)
        invariant forall j :: i <= j < src.allocations.Length ==> allocations[j] == src.allocations[j]
        invariant forall j :: src.allocations.Length <= j < allocations.Length ==> allocations[j] == old(allocations[j])
      {
        if allocations[i].va != 0 {
          allocations[i] := allocations[i].(va := (allocations[i].va + delta) % WORD_LIMIT);
        }
      }
    }
  }

  lemma RangeIsMarked(pool: nat, bits: seq<bool>, allocs: seq<Allocation>, slot: nat)
    requires Agree(pool, bits, allocs) && slot < |allocs| && allocs[slot].va != 0
    ensures var a := allocs[slot];
            && FirstPage(a, pool) + a.pageCount <= |bits| && a.va < pool + |bits| * PAGE_SIZE && a.pageCount > 0
            && forall p :: FirstPage(a, pool) <= p < FirstPage(a, pool) + a.pageCount ==> bits[p]
  {
    var a := allocs[slot];
    CoversItsPages(a, pool, |bits|, 0);
    forall p | FirstPage(a, pool) <= p < FirstPage(a, pool) + a.pageCount ensures bits[p] {
      CoversItsPages(a, pool, |bits|, p);
      assert Covered(pool, allocs, p);
    }
  }
}
