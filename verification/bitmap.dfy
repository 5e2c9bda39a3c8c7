/** The page bitmap: one bit per page of a pool, first-fit search for runs of free pages. */
module Bitmap {
  import opened Results
  import opened Descriptors

  // ---- bits of a byte -------------------------------------------------------------

  function GetBit(b: bv8, i: nat): bool
    requires i < 8
  {
    (b >> i) & 1 == 1
  }

  function SetBit(b: bv8, i: nat): bv8
    requires i < 8
  {
    b | (1 << i)
  }

  function ClearBit(b: bv8, i: nat): bv8
    requires i < 8
  {
    b & !(1 << i)
  }

  lemma SetOneBit(b: bv8, i: nat, j: nat)
    requires i < 8 && j < 8
    ensures GetBit(SetBit(b, i), j) == (i == j || GetBit(b, j))
  {
    if i == 0 { SetOneBitAt(b, 0, j); } else if i == 1 { SetOneBitAt(b, 1, j); }
    else if i == 2 { SetOneBitAt(b, 2, j); } else if i == 3 { SetOneBitAt(b, 3, j); }
    else if i == 4 { SetOneBitAt(b, 4, j); } else if i == 5 { SetOneBitAt(b, 5, j); }
    else if i == 6 { SetOneBitAt(b, 6, j); } else { SetOneBitAt(b, 7, j); }
  }

  lemma SetOneBitAt(b: bv8, i: nat, j: nat)
    requires i < 8 && j < 8
    ensures GetBit(SetBit(b, i), j) == (i == j || GetBit(b, j))
  {
    if j == 0 { } else if j == 1 { } else if j == 2 { } else if j == 3 { }
    else if j == 4 { } else if j == 5 { } else if j == 6 { } else { }
  }

  lemma ClearOneBit(b: bv8, i: nat, j: nat)
    requires i < 8 && j < 8
    ensures GetBit(ClearBit(b, i), j) == (i != j && GetBit(b, j))
  {
    if i == 0 { ClearOneBitAt(b, 0, j); } else if i == 1 { ClearOneBitAt(b, 1, j); }
    else if i == 2 { ClearOneBitAt(b, 2, j); } else if i == 3 { ClearOneBitAt(b, 3, j); }
    else if i == 4 { ClearOneBitAt(b, 4, j); } else if i == 5 { ClearOneBitAt(b, 5, j); }
    else if i == 6 { ClearOneBitAt(b, 6, j); } else { ClearOneBitAt(b, 7, j); }
  }

  lemma ClearOneBitAt(b: bv8, i: nat, j: nat)
    requires i < 8 && j < 8
    ensures GetBit(ClearBit(b, i), j) == (i != j && GetBit(b, j))
  {
    if j == 0 { } else if j == 1 { } else if j == 2 { } else if j == 3 { }
    else if j == 4 { } else if j == 5 { } else if j == 6 { } else { }
  }

  lemma ZeroByte(j: nat)
    requires j < 8
    ensures !GetBit(0, j)
  {
    if j == 0 { } else if j == 1 { } else if j == 2 { } else if j == 3 { }
    else if j == 4 { } else if j == 5 { } else if j == 6 { } else { }
  }

  // ---- runs of pages --------------------------------------------------------------

  /** Pages `start` up to `start + n` exist and are free. */
  ghost predicate FreeRun(bits: seq<bool>, start: nat, n: nat) {
    start + n <= |bits| && forall k :: start <= k < start + n ==> !bits[k]
  }

  /** The first-fit answer: a free run with no free run of the same length before it. */
  ghost predicate LowestRun(bits: seq<bool>, start: nat, n: nat) {
    FreeRun(bits, start, n) && forall s :: 0 <= s < start ==> !FreeRun(bits, s, n)
  }

  /** The bits with pages `start` up to `start + n` set to `b`. */
  ghost function Mark(bits: seq<bool>, start: nat, n: nat, b: bool): (r: seq<bool>)
    ensures |r| == |bits|
    ensures forall k :: 0 <= k < |bits| ==> r[k] == if start <= k < start + n then b else bits[k]
  {
    seq(|bits|, k requires 0 <= k < |bits| => if start <= k < start + n then b else bits[k])
  }

  lemma MarkNext(bits: seq<bool>, start: nat, k: nat, b: bool)
    requires start + k < |bits|
    ensures Mark(bits, start, k, b)[start + k := b] == Mark(bits, start, k + 1, b)
    ensures Mark(bits, start, k, b)[start + k] == bits[start + k]
  {
  }

  lemma MarkNone(bits: seq<bool>, start: nat, b: bool)
    ensures Mark(bits, start, 0, b) == bits
  {
  }

  /** The bits before and after page `p`, the `k`-th from `start` on, is marked. */
  lemma MarkTurn(bits: seq<bool>, start: nat, k: nat, b: bool, p: nat) returns (before: seq<bool>, after: seq<bool>)
    requires p == start + k < |bits| && bits[p] == !b
    ensures before == Mark(bits, start, k, b) && after == Mark(bits, start, k + 1, b)
    ensures |before| == |after| == |bits| && before[p] == !b && after == before[p := b]
  {
    before, after := Mark(bits, start, k, b), Mark(bits, start, k + 1, b);
    MarkNext(bits, start, k, b);
  }

  /** Marking a free run and clearing it again changes nothing. */
  lemma ClearUndoesMark(bits: seq<bool>, start: nat, n: nat)
    requires FreeRun(bits, start, n)
    ensures Mark(Mark(bits, start, n, true), start, n, false) == bits
  {
  }

  class AllocBitMap {
    const bitmap: array<bv8>
    const pageCount: nat
    const pool: nat

    ghost predicate Valid() { pageCount <= 8 * bitmap.Length }

    predicate Allocated(page: nat)
      requires Valid() && page < pageCount
      reads bitmap
    {
      GetBit(bitmap[page / 8], page % 8)
    }

    ghost function Bits(): (s: seq<bool>)
      requires Valid()
      reads bitmap
      ensures |s| == pageCount && forall p :: 0 <= p < pageCount ==> s[p] == Allocated(p)
    {
      seq(pageCount, p requires 0 <= p < pageCount reads bitmap => Allocated(p))
    }

    /** `storage` is the block that the heap has handed out, with whatever is in it. */
    constructor (pool: nat, pageCount: nat, storage: array<bv8>)
      requires pageCount <= 8 * storage.Length
      ensures this.pool == pool && this.pageCount == pageCount && bitmap == storage && Valid()
    {
      this.pool := pool;
      this.pageCount := pageCount;
      bitmap := storage;
    }

    method Clear()
      requires Valid()
      modifies bitmap
      ensures forall p :: 0 <= p < pageCount ==> !Bits()[p]
    {
      for i := 0 to bitmap.Length
        invariant forall j :: 0 <= j < i ==> bitmap[j] == 0
      {
        bitmap[i] := 0;
      }
      forall p | 0 <= p < pageCount ensures !Allocated(p) {
        ZeroByte(p % 8);
      }
    }

    method SetPage(page: nat, b: bool)
      requires Valid() && page < pageCount
      modifies bitmap
      ensures Bits() == old(Bits())[page := b]
    {
      var byte, bit := page / 8, page % 8;
      bitmap[byte] := if b then SetBit(bitmap[byte], bit) else ClearBit(bitmap[byte], bit);
      forall p | 0 <= p < pageCount ensures Allocated(p) == if p == page then b else old(Allocated(p)) {
        SetOneBit(old(bitmap[byte]), bit, p % 8);
        ClearOneBit(old(bitmap[byte]), bit, p % 8);
      }
    }

    method SetRange(page: nat, n: nat, b: bool)
      requires Valid() && page + n <= pageCount
      modifies bitmap
      ensures Bits() == Mark(old(Bits()), page, n, b)
    {
      assert Bits() == Mark(old(Bits()), page, 0, b);
      for k := 0 to n
        invariant Bits() == Mark(old(Bits()), page, k, b)
      {
        SetPage(page + k, b);
      }
    }

    /** First fit.  When page `start + i` of a candidate is taken, no run that begins at or before
        it can succeed, so the search goes on behind it. */
    method FindFreePages(n: nat) returns (r: Result<nat>)
      requires Valid()
      ensures r.Ok? ==> LowestRun(Bits(), r.value, n)
      ensures r.Err? ==> forall s :: 0 <= s ==> !FreeRun(Bits(), s, n)
    {
      var start := 0;
      while start + n <= pageCount
        invariant forall s :: 0 <= s < start ==> !FreeRun(Bits(), s, n)
        decreases pageCount + 1 - start
      {
        var i := 0;
        while i < n && !Allocated(start + i)
          invariant i <= n && forall k :: start <= k < start + i ==> !Bits()[k]
        {
          i := i + 1;
        }
        if i == n {
          return Ok(start);
        }
        assert Bits()[start + i];
        start := start + i + 1;
      }
      return Err(ENOMEM);
    }

    method Alloc(n: nat) returns (r: Result<nat>)
      requires Valid() && n > 0
      modifies bitmap
      ensures r.Ok? ==> exists start: nat ::
                && LowestRun(old(Bits()), start, n) && r.value == pool + start * PAGE_SIZE
                && Bits() == Mark(old(Bits()), start, n, true)
      ensures r.Err? ==> r == Err(ENOMEM) && Bits() == old(Bits())
                         && forall s :: 0 <= s ==> !FreeRun(old(Bits()), s, n)
    {
      var pos := FindFreePages(n);
      if pos.Err? {
        return Err(ENOMEM);
      }
      SetRange(pos.value, n, true);
      return Ok(pos.value * PAGE_SIZE + pool);
    }

    /** Takes the given range, all or nothing.  Running off the end of the pool is only noticed when
        every page up to there is free. */
    method Reserve(addr: nat, n: nat) returns (err: int)
      requires Valid() && n > 0 && pool <= addr < pool + pageCount * PAGE_SIZE
      requires var page := (addr - pool) / PAGE_SIZE;
               page + n <= pageCount || exists k :: page <= k < pageCount && Bits()[k]
      modifies bitmap
      ensures var page := (addr - pool) / PAGE_SIZE;
              if FreeRun(old(Bits()), page, n)
              then err == EOK && Bits() == Mark(old(Bits()), page, n, true)
              else err == ENOMEM && Bits() == old(Bits())
    {
      var page := (addr - pool) / PAGE_SIZE;
      for pos := page to page + n
        invariant forall k :: page <= k < pos && k < pageCount ==> !Bits()[k]
        invariant pos <= pageCount
      {
        if Allocated(pos) {
          assert Bits()[pos];
          return ENOMEM;
        }
      }
      SetRange(page, n, true);
      return EOK;
    }

    /** Freeing pages that are not allocated is a bug of the caller. */
    method Free(addr: nat, n: nat)
      requires Valid() && n > 0 && pool <= addr < pool + pageCount * PAGE_SIZE
      requires var page := (addr - pool) / PAGE_SIZE;
               page + n <= pageCount && forall k :: page <= k < page + n ==> Bits()[k]
      modifies bitmap
      ensures Bits() == Mark(old(Bits()), (addr - pool) / PAGE_SIZE, n, false)
    {
      SetRange((addr - pool) / PAGE_SIZE, n, false);
    }

    /** Takes over the bits of `src`; pages it does not have become free. */
    method CopyFrom(src: AllocBitMap) returns (err: int)
      requires Valid() && src.Valid() && bitmap != src.bitmap
      modifies bitmap
      ensures pageCount < src.pageCount ==> err == ENOMEM && Bits() == old(Bits())
      ensures pageCount >= src.pageCount ==>
                err == EOK && forall p :: 0 <= p < pageCount ==> Bits()[p] == (p < src.pageCount && src.Bits()[p])
    {
      if pageCount < src.pageCount {
        return ENOMEM;
      }
      Clear();
      for p := 0 to src.pageCount
        invariant forall k :: 0 <= k < pageCount ==> Bits()[k] == (k < p && src.Bits()[k])
      {
        if src.Allocated(p) {
          SetPage(p, true);
        }
      }
      return EOK;
    }
  }
}
