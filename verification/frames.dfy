/** The result of an operation that may fail, with the source's error numbers without their sign. */
module Results {

  datatype Result<+T> = Ok(value: T) | Err(errno: int)

  const EOK := 0
  const ENOENT := 2
  const EBADF := 9
  const ENOMEM := 12
  const EINVAL := 22
  const EMFILE := 24
}

/** Physical memory and its page allocator.

    Free pages form a chain threaded through their own first words.  Everything else in the
    virtual-memory model lives in the same words: translation tables, page contents and the
    chain share one memory, so that every claim of disjointness is about real aliasing.
 */
module Frames {
  import opened Collections
  import opened Descriptors
  import opened Results

  type Page = p: seq<Descriptor> | |p| == ENTRIES witness seq(ENTRIES, _ => ZERO)

  type Memory = map<Frame, Page>

  function ZeroPage(): (p: Page)
    ensures forall i :: 0 <= i < ENTRIES ==> p[i] == ZERO
  {
    seq(ENTRIES, _ => ZERO)
  }

  predicate PageAligned(x: nat) { x % PAGE_SIZE == 0 }

  ghost function Elements<T>(s: seq<T>): set<T> { set x | x in s }

  /** The frames from `lo` up to `hi`, highest first: the order in which a freed range is handed out. */
  ghost function Downward(lo: nat, hi: nat): (s: seq<nat>)
    requires lo <= hi
    ensures |s| == hi - lo && forall i :: 0 <= i < |s| ==> s[i] == hi - 1 - i
  {
    if lo == hi then [] else [hi - 1] + Downward(lo, hi - 1)
  }

  lemma OneMoreFreed(lo: nat, f: nat, rest: seq<nat>)
    requires lo <= f
    ensures [f] + (Downward(lo, f) + rest) == Downward(lo, f + 1) + rest
  {
  }

  class Machine {
    const hhdm: nat        // where the direct map of physical memory begins
    var mem: Memory
    var freeList: Word     // pointer to the first free page, 0 when there is none
    ghost var free: seq<Frame>

    function Ptr(f: Frame): nat { f * PAGE_SIZE + hhdm }

    ghost function Link(s: seq<Frame>, i: nat): Word
      requires hhdm + VPN_LIMIT * PAGE_SIZE <= WORD_LIMIT
    {
      if i < |s| then Ptr(s[i]) else 0
    }

    ghost predicate Valid()
      reads this
    {
      && hhdm + VPN_LIMIT * PAGE_SIZE <= WORD_LIMIT
      && 0 !in mem
      && NoDuplicates(free)
      && (forall f :: f in free ==> f in mem)
      && freeList == Link(free, 0)
      && forall i {:trigger mem[free[i]]} :: 0 <= i < |free| ==> Encode(mem[free[i]][0]) == Link(free, i + 1)
    }

    /** A store to one word of a page that is not on the free chain. */
    method Store(f: Frame, i: nat, d: Descriptor)
      requires Valid() && f in mem && f !in free && i < ENTRIES
      modifies this
      ensures Valid() && free == old(free) && freeList == old(freeList)
      ensures mem == old(mem)[f := old(mem)[f][i := d]]
    {
      mem := mem[f := mem[f][i := d]];
    }

    /** New contents for a page that is not on the free chain. */
    method StorePage(f: Frame, page: Page)
      requires Valid() && f in mem && f !in free
      modifies this
      ensures Valid() && free == old(free) && mem == old(mem)[f := page]
    {
      mem := mem[f := page];
    }

    /** At boot every frame is held until the usable ranges are freed. */
    constructor (hhdm: nat, mem: Memory)
      requires hhdm + VPN_LIMIT * PAGE_SIZE <= WORD_LIMIT && 0 !in mem
      ensures Valid() && free == [] && this.mem == mem && this.hhdm == hhdm
    {
      this.hhdm := hhdm;
      this.mem := mem;
      freeList := 0;
      free := [];
    }

    method PmmAlloc() returns (r: Result<nat>)
      requires Valid()
      modifies this
      ensures Valid()
      ensures old(free) == [] ==> r == Err(ENOMEM) && mem == old(mem) && free == []
      ensures old(free) != [] ==>
                && r == Ok(old(free)[0] * PAGE_SIZE)
                && free == old(free)[1..]
                && mem == old(mem)[old(free)[0] := ZeroPage()]
    {
      if freeList == 0 {
        return Err(ENOMEM);
      }
      var f: Frame := (freeList - hhdm) / PAGE_SIZE;
      assert f == free[0];
      freeList := Encode(mem[f][0]);
      mem := mem[f := ZeroPage()];
      free := free[1..];
      return Ok(f * PAGE_SIZE);
    }

    /** The word with the given raw value. */
    static method FromRaw(w: Word) returns (d: Descriptor)
      ensures Encode(d) == w
    {
      EncodeDecode(w);
      d := Decode(w);
    }

    /** Copies the contents of one page to a page that is not on the free chain. */
    method CopyPage(to: Frame, from: Frame)
      requires Valid() && to in mem && to !in free && from in mem
      modifies this
      ensures Valid() && free == old(free) && mem == old(mem)[to := old(mem)[from]]
    {
      StorePage(to, mem[from]);
    }

    /** Freeing a page that is already free would tie the chain into a loop: callers must not. */
    method PmmFree(pa: nat)
      requires Valid()
      requires PageAligned(pa) && pa / PAGE_SIZE in mem && pa / PAGE_SIZE !in free
      modifies this
      ensures Valid()
      ensures free == [pa / PAGE_SIZE] + old(free)
      ensures mem == old(mem)[pa / PAGE_SIZE := mem[pa / PAGE_SIZE]]
    {
      var f: Frame := pa / PAGE_SIZE;
      var link := FromRaw(freeList);
      mem := mem[f := mem[f][0 := link]];
      freeList := Ptr(f);
      ghost var was := free;
      free := [f] + free;
      forall i | 0 <= i < |free| ensures Encode(mem[free[i]][0]) == Link(free, i + 1) {
        if i > 0 {
          assert Encode(mem[was[i - 1]][0]) == Link(was, i);
        }
      }
    }

    /** `PmmFree` with the frame number spelled out. */
    method PmmFreeFrame(pa: nat, ghost f: nat)
      requires Valid()
      requires pa == f * PAGE_SIZE && f in mem && f !in free
      modifies this
      ensures Valid()
      ensures free == [f] + old(free)
      ensures mem == old(mem)[f := mem[f]]
    {
      PmmFree(pa);
    }

    /** Frees the whole pages of a range, leaving a partial page at the end alone. */
    method PmmFreeRange(start: nat, end: nat)
      requires Valid() && PageAligned(start) && start <= end
      requires forall f :: start / PAGE_SIZE <= f < end / PAGE_SIZE ==> f in mem && f !in free
      modifies this
      ensures Valid()
      ensures free == Downward(start / PAGE_SIZE, end / PAGE_SIZE) + old(free)
      ensures mem.Keys == old(mem).Keys
      ensures forall f :: f in mem && !(start / PAGE_SIZE <= f < end / PAGE_SIZE) ==> mem[f] == old(mem)[f]
    {
      FreeWholePages(start, end, start / PAGE_SIZE, end / PAGE_SIZE);
    }

    /** The same, the range's first page and the one behind its last whole page spelled out. */
    method FreeWholePages(start: nat, end: nat, ghost first: nat, ghost last: nat)
      requires Valid() && start == first * PAGE_SIZE <= end
      requires last * PAGE_SIZE <= end < last * PAGE_SIZE + PAGE_SIZE
      requires forall f :: first <= f < last ==> f in mem && f !in free
      modifies this
      ensures Valid() && first <= last
      ensures free == Downward(first, last) + old(free) && mem.Keys == old(mem).Keys
      ensures forall f :: f in mem && !(first <= f < last) ==> mem[f] == old(mem)[f]
    {
      var p := start;
      ghost var f := first;
      while p + PAGE_SIZE <= end
        invariant p == f * PAGE_SIZE <= end && first <= f
        invariant Valid() && mem.Keys == old(mem).Keys
        invariant free == Downward(first, f) + old(free)
        invariant forall g :: g in mem && !(first <= g < f) ==> mem[g] == old(mem)[g]
      {
        assert f in mem && f !in free by { assert f !in Downward(first, f); }
        PmmFreeFrame(p, f);
        OneMoreFreed(first, f, old(free));
        p := p + PAGE_SIZE;
        f := f + 1;
      }
    }
  }
}
