/** The segments of an executable: which are accepted, and which byte belongs where, by the program header rules of
    the System V gABI. */
module Elf {
  import opened Descriptors
  import opened PageTree
  import opened PageBytes
  import opened AddressSpaces

  const USER_VM_RANGE_END := USER_VM_RANGE_BASE + USER_VM_RANGE_SIZE
  const PT_LOAD := 1
  const PF_X := 1
  const PF_W := 2

  datatype ProgramHeader = ProgramHeader(kind: nat, flags: nat, offset: Word, vaddr: Word, filesz: Word, memsz: Word)

  // ---- what is accepted ------------------------------------------------------------

  /** No subtraction of the source's checks can wrap, as each is guarded by the one before it. */
  predicate Accepted(ph: ProgramHeader, elfSize: Word) {
    && ph.filesz <= ph.memsz && ph.offset <= elfSize && ph.filesz <= elfSize - ph.offset
    && ph.vaddr <= USER_VM_RANGE_END && ph.memsz <= USER_VM_RANGE_END - ph.vaddr
  }

  /** The file part lies in the file and the memory part below the end of the user range; the range's lower end is not
      looked at. */
  lemma AcceptedIff(ph: ProgramHeader, elfSize: Word)
    ensures Accepted(ph, elfSize) <==>
            ph.filesz <= ph.memsz && ph.offset + ph.filesz <= elfSize && ph.vaddr + ph.memsz <= USER_VM_RANGE_END
  {
  }

  function RoundDown(x: nat): (r: nat)
    ensures r % PAGE_SIZE == 0 && r <= x < r + PAGE_SIZE
  {
    x / PAGE_SIZE * PAGE_SIZE
  }

  function RoundUp(x: nat): (r: nat)
    ensures r % PAGE_SIZE == 0 && x <= r < x + PAGE_SIZE
  {
    (x + PAGE_SIZE - 1) / PAGE_SIZE * PAGE_SIZE
  }

  function MapStart(ph: ProgramHeader): nat { RoundDown(ph.vaddr) }

  function MapEnd(ph: ProgramHeader): nat { RoundUp(ph.vaddr + ph.memsz) }

  /** Page `va` is one of those of the segment. */
  predicate InSegment(ph: ProgramHeader, va: nat) {
    MapStart(ph) <= va < MapEnd(ph) && va % PAGE_SIZE == 0
  }

  /** One of the pages that loading the segment maps. */
  predicate Segment(ph: ProgramHeader, va: nat) {
    ph.kind == PT_LOAD && ph.memsz > 0 && InSegment(ph, va)
  }

  // ---- the lower end ---------------------------------------------------------------

  predicate UserPage(va: nat) {
    USER_VM_RANGE_BASE <= va < USER_VM_RANGE_END && va % PAGE_SIZE == 0
  }

  predicate AboveBase(ph: ProgramHeader) {
    ph.memsz == 0 || ph.vaddr >= USER_VM_RANGE_BASE
  }

  /** The pages of an accepted segment are all in the user range, as reserving them asks for, exactly when the segment
      does not begin below it. */
  lemma PagesInRangeIff(ph: ProgramHeader, elfSize: Word)
    requires ph.kind == PT_LOAD && Accepted(ph, elfSize)
    ensures (forall va: nat :: Segment(ph, va) ==> UserPage(va)) <==> AboveBase(ph)
  {
    if ph.memsz > 0 {
      if ph.vaddr < USER_VM_RANGE_BASE {
        assert InSegment(ph, MapStart(ph));
        assert !UserPage(MapStart(ph));
      } else {
        assert MapEnd(ph) <= USER_VM_RANGE_END;
      }
    }
  }

  /** A segment of one page at address 0 passes every check. */
  lemma PageZeroIsAccepted()
    ensures var ph := ProgramHeader(PT_LOAD, PF_W, 0, 0, 0x1000, 0x1000);
            Accepted(ph, 0x1000) && Loadable(ph) && Segment(ph, 0) && !UserPage(0) && !AboveBase(ph)
  {
  }

  // ---- how much of a page is copied ------------------------------------------------

  function CopyStart(ph: ProgramHeader, va: nat): nat {
    if va < ph.vaddr then ph.vaddr - va else 0
  }

  /** In 64-bit arithmetic, as the source has it. */
  function CopyEnd(ph: ProgramHeader, va: nat): nat {
    if va + PAGE_SIZE > ph.vaddr + ph.filesz then (ph.vaddr + ph.filesz - va) % WORD_LIMIT else PAGE_SIZE
  }

  /** The copy stays in the page unless the page starts behind the last byte that comes from the file. */
  lemma CopyStaysInPage(ph: ProgramHeader, elfSize: Word, va: nat)
    requires Accepted(ph, elfSize) && InSegment(ph, va)
    ensures CopyEnd(ph, va) <= PAGE_SIZE <==> va <= ph.vaddr + ph.filesz
  {
    var d := ph.vaddr + ph.filesz - va;
    if d < 0 {
      assert d % WORD_LIMIT == d + WORD_LIMIT;
    } else {
      assert d % WORD_LIMIT == d;
    }
  }

  /** The segments that the loop handles: the last page starts no later than the file part ends. */
  predicate Loadable(ph: ProgramHeader) {
    ph.memsz == 0 || MapEnd(ph) - PAGE_SIZE <= ph.vaddr + ph.filesz
  }

  /** For an accepted segment, every copy stays in its page exactly when the segment is one of those. */
  lemma LoadableIff(ph: ProgramHeader, elfSize: Word)
    requires Accepted(ph, elfSize) && ph.memsz > 0
    ensures Loadable(ph) <==> forall va: nat :: InSegment(ph, va) ==> CopyEnd(ph, va) <= PAGE_SIZE
  {
    var last := MapEnd(ph) - PAGE_SIZE;
    LastPage(ph);
    CopyStaysInPage(ph, elfSize, last);
    forall va: nat | InSegment(ph, va)
      ensures va <= last && (CopyEnd(ph, va) <= PAGE_SIZE <==> va <= ph.vaddr + ph.filesz)
    {
      CopyStaysInPage(ph, elfSize, va);
      Multiples(va, MapEnd(ph));
    }
  }

  lemma Multiples(a: nat, b: nat)
    requires a % PAGE_SIZE == 0 && b % PAGE_SIZE == 0 && a < b
    ensures a + PAGE_SIZE <= b
  {
  }

  lemma LastPage(ph: ProgramHeader)
    requires ph.memsz > 0
    ensures MapEnd(ph) >= PAGE_SIZE && InSegment(ph, MapEnd(ph) - PAGE_SIZE)
  {
    Multiples(MapStart(ph), MapEnd(ph));
  }

  /** One page of file, more than two pages of memory: the third page's copy would be of almost 2^64 bytes. */
  lemma LongZeroPartIsNotLoadable()
    ensures var ph := ProgramHeader(PT_LOAD, PF_W, 0, 0x10000, 0x1000, 0x2001);
            Accepted(ph, 0x1000) && InSegment(ph, 0x12000) && CopyEnd(ph, 0x12000) == 0xFFFF_FFFF_FFFF_F000
                && !Loadable(ph)
  {
    assert (0x11000 - 0x12000) % WORD_LIMIT == WORD_LIMIT - 0x1000;
  }

  /** The segments whose loading the source handles. */
  predicate Fits(ph: ProgramHeader) { Loadable(ph) && AboveBase(ph) }

  // ---- the image -------------------------------------------------------------------

  /** What a program sees at a page: its bytes, and the descriptor without the frame's address. */
  datatype Mapped = Mapped(bytes: seq<Byte>, entry: Descriptor)

  type Image = imap<nat, Mapped>

  /** The byte at address `x` of a loaded segment: from the file, or zero. */
  function ImageByte(elf: seq<Byte>, ph: ProgramHeader, x: nat): Byte {
    if ph.vaddr <= x < ph.vaddr + ph.filesz && ph.offset + (x - ph.vaddr) < |elf| then elf[ph.offset + (x - ph.vaddr)]
    else 0
  }

  function PermsOf(ph: ProgramHeader): PagePerms {
    if ph.flags / PF_W % 2 == 1 then EL1_READ_WRITE_EL0_READ_WRITE else EL1_READ_ONLY_EL0_READ_ONLY
  }

  function ExecPermsOf(ph: ProgramHeader): ExecPerms {
    if ph.flags / PF_X % 2 == 1 then EXECUTABLE else NOT_EXECUTABLE
  }

  predicate PageShows(page: seq<Byte>, elf: seq<Byte>, ph: ProgramHeader, va: nat) {
    |page| == PAGE_SIZE && forall j :: 0 <= j < PAGE_SIZE ==> page[j] == ImageByte(elf, ph, va + j)
  }

  lemma NothingCopied(elf: seq<Byte>, ph: ProgramHeader, va: nat)
    requires |elf| < WORD_LIMIT && Accepted(ph, |elf|) && InSegment(ph, va) && va <= ph.vaddr + ph.filesz
    requires CopyEnd(ph, va) <= CopyStart(ph, va)
    ensures PageShows(ZeroBytes(), elf, ph, va)
  {
    CopyStaysInPage(ph, |elf|, va);
  }

  lemma PartCopied(elf: seq<Byte>, ph: ProgramHeader, va: nat, page: seq<Byte>)
    requires |elf| < WORD_LIMIT && Accepted(ph, |elf|) && InSegment(ph, va) && va <= ph.vaddr + ph.filesz
    requires CopyStart(ph, va) < CopyEnd(ph, va) <= PAGE_SIZE
    requires var start := CopyStart(ph, va); var size := CopyEnd(ph, va) - start;
             var from := ph.offset + (va + start - ph.vaddr);
             0 <= from && from + size <= |elf| && page == Patched(ZeroBytes(), start, elf[from..from + size])
    ensures PageShows(page, elf, ph, va)
  {
    var start, end := CopyStart(ph, va), CopyEnd(ph, va);
    var from := ph.offset + (va + start - ph.vaddr);
    CopyStaysInPage(ph, |elf|, va);
    forall j | 0 <= j < PAGE_SIZE ensures page[j] == ImageByte(elf, ph, va + j) {
      assert start <= j < end ==> page[j] == elf[from + (j - start)];
    }
  }

  /** A page that was not there before, shows the segment and has its permissions. */
  ghost predicate SegmentPage(was: Image, now: Image, elf: seq<Byte>, ph: ProgramHeader, va: nat) {
    && va !in was && va in now && PageShows(now[va].bytes, elf, ph, va)
    && now[va].entry == PageEntry(0, UserAttributes(PermsOf(ph), ExecPermsOf(ph)))
  }

  ghost predicate Kept(was: Image, now: Image) {
    forall va :: va in was ==> va in now && now[va] == was[va]
  }

  /** The pages of the segment below `end` have been added, and show it; nothing else has changed. */
  ghost predicate AddedTo(was: Image, now: Image, elf: seq<Byte>, ph: ProgramHeader, end: nat) {
    && Kept(was, now) && (forall va: nat :: va in now <==> va in was || (InSegment(ph, va) && va < end))
    && forall va: nat :: InSegment(ph, va) && va < end ==> SegmentPage(was, now, elf, ph, va)
  }

  ghost predicate Added(was: Image, now: Image, elf: seq<Byte>, ph: ProgramHeader) {
    && Kept(was, now) && (forall va: nat :: va in now <==> va in was || Segment(ph, va))
    && forall va: nat :: Segment(ph, va) ==> SegmentPage(was, now, elf, ph, va)
  }

  lemma NextPage(va: nat, ph: ProgramHeader)
    requires InSegment(ph, va)
    ensures (va + PAGE_SIZE) % PAGE_SIZE == 0
    ensures forall q: nat :: InSegment(ph, q) && q < va + PAGE_SIZE ==> q <= va
  {
    forall q: nat | InSegment(ph, q) && q < va + PAGE_SIZE ensures q <= va {
      if va < q { Multiples(va, q); }
    }
  }

  /** One more page of the segment. */
  lemma OnePageAdded(was: Image, mid: Image, now: Image, elf: seq<Byte>, ph: ProgramHeader, va: nat)
    requires AddedTo(was, mid, elf, ph, va) && InSegment(ph, va) && SegmentPage(mid, now, elf, ph, va)
             && now == mid[va := now[va]]
    ensures AddedTo(was, now, elf, ph, va + PAGE_SIZE)
  {
    NextPage(va, ph);
    forall q: nat | InSegment(ph, q) && q < va + PAGE_SIZE ensures SegmentPage(was, now, elf, ph, q) {
      if q < va { assert SegmentPage(was, mid, elf, ph, q); }
    }
  }

  lemma AllAdded(was: Image, now: Image, elf: seq<Byte>, ph: ProgramHeader)
    requires AddedTo(was, now, elf, ph, MapEnd(ph)) && ph.kind == PT_LOAD && ph.memsz > 0
    ensures Added(was, now, elf, ph)
  {
    assert forall va: nat :: Segment(ph, va) <==> InSegment(ph, va);
  }

  // ---- all segments ----------------------------------------------------------------

  ghost predicate Wanted(headers: seq<ProgramHeader>, n: nat, va: nat) {
    exists i :: 0 <= i < n && i < |headers| && Segment(headers[i], va)
  }

  /** The page is the `i`-th segment's and no earlier one's, and shows it. */
  ghost predicate LoadedPage(was: Image, now: Image, elf: seq<Byte>, headers: seq<ProgramHeader>, i: nat, va: nat)
    requires i < |headers|
  {
    SegmentPage(was, now, elf, headers[i], va) && !Wanted(headers, i, va)
  }

  /** The first `n` headers are accepted and their pages, and no others, have been added. */
  ghost predicate Loaded(was: Image, now: Image, elf: seq<Byte>, headers: seq<ProgramHeader>, n: nat) {
    && n <= |headers| && Kept(was, now) && (forall va: nat :: va in now <==> va in was || Wanted(headers, n, va))
    && (forall i :: 0 <= i < n ==> !Rejected(headers[i], |elf|))
    && forall i, va: nat :: 0 <= i < n && Segment(headers[i], va) ==> LoadedPage(was, now, elf, headers, i, va)
  }

  predicate Rejected(ph: ProgramHeader, elfSize: nat) {
    ph.kind == PT_LOAD && elfSize < WORD_LIMIT && !Accepted(ph, elfSize)
  }

  /** A page of the `i`-th segment is taken already, from before or by an earlier segment. */
  ghost predicate Clash(was: Image, headers: seq<ProgramHeader>, i: nat)
    requires i < |headers|
  {
    exists va: nat :: Segment(headers[i], va) && (va in was || Wanted(headers, i, va))
  }

  lemma WantedNext(headers: seq<ProgramHeader>, n: nat, va: nat)
    requires n < |headers|
    ensures Wanted(headers, n + 1, va) <==> Wanted(headers, n, va) || Segment(headers[n], va)
  {
    if Wanted(headers, n, va) {
      var i :| 0 <= i < n && i < |headers| && Segment(headers[i], va);
      assert i < n + 1;
    }
  }

  lemma OneMoreLoaded(was: Image, mid: Image, now: Image, elf: seq<Byte>, headers: seq<ProgramHeader>, n: nat)
    requires n < |headers| && Loaded(was, mid, elf, headers, n) && Added(mid, now, elf, headers[n])
    requires !Rejected(headers[n], |elf|)
    ensures Loaded(was, now, elf, headers, n + 1)
  {
    forall va: nat ensures va in now <==> va in was || Wanted(headers, n + 1, va) { WantedNext(headers, n, va); }
    forall i, va: nat | 0 <= i < n + 1 && Segment(headers[i], va) ensures LoadedPage(was, now, elf, headers, i, va) {
      if i < n {
        assert LoadedPage(was, mid, elf, headers, i, va);
      } else {
        assert i == n;
        assert SegmentPage(mid, now, elf, headers[n], va);
      }
    }
  }

  lemma Skipped(was: Image, now: Image, elf: seq<Byte>, headers: seq<ProgramHeader>, n: nat)
    requires n < |headers| && Loaded(was, now, elf, headers, n) && (headers[n].kind != PT_LOAD || headers[n].memsz == 0)
    requires !Rejected(headers[n], |elf|)
    ensures Loaded(was, now, elf, headers, n + 1)
  {
    forall va: nat ensures va in now <==> va in was || Wanted(headers, n + 1, va) { WantedNext(headers, n, va); }
    forall i, va: nat | 0 <= i < n + 1 && Segment(headers[i], va) ensures LoadedPage(was, now, elf, headers, i, va) {
      assert i < n;
    }
  }

  /** A page that the next segment finds taken is a clash. */
  lemma TakenIsClash(was: Image, mid: Image, elf: seq<Byte>, headers: seq<ProgramHeader>, n: nat, va: nat)
    requires n < |headers| && Loaded(was, mid, elf, headers, n) && Segment(headers[n], va) && va in mid
    ensures Clash(was, headers, n)
  {
  }

  /** After a successful load every byte of every loaded segment is the file's, or zero where the file part has
      ended. */
  lemma EveryByteIsInItsPage(was: Image, now: Image, elf: seq<Byte>, headers: seq<ProgramHeader>, i: nat, x: nat)
    requires Loaded(was, now, elf, headers, |headers|) && i < |headers| && headers[i].kind == PT_LOAD
    requires headers[i].vaddr <= x < headers[i].vaddr + headers[i].memsz
    ensures var va := RoundDown(x);
            && Segment(headers[i], va) && va in now && |now[va].bytes| == PAGE_SIZE
            && now[va].bytes[x - va] == ImageByte(elf, headers[i], x)
            && now[va].entry == PageEntry(0, UserAttributes(PermsOf(headers[i]), ExecPermsOf(headers[i])))
  {
    InItsPage(headers[i], x);
    assert Segment(headers[i], RoundDown(x));
    assert LoadedPage(was, now, elf, headers, i, RoundDown(x));
  }

  lemma InItsPage(ph: ProgramHeader, x: nat)
    requires ph.vaddr <= x < ph.vaddr + ph.memsz
    ensures InSegment(ph, RoundDown(x))
  {
  }

  /** In an accepted segment the bytes of the file part are the file's, in order; all behind them are zero. */
  lemma ImageByteIs(elf: seq<Byte>, ph: ProgramHeader, k: nat)
    requires |elf| < WORD_LIMIT && Accepted(ph, |elf|)
    ensures k < ph.filesz ==> ph.offset + k < |elf| && ImageByte(elf, ph, ph.vaddr + k) == elf[ph.offset + k]
    ensures k >= ph.filesz ==> ImageByte(elf, ph, ph.vaddr + k) == 0
  {
  }

  /** The pages that a segment is given are those that it overlaps. */
  lemma SegmentPagesAre(ph: ProgramHeader, va: nat)
    requires ph.kind == PT_LOAD && va % PAGE_SIZE == 0
    ensures Segment(ph, va) <==> ph.memsz > 0 && va < ph.vaddr + ph.memsz && ph.vaddr < va + PAGE_SIZE
  {
    if ph.memsz > 0 && va < MapEnd(ph) { Multiples(va, MapEnd(ph)); }
    if ph.memsz > 0 && va < MapStart(ph) { Multiples(va, MapStart(ph)); }
  }
}
