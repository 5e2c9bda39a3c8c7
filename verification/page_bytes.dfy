/** The contents of a page as bytes: eight to a word, the lowest first. */
module PageBytes {
  import opened Descriptors
  import opened Frames

  type Byte = x: nat | x < 0x100

  // ---- one word -------------------------------------------------------------------

  function Power(n: nat): nat { if n == 0 then 1 else 0x100 * Power(n - 1) }

  /** Byte `j` of a number. */
  function ByteOf(w: nat, j: nat): Byte { if j == 0 then w % 0x100 else ByteOf(w / 0x100, j - 1) }

  /** The number with the given bytes. */
  function NumberOf(bytes: seq<Byte>): nat { if bytes == [] then 0 else bytes[0] + 0x100 * NumberOf(bytes[1..]) }

  lemma {:induction false} NumberFits(bytes: seq<Byte>)
    ensures NumberOf(bytes) < Power(|bytes|)
  {
    if bytes != [] { NumberFits(bytes[1..]); }
  }

  lemma EightBytes(bytes: seq<Byte>)
    requires |bytes| == 8
    ensures NumberOf(bytes) < WORD_LIMIT
  {
    NumberFits(bytes);
    assert Power(2) == 0x1_0000;
    assert Power(4) == 0x1_0000_0000;
    assert Power(6) == 0x1_0000_0000_0000;
  }

  lemma {:induction false} ByteOfNumber(bytes: seq<Byte>, j: nat)
    requires j < |bytes|
    ensures ByteOf(NumberOf(bytes), j) == bytes[j]
  {
    var rest := NumberOf(bytes[1..]);
    DivUnique(NumberOf(bytes), 0x100, rest, bytes[0]);
    if j > 0 { ByteOfNumber(bytes[1..], j - 1); }
  }

  // ---- one page -------------------------------------------------------------------

  function BytesOf(page: Page): (bytes: seq<Byte>)
    ensures |bytes| == PAGE_SIZE
  {
    seq(PAGE_SIZE, k requires 0 <= k < PAGE_SIZE => ByteOf(Encode(page[k / 8]), k % 8))
  }

  function WordAt(bytes: seq<Byte>, i: nat): Word
    requires |bytes| == PAGE_SIZE && i < ENTRIES
  {
    EightBytes(bytes[8 * i..8 * i + 8]);
    NumberOf(bytes[8 * i..8 * i + 8])
  }

  function PageOf(bytes: seq<Byte>): Page
    requires |bytes| == PAGE_SIZE
  {
    seq(ENTRIES, i requires 0 <= i < ENTRIES => Decode(WordAt(bytes, i)))
  }

  lemma ByteComesBack(bytes: seq<Byte>, i: nat, j: nat)
    requires |bytes| == PAGE_SIZE && i < ENTRIES && j < 8
    ensures ByteOf(Encode(PageOf(bytes)[i]), j) == bytes[8 * i + j]
  {
    EncodeDecode(WordAt(bytes, i));
    ByteOfNumber(bytes[8 * i..8 * i + 8], j);
  }

  /** A page holds whatever bytes are stored in it. */
  lemma BytesComeBack(bytes: seq<Byte>)
    requires |bytes| == PAGE_SIZE
    ensures BytesOf(PageOf(bytes)) == bytes
  {
    forall k | 0 <= k < PAGE_SIZE ensures BytesOf(PageOf(bytes))[k] == bytes[k] {
      ByteComesBack(bytes, k / 8, k % 8);
    }
  }

  /** The lowest byte of a word comes first. */
  lemma LowestByteFirst(page: Page, i: nat, j: nat)
    requires i < ENTRIES && j < 8
    ensures var w := Encode(page[i]);
            BytesOf(page)[8 * i + j] ==
            if j == 0 then w % 0x100 else if j == 1 then w / 0x100 % 0x100 else if j == 2 then w / 0x1_0000 % 0x100
            else if j == 3 then w / 0x100_0000 % 0x100 else if j == 4 then w / 0x1_0000_0000 % 0x100
            else if j == 5 then w / 0x100_0000_0000 % 0x100 else if j == 6 then w / 0x1_0000_0000_0000 % 0x100
            else w / 0x100_0000_0000_0000 % 0x100
  {
    assert (8 * i + j) / 8 == i && (8 * i + j) % 8 == j;
    WordBytes(Encode(page[i]));
  }

  lemma WordBytes(w: nat)
    ensures ByteOf(w, 0) == w % 0x100 && ByteOf(w, 1) == w / 0x100 % 0x100
    ensures ByteOf(w, 2) == w / 0x1_0000 % 0x100 && ByteOf(w, 3) == w / 0x100_0000 % 0x100
    ensures ByteOf(w, 4) == w / 0x1_0000_0000 % 0x100 && ByteOf(w, 5) == w / 0x100_0000_0000 % 0x100
    ensures ByteOf(w, 6) == w / 0x1_0000_0000_0000 % 0x100 && ByteOf(w, 7) == w / 0x100_0000_0000_0000 % 0x100
  {
    FourBytes(w);
    FourBytes(w / 0x1_0000_0000);
    FourthOn(w);
  }

  lemma FourBytes(w: nat)
    ensures ByteOf(w, 0) == w % 0x100 && ByteOf(w, 1) == w / 0x100 % 0x100
    ensures ByteOf(w, 2) == w / 0x1_0000 % 0x100 && ByteOf(w, 3) == w / 0x100_0000 % 0x100
  {
    DivDiv(w, 0x100, 0x100);
    DivDiv(w, 0x1_0000, 0x100);
    assert ByteOf(w, 2) == ByteOf(w / 0x100, 1);
    assert ByteOf(w, 3) == ByteOf(w / 0x100, 2) == ByteOf(w / 0x1_0000, 1);
  }

  /** The upper four bytes are the lower ones of what is behind them. */
  lemma FourthOn(w: nat)
    ensures forall j :: 0 <= j < 4 ==> ByteOf(w, 4 + j) == ByteOf(w / 0x1_0000_0000, j)
    ensures w / 0x1_0000_0000 / 0x100 == w / 0x100_0000_0000
    ensures w / 0x1_0000_0000 / 0x1_0000 == w / 0x1_0000_0000_0000
    ensures w / 0x1_0000_0000 / 0x100_0000 == w / 0x100_0000_0000_0000
  {
    DivDiv(w, 0x100, 0x100);
    DivDiv(w, 0x1_0000, 0x100);
    DivDiv(w, 0x100_0000, 0x100);
    DivDiv(w, 0x1_0000_0000, 0x100);
    DivDiv(w, 0x1_0000_0000, 0x1_0000);
    DivDiv(w, 0x1_0000_0000, 0x100_0000);
    forall j | 0 <= j < 4 ensures ByteOf(w, 4 + j) == ByteOf(w / 0x1_0000_0000, j) {
      assert ByteOf(w, 4 + j) == ByteOf(w / 0x100, 3 + j) == ByteOf(w / 0x1_0000, 2 + j);
      assert ByteOf(w / 0x1_0000, 2 + j) == ByteOf(w / 0x100_0000, 1 + j) == ByteOf(w / 0x1_0000_0000, j);
    }
  }

  function ZeroBytes(): (bytes: seq<Byte>)
    ensures |bytes| == PAGE_SIZE && forall k :: 0 <= k < PAGE_SIZE ==> bytes[k] == 0
  {
    seq(PAGE_SIZE, _ => 0)
  }

  lemma {:induction false} ZeroByteOf(j: nat)
    ensures ByteOf(0, j) == 0
  {
    if j > 0 { ZeroByteOf(j - 1); }
  }

  lemma ZeroPageBytes()
    ensures BytesOf(ZeroPage()) == ZeroBytes()
  {
    forall k | 0 <= k < PAGE_SIZE ensures BytesOf(ZeroPage())[k] == 0 {
      ZeroByteOf(k % 8);
    }
  }

  /** `bytes` with `part` copied over it from position `at` on. */
  function Patched(bytes: seq<Byte>, at: nat, part: seq<Byte>): (r: seq<Byte>)
    requires at + |part| <= |bytes|
    ensures |r| == |bytes|
    ensures forall k :: 0 <= k < |bytes| ==> r[k] == if at <= k < at + |part| then part[k - at] else bytes[k]
  {
    bytes[..at] + part + bytes[at + |part|..]
  }

  /** A copy into a page that is not on the free chain. */
  method CopyIn(m: Machine, f: Frame, at: nat, part: seq<Byte>)
    requires m.Valid() && f in m.mem && f !in m.free && at + |part| <= PAGE_SIZE
    modifies m
    ensures m.Valid() && m.free == old(m.free) && f in m.mem && m.mem == old(m.mem)[f := m.mem[f]]
    ensures BytesOf(m.mem[f]) == Patched(BytesOf(old(m.mem[f])), at, part)
  {
    var bytes := Patched(BytesOf(m.mem[f]), at, part);
    BytesComeBack(bytes);
    m.StorePage(f, PageOf(bytes));
  }
}
