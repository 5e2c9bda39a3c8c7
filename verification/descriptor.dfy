/** The 64-bit words that translation tables are made of.

    A table page holds 512 descriptors.  The source reads one word either as a table
    descriptor or as a page descriptor; bits 0, 1 and 12..47 mean the same in both views,
    so one datatype with every field serves for the two.
 */
module Descriptors {

  const PAGE_SIZE := 4096
  const ENTRIES := 512                        // descriptors per table page
  const VPN_LIMIT := 0x10_0000_0000           // 2^36 pages of a 48-bit address
  const WORD_LIMIT := 0x1_0000_0000_0000_0000

  type Word = w: nat | w < WORD_LIMIT

  type Frame = f: nat | f < VPN_LIMIT         // a physical page number fits the 36-bit address field

  type Bits2 = b: nat | b < 4

  type Bits3 = b: nat | b < 8

  type Bits5 = b: nat | b < 32

  type Bits9 = b: nat | b < 512

  datatype PagePerms = EL1_READ_WRITE_EL0_NONE | EL1_READ_WRITE_EL0_READ_WRITE
                     | EL1_READ_ONLY_EL0_NONE | EL1_READ_ONLY_EL0_READ_ONLY

  datatype ExecPerms = EXECUTABLE | NOT_EXECUTABLE

  /** One word, seen through its fields; `Encode` and `Decode` are the raw view.
      `table` is the is_table bit of a table descriptor and the is_page bit of a page descriptor. */
  datatype Descriptor = Descriptor(
    valid: bool, table: bool, attrIndex: Bits3, ns: bool, ap: PagePerms, sh: Bits2, af: bool, ng: bool,
    address: Frame, mid: Bits5, pxn: ExecPerms, uxn: ExecPerms, high: Bits9)

  const ZERO := Descriptor(false, false, 0, false, EL1_READ_WRITE_EL0_NONE, 0, false, false,
                           0, 0, EXECUTABLE, EXECUTABLE, 0)

  // ---- the bit layout -------------------------------------------------------------

  function Bit(b: bool): nat { if b then 1 else 0 }

  function ApBits(ap: PagePerms): nat {
    match ap
    case EL1_READ_WRITE_EL0_NONE => 0
    case EL1_READ_WRITE_EL0_READ_WRITE => 1
    case EL1_READ_ONLY_EL0_NONE => 2
    case EL1_READ_ONLY_EL0_READ_ONLY => 3
  }

  function ApOf(b: nat): PagePerms {
    if b == 0 then EL1_READ_WRITE_EL0_NONE else if b == 1 then EL1_READ_WRITE_EL0_READ_WRITE
    else if b == 2 then EL1_READ_ONLY_EL0_NONE else EL1_READ_ONLY_EL0_READ_ONLY
  }

  function ExecBit(e: ExecPerms): nat { if e.EXECUTABLE? then 0 else 1 }

  function ExecOf(b: nat): ExecPerms { if b == 0 then EXECUTABLE else NOT_EXECUTABLE }

  /** Bits 48 and up. */
  function HighBits(d: Descriptor): nat {
    d.mid + 32 * (ExecBit(d.pxn) + 2 * (ExecBit(d.uxn) + 2 * d.high))
  }

  /** Bits 6 and up. */
  function UpperBits(d: Descriptor): nat {
    ApBits(d.ap) + 4 * (d.sh + 4 * (Bit(d.af) + 2 * (Bit(d.ng) + 2 * (d.address + VPN_LIMIT * HighBits(d)))))
  }

  function Encode(d: Descriptor): Word {
    Bit(d.valid) + 2 * (Bit(d.table) + 2 * (d.attrIndex + 8 * (Bit(d.ns) + 2 * UpperBits(d))))
  }

  /** Each field cut out of the word at its own bit position. */
  function Decode(w: Word): Descriptor {
    Descriptor(
      w % 2 == 1,                              // bit 0
      w / 2 % 2 == 1,                          // bit 1
      w / 4 % 8,                               // bits 2..4
      w / 0x20 % 2 == 1,                       // bit 5
      ApOf(w / 0x40 % 4),                      // bits 6..7
      w / 0x100 % 4,                           // bits 8..9
      w / 0x400 % 2 == 1,                      // bit 10
      w / 0x800 % 2 == 1,                      // bit 11
      w / 0x1000 % VPN_LIMIT,                  // bits 12..47
      w / 0x1_0000_0000_0000 % 32,             // bits 48..52
      ExecOf(w / 0x20_0000_0000_0000 % 2),     // bit 53
      ExecOf(w / 0x40_0000_0000_0000 % 2),     // bit 54
      w / 0x80_0000_0000_0000)                 // bits 55..63
  }

  // ---- division -------------------------------------------------------------------

  lemma MulAtLeast(m: int, k: int)
    requires 0 < m && 1 <= k
    ensures m <= m * k
  {
  }

  lemma DivUnique(w: int, m: int, q: int, r: int)
    requires 0 <= r < m && w == m * q + r
    ensures w / m == q && w % m == r
  {
    var q', r' := w / m, w % m;
    assert m * (q - q') == r' - r;
    assert m * (q' - q) == r - r';
    if q' < q {
      MulAtLeast(m, q - q');
    } else if q < q' {
      MulAtLeast(m, q' - q);
    }
  }

  lemma DivDiv(w: nat, a: nat, b: nat)
    requires a > 0 && b > 0
    ensures a * b > 0
    ensures w / (a * b) == w / a / b
  {
    var q, r := w / a, w % a;
    var q', r' := q / b, q % b;
    MulAtLeast(a, b);
    var low := a * r' + r;
    assert low < a * b by {
      assert a * b - a * r' == a * (b - r');
      MulAtLeast(a, b - r');
    }
    assert w == (a * b) * q' + low by {
      assert a * q == a * (b * q') + a * r';
      assert a * (b * q') == (a * b) * q';
    }
    assert 0 <= a * r';
    DivUnique(w, a * b, q', low);
  }

  // ---- raw and field view agree ---------------------------------------------------

  lemma LowCuts(w: Word)
    ensures w / 4 == w / 2 / 2
    ensures w / 0x20 == w / 4 / 8
    ensures w / 0x40 == w / 0x20 / 2
    ensures w / 0x100 == w / 0x40 / 4
    ensures w / 0x400 == w / 0x100 / 4
    ensures w / 0x800 == w / 0x400 / 2
  {
    DivDiv(w, 2, 2);
    DivDiv(w, 4, 8);
    DivDiv(w, 0x20, 2);
    DivDiv(w, 0x40, 4);
    DivDiv(w, 0x100, 4);
    DivDiv(w, 0x400, 2);
  }

  lemma HighCuts(w: Word)
    ensures w / 0x1000 == w / 0x800 / 2
    ensures w / 0x1_0000_0000_0000 == w / 0x1000 / VPN_LIMIT
    ensures w / 0x20_0000_0000_0000 == w / 0x1_0000_0000_0000 / 32
    ensures w / 0x40_0000_0000_0000 == w / 0x20_0000_0000_0000 / 2
    ensures w / 0x80_0000_0000_0000 == w / 0x40_0000_0000_0000 / 2
  {
    DivDiv(w, 0x800, 2);
    DivDiv(w, 0x1000, VPN_LIMIT);
    DivDiv(w, 0x1_0000_0000_0000, 32);
    DivDiv(w, 0x20_0000_0000_0000, 2);
    DivDiv(w, 0x40_0000_0000_0000, 2);
  }

  lemma EncodeLow(d: Descriptor)
    ensures var w := Encode(d);
            && w % 2 == Bit(d.valid) && w / 2 % 2 == Bit(d.table) && w / 4 % 8 == d.attrIndex
            && w / 0x20 % 2 == Bit(d.ns) && w / 0x40 == UpperBits(d)
  {
    var w := Encode(d);
    LowCuts(w);
    var w5 := Bit(d.ns) + 2 * UpperBits(d);
    var w2 := d.attrIndex + 8 * w5;
    var w1 := Bit(d.table) + 2 * w2;
    DivUnique(w, 2, w1, Bit(d.valid));
    DivUnique(w1, 2, w2, Bit(d.table));
    DivUnique(w2, 8, w5, d.attrIndex);
    DivUnique(w5, 2, UpperBits(d), Bit(d.ns));
  }

  lemma EncodeMiddle(d: Descriptor)
    ensures var w := Encode(d);
            && w / 0x40 % 4 == ApBits(d.ap) && w / 0x100 % 4 == d.sh && w / 0x400 % 2 == Bit(d.af)
            && w / 0x800 % 2 == Bit(d.ng)
            && w / 0x1000 % VPN_LIMIT == d.address && w / 0x1_0000_0000_0000 == HighBits(d)
  {
    var w := Encode(d);
    EncodeLow(d);
    LowCuts(w);
    HighCuts(w);
    var w12 := d.address + VPN_LIMIT * HighBits(d);
    var w11 := Bit(d.ng) + 2 * w12;
    var w10 := Bit(d.af) + 2 * w11;
    var w8 := d.sh + 4 * w10;
    DivUnique(UpperBits(d), 4, w8, ApBits(d.ap));
    DivUnique(w8, 4, w10, d.sh);
    DivUnique(w10, 2, w11, Bit(d.af));
    DivUnique(w11, 2, w12, Bit(d.ng));
    DivUnique(w12, VPN_LIMIT, HighBits(d), d.address);
  }

  lemma EncodeHigh(d: Descriptor)
    ensures var w := Encode(d);
            && w / 0x1_0000_0000_0000 % 32 == d.mid && w / 0x20_0000_0000_0000 % 2 == ExecBit(d.pxn)
            && w / 0x40_0000_0000_0000 % 2 == ExecBit(d.uxn) && w / 0x80_0000_0000_0000 == d.high
  {
    var w := Encode(d);
    EncodeMiddle(d);
    HighCuts(w);
    var w54 := ExecBit(d.uxn) + 2 * d.high;
    var w53 := ExecBit(d.pxn) + 2 * w54;
    DivUnique(HighBits(d), 32, w53, d.mid);
    DivUnique(w53, 2, w54, ExecBit(d.pxn));
    DivUnique(w54, 2, d.high, ExecBit(d.uxn));
  }

  lemma DecodeEncode(d: Descriptor)
    ensures Decode(Encode(d)) == d
  {
    EncodeLow(d);
    EncodeMiddle(d);
    EncodeHigh(d);
    FieldsBack(d);
  }

  /** The values of the fields are told apart by their bits. */
  lemma FieldsBack(d: Descriptor)
    ensures ApOf(ApBits(d.ap)) == d.ap && ExecOf(ExecBit(d.pxn)) == d.pxn && ExecOf(ExecBit(d.uxn)) == d.uxn
    ensures forall b: bool :: (Bit(b) == 1) == b
  {
  }

  lemma DecodeHigh(w: Word)
    ensures HighBits(Decode(w)) == w / 0x1_0000_0000_0000
  {
    HighCuts(w);
  }

  lemma DecodeUpper(w: Word)
    ensures UpperBits(Decode(w)) == w / 0x40
  {
    DecodeHigh(w);
    var high := w / 0x1_0000_0000_0000;
    var w12 := w / 0x1000;
    assert w12 == w12 % VPN_LIMIT + VPN_LIMIT * high by { HighCuts(w); }
    var w11 := w / 0x800;
    assert w11 == w11 % 2 + 2 * w12 by { HighCuts(w); }
    var w10 := w / 0x400;
    assert w10 == w10 % 2 + 2 * w11 by { LowCuts(w); }
    var w8 := w / 0x100;
    assert w8 == w8 % 4 + 4 * w10 by { LowCuts(w); }
    var w6 := w / 0x40;
    assert w6 == w6 % 4 + 4 * w8 by { LowCuts(w); }
  }

  lemma EncodeDecode(w: Word)
    ensures Encode(Decode(w)) == w
  {
    DecodeUpper(w);
    LowCuts(w);
  }
}
