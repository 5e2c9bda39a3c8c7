/** The flattened device tree: header, words, and the tokens of the structure block
    (sections 5.2 and 5.4 of the Devicetree Specification, v0.4). */
module FdtFormat {
  import opened Collections

  type Byte = b: nat | b < 256

  type U32 = n: nat | n < 0x1_0000_0000

  const INT_MAX := 0x7fff_ffff

  const FDT_MAGIC: U32 := 0xd00d_feed
  const FDT_SW_MAGIC: U32 := 0x2ff2_0112      // the complement: a blob still being written

  const FDT_BEGIN_NODE := 1
  const FDT_END_NODE := 2
  const FDT_PROP := 3
  const FDT_NOP := 4
  const FDT_END := 9

  const FDT_ERR_NOTFOUND := 1
  const FDT_ERR_NOSPACE := 3
  const FDT_ERR_BADOFFSET := 4
  const FDT_ERR_BADPATH := 5
  const FDT_ERR_BADSTATE := 7
  const FDT_ERR_TRUNCATED := 8
  const FDT_ERR_BADMAGIC := 9
  const FDT_ERR_BADVERSION := 10
  const FDT_ERR_BADSTRUCTURE := 11
  const FDT_ERR_BADFLAGS := 18

  const FDT_FIRST_SUPPORTED_VERSION := 2
  const FDT_LAST_COMPATIBLE_VERSION := 16
  const FDT_LAST_SUPPORTED_VERSION := 17

  const FDT_V1_SIZE := 28
  const HEADER_SIZE := 40                     // of version 17
  const RESERVE_ENTRY_SIZE := 16
  const RESERVE_MAP_START := 48               // the header, rounded up to a reserve entry

  // ---- words ----------------------------------------------------------------------

  /** The number that big-endian bytes stand for. */
  function Word(s: seq<Byte>): (v: nat)
    ensures |s| <= 1 ==> v < 0x100
    ensures |s| <= 2 ==> v < 0x1_0000
    ensures |s| <= 3 ==> v < 0x100_0000
    ensures |s| <= 4 ==> v < 0x1_0000_0000
  {
    if s == [] then 0 else Word(s[..|s| - 1]) * 0x100 + s[|s| - 1]
  }

  function Get32(b: seq<Byte>, i: nat): U32
    requires i + 4 <= |b|
  {
    Word(b[i..i + 4])
  }

  /** Four bytes as a number, the highest first. */
  function BigEndian(a: nat, b: nat, c: nat, d: nat): nat {
    a * 0x100_0000 + b * 0x1_0000 + c * 0x100 + d
  }

  lemma WordIsBigEndian(b: seq<Byte>, i: nat)
    requires i + 4 <= |b|
    ensures Get32(b, i) == BigEndian(b[i], b[i + 1], b[i + 2], b[i + 3])
  {
    var s := b[i..i + 4];
    assert s[..3][..2] == s[..2] && s[..2][..1] == s[..1] && s[..1][..0] == [];
    var first: nat, second: nat, third: nat := s[0], s[1], s[2];
    assert Word(s[..1]) == first;
    assert Word(s[..2]) == first * 0x100 + second;
    assert Word(s[..3]) == (first * 0x100 + second) * 0x100 + third;
  }

  function Bytes32(v: U32): seq<Byte> {
    [v / 0x100_0000, v / 0x1_0000 % 0x100, v / 0x100 % 0x100, v % 0x100]
  }

  lemma WordOfBytes(v: U32)
    ensures Word(Bytes32(v)) == v
  {
    var s := Bytes32(v);
    assert s[..3][..2] == s[..2] && s[..2][..1] == s[..1] && s[..1][..0] == [];
    var a, b, c := v / 0x100, v / 0x1_0000, v / 0x100_0000;
    assert b == a / 0x100 && c == b / 0x100;
    assert Word(s[..1]) == c;
    assert Word(s[..2]) == b;
    assert Word(s[..3]) == a;
  }

  method Put32(a: array<Byte>, i: nat, v: U32)
    requires i + 4 <= a.Length
    modifies a
    ensures Get32(a[..], i) == v
    ensures forall k :: 0 <= k < a.Length && !(i <= k < i + 4) ==> a[k] == old(a[k])
  {
    WordOfBytes(v);
    CopyIn(a, i, Bytes32(v));
    assert a[..][i..i + 4] == a[i..i + 4];
  }

  type U64 = n: nat | n < 0x1_0000_0000_0000_0000

  function Get64(b: seq<Byte>, i: nat): U64
    requires i + 8 <= |b|
  {
    Get32(b, i) * 0x1_0000_0000 + Get32(b, i + 4)
  }

  method Put64(a: array<Byte>, i: nat, v: U64)
    requires i + 8 <= a.Length
    modifies a
    ensures Get64(a[..], i) == v
    ensures forall k :: 0 <= k < a.Length && !(i <= k < i + 8) ==> a[k] == old(a[k])
  {
    Put32(a, i, v / 0x1_0000_0000);
    ghost var high := a[..][i..i + 4];
    Put32(a, i + 4, v % 0x1_0000_0000);
    assert a[..][i..i + 4] == high;
  }

  /** What `memcpy` does. */
  method CopyIn(a: array<Byte>, at: nat, s: seq<Byte>)
    requires at + |s| <= a.Length
    modifies a
    ensures a[at..at + |s|] == s
    ensures forall k :: 0 <= k < a.Length && !(at <= k < at + |s|) ==> a[k] == old(a[k])
  {
    forall k | 0 <= k < |s| {
      a[at + k] := s[k];
    }
  }

  /** What `memmove` does, within one buffer. */
  method Move(a: array<Byte>, to: nat, from: nat, n: nat)
    requires to + n <= a.Length && from + n <= a.Length
    modifies a
    ensures a[to..to + n] == old(a[from..from + n])
    ensures forall k :: 0 <= k < a.Length && !(to <= k < to + n) ==> a[k] == old(a[k])
  {
    forall k | 0 <= k < n {
      a[to + k] := a[from + k];
    }
  }

  /** The next multiple of 4. */
  function TagAlign(x: nat): (r: nat)
    ensures x <= r < x + 4
  {
    if x == 0 then 0 else if x <= 4 then 4 else 4 + TagAlign(x - 4)
  }

  /** Rounding up by masking the low bits off gives the same. */
  lemma {:induction false} TagAlignIsMask(x: nat)
    ensures TagAlign(x) == (x + 3) / 4 * 4 && TagAlign(x) % 4 == 0
  {
    if x > 4 { TagAlignIsMask(x - 4); }
  }

  /** Padding behind an aligned start. */
  lemma {:induction false} TagAlignAfter(words: nat, n: nat)
    ensures TagAlign(4 * words + n) == 4 * words + TagAlign(n)
  {
    if words > 0 { TagAlignAfter(words - 1, n); }
  }

  // ---- the memory reservation block (section 5.3) ---------------------------------

  datatype Reserve = Reserve(address: U64, size: U64)

  ghost predicate ReserveAt(b: seq<Byte>, i: nat, e: Reserve) {
    i + 16 <= |b| && Get64(b, i) == e.address && Get64(b, i + 8) == e.size
  }

  method PutReserve(a: array<Byte>, i: nat, e: Reserve)
    requires i + 16 <= a.Length
    modifies a
    ensures ReserveAt(a[..], i, e)
    ensures forall k :: 0 <= k < a.Length && !(i <= k < i + 16) ==> a[k] == old(a[k])
  {
    Put64(a, i, e.address);
    ghost var was := a[..];
    Put64(a, i + 8, e.size);
    assert a[..][i..i + 4] == was[i..i + 4] && a[..][i + 4..i + 8] == was[i + 4..i + 8];
  }

  lemma ReserveFrame(b: seq<Byte>, b': seq<Byte>, i: nat, e: Reserve)
    requires ReserveAt(b, i, e) && i + 16 <= |b'| && forall k :: i <= k < i + 16 ==> b'[k] == b[k]
    ensures ReserveAt(b', i, e)
  {
    assert b'[i..i + 4] == b[i..i + 4] && b'[i + 4..i + 8] == b[i + 4..i + 8];
    assert b'[i + 8..i + 12] == b[i + 8..i + 12] && b'[i + 12..i + 16] == b[i + 12..i + 16];
  }

  // ---- header and blob ------------------------------------------------------------

  datatype Header = Header(magic: U32, totalsize: U32, offStruct: U32, offStrings: U32, offRsvmap: U32,
                           version: U32, lastComp: U32, sizeStrings: U32, sizeStruct: U32)

  /** A blob: its header fields and its bytes, at an 8-byte aligned address. */
  datatype Blob = Blob(h: Header, b: seq<Byte>)

  /** What every reader relies on: the size in the header is an int, and the buffer is that big. */
  predicate Readable(d: Blob) {
    d.h.totalsize <= |d.b| && d.h.totalsize <= INT_MAX && d.h.version >= 16
  }

  /** `len` bytes at `off` of the structure block lie inside the blob and, where the header gives its
      size, inside the block. */
  predicate InStruct(h: Header, off: nat, len: nat) {
    && h.offStruct + off + len <= h.totalsize
    && (h.version >= 17 ==> off + len <= h.sizeStruct)
  }

  /** The bounds check of `fdt_offset_ptr`, in its own 32-bit arithmetic. */
  predicate OffsetPtr(h: Header, offset: int, len: U32) {
    && offset >= 0
    && var uoffset := offset % 0x1_0000_0000;
       var absoffset := (offset + h.offStruct) % 0x1_0000_0000;
       && absoffset >= uoffset
       && (absoffset + len) % 0x1_0000_0000 >= absoffset
       && (absoffset + len) % 0x1_0000_0000 <= h.totalsize
       && (h.version >= 17 ==>
             (uoffset + len) % 0x1_0000_0000 >= uoffset && (uoffset + len) % 0x1_0000_0000 <= h.sizeStruct)
  }

  /** It is exactly the check that unbounded arithmetic would make. */
  lemma OffsetPtrIsBounds(h: Header, offset: int, len: U32)
    requires offset <= INT_MAX
    ensures OffsetPtr(h, offset, len) <==> offset >= 0 && InStruct(h, offset, len)
  {
    if offset >= 0 {
      var sum := offset + h.offStruct;
      if sum >= 0x1_0000_0000 { assert sum % 0x1_0000_0000 == sum - 0x1_0000_0000; }
      var abs := sum % 0x1_0000_0000;
      if abs + len >= 0x1_0000_0000 { assert (abs + len) % 0x1_0000_0000 == abs + len - 0x1_0000_0000; }
      if offset + len >= 0x1_0000_0000 { assert (offset + len) % 0x1_0000_0000 == offset + len - 0x1_0000_0000; }
    }
  }

  // ---- tokens ---------------------------------------------------------------------

  datatype Token = BeginNode(name: seq<Byte>) | EndNode | Prop(nameoff: U32, value: seq<Byte>) | Nop | End

  function Tag(t: Token): U32 {
    match t
    case BeginNode(_) => FDT_BEGIN_NODE
    case EndNode => FDT_END_NODE
    case Prop(_, _) => FDT_PROP
    case Nop => FDT_NOP
    case End => FDT_END
  }

  /** The bytes of a token without the padding behind it. */
  function RawSize(t: Token): nat {
    match t
    case BeginNode(name) => 4 + |name| + 1
    case Prop(_, value) => 12 + |value|
    case _ => 4
  }

  function Size(t: Token): (n: nat)
    ensures RawSize(t) <= n < RawSize(t) + 4
  {
    TagAlign(RawSize(t))
  }

  /** A C string has no zero byte inside. */
  predicate CString(s: seq<Byte>) { forall i :: 0 <= i < |s| ==> s[i] != 0 }

  /** The string at `p`, with its terminator before `limit`. */
  predicate StringAt(b: seq<Byte>, p: nat, limit: nat, s: seq<Byte>) {
    && p + |s| < limit <= |b|
    && CString(s) && b[p..p + |s|] == s && b[p + |s|] == 0
  }

  /** The bytes that spell token `t`, without padding. */
  predicate IsToken(s: seq<Byte>, t: Token) {
    && |s| == RawSize(t) && Get32(s, 0) == Tag(t)
    && match t
       case BeginNode(name) => StringAt(s, 4, |s|, name)
       case Prop(nameoff, value) => Get32(s, 4) == |value| && Get32(s, 8) == nameoff && s[12..] == value
       case _ => true
  }

  /** They stand at `p`. */
  predicate TokenBytes(b: seq<Byte>, p: nat, t: Token) {
    p + RawSize(t) <= |b| && IsToken(b[p..p + RawSize(t)], t)
  }

  /** The fields of a token, where they lie. */
  predicate Fields(b: seq<Byte>, p: nat, t: Token)
    requires p + RawSize(t) <= |b|
  {
    && Get32(b, p) == Tag(t)
    && match t
       case BeginNode(name) => StringAt(b, p + 4, p + RawSize(t), name)
       case Prop(nameoff, value) =>
         Get32(b, p + 4) == |value| && Get32(b, p + 8) == nameoff && b[p + 12..p + 12 + |value|] == value
       case _ => true
  }

  /** A piece of a slice, and single elements of it, seen in the whole. */
  lemma SliceOfSlice<T>(s: seq<T>, p: nat, q: nat, i: nat, j: nat)
    requires p <= q <= |s| && i <= j <= q - p
    ensures s[p..q][i..j] == s[p + i..p + j] && |s[p..q]| == q - p
    ensures j < q - p ==> s[p..q][j] == s[p + j]
  {
    var a, b := s[p..q][i..j], s[p + i..p + j];
    forall k | 0 <= k < |a| ensures a[k] == b[k] {
      assert a[k] == s[p..q][i + k] == s[p + i + k];
    }
  }

  lemma NodeFields(b: seq<Byte>, p: nat, end: nat, name: seq<Byte>)
    requires p + 4 + |name| + 1 == end <= |b|
    ensures StringAt(b[p..end], 4, end - p, name) <==> StringAt(b, p + 4, end, name)
  {
    SliceOfSlice(b, p, end, 4, 4 + |name|);
  }

  lemma PropFields(b: seq<Byte>, p: nat, end: nat, value: seq<Byte>)
    requires p + 12 + |value| == end <= |b|
    ensures Get32(b[p..end], 4) == Get32(b, p + 4) && Get32(b[p..end], 8) == Get32(b, p + 8)
    ensures b[p..end][12..] == b[p + 12..p + 12 + |value|]
  {
    SliceOfSlice(b, p, end, 4, 8);
    SliceOfSlice(b, p, end, 8, 12);
    SliceOfSlice(b, p, end, 12, 12 + |value|);
  }

  lemma TokenFields(b: seq<Byte>, p: nat, t: Token)
    requires p + RawSize(t) <= |b|
    ensures TokenBytes(b, p, t) <==> Fields(b, p, t)
  {
    var end := p + RawSize(t);
    SliceOfSlice(b, p, end, 0, 4);
    assert Get32(b[p..end], 0) == Get32(b, p);
    match t
    case BeginNode(name) => NodeFields(b, p, end, name);
    case Prop(nameoff, value) => PropFields(b, p, end, value);
    case _ =>
  }

  /** A token byte by byte: its number in the tables of section 5.4.1, and what follows it. */
  lemma TokenSpelled(b: seq<Byte>, p: nat, t: Token)
    requires TokenBytes(b, p, t)
    ensures p + 4 <= |b| && b[p] == b[p + 1] == b[p + 2] == 0
    ensures match t
            case BeginNode(name) =>
              && b[p + 3] == 1 && p + 4 + |name| < |b| && b[p + 4..p + 4 + |name|] == name && b[p + 4 + |name|] == 0
            case EndNode => b[p + 3] == 2
            case Prop(nameoff, value) =>
              && b[p + 3] == 3 && p + 12 + |value| <= |b| && b[p + 12..p + 12 + |value|] == value
              && |value| == BigEndian(b[p + 4], b[p + 5], b[p + 6], b[p + 7])
              && nameoff == BigEndian(b[p + 8], b[p + 9], b[p + 10], b[p + 11])
            case Nop => b[p + 3] == 4
            case End => b[p + 3] == 9
  {
    TokenFields(b, p, t);
    WordIsBigEndian(b, p);
    if t.Prop? {
      WordIsBigEndian(b, p + 4);
      WordIsBigEndian(b, p + 8);
    }
  }

  predicate TokenAt(d: Blob, off: nat, t: Token) {
    InStruct(d.h, off, RawSize(t)) && TokenBytes(d.b, d.h.offStruct + off, t)
  }

  lemma StringUnique(b: seq<Byte>, p: nat, limit: nat, limit': nat, s: seq<Byte>, t: seq<Byte>)
    requires StringAt(b, p, limit, s) && StringAt(b, p, limit', t)
    ensures s == t
  {
    assert forall k :: 0 <= k < |s| ==> b[p + k] == b[p..p + |s|][k] == s[k];
    assert forall k :: 0 <= k < |t| ==> b[p + k] == b[p..p + |t|][k] == t[k];
  }

  /** A place spells at most one token. */
  lemma TokenUnique(b: seq<Byte>, p: nat, t: Token, t': Token)
    requires TokenBytes(b, p, t) && TokenBytes(b, p, t')
    ensures t == t'
  {
    TokenFields(b, p, t);
    TokenFields(b, p, t');
    if t.BeginNode? {
      StringUnique(b, p + 4, p + RawSize(t), p + RawSize(t'), t.name, t'.name);
    }
  }

  lemma TokenBytesFrame(b: seq<Byte>, b': seq<Byte>, p: nat, t: Token)
    requires TokenBytes(b, p, t) && p + RawSize(t) <= |b'|
    requires forall k :: p <= k < p + RawSize(t) ==> b'[k] == b[k]
    ensures TokenBytes(b', p, t)
  {
    assert b'[p..p + RawSize(t)] == b[p..p + RawSize(t)];
  }

  /** The token at `off`, if there is one. */
  ghost function TokenOf(d: Blob, off: nat): (r: Option<Token>)
    ensures r.Some? ==> TokenAt(d, off, r.value)
    ensures forall t :: TokenAt(d, off, t) ==> r == Some(t)
  {
    if t :| TokenAt(d, off, t) then
      (forall t' | TokenAt(d, off, t') ensures t' == t { TokenUnique(d.b, d.h.offStruct + off, t, t'); }
       Some(t))
    else None
  }
}
