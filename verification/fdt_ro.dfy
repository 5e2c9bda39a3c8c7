/** Reading names, properties and reserve entries from a finished blob. */
module FdtRo {
  import opened Collections
  import opened FdtFormat
  import opened Fdt

  /** A value that was asked for, or the error number that explains why there is none. */
  datatype Answer<+T> = Found(value: T) | Failed(err: int)

  // ---- the header -----------------------------------------------------------------

  /** Minimal sanity of the header of a finished or unfinished blob. */
  function RoProbe(h: Header): int {
    if h.magic == FDT_MAGIC && (h.version < FDT_FIRST_SUPPORTED_VERSION || h.lastComp > FDT_LAST_SUPPORTED_VERSION)
    then -FDT_ERR_BADVERSION
    else if h.magic == FDT_SW_MAGIC && h.sizeStruct == 0 then -FDT_ERR_BADSTATE
    else if h.magic != FDT_MAGIC && h.magic != FDT_SW_MAGIC then -FDT_ERR_BADMAGIC
    else if h.totalsize < INT_MAX then h.totalsize
    else -FDT_ERR_TRUNCATED
  }

  /** A finished blob of a supported version; names are only read when its size is below INT_MAX. */
  predicate Complete(h: Header) {
    h.magic == FDT_MAGIC && h.version >= FDT_FIRST_SUPPORTED_VERSION && h.lastComp <= FDT_LAST_SUPPORTED_VERSION
  }

  /** Where the string table ends, as far as the header says. */
  function StringsEnd(h: Header): nat {
    if h.version >= 17 then h.offStrings + h.sizeStrings else h.totalsize
  }

  /** The string table lies inside the blob. */
  predicate StringsInside(h: Header) { h.offStrings <= StringsEnd(h) <= h.totalsize }

  /** The string table has name `s` at `off`, and the blob is small enough to be asked for it. */
  predicate NameAt(d: Blob, off: nat, s: seq<Byte>) {
    d.h.totalsize < INT_MAX && d.h.offStrings + off < StringsEnd(d.h)
        && StringAt(d.b, d.h.offStrings + off, StringsEnd(d.h), s)
  }

  // ---- strings --------------------------------------------------------------------

  /** The bytes from `p` up to the first zero before `limit`. */
  method ReadString(b: seq<Byte>, p: nat, limit: nat) returns (r: Option<seq<Byte>>)
    requires p <= limit <= |b|
    ensures r.Some? ==> StringAt(b, p, limit, r.value)
    ensures r.None? ==> forall s :: !StringAt(b, p, limit, s)
  {
    var q := p;
    while q < limit
      invariant p <= q <= limit && NoZero(b, p, q)
    {
      if b[q] == 0 {
        return Some(b[p..q]);
      }
      q := q + 1;
    }
    forall s ensures !StringAt(b, p, limit, s) {
      if p + |s| < limit { assert b[p + |s|] != 0; }
    }
    return None;
  }

  /** The string at `stroffset` of the string table. */
  method GetString(d: Blob, stroffset: int) returns (r: Answer<seq<Byte>>)
    requires Readable(d) && Complete(d.h) && StringsInside(d.h) && stroffset <= INT_MAX
    ensures r.Found? ==> stroffset >= 0 && NameAt(d, stroffset, r.value)
    ensures r.Failed? ==> r.err < 0 && (stroffset < 0 || forall s :: !NameAt(d, stroffset, s))
  {
    if RoProbe(d.h) < 0 {
      return Failed(RoProbe(d.h));
    }
    if stroffset < 0 {
      return Failed(-FDT_ERR_BADOFFSET);
    }
    var absoffset := (stroffset + d.h.offStrings) % 0x1_0000_0000;
    if absoffset >= d.h.totalsize {
      return Failed(-FDT_ERR_BADOFFSET);
    }
    if d.h.version >= 17 && stroffset >= d.h.sizeStrings {
      return Failed(-FDT_ERR_BADOFFSET);
    }
    var s := ReadString(d.b, absoffset, StringsEnd(d.h));
    if s.None? {
      return Failed(-FDT_ERR_TRUNCATED);
    }
    return Found(s.value);
  }

  // ---- nodes and properties by their offsets --------------------------------------

  /** An offset a caller may pass: not negative, and a multiple of the tag size. */
  predicate Aligned(offset: int) { offset >= 0 && offset % 4 == 0 }

  method CheckNodeOffset(d: Blob, offset: int) returns (next: int)
    requires Readable(d) && offset <= INT_MAX
    ensures next >= 0 <==> Aligned(offset) && TokenOf(d, offset).Some? && TokenOf(d, offset).value.BeginNode?
    ensures next >= 0 ==> next == TagAlign(offset + RawSize(TokenOf(d, offset).value))
    ensures next < 0 ==> next == -FDT_ERR_BADOFFSET
  {
    if offset < 0 || offset % 4 != 0 {
      return -FDT_ERR_BADOFFSET;
    }
    var tag;
    tag, next := NextTag(d, offset);
    if tag != FDT_BEGIN_NODE {
      return -FDT_ERR_BADOFFSET;
    }
  }

  method CheckPropOffset(d: Blob, offset: int) returns (next: int)
    requires Readable(d) && offset <= INT_MAX
    ensures next >= 0 <==> Aligned(offset) && TokenOf(d, offset).Some? && TokenOf(d, offset).value.Prop?
    ensures next >= 0 ==> next == TagAlign(offset + RawSize(TokenOf(d, offset).value))
    ensures next < 0 ==> next == -FDT_ERR_BADOFFSET
  {
    if offset < 0 || offset % 4 != 0 {
      return -FDT_ERR_BADOFFSET;
    }
    var tag;
    tag, next := NextTag(d, offset);
    if tag != FDT_PROP {
      return -FDT_ERR_BADOFFSET;
    }
  }

  /** The name of the node that starts at `offset`. */
  method GetName(d: Blob, offset: int) returns (r: Answer<seq<Byte>>)
    requires Readable(d) && Complete(d.h) && offset <= INT_MAX
    ensures r.Found? <==>
              && d.h.totalsize < INT_MAX && Aligned(offset)
              && TokenOf(d, offset).Some? && TokenOf(d, offset).value.BeginNode?
    ensures r.Found? ==> TokenOf(d, offset) == Some(BeginNode(r.value))
    ensures r.Failed? ==> r.err < 0
  {
    if RoProbe(d.h) < 0 {
      return Failed(RoProbe(d.h));
    }
    var next := CheckNodeOffset(d, offset);
    if next < 0 {
      return Failed(next);
    }
    ghost var t, p := TokenOf(d, offset).value, d.h.offStruct + offset;
    TokenFields(d.b, p, t);
    NameWithin(d.b, p + 4, p + RawSize(t), t.name);
    var s := ReadString(d.b, d.h.offStruct + offset + 4, |d.b|);
    StringUnique(d.b, p + 4, p + RawSize(t), |d.b|, t.name, s.value);
    return Found(s.value);
  }

  lemma NameWithin(b: seq<Byte>, p: nat, limit: nat, s: seq<Byte>)
    requires StringAt(b, p, limit, s)
    ensures StringAt(b, p, |b|, s)
  {
  }

  /** The value of the property that starts at `offset`, and its name. */
  method GetPropByOffset(d: Blob, offset: int) returns (r: Answer<(seq<Byte>, seq<Byte>)>)
    requires Readable(d) && Complete(d.h) && StringsInside(d.h) && offset <= INT_MAX
    ensures r.Found? ==> Aligned(offset) && TokenOf(d, offset).Some? && TokenOf(d, offset).value.Prop?
                         && TokenOf(d, offset).value.value == r.value.1
                         && NameAt(d, TokenOf(d, offset).value.nameoff, r.value.0)
    ensures r.Failed? ==> r.err < 0
    ensures r.Failed? && Aligned(offset) && TokenOf(d, offset).Some? && TokenOf(d, offset).value.Prop? ==>
              forall s :: !NameAt(d, TokenOf(d, offset).value.nameoff, s)
  {
    var next := CheckPropOffset(d, offset);
    if next < 0 {
      return Failed(next);
    }
    ghost var t := TokenOf(d, offset).value;
    var p := d.h.offStruct + offset;
    TokenFields(d.b, p, t);
    var nameoff := Get32(d.b, p + 8);
    NoNameBeyond(d, nameoff);
    var name := GetString(d, ToInt(nameoff));
    if name.Failed? {
      return Failed(name.err);
    }
    return Found((name.value, d.b[p + 12..p + 12 + Get32(d.b, p + 4)]));
  }

  /** The conversion of a 32-bit word to an int. */
  function ToInt(v: U32): (r: int)
    ensures r <= INT_MAX && (v <= INT_MAX ==> r == v) && (v > INT_MAX ==> r < 0)
  {
    if v <= INT_MAX then v else v - 0x1_0000_0000
  }

  lemma NoNameBeyond(d: Blob, nameoff: U32)
    requires Readable(d) && StringsInside(d.h)
    ensures nameoff > INT_MAX ==> forall s :: !NameAt(d, nameoff, s)
  {
  }

  // ---- the memory reservation block -----------------------------------------------

  /** Entry `n` lies inside the blob. */
  predicate ReserveInside(h: Header, n: nat) { h.offRsvmap + 16 * n + 16 <= h.totalsize }

  ghost predicate ReserveSizeIs(d: Blob, n: nat, zero: bool)
    requires Readable(d)
  {
    ReserveInside(d.h, n) && (Get64(d.b, d.h.offRsvmap + 16 * n + 8) == 0) == zero
  }

  /** Entry `n` ends the map, and no earlier one does. */
  ghost predicate ReserveMapEnds(d: Blob, n: nat)
    requires Readable(d)
  {
    ReserveSizeIs(d, n, true) && forall i :: 0 <= i < n ==> ReserveSizeIs(d, i, false)
  }

  method NumMemRsv(d: Blob) returns (n: int)
    requires Readable(d) && d.h.totalsize >= RESERVE_ENTRY_SIZE
    ensures n >= 0 ==> ReserveMapEnds(d, n)
    ensures n < 0 ==> n == -FDT_ERR_TRUNCATED && forall k: nat :: !ReserveMapEnds(d, k)
  {
    n := 0;
    while true
      invariant n >= 0 && 16 * n <= d.h.totalsize && forall i :: 0 <= i < n ==> ReserveSizeIs(d, i, false)
      decreases d.h.totalsize - 16 * n
    {
      var absoffset := (d.h.offRsvmap + 16 * n) % 0x1_0000_0000;
      if absoffset < d.h.offRsvmap || absoffset > d.h.totalsize - 16 {
        ReserveWraps(d.h, n);
        NoEnd(d, n);
        return -FDT_ERR_TRUNCATED;
      }
      ReserveWraps(d.h, n);
      if Get64(d.b, absoffset + 8) == 0 {
        return n;
      }
      n := n + 1;
    }
  }

  /** The bounds check of an entry, in 32-bit arithmetic. */
  lemma ReserveWraps(h: Header, n: nat)
    requires h.totalsize <= INT_MAX && 16 * n <= h.totalsize
    ensures var absoffset := (h.offRsvmap + 16 * n) % 0x1_0000_0000;
            absoffset >= h.offRsvmap && absoffset <= h.totalsize - 16 <==> ReserveInside(h, n)
    ensures ReserveInside(h, n) ==> (h.offRsvmap + 16 * n) % 0x1_0000_0000 == h.offRsvmap + 16 * n
  {
    var sum := h.offRsvmap + 16 * n;
    if sum >= 0x1_0000_0000 { assert sum % 0x1_0000_0000 == sum - 0x1_0000_0000; }
  }

  lemma NoEnd(d: Blob, n: nat)
    requires Readable(d) && !ReserveInside(d.h, n) && forall i :: 0 <= i < n ==> ReserveSizeIs(d, i, false)
    ensures forall k: nat :: !ReserveMapEnds(d, k)
  {
    forall k: nat ensures !ReserveMapEnds(d, k) {
      if k < n { assert ReserveSizeIs(d, k, false); }
      if n < k { assert !ReserveSizeIs(d, n, false); }
    }
  }

  /** Entry `n` of the reserve map. */
  method GetMemRsv(d: Blob, n: nat) returns (r: Answer<Reserve>)
    requires Readable(d) && d.h.totalsize >= RESERVE_ENTRY_SIZE && 16 * n <= d.h.totalsize
    ensures RoProbe(d.h) < 0 ==> r == Failed(RoProbe(d.h))
    ensures RoProbe(d.h) >= 0 ==>
              if ReserveInside(d.h, n) then r.Found? && ReserveAt(d.b, d.h.offRsvmap + 16 * n, r.value)
              else r == Failed(-FDT_ERR_BADOFFSET)
  {
    if RoProbe(d.h) < 0 {
      return Failed(RoProbe(d.h));
    }
    ReserveWraps(d.h, n);
    var absoffset := (d.h.offRsvmap + 16 * n) % 0x1_0000_0000;
    if absoffset < d.h.offRsvmap || absoffset > d.h.totalsize - 16 {
      return Failed(-FDT_ERR_BADOFFSET);
    }
    return Found(Reserve(Get64(d.b, absoffset), Get64(d.b, absoffset + 8)));
  }
}
