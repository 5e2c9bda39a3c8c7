/** The sequential writer of device tree blobs. */
module FdtSw {
  import opened Collections
  import opened FdtFormat
  import opened Fdt

  const FDT_CREATE_FLAG_NO_NAME_DEDUP: U32 := 1

  /** One successful call of the caller. */
  datatype Entry = OpenNode(name: seq<Byte>) | CloseNode | Property(name: seq<Byte>, value: seq<Byte>)

  /** How far before the end of the buffer a name starts whose stored offset is `nameoff`. */
  function Back(nameoff: U32): nat { 0x1_0000_0000 - nameoff }

  /** The token is what the call wrote; a property's name lies in the string table at the end of the buffer. */
  ghost predicate Wrote(b: seq<Byte>, strings: nat, t: Token, e: Entry) {
    match e
    case OpenNode(name) => t == BeginNode(name) && CString(name)
    case CloseNode => t == EndNode
    case Property(name, value) =>
      && t.Prop? && t.value == value
      && Back(t.nameoff) <= strings <= |b| && StringAt(b, |b| - Back(t.nameoff), |b|, name)
  }

  ghost predicate AllWrote(b: seq<Byte>, strings: nat, toks: seq<Token>, log: seq<Entry>) {
    |log| == |toks| && forall i :: 0 <= i < |toks| ==> WroteAt(b, strings, toks, log, i)
  }

  ghost predicate WroteAt(b: seq<Byte>, strings: nat, toks: seq<Token>, log: seq<Entry>, i: nat)
    requires i < |toks| && i < |log|
  {
    Wrote(b, strings, toks[i], log[i])
  }

  // ---- what a step leaves alone ---------------------------------------------------

  ghost predicate SameBelow(b: seq<Byte>, b': seq<Byte>, limit: nat) {
    |b'| == |b| && forall k :: 0 <= k < limit && k < |b| ==> b'[k] == b[k]
  }

  ghost predicate SameFrom(b: seq<Byte>, b': seq<Byte>, start: int) {
    |b'| == |b| && forall k :: 0 <= k < |b| && start <= k ==> b'[k] == b[k]
  }

  /** A token is still there when the bytes of the structure block are. */
  lemma SpeltFrame(h: Header, b: seq<Byte>, h': Header, b': seq<Byte>, toks: seq<Token>, i: nat, end: nat)
    requires i < |toks| && SpeltAt(Blob(h, b), toks, i)
    requires Offset(toks, i) + RawSize(toks[i]) <= end && h.offStruct + end <= |b|
             && SameBelow(b, b', h.offStruct + end)
    requires h'.offStruct == h.offStruct && h'.version == h.version && end <= h'.sizeStruct
             && h.offStruct + end <= h'.totalsize
    ensures SpeltAt(Blob(h', b'), toks, i)
  {
    TokenBytesFrame(b, b', h.offStruct + Offset(toks, i), toks[i]);
  }

  /** Tokens do not depend on what lies behind the structure block. */
  lemma SpellsFrame(h: Header, b: seq<Byte>, h': Header, b': seq<Byte>, toks: seq<Token>)
    requires Spells(Blob(h, b), toks) && h.sizeStruct == Offset(toks, |toks|)
    requires h'.offStruct == h.offStruct && h'.version == h.version && h'.sizeStruct >= h.sizeStruct
    requires h.offStruct + h.sizeStruct <= h'.totalsize && h.offStruct + h.sizeStruct <= |b|
    requires SameBelow(b, b', h.offStruct + h.sizeStruct)
    ensures Spells(Blob(h', b'), toks)
  {
    forall i | 0 <= i < |toks| ensures SpeltAt(Blob(h', b'), toks, i) {
      TokenEnds(toks, i);
      SpeltFrame(h, b, h', b', toks, i, h.sizeStruct);
    }
  }

  /** One more token behind the others. */
  lemma AppendToken(h: Header, b: seq<Byte>, h': Header, b': seq<Byte>, toks: seq<Token>, t: Token)
    requires Spells(Blob(h, b), toks) && h.sizeStruct == Offset(toks, |toks|)
    requires h'.offStruct == h.offStruct && h'.version == h.version && h'.sizeStruct == h.sizeStruct + Size(t)
    requires h.offStruct + h'.sizeStruct <= h'.totalsize <= |b|
    requires SameBelow(b, b', h.offStruct + h.sizeStruct) && TokenBytes(b', h.offStruct + h.sizeStruct, t)
    ensures Spells(Blob(h', b'), toks + [t]) && h'.sizeStruct == Offset(toks + [t], |toks + [t]|)
  {
    OffsetOfPrefix(toks, [t], |toks|);
    SpellsFrame(h, b, h', b', toks);
    var off := h.sizeStruct;
    assert TokenAt(Blob(h', b'), off, t);
    SpellsOneMore(Blob(h', b'), toks, t, off);
  }

  lemma StringFrame(b: seq<Byte>, b': seq<Byte>, p: nat, limit: nat, s: seq<Byte>)
    requires StringAt(b, p, limit, s) && SameFrom(b, b', p)
    ensures StringAt(b', p, limit, s)
  {
    assert b'[p..p + |s|] == b[p..p + |s|];
  }

  /** A string table that grows at its front keeps every name. */
  lemma WroteFrame(b: seq<Byte>, strings: nat, b': seq<Byte>, strings': nat, toks: seq<Token>, log: seq<Entry>)
    requires AllWrote(b, strings, toks, log) && strings <= strings' <= |b| && SameFrom(b, b', |b| - strings)
    ensures AllWrote(b', strings', toks, log)
  {
    forall i | 0 <= i < |toks| ensures WroteAt(b', strings', toks, log, i) {
      assert WroteAt(b, strings, toks, log, i);
      if log[i].Property? {
        StringFrame(b, b', |b| - Back(toks[i].nameoff), |b|, log[i].name);
      }
    }
  }

  // ---- the reserve map ------------------------------------------------------------

  ghost predicate Reserves(b: seq<Byte>, rsv: seq<Reserve>) {
    forall i :: 0 <= i < |rsv| ==> ReservedAt(b, rsv, i)
  }

  ghost predicate ReservedAt(b: seq<Byte>, rsv: seq<Reserve>, i: nat)
    requires i < |rsv|
  {
    ReserveAt(b, RESERVE_MAP_START + 16 * i, rsv[i])
  }

  lemma ReservesFrame(b: seq<Byte>, b': seq<Byte>, rsv: seq<Reserve>)
    requires Reserves(b, rsv) && RESERVE_MAP_START + 16 * |rsv| <= |b|
             && SameBelow(b, b', RESERVE_MAP_START + 16 * |rsv|)
    ensures Reserves(b', rsv)
  {
    forall i | 0 <= i < |rsv| ensures ReservedAt(b', rsv, i) {
      assert ReservedAt(b, rsv, i);
      ReserveFrame(b, b', RESERVE_MAP_START + 16 * i, rsv[i]);
    }
  }

  lemma ReservesOneMore(b: seq<Byte>, rsv: seq<Reserve>, e: Reserve)
    requires Reserves(b, rsv) && ReserveAt(b, RESERVE_MAP_START + 16 * |rsv|, e)
    ensures Reserves(b, rsv + [e])
  {
    assert ReservedAt(b, rsv + [e], |rsv|);
    forall i | 0 <= i < |rsv + [e]| ensures ReservedAt(b, rsv + [e], i) {
      if i < |rsv| { assert ReservedAt(b, rsv, i); } else { assert i == |rsv|; }
    }
  }

  // ---- the states of a blob under construction ------------------------------------

  ghost predicate Sized(h: Header, b: seq<Byte>, rsv: seq<Reserve>) {
    && h.version == FDT_LAST_SUPPORTED_VERSION && h.offRsvmap == RESERVE_MAP_START
    && h.offStruct == RESERVE_MAP_START + 16 * |rsv| && Reserves(b, rsv)
    && h.totalsize <= |b| <= INT_MAX && h.offStruct + h.sizeStruct + h.sizeStrings <= h.totalsize
  }

  ghost predicate Unfinished(h: Header, b: seq<Byte>) {
    h.magic == FDT_SW_MAGIC && h.totalsize == |b| && h.lastComp <= 1
  }

  /** Only reserve entries so far. */
  ghost predicate InReserveMap(h: Header, b: seq<Byte>, rsv: seq<Reserve>) {
    Sized(h, b, rsv) && Unfinished(h, b) && h.offStrings == 0 && h.sizeStruct == 0 && h.sizeStrings == 0
  }

  /** The reserve map is closed; the structure block holds one token for every call so far, and the
      names of properties lie in a table that grows down from the end. */
  ghost predicate InStructure(h: Header, b: seq<Byte>, rsv: seq<Reserve>, toks: seq<Token>, log: seq<Entry>) {
    && Sized(h, b, rsv) && Unfinished(h, b) && h.offStrings == h.totalsize
    && |rsv| > 0 && rsv[|rsv| - 1] == Reserve(0, 0)
    && Spells(Blob(h, b), toks) && h.sizeStruct == Offset(toks, |toks|)
    && AllWrote(b, h.sizeStrings, toks, log)
  }

  lemma WroteOneMore(b: seq<Byte>, strings: nat, toks: seq<Token>, log: seq<Entry>, t: Token, e: Entry)
    requires AllWrote(b, strings, toks, log) && Wrote(b, strings, t, e)
    ensures AllWrote(b, strings, toks + [t], log + [e])
  {
    assert WroteAt(b, strings, toks + [t], log + [e], |toks|);
    forall i | 0 <= i < |toks + [t]| ensures WroteAt(b, strings, toks + [t], log + [e], i) {
      if i < |toks| { assert WroteAt(b, strings, toks, log, i); } else { assert i == |toks|; }
    }
  }

  /** One more call has written its token. */
  lemma OneMoreCall(h: Header, b: seq<Byte>, h': Header, b': seq<Byte>, rsv: seq<Reserve>, toks: seq<Token>,
                    log: seq<Entry>,
                    t: Token, e: Entry)
    requires InStructure(h, b, rsv, toks, log)
    requires h' == h.(sizeStruct := h'.sizeStruct, sizeStrings := h'.sizeStrings)
    requires h'.sizeStruct == h.sizeStruct + Size(t) && h'.sizeStrings >= h.sizeStrings
    requires h.offStruct + h'.sizeStruct + h'.sizeStrings <= h.totalsize
    requires SameBelow(b, b', h.offStruct + h.sizeStruct) && SameFrom(b, b', |b| - h.sizeStrings)
    requires TokenBytes(b', h.offStruct + h.sizeStruct, t) && Wrote(b', h'.sizeStrings, t, e)
    ensures InStructure(h', b', rsv, toks + [t], log + [e])
  {
    ReservesFrame(b, b', rsv);
    WroteFrame(b, h.sizeStrings, b', h'.sizeStrings, toks, log);
    WroteOneMore(b', h'.sizeStrings, toks, log, t, e);
    AppendToken(h, b, h', b', toks, t);
  }

  // ---- names ----------------------------------------------------------------------

  /** `FindString`'s answer: the first place in the table where the string and its terminator stand. */
  ghost predicate FirstString(b: seq<Byte>, from: nat, to: nat, s: seq<Byte>, p: nat) {
    from <= p && StringAt(b, p, to, s) && forall q :: from <= q < p ==> !StringAt(b, q, to, s)
  }

  ghost predicate NoString(b: seq<Byte>, from: nat, to: nat, s: seq<Byte>) {
    forall q :: from <= q ==> !StringAt(b, q, to, s)
  }

  /** How many bytes of the buffer a new property needs for its name. */
  ghost function NameCost(h: Header, b: seq<Byte>, name: seq<Byte>): nat
    requires h.sizeStrings <= |b|
  {
    if h.lastComp != FDT_CREATE_FLAG_NO_NAME_DEDUP && !NoString(b, |b| - h.sizeStrings, |b|, name) then 0
    else |name| + 1
  }

  // ---- writing single tokens ------------------------------------------------------

  ghost predicate OnlyChanged(b: seq<Byte>, b': seq<Byte>, p: nat, n: nat) {
    |b'| == |b| && forall k :: 0 <= k < |b| && !(p <= k < p + n) ==> b'[k] == b[k]
  }

  lemma NameWritten(b: seq<Byte>, p: nat, word: seq<Byte>, name: seq<Byte>)
    requires CString(name) && p + 4 + |name| + 1 <= |b|
    requires |word| == 4 && Word(word) == FDT_BEGIN_NODE && b[p..p + 4] == word
    requires b[p + 4..p + 4 + |name + [0]|] == name + [0]
    ensures TokenBytes(b, p, FdtFormat.BeginNode(name))
  {
    var s := b[p + 4..p + 4 + |name + [0]|];
    assert b[p + 4..p + 4 + |name|] == s[..|name|] == name;
    assert b[p + 4 + |name|] == s[|name|] == 0;
    TokenFields(b, p, FdtFormat.BeginNode(name));
  }

  method PutBeginNode(buf: array<Byte>, p: nat, name: seq<Byte>)
    requires CString(name) && p + 4 + |name| + 1 <= buf.Length
    modifies buf
    ensures TokenBytes(buf[..], p, BeginNode(name))
    ensures OnlyChanged(old(buf[..]), buf[..], p, 4 + |name| + 1)
  {
    Put32(buf, p, FDT_BEGIN_NODE);
    ghost var word := buf[..][p..p + 4];
    CopyIn(buf, p + 4, name + [0]);
    NameWritten(buf[..], p, word, name);
  }

  method PutTag(buf: array<Byte>, p: nat, t: Token)
    requires (t == EndNode || t == End) && p + 4 <= buf.Length
    modifies buf
    ensures TokenBytes(buf[..], p, t)
    ensures OnlyChanged(old(buf[..]), buf[..], p, 4)
  {
    Put32(buf, p, Tag(t));
    TokenFields(buf[..], p, t);
  }

  method PutProperty(buf: array<Byte>, p: nat, nameoff: U32, value: seq<Byte>)
    requires |value| <= INT_MAX && p + 12 + |value| <= buf.Length
    modifies buf
    ensures TokenBytes(buf[..], p, Prop(nameoff, value))
    ensures OnlyChanged(old(buf[..]), buf[..], p, 12 + |value|)
  {
    Put32(buf, p, FDT_PROP);
    ghost var b1 := buf[..];
    Put32(buf, p + 8, nameoff);
    ghost var b2 := buf[..];
    assert b2[p..p + 4] == b1[p..p + 4];
    Put32(buf, p + 4, |value|);
    ghost var b3 := buf[..];
    assert b3[p..p + 4] == b2[p..p + 4] && b3[p + 8..p + 12] == b2[p + 8..p + 12];
    CopyIn(buf, p + 12, value);
    ghost var b4 := buf[..];
    assert b4[p..p + 4] == b3[p..p + 4] && b4[p + 4..p + 8] == b3[p + 4..p + 8]
           && b4[p + 8..p + 12] == b3[p + 8..p + 12];
    assert b4[p + 12..p + 12 + |value|] == buf[p + 12..p + 12 + |value|];
    TokenFields(b4, p, Prop(nameoff, value));
  }

  lemma OneMoreProperty(h: Header, b: seq<Byte>, h': Header, b': seq<Byte>, rsv: seq<Reserve>, toks: seq<Token>,
                        log: seq<Entry>,
                        offset: nat, name: seq<Byte>, value: seq<Byte>)
    requires InStructure(h, b, rsv, toks, log) && |value| <= INT_MAX
    requires 0 < offset <= h.sizeStrings && StringAt(b, |b| - offset, |b|, name)
    requires var t := Prop(0x1_0000_0000 - offset, value);
             && h' == h.(sizeStruct := h'.sizeStruct) && h'.sizeStruct == h.sizeStruct + Size(t)
             && h.offStruct + h'.sizeStruct + h.sizeStrings <= h.totalsize
             && TokenBytes(b', h.offStruct + h.sizeStruct, t)
             && OnlyChanged(b, b', h.offStruct + h.sizeStruct, 12 + |value|)
    ensures InStructure(h', b', rsv, toks + [Prop(0x1_0000_0000 - offset, value)], log + [Property(name, value)])
  {
    StringFrame(b, b', |b| - offset, |b|, name);
    OneMoreCall(h, b, h', b', rsv, toks, log, Prop(0x1_0000_0000 - offset, value), Property(name, value));
  }

  /** A longer string table, or a gap between the blocks that has changed, leaves every call recorded. */
  lemma OtherNames(h: Header, b: seq<Byte>, h': Header, b': seq<Byte>, rsv: seq<Reserve>, toks: seq<Token>,
                   log: seq<Entry>)
    requires InStructure(h, b, rsv, toks, log)
    requires h' == h.(sizeStrings := h'.sizeStrings) && h'.sizeStrings >= h.sizeStrings
    requires h.offStruct + h.sizeStruct + h'.sizeStrings <= h.totalsize
    requires SameBelow(b, b', h.offStruct + h.sizeStruct) && SameFrom(b, b', |b| - h.sizeStrings)
    ensures InStructure(h', b', rsv, toks, log)
  {
    ReservesFrame(b, b', rsv);
    WroteFrame(b, h.sizeStrings, b', h'.sizeStrings, toks, log);
    SpellsFrame(h, b, h', b', toks);
  }

  // ---- finishing ------------------------------------------------------------------

  /** A token once the string table of `n` bytes has moved behind the structure block. */
  function Relocate(t: Token, n: U32): (r: Token)
    ensures RawSize(r) == RawSize(t) && Tag(r) == Tag(t)
  {
    match t
    case Prop(nameoff, value) => Prop((nameoff + n) % 0x1_0000_0000, value)
    case _ => t
  }

  lemma {:induction false} SameOffset(toks: seq<Token>, k: nat, t: Token, i: nat)
    requires k < |toks| && RawSize(t) == RawSize(toks[k]) && i <= |toks|
    ensures Offset(toks[k := t], i) == Offset(toks, i)
  {
    if i > 0 { SameOffset(toks, k, t, i - 1); }
  }

  lemma NewName(b: seq<Byte>, b': seq<Byte>, p: nat, t: Token, n: U32)
    requires t.Prop? && TokenBytes(b, p, t) && OnlyChanged(b, b', p + 8, 4)
    requires Get32(b', p + 8) == (t.nameoff + n) % 0x1_0000_0000
    ensures TokenBytes(b', p, Relocate(t, n))
  {
    TokenFields(b, p, t);
    assert b'[p..p + 4] == b[p..p + 4] && b'[p + 4..p + 8] == b[p + 4..p + 8];
    assert b'[p + 12..p + 12 + |t.value|] == b[p + 12..p + 12 + |t.value|];
    TokenFields(b', p, Relocate(t, n));
  }

  /** Rewriting token `k` in place leaves every other token alone. */
  lemma TokenApart(h: Header, b: seq<Byte>, b': seq<Byte>, toks: seq<Token>, k: nat, i: nat)
    requires k < |toks| && i < |toks| && i != k && SpeltAt(Blob(h, b), toks, i)
    requires OnlyChanged(b, b', h.offStruct + Offset(toks, k), RawSize(toks[k]))
    ensures SpeltAt(Blob(h, b'), toks, i)
  {
    TokensApart(toks, k, i);
    TokenOutside(b, b', h.offStruct + Offset(toks, k), RawSize(toks[k]), h.offStruct + Offset(toks, i), toks[i]);
  }

  lemma TokensApart(toks: seq<Token>, k: nat, i: nat)
    requires k < |toks| && i < |toks| && i != k
    ensures Offset(toks, i) + RawSize(toks[i]) <= Offset(toks, k)
            || Offset(toks, k) + RawSize(toks[k]) <= Offset(toks, i)
  {
    if i < k { OffsetGrows(toks, i, k); } else { OffsetGrows(toks, k, i); }
  }

  lemma TokenOutside(b: seq<Byte>, b': seq<Byte>, at: nat, n: nat, p: nat, t: Token)
    requires OnlyChanged(b, b', at, n) && TokenBytes(b, p, t) && (p + RawSize(t) <= at || at + n <= p)
    ensures TokenBytes(b', p, t)
  {
    TokenBytesFrame(b, b', p, t);
  }

  lemma SpeltAfterUpdate(d: Blob, toks: seq<Token>, k: nat, t: Token, i: nat)
    requires k < |toks| && i < |toks| && RawSize(t) == RawSize(toks[k])
    requires if i == k then TokenAt(d, Offset(toks, k), t) else SpeltAt(d, toks, i)
    ensures SpeltAt(d, toks[k := t], i)
  {
    SameOffset(toks, k, t, i);
  }

  lemma RelocateOne(h: Header, b: seq<Byte>, b': seq<Byte>, toks: seq<Token>, k: nat, t: Token)
    requires k < |toks| && Spells(Blob(h, b), toks) && RawSize(t) == RawSize(toks[k])
    requires OnlyChanged(b, b', h.offStruct + Offset(toks, k), RawSize(toks[k]))
             && TokenAt(Blob(h, b'), Offset(toks, k), t)
    ensures Spells(Blob(h, b'), toks[k := t])
  {
    var toks' := toks[k := t];
    forall i | 0 <= i < |toks'| ensures SpeltAt(Blob(h, b'), toks', i) {
      if i != k {
        assert SpeltAt(Blob(h, b), toks, i);
        TokenApart(h, b, b', toks, k, i);
      }
      SpeltAfterUpdate(Blob(h, b'), toks, k, t, i);
    }
  }

  /** What a call left in a finished blob. */
  ghost predicate Recorded(h: Header, b: seq<Byte>, t: Token, e: Entry) {
    match e
    case OpenNode(name) => t == BeginNode(name) && CString(name)
    case CloseNode => t == EndNode
    case Property(name, value) =>
      && t.Prop? && t.value == value && t.nameoff < h.sizeStrings
      && StringAt(b, h.offStrings + t.nameoff, h.offStrings + h.sizeStrings, name)
  }

  ghost predicate RecordedAt(h: Header, b: seq<Byte>, toks: seq<Token>, log: seq<Entry>, i: nat)
    requires i < |toks| && i < |log|
  {
    Recorded(h, b, toks[i], log[i])
  }

  /** A finished blob: one token for every call, an end token behind them, and every name in the
      string table behind the structure block. */
  ghost predicate Finished(h: Header, b: seq<Byte>, rsv: seq<Reserve>, toks: seq<Token>, log: seq<Entry>) {
    && h.magic == FDT_MAGIC && h.version == FDT_LAST_SUPPORTED_VERSION && h.lastComp == FDT_LAST_COMPATIBLE_VERSION
    && h.offRsvmap == RESERVE_MAP_START && h.offStruct == RESERVE_MAP_START + 16 * |rsv| && Reserves(b, rsv)
    && |rsv| > 0 && rsv[|rsv| - 1] == Reserve(0, 0)
    && h.offStrings == h.offStruct + h.sizeStruct && h.totalsize == h.offStrings + h.sizeStrings <= |b| <= INT_MAX
    && Spells(Blob(h, b), toks) && h.sizeStruct == Offset(toks, |toks|)
    && |toks| == |log| + 1 && toks[|log|] == End
    && forall i :: 0 <= i < |log| ==> RecordedAt(h, b, toks, log, i)
  }

  /** A name keeps its distance from the end of the table when the table moves. */
  lemma StringMoved(b: seq<Byte>, b': seq<Byte>, n: nat, to: nat, q: nat, s: seq<Byte>)
    requires q < n <= |b| == |b'| && to + n <= |b| && StringAt(b, |b| - n + q, |b|, s)
    requires b'[to..to + n] == b[|b| - n..|b|]
    ensures StringAt(b', to + q, to + n, s)
  {
    SliceOfSlice(b, |b| - n, |b|, q, q + |s|);
    SliceOfSlice(b', to, to + n, q, q + |s|);
    var p, p' := |b| - n + q, to + q;
    assert b'[p'..p' + |s|] == b[p..p + |s|];
    assert b'[p' + |s|] == b'[to..to + n][q + |s|] == b[|b| - n..|b|][q + |s|] == b[p + |s|];
  }

  /** While names are being corrected: the first `k` tokens are relocated, the others not yet. */
  ghost predicate Fixing(h: Header, b: seq<Byte>, all: seq<Token>, cur: seq<Token>, k: nat, n: U32) {
    Spells(Blob(h, b), cur) && FixedUpTo(all, cur, k, n)
  }

  ghost predicate FixedUpTo(all: seq<Token>, cur: seq<Token>, k: nat, n: U32) {
    |cur| == |all| && forall i :: 0 <= i < |all| ==> FixedAt(all, cur, k, n, i)
  }

  ghost predicate FixedAt(all: seq<Token>, cur: seq<Token>, k: nat, n: U32, i: nat)
    requires i < |all| && i < |cur|
  {
    cur[i] == if i < k then Relocate(all[i], n) else all[i]
  }

  lemma FixOne(all: seq<Token>, cur: seq<Token>, k: nat, n: U32)
    requires FixedUpTo(all, cur, k, n) && k < |all|
    ensures FixedUpTo(all, cur[k := Relocate(all[k], n)], k + 1, n)
    ensures cur[k] == all[k]
  {
    assert FixedAt(all, cur, k, n, k);
    var cur', k' := cur[k := Relocate(all[k], n)], k + 1;
    forall i | 0 <= i < |all| ensures FixedAt(all, cur', k', n, i) {
      assert FixedAt(all, cur, k, n, i);
    }
  }

  /** Corrects the name offset of the property at `p`. */
  method PutNameoff(buf: array<Byte>, p: nat, ghost t: Token, n: U32)
    requires t.Prop? && TokenBytes(buf[..], p, t)
    modifies buf
    ensures TokenBytes(buf[..], p, Relocate(t, n))
    ensures OnlyChanged(old(buf[..]), buf[..], p, RawSize(t))
  {
    ghost var b := buf[..];
    TokenFields(b, p, t);
    var nameoff := Get32(buf[..], p + 8);
    Put32(buf, p + 8, (nameoff + n) % 0x1_0000_0000);
    NewName(b, buf[..], p, t, n);
  }

  /** One turn of the correcting loop, at the token that starts at `offset`. */
  method FixToken(h: Header, buf: array<Byte>, offset: nat, tag: U32, ghost all: seq<Token>, ghost cur: seq<Token>,
                  ghost k: nat)
    returns (ghost cur': seq<Token>)
    requires Fixing(h, buf[..], all, cur, k, h.sizeStrings) && k < |all|
    requires offset == Offset(cur, k) && tag == Tag(cur[k])
    modifies buf
    ensures Fixing(h, buf[..], all, cur', k + 1, h.sizeStrings)
    ensures Offset(cur', k + 1) == Offset(cur, k + 1)
    ensures OnlyChanged(old(buf[..]), buf[..], h.offStruct + offset, RawSize(cur[k]))
  {
    ghost var b := buf[..];
    FixOne(all, cur, k, h.sizeStrings);
    assert SpeltAt(Blob(h, b), cur, k);
    cur' := cur[k := Relocate(all[k], h.sizeStrings)];
    SameOffset(cur, k, Relocate(all[k], h.sizeStrings), k + 1);
    if tag == FDT_PROP {
      PutNameoff(buf, h.offStruct + offset, cur[k], h.sizeStrings);
      RelocateOne(h, b, buf[..], cur, k, Relocate(all[k], h.sizeStrings));
    } else {
      assert cur' == cur;
    }
  }

  /** The loop: up to the end token. */
  method FixNames(h: Header, buf: array<Byte>, ghost all: seq<Token>) returns (ghost cur: seq<Token>, next: int)
    requires Readable(Blob(h, buf[..])) && Spells(Blob(h, buf[..]), all)
    requires |all| > 0 && all[|all| - 1] == End && forall i :: 0 <= i < |all| - 1 ==> all[i] != End
    requires h.sizeStruct == Offset(all, |all|) && h.offStruct + h.sizeStruct <= buf.Length
    modifies buf
    ensures Fixing(h, buf[..], all, cur, |all|, h.sizeStrings)
    ensures OnlyChanged(old(buf[..]), buf[..], h.offStruct, h.sizeStruct)
    ensures next >= 0
  {
    var offset := 0;
    ghost var k := 0;
    cur := all;
    var tag;
    FixStart(h, buf[..], all);
    tag, next := NextTag(Blob(h, buf[..]), offset);
    StepIsNext(Blob(h, buf[..]), cur, 0, tag, next);
    while tag != FDT_END
      invariant 0 <= k < |all| && Fixing(h, buf[..], all, cur, k, h.sizeStrings)
      invariant offset == Offset(cur, k) && tag == Tag(cur[k]) == Tag(all[k]) && next == Offset(cur, k + 1)
      invariant OnlyChanged(old(buf[..]), buf[..], h.offStruct, h.sizeStruct)
      decreases |all| - k
    {
      FixInside(all, cur, k, h.sizeStrings);
      ghost var was := buf[..];
      cur := FixToken(h, buf, offset, tag, all, cur, k);
      NotLast(all, k);
      offset := next;
      k := k + 1;
      OffsetIsInt(Blob(h, buf[..]), cur, k);
      tag, next := NextTag(Blob(h, buf[..]), offset);
      StepIsNext(Blob(h, buf[..]), cur, k, tag, next);
      assert FixedAt(all, cur, k, h.sizeStrings, k);
    }
    assert k == |all| - 1;
    EndIsFixed(all, cur, k, h.sizeStrings);
  }

  lemma FixStart(h: Header, b: seq<Byte>, all: seq<Token>)
    requires Spells(Blob(h, b), all)
    ensures Fixing(h, b, all, all, 0, h.sizeStrings)
  {
  }

  lemma NotLast(all: seq<Token>, k: nat)
    requires k < |all| && all[|all| - 1] == End && Tag(all[k]) != FDT_END
    ensures k + 1 < |all|
  {
  }

  /** The token at hand lies inside the structure block. */
  lemma FixInside(all: seq<Token>, cur: seq<Token>, k: nat, n: U32)
    requires FixedUpTo(all, cur, k, n) && k < |all|
    ensures Offset(cur, k) + RawSize(cur[k]) <= Offset(all, |all|)
  {
    SizesKeepOffset(all, cur, k, n, |all|);
    TokenEnds(cur, k);
  }

  lemma {:induction false} SizesKeepOffset(all: seq<Token>, cur: seq<Token>, k: nat, n: U32, i: nat)
    requires FixedUpTo(all, cur, k, n) && i <= |all|
    ensures Offset(cur, i) == Offset(all, i)
  {
    if i > 0 {
      SizesKeepOffset(all, cur, k, n, i - 1);
      assert FixedAt(all, cur, k, n, i - 1);
    }
  }

  lemma EndIsFixed(all: seq<Token>, cur: seq<Token>, k: nat, n: U32)
    requires FixedUpTo(all, cur, k, n) && |all| == k + 1 && all[k] == End
    ensures FixedUpTo(all, cur, |all|, n)
  {
    forall i | 0 <= i < |all| ensures FixedAt(all, cur, |all|, n, i) {
      assert FixedAt(all, cur, k, n, i);
    }
  }

  /** The only end token is the last. */
  lemma EndIsLast(b: seq<Byte>, strings: nat, toks: seq<Token>, log: seq<Entry>)
    requires AllWrote(b, strings, toks, log)
    ensures forall i :: 0 <= i < |toks + [End]| - 1 ==> (toks + [End])[i] != End
  {
    forall i | 0 <= i < |toks| ensures toks[i] != End { assert WroteAt(b, strings, toks, log, i); }
  }

  /** The header of a finished blob. */
  function FinalHeader(h: Header): Header
    requires h.offStruct + h.sizeStruct + h.sizeStrings < 0x1_0000_0000
  {
    var strings := h.offStruct + h.sizeStruct;
    Header(FDT_MAGIC, strings + h.sizeStrings, h.offStruct, strings, h.offRsvmap, h.version,
           FDT_LAST_COMPATIBLE_VERSION,
           h.sizeStrings, h.sizeStruct)
  }

  /** A name's distance from the end of the table becomes its distance from the start. */
  lemma NameMoved(b: seq<Byte>, h: Header, b': seq<Byte>, t: Token, e: Entry)
    requires Wrote(b, h.sizeStrings, t, e) && |b| == |b'| && h.offStrings + h.sizeStrings <= |b|
    requires h.sizeStrings <= |b| && b'[h.offStrings..h.offStrings + h.sizeStrings] == b[|b| - h.sizeStrings..|b|]
    ensures Recorded(h, b', Relocate(t, h.sizeStrings), e)
  {
    if e.Property? {
      var n := h.sizeStrings;
      var q := n - Back(t.nameoff);
      BackToFront(t.nameoff, n);
      assert |b| - Back(t.nameoff) == |b| - n + q;
      StringMoved(b, b', n, h.offStrings, q, e.name);
    }
  }

  lemma BackToFront(nameoff: U32, n: U32)
    requires Back(nameoff) <= n
    ensures (nameoff + n) % 0x1_0000_0000 == n - Back(nameoff)
  {
  }

  lemma AllRecorded(b: seq<Byte>, h: Header, b': seq<Byte>, toks: seq<Token>, log: seq<Entry>, cur: seq<Token>)
    requires AllWrote(b, h.sizeStrings, toks, log) && FixedUpTo(toks + [End], cur, |toks| + 1, h.sizeStrings)
    requires h.sizeStrings <= |b| == |b'| && h.offStrings + h.sizeStrings <= |b|
    requires b'[h.offStrings..h.offStrings + h.sizeStrings] == b[|b| - h.sizeStrings..|b|]
    ensures |cur| == |log| + 1 && cur[|log|] == End
    ensures forall i :: 0 <= i < |log| ==> RecordedAt(h, b', cur, log, i)
  {
    assert FixedAt(toks + [End], cur, |toks| + 1, h.sizeStrings, |toks|);
    forall i | 0 <= i < |log| ensures RecordedAt(h, b', cur, log, i) {
      assert WroteAt(b, h.sizeStrings, toks, log, i);
      assert FixedAt(toks + [End], cur, |toks| + 1, h.sizeStrings, i);
      NameMoved(b, h, b', toks[i], log[i]);
    }
  }

  /** From the last call to the finished blob. */
  lemma FinishedFrom(h: Header, b: seq<Byte>, rsv: seq<Reserve>, toks: seq<Token>, log: seq<Entry>,
                     h1: Header, b1: seq<Byte>, cur: seq<Token>)
    requires InStructure(h, b, rsv, toks, log) && h.offStruct + h.sizeStruct + h.sizeStrings + 4 <= h.totalsize
    requires h1 == h.(sizeStruct := h.sizeStruct + 4, offStrings := h.offStruct + h.sizeStruct + 4)
    requires Fixing(h1, b1, toks + [End], cur, |toks| + 1, h.sizeStrings)
    requires SameBelow(b, b1, h.offStruct)
    requires b1[h1.offStrings..h1.offStrings + h.sizeStrings] == b[|b| - h.sizeStrings..|b|]
    ensures Finished(FinalHeader(h1), b1, rsv, cur, log)
  {
    var h2 := FinalHeader(h1);
    ReservesFrame(b, b1, rsv);
    SizesKeepOffset(toks + [End], cur, |toks| + 1, h.sizeStrings, |toks| + 1);
    OffsetOfPrefix(toks, [End], |toks|);
    assert Offset(toks + [End], |toks| + 1) == h1.sizeStruct;
    SpellsFrame(h1, b1, h2, b1, cur);
    AllRecorded(b, h2, b1, toks, log, cur);
  }

  /** What holds once the end token is written and the string table, `n` bytes, stands behind it. */
  ghost predicate Moved(h: Header, b: seq<Byte>, toks: seq<Token>, h1: Header, b1: seq<Byte>) {
    && h.offStruct + h.sizeStruct + 4 + h.sizeStrings <= h.totalsize == |b| == |b1|
    && h1 == h.(sizeStruct := h.sizeStruct + 4, offStrings := h.offStruct + h.sizeStruct + 4)
    && Spells(Blob(h1, b1), toks + [End]) && h1.sizeStruct == Offset(toks + [End], |toks| + 1)
    && SameBelow(b, b1, h.offStruct)
    && b1[h1.offStrings..h1.offStrings + h.sizeStrings] == b[|b| - h.sizeStrings..|b|]
  }

  method CloseAndMove(h: Header, buf: array<Byte>, ghost h0: Header, ghost rsv: seq<Reserve>, ghost toks: seq<Token>,
                      ghost log: seq<Entry>)
    requires InStructure(h0, buf[..], rsv, toks, log)
             && h0.offStruct + h0.sizeStruct + 4 + h0.sizeStrings <= h0.totalsize
    requires h == h0.(sizeStruct := h0.sizeStruct + 4)
    modifies buf
    ensures Moved(h0, old(buf[..]), toks, h.(offStrings := h.offStruct + h.sizeStruct), buf[..])
  {
    ghost var b0 := buf[..];
    PutTag(buf, h.offStruct + h.sizeStruct - 4, End);
    ghost var b1 := buf[..];
    AppendToken(h0, b0, h, b1, toks, End);
    var from, to := buf.Length - h.sizeStrings, h.offStruct + h.sizeStruct;
    Move(buf, to, from, h.sizeStrings);
    TableMoved(h0, b0, h, b1, buf[..], toks, to);
  }

  lemma TableMoved(h0: Header, b0: seq<Byte>, h: Header, b1: seq<Byte>, b2: seq<Byte>, toks: seq<Token>, to: nat)
    requires h0.offStruct + h0.sizeStruct + 4 + h0.sizeStrings <= h0.totalsize == |b0|
    requires h == h0.(sizeStruct := h0.sizeStruct + 4) && to == h.offStruct + h.sizeStruct
    requires OnlyChanged(b0, b1, to - 4, 4) && OnlyChanged(b1, b2, to, h.sizeStrings)
    requires Spells(Blob(h, b1), toks + [End]) && h.sizeStruct == Offset(toks + [End], |toks + [End]|)
    requires b2[to..to + h.sizeStrings] == b1[|b1| - h.sizeStrings..|b1| - h.sizeStrings + h.sizeStrings]
    ensures Moved(h0, b0, toks, h.(offStrings := to), b2)
  {
    assert b1[|b1| - h.sizeStrings..|b1|] == b0[|b0| - h.sizeStrings..|b0|];
    SpellsFrame(h, b1, h.(offStrings := to), b2, toks + [End]);
  }

  lemma FixedFrom(h: Header, b: seq<Byte>, rsv: seq<Reserve>, toks: seq<Token>, log: seq<Entry>,
                  h1: Header, b1: seq<Byte>, b2: seq<Byte>, cur: seq<Token>)
    requires InStructure(h, b, rsv, toks, log) && Moved(h, b, toks, h1, b1)
    requires Fixing(h1, b2, toks + [End], cur, |toks| + 1, h.sizeStrings)
             && OnlyChanged(b1, b2, h1.offStruct, h1.sizeStruct)
    ensures Finished(FinalHeader(h1), b2, rsv, cur, log)
  {
    assert b2[h1.offStrings..h1.offStrings + h.sizeStrings] == b1[h1.offStrings..h1.offStrings + h.sizeStrings];
    FinishedFrom(h, b, rsv, toks, log, h1, b2, cur);
  }

  class Writer {
    const buf: array<Byte>
    var h: Header
    ghost var rsv: seq<Reserve>
    ghost var toks: seq<Token>
    ghost var log: seq<Entry>     // the successful calls since the reserve map was closed

    ghost function Bytes(): (b: seq<Byte>)
      reads buf
      ensures b == buf[..]
    {
      buf[..]
    }

    ghost predicate Reserving()
      reads this, buf
    {
      InReserveMap(h, Bytes(), rsv)
    }

    ghost predicate Building()
      reads this, buf
    {
      InStructure(h, Bytes(), rsv, toks, log)
    }

    constructor (buf: array<Byte>)
      ensures this.buf == buf
    {
      this.buf := buf;
      h := Header(0, 0, 0, 0, 0, 0, 0, 0, 0);
    }

    method Create(flags: U32) returns (err: int)
      requires buf.Length <= INT_MAX
      modifies this, buf
      ensures err == if buf.Length < RESERVE_MAP_START then -FDT_ERR_NOSPACE else if flags > 1 then -FDT_ERR_BADFLAGS
              else 0
      ensures err == 0 ==> Reserving() && rsv == [] && h.lastComp == flags
      ensures err != 0 ==> h == old(h) && Bytes() == old(Bytes())
    {
      if buf.Length < RESERVE_MAP_START {
        return -FDT_ERR_NOSPACE;
      }
      if flags > FDT_CREATE_FLAG_NO_NAME_DEDUP {
        return -FDT_ERR_BADFLAGS;
      }
      forall k | 0 <= k < buf.Length {
        buf[k] := 0;
      }
      h := Header(FDT_SW_MAGIC, buf.Length, RESERVE_MAP_START, 0, RESERVE_MAP_START, FDT_LAST_SUPPORTED_VERSION,
                  flags, 0, 0);
      rsv := [];
      return 0;
    }

    method AddReservemapEntry(address: U64, size: U64) returns (err: int)
      requires Reserving()
      modifies this`h, this`rsv, buf
      ensures Reserving()
      ensures err == if old(h.offStruct) + 16 > h.totalsize then -FDT_ERR_NOSPACE else 0
      ensures rsv == if err == 0 then old(rsv) + [Reserve(address, size)] else old(rsv)
      ensures err == 0 ==> h == old(h).(offStruct := h.offStruct)
      ensures err != 0 ==> h == old(h) && Bytes() == old(Bytes())
    {
      var offset := h.offStruct;
      if offset + 16 > h.totalsize {
        return -FDT_ERR_NOSPACE;
      }
      ghost var was := Bytes();
      PutReserve(buf, offset, Reserve(address, size));
      h := h.(offStruct := offset + 16);
      ReservesFrame(was, Bytes(), rsv);
      ReservesOneMore(Bytes(), rsv, Reserve(address, size));
      rsv := rsv + [Reserve(address, size)];
      return 0;
    }

    /** Closes the reserve map with an empty entry. */
    method FinishReservemap() returns (err: int)
      requires Reserving()
      modifies this`h, this`rsv, this`toks, this`log, buf
      ensures err == if old(h.offStruct) + 16 > h.totalsize then -FDT_ERR_NOSPACE else 0
      ensures err == 0 ==>
                && Building() && toks == [] && log == []
                && rsv == old(rsv) + [Reserve(0, 0)] && h.lastComp == old(h.lastComp)
      ensures err != 0 ==> Reserving() && h == old(h) && rsv == old(rsv) && Bytes() == old(Bytes())
    {
      err := AddReservemapEntry(0, 0);
      if err != 0 {
        return err;
      }
      h := h.(offStrings := h.totalsize);
      toks, log := [], [];
      return 0;
    }

    /** Room for `len` more bytes of structure: where they go, or nothing. */
    method GrabSpace(len: nat) returns (r: Option<nat>)
      requires h.offStruct + h.sizeStruct + h.sizeStrings <= h.totalsize
      modifies this`h
      ensures r.Some? <==> old(h.offStruct + h.sizeStruct + h.sizeStrings) + len <= h.totalsize
      ensures r.Some? ==>
                r.value == old(h.offStruct + h.sizeStruct) && h == old(h).(sizeStruct := old(h.sizeStruct) + len)
      ensures r.None? ==> h == old(h)
    {
      var offset := h.sizeStruct;
      var spaceleft := h.totalsize - h.offStruct - h.sizeStrings;
      if offset + len > spaceleft {
        return None;
      }
      h := h.(sizeStruct := offset + len);
      return Some(h.offStruct + offset);
    }

    method BeginNode(name: seq<Byte>) returns (err: int)
      requires Building() && CString(name)
      modifies this`h, this`toks, this`log, buf
      ensures Building() && rsv == old(rsv)
      ensures err == if old(h.offStruct + h.sizeStruct + h.sizeStrings) + Size(FdtFormat.BeginNode(name)) > h.totalsize
                     then -FDT_ERR_NOSPACE else 0
      ensures err == 0 ==> log == old(log) + [OpenNode(name)]
      ensures err != 0 ==> log == old(log) && toks == old(toks) && h == old(h) && Bytes() == old(Bytes())
    {
      ghost var t := FdtFormat.BeginNode(name);
      ghost var h0, b0, toks0, log0 := h, Bytes(), toks, log;
      TagAlignAfter(1, |name| + 1);
      var p := GrabSpace(4 + TagAlign(|name| + 1));
      if p.None? {
        return -FDT_ERR_NOSPACE;
      }
      toks, log := toks + [t], log + [OpenNode(name)];
      PutBeginNode(buf, p.value, name);
      OneMoreCall(h0, b0, h, Bytes(), rsv, toks0, log0, t, OpenNode(name));
      return 0;
    }

    method EndNode() returns (err: int)
      requires Building()
      modifies this`h, this`toks, this`log, buf
      ensures Building() && rsv == old(rsv)
      ensures err == if old(h.offStruct + h.sizeStruct + h.sizeStrings) + 4 > h.totalsize then -FDT_ERR_NOSPACE else 0
      ensures err == 0 ==> log == old(log) + [CloseNode]
      ensures err != 0 ==> log == old(log) && toks == old(toks) && h == old(h) && Bytes() == old(Bytes())
    {
      ghost var h0, b0, toks0, log0 := h, Bytes(), toks, log;
      var p := GrabSpace(4);
      if p.None? {
        return -FDT_ERR_NOSPACE;
      }
      toks, log := toks + [FdtFormat.EndNode], log + [CloseNode];
      PutTag(buf, p.value, FdtFormat.EndNode);
      OneMoreCall(h0, b0, h, Bytes(), rsv, toks0, log0, FdtFormat.EndNode, CloseNode);
      return 0;
    }

    // ---- names and properties -------------------------------------------------------

    /** The first place in the string table, counted from its start, where `s` stands. */
    method FindString(s: seq<Byte>) returns (r: Option<nat>)
      requires h.sizeStrings <= buf.Length && CString(s)
      ensures r.Some? ==> FirstString(Bytes(), buf.Length - h.sizeStrings, buf.Length, s,
                                      buf.Length - h.sizeStrings + r.value)
      ensures r.None? ==> NoString(Bytes(), buf.Length - h.sizeStrings, buf.Length, s)
    {
      var tab := buf.Length - h.sizeStrings;
      var p := 0;
      while p + |s| + 1 <= h.sizeStrings
        invariant forall q :: tab <= q < tab + p ==> !StringAt(Bytes(), q, buf.Length, s)
        decreases h.sizeStrings - p
      {
        if buf[tab + p..tab + p + |s|] == s && buf[tab + p + |s|] == 0 {
          assert StringAt(Bytes(), tab + p, buf.Length, s);
          return Some(p);
        }
        assert !StringAt(Bytes(), tab + p, buf.Length, s);
        p := p + 1;
      }
      return None;
    }

    /** Puts a name in front of the string table: its distance from the end, or 0 for no room.  The name is no
        longer than what is left behind the table: by `RoomTestIsRight`, just when the test for room can be relied
        on. */
    method AddString(s: seq<Byte>) returns (offset: nat)
      requires CString(s) && h.totalsize == buf.Length
      requires h.offStruct + h.sizeStruct + h.sizeStrings <= h.totalsize && h.sizeStrings + |s| + 1 <= h.totalsize
      modifies this`h, buf
      ensures offset == if old(h.offStruct + h.sizeStruct + h.sizeStrings) + |s| + 1 > h.totalsize then 0
                        else old(h.sizeStrings) + |s| + 1
      ensures offset == 0 ==> h == old(h) && Bytes() == old(Bytes())
      ensures offset > 0 ==>
                && h == old(h).(sizeStrings := old(h.sizeStrings) + |s| + 1)
                && OnlyChanged(old(Bytes()), Bytes(), buf.Length - offset, |s| + 1)
                && StringAt(Bytes(), buf.Length - offset, buf.Length, s)
    {
      var len := |s| + 1;
      var top := h.offStruct + h.sizeStruct;
      offset := h.sizeStrings + len;
      if Refuses(h.totalsize, h.sizeStrings, top, len) {
        return 0;
      }
      CopyIn(buf, buf.Length - offset, s + [0]);
      h := h.(sizeStrings := offset);
      StringWritten(Bytes(), buf.Length - offset, s);
    }

    /** A name that is there already, or a new one: its distance from the end, or 0 for no room. */
    method FindAddString(s: seq<Byte>) returns (offset: nat, added: bool)
      requires CString(s) && h.totalsize == buf.Length
      requires h.offStruct + h.sizeStruct + h.sizeStrings <= h.totalsize
      requires NoString(Bytes(), buf.Length - h.sizeStrings, buf.Length, s) ==> h.sizeStrings + |s| + 1 <= h.totalsize
      modifies this`h, buf
      ensures added <==> NoString(old(Bytes()), buf.Length - old(h.sizeStrings), buf.Length, s)
      ensures offset == 0 <==> added && old(h.offStruct + h.sizeStruct + h.sizeStrings) + |s| + 1 > h.totalsize
      ensures offset == 0 || !added ==> h == old(h) && Bytes() == old(Bytes())
      ensures offset > 0 && added ==>
                && h == old(h).(sizeStrings := old(h.sizeStrings) + |s| + 1)
                && OnlyChanged(old(Bytes()), Bytes(), buf.Length - h.sizeStrings, |s| + 1)
      ensures offset > 0 ==> offset <= h.sizeStrings && StringAt(Bytes(), buf.Length - offset, buf.Length, s)
    {
      var p := FindString(s);
      if p.Some? {
        return h.sizeStrings - p.value, false;
      }
      offset := AddString(s);
      return offset, true;
    }

    /** The name of a new property, shared with others unless the caller asked for no sharing. */
    method PropertyName(s: seq<Byte>) returns (offset: nat, added: bool)
      requires CString(s) && h.totalsize == buf.Length
      requires h.offStruct + h.sizeStruct + h.sizeStrings <= h.totalsize
      requires h.sizeStrings + NameCost(h, Bytes(), s) <= h.totalsize
      modifies this`h, buf
      ensures NameCost(old(h), old(Bytes()), s) == if added then |s| + 1 else 0
      ensures offset == 0 <==> added && old(h.offStruct + h.sizeStruct + h.sizeStrings) + |s| + 1 > h.totalsize
      ensures offset == 0 || !added ==> h == old(h) && Bytes() == old(Bytes())
      ensures offset > 0 && added ==>
                && h == old(h).(sizeStrings := old(h.sizeStrings) + |s| + 1)
                && OnlyChanged(old(Bytes()), Bytes(), buf.Length - h.sizeStrings, |s| + 1)
      ensures offset > 0 ==> offset <= h.sizeStrings && StringAt(Bytes(), buf.Length - offset, buf.Length, s)
    {
      if h.lastComp == FDT_CREATE_FLAG_NO_NAME_DEDUP {
        offset := AddString(s);
        return offset, true;
      }
      offset, added := FindAddString(s);
    }

    /** The property's token, its name standing `offset` bytes before the end. */
    method PropertyToken(name: seq<Byte>, value: seq<Byte>, offset: nat) returns (err: int)
      requires Building() && |value| <= INT_MAX
      requires 0 < offset <= h.sizeStrings && StringAt(Bytes(), buf.Length - offset, buf.Length, name)
      modifies this`h, this`toks, this`log, buf
      ensures Building() && rsv == old(rsv)
      ensures err == if old(h.offStruct + h.sizeStruct + h.sizeStrings) + Size(Prop(0, value)) > h.totalsize
                     then -FDT_ERR_NOSPACE else 0
      ensures err == 0 ==> log == old(log) + [Entry.Property(name, value)]
      ensures err != 0 ==> log == old(log) && toks == old(toks) && h == old(h) && Bytes() == old(Bytes())
    {
      ghost var h0, b0, toks0, log0 := h, Bytes(), toks, log;
      ghost var t := Prop(0x1_0000_0000 - offset, value);
      var len := 12 + TagAlign(|value|);
      assert len == Size(t) == Size(Prop(0, value)) by { TagAlignAfter(3, |value|); }
      var p := GrabSpace(len);
      if p.None? {
        return -FDT_ERR_NOSPACE;
      }
      toks, log := toks + [t], log + [Entry.Property(name, value)];
      PutProperty(buf, p.value, 0x1_0000_0000 - offset, value);
      OneMoreProperty(h0, b0, h, Bytes(), rsv, toks0, log0, offset, name, value);
      return 0;
    }

    /** One property.  Without room for it, a name that was just added is taken out again. */
    method Property(name: seq<Byte>, value: seq<Byte>) returns (err: int)
      requires Building() && CString(name) && |value| <= INT_MAX
      requires h.sizeStrings + NameCost(h, Bytes(), name) <= h.totalsize
      modifies this`h, this`toks, this`log, buf
      ensures Building() && rsv == old(rsv)
      ensures err == if old(h.offStruct + h.sizeStruct + h.sizeStrings) + NameCost(old(h), old(Bytes()), name)
                        + Size(Prop(0, value)) > h.totalsize
                     then -FDT_ERR_NOSPACE else 0
      ensures err == 0 ==> log == old(log) + [Entry.Property(name, value)]
      ensures err != 0 ==> log == old(log) && toks == old(toks) && h == old(h)
    {
      ghost var h0, b0 := h, Bytes();
      var offset, added := PropertyName(name);
      if offset == 0 {
        return -FDT_ERR_NOSPACE;
      }
      OtherNames(h0, b0, h, Bytes(), rsv, toks, log);
      err := PropertyToken(name, value, offset);
      if err != 0 {
        if added {
          h := h.(sizeStrings := h.sizeStrings - (|name| + 1));
        }
        OtherNames(h0, b0, h, Bytes(), rsv, toks, log);
        return -FDT_ERR_NOSPACE;
      }
    }

    ghost predicate Complete()
      reads this, buf
    {
      Finished(h, Bytes(), rsv, toks, log)
    }

    /** Closes the structure block, moves the string table behind it and corrects every name offset. */
    method Finish() returns (err: int)
      requires Building()
      modifies this`h, this`toks, buf
      ensures err == if old(h.offStruct + h.sizeStruct + h.sizeStrings) + 4 > old(h.totalsize) then -FDT_ERR_NOSPACE
              else 0
      ensures err == 0 ==> Complete() && h.totalsize == old(h.offStruct + h.sizeStruct + h.sizeStrings) + 4
      ensures err != 0 ==> Building() && h == old(h) && toks == old(toks) && Bytes() == old(Bytes())
    {
      ghost var h0, b0, all := h, Bytes(), toks + [End];
      EndIsLast(b0, h0.sizeStrings, toks, log);
      var p := GrabSpace(4);
      if p.None? {
        return -FDT_ERR_NOSPACE;
      }
      var offset := h.offStruct + h.sizeStruct;
      CloseAndMove(h, buf, h0, rsv, toks, log);
      ghost var b2 := Bytes();
      h := h.(offStrings := offset);
      ghost var cur;
      var next;
      cur, next := FixNames(h, buf, all);
      if next < 0 {
        return next;
      }
      FixedFrom(h0, b0, rsv, toks, log, h, b2, Bytes(), cur);
      toks := cur;
      h := FinalHeader(h);
      return 0;
    }
  }

  lemma StringWritten(b: seq<Byte>, p: nat, s: seq<Byte>)
    requires CString(s) && p + |s| + 1 <= |b| && b[p..p + |s + [0]|] == s + [0]
    ensures StringAt(b, p, |b|, s)
  {
    var t := b[p..p + |s + [0]|];
    assert b[p..p + |s|] == t[..|s|] == s;
    assert b[p + |s|] == t[|s|] == 0;
  }

  /** The test for room in the string table, in 32-bit arithmetic. */
  predicate Refuses(totalsize: nat, sizeStrings: nat, top: nat, len: nat) {
    (totalsize - (sizeStrings + len)) % 0x1_0000_0000 < top
  }

  /** There is room when the new name ends before the structure block begins. */
  predicate HasRoom(totalsize: nat, sizeStrings: nat, top: nat, len: nat) {
    top + sizeStrings + len <= totalsize
  }

  /** The test says what it should exactly for names that would fit if the structure block were not there. */
  lemma RoomTestIsRight(totalsize: nat, sizeStrings: nat, top: nat, len: nat)
    requires top + sizeStrings <= totalsize < 0x1_0000_0000 && 0 < len < 0x1_0000_0000
    ensures (Refuses(totalsize, sizeStrings, top, len) <==> !HasRoom(totalsize, sizeStrings, top, len))
            <==> sizeStrings + len <= totalsize
  {
    var d := totalsize - (sizeStrings + len);
    if d < 0 {
      assert d % 0x1_0000_0000 == d + 0x1_0000_0000;
    } else {
      assert d % 0x1_0000_0000 == d;
    }
  }

  /** A name of 199 characters in a buffer of 100 bytes: the difference wraps, and the name is not refused. */
  lemma LongNameIsNotRefused()
    ensures !Refuses(100, 0, 64, 200) && !HasRoom(100, 0, 64, 200)
  {
    assert (100 - 200) % 0x1_0000_0000 == 0x1_0000_0000 - 100;
  }
}
