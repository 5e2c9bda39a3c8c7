/** Walking the structure block of a device tree blob. */
module Fdt {
  import opened Collections
  import opened FdtFormat

  // ---- reading one token ----------------------------------------------------------

  predicate TagIs(d: Blob, start: nat, tag: U32)
    requires Readable(d)
  {
    InStruct(d.h, start, 4) && Get32(d.b, d.h.offStruct + start) == tag
  }

  predicate NoZero(b: seq<Byte>, from: nat, to: nat) {
    to <= |b| && forall k :: from <= k < to ==> b[k] != 0
  }

  lemma TokenHasTag(d: Blob, start: nat, t: Token)
    requires Readable(d) && TokenAt(d, start, t)
    ensures TagIs(d, start, Tag(t)) && Fields(d.b, d.h.offStruct + start, t)
  {
    TokenFields(d.b, d.h.offStruct + start, t);
  }

  lemma NoSuchTag(d: Blob, start: nat, tag: U32)
    requires Readable(d) && TagIs(d, start, tag)
    requires tag != FDT_BEGIN_NODE && tag != FDT_PROP && tag != FDT_END && tag != FDT_END_NODE && tag != FDT_NOP
    ensures TokenOf(d, start) == None
  {
    var r := TokenOf(d, start);
    if r.Some? { TokenHasTag(d, start, r.value); }
  }

  lemma PlainTag(d: Blob, start: nat, t: Token)
    requires Readable(d) && (t == End || t == EndNode || t == Nop) && TagIs(d, start, Tag(t))
    ensures TokenOf(d, start) == Some(t)
  {
    TokenFields(d.b, d.h.offStruct + start, t);
    assert TokenAt(d, start, t);
  }

  /** The name ends at the first zero byte. */
  lemma NameFound(d: Blob, start: nat, end: nat)
    requires Readable(d) && TagIs(d, start, FDT_BEGIN_NODE) && start + 4 <= end && InStruct(d.h, end, 1)
    requires d.b[d.h.offStruct + end] == 0
    requires NoZero(d.b, d.h.offStruct + start + 4, d.h.offStruct + end)
    ensures TokenOf(d, start) == Some(BeginNode(d.b[d.h.offStruct + start + 4..d.h.offStruct + end]))
  {
    var name := d.b[d.h.offStruct + start + 4..d.h.offStruct + end];
    TokenFields(d.b, d.h.offStruct + start, BeginNode(name));
    assert TokenAt(d, start, BeginNode(name));
  }

  lemma NameReachesZero(d: Blob, start: nat, end: nat)
    requires Readable(d) && TagIs(d, start, FDT_BEGIN_NODE) && start + 4 <= end && TokenOf(d, start).Some?
    requires NoZero(d.b, d.h.offStruct + start + 4, d.h.offStruct + end)
    ensures InStruct(d.h, end, 1)
  {
    var t := TokenOf(d, start).value;
    TokenHasTag(d, start, t);
    var zero := start + 4 + |t.name|;
    assert d.b[d.h.offStruct + zero] == 0;
    assert end <= zero;
  }

  /** There is no node when the block ends inside its name. */
  lemma NameMissing(d: Blob, start: nat, end: nat)
    requires Readable(d) && TagIs(d, start, FDT_BEGIN_NODE) && start + 4 <= end && !InStruct(d.h, end, 1)
    requires NoZero(d.b, d.h.offStruct + start + 4, d.h.offStruct + end)
    ensures TokenOf(d, start) == None
  {
    if TokenOf(d, start).Some? { NameReachesZero(d, start, end); }
  }

  lemma PropReaches(d: Blob, start: nat, len: U32)
    requires Readable(d) && TagIs(d, start, FDT_PROP) && InStruct(d.h, start + 4, 4)
    requires len == Get32(d.b, d.h.offStruct + start + 4) && TokenOf(d, start).Some?
    ensures InStruct(d.h, start, 12 + len)
  {
    var t := TokenOf(d, start).value;
    TokenHasTag(d, start, t);
    assert |t.value| == len;
  }

  lemma PropAt(d: Blob, start: nat, t: Token)
    requires Readable(d) && t.Prop? && InStruct(d.h, start, RawSize(t)) && Fields(d.b, d.h.offStruct + start, t)
    ensures TokenOf(d, start) == Some(t)
  {
    TokenFields(d.b, d.h.offStruct + start, t);
    assert TokenAt(d, start, t);
  }

  lemma PropFound(d: Blob, start: nat, len: U32)
    requires Readable(d) && TagIs(d, start, FDT_PROP) && InStruct(d.h, start + 4, 4)
    requires len == Get32(d.b, d.h.offStruct + start + 4)
    ensures TokenOf(d, start) ==
              if InStruct(d.h, start, 12 + len)
              then (var p := d.h.offStruct + start; Some(Prop(Get32(d.b, p + 8), d.b[p + 12..p + 12 + len])))
              else None
  {
    var p := d.h.offStruct + start;
    if InStruct(d.h, start, 12 + len) {
      var t := Prop(Get32(d.b, p + 8), d.b[p + 12..p + 12 + len]);
      PropAt(d, start, t);
    } else if TokenOf(d, start).Some? {
      PropReaches(d, start, len);
    }
  }

  lemma PropMissing(d: Blob, start: nat)
    requires Readable(d) && TagIs(d, start, FDT_PROP) && !InStruct(d.h, start + 4, 4)
    ensures TokenOf(d, start) == None
  {
    var r := TokenOf(d, start);
    if r.Some? { TokenHasTag(d, start, r.value); }
  }

  /** What a step of the walk answers: the token's tag and where the next one starts, or the end tag
      and why there is no token. */
  ghost predicate Stepped(d: Blob, start: nat, tag: U32, next: int)
    requires Readable(d)
  {
    match TokenOf(d, start)
    case Some(t) => tag == Tag(t) && next == TagAlign(start + RawSize(t))
    case None => tag == FDT_END && next == if InStruct(d.h, start, 4) then -FDT_ERR_BADSTRUCTURE else -FDT_ERR_TRUNCATED
  }

  method NextTag(d: Blob, start: int) returns (tag: U32, next: int)
    requires Readable(d) && start <= INT_MAX
    ensures start < 0 ==> tag == FDT_END && next == -FDT_ERR_TRUNCATED
    ensures start >= 0 ==> Stepped(d, start, tag, next)
  {
    OffsetPtrIsBounds(d.h, start, 4);
    if !OffsetPtr(d.h, start, 4) {
      if start >= 0 { NothingPastEnd(d, start); }
      return FDT_END, -FDT_ERR_TRUNCATED;
    }
    tag := Get32(d.b, d.h.offStruct + start);
    if tag == FDT_BEGIN_NODE {
      next := SkipName(d, start);
      if next < 0 {
        return FDT_END, next;
      }
    } else if tag == FDT_PROP {
      next := SkipProperty(d, start);
      if next < 0 {
        return FDT_END, next;
      }
    } else if tag == FDT_END || tag == FDT_END_NODE || tag == FDT_NOP {
      PlainTag(d, start, if tag == FDT_END then End else if tag == FDT_END_NODE then EndNode else Nop);
      next := start + 4;
    } else {
      NoSuchTag(d, start, tag);
      return FDT_END, -FDT_ERR_BADSTRUCTURE;
    }
    OffsetPtrIsBounds(d.h, start, next - start);
    if !OffsetPtr(d.h, start, next - start) {
      return FDT_END, -FDT_ERR_BADSTRUCTURE;
    }
    return tag, TagAlign(next);
  }

  lemma NothingPastEnd(d: Blob, start: nat)
    requires Readable(d) && !InStruct(d.h, start, 4)
    ensures TokenOf(d, start) == None
  {
    if TokenOf(d, start).Some? { TokenHasTag(d, start, TokenOf(d, start).value); }
  }

  /** The byte behind the name of a node. */
  method SkipName(d: Blob, start: nat) returns (next: int)
    requires Readable(d) && TagIs(d, start, FDT_BEGIN_NODE)
    ensures next < 0 ==> next == -FDT_ERR_BADSTRUCTURE && TokenOf(d, start) == None
    ensures next >= 0 ==> TokenOf(d, start).Some? && TokenOf(d, start).value.BeginNode?
                          && next == start + RawSize(TokenOf(d, start).value)
  {
    var offset := start + 4;
    while true
      invariant start + 4 <= offset && d.h.offStruct + offset <= d.h.totalsize
      invariant NoZero(d.b, d.h.offStruct + start + 4, d.h.offStruct + offset)
      decreases d.h.totalsize - offset
    {
      OffsetPtrIsBounds(d.h, offset, 1);
      if !OffsetPtr(d.h, offset, 1) {
        NameMissing(d, start, offset);
        return -FDT_ERR_BADSTRUCTURE;
      }
      if d.b[d.h.offStruct + offset] == 0 {
        NameFound(d, start, offset);
        return offset + 1;
      }
      offset := offset + 1;
    }
  }

  /** The overflow check on a property's length is a plain bound. */
  lemma SumOverflows(len: U32, offset: nat)
    requires offset <= INT_MAX
    ensures var sum := (len + offset) % 0x1_0000_0000; INT_MAX <= sum || sum < offset <==> INT_MAX <= len + offset
  {
    if len + offset >= 0x1_0000_0000 {
      assert (len + offset) % 0x1_0000_0000 == len + offset - 0x1_0000_0000;
    }
  }

  /** The byte behind the value of a property; the length is checked for overflow only. */
  method SkipProperty(d: Blob, start: nat) returns (next: int)
    requires Readable(d) && TagIs(d, start, FDT_PROP)
    ensures next < 0 ==> next == -FDT_ERR_BADSTRUCTURE && TokenOf(d, start) == None
    ensures next >= 0 ==>
              && start + 12 <= next < start + 0x1_0000_0000
              && TokenOf(d, start).Some? == InStruct(d.h, start, next - start)
              && (TokenOf(d, start).Some? ==> TokenOf(d, start).value.Prop?
                                              && next == start + RawSize(TokenOf(d, start).value))
  {
    var offset := start + 4;
    OffsetPtrIsBounds(d.h, offset, 4);
    if !OffsetPtr(d.h, offset, 4) {
      PropMissing(d, start);
      return -FDT_ERR_BADSTRUCTURE;
    }
    var len := Get32(d.b, d.h.offStruct + offset);
    PropFound(d, start, len);
    SumOverflows(len, offset);
    var sum := (len + offset) % 0x1_0000_0000;
    if INT_MAX <= sum || sum < offset {
      return -FDT_ERR_BADSTRUCTURE;
    }
    return offset + 8 + len;
  }

  // ---- sequences of tokens --------------------------------------------------------

  /** Where token `i` starts. */
  ghost function Offset(toks: seq<Token>, i: nat): nat
    requires i <= |toks|
  {
    if i == 0 then 0 else Offset(toks, i - 1) + Size(toks[i - 1])
  }

  /** The structure block starts with these tokens, one right behind the other. */
  ghost predicate Spells(d: Blob, toks: seq<Token>) {
    forall i :: 0 <= i < |toks| ==> SpeltAt(d, toks, i)
  }

  ghost predicate SpeltAt(d: Blob, toks: seq<Token>, i: nat)
    requires i < |toks|
  {
    TokenAt(d, Offset(toks, i), toks[i])
  }

  lemma {:induction false} OffsetOfPrefix(toks: seq<Token>, more: seq<Token>, i: nat)
    requires i <= |toks|
    ensures Offset(toks + more, i) == Offset(toks, i)
  {
    if i > 0 { OffsetOfPrefix(toks, more, i - 1); }
  }

  lemma {:induction false} OffsetGrows(toks: seq<Token>, i: nat, j: nat)
    requires i <= j <= |toks|
    ensures Offset(toks, i) <= Offset(toks, j)
    ensures i < j ==> Offset(toks, i) + Size(toks[i]) <= Offset(toks, j)
  {
    if i < j { OffsetGrows(toks, i, j - 1); }
  }

  lemma TokenEnds(toks: seq<Token>, i: nat)
    requires i < |toks|
    ensures Offset(toks, i) + RawSize(toks[i]) <= Offset(toks, |toks|)
  {
    OffsetGrows(toks, i, |toks|);
  }

  lemma SpeltInLonger(d: Blob, toks: seq<Token>, t: Token, i: nat)
    requires i < |toks| && SpeltAt(d, toks, i)
    ensures SpeltAt(d, toks + [t], i)
  {
    OffsetOfPrefix(toks, [t], i);
  }

  lemma SpellsOneMore(d: Blob, toks: seq<Token>, t: Token, off: nat)
    requires Spells(d, toks) && off == Offset(toks, |toks|) && TokenAt(d, off, t)
    ensures Spells(d, toks + [t])
  {
    OffsetOfPrefix(toks, [t], |toks|);
    assert SpeltAt(d, toks + [t], |toks|);
    forall i | 0 <= i < |toks + [t]| ensures SpeltAt(d, toks + [t], i) {
      if i < |toks| { SpeltInLonger(d, toks, t, i); } else { assert i == |toks|; }
    }
  }

  /** A step of the walk goes from each token to the next. */
  lemma StepIsNext(d: Blob, toks: seq<Token>, i: nat, tag: U32, next: int)
    requires Readable(d) && Spells(d, toks) && i < |toks|
    ensures TokenOf(d, Offset(toks, i)) == Some(toks[i])
    ensures Stepped(d, Offset(toks, i), tag, next) <==> tag == Tag(toks[i]) && next == Offset(toks, i + 1)
    ensures Offset(toks, i) <= INT_MAX
  {
    var off := Offset(toks, i);
    assert SpeltAt(d, toks, i);
    PaddedEnd(toks, i, toks[i]);
  }

  /** Every token starts at a multiple of 4. */
  lemma {:induction false} OffsetAligned(toks: seq<Token>, i: nat) returns (words: nat)
    requires i <= |toks|
    ensures Offset(toks, i) == 4 * words
  {
    if i == 0 {
      words := 0;
    } else {
      words := OffsetAligned(toks, i - 1);
      var more := AlignedWords(RawSize(toks[i - 1]));
      words := words + more;
    }
  }

  lemma {:induction false} AlignedWords(n: nat) returns (words: nat)
    ensures TagAlign(n) == 4 * words
  {
    if n == 0 {
      words := 0;
    } else if n <= 4 {
      words := 1;
    } else {
      words := AlignedWords(n - 4);
      words := words + 1;
    }
  }

  /** Behind the tokens so far, the end of one more is rounded up by its own padding. */
  lemma PaddedEnd(toks: seq<Token>, i: nat, t: Token)
    requires i <= |toks|
    ensures TagAlign(Offset(toks, i) + RawSize(t)) == Offset(toks, i) + Size(t)
  {
    var words := OffsetAligned(toks, i);
    TagAlignAfter(words, RawSize(t));
  }

  lemma OffsetIsInt(d: Blob, toks: seq<Token>, i: nat)
    requires Readable(d) && Spells(d, toks) && i < |toks|
    ensures Offset(toks, i) <= INT_MAX
  {
    assert SpeltAt(d, toks, i);
  }

  /** Only one sequence of a given length can be there. */
  lemma {:induction false} SpellsUnique(d: Blob, toks: seq<Token>, toks': seq<Token>, n: nat)
    requires Spells(d, toks) && Spells(d, toks') && n <= |toks| && n <= |toks'|
    ensures Offset(toks, n) == Offset(toks', n)
    ensures forall k :: 0 <= k < n ==> toks[k] == toks'[k]
  {
    if n > 0 {
      SpellsUnique(d, toks, toks', n - 1);
      SameTokenAt(d, toks, toks', n - 1);
    }
  }

  lemma SameTokenAt(d: Blob, toks: seq<Token>, toks': seq<Token>, i: nat)
    requires i < |toks| && i < |toks'| && SpeltAt(d, toks, i) && SpeltAt(d, toks', i)
    requires Offset(toks, i) == Offset(toks', i)
    ensures toks[i] == toks'[i]
  {
    TokenUnique(d.b, d.h.offStruct + Offset(toks, i), toks[i], toks'[i]);
  }
}
