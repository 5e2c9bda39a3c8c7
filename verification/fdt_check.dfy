/** The structural validator, and what it accepts. */
module FdtCheck {
  import opened Collections
  import opened FdtFormat
  import opened Fdt
  import opened FdtRo

  // ---- the header -----------------------------------------------------------------

  function HeaderSize(version: U32): nat {
    if version <= 1 then 28 else if version <= 2 then 32 else if version <= 16 then 36 else HEADER_SIZE
  }

  /** The block of `size` bytes at `base` lies behind the header and inside the blob. */
  predicate BlockInside(h: Header, base: nat, size: nat) {
    HeaderSize(h.version) <= base && base + size <= h.totalsize
  }

  /** What a sound header says, in unbounded arithmetic. */
  predicate HeaderSound(h: Header) {
    && h.magic == FDT_MAGIC
    && h.version >= FDT_FIRST_SUPPORTED_VERSION && h.lastComp <= FDT_LAST_SUPPORTED_VERSION && h.lastComp <= h.version
    && HeaderSize(h.version) <= h.totalsize <= INT_MAX
    && BlockInside(h, h.offRsvmap, 0)
    && BlockInside(h, h.offStruct, if h.version >= 17 then h.sizeStruct else 0)
    && BlockInside(h, h.offStrings, h.sizeStrings)
  }

  predicate CheckOff(hdrsize: nat, totalsize: U32, off: U32) { hdrsize <= off <= totalsize }

  predicate CheckBlock(hdrsize: nat, totalsize: U32, base: U32, size: U32) {
    && CheckOff(hdrsize, totalsize, base)
    && (base + size) % 0x1_0000_0000 >= base
    && CheckOff(hdrsize, totalsize, (base + size) % 0x1_0000_0000)
  }

  lemma CheckBlockIsInside(h: Header, base: U32, size: U32)
    ensures CheckBlock(HeaderSize(h.version), h.totalsize, base, size) <==> BlockInside(h, base, size)
  {
    if base + size >= 0x1_0000_0000 { assert (base + size) % 0x1_0000_0000 == base + size - 0x1_0000_0000; }
  }

  method CheckHeader(h: Header) returns (err: int)
    ensures err == 0 <==> HeaderSound(h)
    ensures err <= 0
  {
    if h.magic != FDT_MAGIC {
      return -FDT_ERR_BADMAGIC;
    }
    if h.version < FDT_FIRST_SUPPORTED_VERSION || h.lastComp > FDT_LAST_SUPPORTED_VERSION || h.version < h.lastComp {
      return -FDT_ERR_BADVERSION;
    }
    var hdrsize := HeaderSize(h.version);
    if h.totalsize < hdrsize || h.totalsize > INT_MAX || !CheckOff(hdrsize, h.totalsize, h.offRsvmap) {
      return -FDT_ERR_TRUNCATED;
    }
    CheckBlockIsInside(h, h.offStruct, h.sizeStruct);
    if h.version < 17 {
      if !CheckOff(hdrsize, h.totalsize, h.offStruct) {
        return -FDT_ERR_TRUNCATED;
      }
    } else if !CheckBlock(hdrsize, h.totalsize, h.offStruct, h.sizeStruct) {
      return -FDT_ERR_TRUNCATED;
    }
    CheckBlockIsInside(h, h.offStrings, h.sizeStrings);
    if !CheckBlock(hdrsize, h.totalsize, h.offStrings, h.sizeStrings) {
      return -FDT_ERR_TRUNCATED;
    }
    return 0;
  }

  // ---- the structure --------------------------------------------------------------

  /** How many nodes are open after the first `i` tokens. */
  ghost function Depth(toks: seq<Token>, i: nat): int
    requires i <= |toks|
  {
    if i == 0 then 0
    else Depth(toks, i - 1) + match toks[i - 1] case BeginNode(_) => 1 case EndNode => -1 case _ => 0
  }

  /** What one token may be where it stands: a root has an empty name, no node ends that is not open,
      and every property has a name. */
  ghost predicate Fits(d: Blob, toks: seq<Token>, i: nat)
    requires i < |toks|
  {
    match toks[i]
    case BeginNode(name) => Depth(toks, i) == 0 ==> name == [] && d.h.totalsize < INT_MAX
    case EndNode => Depth(toks, i) > 0
    case Prop(nameoff, _) => exists s :: NameAt(d, nameoff, s)
    case _ => true
  }

  /** Token `i` closes the root. */
  ghost predicate ClosesRoot(toks: seq<Token>, i: nat)
    requires i < |toks|
  {
    toks[i] == EndNode && Depth(toks, i) == 1
  }

  /** A token of the block proper; the root is closed at `rootEnd` and nowhere else. */
  ghost predicate StandsAt(d: Blob, toks: seq<Token>, i: nat, rootEnd: int)
    requires i < |toks|
  {
    toks[i] != End && Fits(d, toks, i) && (ClosesRoot(toks, i) ==> i == rootEnd)
  }

  /** A structure block: tokens that nest, one end token behind them, and nothing else behind the root. */
  ghost predicate WellFormed(d: Blob, toks: seq<Token>) {
    && |toks| > 0 && toks[|toks| - 1] == End && Depth(toks, |toks| - 1) == 0
    && AllStand(d, toks, |toks| - 1, |toks| - 2)
  }

  ghost predicate AllStand(d: Blob, toks: seq<Token>, n: nat, rootEnd: int)
    requires n <= |toks|
  {
    forall i :: 0 <= i < n ==> StandsAt(d, toks, i, rootEnd)
  }

  ghost predicate Sound(d: Blob) {
    exists toks :: Spells(d, toks) && WellFormed(d, toks)
  }

  /** The blob as a whole. */
  ghost predicate Acceptable(d: Blob)
    requires d.h.version >= 16
  {
    && HeaderSound(d.h) && d.h.totalsize <= |d.b|
    && (exists n: nat :: ReserveMapEnds(d, n))
    && Sound(d)
  }

  // ---- the walk -------------------------------------------------------------------

  /** What the walk has seen so far is a proper beginning. */
  ghost predicate Begun(d: Blob, seen: seq<Token>) {
    Spells(d, seen) && AllStand(d, seen, |seen|, |seen| - 1)
  }

  /** The root was the last thing closed. */
  ghost predicate RootClosed(seen: seq<Token>) { |seen| > 0 && ClosesRoot(seen, |seen| - 1) }

  /** Token `t` cannot follow. */
  ghost predicate CannotFollow(d: Blob, seen: seq<Token>, t: Token) {
    || (RootClosed(seen) && t != End)
    || match t
       case BeginNode(name) => Depth(seen, |seen|) == 0 && (name != [] || d.h.totalsize >= INT_MAX)
       case EndNode => Depth(seen, |seen|) <= 0
       case Prop(nameoff, _) => forall s :: !NameAt(d, nameoff, s)
       case End => Depth(seen, |seen|) != 0
       case Nop => false
  }

  lemma {:induction false} DepthOfPrefix(toks: seq<Token>, toks': seq<Token>, i: nat)
    requires i <= |toks| && i <= |toks'| && forall k :: 0 <= k < i ==> toks[k] == toks'[k]
    ensures Depth(toks, i) == Depth(toks', i)
  {
    if i > 0 { DepthOfPrefix(toks, toks', i - 1); }
  }

  /** Any structure that is accepted goes on with what the walk reads next. */
  lemma MustFollow(d: Blob, seen: seq<Token>, toks: seq<Token>)
    requires Begun(d, seen) && Spells(d, toks) && WellFormed(d, toks)
    ensures |seen| < |toks| && TokenOf(d, Offset(seen, |seen|)) == Some(toks[|seen|])
    ensures Depth(toks, |seen|) == Depth(seen, |seen|)
    ensures forall k :: 0 <= k < |seen| ==> toks[k] == seen[k]
  {
    MustBeLonger(d, seen, toks);
    SpellsUnique(d, toks, seen, |seen|);
    DepthOfPrefix(toks, seen, |seen|);
    assert SpeltAt(d, toks, |seen|);
  }

  lemma MustBeLonger(d: Blob, seen: seq<Token>, toks: seq<Token>)
    requires Begun(d, seen) && Spells(d, toks) && WellFormed(d, toks)
    ensures |seen| < |toks|
  {
    var last := |toks| - 1;
    if last < |seen| {
      SpellsUnique(d, toks, seen, |toks|);
    }
    assert last < |seen| ==> StandsAt(d, seen, last, |seen| - 1);
  }

  lemma NothingReadable(d: Blob, seen: seq<Token>)
    requires Begun(d, seen) && TokenOf(d, Offset(seen, |seen|)) == None
    ensures !Sound(d)
  {
    if toks :| Spells(d, toks) && WellFormed(d, toks) { MustFollow(d, seen, toks); }
  }

  lemma NothingFollows(d: Blob, seen: seq<Token>, t: Token)
    requires Begun(d, seen) && TokenOf(d, Offset(seen, |seen|)) == Some(t) && CannotFollow(d, seen, t)
    ensures !Sound(d)
  {
    if toks :| Spells(d, toks) && WellFormed(d, toks) {
      MustFollow(d, seen, toks);
      CannotBe(d, seen, toks);
    }
  }

  lemma CannotBe(d: Blob, seen: seq<Token>, toks: seq<Token>)
    requires WellFormed(d, toks) && |seen| < |toks| && forall k :: 0 <= k < |seen| ==> toks[k] == seen[k]
    ensures !CannotFollow(d, seen, toks[|seen|])
  {
    DepthOfPrefix(toks, seen, |seen|);
    if RootClosed(seen) {
      RootClosedIn(d, seen, toks);
    }
    FollowsIn(d, toks, |seen|);
  }

  lemma FollowsIn(d: Blob, toks: seq<Token>, i: nat)
    requires WellFormed(d, toks) && i < |toks|
    ensures Fits(d, toks, i) && (toks[i] == End <==> i == |toks| - 1)
  {
    assert i < |toks| - 1 ==> StandsAt(d, toks, i, |toks| - 2);
  }

  lemma RootClosedIn(d: Blob, seen: seq<Token>, toks: seq<Token>)
    requires RootClosed(seen) && WellFormed(d, toks) && |seen| < |toks|
             && forall k :: 0 <= k < |seen| ==> toks[k] == seen[k]
    ensures |seen| == |toks| - 1
  {
    DepthOfPrefix(toks, seen, |seen| - 1);
    assert StandsAt(d, toks, |seen| - 1, |toks| - 2);
  }

  /** A token stands in a longer sequence as it did, as long as the root is still open. */
  lemma StandsInLonger(d: Blob, seen: seq<Token>, t: Token, i: nat, rootEnd: int)
    requires i < |seen| && StandsAt(d, seen, i, |seen| - 1) && (ClosesRoot(seen, i) ==> i == rootEnd)
    ensures StandsAt(d, seen + [t], i, rootEnd)
  {
    DepthOfPrefix(seen, seen + [t], i);
  }

  lemma NewStands(d: Blob, seen: seq<Token>, t: Token)
    requires t != End && !CannotFollow(d, seen, t)
    ensures StandsAt(d, seen + [t], |seen|, |seen|)
  {
    DepthOfPrefix(seen, seen + [t], |seen|);
  }

  lemma AllStandInLonger(d: Blob, seen: seq<Token>, t: Token, rootEnd: int)
    requires AllStand(d, seen, |seen|, |seen| - 1) && (RootClosed(seen) ==> rootEnd == |seen| - 1)
    ensures AllStand(d, seen + [t], |seen|, rootEnd)
  {
    var now := seen + [t];
    forall i | 0 <= i < |seen| ensures StandsAt(d, now, i, rootEnd) {
      OneStands(d, seen, t, i, rootEnd);
    }
  }

  lemma OneStands(d: Blob, seen: seq<Token>, t: Token, i: nat, rootEnd: int)
    requires AllStand(d, seen, |seen|, |seen| - 1) && (RootClosed(seen) ==> rootEnd == |seen| - 1) && i < |seen|
    ensures StandsAt(d, seen + [t], i, rootEnd)
  {
    assert StandsAt(d, seen, i, |seen| - 1);
    StandsInLonger(d, seen, t, i, rootEnd);
  }

  lemma OneMoreStands(d: Blob, toks: seq<Token>, n: nat, rootEnd: int)
    requires n < |toks| && AllStand(d, toks, n, rootEnd) && StandsAt(d, toks, n, rootEnd)
    ensures AllStand(d, toks, n + 1, rootEnd)
  {
    forall i | 0 <= i < n + 1 ensures StandsAt(d, toks, i, rootEnd) {
      if i >= n { assert i == n; }
    }
  }

  /** One token more. */
  lemma BegunFurther(d: Blob, seen: seq<Token>, t: Token)
    requires Begun(d, seen) && Spells(d, seen + [t]) && t != End && !CannotFollow(d, seen, t)
    ensures Begun(d, seen + [t]) && Depth(seen + [t], |seen|) == Depth(seen, |seen|)
  {
    DepthOfPrefix(seen, seen + [t], |seen|);
    NewStands(d, seen, t);
    AllStandInLonger(d, seen, t, |seen|);
    OneMoreStands(d, seen + [t], |seen|, |seen|);
  }

  /** The end token completes the structure. */
  lemma EndCompletes(d: Blob, seen: seq<Token>)
    requires Begun(d, seen) && Spells(d, seen + [End]) && Depth(seen, |seen|) == 0
    ensures Sound(d)
  {
    var toks := seen + [End];
    assert Depth(toks, |toks| - 1) == 0 by { DepthOfPrefix(seen, toks, |seen|); }
    var last, rootEnd := |toks| - 1, |toks| - 2;
    forall i | 0 <= i < last ensures StandsAt(d, toks, i, rootEnd) { OneStands(d, seen, End, i, rootEnd); }
    assert toks[|toks| - 1] == End;
    assert WellFormed(d, toks);
  }

  // ---- the validator --------------------------------------------------------------

  /** Accepts a blob exactly when its header is sound, its reserve map ends, and its structure block is
      well formed: properly nested, one end behind everything, an empty root name, a name for every property. */
  method CheckFull(d: Blob) returns (err: int)
    requires d.h.version >= 16
    ensures err == 0 <==> Acceptable(d)
    ensures err <= 0
  {
    var bufsize := |d.b|;
    if bufsize < FDT_V1_SIZE || bufsize < HeaderSize(d.h.version) {
      return -FDT_ERR_TRUNCATED;
    }
    err := CheckHeader(d.h);
    if err != 0 {
      return err;
    }
    if bufsize < d.h.totalsize {
      return -FDT_ERR_TRUNCATED;
    }
    var numMemrsv := NumMemRsv(d);
    if numMemrsv < 0 {
      return numMemrsv;
    }
    err := CheckStructure(d);
  }

  /** The walk over the structure block. */
  method CheckStructure(d: Blob) returns (err: int)
    requires Readable(d) && HeaderSound(d.h)
    ensures err == 0 <==> Sound(d)
    ensures err <= 0
  {
    var nextoffset, depth, expectEnd := 0, 0, false;
    ghost var seen: seq<Token> := [];
    while true
      invariant Begun(d, seen) && nextoffset == Offset(seen, |seen|) <= d.h.totalsize
      invariant 0 <= depth == Depth(seen, |seen|) && depth <= nextoffset
      invariant expectEnd == RootClosed(seen)
      decreases d.h.totalsize - nextoffset
    {
      var offset := nextoffset;
      var tag;
      tag, nextoffset := NextTag(d, offset);
      if nextoffset < 0 {
        NothingReadable(d, seen);
        return nextoffset;
      }
      ghost var t := TokenOf(d, offset).value;
      if expectEnd && tag != FDT_END {
        NothingFollows(d, seen, t);
        return -FDT_ERR_BADSTRUCTURE;
      }
      SpellsOneMore(d, seen, t, offset);
      if tag == FDT_END {
        if depth != 0 {
          NothingFollows(d, seen, t);
          return -FDT_ERR_BADSTRUCTURE;
        }
        EndCompletes(d, seen);
        return 0;
      }
      err := CheckToken(d, offset, tag, depth, seen, t);
      if err != 0 {
        NothingFollows(d, seen, t);
        return err;
      }
      BegunFurther(d, seen, t);
      PaddedEnd(seen, |seen|, t);
      NextStart(seen, t, nextoffset);
      if tag == FDT_BEGIN_NODE {
        depth := depth + 1;
      } else if tag == FDT_END_NODE {
        depth := depth - 1;
        if depth == 0 {
          expectEnd := true;
        }
      }
      seen := seen + [t];
    }
  }

  /** What the validator asks of a node's begin and end and of a property. */
  method CheckToken(d: Blob, offset: nat, tag: U32, depth: nat, ghost seen: seq<Token>, ghost t: Token)
    returns (err: int)
    requires Readable(d) && HeaderSound(d.h) && offset <= INT_MAX && offset == Offset(seen, |seen|)
    requires depth == Depth(seen, |seen|) && !RootClosed(seen)
    requires TokenOf(d, offset) == Some(t) && tag == Tag(t) && tag != FDT_END
    ensures err == 0 <==> !CannotFollow(d, seen, t)
    ensures err <= 0
  {
    ghost var words := OffsetAligned(seen, |seen|);
    if tag == FDT_BEGIN_NODE {
      if depth == 0 {
        var name := GetName(d, offset);
        if name.Failed? {
          return name.err;
        }
        if |name.value| > 0 {
          return -FDT_ERR_BADSTRUCTURE;
        }
      }
    } else if tag == FDT_END_NODE {
      if depth == 0 {
        return -FDT_ERR_BADSTRUCTURE;
      }
    } else if tag == FDT_PROP {
      var prop := GetPropByOffset(d, offset);
      if prop.Failed? {
        return prop.err;
      }
    }
    return 0;
  }

  lemma NextStart(seen: seq<Token>, t: Token, next: nat)
    requires next == Offset(seen, |seen|) + Size(t)
    ensures Offset(seen + [t], |seen| + 1) == next
  {
    OffsetOfPrefix(seen, [t], |seen|);
    assert Offset(seen + [t], |seen| + 1) == Offset(seen + [t], |seen|) + Size(t);
  }
}
