/** Looking up properties and subnodes by name. */
module FdtLookup {
  import opened Collections
  import opened FdtFormat
  import opened Fdt
  import opened FdtRo
  import opened FdtCheck

  /** A blob whose structure block spells `toks`, the last of them the end token. */
  ghost predicate Whole(d: Blob, toks: seq<Token>) {
    && Readable(d) && Complete(d.h) && StringsInside(d.h) && d.h.totalsize < INT_MAX
    && Spells(d, toks) && |toks| > 0 && toks[|toks| - 1] == End
    && NotEarlier(toks)
  }

  ghost predicate NotEarlier(toks: seq<Token>) {
    forall i :: 0 <= i < |toks| - 1 ==> toks[i] != End
  }

  /** A step of the walk, in terms of token indices. */
  lemma StepAt(d: Blob, toks: seq<Token>, i: nat, tag: U32, next: int)
    requires Whole(d, toks) && i < |toks| && Stepped(d, Offset(toks, i), tag, next)
    ensures tag == Tag(toks[i]) && next == Offset(toks, i + 1) && TokenOf(d, Offset(toks, i)) == Some(toks[i])
    ensures tag != FDT_END ==> i + 1 < |toks|
  {
    StepIsNext(d, toks, i, tag, next);
  }

  // ---- properties -----------------------------------------------------------------

  /** From token `i` on, only no-ops come before property `j`. */
  ghost predicate NextProp(toks: seq<Token>, i: nat, j: nat) {
    i <= j < |toks| && toks[j].Prop? && forall k :: i <= k < j ==> toks[k] == Nop
  }

  method NextPropOffset(d: Blob, offset: nat, ghost toks: seq<Token>, ghost i: nat) returns (r: int, ghost j: nat)
    requires Whole(d, toks) && i < |toks| && offset == Offset(toks, i)
    ensures r >= 0 ==> NextProp(toks, i, j) && r == Offset(toks, j)
    ensures r < 0 ==> forall k :: !NextProp(toks, i, k)
    ensures r < 0 ==> r == -FDT_ERR_NOTFOUND || r == -FDT_ERR_BADSTRUCTURE
  {
    var at := offset;
    j := i;
    while true
      invariant i <= j < |toks| && at == Offset(toks, j) && forall k :: i <= k < j ==> toks[k] == Nop
      decreases |toks| - j
    {
      OffsetIsInt(d, toks, j);
      var tag, next := NextTag(d, at);
      StepAt(d, toks, j, tag, next);
      if tag == FDT_END {
        NoMoreProps(toks, i, j);
        return -FDT_ERR_BADSTRUCTURE, j;
      }
      if tag == FDT_PROP {
        return at, j;
      }
      if tag != FDT_NOP {
        NoMoreProps(toks, i, j);
        return -FDT_ERR_NOTFOUND, j;
      }
      at := next;
      j := j + 1;
    }
  }

  lemma NoMoreProps(toks: seq<Token>, i: nat, j: nat)
    requires i <= j < |toks| && toks[j] != Nop && !toks[j].Prop? && forall k :: i <= k < j ==> toks[k] == Nop
    ensures forall k :: !NextProp(toks, i, k)
  {
  }

  /** Property `j` belongs to node `i`: between the two there are only properties and no-ops. */
  ghost predicate InHead(toks: seq<Token>, i: nat, j: nat) {
    i < j < |toks| && forall k :: i < k <= j ==> HeadToken(toks, k)
  }

  ghost predicate HeadToken(toks: seq<Token>, k: nat)
    requires k < |toks|
  {
    toks[k].Prop? || toks[k] == Nop
  }

  ghost predicate Named(d: Blob, toks: seq<Token>, j: nat, name: seq<Byte>)
    requires j < |toks|
  {
    toks[j].Prop? && NameAt(d, toks[j].nameoff, name)
  }

  /** Property `j` is the first of node `i` that has this name. */
  ghost predicate FirstNamed(d: Blob, toks: seq<Token>, i: nat, j: nat, name: seq<Byte>) {
    && InHead(toks, i, j) && Named(d, toks, j, name)
    && forall k :: i < k < j ==> !Named(d, toks, k, name)
  }

  /** Whether the string at `stroffset` is `s`. */
  method StringEq(d: Blob, nameoff: U32, s: seq<Byte>) returns (eq: bool)
    requires Readable(d) && Complete(d.h) && StringsInside(d.h)
    ensures eq <==> NameAt(d, nameoff, s)
  {
    NoNameBeyond(d, nameoff);
    var p := GetString(d, ToInt(nameoff));
    if p.Failed? {
      return false;
    }
    eq := p.value == s;
    if !eq && NameAt(d, nameoff, s) {
      StringUnique(d.b, d.h.offStrings + nameoff, StringsEnd(d.h), StringsEnd(d.h), p.value, s);
    }
  }

  ghost predicate NoNextProp(toks: seq<Token>, i: nat) {
    forall j: nat :: !NextProp(toks, i, j)
  }

  /** The first property of the node at `offset`. */
  method FirstPropertyOffset(d: Blob, offset: nat, ghost toks: seq<Token>, ghost i: nat) returns (r: int, ghost j: nat)
    requires Whole(d, toks) && i < |toks| && offset == Offset(toks, i)
    ensures r >= 0 ==> toks[i].BeginNode? && NextProp(toks, i + 1, j) && r == Offset(toks, j)
    ensures r < 0 && toks[i].BeginNode? ==> NoNextProp(toks, i + 1)
  {
    j := i;
    OffsetIsInt(d, toks, i);
    assert SpeltAt(d, toks, i);
    AlignedIs(toks, i);
    var next := CheckNodeOffset(d, offset);
    if next < 0 {
      return next, j;
    }
    PaddedEnd(toks, i, toks[i]);
    r, j := NextPropOffset(d, next, toks, i + 1);
  }

  /** The property behind the one at `offset`. */
  method NextPropertyOffset(d: Blob, offset: nat, ghost toks: seq<Token>, ghost i: nat) returns (r: int, ghost j: nat)
    requires Whole(d, toks) && i < |toks| && offset == Offset(toks, i) && toks[i].Prop?
    ensures r >= 0 ==> NextProp(toks, i + 1, j) && r == Offset(toks, j)
    ensures r < 0 ==> NoNextProp(toks, i + 1)
  {
    OffsetIsInt(d, toks, i);
    assert SpeltAt(d, toks, i);
    AlignedIs(toks, i);
    var next := CheckPropOffset(d, offset);
    PaddedEnd(toks, i, toks[i]);
    r, j := NextPropOffset(d, next, toks, i + 1);
  }

  /** The value of the property at `offset`, if it has the given name. */
  method PropertyNamed(d: Blob, offset: nat, name: seq<Byte>, ghost toks: seq<Token>, ghost i: nat)
    returns (r: Option<seq<Byte>>)
    requires Whole(d, toks) && i < |toks| && offset == Offset(toks, i) && toks[i].Prop?
    ensures r.Some? <==> Named(d, toks, i, name)
    ensures r.Some? ==> r.value == toks[i].value
  {
    assert SpeltAt(d, toks, i);
    var p := d.h.offStruct + offset;
    TokenFields(d.b, p, toks[i]);
    var eq := StringEq(d, Get32(d.b, p + 8), name);
    if eq {
      return Some(d.b[p + 12..p + 12 + Get32(d.b, p + 4)]);
    }
    return None;
  }

  /** Up to token `last` of the node's head no property has the name. */
  ghost predicate Looked(d: Blob, toks: seq<Token>, i: nat, last: nat, name: seq<Byte>) {
    && i <= last < |toks|
    && (forall k :: i < k <= last ==> HeadToken(toks, k))
    && (forall k :: i < k <= last ==> !Named(d, toks, k, name))
  }

  /** The value of the first property of a node that has the given name. */
  method GetProp(d: Blob, nodeoffset: nat, name: seq<Byte>, ghost toks: seq<Token>, ghost i: nat)
    returns (r: Answer<seq<Byte>>, ghost j: nat)
    requires Whole(d, toks) && i < |toks| && nodeoffset == Offset(toks, i)
    ensures r.Found? ==> toks[i].BeginNode? && FirstNamed(d, toks, i, j, name) && r.value == toks[j].value
    ensures r.Failed? && toks[i].BeginNode? ==> NoneNamed(d, toks, i, name)
    ensures r.Failed? ==> r.err < 0
  {
    var offset;
    offset, j := FirstPropertyOffset(d, nodeoffset, toks, i);
    ghost var last := i;     // the last property that was looked at
    while offset >= 0
      invariant Looked(d, toks, i, last, name)
      invariant offset >= 0 ==> toks[i].BeginNode? && NextProp(toks, last + 1, j) && offset == Offset(toks, j)
      invariant offset < 0 && toks[i].BeginNode? ==> NoNextProp(toks, last + 1)
      decreases if offset >= 0 then 1 else 0, |toks| - last
    {
      LookedFurther(d, toks, i, last, j, name);
      var value := PropertyNamed(d, offset, name, toks, j);
      if value.Some? {
        return Found(value.value), j;
      }
      last := j;
      offset, j := NextPropertyOffset(d, offset, toks, j);
    }
    if toks[i].BeginNode? { NothingNamed(d, toks, i, last, name); }
    return Failed(offset), j;
  }

  ghost predicate NoneNamed(d: Blob, toks: seq<Token>, i: nat, name: seq<Byte>) {
    forall k :: InHead(toks, i, k) ==> !Named(d, toks, k, name)
  }

  lemma AlignedIs(toks: seq<Token>, i: nat)
    requires i <= |toks|
    ensures Aligned(Offset(toks, i))
  {
    var words := OffsetAligned(toks, i);
  }

  /** The next property is the first with the name, or one more that does not have it. */
  lemma LookedFurther(d: Blob, toks: seq<Token>, i: nat, last: nat, j: nat, name: seq<Byte>)
    requires Looked(d, toks, i, last, name) && NextProp(toks, last + 1, j)
    ensures Named(d, toks, j, name) ==> FirstNamed(d, toks, i, j, name)
    ensures !Named(d, toks, j, name) ==> Looked(d, toks, i, j, name)
  {
    forall k | i < k <= j ensures HeadToken(toks, k) && (k < j ==> !Named(d, toks, k, name)) {
      if k <= last { assert HeadToken(toks, k); }
    }
  }

  lemma NothingNamed(d: Blob, toks: seq<Token>, i: nat, last: nat, name: seq<Byte>)
    requires Looked(d, toks, i, last, name) && NoNextProp(toks, last + 1)
    ensures NoneNamed(d, toks, i, name)
  {
    forall k: nat | InHead(toks, i, k) && toks[k].Prop? ensures k <= last {
      if last < k { NoPropAfter(toks, i, last + 1, k); }
    }
  }

  lemma {:induction false} NoPropAfter(toks: seq<Token>, i: nat, from: nat, k: nat)
    requires InHead(toks, i, k) && toks[k].Prop? && i < from <= k
    ensures !NoNextProp(toks, from)
    decreases k - from
  {
    assert HeadToken(toks, from);
    if toks[from].Prop? {
      assert NextProp(toks, from, from);
    } else {
      NoPropAfter(toks, i, from + 1, k);
      var j: nat :| NextProp(toks, from + 1, j);
      assert NextProp(toks, from, j);
    }
  }

  // ---- nodes ----------------------------------------------------------------------

  /** A walk that counts `depth` and starts at token `from` stops at token `k`: a node begins, the
      block ends, or the node that the count is about is closed. */
  ghost predicate Stops(toks: seq<Token>, from: nat, depth: int, k: nat)
    requires from <= |toks| && k < |toks|
  {
    match toks[k]
    case BeginNode(_) => true
    case End => true
    case EndNode => depth + Depth(toks, k) - Depth(toks, from) <= 0
    case _ => false
  }

  ghost predicate FirstStop(toks: seq<Token>, from: nat, depth: int, k: nat) {
    from <= k < |toks| && Stops(toks, from, depth, k) && NoStop(toks, from, depth, k)
  }

  ghost predicate NoStop(toks: seq<Token>, from: nat, depth: int, k: nat)
    requires from <= k <= |toks|
  {
    forall j :: from <= j < k ==> !Stops(toks, from, depth, j)
  }

  /** What the walk answers at the token where it stops. */
  ghost predicate StoppedAt(toks: seq<Token>, from: nat, depth: int, k: nat, r: int, depth': int) {
    && FirstStop(toks, from, depth, k)
    && match toks[k]
       case BeginNode(_) => r == Offset(toks, k) && depth' == depth + Depth(toks, k) - Depth(toks, from) + 1
       case EndNode => r == Offset(toks, k + 1) && depth' == depth + Depth(toks, k) - Depth(toks, from) - 1 < 0
       case _ => toks[k] == End && r == -FDT_ERR_NOTFOUND && depth' == depth + Depth(toks, k) - Depth(toks, from)
  }

  /** The next node in the order of the block, with its depth; or the end of the node the depth is
      counted from, which makes it -1; or the end of everything.  A negative offset asks for the first node. */
  method NextNode(d: Blob, offset: int, depth: int, ghost toks: seq<Token>, ghost i: nat)
    returns (r: int, depth': int, ghost k: nat)
    requires Whole(d, toks) && (offset >= 0 ==> i < |toks| && offset == Offset(toks, i))
    ensures offset >= 0 && !toks[i].BeginNode? ==> r == -FDT_ERR_BADOFFSET && depth' == depth
    ensures offset >= 0 && toks[i].BeginNode? ==> StoppedAt(toks, i + 1, depth, k, r, depth')
    ensures offset < 0 ==> StoppedAt(toks, 0, depth, k, r, depth')
  {
    var next := 0;
    if offset >= 0 {
      OffsetIsInt(d, toks, i);
      assert SpeltAt(d, toks, i);
      AlignedIs(toks, i);
      next := CheckNodeOffset(d, offset);
      if next < 0 {
        return next, depth, i;
      }
      PaddedEnd(toks, i, toks[i]);
    }
    r, depth', k := WalkNodes(d, next, depth, toks, if offset >= 0 then i + 1 else 0);
  }

  method WalkNodes(d: Blob, start: nat, depth: int, ghost toks: seq<Token>, ghost from: nat)
    returns (r: int, depth': int, ghost k: nat)
    requires Whole(d, toks) && from < |toks| && start == Offset(toks, from)
    ensures StoppedAt(toks, from, depth, k, r, depth')
  {
    var nextoffset := start;
    depth', k := depth, from;
    while true
      invariant from <= k < |toks| && nextoffset == Offset(toks, k)
      invariant depth' == depth + Depth(toks, k) - Depth(toks, from) && NoStop(toks, from, depth, k)
      decreases |toks| - k
    {
      var at := nextoffset;
      var tag;
      tag, nextoffset := TokenTag(d, at, toks, k);
      if tag == FDT_BEGIN_NODE {
        return at, depth' + 1, k;
      } else if tag == FDT_END_NODE {
        depth' := depth' - 1;
        if depth' < 0 {
          return nextoffset, depth', k;
        }
      } else if tag == FDT_END {
        return -FDT_ERR_NOTFOUND, depth', k;
      }
      k := k + 1;
    }
  }

  /** `NextTag` at a token whose index is known. */
  method TokenTag(d: Blob, at: nat, ghost toks: seq<Token>, ghost k: nat) returns (tag: U32, next: int)
    requires Whole(d, toks) && k < |toks| && at == Offset(toks, k)
    ensures tag == Tag(toks[k]) && next == Offset(toks, k + 1)
    ensures tag != FDT_END ==> k + 1 < |toks|
  {
    OffsetIsInt(d, toks, k);
    tag, next := NextTag(d, at);
    StepAt(d, toks, k, tag, next);
  }

  // ---- subnodes -------------------------------------------------------------------

  const AT_SIGN: Byte := 64

  /** A node's name matches `s` in full, or up to a unit address that `s` leaves out. */
  predicate NameMatches(name: seq<Byte>, s: seq<Byte>) {
    && |s| <= |name| && name[..|s|] == s
    && (|name| == |s| || (AT_SIGN !in s && name[|s|] == AT_SIGN))
  }

  method NodenameEq(d: Blob, offset: nat, s: seq<Byte>, ghost toks: seq<Token>, ghost i: nat) returns (eq: bool)
    requires Whole(d, toks) && i < |toks| && offset == Offset(toks, i)
    ensures eq <==> toks[i].BeginNode? && NameMatches(toks[i].name, s)
  {
    OffsetIsInt(d, toks, i);
    assert SpeltAt(d, toks, i);
    AlignedIs(toks, i);
    var p := GetName(d, offset);
    if p.Failed? || |p.value| < |s| {
      return false;
    }
    if p.value[..|s|] != s {
      return false;
    }
    if |p.value| == |s| {
      return true;
    } else if AT_SIGN !in s && p.value[|s|] == AT_SIGN {
      return true;
    } else {
      return false;
    }
  }

  /** Node `i` is still open at token `j`. */
  ghost predicate OpenUntil(toks: seq<Token>, i: nat, j: nat)
    requires i < |toks| && j <= |toks|
  {
    forall k :: i < k <= j ==> Deeper(toks, i, k)
  }

  ghost predicate Deeper(toks: seq<Token>, i: nat, k: nat)
    requires i < |toks| && k <= |toks|
  {
    Depth(toks, k) > Depth(toks, i)
  }

  /** Token `j` begins a direct subnode of node `i`. */
  ghost predicate Subnode(toks: seq<Token>, i: nat, j: nat) {
    && i < j < |toks| && toks[j].BeginNode? && OpenUntil(toks, i, j)
    && Depth(toks, j) == Depth(toks, i) + 1
  }

  ghost predicate MatchingSubnode(toks: seq<Token>, i: nat, s: seq<Byte>, j: nat) {
    Subnode(toks, i, j) && NameMatches(toks[j].name, s)
  }

  /** What the search knows when it stands at node `c`: node `i` is open, and no earlier subnode matches. */
  ghost predicate Searched(toks: seq<Token>, i: nat, s: seq<Byte>, c: nat, depth: int) {
    && i <= c < |toks| && toks[i].BeginNode? && toks[c].BeginNode? && OpenUntil(toks, i, c)
    && depth == Depth(toks, c) - Depth(toks, i)
    && forall j :: i < j < c ==> !MatchingSubnode(toks, i, s, j)
  }

  ghost predicate NoMatch(toks: seq<Token>, i: nat, s: seq<Byte>) {
    forall j: nat :: !MatchingSubnode(toks, i, s, j)
  }

  /** Between two stops no node begins and node `i` stays open. */
  lemma {:induction false} StillOpen(toks: seq<Token>, i: nat, c: nat, depth: int, k: nat)
    requires i <= c && c + 1 <= k <= |toks| && OpenUntil(toks, i, c) && toks[i].BeginNode? && toks[c].BeginNode?
    requires depth == Depth(toks, c) - Depth(toks, i) >= 0 && NoStop(toks, c + 1, depth, k)
    ensures OpenUntil(toks, i, k)
    ensures forall j :: c < j < k ==> !toks[j].BeginNode?
  {
    if k > c + 1 {
      StillOpen(toks, i, c, depth, k - 1);
      assert !Stops(toks, c + 1, depth, k - 1);
      assert Deeper(toks, i, k - 1);
    }
    forall m | i < m <= k ensures Deeper(toks, i, m) {
      if m <= c { assert Deeper(toks, i, m); } else if m < k { assert Deeper(toks, i, m); }
    }
  }

  /** Going on from a node that does not match. */
  lemma SearchOn(toks: seq<Token>, i: nat, s: seq<Byte>, c: nat, depth: int, k: nat, r: int, depth': int)
    requires Searched(toks, i, s, c, depth) && depth >= 0 && !MatchingSubnode(toks, i, s, c)
    requires StoppedAt(toks, c + 1, depth, k, r, depth') && toks[k] != End
    ensures depth' >= 0 ==> Searched(toks, i, s, k, depth')
    ensures depth' < 0 ==> NoMatch(toks, i, s)
  {
    StillOpen(toks, i, c, depth, k);
    forall j: nat | i < j < k ensures !MatchingSubnode(toks, i, s, j) {
    }
    if depth' < 0 {
      forall j: nat ensures !MatchingSubnode(toks, i, s, j) {
        if j > k { assert !Deeper(toks, i, k + 1); }
      }
    }
  }

  lemma SearchEnds(toks: seq<Token>, i: nat, s: seq<Byte>, c: nat, depth: int, k: nat, r: int, depth': int)
    requires Searched(toks, i, s, c, depth) && depth >= 0 && !MatchingSubnode(toks, i, s, c)
    requires StoppedAt(toks, c + 1, depth, k, r, depth') && toks[k] == End && NotEarlier(toks)
    ensures NoMatch(toks, i, s)
  {
    StillOpen(toks, i, c, depth, k);
    assert k == |toks| - 1;
  }

  /** The first direct subnode of a node whose name matches. */
  method SubnodeOffset(d: Blob, offset: nat, s: seq<Byte>, ghost toks: seq<Token>, ghost i: nat)
    returns (r: int, ghost c: nat)
    requires Whole(d, toks) && i < |toks| && offset == Offset(toks, i)
    ensures r >= 0 ==> MatchingSubnode(toks, i, s, c) && r == Offset(toks, c)
                       && forall j :: i < j < c ==> !MatchingSubnode(toks, i, s, j)
    ensures r < 0 && toks[i].BeginNode? ==> r == -FDT_ERR_NOTFOUND && NoMatch(toks, i, s)
    ensures !toks[i].BeginNode? ==> r == -FDT_ERR_BADOFFSET
  {
    var at, depth := offset, 0;
    c := i;
    while at >= 0 && depth >= 0
      invariant at >= 0 && depth >= 0 ==>
                  && c < |toks| && at == Offset(toks, c)
                  && if toks[i].BeginNode? then Searched(toks, i, s, c, depth) else c == i && depth == 0
      invariant at < 0 || depth < 0 ==>
                  if toks[i].BeginNode? then NoMatch(toks, i, s) && (depth >= 0 ==> at == -FDT_ERR_NOTFOUND)
                  else at == -FDT_ERR_BADOFFSET && depth == 0
      decreases if at >= 0 && depth >= 0 then 1 else 0, |toks| - c
    {
      if depth == 1 {
        var eq := NodenameEq(d, at, s, toks, c);
        if eq {
          return at, c;
        }
      }
      ghost var c0, depth0 := c, depth;
      at, depth, c := NextNode(d, at, depth, toks, c);
      if toks[i].BeginNode? {
        if toks[c] == End {
          SearchEnds(toks, i, s, c0, depth0, c, at, depth);
        } else {
          SearchOn(toks, i, s, c0, depth0, c, at, depth);
        }
      }
    }
    if depth < 0 {
      return -FDT_ERR_NOTFOUND, c;
    }
    return at, c;
  }
}
