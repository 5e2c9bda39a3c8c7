/** Paths: a node is found by the names on the way to it, in a blob and in the tree that was written. */
module FdtPaths {
  import opened Collections
  import opened FdtFormat
  import opened Fdt
  import opened FdtRo
  import opened FdtSw
  import opened FdtLookup
  import opened FdtRoundTrip
  import opened FdtTree

  const SLASH: Byte := 47

  // ---- the names in a path --------------------------------------------------------

  /** The length of the name at the front. */
  function NameLength(path: seq<Byte>): (n: nat)
    ensures n <= |path| && SLASH !in path[..n] && (n < |path| ==> path[n] == SLASH)
  {
    if path == [] || path[0] == SLASH then 0
    else
      var n := NameLength(path[1..]);
      assert path[..n + 1] == [path[0]] + path[1..][..n];
      n + 1
  }

  /** Any number of slashes stands between two names. */
  function Names(path: seq<Byte>): seq<seq<Byte>>
    decreases |path|
  {
    if path == [] then []
    else if path[0] == SLASH then Names(path[1..])
    else [path[..NameLength(path)]] + Names(path[NameLength(path)..])
  }

  /** The names from place `p` on. */
  lemma NamesFrom(path: seq<Byte>, p: nat)
    requires p < |path|
    ensures path[p] == SLASH ==> Names(path[p..]) == Names(path[p + 1..])
    ensures var n := NameLength(path[p..]);
            path[p] != SLASH ==>
              && Names(path[p..]) == [path[p..p + n]] + Names(path[p + n..])
              && (p + n < |path| ==> path[p + n] == SLASH)
  {
    var n := NameLength(path[p..]);
    assert path[p..][1..] == path[p + 1..];
    assert path[p..][..n] == path[p..p + n] && path[p..][n..] == path[p + n..];
    assert p + n < |path| ==> path[p + n] == path[p..][n];
  }

  // ---- in a blob ------------------------------------------------------------------

  /** The subnode that a search for `s` finds. */
  ghost predicate FirstSubnode(toks: seq<Token>, i: nat, s: seq<Byte>, j: nat) {
    MatchingSubnode(toks, i, s, j) && forall k :: i < k < j ==> !MatchingSubnode(toks, i, s, k)
  }

  /** From node `i` the names lead to node `c`. */
  ghost predicate Leads(toks: seq<Token>, i: nat, names: seq<seq<Byte>>, c: nat)
    decreases |names|
  {
    if names == [] then c == i
    else exists j :: FirstSubnode(toks, i, names[0], j) && Leads(toks, j, names[1..], c)
  }

  lemma OneFirst(toks: seq<Token>, i: nat, s: seq<Byte>, j: nat, j': nat)
    requires FirstSubnode(toks, i, s, j) && FirstSubnode(toks, i, s, j')
    ensures j == j'
  {
  }

  lemma NothingInside(toks: seq<Token>, i: nat, s: seq<Byte>)
    requires i < |toks| && !toks[i].BeginNode?
    ensures NoMatch(toks, i, s)
  {
    forall j: nat ensures !MatchingSubnode(toks, i, s, j) {
      assert !Deeper(toks, i, i + 1);
    }
  }

  /** One name taken off the path. */
  lemma LeadsOn(toks: seq<Token>, i: nat, names: seq<seq<Byte>>, j: nat, c: nat)
    requires names != [] && FirstSubnode(toks, i, names[0], j)
    ensures Leads(toks, i, names, c) <==> Leads(toks, j, names[1..], c)
  {
    if Leads(toks, i, names, c) {
      var k :| FirstSubnode(toks, i, names[0], k) && Leads(toks, k, names[1..], c);
      OneFirst(toks, i, names[0], j, k);
    }
  }

  /** From `i` by `names` and from `j` by `names'` one gets to the same nodes. */
  ghost predicate SameEnds(toks: seq<Token>, i: nat, names: seq<seq<Byte>>, j: nat, names': seq<seq<Byte>>) {
    forall k :: Leads(toks, i, names, k) <==> Leads(toks, j, names', k)
  }

  ghost predicate NoEnd(toks: seq<Token>, i: nat, names: seq<seq<Byte>>) {
    forall k :: !Leads(toks, i, names, k)
  }

  lemma SameEndsOn(toks: seq<Token>, i: nat, names: seq<seq<Byte>>, j: nat, names': seq<seq<Byte>>, k: nat,
                   names'': seq<seq<Byte>>)
    requires SameEnds(toks, i, names, j, names')
    ensures SameEnds(toks, j, names', k, names'') ==> SameEnds(toks, i, names, k, names'')
    ensures NoEnd(toks, j, names') ==> NoEnd(toks, i, names)
  {
  }

  /** The name at place `p` of the path, and the subnode that it stands for. */
  method Descend(d: Blob, path: seq<Byte>, p: nat, offset: nat, ghost toks: seq<Token>, ghost i: nat)
    returns (q: nat, r: int, ghost c: nat)
    requires Whole(d, toks) && i < |toks| && offset == Offset(toks, i) && p < |path| && path[p] != SLASH
    ensures p < q <= |path| && (q < |path| ==> path[q] == SLASH)
    ensures r >= 0 ==> c < |toks| && toks[i].BeginNode? && toks[c].BeginNode? && r == Offset(toks, c)
                       && SameEnds(toks, i, Names(path[p..]), c, Names(path[q..]))
    ensures r < 0 ==> NoEnd(toks, i, Names(path[p..]))
    ensures r < 0 ==> r == if toks[i].BeginNode? then -FDT_ERR_NOTFOUND else -FDT_ERR_BADOFFSET
  {
    NamesFrom(path, p);
    ghost var left := Names(path[p..]);
    q := p + NameLength(path[p..]);
    r, c := SubnodeOffset(d, offset, path[p..q], toks, i);
    if !toks[i].BeginNode? { NothingInside(toks, i, path[p..q]); }
    if r >= 0 {
      assert FirstSubnode(toks, i, left[0], c);
      forall k ensures Leads(toks, i, left, k) <==> Leads(toks, c, left[1..], k) {
        LeadsOn(toks, i, left, c, k);
      }
    }
  }

  /** The node that an absolute path leads to, or why there is none. */
  method PathOffset(d: Blob, path: seq<Byte>, ghost toks: seq<Token>) returns (r: int, ghost c: nat)
    requires Whole(d, toks) && (path != [] ==> path[0] == SLASH)
    ensures path == [] ==> r == -FDT_ERR_BADPATH
    ensures path != [] && r >= 0 ==> SameEnds(toks, 0, Names(path), c, []) && c < |toks| && r == Offset(toks, c)
    ensures path != [] && r < 0 ==> NoEnd(toks, 0, Names(path))
    ensures path != [] && r < 0 ==> r == if toks[0].BeginNode? then -FDT_ERR_NOTFOUND else -FDT_ERR_BADOFFSET
  {
    if path == [] {
      return -FDT_ERR_BADPATH, 0;
    }
    var p, offset := 0, 0;
    c := 0;
    assert path[0..] == path;
    while p < |path|
      invariant p <= |path| && c < |toks| && offset == Offset(toks, c)
      invariant toks[c].BeginNode? == toks[0].BeginNode?
      invariant p < |path| ==> path[p] == SLASH
      invariant SameEnds(toks, 0, Names(path), c, Names(path[p..]))
      decreases |path| - p
    {
      ghost var left := Names(path[p..]);
      while path[p] == SLASH
        invariant p < |path| && Names(path[p..]) == left
        decreases |path| - p
      {
        NamesFrom(path, p);
        p := p + 1;
        if p == |path| {
          return offset, c;
        }
      }
      ghost var i := c;
      p, offset, c := Descend(d, path, p, offset, toks, i);
      SameEndsOn(toks, 0, Names(path), i, left, c, Names(path[p..]));
      if offset < 0 {
        return offset, c;
      }
    }
    return offset, c;
  }

  // ---- in the tree that was written -----------------------------------------------

  /** Where subtree `m` starts among the calls of the subtrees. */
  ghost function Before(ts: seq<Tree>, m: nat): nat
    requires m <= |ts|
  {
    if m == 0 then 0 else |Calls(ts[0])| + Before(ts[1..], m - 1)
  }

  /** And among the calls of the node. */
  ghost function ChildPos(t: Tree, m: nat): nat
    requires m <= |t.children|
  {
    1 + |t.props| + Before(t.children, m)
  }

  lemma {:induction false} BeforeInside(ts: seq<Tree>, m: nat)
    requires m < |ts|
    ensures Before(ts, m) + |Calls(ts[m])| == Before(ts, m + 1) <= |ForestCalls(ts)|
  {
    if m > 0 {
      BeforeInside(ts[1..], m - 1);
    } else {
      assert Before(ts[1..], 0) == 0;
    }
  }

  lemma {:induction false} ForestSplits(log: seq<Entry>, at: nat, ts: seq<Tree>)
    requires PartAt(log, at, ForestCalls(ts)) && ts != []
    ensures PartAt(log, at, Calls(ts[0])) && PartAt(log, at + |Calls(ts[0])|, ForestCalls(ts[1..]))
  {
    PartSplits(log, at, Calls(ts[0]), ForestCalls(ts[1..]));
  }

  lemma {:induction false} DepthBehind(log: seq<Entry>, at: nat, t: Tree, d: int)
    requires PartAt(log, at, Calls(t)) && CallDepth(log, at) == d
    ensures CallDepth(log, at + |Calls(t)|) == d
  {
    TreeBalanced(log, at, t, d);
  }

  lemma {:induction false} RestNext(log: seq<Entry>, at: nat, rest: seq<Tree>, next: nat, after: seq<Tree>, d: int)
    requires rest != [] && PartAt(log, at, ForestCalls(rest)) && CallDepth(log, at) == d
    requires next == at + |Calls(rest[0])| && after == rest[1..]
    ensures PartAt(log, next, ForestCalls(after)) && CallDepth(log, next) == d
  {
    ForestSplits(log, at, rest);
    DepthBehind(log, at, rest[0], d);
  }

  lemma {:induction false} BeforeTail(ts: seq<Tree>, m: nat)
    requires 0 < m < |ts|
    ensures Before(ts, m) == |Calls(ts[0])| + Before(ts[1..], m - 1) && ts[1..][m - 1] == ts[m]
  {
  }

  lemma {:induction false} ChildPart(log: seq<Entry>, at: nat, ts: seq<Tree>, m: nat, d: int)
    requires PartAt(log, at, ForestCalls(ts)) && m < |ts| && CallDepth(log, at) == d
    ensures PartAt(log, at + Before(ts, m), Calls(ts[m])) && CallDepth(log, at + Before(ts, m)) == d
    decreases m
  {
    if m == 0 {
      ForestSplits(log, at, ts);
    } else {
      var tail, next := ts[1..], at + |Calls(ts[0])|;
      RestNext(log, at, ts, next, tail, d);
      ChildPart(log, next, tail, m - 1, d);
      BeforeTail(ts, m);
    }
  }

  lemma DeeperInside(log: seq<Entry>, at: nat, n: nat, d: int, j: nat)
    requires NodeAt(log, at, n, d) && at < j < at + n && log[j].OpenNode?
    ensures CallDepth(log, j) > d
  {
    assert j < at + n - 1 ==> NotClosing(log, j, d + 1);
  }

  lemma {:induction false} AllBefore(ts: seq<Tree>)
    ensures Before(ts, |ts|) == |ForestCalls(ts)|
  {
    if ts != [] { AllBefore(ts[1..]); }
  }

  /** The subtree that call `n` belongs to. */
  lemma {:induction false} Inside(ts: seq<Tree>, n: nat, k: nat) returns (m: nat)
    requires k <= |ts| && n < Before(ts, k)
    ensures m < k && Before(ts, m) <= n < Before(ts, m + 1)
    decreases k
  {
    if n < Before(ts, k - 1) { m := Inside(ts, n, k - 1); } else { m := k - 1; }
  }

  /** Among the calls of the subtrees, those that open a node at their own depth are the first ones of the subtrees. */
  lemma {:induction false} OpensChild(log: seq<Entry>, at: nat, ts: seq<Tree>, d: int, j: nat) returns (m: nat)
    requires PartAt(log, at, ForestCalls(ts)) && CallDepth(log, at) == d
    requires at <= j < at + |ForestCalls(ts)| && log[j].OpenNode? && CallDepth(log, j) == d
    ensures m < |ts| && j == at + Before(ts, m)
  {
    AllBefore(ts);
    m := Inside(ts, j - at, |ts|);
    BeforeInside(ts, m);
    ChildPart(log, at, ts, m, d);
    TreeBalanced(log, at + Before(ts, m), ts[m], d);
    if j > at + Before(ts, m) { DeeperInside(log, at + Before(ts, m), |Calls(ts[m])|, d, j); }
  }

  ghost predicate ChildAt(toks: seq<Token>, log: seq<Entry>, at: nat, t: Tree, m: nat)
    requires m < |t.children|
  {
    && PartAt(log, at + ChildPos(t, m), Calls(t.children[m])) && Subnode(toks, at, at + ChildPos(t, m))
    && toks[at + ChildPos(t, m)] == BeginNode(t.children[m].name)
  }

  lemma {:induction false} ChildFound(h: Header, b: seq<Byte>, rsv: seq<Reserve>, toks: seq<Token>, log: seq<Entry>,
                                      at: nat, t: Tree, m: nat)
    requires Finished(h, b, rsv, toks, log) && PartAt(log, at, Calls(t)) && m < |t.children|
    ensures ChildAt(toks, log, at, t, m)
  {
    var d, j := CallDepth(log, at), at + ChildPos(t, m);
    KidsPart(log, at, t, d);
    TreeBalanced(log, at, t, d);
    ChildStarts(log, at + 1 + |t.props|, t.children, m, d + 1);
    BeginsSubnode(h, b, rsv, toks, log, at, |Calls(t)|, d, j);
  }

  /** A node that opens inside, one deeper than a node, is its direct subnode. */
  lemma BeginsSubnode(h: Header, b: seq<Byte>, rsv: seq<Reserve>, toks: seq<Token>, log: seq<Entry>, at: nat, n: nat,
                      d: int, j: nat)
    requires Finished(h, b, rsv, toks, log) && NodeAt(log, at, n, d) && CallDepth(log, at) == d && at < j < at + n
    requires log[j].OpenNode? && CallDepth(log, j) == d + 1
    ensures Subnode(toks, at, j) && toks[j] == BeginNode(log[j].name)
  {
    assert RecordedAt(h, b, toks, log, j);
    StaysOpen(h, b, rsv, toks, log, at, n, d, j);
    SameDepth(h, b, rsv, toks, log, at);
    SameDepth(h, b, rsv, toks, log, j);
  }

  /** Behind the properties, one deeper, the subtrees follow up to the last call. */
  lemma {:induction false} KidsPart(log: seq<Entry>, at: nat, t: Tree, d: int)
    requires PartAt(log, at, Calls(t)) && CallDepth(log, at) == d
    ensures var kids := at + 1 + |t.props|;
            && PartAt(log, kids, ForestCalls(t.children)) && CallDepth(log, kids) == d + 1
            && at + |Calls(t)| == kids + |ForestCalls(t.children)| + 1
  {
    TreeParts(log, at, t);
    PropsBalanced(log, at + 1, t.props, |t.props|, d + 1);
  }

  lemma {:induction false} ChildStarts(log: seq<Entry>, at: nat, ts: seq<Tree>, m: nat, d: int)
    requires PartAt(log, at, ForestCalls(ts)) && m < |ts| && CallDepth(log, at) == d
    ensures var j := at + Before(ts, m);
            && PartAt(log, j, Calls(ts[m])) && CallDepth(log, j) == d
            && j < at + |ForestCalls(ts)| && log[j] == OpenNode(ts[m].name)
  {
    BeforeInside(ts, m);
    ChildPart(log, at, ts, m, d);
    TreeParts(log, at + Before(ts, m), ts[m]);
  }

  lemma StaysOpen(h: Header, b: seq<Byte>, rsv: seq<Reserve>, toks: seq<Token>, log: seq<Entry>, at: nat, n: nat,
                  d: int, j: nat)
    requires Finished(h, b, rsv, toks, log) && NodeAt(log, at, n, d) && CallDepth(log, at) == d && at <= j < at + n
    ensures OpenUntil(toks, at, j)
  {
    SameDepth(h, b, rsv, toks, log, at);
    forall k | at < k <= j ensures Deeper(toks, at, k) {
      SameDepth(h, b, rsv, toks, log, k);
      if k < at + n - 1 { assert NotClosing(log, k, d + 1); }
    }
  }

  lemma NotOpenBehind(h: Header, b: seq<Byte>, rsv: seq<Reserve>, toks: seq<Token>, log: seq<Entry>, at: nat, n: nat,
                      d: int, j: nat)
    requires Finished(h, b, rsv, toks, log) && 0 < n && at + n <= j < |toks|
    requires CallDepth(log, at) == d && CallDepth(log, at + n) == d
    ensures !OpenUntil(toks, at, j)
  {
    SameDepth(h, b, rsv, toks, log, at);
    SameDepth(h, b, rsv, toks, log, at + n);
    assert !Deeper(toks, at, at + n);
  }

  lemma {:induction false} PropsOpenNothing(log: seq<Entry>, at: nat, props: seq<(seq<Byte>, seq<Byte>)>, j: nat)
    requires PartAt(log, at, PropCalls(props)) && at <= j < at + |props|
    ensures log[j].Property?
  {
    assert log[j] == log[at..at + |props|][j - at] == PropCalls(props)[j - at];
  }

  lemma {:induction false} SubnodeInside(h: Header, b: seq<Byte>, rsv: seq<Reserve>, toks: seq<Token>, log: seq<Entry>,
                                         at: nat, t: Tree, j: nat) returns (m: nat)
    requires Finished(h, b, rsv, toks, log) && PartAt(log, at, Calls(t)) && Subnode(toks, at, j)
    ensures m < |t.children| && j == at + ChildPos(t, m)
  {
    var d, n := CallDepth(log, at), |Calls(t)|;
    TreeBalanced(log, at, t, d);
    SameDepth(h, b, rsv, toks, log, at);
    if j >= at + n { NotOpenBehind(h, b, rsv, toks, log, at, n, d, j); }
    SameDepth(h, b, rsv, toks, log, j);
    assert RecordedAt(h, b, toks, log, j);
    m := OpensOneOfThem(log, at, t, d, j);
  }

  lemma {:induction false} OpensOneOfThem(log: seq<Entry>, at: nat, t: Tree, d: int, j: nat) returns (m: nat)
    requires PartAt(log, at, Calls(t)) && CallDepth(log, at) == d
    requires at < j < at + |Calls(t)| && log[j].OpenNode? && CallDepth(log, j) == d + 1
    ensures m < |t.children| && j == at + ChildPos(t, m)
  {
    KidsPart(log, at, t, d);
    OpensNoProp(log, at, t, j);
    m := OpensChild(log, at + 1 + |t.props|, t.children, d + 1, j);
  }

  lemma {:induction false} OpensNoProp(log: seq<Entry>, at: nat, t: Tree, j: nat)
    requires PartAt(log, at, Calls(t)) && at < j < at + |Calls(t)| && log[j].OpenNode?
    ensures at + 1 + |t.props| <= j < at + |Calls(t)| - 1
  {
    TreeParts(log, at, t);
    if j < at + 1 + |t.props| { PropsOpenNothing(log, at + 1, t.props, j); }
  }

  /** All subnodes of the node at `at` are subtrees of `t` at their places. */
  ghost predicate Housed(toks: seq<Token>, log: seq<Entry>, at: nat, t: Tree) {
    && (forall m: nat :: m < |t.children| ==> ChildAt(toks, log, at, t, m))
    && forall j: nat :: Subnode(toks, at, j) ==> exists m: nat :: m < |t.children| && j == at + ChildPos(t, m)
  }

  /** The subnodes of a written node are its subtrees, at their places. */
  lemma {:induction false} SubnodesAreChildren(h: Header, b: seq<Byte>, rsv: seq<Reserve>, toks: seq<Token>,
                                               log: seq<Entry>, at: nat, t: Tree)
    requires Finished(h, b, rsv, toks, log) && PartAt(log, at, Calls(t))
    ensures Housed(toks, log, at, t)
  {
    forall m: nat | m < |t.children| ensures ChildAt(toks, log, at, t, m) {
      ChildFound(h, b, rsv, toks, log, at, t, m);
    }
    forall j: nat | Subnode(toks, at, j) ensures exists m: nat :: m < |t.children| && j == at + ChildPos(t, m) {
      var m := SubnodeInside(h, b, rsv, toks, log, at, t, j);
    }
  }

  /** The first subtree whose name matches. */
  function FirstChild(ts: seq<Tree>, s: seq<Byte>): (m: nat)
    ensures m <= |ts| && (m < |ts| ==> NameMatches(ts[m].name, s))
    ensures forall k :: 0 <= k < m ==> !NameMatches(ts[k].name, s)
  {
    if ts == [] || NameMatches(ts[0].name, s) then 0 else 1 + FirstChild(ts[1..], s)
  }

  lemma {:induction false} LaterChild(ts: seq<Tree>, k: nat, m: nat)
    requires k < m < |ts|
    ensures Before(ts, k) < Before(ts, m)
  {
    if k > 0 {
      LaterChild(ts[1..], k - 1, m - 1);
    } else {
      assert Before(ts, 0) == 0 && |Calls(ts[0])| > 0;
    }
  }

  lemma {:induction false} FirstIsFirst(toks: seq<Token>, log: seq<Entry>, at: nat, t: Tree, s: seq<Byte>)
    requires Housed(toks, log, at, t) && FirstChild(t.children, s) < |t.children|
    ensures FirstSubnode(toks, at, s, at + ChildPos(t, FirstChild(t.children, s)))
  {
    var m := FirstChild(t.children, s);
    var j := at + ChildPos(t, m);
    assert ChildAt(toks, log, at, t, m);
    forall k | at < k < j ensures !MatchingSubnode(toks, at, s, k) {
      if Subnode(toks, at, k) {
        var i: nat :| i < |t.children| && k == at + ChildPos(t, i);
        assert ChildAt(toks, log, at, t, i);
        if m < i { LaterChild(t.children, m, i); }
      }
    }
  }

  lemma NoneMatches(toks: seq<Token>, log: seq<Entry>, at: nat, t: Tree, s: seq<Byte>, j: nat)
    requires Housed(toks, log, at, t) && FirstChild(t.children, s) == |t.children|
    ensures !MatchingSubnode(toks, at, s, j)
  {
    if Subnode(toks, at, j) {
      var k: nat :| k < |t.children| && j == at + ChildPos(t, k);
      assert ChildAt(toks, log, at, t, k);
    }
  }

  /** A search among the subnodes of a written node finds the first subtree whose name matches, or nothing. */
  lemma {:induction false} SearchFindsChild(h: Header, b: seq<Byte>, rsv: seq<Reserve>, toks: seq<Token>,
                                            log: seq<Entry>, at: nat, t: Tree, s: seq<Byte>, j: nat)
    requires Finished(h, b, rsv, toks, log) && PartAt(log, at, Calls(t))
    ensures var m := FirstChild(t.children, s);
            FirstSubnode(toks, at, s, j) <==> m < |t.children| && j == at + ChildPos(t, m)
  {
    SubnodesAreChildren(h, b, rsv, toks, log, at, t);
    HousedSearch(toks, log, at, t, s, j);
  }

  lemma {:induction false} HousedSearch(toks: seq<Token>, log: seq<Entry>, at: nat, t: Tree, s: seq<Byte>, j: nat)
    requires Housed(toks, log, at, t)
    ensures var m := FirstChild(t.children, s);
            FirstSubnode(toks, at, s, j) <==> m < |t.children| && j == at + ChildPos(t, m)
  {
    var m := FirstChild(t.children, s);
    if m < |t.children| {
      FirstIsFirst(toks, log, at, t, s);
      if FirstSubnode(toks, at, s, j) { OneFirst(toks, at, s, j, at + ChildPos(t, m)); }
    } else {
      NoneMatches(toks, log, at, t, s, j);
    }
  }

  /** The subtree that the names lead to, and where its calls start among those of the tree. */
  ghost function Follow(t: Tree, names: seq<seq<Byte>>): Option<(nat, Tree)>
    decreases |names|
  {
    if names == [] then Some((0, t))
    else
      var m := FirstChild(t.children, names[0]);
      if m == |t.children| then None
      else
        match Follow(t.children[m], names[1..])
        case None => None
        case Some((p, u)) => Some((ChildPos(t, m) + p, u))
  }

  /** In a written tree a path leads exactly to the node that the names lead to in the tree. */
  lemma {:induction false} PathFindsNode(h: Header, b: seq<Byte>, rsv: seq<Reserve>, toks: seq<Token>, log: seq<Entry>,
                                         at: nat, t: Tree, names: seq<seq<Byte>>, c: nat)
    requires Finished(h, b, rsv, toks, log) && PartAt(log, at, Calls(t))
    ensures Leads(toks, at, names, c) <==> Follow(t, names).Some? && c == at + Follow(t, names).value.0
    ensures Leads(toks, at, names, c) ==> PartAt(log, c, Calls(Follow(t, names).value.1))
    decreases |names|
  {
    if names != [] {
      var m := FirstChild(t.children, names[0]);
      if m < |t.children| {
        var j := at + ChildPos(t, m);
        SearchFindsChild(h, b, rsv, toks, log, at, t, names[0], j);
        SubnodesAreChildren(h, b, rsv, toks, log, at, t);
        assert ChildAt(toks, log, at, t, m);
        LeadsOn(toks, at, names, j, c);
        PathFindsNode(h, b, rsv, toks, log, j, t.children[m], names[1..], c);
      } else {
        forall j ensures !FirstSubnode(toks, at, names[0], j) {
          SearchFindsChild(h, b, rsv, toks, log, at, t, names[0], j);
        }
      }
    }
  }

  // ---- a property by its path -----------------------------------------------------

  /** The first property with this name. */
  function FirstProp(props: seq<(seq<Byte>, seq<Byte>)>, name: seq<Byte>): (m: nat)
    ensures m <= |props| && (m < |props| ==> props[m].0 == name)
    ensures forall k :: 0 <= k < m ==> props[k].0 != name
  {
    if props == [] || props[0].0 == name then 0 else 1 + FirstProp(props[1..], name)
  }

  /** The value that a tree has for a property of the node at the end of a path. */
  ghost function ValueAt(t: Tree, names: seq<seq<Byte>>, name: seq<Byte>): Option<seq<Byte>> {
    match Follow(t, names)
    case None => None
    case Some((_, u)) =>
      var m := FirstProp(u.props, name);
      if m < |u.props| then Some(u.props[m].1) else None
  }

  /** The first property of a written node that has the name is the tree's first one. */
  lemma FirstNamedIs(h: Header, b: seq<Byte>, rsv: seq<Reserve>, toks: seq<Token>, log: seq<Entry>, at: nat, t: Tree,
                     name: seq<Byte>, j: nat)
    requires Finished(h, b, rsv, toks, log) && h.totalsize < INT_MAX && PartAt(log, at, Calls(t))
    requires FirstNamed(Blob(h, b), toks, at, j, name)
    ensures var m := FirstProp(t.props, name); m < |t.props| && toks[j].value == t.props[m].1
  {
    var d, m := Blob(h, b), FirstProp(t.props, name);
    HeadStops(h, b, rsv, toks, log, at, t, j);
    PropToken(h, b, rsv, toks, log, at, t, j - at - 1);
    StringUnique(b, h.offStrings + toks[j].nameoff, StringsEnd(h), StringsEnd(h), name, t.props[j - at - 1].0);
    if m < j - at - 1 {
      PropToken(h, b, rsv, toks, log, at, t, m);
      assert Named(d, toks, at + 1 + m, name);
    }
  }

  lemma NoneNamedIs(h: Header, b: seq<Byte>, rsv: seq<Reserve>, toks: seq<Token>, log: seq<Entry>, at: nat, t: Tree,
                    name: seq<Byte>)
    requires Finished(h, b, rsv, toks, log) && h.totalsize < INT_MAX && PartAt(log, at, Calls(t))
    requires NoneNamed(Blob(h, b), toks, at, name)
    ensures FirstProp(t.props, name) == |t.props|
  {
    var m := FirstProp(t.props, name);
    if m < |t.props| {
      PropToken(h, b, rsv, toks, log, at, t, m);
      forall k | at < k <= at + 1 + m ensures HeadToken(toks, k) {
        PropToken(h, b, rsv, toks, log, at, t, k - at - 1);
      }
      assert InHead(toks, at, at + 1 + m) && Named(Blob(h, b), toks, at + 1 + m, name);
    }
  }

  /** In a written tree, looking up a path and then a property of the node found gives the tree's own value. */
  method ReadProperty(h: Header, b: seq<Byte>, path: seq<Byte>, name: seq<Byte>, ghost rsv: seq<Reserve>,
                      ghost toks: seq<Token>, ghost t: Tree)
    returns (r: Option<seq<Byte>>)
    requires Finished(h, b, rsv, toks, Calls(t)) && h.totalsize < INT_MAX
    requires path != [] && path[0] == SLASH
    ensures r == ValueAt(t, Names(path), name)
  {
    FinishedIsWhole(h, b, rsv, toks, Calls(t));
    var offset, c := PathOffset(Blob(h, b), path, toks);
    if offset < 0 {
      NoPathEnd(h, b, rsv, toks, t, Names(path));
      return None;
    }
    PathEnd(h, b, rsv, toks, t, Names(path), c);
    ghost var u := Follow(t, Names(path)).value.1;
    HeadEnds(h, b, rsv, toks, Calls(t), c, u);
    var value, j := GetProp(Blob(h, b), offset, name, toks, c);
    if value.Failed? {
      NoneNamedIs(h, b, rsv, toks, Calls(t), c, u, name);
      return None;
    }
    FirstNamedIs(h, b, rsv, toks, Calls(t), c, u, name, j);
    return Some(value.value);
  }

  lemma PathEnd(h: Header, b: seq<Byte>, rsv: seq<Reserve>, toks: seq<Token>, t: Tree, names: seq<seq<Byte>>, c: nat)
    requires Finished(h, b, rsv, toks, Calls(t)) && SameEnds(toks, 0, names, c, [])
    ensures Follow(t, names).Some? && PartAt(Calls(t), c, Calls(Follow(t, names).value.1))
  {
    assert PartAt(Calls(t), 0, Calls(t));
    assert Leads(toks, c, [], c);
    PathFindsNode(h, b, rsv, toks, Calls(t), 0, t, names, c);
  }

  lemma NoPathEnd(h: Header, b: seq<Byte>, rsv: seq<Reserve>, toks: seq<Token>, t: Tree, names: seq<seq<Byte>>)
    requires Finished(h, b, rsv, toks, Calls(t)) && NoEnd(toks, 0, names)
    ensures Follow(t, names).None?
  {
    assert PartAt(Calls(t), 0, Calls(t));
    if Follow(t, names).Some? {
      PathFindsNode(h, b, rsv, toks, Calls(t), 0, t, names, Follow(t, names).value.0);
    }
  }
}
