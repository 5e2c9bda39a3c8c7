/** Device trees, and the calls that write them. */
module FdtTree {
  import opened FdtFormat
  import opened Fdt
  import opened FdtRo
  import opened FdtCheck
  import opened FdtSw
  import opened FdtLookup
  import opened FdtRoundTrip

  /** A node: its properties come before its subnodes (section 5.4.2 of the Devicetree Specification, v0.4). */
  datatype Tree = Tree(name: seq<Byte>, props: seq<(seq<Byte>, seq<Byte>)>, children: seq<Tree>)

  function PropCalls(props: seq<(seq<Byte>, seq<Byte>)>): (log: seq<Entry>)
    ensures |log| == |props| && forall i :: 0 <= i < |props| ==> log[i] == Property(props[i].0, props[i].1)
  {
    if props == [] then [] else [Property(props[0].0, props[0].1)] + PropCalls(props[1..])
  }

  /** The calls that write a tree. */
  function Calls(t: Tree): (log: seq<Entry>)
    ensures |log| >= 2
  {
    [OpenNode(t.name)] + PropCalls(t.props) + ForestCalls(t.children) + [CloseNode]
  }

  function ForestCalls(ts: seq<Tree>): seq<Entry> {
    if ts == [] then [] else Calls(ts[0]) + ForestCalls(ts[1..])
  }

  // ---- a tree's calls nest --------------------------------------------------------

  /** The calls `part` stand at `at`. */
  ghost predicate PartAt(log: seq<Entry>, at: nat, part: seq<Entry>) {
    at + |part| <= |log| && log[at..at + |part|] == part
  }

  lemma PartSplits(log: seq<Entry>, at: nat, a: seq<Entry>, b: seq<Entry>)
    requires PartAt(log, at, a + b)
    ensures PartAt(log, at, a) && PartAt(log, at + |a|, b)
  {
    var ab := log[at..at + |a + b|];
    assert log[at..at + |a|] == ab[..|a|];
    assert log[at + |a|..at + |a| + |b|] == ab[|a|..];
  }

  /** A part that starts at depth `d` goes no higher before its end, and ends at depth `d` again. */
  ghost predicate Balanced(log: seq<Entry>, at: nat, n: nat, d: int) {
    && at + n <= |log|
    && CallDepth(log, at) == d && CallDepth(log, at + n) == d
    && forall i :: at <= i < at + n ==> NotClosing(log, i, d)
  }

  ghost predicate NotClosing(log: seq<Entry>, i: nat, d: int)
    requires i < |log|
  {
    CallDepth(log, i) >= d && (log[i] == CloseNode ==> CallDepth(log, i) > d)
  }

  lemma {:induction false} PropsBalanced(log: seq<Entry>, at: nat, props: seq<(seq<Byte>, seq<Byte>)>, n: nat, d: int)
    requires PartAt(log, at, PropCalls(props)) && n <= |props| && CallDepth(log, at) == d
    ensures Balanced(log, at, n, d)
  {
    if n > 0 {
      PropsBalanced(log, at, props, n - 1, d);
      assert log[at + n - 1] == log[at..at + |props|][n - 1] == PropCalls(props)[n - 1];
      OneMoreBalanced(log, at, n - 1, d);
    }
  }

  lemma OneMoreBalanced(log: seq<Entry>, at: nat, n: nat, d: int)
    requires Balanced(log, at, n, d) && at + n < |log| && log[at + n].Property?
    ensures Balanced(log, at, n + 1, d)
  {
    forall i | at <= i < at + n + 1 ensures NotClosing(log, i, d) {
      if i >= at + n { assert i == at + n; }
    }
  }

  lemma BalancedTwice(log: seq<Entry>, at: nat, n: nat, m: nat, d: int)
    requires Balanced(log, at, n, d) && Balanced(log, at + n, m, d)
    ensures Balanced(log, at, n + m, d)
  {
    forall i | at <= i < at + n + m ensures NotClosing(log, i, d) {
      if i < at + n { assert NotClosing(log, i, d); } else { assert NotClosing(log, i, d); }
    }
  }

  /** Where the parts of a node's calls stand. */
  lemma TreeParts(log: seq<Entry>, at: nat, t: Tree)
    requires PartAt(log, at, Calls(t))
    ensures var props, kids := |t.props|, |ForestCalls(t.children)|;
            && |Calls(t)| == props + kids + 2
            && log[at] == OpenNode(t.name) && log[at + 1 + props + kids] == CloseNode
            && PartAt(log, at + 1, PropCalls(t.props)) && PartAt(log, at + 1 + props, ForestCalls(t.children))
  {
    var open, props, kids := [OpenNode(t.name)], PropCalls(t.props), ForestCalls(t.children);
    PartSplits(log, at, open + props + kids, [CloseNode]);
    PartSplits(log, at, open + props, kids);
    PartSplits(log, at, open, props);
    var c := at + 1 + |props| + |kids|;
    assert log[at] == log[at..at + 1][0] && log[c] == log[c..c + 1][0];
  }

  lemma {:induction false} TreeBalanced(log: seq<Entry>, at: nat, t: Tree, d: int)
    requires PartAt(log, at, Calls(t)) && CallDepth(log, at) == d
    ensures Balanced(log, at, |Calls(t)|, d) && NodeAt(log, at, |Calls(t)|, d) && log[at] == OpenNode(t.name)
    decreases t, 1
  {
    var props, kids := |t.props|, |ForestCalls(t.children)|;
    TreeParts(log, at, t);
    PropsBalanced(log, at + 1, t.props, props, d + 1);
    ForestBalanced(log, at + 1 + props, t.children, d + 1);
    BalancedTwice(log, at + 1, props, kids, d + 1);
    Bracketed(log, at, props + kids, d);
  }

  /** The node's own depth is reached only at its first and behind its last call. */
  ghost predicate NodeAt(log: seq<Entry>, at: nat, n: nat, d: int) {
    && n >= 2 && at + n <= |log| && log[at + n - 1] == CloseNode && CallDepth(log, at + n - 1) == d + 1
    && Balanced(log, at + 1, n - 2, d + 1)
  }

  lemma Bracketed(log: seq<Entry>, at: nat, n: nat, d: int)
    requires at + n + 2 <= |log| && log[at].OpenNode? && log[at + n + 1] == CloseNode
    requires CallDepth(log, at) == d && Balanced(log, at + 1, n, d + 1)
    ensures Balanced(log, at, n + 2, d) && NodeAt(log, at, n + 2, d)
  {
    forall i | at <= i < at + n + 2 ensures NotClosing(log, i, d) {
      if at < i < at + n + 1 { assert NotClosing(log, i, d + 1); }
    }
  }

  lemma {:induction false} ForestBalanced(log: seq<Entry>, at: nat, ts: seq<Tree>, d: int)
    requires PartAt(log, at, ForestCalls(ts)) && CallDepth(log, at) == d
    ensures Balanced(log, at, |ForestCalls(ts)|, d)
    decreases ts, 0
  {
    if ts != [] {
      PartSplits(log, at, Calls(ts[0]), ForestCalls(ts[1..]));
      TreeBalanced(log, at, ts[0], d);
      ForestBalanced(log, at + |Calls(ts[0])|, ts[1..], d);
      BalancedTwice(log, at, |Calls(ts[0])|, |ForestCalls(ts[1..])|, d);
    }
  }

  /** The calls of a tree nest exactly when its root has an empty name. */
  lemma TreeNests(t: Tree)
    ensures Nested(Calls(t)) <==> t.name == []
  {
    var log := Calls(t);
    assert log[0..0 + |log|] == log;
    TreeBalanced(log, 0, t, 0);
    forall i | 0 <= i < |log| ensures CallFits(log, i) <==> (i == 0 ==> t.name == []) {
      if 0 < i < |log| - 1 { assert NotClosing(log, i, 1); }
    }
    assert CallFits(log, 0) <==> t.name == [];
  }

  // ---- a tree's calls determine it ------------------------------------------------

  lemma CallsInOrder(t: Tree, rest: seq<Entry>)
    ensures Calls(t) + rest ==
            [OpenNode(t.name)] + (PropCalls(t.props) + (ForestCalls(t.children) + ([CloseNode] + rest)))
  {
  }

  lemma HeadAndTail<T>(x: T, y: T, xs: seq<T>, ys: seq<T>)
    requires [x] + xs == [y] + ys
    ensures x == y && xs == ys
  {
    assert ([x] + xs)[0] == x && ([y] + ys)[0] == y;
    assert ([x] + xs)[1..] == xs && ([y] + ys)[1..] == ys;
  }

  lemma {:induction false} SameTree(t: Tree, t': Tree, rest: seq<Entry>, rest': seq<Entry>)
    requires Calls(t) + rest == Calls(t') + rest'
    ensures t == t' && rest == rest'
    decreases t, 1
  {
    CallsInOrder(t, rest);
    CallsInOrder(t', rest');
    var tail, tail' := ForestCalls(t.children) + ([CloseNode] + rest), ForestCalls(t'.children) + ([CloseNode] + rest');
    HeadAndTail(OpenNode(t.name), OpenNode(t'.name), PropCalls(t.props) + tail, PropCalls(t'.props) + tail');
    ForestStart(t.children, rest);
    ForestStart(t'.children, rest');
    SameProps(t.props, t'.props, tail, tail');
    SameForest(t.children, t'.children, rest, rest');
  }

  lemma ForestStart(ts: seq<Tree>, rest: seq<Entry>)
    ensures var log := ForestCalls(ts) + ([CloseNode] + rest);
            |log| > 0 && !log[0].Property? && (log[0] == CloseNode <==> ts == [])
  {
    if ts != [] { assert Calls(ts[0])[0] == OpenNode(ts[0].name); }
  }

  lemma {:induction false} SameProps(p: seq<(seq<Byte>, seq<Byte>)>, p': seq<(seq<Byte>, seq<Byte>)>,
                                     tail: seq<Entry>, tail': seq<Entry>)
    requires PropCalls(p) + tail == PropCalls(p') + tail'
    requires |tail| > 0 && |tail'| > 0 && !tail[0].Property? && !tail'[0].Property?
    ensures p == p' && tail == tail'
  {
    var log, log' := PropCalls(p) + tail, PropCalls(p') + tail';
    assert log[0] == (if p == [] then tail[0] else Property(p[0].0, p[0].1));
    assert log'[0] == (if p' == [] then tail'[0] else Property(p'[0].0, p'[0].1));
    if p == [] {
      assert p' == [];
      assert log == tail;
      assert log' == tail';
    } else {
      assert log[1..] == PropCalls(p[1..]) + tail && log'[1..] == PropCalls(p'[1..]) + tail';
      SameProps(p[1..], p'[1..], tail, tail');
      assert p == [p[0]] + p[1..] && p' == [p'[0]] + p'[1..];
    }
  }

  lemma {:induction false} SameForest(ts: seq<Tree>, ts': seq<Tree>, rest: seq<Entry>, rest': seq<Entry>)
    requires ForestCalls(ts) + ([CloseNode] + rest) == ForestCalls(ts') + ([CloseNode] + rest')
    ensures ts == ts' && rest == rest'
    decreases ts, 0
  {
    ForestStart(ts, rest);
    ForestStart(ts', rest');
    if ts == [] {
      assert ForestCalls(ts) + ([CloseNode] + rest) == [CloseNode] + rest;
      assert ForestCalls(ts') + ([CloseNode] + rest') == [CloseNode] + rest';
      assert ([CloseNode] + rest)[1..] == rest && ([CloseNode] + rest')[1..] == rest';
    } else {
      var r, r' := ForestCalls(ts[1..]) + ([CloseNode] + rest), ForestCalls(ts'[1..]) + ([CloseNode] + rest');
      assert Calls(ts[0]) + r == ForestCalls(ts) + ([CloseNode] + rest);
      assert Calls(ts'[0]) + r' == ForestCalls(ts') + ([CloseNode] + rest');
      SameTree(ts[0], ts'[0], r, r');
      SameForest(ts[1..], ts'[1..], rest, rest');
      assert ts == [ts[0]] + ts[1..] && ts' == [ts'[0]] + ts'[1..];
    }
  }

  // ---- the round trip -------------------------------------------------------------

  /** Writing a tree whose root has an empty name gives a blob that the validator accepts, and from
      which no other tree and no other reserve map can be read. */
  lemma TreeRoundTrip(h: Header, b: seq<Byte>, rsv: seq<Reserve>, toks: seq<Token>, t: Tree)
    requires Finished(h, b, rsv, toks, Calls(t)) && h.totalsize < INT_MAX
    ensures Acceptable(Blob(h, b)) <==> t.name == []
    ensures forall rsv', toks', t' :: Finished(h, b, rsv', toks', Calls(t')) ==> t' == t && rsv' == rsv
    ensures forall i :: 0 <= i < |Calls(t)| ==> ReadsBack(Blob(h, b), Offset(toks, i), Calls(t)[i])
  {
    AcceptedIffNested(h, b, rsv, toks, Calls(t));
    TreeNests(t);
    forall rsv', toks', t' | Finished(h, b, rsv', toks', Calls(t')) ensures t' == t && rsv' == rsv {
      BlobDeterminesCalls(h, b, rsv, toks, Calls(t), rsv', toks', Calls(t'));
      SameTree(t, t', [], []);
    }
    forall i | 0 <= i < |Calls(t)| ensures ReadsBack(Blob(h, b), Offset(toks, i), Calls(t)[i]) {
      CallReadsBack(h, b, rsv, toks, Calls(t), i);
    }
  }

  // ---- looking up in a written tree -----------------------------------------------

  lemma FinishedIsWhole(h: Header, b: seq<Byte>, rsv: seq<Reserve>, toks: seq<Token>, log: seq<Entry>)
    requires Finished(h, b, rsv, toks, log) && h.totalsize < INT_MAX
    ensures Whole(Blob(h, b), toks)
  {
    forall i | 0 <= i < |toks| - 1 ensures toks[i] != End { NotEnd(h, b, rsv, toks, log, i); }
  }

  predicate DistinctNames(props: seq<(seq<Byte>, seq<Byte>)>) {
    forall i, j :: 0 <= i < j < |props| ==> props[i].0 != props[j].0
  }

  /** Property `m` of the node at `at` is token `at + 1 + m`. */
  lemma PropToken(h: Header, b: seq<Byte>, rsv: seq<Reserve>, toks: seq<Token>, log: seq<Entry>, at: nat, t: Tree,
                  m: nat)
    requires Finished(h, b, rsv, toks, log) && h.totalsize < INT_MAX && PartAt(log, at, Calls(t)) && m < |t.props|
    ensures toks[at + 1 + m].Prop? && toks[at + 1 + m].value == t.props[m].1
    ensures NameAt(Blob(h, b), toks[at + 1 + m].nameoff, t.props[m].0)
  {
    assert RecordedAt(h, b, toks, log, at + 1 + m);
    assert log[at + 1 + m] == log[at..at + |Calls(t)|][1 + m] == Calls(t)[1 + m] == PropCalls(t.props)[m];
  }

  /** Behind its properties the head of a node ends. */
  lemma HeadEnds(h: Header, b: seq<Byte>, rsv: seq<Reserve>, toks: seq<Token>, log: seq<Entry>, at: nat, t: Tree)
    requires Finished(h, b, rsv, toks, log) && PartAt(log, at, Calls(t))
    ensures toks[at] == BeginNode(t.name)
    ensures !HeadToken(toks, at + 1 + |t.props|)
  {
    var c := 1 + |t.props|;
    var rest := ForestCalls(t.children) + [CloseNode];
    ForestStart(t.children, []);
    assert ForestCalls(t.children) + ([CloseNode] + []) == rest;
    assert Calls(t) == ([OpenNode(t.name)] + PropCalls(t.props)) + rest;
    assert Calls(t)[c] == rest[0];
    assert log[at] == log[at..at + |Calls(t)|][0] && log[at + c] == log[at..at + |Calls(t)|][c];
    assert RecordedAt(h, b, toks, log, at) && RecordedAt(h, b, toks, log, at + c);
  }

  lemma HeadStops(h: Header, b: seq<Byte>, rsv: seq<Reserve>, toks: seq<Token>, log: seq<Entry>, at: nat, t: Tree,
                  j: nat)
    requires Finished(h, b, rsv, toks, log) && PartAt(log, at, Calls(t)) && InHead(toks, at, j)
    ensures j < at + 1 + |t.props|
  {
    if at + 1 + |t.props| <= j { assert HeadToken(toks, at + 1 + |t.props|); }
    HeadEnds(h, b, rsv, toks, log, at, t);
  }

  /** A property lookup in a written tree finds exactly the property with that name. */
  lemma LookupFindsProperty(h: Header, b: seq<Byte>, rsv: seq<Reserve>, toks: seq<Token>, log: seq<Entry>, at: nat,
                            t: Tree,
                            m: nat, j: nat)
    requires Finished(h, b, rsv, toks, log) && h.totalsize < INT_MAX && PartAt(log, at, Calls(t))
    requires DistinctNames(t.props) && m < |t.props|
    ensures !NoneNamed(Blob(h, b), toks, at, t.props[m].0)
    ensures FirstNamed(Blob(h, b), toks, at, j, t.props[m].0) ==> toks[j].value == t.props[m].1
  {
    var d, name := Blob(h, b), t.props[m].0;
    PropToken(h, b, rsv, toks, log, at, t, m);
    forall k | at < k <= at + 1 + m ensures HeadToken(toks, k) {
      PropToken(h, b, rsv, toks, log, at, t, k - at - 1);
    }
    assert InHead(toks, at, at + 1 + m) && Named(d, toks, at + 1 + m, name);
    if FirstNamed(d, toks, at, j, name) {
      HeadStops(h, b, rsv, toks, log, at, t, j);
      PropToken(h, b, rsv, toks, log, at, t, j - at - 1);
      StringUnique(b, h.offStrings + toks[j].nameoff, StringsEnd(h), StringsEnd(h), name, t.props[j - at - 1].0);
    }
  }

  /** And nothing else. */
  lemma LookupFindsNothingElse(h: Header, b: seq<Byte>, rsv: seq<Reserve>, toks: seq<Token>, log: seq<Entry>, at: nat,
                               t: Tree,
                               name: seq<Byte>)
    requires Finished(h, b, rsv, toks, log) && h.totalsize < INT_MAX && PartAt(log, at, Calls(t))
    requires forall m :: 0 <= m < |t.props| ==> t.props[m].0 != name
    ensures NoneNamed(Blob(h, b), toks, at, name)
  {
    forall j: nat | InHead(toks, at, j) ensures !Named(Blob(h, b), toks, j, name) {
      HeadStops(h, b, rsv, toks, log, at, t, j);
      var m := j - at - 1;
      PropToken(h, b, rsv, toks, log, at, t, m);
      if Named(Blob(h, b), toks, j, name) {
        StringUnique(b, h.offStrings + toks[j].nameoff, StringsEnd(h), StringsEnd(h), name, t.props[m].0);
      }
    }
  }
}
