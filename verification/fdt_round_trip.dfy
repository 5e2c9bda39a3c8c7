/** Writer and reader undo each other. */
module FdtRoundTrip {
  import opened Collections
  import opened FdtFormat
  import opened Fdt
  import opened FdtRo
  import opened FdtCheck
  import opened FdtSw

  // ---- what a finished blob gives back --------------------------------------------

  /** Walking a finished blob, call `i` of the writer comes back with its name and value. */
  ghost predicate ReadsBack(d: Blob, off: nat, e: Entry) {
    match e
    case OpenNode(name) => TokenOf(d, off) == Some(BeginNode(name))
    case CloseNode => TokenOf(d, off) == Some(EndNode)
    case Property(name, value) =>
      && TokenOf(d, off).Some? && TokenOf(d, off).value.Prop?
      && TokenOf(d, off).value.value == value && NameAt(d, TokenOf(d, off).value.nameoff, name)
  }

  lemma CallReadsBack(h: Header, b: seq<Byte>, rsv: seq<Reserve>, toks: seq<Token>, log: seq<Entry>, i: nat)
    requires Finished(h, b, rsv, toks, log) && h.totalsize < INT_MAX && i < |log|
    ensures ReadsBack(Blob(h, b), Offset(toks, i), log[i])
  {
    assert SpeltAt(Blob(h, b), toks, i);
    assert RecordedAt(h, b, toks, log, i);
    TokenReadsBack(h, b, Offset(toks, i), toks[i], log[i]);
  }

  /** One token, found where it was written, with its name in the string table. */
  lemma TokenReadsBack(h: Header, b: seq<Byte>, off: nat, t: Token, e: Entry)
    requires TokenAt(Blob(h, b), off, t) && Recorded(h, b, t, e) && h.totalsize < INT_MAX
    requires h.version == FDT_LAST_SUPPORTED_VERSION && h.totalsize == h.offStrings + h.sizeStrings
    ensures ReadsBack(Blob(h, b), off, e)
  {
  }

  /** Two readings of one place agree. */
  lemma ReadsBackOnce(d: Blob, off: nat, e: Entry, e': Entry)
    requires ReadsBack(d, off, e) && ReadsBack(d, off, e')
    ensures e == e'
  {
    if e.Property? {
      StringUnique(d.b, d.h.offStrings + TokenOf(d, off).value.nameoff, StringsEnd(d.h), StringsEnd(d.h), e.name,
                   e'.name);
    }
  }

  lemma SameCallAt(h: Header, b: seq<Byte>, rsv: seq<Reserve>, toks: seq<Token>, log: seq<Entry>,
                   rsv': seq<Reserve>, toks': seq<Token>, log': seq<Entry>, i: nat)
    requires Finished(h, b, rsv, toks, log) && Finished(h, b, rsv', toks', log') && h.totalsize < INT_MAX
    requires i < |log| && i < |log'|
    ensures log[i] == log'[i]
  {
    CallReadsBack(h, b, rsv, toks, log, i);
    CallReadsBack(h, b, rsv', toks', log', i);
    SpellsUnique(Blob(h, b), toks, toks', i);
    ReadsBackOnce(Blob(h, b), Offset(toks, i), log[i], log'[i]);
  }

  /** No other sequence of calls gives the same blob. */
  lemma BlobDeterminesCalls(h: Header, b: seq<Byte>, rsv: seq<Reserve>, toks: seq<Token>, log: seq<Entry>,
                            rsv': seq<Reserve>, toks': seq<Token>, log': seq<Entry>)
    requires Finished(h, b, rsv, toks, log) && Finished(h, b, rsv', toks', log') && h.totalsize < INT_MAX
    ensures log == log' && rsv == rsv'
  {
    NotLonger(h, b, rsv, toks, log, rsv', toks', log');
    NotLonger(h, b, rsv', toks', log', rsv, toks, log);
    forall i | 0 <= i < |log| ensures log[i] == log'[i] {
      SameCallAt(h, b, rsv, toks, log, rsv', toks', log', i);
    }
    forall i | 0 <= i < |rsv| ensures rsv[i] == rsv'[i] {
      assert ReservedAt(b, rsv, i) && ReservedAt(b, rsv', i);
    }
  }

  lemma NotEnd(h: Header, b: seq<Byte>, rsv: seq<Reserve>, toks: seq<Token>, log: seq<Entry>, i: nat)
    requires Finished(h, b, rsv, toks, log) && i < |log|
    ensures toks[i] != End
  {
    assert RecordedAt(h, b, toks, log, i);
  }

  lemma NotLonger(h: Header, b: seq<Byte>, rsv: seq<Reserve>, toks: seq<Token>, log: seq<Entry>,
                  rsv': seq<Reserve>, toks': seq<Token>, log': seq<Entry>)
    requires Finished(h, b, rsv, toks, log) && Finished(h, b, rsv', toks', log')
    ensures |log| >= |log'|
  {
    if |log| < |log'| {
      NotEnd(h, b, rsv', toks', log', |log|);
      SpellsUnique(Blob(h, b), toks, toks', |toks|);
    }
  }

  // ---- which call sequences are accepted ------------------------------------------

  ghost function CallDepth(log: seq<Entry>, i: nat): int
    requires i <= |log|
  {
    if i == 0 then 0
    else CallDepth(log, i - 1) + match log[i - 1] case OpenNode(_) => 1 case CloseNode => -1 case Property(_, _) => 0
  }

  /** Call `i` may stand where it does. */
  ghost predicate CallFits(log: seq<Entry>, i: nat)
    requires i < |log|
  {
    match log[i]
    case OpenNode(name) => CallDepth(log, i) == 0 ==> name == []
    case CloseNode => CallDepth(log, i) > 0 && (CallDepth(log, i) == 1 ==> i == |log| - 1)
    case Property(_, _) => true
  }

  /** The calls nest: nodes are closed that were opened, a root has an empty name, and nothing follows it. */
  ghost predicate Nested(log: seq<Entry>) {
    CallDepth(log, |log|) == 0 && forall i :: 0 <= i < |log| ==> CallFits(log, i)
  }

  lemma {:induction false} SameDepth(h: Header, b: seq<Byte>, rsv: seq<Reserve>, toks: seq<Token>, log: seq<Entry>,
                                     i: nat)
    requires Finished(h, b, rsv, toks, log) && i <= |log|
    ensures Depth(toks, i) == CallDepth(log, i)
  {
    if i > 0 {
      SameDepth(h, b, rsv, toks, log, i - 1);
      assert RecordedAt(h, b, toks, log, i - 1);
    }
  }

  lemma StandsIffFits(h: Header, b: seq<Byte>, rsv: seq<Reserve>, toks: seq<Token>, log: seq<Entry>, i: nat)
    requires Finished(h, b, rsv, toks, log) && h.totalsize < INT_MAX && i < |log|
    ensures StandsAt(Blob(h, b), toks, i, |toks| - 2) <==> CallFits(log, i)
  {
    SameDepth(h, b, rsv, toks, log, i);
    assert RecordedAt(h, b, toks, log, i);
    if log[i].Property? { assert NameAt(Blob(h, b), toks[i].nameoff, log[i].name); }
  }

  lemma FinishedIsSoundIff(h: Header, b: seq<Byte>, rsv: seq<Reserve>, toks: seq<Token>, log: seq<Entry>)
    requires Finished(h, b, rsv, toks, log) && h.totalsize < INT_MAX
    ensures WellFormed(Blob(h, b), toks) <==> Nested(log)
  {
    SameDepth(h, b, rsv, toks, log, |log|);
    var d, last := Blob(h, b), |toks| - 2;
    forall i | 0 <= i < |log| ensures StandsAt(d, toks, i, last) <==> CallFits(log, i) {
      StandsIffFits(h, b, rsv, toks, log, i);
    }
  }

  /** Among all token sequences only the written one can be well formed. */
  lemma OnlyTheWrittenTokens(h: Header, b: seq<Byte>, rsv: seq<Reserve>, toks: seq<Token>, log: seq<Entry>,
                             other: seq<Token>)
    requires Finished(h, b, rsv, toks, log) && Spells(Blob(h, b), other) && WellFormed(Blob(h, b), other)
    ensures other == toks
  {
    var d := Blob(h, b);
    if |toks| < |other| {
      assert StandsAt(d, other, |toks| - 1, |other| - 2);
    }
    if |other| < |toks| {
      NotEnd(h, b, rsv, toks, log, |other| - 1);
    }
    SpellsUnique(d, toks, other, if |other| <= |toks| then |other| else |toks|);
  }

  /** The validator accepts a finished blob exactly when the calls nest. */
  lemma AcceptedIffNested(h: Header, b: seq<Byte>, rsv: seq<Reserve>, toks: seq<Token>, log: seq<Entry>)
    requires Finished(h, b, rsv, toks, log) && h.totalsize < INT_MAX
    ensures Acceptable(Blob(h, b)) <==> Nested(log)
  {
    var d := Blob(h, b);
    FinishedIsSoundIff(h, b, rsv, toks, log);
    MapEnds(h, b, rsv, toks, log);
    if Sound(d) {
      var other :| Spells(d, other) && WellFormed(d, other);
      OnlyTheWrittenTokens(h, b, rsv, toks, log, other);
    }
  }

  lemma MapEnds(h: Header, b: seq<Byte>, rsv: seq<Reserve>, toks: seq<Token>, log: seq<Entry>)
    requires Finished(h, b, rsv, toks, log)
    ensures HeaderSound(h) && exists n: nat :: ReserveMapEnds(Blob(h, b), n)
  {
    var n := FirstEmpty(rsv, 0);
    assert ReservedAt(b, rsv, n);
    forall i | 0 <= i < n ensures ReserveSizeIs(Blob(h, b), i, false) {
      assert ReservedAt(b, rsv, i);
    }
    assert ReserveMapEnds(Blob(h, b), n);
  }

  lemma {:induction false} FirstEmpty(rsv: seq<Reserve>, from: nat) returns (n: nat)
    requires from < |rsv| && rsv[|rsv| - 1].size == 0 && forall i :: 0 <= i < from ==> rsv[i].size != 0
    ensures n < |rsv| && rsv[n].size == 0 && forall i :: 0 <= i < n ==> rsv[i].size != 0
    decreases |rsv| - from
  {
    if rsv[from].size == 0 { n := from; } else { n := FirstEmpty(rsv, from + 1); }
  }
}
