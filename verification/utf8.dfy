/** The terminal's byte-at-a-time UTF-8 decoder, outside escape sequences, against sections 3 and 4 of RFC 3629. */
module Utf8 {

  type Byte = x: nat | x < 0x100

  const MAX_CODE_POINT := 0x10FFFF
  const BAD := 0xFFFF_FFFF_FFFF_FFFF   // marks a sequence that has been given up

  /** What a byte makes the terminal do: a code point looked up, the replacement shown, or the byte taken by itself. */
  datatype Event = Glyph(cp: nat) | Replacement | Plain(c: Byte)

  datatype Decoder = Decoder(remaining: nat, cp: nat)

  // ---- the decoder -----------------------------------------------------------------

  predicate Continuation(c: Byte) { 0x80 <= c < 0xC0 }

  /** The weight of the lowest bit of a continuation byte when `n` more bytes are to follow. */
  function Weight(n: nat): nat {
    if n == 0 then 1 else if n == 1 then 0x40 else if n == 2 then 0x1000 else 0x4_0000
  }

  /** A byte that does not continue a sequence: it starts one, or it is taken by itself. */
  function Fresh(d: Decoder, c: Byte): (Decoder, seq<Event>) {
    if 0xC2 <= c <= 0xDF then (Decoder(1, (c - 0xC0) * 0x40), [])
    else if 0xE0 <= c <= 0xEF then (Decoder(2, (c - 0xE0) * 0x1000), [])
    else if 0xF0 <= c <= 0xF4 then (Decoder(3, (c - 0xF0) * 0x4_0000), [])
    else (d.(remaining := 0), [Plain(c)])
  }

  /** The code point with the bits of one more continuation byte, which fall where it has none yet. */
  function Extended(d: Decoder, c: Byte): nat
    requires d.remaining > 0 && Continuation(c)
  {
    if d.cp == BAD then BAD else d.cp + (c - 0x80) * Weight(d.remaining - 1)
  }

  function Step(d: Decoder, c: Byte): (Decoder, seq<Event>) {
    if d.remaining == 0 then Fresh(d, c)
    else if !Continuation(c) then
      var (next, events) := Fresh(Decoder(0, 0), c);
      (next, (if d.cp > MAX_CODE_POINT then [] else [Replacement]) + events)
    else
      var left, cp := d.remaining - 1, Extended(d, c);
      if cp > MAX_CODE_POINT then (Decoder(left, cp), [])
      else if (left == 1 && cp < 0x800) || (left == 2 && cp < 0x1_0000) || (left == 2 && cp > MAX_CODE_POINT) then
        (Decoder(left, BAD), [Replacement])
      else if left != 0 then (Decoder(left, cp), [])
      else if 0xD800 <= cp <= 0xDFFF then Fresh(Decoder(0, cp), c)
      else (Decoder(0, cp), [Glyph(cp)])
  }

  function Run(d: Decoder, bytes: seq<Byte>): (Decoder, seq<Event>)
    decreases |bytes|
  {
    if bytes == [] then (d, [])
    else
      var (next, events) := Step(d, bytes[0]);
      var (last, more) := Run(next, bytes[1..]);
      (last, events + more)
  }

  // ---- the encoding ----------------------------------------------------------------

  predicate Scalar(cp: nat) { cp <= MAX_CODE_POINT && !(0xD800 <= cp <= 0xDFFF) }

  /** The multi-byte encodings. */
  function Encoded(cp: nat): seq<Byte>
    requires 0x80 <= cp && Scalar(cp)
  {
    if cp < 0x800 then [0xC0 + cp / 0x40, 0x80 + cp % 0x40]
    else if cp < 0x1_0000 then [0xE0 + cp / 0x1000, 0x80 + cp / 0x40 % 0x40, 0x80 + cp % 0x40]
    else [0xF0 + cp / 0x4_0000, 0x80 + cp / 0x1000 % 0x40, 0x80 + cp / 0x40 % 0x40, 0x80 + cp % 0x40]
  }

  lemma Digits(cp: nat)
    ensures cp == cp / 0x40 * 0x40 + cp % 0x40
    ensures cp / 0x40 == cp / 0x1000 * 0x40 + cp / 0x40 % 0x40
    ensures cp / 0x1000 == cp / 0x4_0000 * 0x40 + cp / 0x1000 % 0x40
  {
    assert cp / 0x40 / 0x40 == cp / 0x1000;
    assert cp / 0x1000 / 0x40 == cp / 0x4_0000;
  }

  /** What is shown for a sequence that a new one interrupts. */
  function Interrupted(d: Decoder): seq<Event> {
    if d.remaining == 0 || d.cp > MAX_CODE_POINT then [] else [Replacement]
  }

  lemma RunTwo(d: Decoder, a: Byte, b: Byte)
    ensures var (d1, e1) := Step(d, a);
            var (d2, e2) := Step(d1, b);
            Run(d, [a, b]) == (d2, e1 + e2)
  {
    assert [a, b][1..] == [b] && [b][1..] == [];
    var (d1, e1) := Step(d, a);
    var (d2, e2) := Step(d1, b);
    assert Run(d2, []) == (d2, []) && e2 + [] == e2;
    assert Run(d1, [b]) == (d2, e2);
  }

  lemma RunMore(d: Decoder, a: Byte, rest: seq<Byte>)
    ensures var (d1, e1) := Step(d, a);
            var (d2, e2) := Run(d1, rest);
            Run(d, [a] + rest) == (d2, e1 + e2)
  {
    assert ([a] + rest)[1..] == rest;
  }

  /**
   * From whatever state, a well-formed sequence reaches glyph mapping with exactly its code point; a sequence
   * it interrupts is shown as one replacement at most, and the decoder is in step again.
   */
  lemma WellFormedIsDecoded(d: Decoder, cp: nat)
    requires 0x80 <= cp && Scalar(cp)
    ensures Run(d, Encoded(cp)) == (Decoder(0, cp), Interrupted(d) + [Glyph(cp)])
  {
    Digits(cp);
    var e := Encoded(cp);
    var (d1, e1) := Step(d, e[0]);
    assert e1 == Interrupted(d);
    if cp < 0x800 {
      RunTwo(d, e[0], e[1]);
    } else if cp < 0x1_0000 {
      ThreeBytes(d1, cp);
      assert e == [e[0]] + e[1..] && e[1..] == [e[1], e[2]];
      RunMore(d, e[0], e[1..]);
    } else {
      FourBytes(d1, cp);
      assert e == [e[0]] + e[1..] && e[1..] == [e[1], e[2], e[3]];
      RunMore(d, e[0], e[1..]);
    }
  }

  lemma ThreeBytes(d: Decoder, cp: nat)
    requires 0x800 <= cp < 0x1_0000 && Scalar(cp) && d == Decoder(2, cp / 0x1000 * 0x1000)
    ensures Run(d, [Encoded(cp)[1], Encoded(cp)[2]]) == (Decoder(0, cp), [Glyph(cp)])
  {
    Digits(cp);
    var e := Encoded(cp);
    assert Step(d, e[1]) == (Decoder(1, cp / 0x40 * 0x40), []);
    LastByte(cp);
    RunTwo(d, e[1], e[2]);
    assert [] + [Glyph(cp)] == [Glyph(cp)];
  }

  lemma LastByte(cp: nat)
    requires 0x800 <= cp && Scalar(cp)
    ensures Step(Decoder(1, cp / 0x40 * 0x40), 0x80 + cp % 0x40) == (Decoder(0, cp), [Glyph(cp)])
  {
    Digits(cp);
  }

  lemma FourBytes(d: Decoder, cp: nat)
    requires 0x1_0000 <= cp && Scalar(cp) && d == Decoder(3, cp / 0x4_0000 * 0x4_0000)
    ensures Run(d, [Encoded(cp)[1], Encoded(cp)[2], Encoded(cp)[3]]) == (Decoder(0, cp), [Glyph(cp)])
  {
    Digits(cp);
    var e := Encoded(cp);
    var d1 := Decoder(2, cp / 0x1000 * 0x1000);
    assert Step(d, e[1]) == (d1, []);
    assert Step(d1, e[2]) == (Decoder(1, cp / 0x40 * 0x40), []);
    LastByte(cp);
    RunTwo(d1, e[2], e[3]);
    RunMore(d, e[1], [e[2], e[3]]);
    assert [e[1]] + [e[2], e[3]] == [e[1], e[2], e[3]] && [] + [Glyph(cp)] == [Glyph(cp)];
  }

  // ---- nothing else is decoded -----------------------------------------------------

  /** The bytes of the sequence that is being read. */
  function Tail(d: Decoder, tail: seq<Byte>, c: Byte): seq<Byte> {
    if Step(d, c).0.remaining == 0 then []
    else if d.remaining > 0 && Continuation(c) then tail + [c]
    else [c]
  }

  function Over(c: Byte, base: nat): int { c - base }

  /** `tail` is how a well-formed sequence may begin, its bits are those of the code point, and the rest is to come. */
  predicate Beginning(d: Decoder, tail: seq<Byte>) {
    || (|tail| == 1 && d.remaining == 1 && 0xC2 <= tail[0] <= 0xDF && d.cp == Over(tail[0], 0xC0) * 0x40)
    || (|tail| == 1 && d.remaining == 2 && 0xE0 <= tail[0] <= 0xEF && d.cp == Over(tail[0], 0xE0) * 0x1000)
    || (|tail| == 1 && d.remaining == 3 && 0xF0 <= tail[0] <= 0xF4 && d.cp == Over(tail[0], 0xF0) * 0x4_0000)
    || (|tail| == 2 && d.remaining == 1 && 0xE0 <= tail[0] <= 0xEF && Continuation(tail[1])
        && d.cp == Over(tail[0], 0xE0) * 0x1000 + Over(tail[1], 0x80) * 0x40 >= 0x800)
    || (|tail| == 2 && d.remaining == 2 && 0xF0 <= tail[0] <= 0xF4 && Continuation(tail[1])
        && d.cp == Over(tail[0], 0xF0) * 0x4_0000 + Over(tail[1], 0x80) * 0x1000 >= 0x1_0000)
    || (|tail| == 3 && d.remaining == 1 && 0xF0 <= tail[0] <= 0xF4 && Continuation(tail[1]) && Continuation(tail[2])
        && d.cp == Over(tail[0], 0xF0) * 0x4_0000 + Over(tail[1], 0x80) * 0x1000
                   + Over(tail[2], 0x80) * 0x40 >= 0x1_0000)
  }

  /** Outside a sequence, in one that has been given up, or in one that may still turn out well-formed. */
  predicate Tracks(d: Decoder, tail: seq<Byte>) {
    d.remaining <= 3 && (d.remaining == 0 || d.cp > MAX_CODE_POINT || Beginning(d, tail))
  }

  lemma StepTracks(d: Decoder, tail: seq<Byte>, c: Byte)
    requires Tracks(d, tail)
    ensures Tracks(Step(d, c).0, Tail(d, tail, c))
  {
  }

  /** A code point is looked up only at the end of its own well-formed encoding. */
  lemma GlyphEndsItsEncoding(d: Decoder, tail: seq<Byte>, c: Byte, i: nat)
    requires Tracks(d, tail) && i < |Step(d, c).1| && Step(d, c).1[i].Glyph?
    ensures var cp := Step(d, c).1[i].cp;
            0x80 <= cp && Scalar(cp) && tail + [c] == Encoded(cp)
  {
    var cp := Step(d, c).1[i].cp;
    assert d.remaining == 1 && Continuation(c) && Beginning(d, tail);
    if |tail| == 1 {
      Unpack(tail[0] - 0xC0, 0, 0, c - 0x80, cp);
    } else if |tail| == 2 {
      Unpack(tail[1] - 0x80, tail[0] - 0xE0, 0, c - 0x80, cp);
    } else {
      Unpack(tail[2] - 0x80, tail[1] - 0x80, tail[0] - 0xF0, c - 0x80, cp);
    }
  }

  lemma Unpack(b: nat, a: nat, top: nat, low: nat, cp: nat)
    requires b < 0x40 && a < 0x40 && low < 0x40 && cp == top * 0x4_0000 + a * 0x1000 + b * 0x40 + low
    ensures cp % 0x40 == low && cp / 0x40 % 0x40 == b && cp / 0x1000 % 0x40 == a && cp / 0x4_0000 == top
    ensures top == 0 ==> cp / 0x1000 == a && (a == 0 ==> cp / 0x40 == b)
  {
    assert cp / 0x40 == top * 0x1000 + a * 0x40 + b;
    assert cp / 0x1000 == top * 0x40 + a;
  }

  /** The bytes of the sequence being read, after a whole input. */
  function TailOf(d: Decoder, tail: seq<Byte>, bytes: seq<Byte>): seq<Byte>
    decreases |bytes|
  {
    if bytes == [] then tail else TailOf(Step(d, bytes[0]).0, Tail(d, tail, bytes[0]), bytes[1..])
  }

  /** An encoding that ends at the end of a prefix of the input. */
  predicate EndsWith(bytes: seq<Byte>, e: seq<Byte>) {
    |e| <= |bytes| && bytes[|bytes| - |e|..] == e
  }

  predicate Stands(bytes: seq<Byte>, cp: nat) {
    0x80 <= cp && Scalar(cp) && exists i :: 0 <= i <= |bytes| && EndsWith(bytes[..i], Encoded(cp))
  }

  /**
   * Whatever the input: no overlong form, surrogate or value above the range is ever looked up, and what is
   * looked up stands in the input, encoded.
   */
  lemma OnlyWellFormedIsDecoded(bytes: seq<Byte>, i: nat)
    requires i < |Run(Decoder(0, 0), bytes).1| && Run(Decoder(0, 0), bytes).1[i].Glyph?
    ensures Stands(bytes, Run(Decoder(0, 0), bytes).1[i].cp)
  {
    FromMiddle(Decoder(0, 0), [], [], bytes, i);
    assert [] + bytes == bytes;
  }

  /** The same for an input of which `before` has been read, with `tail` its unfinished end. */
  lemma {:induction false} FromMiddle(d: Decoder, tail: seq<Byte>, before: seq<Byte>, bytes: seq<Byte>, i: nat)
    requires Tracks(d, tail) && (d.remaining > 0 && d.cp <= MAX_CODE_POINT ==> EndsWith(before, tail))
    requires i < |Run(d, bytes).1| && Run(d, bytes).1[i].Glyph?
    ensures Stands(before + bytes, Run(d, bytes).1[i].cp)
    decreases |bytes|
  {
    var c := bytes[0];
    var (next, events) := Step(d, c);
    StepTracks(d, tail, c);
    var now := before + [c];
    assert now + bytes[1..] == before + bytes;
    if i < |events| {
      GlyphEndsItsEncoding(d, tail, c, i);
      assert EndsWith(now, tail + [c]);
      assert (before + bytes)[..|now|] == now;
    } else {
      TailEnds(d, tail, before, c);
      FromMiddle(next, Tail(d, tail, c), now, bytes[1..], i - |events|);
    }
  }

  lemma TailEnds(d: Decoder, tail: seq<Byte>, before: seq<Byte>, c: Byte)
    requires Tracks(d, tail) && (d.remaining > 0 && d.cp <= MAX_CODE_POINT ==> EndsWith(before, tail))
    ensures var next := Step(d, c).0;
            next.remaining > 0 && next.cp <= MAX_CODE_POINT ==> EndsWith(before + [c], Tail(d, tail, c))
  {
  }

  // ---- where the code does not do what its comment says ----------------------------

  /** A byte with which a sequence that began with `lead` can no longer be well-formed. */
  predicate Hopeless(lead: Byte, c: Byte) {
    (lead == 0xE0 && c < 0xA0) || (lead == 0xF0 && c < 0x90) || (lead == 0xF4 && c > 0x8F)
  }

  /** Such sequences are given up at once; a replacement is shown for all but those above the range, which vanish. */
  lemma GivenUpAtOnce(lead: Byte, c: Byte)
    requires 0xE0 <= lead <= 0xF4 && Continuation(c)
    ensures var (d, events) := Step(Fresh(Decoder(0, 0), lead).0, c);
            && (d.cp > MAX_CODE_POINT <==> Hopeless(lead, c))
            && (events == [Replacement] <==> Hopeless(lead, c) && lead != 0xF4)
            && (events != [Replacement] ==> events == [])
  {
  }

  /** The four bytes that would encode 0x110000: nothing is shown for them. */
  lemma AboveTheRangeIsSilent()
    ensures Run(Decoder(0, 0), [0xF4, 0x90, 0x80, 0x80]).1 == []
  {
    var d0, d1 := Decoder(0, 0), Decoder(3, 4 * 0x4_0000);
    var d2, d3 := Decoder(2, 0x11_0000), Decoder(1, 0x11_0000);
    assert Step(d0, 0xF4) == (d1, []) && Step(d1, 0x90) == (d2, []) && Step(d2, 0x80) == (d3, []);
    assert Step(d3, 0x80) == (Decoder(0, 0x11_0000), []);
    RunTwo(d2, 0x80, 0x80);
    RunMore(d1, 0x90, [0x80, 0x80]);
    RunMore(d0, 0xF4, [0x90, 0x80, 0x80]);
    assert [0xF4] + [0x90, 0x80, 0x80] == [0xF4, 0x90, 0x80, 0x80] && [0x90] + [0x80, 0x80] == [0x90, 0x80, 0x80];
  }

  // ---- as it runs ------------------------------------------------------------------

  class Terminal {
    var unicodeRemaining: nat
    var codePoint: nat

    constructor ()
      ensures View() == Decoder(0, 0)
    {
      unicodeRemaining, codePoint := 0, 0;
    }

    ghost function View(): Decoder
      reads this
    {
      Decoder(unicodeRemaining, codePoint)
    }

    /** One byte, in the order of the source: the pending sequence first, then what the byte is by itself. */
    method PutChar(c: Byte) returns (events: seq<Event>)
      modifies this
      ensures (View(), events) == Step(old(View()), c)
    {
      events := [];
      if unicodeRemaining != 0 {
        if !Continuation(c) {
          var alreadyErrored := codePoint > MAX_CODE_POINT;
          unicodeRemaining, codePoint := 0, 0;
          if !alreadyErrored {
            events := [Replacement];
          }
        } else {
          unicodeRemaining := unicodeRemaining - 1;
          codePoint := if codePoint == BAD then BAD else codePoint + (c - 0x80) * Weight(unicodeRemaining);
          if codePoint > MAX_CODE_POINT {
            return [];
          }
          if (unicodeRemaining == 1 && codePoint < 0x800) || (unicodeRemaining == 2 && codePoint < 0x1_0000)
             || (unicodeRemaining == 2 && codePoint > MAX_CODE_POINT) {
            codePoint := BAD;
            return [Replacement];
          }
          if unicodeRemaining != 0 {
            return [];
          }
          if !(0xD800 <= codePoint <= 0xDFFF) {
            return [Glyph(codePoint)];
          }
        }
      }
      assert events + [] == events && [] + [Plain(c)] == [Plain(c)];
      if 0xC2 <= c <= 0xDF {
        unicodeRemaining, codePoint := 1, (c - 0xC0) * 0x40;
      } else if 0xE0 <= c <= 0xEF {
        unicodeRemaining, codePoint := 2, (c - 0xE0) * 0x1000;
      } else if 0xF0 <= c <= 0xF4 {
        unicodeRemaining, codePoint := 3, (c - 0xF0) * 0x4_0000;
      } else {
        events := events + [Plain(c)];
      }
    }
  }
}
