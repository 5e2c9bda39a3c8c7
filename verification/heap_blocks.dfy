/** What a free list is: sorted blocks with gaps between them, determined by the bytes they cover. */
module HeapBlocks {

  /** The size of a block header; no block is smaller. */
  const HEADER := 16

  datatype Block = Block(addr: nat, size: nat) {
    function End(): nat { addr + size }

    predicate Has(x: nat) { addr <= x < addr + size }

    /** A place and a size that a header fits in. */
    predicate Fits() { addr > 0 && size >= HEADER }
  }

  ghost predicate Covers(s: seq<Block>, x: nat) {
    exists i :: 0 <= i < |s| && s[i].Has(x)
  }

  predicate Apart(a: Block, b: Block) { a.End() <= b.addr || b.End() <= a.addr }

  /** Sorted by address, with at least one byte between any two: nothing is left to coalesce. */
  ghost predicate Canonical(s: seq<Block>) {
    && (forall i :: 0 <= i < |s| ==> s[i].Fits())
    && forall i, j :: 0 <= i < j < |s| ==> s[i].End() < s[j].addr
  }

  // ---- a canonical list is determined by its bytes ---------------------------------

  /** The first block of a canonical list starts at the lowest byte and ends at the first byte not covered. */
  lemma FirstBlock(s: seq<Block>, t: seq<Block>)
    requires Canonical(s) && Canonical(t) && s != [] && t != []
    requires forall x :: Covers(s, x) <==> Covers(t, x)
    ensures s[0] == t[0]
  {
    NotBefore(s, t);
    NotBefore(t, s);
    NotLonger(s, t);
    NotLonger(t, s);
  }

  lemma NotBefore(s: seq<Block>, t: seq<Block>)
    requires Canonical(s) && Canonical(t) && s != [] && t != []
    requires forall x :: Covers(s, x) <==> Covers(t, x)
    ensures t[0].addr <= s[0].addr
  {
    assert s[0].Has(s[0].addr);
    assert Covers(t, s[0].addr);
    var i :| 0 <= i < |t| && t[i].Has(s[0].addr);
    assert i > 0 ==> t[0].End() < t[i].addr;
  }

  lemma NotLonger(s: seq<Block>, t: seq<Block>)
    requires Canonical(s) && Canonical(t) && s != [] && t != [] && s[0].addr == t[0].addr
    requires forall x :: Covers(s, x) <==> Covers(t, x)
    ensures s[0].End() <= t[0].End()
  {
    assert t[0].End() < s[0].End() ==> s[0].Has(t[0].End());
    GapAfterFirst(t);
  }

  lemma GapAfterFirst(t: seq<Block>)
    requires Canonical(t) && t != []
    ensures !Covers(t, t[0].End())
  {
    forall i | 0 <= i < |t| ensures !t[i].Has(t[0].End()) { assert i > 0 ==> t[0].End() < t[i].addr; }
  }

  lemma TailCovers(s: seq<Block>, x: nat)
    requires Canonical(s) && s != []
    ensures Canonical(s[1..]) && (Covers(s[1..], x) <==> Covers(s, x) && !s[0].Has(x))
  {
    if Covers(s[1..], x) {
      var i :| 0 <= i < |s[1..]| && s[1..][i].Has(x);
      assert s[i + 1].Has(x) && s[0].End() < s[i + 1].addr;
    }
    if Covers(s, x) && !s[0].Has(x) {
      var i :| 0 <= i < |s| && s[i].Has(x);
      assert s[1..][i - 1].Has(x);
    }
  }

  lemma StartCovered(t: seq<Block>)
    requires Canonical(t)
    ensures t == [] || Covers(t, t[0].addr)
  {
    if t != [] { assert t[0].Has(t[0].addr); }
  }

  lemma {:induction false} CanonicalUnique(s: seq<Block>, t: seq<Block>)
    requires Canonical(s) && Canonical(t) && forall x :: Covers(s, x) <==> Covers(t, x)
    ensures s == t
    decreases |s|
  {
    if s != [] {
      assert s[0].Has(s[0].addr) && Covers(s, s[0].addr);
      FirstBlock(s, t);
      forall x ensures Covers(s[1..], x) <==> Covers(t[1..], x) {
        TailCovers(s, x);
        TailCovers(t, x);
      }
      TailCovers(s, 0);
      TailCovers(t, 0);
      CanonicalUnique(s[1..], t[1..]);
      assert s == [s[0]] + s[1..] && t == [t[0]] + t[1..];
    } else {
      StartCovered(t);
    }
  }

  // ---- putting a block in ----------------------------------------------------------

  /** How many blocks lie in front of an address. */
  function Below(s: seq<Block>, addr: nat): (k: nat)
    ensures k <= |s|
  {
    if s == [] || addr <= s[0].addr then 0 else 1 + Below(s[1..], addr)
  }

  lemma BelowSplits(s: seq<Block>, addr: nat)
    requires Canonical(s)
    ensures var k := Below(s, addr);
            (forall i :: 0 <= i < k ==> s[i].addr < addr) && forall i :: k <= i < |s| ==> addr <= s[i].addr
  {
    if s != [] {
      if addr <= s[0].addr {
        forall i | 0 <= i < |s| ensures addr <= s[i].addr { assert i > 0 ==> s[0].End() < s[i].addr; }
      } else {
        TailCovers(s, 0);
        BelowSplits(s[1..], addr);
        forall i | 0 < i < |s| ensures s[i] == s[1..][i - 1] {}
      }
    }
  }

  /** Two blocks become one when the first ends where the second begins. */
  function Joined(a: Block, rest: seq<Block>): seq<Block> {
    if rest != [] && a.End() == rest[0].addr then [Block(a.addr, a.size + rest[0].size)] + rest[1..] else [a] + rest
  }

  /** The list with `b` linked in at its place and joined with its neighbours, the one behind it first. */
  function Inserted(s: seq<Block>, b: Block): seq<Block> {
    var k := Below(s, b.addr);
    var right := Joined(b, s[k..]);
    if k == 0 then right else s[..k - 1] + Joined(s[k - 1], right)
  }

  lemma JoinedCanonical(a: Block, rest: seq<Block>)
    requires Canonical(rest) && a.Fits() && forall i :: 0 <= i < |rest| ==> a.End() <= rest[i].addr
    ensures Canonical(Joined(a, rest))
    ensures Joined(a, rest)[0].addr == a.addr
    ensures forall x :: Covers(Joined(a, rest), x) <==> a.Has(x) || Covers(rest, x)
  {
    var j := Joined(a, rest);
    if rest != [] && a.End() == rest[0].addr {
      forall x ensures Covers(j, x) <==> a.Has(x) || Covers(rest, x) { JoinedCovers(a, rest, x); }
    } else {
      forall i | 0 < i < |j| ensures a.End() < j[i].addr { assert i > 1 ==> rest[0].End() < rest[i - 1].addr; }
      PrependCovers(a, rest);
    }
  }

  lemma JoinedCovers(a: Block, rest: seq<Block>, x: nat)
    requires rest != [] && a.End() == rest[0].addr
    ensures Covers(Joined(a, rest), x) <==> a.Has(x) || Covers(rest, x)
  {
    var j := Joined(a, rest);
    if Covers(j, x) {
      var i :| 0 <= i < |j| && j[i].Has(x);
      assert i > 0 ==> rest[i].Has(x);
      assert i == 0 ==> a.Has(x) || rest[0].Has(x);
    }
    if a.Has(x) { assert j[0].Has(x); }
    if Covers(rest, x) {
      var i :| 0 <= i < |rest| && rest[i].Has(x);
      assert j[i].Has(x);
    }
  }

  lemma PrependCovers(a: Block, rest: seq<Block>)
    ensures forall x :: Covers([a] + rest, x) <==> a.Has(x) || Covers(rest, x)
  {
    forall x ensures Covers([a] + rest, x) <==> a.Has(x) || Covers(rest, x) {
      if a.Has(x) { assert ([a] + rest)[0].Has(x); }
      if Covers(rest, x) {
        var i :| 0 <= i < |rest| && rest[i].Has(x);
        assert ([a] + rest)[i + 1].Has(x);
      }
    }
  }

  lemma ConcatCovers(s: seq<Block>, t: seq<Block>)
    ensures forall x :: Covers(s + t, x) <==> Covers(s, x) || Covers(t, x)
  {
    forall x ensures Covers(s + t, x) <==> Covers(s, x) || Covers(t, x) {
      if Covers(s, x) {
        var i :| 0 <= i < |s| && s[i].Has(x);
        assert (s + t)[i].Has(x);
      }
      if Covers(t, x) {
        var i :| 0 <= i < |t| && t[i].Has(x);
        assert (s + t)[|s| + i].Has(x);
      }
      if Covers(s + t, x) {
        var i :| 0 <= i < |s + t| && (s + t)[i].Has(x);
        assert i < |s| ==> s[i].Has(x);
        assert i >= |s| ==> t[i - |s|].Has(x);
      }
    }
  }

  lemma SliceCanonical(s: seq<Block>, i: nat, j: nat)
    requires Canonical(s) && i <= j <= |s|
    ensures Canonical(s[i..j])
  {
  }

  lemma JoinLists(s: seq<Block>, t: seq<Block>)
    requires Canonical(s) && Canonical(t) && (s != [] && t != [] ==> s[|s| - 1].End() < t[0].addr)
    ensures Canonical(s + t)
  {
    forall i, j | 0 <= i < |s| && 0 <= j < |t| ensures s[i].End() < t[j].addr {
      assert i < |s| - 1 ==> s[i].End() < s[|s| - 1].addr;
      assert j > 0 ==> t[0].End() < t[j].addr;
    }
  }

  /** Freeing a block keeps the list canonical, and adds exactly its bytes. */
  lemma InsertedCanonical(s: seq<Block>, b: Block)
    requires Canonical(s) && b.Fits() && forall i :: 0 <= i < |s| ==> Apart(s[i], b)
    ensures Canonical(Inserted(s, b))
    ensures forall x :: Covers(Inserted(s, b), x) <==> Covers(s, x) || b.Has(x)
  {
    var k := Below(s, b.addr);
    BelowSplits(s, b.addr);
    SliceCanonical(s, k, |s|);
    assert s[k..|s|] == s[k..] && s == s[..k] + s[k..];
    JoinedCanonical(b, s[k..]);
    ConcatCovers(s[..k], s[k..]);
    if k > 0 { InsertedBehind(s, b, k); } else { assert forall x :: !Covers(s[..0], x); }
  }

  lemma InsertedBehind(s: seq<Block>, b: Block, k: nat)
    requires Canonical(s) && 0 < k <= |s| && b.Fits() && s[k - 1].End() <= b.addr
    requires var right := Joined(b, s[k..]);
             Canonical(right) && right[0].addr == b.addr
                 && forall x :: Covers(right, x) <==> b.Has(x) || Covers(s[k..], x)
    requires forall x :: Covers(s, x) <==> Covers(s[..k], x) || Covers(s[k..], x)
    ensures var r := s[..k - 1] + Joined(s[k - 1], Joined(b, s[k..]));
            Canonical(r) && forall x :: Covers(r, x) <==> Covers(s, x) || b.Has(x)
  {
    var right := Joined(b, s[k..]);
    forall i | 0 <= i < |right| ensures s[k - 1].End() <= right[i].addr {
      assert i > 0 ==> right[0].End() < right[i].addr;
    }
    JoinedCanonical(s[k - 1], right);
    var both := Joined(s[k - 1], right);
    SliceCanonical(s, 0, k - 1);
    assert s[0..k - 1] == s[..k - 1];
    if k > 1 { assert s[k - 2].End() < s[k - 1].addr; }
    JoinLists(s[..k - 1], both);
    ConcatCovers(s[..k - 1], both);
    ConcatCovers(s[..k - 1], [s[k - 1]]);
    assert s[..k] == s[..k - 1] + [s[k - 1]];
    PrependCovers(s[k - 1], []);
    assert forall x :: !Covers([], x);
  }
}
