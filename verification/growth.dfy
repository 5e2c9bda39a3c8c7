/** What taking frames from the free list does to a tree, and that no frame is lost. */
module Growth {
  import opened Collections
  import opened Descriptors
  import opened Frames
  import opened PageTree

  // ---- growth ---------------------------------------------------------------------

  /** The tree grew by tables from `all` only, one free page each; `taken` more pages were handed out.
      Everything new came from the free list, and memory outside it and the tables is untouched. */
  ghost predicate Grew(mem: Memory, free: seq<Frame>, tables: map<Node, Frame>,
                       mem': Memory, free': seq<Frame>, tables': map<Node, Frame>, all: set<Node>, taken: nat) {
    && AddsWithin(tables, tables', all)
    && |tables'| + |free'| + taken == |tables| + |free|
    && (forall n :: n in tables ==> n in tables' && tables'[n] == tables[n])
    && (forall n :: n in tables' && n !in tables ==> tables'[n] in free)
    && (forall g :: g in free' ==> g in free)
    && Untouched(mem, mem', tables, free)
  }

  lemma GrewTwice(mem: Memory, free: seq<Frame>, tables: map<Node, Frame>,
                  mem1: Memory, free1: seq<Frame>, tables1: map<Node, Frame>,
                  mem2: Memory, free2: seq<Frame>, tables2: map<Node, Frame>, all: set<Node>, j: nat, k: nat)
    requires Grew(mem, free, tables, mem1, free1, tables1, all, j)
    requires Grew(mem1, free1, tables1, mem2, free2, tables2, all, k)
    ensures Grew(mem, free, tables, mem2, free2, tables2, all, j + k)
  {
    forall n | n in tables2 && n !in tables ensures tables2[n] in free {
      if n !in tables1 { assert tables2[n] in free1; }
    }
    forall f | f in mem && NotTable(f, tables) && f !in free ensures mem2[f] == mem[f] {
      assert NotTable(f, tables1);
    }
  }

  /** Growth uses up the tables that were missing, and the pages handed out, and nothing else. */
  lemma GrewBudget(mem: Memory, free: seq<Frame>, tables: map<Node, Frame>,
                   mem': Memory, free': seq<Frame>, tables': map<Node, Frame>, all: set<Node>, taken: nat)
    requires Grew(mem, free, tables, mem', free', tables', all, taken)
    ensures Missing(all, tables') + |free| == Missing(all, tables) + |free'| + taken
  {
    Budget(all, tables, |free|, tables', |free'| + taken);
  }

  // ---- sizes of maps ---------------------------------------------------------------

  lemma OneMoreKey(pages: map<Node, Frame>, n: Node, f: Frame)
    requires n !in pages
    ensures |pages[n := f]| == |pages| + 1
  {
    assert pages[n := f].Keys == pages.Keys + {n};
  }

  lemma ValuesWithout(pages: map<Node, Frame>, n: Node)
    requires Injective(pages) && n in pages
    ensures forall f :: f in (pages - {n}).Values <==> f in pages.Values && f != pages[n]
  {
    var less := pages - {n};
    forall f | f in pages.Values && f != pages[n] ensures f in less.Values {
      var q :| q in pages && pages[q] == f;
      assert q in less && less[q] == f;
    }
  }

  // ---- conservation of frames -----------------------------------------------------

  /** All frames of a tree: its tables and its pages. */
  ghost function FramesOf(tables: map<Node, Frame>, pages: map<Node, Frame>): set<Frame> {
    tables.Values + pages.Values
  }

  /** Frames only move between the free list, one holder, and the `given` ones that it takes over;
      all other memory is as it was. */
  ghost predicate Exchanged(mem: Memory, free: seq<Frame>, held: set<Frame>, given: set<Frame>,
                            mem': Memory, free': seq<Frame>, held': set<Frame>) {
    && mem'.Keys == mem.Keys
    && (forall f :: f in free' || f in held' <==> f in free || f in held || f in given)
    && (forall f :: f in mem && f !in free && f !in held ==> mem'[f] == mem[f])
  }

  lemma {:induction false} ImageSize(m: map<Node, Frame>)
    requires Injective(m)
    ensures |m.Values| == |m|
    decreases |m|
  {
    if m == map[] {
      assert m.Values == {};
    } else {
      var n :| n in m;
      var less := m - {n};
      assert less.Keys == m.Keys - {n};
      ImageSize(less);
      ValuesWithout(m, n);
      assert m.Values == less.Values + {m[n]};
    }
  }

  lemma ValuesGrow(m: map<Node, Frame>, m': map<Node, Frame>)
    requires forall n :: n in m ==> n in m' && m'[n] == m[n]
    ensures forall f :: f in m.Values ==> f in m'.Values
    ensures forall f :: f in m'.Values && f !in m.Values ==> exists n :: n in m' && n !in m && m'[n] == f
  {
    forall f | f in m.Values ensures f in m'.Values {
      var n :| n in m && m[n] == f;
      assert n in m';
    }
    forall f | f in m'.Values && f !in m.Values ensures exists n :: n in m' && n !in m && m'[n] == f {
      var n :| n in m' && m'[n] == f;
      assert forall k :: k in m ==> m[k] in m.Values;
    }
  }

  /** The values of the keys that `m'` has beyond `m`. */
  lemma NewValues(m: map<Node, Frame>, m': map<Node, Frame>) returns (more: set<Frame>)
    requires Injective(m') && forall n :: n in m ==> n in m' && m'[n] == m[n]
    ensures |more| + |m| == |m'| && more !! m.Values && forall f :: f in m'.Values <==> f in more || f in m.Values
    ensures forall f :: f in more ==> exists n :: n in m' && n !in m && m'[n] == f
  {
    ImageSize(m);
    ImageSize(m');
    more := m'.Values - m.Values;
    ValuesGrow(m, m');
    DisjointSum(more, m.Values, m'.Values);
  }

  lemma ElementsSize(s: seq<Frame>)
    requires NoDuplicates(s)
    ensures |Elements(s)| == |s|
  {
    if s != [] {
      ElementsSize(s[1..]);
      assert Elements(s) == Elements(s[1..]) + {s[0]};
    }
  }

  lemma SameSize<T>(s: set<T>, t: set<T>)
    requires s <= t && |s| == |t|
    ensures s == t
  {
    DisjointSum(s, t - s, t);
  }

  /** A tree that has grown holds every frame that left the free list. */
  lemma GrowthConserves(mem: Memory, free: seq<Frame>, tables: map<Node, Frame>, pages: map<Node, Frame>,
                        mem': Memory, free': seq<Frame>, tables': map<Node, Frame>, pages': map<Node, Frame>,
                        all: set<Node>, taken: nat)
    requires OwnPages(mem', free', tables', pages') && Injective(tables')
             && forall n :: n in tables' ==> tables'[n] !in free'
    requires NoDuplicates(free) && NoDuplicates(free') && Grew(mem, free, tables, mem', free', tables', all, taken)
    requires |pages'| == |pages| + taken
    requires forall q :: q in pages ==> q in pages' && pages'[q] == pages[q]
    requires forall q :: q in pages' && q !in pages ==> pages'[q] in free
    ensures Exchanged(mem, free, FramesOf(tables, pages), {}, mem', free', FramesOf(tables', pages'))
  {
    var t := NewValues(tables, tables');
    var p := NewValues(pages, pages');
    ElementsSize(free);
    ElementsSize(free');
    assert t <= Elements(free) by {
      forall f | f in t ensures f in free { var n :| n in tables' && n !in tables && tables'[n] == f; }
    }
    assert p <= Elements(free) by {
      forall f | f in p ensures f in free { var q :| q in pages' && q !in pages && pages'[q] == f; }
    }
    Apart(free', tables', pages', t, p);
    ThreeParts(Elements(free), Elements(free'), t, p);
    assert forall f :: f in free <==> f in Elements(free);
    forall f | f in mem && f !in free && f !in FramesOf(tables, pages) ensures mem'[f] == mem[f] {
      assert NotTable(f, tables);
    }
  }

  lemma Apart(free: seq<Frame>, tables: map<Node, Frame>, pages: map<Node, Frame>, t: set<Frame>, p: set<Frame>)
    requires forall n :: n in tables ==> tables[n] !in free
    requires forall q :: q in pages ==> pages[q] !in free && NotTable(pages[q], tables)
    requires t <= tables.Values && p <= pages.Values
    ensures t !! p && Elements(free) !! t && Elements(free) !! p
  {
  }

  lemma ThreeParts<T>(whole: set<T>, a: set<T>, b: set<T>, c: set<T>)
    requires a <= whole && b <= whole && c <= whole && a !! b && a !! c && b !! c
    requires |a| + |b| + |c| == |whole|
    ensures forall x :: x in whole <==> x in a || x in b || x in c
  {
    DisjointSum(a, b, a + b);
    DisjointSum(a + b, c, a + b + c);
    SameSize(a + b + c, whole);
  }
}
