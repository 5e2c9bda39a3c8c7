/** The terminal's framebuffer backend: a grid of what is drawn, overlaid by a queue of changed cells, seen as one
    screen. */
module Overlay {
  import opened Collections

  datatype Char = Char(c: nat, fg: nat, bg: nat, fgDefault: bool, bgDefault: bool)

  /** Drawn alike: a colour counts only where it is not the default. */
  predicate Same(a: Char, b: Char) {
    && a.c == b.c && a.fgDefault == b.fgDefault && a.bgDefault == b.bgDefault
    && (!a.fgDefault ==> a.fg == b.fg) && (!a.bgDefault ==> a.bg == b.bg)
  }

  function Inverted(c: Char): Char {
    Char(c.c, c.bg, c.fg, c.bgDefault, c.fgDefault)
  }

  /** The same character with foreground and background exchanged. */
  predicate Exchanged(c: Char, d: Char) {
    d.c == c.c && d.fg == c.bg && d.bg == c.fg && d.fgDefault == c.bgDefault && d.bgDefault == c.fgDefault
  }

  datatype Item = Item(x: nat, y: nat, c: Char)

  function At(x: nat, y: nat, cols: nat): nat { y * cols + x }

  /** The queue holds the changed cells; `index` tells for each cell where in the queue its change stands. */
  datatype Frame = Frame(cols: nat, grid: seq<Char>, queue: seq<Item>, index: seq<Option<nat>>) {

    function ItemAt(j: nat): nat
      requires j < |queue|
    {
      At(queue[j].x, queue[j].y, cols)
    }

    /** What the cell is to show. */
    function Cell(i: nat): Char
      requires i < |grid| == |index|
    {
      if index[i].Some? && index[i].value < |queue| then queue[index[i].value].c else grid[i]
    }
  }

  ghost predicate QueuedOk(f: Frame, j: nat)
    requires j < |f.queue|
  {
    f.ItemAt(j) < |f.index| && f.index[f.ItemAt(j)] == Some(j)
  }

  ghost predicate MappedOk(f: Frame, i: nat)
    requires i < |f.index|
  {
    f.index[i].Some? ==> f.index[i].value < |f.queue| && f.ItemAt(f.index[i].value) == i
  }

  /** The queue holds exactly one item for each cell that has a change, and the map points to it. */
  ghost predicate Sound(f: Frame) {
    && |f.grid| == |f.index|
    && (forall j :: 0 <= j < |f.queue| ==> QueuedOk(f, j))
    && forall i :: 0 <= i < |f.index| ==> MappedOk(f, i)
  }

  ghost predicate ShowsAt(f: Frame, screen: seq<Char>, i: nat)
    requires i < |f.grid| == |f.index| == |screen|
  {
    Same(f.Cell(i), screen[i])
  }

  /** The overlaid grid is, as far as drawing goes, the plain screen. */
  ghost predicate Shows(f: Frame, screen: seq<Char>) {
    |f.grid| == |f.index| == |screen| && forall i :: 0 <= i < |screen| ==> ShowsAt(f, screen, i)
  }

  // ---- the queue never overflows ---------------------------------------------------

  /** The numbers below `n`. */
  ghost function Below(n: nat): (s: set<nat>)
    ensures |s| == n && forall k: nat :: k in s <==> k < n
  {
    if n == 0 then {} else
    var less: set<nat> := Below(n - 1);
    less + {n - 1}
  }

  /** The cells that the first `n` items stand for. */
  ghost function Taken(f: Frame, n: nat): (s: set<nat>)
    requires n <= |f.queue|
  {
    if n == 0 then {} else Taken(f, n - 1) + {f.ItemAt(n - 1)}
  }

  lemma {:induction false} DistinctItems(f: Frame, n: nat)
    requires Sound(f) && n <= |f.queue|
    ensures |Taken(f, n)| == n && forall k :: k in Taken(f, n) ==>
            k < |f.index| && f.index[k].Some? && f.index[k].value < n
  {
    if n > 0 {
      DistinctItems(f, n - 1);
      assert QueuedOk(f, n - 1);
    }
  }

  /** Different items stand for different cells, so a queue as long as the screen leaves no cell without one. */
  lemma FullQueueCovers(f: Frame, i: nat)
    requires Sound(f) && |f.queue| >= |f.index| && i < |f.index|
    ensures f.index[i].Some?
  {
    DistinctItems(f, |f.queue|);
    if f.index[i] == None {
      SubsetSize(Taken(f, |f.queue|), Below(|f.index|) - {i});
    }
  }

  // ---- one change ------------------------------------------------------------------

  /** A change to cell `i`, of which `x` and `y` are the coordinates. */
  function Pushed(f: Frame, c: Char, x: nat, y: nat): Frame
    requires At(x, y, f.cols) < |f.index| == |f.grid|
  {
    var i := At(x, y, f.cols);
    if f.index[i].Some? && f.index[i].value < |f.queue| then
      f.(queue := f.queue[f.index[i].value := f.queue[f.index[i].value].(c := c)])
    else if Same(f.grid[i], c) then f
    else f.(queue := f.queue + [Item(x, y, c)], index := f.index[i := Some(|f.queue|)])
  }

  lemma PushKeeps(f: Frame, c: Char, x: nat, y: nat)
    requires Sound(f) && At(x, y, f.cols) < |f.index|
    ensures Sound(Pushed(f, c, x, y))
  {
    var i, g := At(x, y, f.cols), Pushed(f, c, x, y);
    assert MappedOk(f, i);
    forall j | 0 <= j < |g.queue| ensures QueuedOk(g, j) { assert j < |f.queue| ==> QueuedOk(f, j); }
    forall k | 0 <= k < |g.index| ensures MappedOk(g, k) { assert MappedOk(f, k); }
  }

  /** On the plain screen the push is an assignment. */
  lemma PushShows(f: Frame, screen: seq<Char>, c: Char, d: Char, x: nat, y: nat)
    requires Sound(f) && Shows(f, screen) && At(x, y, f.cols) < |screen| && Same(c, d)
    ensures Shows(Pushed(f, c, x, y), screen[At(x, y, f.cols) := d])
  {
    var i, g := At(x, y, f.cols), Pushed(f, c, x, y);
    assert MappedOk(f, i);
    var now := screen[i := d];
    forall k | 0 <= k < |screen| ensures ShowsAt(g, now, k) {
      assert ShowsAt(f, screen, k) && MappedOk(f, k);
    }
  }

  // ---- the plain screen ------------------------------------------------------------

  /** The lines from `top` to `bottom` moved up by one, the last one empty. */
  function ScrolledUp(s: seq<Char>, cols: nat, top: nat, bottom: nat, empty: Char): (r: seq<Char>)
    requires top < bottom && bottom * cols <= |s|
    ensures |r| == |s|
  {
    Shifted(s, top * cols, (bottom - 1) * cols, cols, empty)
  }

  function ScrolledDown(s: seq<Char>, cols: nat, top: nat, bottom: nat, empty: Char): (r: seq<Char>)
    requires top < bottom && bottom * cols <= |s|
    ensures |r| == |s|
  {
    Larger(top, bottom - 1, cols);
    ShiftedDown(s, top * cols, (bottom - 1) * cols, cols, empty)
  }

  /** Cells from `lo` up to `hi` take what stands `n` further on; the `n` cells behind them are empty. */
  function Shifted(s: seq<Char>, lo: nat, hi: nat, n: nat, empty: Char): (r: seq<Char>)
    requires hi + n <= |s|
    ensures |r| == |s|
  {
    seq(|s|, i requires 0 <= i < |s| => if lo <= i < hi then s[i + n] else if hi <= i < hi + n then empty else s[i])
  }

  /** Cells from `lo` + `n` up to `hi` + `n` take what stands `n` before them; the `n` cells from `lo` on are empty. */
  function ShiftedDown(s: seq<Char>, lo: nat, hi: nat, n: nat, empty: Char): (r: seq<Char>)
    requires lo <= hi && hi + n <= |s|
    ensures |r| == |s|
  {
    seq(|s|, i requires 0 <= i < |s| => 
      if lo + n <= i < hi + n then s[i - n] else if lo <= i < lo + n then empty else s[i])
  }

  /** The cells from `lo` up to `to` have taken what stands `n` further on. */
  function MovedUp(s: seq<Char>, lo: nat, to: nat, n: nat): (r: seq<Char>)
    requires to + n <= |s|
    ensures |r| == |s| && forall i :: 0 <= i < |s| ==> r[i] == if lo <= i < to then s[i + n] else s[i]
  {
    seq(|s|, i requires 0 <= i < |s| => if lo <= i < to then s[i + n] else s[i])
  }

  /** The cells from `from` + `n` up to `hi` + `n` have taken what stands `n` before them. */
  function MovedDown(s: seq<Char>, from: nat, hi: nat, n: nat): (r: seq<Char>)
    requires from <= hi && hi + n <= |s|
    ensures |r| == |s| && forall i :: 0 <= i < |s| ==> r[i] == if from + n <= i < hi + n then s[i - n] else s[i]
  {
    seq(|s|, i requires 0 <= i < |s| => if from + n <= i < hi + n then s[i - n] else s[i])
  }

  lemma MovedUpNext(s: seq<Char>, lo: nat, to: nat, n: nat)
    requires lo <= to && to + n < |s|
    ensures MovedUp(s, lo, to, n)[to + n] == s[to + n]
    ensures MovedUp(s, lo, to, n)[to := s[to + n]] == MovedUp(s, lo, to + 1, n)
  {
  }

  lemma MovedDownNext(s: seq<Char>, from: nat, hi: nat, n: nat)
    requires from < hi && hi + n <= |s|
    ensures MovedDown(s, from + 1, hi, n)[from] == s[from]
    ensures MovedDown(s, from + 1, hi, n)[from + n := s[from]] == MovedDown(s, from, hi, n)
  {
  }

  lemma NothingMoved(s: seq<Char>, k: nat, n: nat)
    requires k + n <= |s|
    ensures MovedUp(s, k, k, n) == s && MovedDown(s, k, k, n) == s
  {
  }

  function Filled(s: seq<Char>, lo: nat, n: nat, e: Char): (r: seq<Char>)
    requires lo + n <= |s|
    ensures |r| == |s| && forall i :: 0 <= i < |s| ==> r[i] == if lo <= i < lo + n then e else s[i]
  {
    seq(|s|, i requires 0 <= i < |s| => if lo <= i < lo + n then e else s[i])
  }

  lemma LineOrder(x: nat, y: nat, y': nat, cols: nat)
    requires x < cols
    ensures At(x, y, cols) < y' * cols <==> y < y'
  {
    if y < y' { Larger(y + 1, y', cols); } else { Larger(y', y, cols); }
  }

  lemma LineStep(x: nat, y: nat, cols: nat)
    ensures At(x, y + 1, cols) == At(x, y, cols) + cols
  {
  }

  /** Scrolling, line by line: between the margins every line takes the one below it, and the last one is empty. */
  lemma ScrolledUpLines(s: seq<Char>, cols: nat, top: nat, bottom: nat, empty: Char, x: nat, y: nat)
    requires top < bottom && bottom * cols <= |s| && x < cols && At(x, y, cols) < |s|
    ensures y < bottom - 1 ==> At(x, y + 1, cols) < |s|
    ensures ScrolledUp(s, cols, top, bottom, empty)[At(x, y, cols)]
            == if top <= y < bottom - 1 then s[At(x, y + 1, cols)] else if y == bottom - 1 then empty
               else s[At(x, y, cols)]
  {
    LineOrder(x, y, top, cols);
    LineOrder(x, y, bottom - 1, cols);
    LineOrder(x, y, bottom, cols);
    LineStep(x, y, cols);
    if y < bottom - 1 { LineOrder(x, y + 1, bottom, cols); }
    Larger(top, bottom - 1, cols);
  }

  lemma ScrolledDownLines(s: seq<Char>, cols: nat, top: nat, bottom: nat, empty: Char, x: nat, y: nat)
    requires top < bottom && bottom * cols <= |s| && x < cols && At(x, y, cols) < |s|
    ensures y > 0 ==> At(x, y - 1, cols) < |s|
    ensures ScrolledDown(s, cols, top, bottom, empty)[At(x, y, cols)]
            == if top < y < bottom then s[At(x, y - 1, cols)] else if y == top then empty else s[At(x, y, cols)]
  {
    LineOrder(x, y, top, cols);
    LineOrder(x, y, top + 1, cols);
    LineOrder(x, y, bottom, cols);
    if y > 0 { LineStep(x, y - 1, cols); }
    Larger(top, bottom - 1, cols);
  }

  /** Where the next character goes, and whether the screen scrolls first. */
  datatype Place = Place(x: nat, y: nat, scrolls: bool)

  /** A cursor behind the last column wraps to the next line if that is allowed, else it stays in the last column. */
  function NextPlace(x: nat, y: nat, cols: nat, rows: nat, bottom: nat, wrap: bool, scroll: bool): Place
    requires cols > 0 && rows > 0 && bottom > 0
  {
    if x < cols then Place(x, y, false)
    else if wrap && (y < bottom - 1 || scroll) then
      if y + 1 == bottom then Place(0, if y >= rows then rows - 1 else y, true)
      else Place(0, if y + 1 >= rows then rows - 1 else y + 1, false)
    else Place(cols - 1, y, false)
  }

  // ---- the cursor ------------------------------------------------------------------

  const SIZE_MAX := 0xFFFF_FFFF_FFFF_FFFF

  /** A 64-bit number read as a signed one. */
  function Signed(x: nat): int { if x > SIZE_MAX / 2 then x - SIZE_MAX - 1 else x }

  function Distance(x: int, c: nat): nat { if x < c then c - x else x - c }

  /** Of the columns (or lines) 0 to `n`, `c` is nearest to `x`. */
  ghost predicate Nearest(c: nat, x: int, n: nat) {
    c < n && forall d: nat :: d < n ==> Distance(x, c) <= Distance(x, d)
  }

  // ---- flushing --------------------------------------------------------------------

  /** The cell has been flushed, or had nothing to flush; or it is as it was, its item still to come. */
  predicate FlushedAt(f: Frame, grid: seq<Char>, index: seq<Option<nat>>, n: nat, k: nat)
    requires k < |grid| == |index| == |f.grid| == |f.index|
  {
    match index[k]
    case None => grid[k] == f.Cell(k)
    case Some(j) => f.index[k] == Some(j) && j >= n && grid[k] == f.grid[k]
  }

  /** The first `n` items have been flushed. */
  ghost predicate Flushed(f: Frame, grid: seq<Char>, index: seq<Option<nat>>, n: nat) {
    |grid| == |index| == |f.grid| == |f.index| && forall k :: 0 <= k < |grid| ==> FlushedAt(f, grid, index, n, k)
  }

  /** Cell `k` of the framebuffer looks like the grid, or is one of the two where a cursor may be drawn. */
  predicate DrawnAt(shown: seq<Char>, grid: seq<Char>, last: Option<nat>, drawn: Option<nat>, k: nat)
    requires k < |shown| == |grid|
  {
    if drawn == Some(k) then shown[k] == Inverted(grid[k]) else last == Some(k) || Same(shown[k], grid[k])
  }

  ghost predicate Drawn(shown: seq<Char>, grid: seq<Char>, last: Option<nat>, drawn: Option<nat>) {
    |shown| == |grid| && forall k :: 0 <= k < |grid| ==> DrawnAt(shown, grid, last, drawn, k)
  }

  lemma FlushStarts(f: Frame)
    requires Sound(f)
    ensures Flushed(f, f.grid, f.index, 0)
  {
    forall k | 0 <= k < |f.grid| ensures FlushedAt(f, f.grid, f.index, 0, k) { assert MappedOk(f, k); }
  }

  /** One item: flushed, or passed over because its cell has been flushed already. */
  lemma FlushNext(f: Frame, grid: seq<Char>, index: seq<Option<nat>>, n: nat)
    requires Sound(f) && Flushed(f, grid, index, n) && n < |f.queue|
    ensures f.ItemAt(n) < |grid|
    ensures index[f.ItemAt(n)] == None ==> Flushed(f, grid, index, n + 1)
    ensures Flushed(f, grid[f.ItemAt(n) := f.queue[n].c], index[f.ItemAt(n) := None], n + 1)
  {
    var o := f.ItemAt(n);
    assert QueuedOk(f, n) && FlushedAt(f, grid, index, n, o);
    var grid', index', next := grid[o := f.queue[n].c], index[o := None], n + 1;
    forall k | 0 <= k < |grid|
      ensures FlushedAt(f, grid', index', next, k) && (index[o] == None ==> FlushedAt(f, grid, index, next, k))
    {
      assert FlushedAt(f, grid, index, n, k) && MappedOk(f, k);
    }
  }

  /** After the last item the grid is the screen, and nothing is left to flush. */
  lemma FlushEnds(f: Frame, grid: seq<Char>, index: seq<Option<nat>>)
    requires Sound(f) && Flushed(f, grid, index, |f.queue|)
    ensures forall k :: 0 <= k < |grid| ==> index[k] == None && grid[k] == f.Cell(k)
  {
    forall k | 0 <= k < |grid| ensures index[k] == None && grid[k] == f.Cell(k) {
      assert FlushedAt(f, grid, index, |f.queue|, k) && MappedOk(f, k);
    }
  }

  lemma DrawOver(shown: seq<Char>, grid: seq<Char>, last: Option<nat>, drawn: Option<nat>, k: nat, c: Char)
    requires Drawn(shown, grid, last, drawn) && k < |grid| && drawn != Some(k)
    ensures Drawn(shown[k := c], grid[k := c], last, drawn)
    ensures grid[k] == c && last == Some(k) ==> Drawn(shown[k := c], grid, None, drawn)
  {
    var s, g := shown[k := c], grid[k := c];
    forall i | 0 <= i < |grid| ensures DrawnAt(s, g, last, drawn, i) { assert DrawnAt(shown, grid, last, drawn, i); }
    if grid[k] == c && last == Some(k) {
      forall i | 0 <= i < |grid| ensures DrawnAt(s, grid, None, drawn, i) {
        assert DrawnAt(shown, grid, last, drawn, i);
      }
    }
  }

  lemma DrawInverted(shown: seq<Char>, grid: seq<Char>, last: Option<nat>, k: nat, c: Char)
    requires Drawn(shown, grid, last, None) && k < |grid|
    ensures Drawn(shown[k := Inverted(c)], grid[k := c], last, Some(k))
    ensures last == Some(k) ==> Drawn(shown[k := Inverted(c)], grid[k := c], None, Some(k))
  {
    var s, g := shown[k := Inverted(c)], grid[k := c];
    forall i | 0 <= i < |grid|
      ensures DrawnAt(s, g, last, Some(k), i) && (last == Some(k) ==> DrawnAt(s, g, None, Some(k), i))
    {
      assert DrawnAt(shown, grid, last, None, i);
    }
  }

  lemma SameCell(x: nat, y: nat, x': nat, y': nat, cols: nat)
    requires x < cols && x' < cols && At(x, y, cols) == At(x', y', cols)
    ensures x == x' && y == y'
  {
    if y < y' { Larger(y + 1, y', cols); }
    if y' < y { Larger(y' + 1, y, cols); }
  }

  /** Coordinates of a cell and back. */
  lemma Coordinates(i: nat, cols: nat, rows: nat)
    requires cols > 0 && i < rows * cols
    ensures i % cols < cols && i / cols < rows && At(i % cols, i / cols, cols) == i
  {
    assert i == i / cols * cols + i % cols;
    RowBelow(i / cols, cols, rows);
  }

  lemma RowBelow(y: nat, cols: nat, rows: nat)
    requires y * cols < rows * cols
    ensures y < rows
  {
    if rows <= y { Larger(rows, y, cols); }
  }

  lemma Larger(a: nat, b: nat, n: nat)
    requires a <= b
    ensures a * n <= b * n
  {
  }

  lemma InRange(x: nat, y: nat, cols: nat, rows: nat)
    requires x < cols && y < rows
    ensures At(x, y, cols) < rows * cols
  {
    Larger(y + 1, rows, cols);
  }

  class Framebuffer {
    const cols: nat
    const rows: nat
    const grid: array<Char>
    const queue: array<Item>
    const index: array<Option<nat>>
    const shown: array<Char>       // what was last drawn at each cell
    var queued: nat
    var textFg: nat
    var textBg: nat
    var textFgDefault: bool
    var textBgDefault: bool
    var cursorX: nat
    var cursorY: nat
    var oldX: nat
    var oldY: nat
    var cursorEnabled: bool
    var wrap: bool
    var scrolls: bool
    var top: nat
    var bottom: nat

    predicate Shape()
      reads this`queued
    {
      && cols > 0 && rows > 0 && queued <= queue.Length
      && grid.Length == queue.Length == index.Length == shown.Length == rows * cols && grid != shown
    }

    ghost function View(): (f: Frame)
      requires Shape()
      reads this`queued, grid, queue, index
      ensures f.cols == cols && |f.grid| == |f.index| == rows * cols && |f.queue| == queued
    {
      Frame(cols, grid[..], queue[..queued], index[..])
    }

    ghost predicate Valid()
      reads this, grid, queue, index
    {
      Shape() && Sound(View()) && top < bottom <= rows
    }

    function Empty(): Char
      reads this
    {
      Char(32, textFg, textBg, textFgDefault, textBgDefault)
    }

    /** Looks like a space in the current colours. */
    predicate IsBlank(c: Char)
      reads this
    {
      && c.c == 32 && c.fgDefault == textFgDefault && c.bgDefault == textBgDefault
      && (!textFgDefault ==> c.fg == textFg) && (!textBgDefault ==> c.bg == textBg)
    }

    lemma BlankCell(screen: seq<Char>, i: nat)
      requires Shape() && Shows(View(), screen) && i < |screen| && IsBlank(screen[i])
      ensures i < rows * cols && IsBlank(View().Cell(i))
    {
      assert ShowsAt(View(), screen, i);
    }

    method Push(c: Char, x: nat, y: nat, ghost screen: seq<Char>, ghost d: Char)
      requires Shape() && Sound(View()) && Shows(View(), screen) && Same(c, d)
      modifies this`queued, queue, index
      ensures Shape() && Sound(View())
      ensures if x < cols && y < rows then At(x, y, cols) < |screen| && Shows(View(), screen[At(x, y, cols) := d])
              else Shows(View(), screen)
    {
      if x >= cols || y >= rows {
        return;
      }
      InRange(x, y, cols, rows);
      ghost var f := View();
      PushKeeps(f, c, x, y);
      PushShows(f, screen, c, d, x, y);
      var i := y * cols + x;
      assert MappedOk(f, i);
      if index[i] == None {
        if Same(grid[i], c) {
          return;
        }
        if queued == rows * cols {
          FullQueueCovers(f, i);
          assert false;
        }
        queue[queued] := Item(x, y, c);
        index[i] := Some(queued);
        queued := queued + 1;
        assert View() == Pushed(f, c, x, y);
      } else {
        var j := index[i].value;
        queue[j] := queue[j].(c := c);
        assert View() == Pushed(f, c, x, y);
      }
    }

    /** A push to the cell with number `i`. */
    method PushAt(c: Char, i: nat, ghost screen: seq<Char>, ghost d: Char)
      requires Shape() && Sound(View()) && Shows(View(), screen) && Same(c, d) && i < rows * cols
      modifies this`queued, queue, index
      ensures Shape() && Sound(View()) && Shows(View(), screen[i := d])
    {
      Coordinates(i, cols, rows);
      Push(c, i % cols, i / cols, screen, d);
    }

    /** What cell `i` is to show: its change if it has one, else what is in the grid. */
    method Get(i: nat, ghost screen: seq<Char>) returns (c: Char)
      requires Shape() && Sound(View()) && Shows(View(), screen) && i < rows * cols
      ensures c == View().Cell(i) && Same(c, screen[i])
    {
      assert MappedOk(View(), i) && ShowsAt(View(), screen, i);
      c := if index[i].Some? then queue[index[i].value].c else grid[i];
    }

    method MoveCharacter(newX: nat, newY: nat, oldX: nat, oldY: nat, ghost screen: seq<Char>)
      requires Shape() && Sound(View()) && Shows(View(), screen)
      modifies this`queued, queue, index
      ensures Shape() && Sound(View())
      ensures if oldX < cols && oldY < rows && newX < cols && newY < rows then
                && At(oldX, oldY, cols) < |screen| && At(newX, newY, cols) < |screen|
                && Shows(View(), screen[At(newX, newY, cols) := screen[At(oldX, oldY, cols)]])
              else Shows(View(), screen)
    {
      if oldX >= cols || oldY >= rows || newX >= cols || newY >= rows {
        return;
      }
      InRange(oldX, oldY, cols, rows);
      InRange(newX, newY, cols, rows);
      var c := Get(oldX + oldY * cols, screen);
      Push(c, newX, newY, screen, screen[At(oldX, oldY, cols)]);
    }

    method CopyCell(from: nat, to: nat, ghost screen: seq<Char>)
      requires Shape() && Sound(View()) && Shows(View(), screen) && from < rows * cols && to < rows * cols
      modifies this`queued, queue, index
      ensures Shape() && Sound(View()) && Shows(View(), screen[to := screen[from]])
    {
      var c := Get(from, screen);
      PushAt(c, to, screen, screen[from]);
    }

    method LineUpCell(i: nat, ghost lo: nat, ghost to: nat, ghost screen: seq<Char>)
      requires lo <= to && to + cols == i < rows * cols == |screen|
      requires Shape() && Sound(View()) && Shows(View(), MovedUp(screen, lo, to, cols))
      modifies this`queued, queue, index
      ensures Shape() && Sound(View()) && Shows(View(), MovedUp(screen, lo, to + 1, cols))
    {
      MovedUpNext(screen, lo, to, cols);
      CopyCell(i, i - cols, MovedUp(screen, lo, to, cols));
    }

    method LineDownCell(from: nat, hi: nat, ghost screen: seq<Char>)
      requires from < hi && hi + cols <= rows * cols == |screen|
      requires Shape() && Sound(View()) && Shows(View(), MovedDown(screen, from + 1, hi, cols))
      modifies this`queued, queue, index
      ensures Shape() && Sound(View()) && Shows(View(), MovedDown(screen, from, hi, cols))
    {
      MovedDownNext(screen, from, hi, cols);
      CopyCell(from, from + cols, MovedDown(screen, from + 1, hi, cols));
    }

    /** The cells `lo`, `lo` + 1, ... take what stands one line further on, in that order. */
    method MoveLinesUp(lo: nat, hi: nat, ghost screen: seq<Char>)
      requires Shape() && Sound(View()) && Shows(View(), screen) && lo <= hi && hi + cols <= rows * cols
      modifies this`queued, queue, index
      ensures Shape() && Sound(View()) && Shows(View(), MovedUp(screen, lo, hi, cols))
    {
      NothingMoved(screen, lo, cols);
      var i := lo + cols;
      ghost var to := lo;
      while i < hi + cols
        invariant lo <= to <= hi && to + cols == i
        invariant Shape() && Sound(View()) && Shows(View(), MovedUp(screen, lo, to, cols))
      {
        LineUpCell(i, lo, to, screen);
        i, to := i + 1, to + 1;
      }
    }

    /** The same downwards, from the last cell to the first. */
    method MoveLinesDown(lo: nat, hi: nat, ghost screen: seq<Char>)
      requires Shape() && Sound(View()) && Shows(View(), screen) && lo <= hi && hi + cols <= rows * cols
      modifies this`queued, queue, index
      ensures Shape() && Sound(View()) && Shows(View(), MovedDown(screen, lo, hi, cols))
    {
      NothingMoved(screen, hi, cols);
      var i := hi;
      while i > lo
        invariant lo <= i <= hi && Shape() && Sound(View()) && Shows(View(), MovedDown(screen, i, hi, cols))
      {
        i := i - 1;
        LineDownCell(i, hi, screen);
      }
    }

    method Fill(c: Char, lo: nat, n: nat, ghost screen: seq<Char>)
      requires Shape() && Sound(View()) && Shows(View(), screen) && lo + n <= rows * cols
      modifies this`queued, queue, index
      ensures Shape() && Sound(View()) && Shows(View(), Filled(screen, lo, n, c))
    {
      assert Filled(screen, lo, 0, c) == screen;
      for i := 0 to n
        invariant Shape() && Sound(View()) && Shows(View(), Filled(screen, lo, i, c))
      {
        PushAt(c, lo + i, Filled(screen, lo, i, c), c);
        assert Filled(screen, lo, i, c)[lo + i := c] == Filled(screen, lo, i + 1, c);
      }
    }

    method Scroll(ghost screen: seq<Char>)
      requires Valid() && Shows(View(), screen)
      modifies this`queued, queue, index
      ensures Valid() && bottom * cols <= |screen| && Shows(View(), ScrolledUp(screen, cols, top, bottom, Empty()))
    {
      Larger(top, bottom - 1, cols);
      Larger(bottom, rows, cols);
      ghost var e := Empty();
      MoveLinesUp(top * cols, (bottom - 1) * cols, screen);
      Fill(Empty(), (bottom - 1) * cols, cols, MovedUp(screen, top * cols, (bottom - 1) * cols, cols));
      assert Filled(MovedUp(screen, top * cols, (bottom - 1) * cols, cols), (bottom - 1) * cols, cols, e)
             == ScrolledUp(screen, cols, top, bottom, e);
    }

    method Revscroll(ghost screen: seq<Char>)
      requires Valid() && Shows(View(), screen)
      modifies this`queued, queue, index
      ensures Valid() && bottom * cols <= |screen| && Shows(View(), ScrolledDown(screen, cols, top, bottom, Empty()))
    {
      Larger(top, bottom - 1, cols);
      Larger(bottom, rows, cols);
      ghost var e := Empty();
      MoveLinesDown(top * cols, (bottom - 1) * cols, screen);
      Fill(Empty(), top * cols, cols, MovedDown(screen, top * cols, (bottom - 1) * cols, cols));
      assert Filled(MovedDown(screen, top * cols, (bottom - 1) * cols, cols), top * cols, cols, e)
             == ScrolledDown(screen, cols, top, bottom, e);
    }

    method Clear(move: bool, ghost screen: seq<Char>)
      requires Valid() && Shows(View(), screen)
      modifies this`queued, this`cursorX, this`cursorY, queue, index
      ensures Valid() && Shows(View(), Filled(screen, 0, |screen|, Empty()))
      ensures forall i :: 0 <= i < rows * cols ==> IsBlank(View().Cell(i))
      ensures cursorX == (if move then 0 else old(cursorX)) && cursorY == if move then 0 else old(cursorY)
    {
      Fill(Empty(), 0, rows * cols, screen);
      if move {
        cursorX, cursorY := 0, 0;
      }
      forall i | 0 <= i < rows * cols ensures IsBlank(View().Cell(i)) {
        BlankCell(Filled(screen, 0, |screen|, Empty()), i);
      }
    }

    /** The cursor goes to the place on the screen that is nearest to the given one, very large coordinates being
        negative ones that were converted. */
    method SetCursorPos(x: nat, y: nat)
      requires Shape() && x <= SIZE_MAX && y <= SIZE_MAX
      modifies this`cursorX, this`cursorY
      ensures cursorX < cols && cursorY < rows
      ensures (x < cols ==> cursorX == x) && (y < rows ==> cursorY == y)
      ensures cols <= SIZE_MAX / 2 ==> Nearest(cursorX, Signed(x), cols)
      ensures rows <= SIZE_MAX / 2 ==> Nearest(cursorY, Signed(y), rows)
    {
      var x', y' := x, y;
      if x' >= cols {
        if x' > SIZE_MAX / 2 {
          x' := 0;
        } else {
          x' := cols - 1;
        }
      }
      if y' >= rows {
        if y' > SIZE_MAX / 2 {
          y' := 0;
        } else {
          y' := rows - 1;
        }
      }
      cursorX, cursorY := x', y';
    }

    /** The cursor is behind the last line above the bottom margin, and may wrap and scroll. */
    predicate AtMargin(x: nat, y: nat)
      reads this
    {
      x >= cols && y + 1 == bottom && wrap && scrolls
    }

    /** A cursor in its line stays; one behind it goes to the start of the next line, but for the bottom margin and the
        last line; where there is no wrapping it stays in the last column. */
    predicate WrappedTo(x: nat, y: nat, x': nat, y': nat)
      reads this
    {
      && (x < cols ==> x' == x && y' == y)
      && (x >= cols && wrap && y + 1 < bottom ==> x' == 0 && y' == y + 1)
      && (x >= cols && wrap && y + 1 == bottom && scrolls ==> x' == 0 && y' == y)
      && (x >= cols && wrap && y + 1 > bottom && scrolls ==> x' == 0 && y' == if y + 1 < rows then y + 1 else rows - 1)
      && (x >= cols && (!wrap || (y + 1 >= bottom && !scrolls)) ==> x' + 1 == cols && y' == y)
    }

    /** The place of the next character, the screen scrolled first where the wrap asks for it. */
    method Wrap(ghost screen: seq<Char>)
      requires Valid() && Shows(View(), screen)
      modifies this`queued, this`cursorX, this`cursorY, queue, index
      ensures Valid() && bottom * cols <= |screen|
      ensures var p := NextPlace(old(cursorX), old(cursorY), cols, rows, bottom, wrap, scrolls);
              && cursorX == p.x < cols && cursorY == p.y
              && Shows(View(), if p.scrolls then ScrolledUp(screen, cols, top, bottom, Empty()) else screen)
      ensures AtMargin(old(cursorX), old(cursorY)) ==> Shows(View(), ScrolledUp(screen, cols, top, bottom, Empty()))
      ensures !AtMargin(old(cursorX), old(cursorY)) ==> Shows(View(), screen)
      ensures WrappedTo(old(cursorX), old(cursorY), cursorX, cursorY)
    {
      Larger(bottom, rows, cols);
      if cursorX >= cols {
        if wrap && (cursorY < bottom - 1 || scrolls) {
          cursorX := 0;
          cursorY := cursorY + 1;
          if cursorY == bottom {
            cursorY := cursorY - 1;
            Scroll(screen);
          }
          if cursorY >= rows {
            cursorY := rows - 1;
          }
        } else {
          cursorX := cols - 1;
        }
      }
    }

    method RawPutchar(c: nat, ghost screen: seq<Char>)
      requires Valid() && Shows(View(), screen)
      modifies this`queued, this`cursorX, this`cursorY, queue, index
      ensures Valid() && bottom * cols <= |screen|
      ensures var p := NextPlace(old(cursorX), old(cursorY), cols, rows, bottom, wrap, scrolls);
              var s := if p.scrolls then ScrolledUp(screen, cols, top, bottom, Empty()) else screen;
              && cursorX == p.x + 1 && cursorY == p.y
              && if p.y < rows then At(p.x, p.y, cols) < |s| && Shows(View(), s[At(p.x, p.y, cols) := Empty().(c := c)])
                 else Shows(View(), s)
      ensures cursorX > 0 && WrappedTo(old(cursorX), old(cursorY), cursorX - 1, cursorY)
      ensures cursorY < rows ==> At(cursorX - 1, cursorY, cols) < rows * cols
                                 && IsBlank(View().Cell(At(cursorX - 1, cursorY, cols)).(c := 32))
                                 && View().Cell(At(cursorX - 1, cursorY, cols)).c == c
    {
      ghost var p := NextPlace(cursorX, cursorY, cols, rows, bottom, wrap, scrolls);
      Wrap(screen);
      ghost var s := if p.scrolls then ScrolledUp(screen, cols, top, bottom, Empty()) else screen;
      var ch := Char(c, textFg, textBg, textFgDefault, textBgDefault);
      Push(ch, cursorX, cursorY, s, ch);
      if cursorY < rows {
        ghost var i := At(cursorX, cursorY, cols);
        assert ShowsAt(View(), s[i := ch], i);
      }
      cursorX := cursorX + 1;
    }

    /** The cell of a cursor, if it is on the screen. */
    function CellOf(x: nat, y: nat): Option<nat> {
      if x < cols && y < rows then Some(At(x, y, cols)) else None
    }

    method Plot(c: Char, x: nat, y: nat)
      requires Shape() && x < cols && y < rows && At(x, y, cols) < rows * cols
      modifies shown
      ensures shown[..] == old(shown[..])[At(x, y, cols) := c]
    {
      shown[y * cols + x] := c;
    }

    /** The cell under the cursor, colours exchanged; a change of that cell is flushed with it. */
    method DrawCursor(ghost f: Frame, ghost last: Option<nat>)
      requires Shape() && Sound(f) && f == View() && Drawn(shown[..], grid[..], last, None)
      modifies grid, index, shown
      ensures queue[..] == old(queue[..]) && Flushed(f, grid[..], index[..], 0)
      ensures Drawn(shown[..], grid[..], if CellOf(cursorX, cursorY) == last then None else last,
                    CellOf(cursorX, cursorY))
      ensures CellOf(cursorX, cursorY).Some? ==> CellOf(cursorX, cursorY).value < rows * cols
                                                 && index[CellOf(cursorX, cursorY).value] == None
    {
      FlushStarts(f);
      if cursorX >= cols || cursorY >= rows {
        return;
      }
      InRange(cursorX, cursorY, cols, rows);
      var i := cursorX + cursorY * cols;
      assert MappedOk(f, i) && FlushedAt(f, grid[..], index[..], 0, i);
      var item := index[i];
      var c := if item.Some? then queue[item.value].c else grid[i];
      ghost var s, g, x := shown[..], grid[..], index[..];
      Plot(Inverted(c), cursorX, cursorY);
      if item.Some? {
        grid[i] := queue[item.value].c;
        index[i] := None;
      }
      DrawInverted(s, g, last, i, c);
      assert grid[..] == g[i := c] && index[..] == x[i := None];
      forall k | 0 <= k < |g| ensures FlushedAt(f, grid[..], index[..], 0, k) { assert FlushedAt(f, g, x, 0, k); }
    }

    method FlushItem(j: nat, ghost f: Frame, ghost last: Option<nat>, ghost drawn: Option<nat>)
      requires Shape() && j < queued && Sound(f) && f.cols == cols && f.queue == queue[..queued]
      requires Flushed(f, grid[..], index[..], j) && Drawn(shown[..], grid[..], last, drawn)
      requires drawn.Some? ==> drawn.value < rows * cols && index[drawn.value] == None
      modifies grid, index, shown
      ensures Flushed(f, grid[..], index[..], j + 1) && Drawn(shown[..], grid[..], last, drawn)
      ensures drawn.Some? ==> index[drawn.value] == None
    {
      var q := queue[j];
      ghost var s, g, x := shown[..], grid[..], index[..];
      FlushNext(f, g, x, j);
      var offset := q.y * cols + q.x;
      if index[offset] == None {
        return;
      }
      DrawOver(s, g, last, drawn, offset, q.c);
      shown[offset] := q.c;
      grid[offset] := q.c;
      index[offset] := None;
      assert grid[..] == g[offset := q.c] && index[..] == x[offset := None] && shown[..] == s[offset := q.c];
    }

    method FlushQueue(ghost f: Frame, ghost last: Option<nat>, ghost drawn: Option<nat>)
      requires Shape() && Sound(f) && f.cols == cols && f.queue == queue[..queued]
      requires Flushed(f, grid[..], index[..], 0) && Drawn(shown[..], grid[..], last, drawn)
      requires drawn.Some? ==> drawn.value < rows * cols && index[drawn.value] == None
      modifies grid, index, shown
      ensures Flushed(f, grid[..], index[..], queued) && Drawn(shown[..], grid[..], last, drawn)
    {
      for j := 0 to queued
        invariant Flushed(f, grid[..], index[..], j) && Drawn(shown[..], grid[..], last, drawn)
        invariant drawn.Some? ==> index[drawn.value] == None
      {
        FlushItem(j, f, last, drawn);
      }
    }

    /** The cursor is drawn, the changes are, and the cell where the cursor was before is drawn as it is. */
    method Flush(ghost screen: seq<Char>)
      requires Valid() && Shows(View(), screen) && Drawn(shown[..], grid[..], CellOf(oldX, oldY), None)
      modifies this`queued, this`oldX, this`oldY, grid, index, shown
      ensures Valid() && Shows(View(), screen) && oldX == cursorX && oldY == cursorY
      ensures queued == 0 && (forall i :: 0 <= i < rows * cols ==> index[i] == None && grid[i] == old(View()).Cell(i))
      ensures Drawn(shown[..], grid[..], None, if cursorEnabled then CellOf(cursorX, cursorY) else None)
      ensures Drawn(shown[..], grid[..], CellOf(oldX, oldY), None)
      ensures CursorIsExchanged()
    {
      ghost var f, was := View(), CellOf(oldX, oldY);
      ghost var drawn: Option<nat> := None;
      if cursorEnabled {
        drawn := CellOf(cursorX, cursorY);
        DrawCursor(f, was);
        was := if drawn == was then None else was;
      } else {
        FlushStarts(f);
      }
      FlushQueue(f, was, drawn);
      FlushEnds(f, grid[..], index[..]);
      RedrawOld(was, drawn);
      oldX, oldY := cursorX, cursorY;
      queued := 0;
      NothingQueued(f, View(), screen);
      CursorExchanged(drawn);
      DrawnLast(shown[..], grid[..], drawn, CellOf(oldX, oldY));
    }

    lemma CursorExchanged(drawn: Option<nat>)
      requires Shape() && Drawn(shown[..], grid[..], None, drawn)
      requires drawn == if cursorEnabled then CellOf(cursorX, cursorY) else None
      ensures CursorIsExchanged()
    {
      if drawn.Some? {
        InRange(cursorX, cursorY, cols, rows);
        assert DrawnAt(shown[..], grid[..], None, drawn, At(cursorX, cursorY, cols));
      }
    }

    /** The cell under a cursor that is to be seen is drawn with its colours exchanged. */
    predicate CursorIsExchanged()
      requires Shape()
      reads this, grid, shown
    {
      cursorEnabled && cursorX < cols && cursorY < rows ==>
        && At(cursorX, cursorY, cols) < rows * cols
        && Exchanged(grid[At(cursorX, cursorY, cols)], shown[At(cursorX, cursorY, cols)])
    }

    /** Where the cursor was, unless it still is there. */
    method RedrawOld(ghost was: Option<nat>, ghost drawn: Option<nat>)
      requires Shape() && Drawn(shown[..], grid[..], was, drawn)
      requires drawn == if cursorEnabled then CellOf(cursorX, cursorY) else None
      requires was == if drawn == CellOf(oldX, oldY) then None else CellOf(oldX, oldY)
      modifies shown
      ensures Drawn(shown[..], grid[..], None, drawn)
    {
      if oldX != cursorX || oldY != cursorY || !cursorEnabled {
        if oldX < cols && oldY < rows {
          InRange(oldX, oldY, cols, rows);
          if cursorX < cols { SameCellIfAt(oldX, oldY, cursorX, cursorY, cols); }
          ghost var s, i := shown[..], At(oldX, oldY, cols);
          DrawOver(s, grid[..], was, drawn, i, grid[i]);
          Plot(grid[oldX + oldY * cols], oldX, oldY);
        }
      }
    }
  }

  lemma SameCellIfAt(x: nat, y: nat, x': nat, y': nat, cols: nat)
    requires x < cols && x' < cols
    ensures At(x, y, cols) == At(x', y', cols) <==> x == x' && y == y'
  {
    if At(x, y, cols) == At(x', y', cols) { SameCell(x, y, x', y', cols); }
  }

  /** The cell of the cursor is the only one that the next flush has to look at again. */
  lemma DrawnLast(shown: seq<Char>, grid: seq<Char>, drawn: Option<nat>, last: Option<nat>)
    requires Drawn(shown, grid, None, drawn) && (drawn == None || drawn == last)
    ensures Drawn(shown, grid, last, None)
  {
    forall k | 0 <= k < |grid| ensures DrawnAt(shown, grid, last, None, k) {
      assert DrawnAt(shown, grid, None, drawn, k);
    }
  }

  lemma NothingQueued(f: Frame, g: Frame, screen: seq<Char>)
    requires Sound(f) && Shows(f, screen) && |g.grid| == |f.grid| == |g.index| && g.queue == []
    requires forall k :: 0 <= k < |g.grid| ==> g.index[k] == None && g.grid[k] == f.Cell(k)
    ensures Sound(g) && Shows(g, screen)
  {
    forall k | 0 <= k < |screen| ensures ShowsAt(g, screen, k) { assert ShowsAt(f, screen, k); }
  }
}
