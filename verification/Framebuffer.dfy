/** The double-buffered cell store behind the terminal (src/flanterm/backends/fb.c). The grid holds
    what was last flushed; changes wait in a queue, found again through an index from cells to queue
    slots. Together they stand for one logical screen. */
module Framebuffer {

  import opened Common

  datatype Cell = Cell(c: nat, fg: nat, bg: nat) {
    function Inverted(): Cell { Cell(c, bg, fg) }
  }

  datatype QueueItem = QueueItem(x: nat, y: nat, c: Cell)

  const SIZE_MAX: nat := 0xffff_ffff_ffff_ffff
  const SPACE: nat := 0x20

  // ----- cell numbers -------------------------------------------------------

  function At(cols: nat, x: nat, y: nat): nat {
    y * cols + x
  }

  lemma RowOrder(cols: nat, a: nat, b: nat)
    ensures a < b ==> a * cols + cols <= b * cols
    ensures a <= b ==> a * cols <= b * cols
  {
    if a < b {
      assert (a + 1) * cols <= b * cols;
    }
  }

  lemma RowEnd(cols: nat, rows: nat, y: nat)
    requires 1 <= y <= rows
    ensures 0 <= (y - 1) * cols && (y - 1) * cols + cols == y * cols <= rows * cols
  {
    RowOrder(cols, 0, y - 1);
    RowOrder(cols, y, rows);
  }

  lemma AtBound(rows: nat, cols: nat, x: nat, y: nat)
    requires x < cols && y < rows
    ensures At(cols, x, y) < rows * cols
  {
    assert (y + 1) * cols <= rows * cols;
  }

  lemma AtNext(cols: nat, x: nat, y: nat)
    ensures At(cols, x + 1, y) == At(cols, x, y) + 1 && At(cols, cols, y) == At(cols, 0, y + 1) && At(cols, 0, 0) == 0
  {
    assert (y + 1) * cols == y * cols + cols;
  }

  lemma AtDivMod(rows: nat, cols: nat, i: nat)
    requires cols > 0 && i < rows * cols
    ensures At(cols, i % cols, i / cols) == i && i / cols < rows
  {
    assert i == i / cols * cols + i % cols;
    RowOrder(cols, rows, i / cols);
  }

  lemma AtInjective(cols: nat, x: nat, y: nat, x': nat, y': nat)
    requires x < cols && x' < cols && At(cols, x, y) == At(cols, x', y')
    ensures x == x' && y == y'
  {
    RowOrder(cols, y, y');
    RowOrder(cols, y', y);
  }

  // ----- distinct cells fit the screen --------------------------------------

  lemma {:induction false} DistinctBelow(f: seq<nat>, n: nat)
    requires forall i, j :: 0 <= i < j < |f| ==> f[i] != f[j]
    requires forall i :: 0 <= i < |f| ==> f[i] < n
    ensures |f| <= n
    decreases n
  {
    var least := if f == [] then 0 else f[0] + 1;
    assert least <= n;
    if n == 0 {
    } else if k :| 0 <= k < |f| && f[k] == n - 1 {
      DistinctBelow(f[..k] + f[k + 1..], n - 1);
    } else {
      DistinctBelow(f, n - 1);
    }
  }

  // ----- what the operations mean -------------------------------------------

  /** The logical screen and the cursor; the cursor may stand one past the last column. */
  datatype View = View(cells: seq<Cell>, x: nat, y: nat)

  datatype Setup = Setup(rows: nat, cols: nat, top: nat, bottom: nat, scroll: bool, fg: nat, bg: nat) {
    predicate Ok() {
      1 <= cols && 1 <= bottom <= rows
    }

    function Blank(): Cell { Cell(SPACE, fg, bg) }
  }

  function AllBlank(s: Setup): seq<Cell> {
    seq(s.rows * s.cols, _ => s.Blank())
  }

  function Put(s: Setup, cells: seq<Cell>, x: nat, y: nat, c: Cell): (r: seq<Cell>)
    requires |cells| == s.rows * s.cols
    ensures |r| == |cells|
  {
    if x < s.cols && y < s.rows then AtBound(s.rows, s.cols, x, y); cells[At(s.cols, x, y) := c] else cells
  }

  /** Rows top..bottom-2 take the row below them and row bottom-1 becomes blank. */
  function Scrolled(s: Setup, cells: seq<Cell>): (r: seq<Cell>)
    requires s.Ok() && |cells| == s.rows * s.cols
    ensures |r| == |cells|
  {
    var top, last := s.top * s.cols, (s.bottom - 1) * s.cols;
    seq(|cells|, i requires 0 <= i < |cells| =>
      if top <= i < last && i + s.cols < |cells| then cells[i + s.cols]
      else if last <= i < last + s.cols then s.Blank()
      else cells[i])
  }

  /** Rows top+1..bottom-1 take the row above them and row top becomes blank. */
  function RevScrolled(s: Setup, cells: seq<Cell>): (r: seq<Cell>)
    requires s.Ok() && |cells| == s.rows * s.cols
    ensures |r| == |cells|
  {
    var top, end := s.top * s.cols, s.bottom * s.cols;
    seq(|cells|, i requires 0 <= i < |cells| =>
      if top + s.cols <= i < end then cells[i - s.cols]
      else if top <= i < top + s.cols then s.Blank()
      else cells[i])
  }

  /** Scrolling, row by row. */
  lemma ScrolledRow(s: Setup, cells: seq<Cell>, x: nat, y: nat)
    requires s.Ok() && |cells| == s.rows * s.cols && x < s.cols && y < s.rows
    ensures At(s.cols, x, y) < |cells| && (y + 1 < s.rows ==> At(s.cols, x, y + 1) < |cells|)
    ensures Scrolled(s, cells)[At(s.cols, x, y)] ==
            if s.top <= y < s.bottom - 1 then cells[At(s.cols, x, y + 1)]
            else if y == s.bottom - 1 then s.Blank()
            else cells[At(s.cols, x, y)]
  {
    AtBound(s.rows, s.cols, x, y);
    if y + 1 < s.rows {
      AtBound(s.rows, s.cols, x, y + 1);
    }
    RowOrder(s.cols, s.top, y);
    RowOrder(s.cols, y, s.top);
    RowOrder(s.cols, y, s.bottom - 1);
    RowOrder(s.cols, s.bottom - 1, y);
    assert (y + 1) * s.cols == y * s.cols + s.cols;
  }

  function RowBlanked(s: Setup, cells: seq<Cell>, row: nat, n: nat): (r: seq<Cell>)
    ensures |r| == |cells|
  {
    var first := row * s.cols;
    seq(|cells|, i requires 0 <= i < |cells| => if first <= i < first + n then s.Blank() else cells[i])
  }

  lemma BlankStep(s: Setup, cells: seq<Cell>, row: nat, n: nat)
    requires |cells| == s.rows * s.cols && n < s.cols
    ensures RowBlanked(s, cells, row, 0) == cells
    ensures Put(s, RowBlanked(s, cells, row, n), n, row, s.Blank()) == RowBlanked(s, cells, row, n + 1)
  {
    RowOrder(s.cols, s.rows, row);
    if row < s.rows {
      AtBound(s.rows, s.cols, n, row);
    }
  }

  /** The scrolling loop on reaching cell `i`: the cells first..i-cols-1 have moved up. */
  function ShiftedUp(cells: seq<Cell>, cols: nat, first: nat, i: nat): (r: seq<Cell>)
    ensures |r| == |cells|
  {
    seq(|cells|, k requires 0 <= k < |cells| =>
      if first <= k < i - cols && k + cols < |cells| then cells[k + cols] else cells[k])
  }

  lemma ShiftUpStep(cells: seq<Cell>, cols: nat, first: nat, i: nat)
    requires cols > 0 && first + cols <= i < |cells|
    ensures ShiftedUp(cells, cols, first, i)[i] == cells[i]
    ensures ShiftedUp(cells, cols, first, i)[i - cols := cells[i]] == ShiftedUp(cells, cols, first, i + 1)
  {
  }

  lemma ShiftUpStart(cells: seq<Cell>, cols: nat, first: nat)
    ensures ShiftedUp(cells, cols, first, first + cols) == cells
  {
  }

  lemma ShiftUpEnd(s: Setup, cells: seq<Cell>, i: nat)
    requires s.Ok() && |cells| == s.rows * s.cols
    requires i == s.bottom * s.cols || (i == s.top * s.cols + s.cols && i >= s.bottom * s.cols)
    ensures RowBlanked(s, ShiftedUp(cells, s.cols, s.top * s.cols, i), s.bottom - 1, s.cols) == Scrolled(s, cells)
  {
    assert (s.bottom - 1) * s.cols == s.bottom * s.cols - s.cols;
  }

  /** The reverse scrolling loop on reaching cell `j`: the cells j+cols+1..end-1 have moved down. */
  function ShiftedDown(cells: seq<Cell>, cols: nat, first: nat, end: nat, j: int): (r: seq<Cell>)
    ensures |r| == |cells|
  {
    seq(|cells|, k requires 0 <= k < |cells| =>
      if first + cols <= k < end && j + cols < k && k >= cols then cells[k - cols] else cells[k])
  }

  lemma ShiftDownStep(cells: seq<Cell>, cols: nat, first: nat, end: nat, j: nat)
    requires cols > 0 && first <= j < end - cols && end <= |cells|
    ensures ShiftedDown(cells, cols, first, end, j)[j] == cells[j]
    ensures ShiftedDown(cells, cols, first, end, j)[j + cols := cells[j]] == ShiftedDown(cells, cols, first, end, j - 1)
  {
  }

  lemma ShiftDownStart(cells: seq<Cell>, cols: nat, first: nat, last: nat)
    requires last + cols <= |cells|
    ensures ShiftedDown(cells, cols, first, last + cols, last - 1) == cells
  {
  }

  lemma ShiftDownEnd(s: Setup, cells: seq<Cell>, j: int)
    requires s.Ok() && |cells| == s.rows * s.cols && (j < s.top * s.cols || j == -1)
    ensures RowBlanked(s, ShiftedDown(cells, s.cols, s.top * s.cols, s.bottom * s.cols, j), s.top, s.cols) ==
            RevScrolled(s, cells)
  {
  }

  lemma RevScrolledRow(s: Setup, cells: seq<Cell>, x: nat, y: nat)
    requires s.Ok() && |cells| == s.rows * s.cols && x < s.cols && y < s.rows
    ensures At(s.cols, x, y) < |cells| && (y > 0 ==> At(s.cols, x, y - 1) < |cells|)
    ensures RevScrolled(s, cells)[At(s.cols, x, y)] ==
            if s.top < y < s.bottom then cells[At(s.cols, x, y - 1)]
            else if y == s.top then s.Blank()
            else cells[At(s.cols, x, y)]
  {
    AtBound(s.rows, s.cols, x, y);
    if y > 0 {
      AtBound(s.rows, s.cols, x, y - 1);
      assert (y - 1) * s.cols == y * s.cols - s.cols;
    }
    RowOrder(s.cols, s.top, y);
    RowOrder(s.cols, y, s.top);
    RowOrder(s.cols, y, s.bottom);
    RowOrder(s.cols, s.bottom, y);
  }

  /** raw_putchar: a deferred wrap first, then the character. */
  function RawPut(s: Setup, v: View, c: nat): View
    requires s.Ok() && |v.cells| == s.rows * s.cols
  {
    var w := if v.x >= s.cols && (v.y < s.bottom - 1 || s.scroll) then Wrapped(s, v) else v;
    View(Put(s, w.cells, w.x, w.y, Cell(c, s.fg, s.bg)), w.x + 1, w.y)
  }

  /** The wrap; the row is clamped against the number of columns, as the code has it. */
  function Wrapped(s: Setup, v: View): (w: View)
    requires s.Ok() && |v.cells| == s.rows * s.cols
    ensures |w.cells| == |v.cells|
  {
    var scrolls := v.y + 1 == s.bottom;
    var y := if scrolls then v.y else v.y + 1;
    View(if scrolls then Scrolled(s, v.cells) else v.cells, 0, if y >= s.cols then s.cols - 1 else y)
  }

  /** A character goes to the cursor's cell and no other. After a full line it goes to the first cell of the next
      row, or of the bottom margin's once the region has scrolled; without scrolling it is lost there. */
  lemma CharacterLands(s: Setup, v: View, c: nat)
    requires s.Ok() && |v.cells| == s.rows * s.cols && v.y < s.rows && v.y < s.cols
    ensures At(s.cols, 0, v.y) < |v.cells| && (v.x < s.cols ==> At(s.cols, v.x, v.y) < |v.cells|)
    ensures v.y + 1 < s.rows ==> At(s.cols, 0, v.y + 1) < |v.cells|
    ensures v.x < s.cols ==>
              RawPut(s, v, c) == View(v.cells[At(s.cols, v.x, v.y) := Cell(c, s.fg, s.bg)], v.x + 1, v.y)
    ensures v.x >= s.cols && v.y + 1 < s.bottom && v.y + 1 < s.cols ==>
              RawPut(s, v, c) == View(v.cells[At(s.cols, 0, v.y + 1) := Cell(c, s.fg, s.bg)], 1, v.y + 1)
    ensures v.x >= s.cols && v.y + 1 == s.bottom && s.scroll ==>
              RawPut(s, v, c) == View(Scrolled(s, v.cells)[At(s.cols, 0, v.y) := Cell(c, s.fg, s.bg)], 1, v.y)
    ensures v.x >= s.cols && v.y + 1 >= s.bottom && !s.scroll ==> RawPut(s, v, c) == View(v.cells, v.x + 1, v.y)
  {
    hide Scrolled;
    AtBound(s.rows, s.cols, 0, v.y);
    if v.x < s.cols {
      AtBound(s.rows, s.cols, v.x, v.y);
    }
    if v.y + 1 < s.rows {
      AtBound(s.rows, s.cols, 0, v.y + 1);
    }
  }

  /** The cursor's row leaves the screen exactly when a line of text wraps on the last row below the region,
      on a screen with more columns than rows. */
  lemma RowLeaves(s: Setup, v: View, c: nat)
    requires s.Ok() && |v.cells| == s.rows * s.cols && v.y < s.rows
    ensures RawPut(s, v, c).y >= s.rows <==>
            v.x >= s.cols && s.scroll && v.y == s.rows - 1 && s.bottom < s.rows < s.cols
  {
    hide Put, Scrolled;
  }

  /** The grid with the queued characters laid over it. */
  ghost function Overlay(grid: seq<Cell>, queue: seq<QueueItem>, index: seq<Option<nat>>): (cells: seq<Cell>)
    requires |index| == |grid|
    ensures |cells| == |grid|
  {
    seq(|grid|, i requires 0 <= i < |grid| =>
      if index[i].Some? && index[i].value < |queue| then queue[index[i].value].c else grid[i])
  }

  lemma NoOverlay(grid: seq<Cell>, queue: seq<QueueItem>, index: seq<Option<nat>>)
    requires |index| == |grid| && forall i :: 0 <= i < |index| ==> index[i].None?
    ensures Overlay(grid, queue, index) == grid
  {
  }

  /** A snapshot of the buffers. */
  datatype Store = Store(grid: seq<Cell>, queue: seq<QueueItem>, index: seq<Option<nat>>, displayed: seq<Cell>,
      queueI: nat)

  /** Part of the way through a flush: slots below `k` are done; `logical` is the screen to show,
      `drawn` the cell of the new cursor and `was` that of the old one. */
  ghost predicate Draining(st: Store, logical: seq<Cell>, index0: seq<Option<nat>>, k: nat, drawn: int, was: int) {
    && |logical| == |index0| == |st.index| == |st.grid| == |st.displayed| && st.queueI <= |st.queue|
    && (forall i :: 0 <= i < |st.index| && st.index[i].Some? ==>
          && st.index[i] == index0[i] && k <= st.index[i].value < st.queueI
          && st.queue[st.index[i].value].c == logical[i] && i != drawn)
    && (forall i :: 0 <= i < |st.index| && st.index[i].None? ==> st.grid[i] == logical[i])
    && (forall i :: 0 <= i < |st.grid| && i != was && i != drawn ==> st.displayed[i] == st.grid[i])
    && (0 <= drawn < |st.grid| ==> st.displayed[drawn] == logical[drawn].Inverted())
  }

  /** Every live slot has the cell it was taken for. */
  ghost predicate SlotsIn(rows: nat, cols: nat, st: Store, index0: seq<Option<nat>>) {
    && st.queueI <= |st.queue|
    && forall s :: 0 <= s < st.queueI ==>
         var q := st.queue[s];
         && q.x < cols && q.y < rows && At(cols, q.x, q.y) < |index0|
         && forall i :: 0 <= i < |index0| ==> (index0[i] == Some(s) <==> i == At(cols, q.x, q.y))
  }

  ghost function Drained(st: Store, k: nat, offset: nat): Store
    requires k < |st.queue| && offset < |st.grid| == |st.index| == |st.displayed|
  {
    var c := st.queue[k].c;
    st.(displayed := st.displayed[offset := c], grid := st.grid[offset := c], index := st.index[offset := None])
  }

  lemma DrainStep(st: Store, logical: seq<Cell>, index0: seq<Option<nat>>, k: nat, drawn: int, was: int, offset: nat)
    requires Draining(st, logical, index0, k, drawn, was) && k < st.queueI
    requires offset < |index0| && forall i :: 0 <= i < |index0| ==> (index0[i] == Some(k) <==> i == offset)
    ensures Draining(if st.index[offset].Some? then Drained(st, k, offset) else st, logical, index0, k + 1, drawn, was)
  {
  }

  lemma DrainEnd(st: Store, logical: seq<Cell>, index0: seq<Option<nat>>, drawn: int, was: int)
    requires Draining(st, logical, index0, st.queueI, drawn, was)
    ensures st.grid == logical && forall i :: 0 <= i < |st.index| ==> st.index[i].None?
    ensures 0 <= drawn < |logical| ==> st.displayed[drawn] == logical[drawn].Inverted()
    ensures forall i :: 0 <= i < |logical| && i != was ==>
              st.displayed[i] == if i == drawn then logical[i].Inverted() else logical[i]
  {
    assert forall i :: 0 <= i < |st.index| ==> st.index[i].None?;
  }

  lemma DrainStart(st0: Store, st: Store, logical: seq<Cell>, drawn: int, was: int)
    requires |st0.grid| == |st0.index| == |st0.displayed| && st0.queueI <= |st0.queue|
    requires logical == Overlay(st0.grid, st0.queue, st0.index)
    requires forall i :: 0 <= i < |st0.index| && st0.index[i].Some? ==> st0.index[i].value < st0.queueI
    requires forall i :: 0 <= i < |st0.grid| && i != was ==> st0.displayed[i] == st0.grid[i]
    requires st == if 0 <= drawn < |st0.grid| then
                     st0.(displayed := st0.displayed[drawn := logical[drawn].Inverted()],
                          grid := st0.grid[drawn := logical[drawn]],
                          index := st0.index[drawn := None])
                   else st0
    ensures Draining(st, logical, st0.index, 0, drawn, was)
  {
  }

  class Screen {
    const rows: nat
    const cols: nat
    const grid: array<Cell>
    const queue: array<QueueItem>
    const index: array<Option<nat>>
    const displayed: array<Cell>
    var queueI: nat
    var cursorX: nat
    var cursorY: nat
    var oldCursorX: nat
    var oldCursorY: nat
    var textFg: nat
    var textBg: nat
    var cursorEnabled: bool
    var scrollEnabled: bool
    var scrollTop: nat
    var scrollBottom: nat

    ghost predicate Shaped() {
      && rows >= 1 && cols >= 1
      && grid.Length == queue.Length == index.Length == displayed.Length == rows * cols
      && grid != displayed && rows * cols < SIZE_MAX
    }

    predicate OnScreen(x: nat, y: nat) { x < cols && y < rows }

    /** Slot `s` of the queue waits for cell `i`. */
    ghost predicate SlotFor(s: nat, i: int)
      requires s < queue.Length
      reads queue
    {
      OnScreen(queue[s].x, queue[s].y) && At(cols, queue[s].x, queue[s].y) == i
    }

    /** Live queue slots and non-null index cells are in bijection. */
    ghost predicate Linked()
      requires Shaped()
      reads this`queueI, queue, index
    {
      && queueI <= queue.Length
      && (forall i :: 0 <= i < index.Length && index[i].Some? ==> index[i].value < queueI && SlotFor(index[i].value, i))
      && forall s :: 0 <= s < queueI ==> exists i :: 0 <= i < index.Length && index[i] == Some(s)
    }

    /** The display agrees with the grid, but for the cell where the cursor was drawn. */
    ghost predicate Shown()
      requires Shaped()
      reads this`oldCursorX, this`oldCursorY, grid, displayed
    {
      forall i :: 0 <= i < grid.Length && i != CellOf(oldCursorX, oldCursorY) ==> displayed[i] == grid[i]
    }

    /** The cell at a position, -1 when it is off the screen. */
    function CellOf(x: nat, y: nat): int {
      if OnScreen(x, y) then At(cols, x, y) else -1
    }

    ghost predicate Valid()
      reads this`queueI, this`oldCursorX, this`oldCursorY, grid, queue, index, displayed
    {
      Shaped() && Linked() && Shown()
    }

    ghost function Logical(): (cells: seq<Cell>)
      requires Valid()
      reads this`queueI, this`oldCursorX, this`oldCursorY, grid, queue, index, displayed
      ensures |cells| == rows * cols
    {
      Overlay(grid[..], queue[..], index[..])
    }

    ghost function Setting(): Setup
      reads this`scrollTop, this`scrollBottom, this`scrollEnabled, this`textFg, this`textBg
    {
      Setup(rows, cols, scrollTop, scrollBottom, scrollEnabled, textFg, textBg)
    }

    ghost function TheView(): View
      requires Valid()
      reads this, grid, queue, index, displayed
    {
      View(Logical(), cursorX, cursorY)
    }

    /** The cell-store part of flanterm_fb_init, before the first refresh. */
    constructor (rows: nat, cols: nat, fg: nat, bg: nat)
      requires rows >= 1 && cols >= 1 && rows * cols < SIZE_MAX
      ensures Valid() && fresh(grid) && fresh(queue) && fresh(index) && fresh(displayed)
      ensures this.rows == rows && this.cols == cols && queueI == 0
      ensures Setting() == Setup(rows, cols, 0, rows, true, fg, bg) && Logical() == AllBlank(Setting())
      ensures cursorX == oldCursorX == 0 && cursorY == oldCursorY == 0 && cursorEnabled
    {
      var n := rows * cols;
      AtBound(rows, cols, 0, 0);
      this.rows, this.cols, textFg, textBg := rows, cols, fg, bg;
      grid := new Cell[n](_ => Cell(SPACE, fg, bg));
      displayed := new Cell[n](_ => Cell(SPACE, fg, bg));
      queue := new QueueItem[n](_ => QueueItem(0, 0, Cell(0, 0, 0)));
      index := new Option<nat>[n](_ => None);
      queueI, cursorX, cursorY, oldCursorX, oldCursorY := 0, 0, 0, 0, 0;
      cursorEnabled, scrollEnabled, scrollTop, scrollBottom := true, true, 0, rows;
    }

    /** The bijection leaves a slot free for a cell that has none. */
    lemma SlotLeft(i: nat)
      requires Shaped() && Linked() && i < index.Length && index[i].None?
      ensures queueI < queue.Length
    {
      var f: seq<nat> := [];
      while |f| < queueI
        invariant |f| <= queueI
        invariant forall s :: 0 <= s < |f| ==> f[s] < index.Length && index[f[s]] == Some(s)
      {
        var j :| 0 <= j < index.Length && index[j] == Some(|f|);
        f := f + [j];
      }
      DistinctBelow(f + [i], index.Length);
    }

    lemma NothingQueued()
      requires Valid() && queueI == 0
      ensures forall i :: 0 <= i < index.Length ==> index[i].None?
    {
    }

    /** push_to_queue. */
    method Push(c: Cell, x: nat, y: nat)
      requires Valid()
      modifies this`queueI, queue, index
      ensures Valid() && Logical() == Put(Setting(), old(Logical()), x, y, c)
    {
      if x >= cols || y >= rows {
        return;
      }
      var i := y * cols + x;
      AtBound(rows, cols, x, y);
      ghost var before := Logical();
      if index[i].None? {
        if grid[i] == c {
          assert Logical() == before[i := c];
          return;
        }
        SlotLeft(i);
        PushNew(c, x, y, i);
      } else {
        var s := index[i].value;
        queue[s] := queue[s].(c := c);
        assert index[..] == old(index[..]);
        SlotUpdated(before, old(queue[..]), i, s, c);
      }
    }

    lemma SlotUpdated(before: seq<Cell>, queue0: seq<QueueItem>, i: nat, s: nat, c: Cell)
      requires Shaped() && |queue0| == queue.Length && before == Overlay(grid[..], queue0, index[..])
      requires i < index.Length && index[i] == Some(s) && s < |queue0| && queue[..] == queue0[s := queue0[s].(c := c)]
      requires forall k :: 0 <= k < index.Length && index[k] == Some(s) ==> k == i
      ensures Overlay(grid[..], queue[..], index[..]) == before[i := c]
    {
    }

    /** The branch of push_to_queue that takes a new slot. */
    method PushNew(c: Cell, x: nat, y: nat, i: nat)
      requires Valid() && OnScreen(x, y) && i == At(cols, x, y) && i < index.Length
      requires index[i].None? && queueI < queue.Length
      modifies this`queueI, queue, index
      ensures Valid() && Logical() == old(Logical())[i := c]
    {
      queue[queueI] := QueueItem(x, y, c);
      index[i] := Some(queueI);
      queueI := queueI + 1;
      forall s | 0 <= s < queueI ensures exists k :: 0 <= k < index.Length && index[k] == Some(s) {
        if s == queueI - 1 {
          assert index[i] == Some(s);
        } else {
          var k :| 0 <= k < index.Length && old(index[k]) == Some(s);
          assert index[k] == Some(s);
        }
      }
    }

    /** The character shown at cell `i`: the queued one if there is one. */
    method Current(i: nat) returns (c: Cell)
      requires Valid() && i < rows * cols
      ensures c == Logical()[i]
    {
      c := if index[i].Some? then queue[index[i].value].c else grid[i];
    }

    method PushCell(c: Cell, i: nat)
      requires Valid() && i < rows * cols
      modifies this`queueI, queue, index
      ensures Valid() && Logical() == old(Logical())[i := c]
    {
      AtDivMod(rows, cols, i);
      Push(c, i % cols, i / cols);
    }

    /** The clearing loop at the end of both scrolls. */
    method BlankRow(row: nat)
      requires Valid()
      modifies this`queueI, queue, index
      ensures Valid() && Logical() == RowBlanked(Setting(), old(Logical()), row, cols)
    {
      var empty := Cell(SPACE, textFg, textBg);
      ghost var s, before := Setting(), Logical();
      BlankStep(s, before, row, 0);
      for i := 0 to cols
        invariant Valid() && Logical() == RowBlanked(s, before, row, i)
      {
        BlankStep(s, before, row, i);
        Push(empty, i, row);
      }
    }

    /** The loop of flanterm_fb_scroll from cell `i`: ascending, so no cell is read once overwritten. */
    method ShiftUp(first: nat, end: nat) returns (i: nat)
      requires Valid() && end <= rows * cols
      modifies this`queueI, queue, index
      ensures Valid() && (i == end || (i == first + cols && i >= end))
      ensures Logical() == ShiftedUp(old(Logical()), cols, first, i)
    {
      hide Linked, Shown, Overlay, ShiftedUp;
      ghost var before := Logical();
      i := first + cols;
      ShiftUpStart(before, cols, first);
      while i < end
        invariant Valid() && first + cols <= i && (i <= end || i == first + cols)
        invariant Logical() == ShiftedUp(before, cols, first, i)
      {
        ShiftUpStep(before, cols, first, i);
        var c := Current(i);
        PushCell(c, i - cols);
        i := i + 1;
      }
    }

    /** flanterm_fb_scroll. */
    method Scroll()
      requires Valid() && Setting().Ok()
      modifies this`queueI, queue, index
      ensures Valid() && Logical() == Scrolled(Setting(), old(Logical()))
    {
      hide Linked, Shown, Overlay, ShiftedUp, RowBlanked, Scrolled;
      ghost var s, before := Setting(), Logical();
      RowOrder(cols, 0, scrollTop);
      RowOrder(cols, scrollBottom, rows);
      var i := ShiftUp(scrollTop * cols, scrollBottom * cols);
      ShiftUpEnd(s, before, i);
      BlankRow(scrollBottom - 1);
    }

    /** The loop of flanterm_fb_revscroll: descending from the cell before `last`, with the guard
        against wrapping below cell 0. */
    method ShiftDown(first: nat, last: nat) returns (ghost j: int)
      requires Valid() && last + cols <= rows * cols
      modifies this`queueI, queue, index
      ensures Valid() && (j < first || j == -1)
      ensures Logical() == ShiftedDown(old(Logical()), cols, first, last + cols, j)
    {
      hide Linked, Shown, Overlay, ShiftedDown;
      ghost var before := Logical();
      var i := if last == 0 then SIZE_MAX else last - 1;
      j := last - 1;
      ShiftDownStart(before, cols, first, last);
      while i >= first
        invariant Valid() && j == if i == SIZE_MAX then -1 else i
        invariant j < last
        invariant Logical() == ShiftedDown(before, cols, first, last + cols, j)
        decreases j + 1
      {
        if i == SIZE_MAX {
          break;
        }
        ShiftDownStep(before, cols, first, last + cols, i);
        var c := Current(i);
        PushCell(c, i + cols);
        i := if i == 0 then SIZE_MAX else i - 1;
        j := j - 1;
      }
    }

    /** flanterm_fb_revscroll. */
    method RevScroll()
      requires Valid() && Setting().Ok()
      modifies this`queueI, queue, index
      ensures Valid() && Logical() == RevScrolled(Setting(), old(Logical()))
    {
      hide Linked, Shown, Overlay, ShiftedDown, RowBlanked, RevScrolled;
      ghost var s, before := Setting(), Logical();
      RowOrder(cols, 0, scrollTop);
      RowEnd(cols, rows, scrollBottom);
      ghost var j := ShiftDown(scrollTop * cols, (scrollBottom - 1) * cols);
      ShiftDownEnd(s, before, j);
      BlankRow(scrollTop);
    }

    /** flanterm_fb_clear. */
    method Clear(move: bool)
      requires Valid()
      modifies this`queueI, queue, index, this`cursorX, this`cursorY
      ensures Valid() && Logical() == AllBlank(Setting())
      ensures if move then cursorX == 0 && cursorY == 0 else cursorX == old(cursorX) && cursorY == old(cursorY)
    {
      var empty := Cell(SPACE, textFg, textBg);
      for i := 0 to rows * cols
        invariant Valid() && cursorX == old(cursorX) && cursorY == old(cursorY)
        invariant forall k :: 0 <= k < i ==> Logical()[k] == empty
      {
        PushCell(empty, i);
      }
      assert Logical() == AllBlank(Setting());
      if move {
        cursorX := 0;
        cursorY := 0;
      }
    }

    /** flanterm_fb_move_character. */
    method MoveCharacter(newX: nat, newY: nat, oldX: nat, oldY: nat)
      requires Valid()
      modifies this`queueI, queue, index
      ensures Valid()
      ensures OnScreen(oldX, oldY) && OnScreen(newX, newY) ==>
                && At(cols, oldX, oldY) < rows * cols
                && Logical() == Put(Setting(), old(Logical()), newX, newY, old(Logical())[At(cols, oldX, oldY)])
      ensures !(OnScreen(oldX, oldY) && OnScreen(newX, newY)) ==> Logical() == old(Logical())
    {
      if oldX >= cols || oldY >= rows || newX >= cols || newY >= rows {
        return;
      }
      AtBound(rows, cols, oldX, oldY);
      var c := Current(oldX + oldY * cols);
      Push(c, newX, newY);
    }

    /** flanterm_fb_raw_putchar. */
    method RawPutchar(c: nat)
      requires Valid() && Setting().Ok()
      modifies this`queueI, queue, index, this`cursorX, this`cursorY
      ensures Valid() && TheView() == RawPut(Setting(), old(TheView()), c)
    {
      if cursorX >= cols && (cursorY < scrollBottom - 1 || scrollEnabled) {
        Wrap();
      }
      Push(Cell(c, textFg, textBg), cursorX, cursorY);
      cursorX := cursorX + 1;
    }

    /** The deferred wrap of flanterm_fb_raw_putchar. */
    method Wrap()
      requires Valid() && Setting().Ok()
      modifies this`queueI, queue, index, this`cursorX, this`cursorY
      ensures Valid() && TheView() == Wrapped(Setting(), old(TheView()))
    {
      cursorX := 0;
      cursorY := cursorY + 1;
      if cursorY == scrollBottom {
        cursorY := cursorY - 1;
        Scroll();
      }
      if cursorY >= cols {
        cursorY := cols - 1;
      }
    }

    /** The cursor is drawn: enabled and on screen. */
    predicate CursorDrawn()
      reads this`cursorEnabled, this`cursorX, this`cursorY
    {
      cursorEnabled && OnScreen(cursorX, cursorY)
    }

    /** draw_cursor: shows the cursor cell with its colours swapped and moves a queued character of that
        cell to the grid, but leaves its queue slot in place. */
    method DrawCursor()
      requires Valid()
      modifies grid, index, displayed
      ensures !OnScreen(cursorX, cursorY) ==> unchanged(displayed, grid, index)
      ensures OnScreen(cursorX, cursorY) ==>
                var i := At(cols, cursorX, cursorY);
                && i < rows * cols
                && displayed[..] == old(displayed[..])[i := old(Logical())[i].Inverted()]
                && grid[..] == old(grid[..])[i := old(Logical())[i]]
                && index[..] == old(index[..])[i := None]
    {
      if cursorX >= cols || cursorY >= rows {
        return;
      }
      AtBound(rows, cols, cursorX, cursorY);
      var i := cursorX + cursorY * cols;
      var c := Current(i);
      displayed[i] := c.Inverted();
      if index[i].Some? {
        grid[i] := c;
        index[i] := None;
      }
    }

    /** Where the cursor gets drawn, -1 for nowhere. */
    function DrawnCell(): int
      reads this`cursorEnabled, this`cursorX, this`cursorY
    {
      if CursorDrawn() then CellOf(cursorX, cursorY) else -1
    }

    ghost function TheStore(): Store
      reads this`queueI, grid, queue, index, displayed
    {
      Store(grid[..], queue[..], index[..], displayed[..], queueI)
    }

    lemma SlotsKnown()
      requires Valid()
      ensures SlotsIn(rows, cols, TheStore(), index[..])
    {
      forall s | 0 <= s < queueI
        ensures var q := queue[s]; OnScreen(q.x, q.y) && At(cols, q.x, q.y) < index.Length
        ensures forall j :: 0 <= j < index.Length ==> (index[j] == Some(s) <==> j == At(cols, queue[s].x, queue[s].y))
      {
        var i :| 0 <= i < index.Length && index[i] == Some(s);
        assert SlotFor(s, i);
      }
    }

    /** The loop of flanterm_fb_double_buffer_flush. */
    method Drain(ghost logical: seq<Cell>, ghost index0: seq<Option<nat>>, ghost drawn: int, ghost was: int)
      requires Shaped() && |logical| == |index0| == grid.Length
      requires Draining(TheStore(), logical, index0, 0, drawn, was) && SlotsIn(rows, cols, TheStore(), index0)
      modifies grid, index, displayed
      ensures Draining(TheStore(), logical, index0, queueI, drawn, was)
    {
      for k := 0 to queueI
        invariant Draining(TheStore(), logical, index0, k, drawn, was) && SlotsIn(rows, cols, TheStore(), index0)
      {
        ghost var st := TheStore();
        var q := queue[k];
        assert q == st.queue[k];
        var offset := q.y * cols + q.x;
        DrainStep(st, logical, index0, k, drawn, was, offset);
        if index[offset].Some? {
          displayed[offset] := q.c;
          grid[offset] := q.c;
          index[offset] := None;
          assert TheStore() == Drained(st, k, offset);
        } else {
          assert st.index[offset].None?;
        }
      }
    }

    ghost function Display(logical: seq<Cell>): (d: seq<Cell>)
      requires Shaped() && |logical| == rows * cols
      reads this`cursorEnabled, this`cursorX, this`cursorY
      ensures |d| == |logical|
    {
      if CursorDrawn() then
        AtBound(rows, cols, cursorX, cursorY);
        logical[DrawnCell() := logical[DrawnCell()].Inverted()]
      else logical
    }

    /** The display shows every cell as it is, but for the cursor's, when it is enabled: there the colours of
        character and background are exchanged. */
    lemma DisplayCell(logical: seq<Cell>, x: nat, y: nat)
      requires Shaped() && |logical| == rows * cols && x < cols && y < rows
      ensures At(cols, x, y) < |logical|
      ensures var c := logical[At(cols, x, y)];
              Display(logical)[At(cols, x, y)] ==
              if cursorEnabled && x == cursorX && y == cursorY then Cell(c.c, c.bg, c.fg) else c
    {
      AtBound(rows, cols, x, y);
      if CursorDrawn() && At(cols, x, y) == At(cols, cursorX, cursorY) {
        AtInjective(cols, x, y, cursorX, cursorY);
      }
    }

    /** flanterm_fb_double_buffer_flush: afterwards the display shows the logical screen with the cursor
        over it, the grid holds all of it, and nothing is queued. */
    method Flush()
      requires Valid()
      modifies this`queueI, this`oldCursorX, this`oldCursorY, grid, index, displayed
      ensures Valid() && queueI == 0 && oldCursorX == cursorX && oldCursorY == cursorY
      ensures Logical() == old(Logical()) && grid[..] == old(Logical())
      ensures forall i :: 0 <= i < index.Length ==> index[i].None?
      ensures displayed[..] == Display(old(Logical()))
    {
      hide Overlay, Display, At;
      ghost var logical := Logical();
      EmptyQueue();
      ghost var st := TheStore();
      RestoreOldCursor();
      FlushShows(st, logical);
      oldCursorX := cursorX;
      oldCursorY := cursorY;
      queueI := 0;
      NoOverlay(logical, queue[..], index[..]);
    }

    /** The first two steps of the flush: the cursor, then the queue. */
    method EmptyQueue()
      requires Valid()
      modifies grid, index, displayed
      ensures grid[..] == old(Logical()) && forall i :: 0 <= i < index.Length ==> index[i].None?
      ensures 0 <= DrawnCell() < rows * cols ==> displayed[..][DrawnCell()] == old(Logical())[DrawnCell()].Inverted()
      ensures forall i :: 0 <= i < rows * cols && i != CellOf(oldCursorX, oldCursorY) ==>
                displayed[..][i] == if i == DrawnCell() then old(Logical())[i].Inverted() else old(Logical())[i]
    {
      ghost var logical, st0, drawn, was := Logical(), TheStore(), DrawnCell(), CellOf(oldCursorX, oldCursorY);
      SlotsKnown();
      if cursorEnabled {
        DrawCursor();
      }
      DrainStart(st0, TheStore(), logical, drawn, was);
      Drain(logical, st0.index, drawn, was);
      DrainEnd(TheStore(), logical, st0.index, drawn, was);
      assert forall i :: 0 <= i < index.Length ==> TheStore().index[i] == index[i];
    }

    /** The cell where the cursor was drawn last is to be redrawn. */
    predicate OldCursorLeft()
      reads this`cursorEnabled, this`cursorX, this`cursorY, this`oldCursorX, this`oldCursorY
    {
      oldCursorX != cursorX || oldCursorY != cursorY || !cursorEnabled
    }

    lemma FlushShows(st: Store, logical: seq<Cell>)
      requires Shaped() && |logical| == rows * cols && grid[..] == logical && |st.displayed| == |logical|
      requires forall i :: 0 <= i < |logical| && i != CellOf(oldCursorX, oldCursorY) ==>
                 st.displayed[i] == if i == DrawnCell() then logical[i].Inverted() else logical[i]
      requires 0 <= DrawnCell() < |logical| ==> st.displayed[DrawnCell()] == logical[DrawnCell()].Inverted()
      requires forall i :: 0 <= i < grid.Length ==>
                 displayed[i] ==
                 if i == CellOf(oldCursorX, oldCursorY) && OldCursorLeft() then grid[i]
                 else st.displayed[i]
      ensures displayed[..] == Display(logical)
    {
      var was, drawn := CellOf(oldCursorX, oldCursorY), DrawnCell();
      if CursorDrawn() {
        AtBound(rows, cols, cursorX, cursorY);
        if OnScreen(oldCursorX, oldCursorY) && was == drawn {
          AtInjective(cols, oldCursorX, oldCursorY, cursorX, cursorY);
        }
      }
      forall i | 0 <= i < grid.Length ensures displayed[i] == Display(logical)[i] {
        assert grid[i] == logical[i];
      }
    }

    /** The tail of the flush: redraws the cell where the cursor was, unless the cursor is still there. */
    method RestoreOldCursor()
      requires Shaped()
      modifies displayed
      ensures forall i :: 0 <= i < grid.Length ==>
                displayed[i] ==
                if i == CellOf(oldCursorX, oldCursorY) && OldCursorLeft() then grid[i]
                else old(displayed[i])
    {
      if OldCursorLeft() {
        if oldCursorX < cols && oldCursorY < rows {
          AtBound(rows, cols, oldCursorX, oldCursorY);
          displayed[oldCursorX + oldCursorY * cols] := grid[oldCursorX + oldCursorY * cols];
        }
      }
    }

    /** flanterm_fb_full_refresh: shows the grid, not the logical screen. It keeps the store consistent
        exactly when no character is queued for the cursor cell and the cursor is drawn where the last
        flush left it (or swapping its colours cannot be seen). */
    method FullRefresh()
      requires Valid()
      modifies grid, index, displayed
      ensures !CursorDrawn() ==> displayed[..] == grid[..] == old(grid[..])
      ensures CursorDrawn() ==>
                var i := At(cols, cursorX, cursorY);
                && i < rows * cols && grid[..] == old(grid[..])[i := old(Logical())[i]]
                && displayed[..] == old(grid[..])[i := old(Logical())[i].Inverted()]
      ensures Valid() ==> Logical() == old(Logical())
      ensures CursorDrawn() ==> At(cols, cursorX, cursorY) < rows * cols
      ensures Valid() <==>
                || !CursorDrawn()
                || (&& old(index[At(cols, cursorX, cursorY)]).None?
                    && (|| (oldCursorX == cursorX && oldCursorY == cursorY)
                        || old(grid[At(cols, cursorX, cursorY)]).fg == old(grid[At(cols, cursorX, cursorY)]).bg))
    {
      PlotGrid();
      if cursorEnabled {
        ghost var logical := Logical();
        DrawCursor();
        if CursorDrawn() {
          RefreshedCursor(logical, old(grid[..]), old(index[..]));
        }
      }
    }

    /** The refresh at the end of flanterm_fb_init, with nothing queued yet. */
    method FirstRefresh()
      requires Valid() && queueI == 0 && cursorX == oldCursorX && cursorY == oldCursorY
      modifies grid, index, displayed
      ensures Valid() && Logical() == old(Logical())
    {
      hide Linked, Shown, Overlay;
      NothingQueued();
      AllUnqueued();
      FullRefresh();
    }

    lemma AllUnqueued()
      requires Shaped() && forall i :: 0 <= i < index.Length ==> index[i].None?
      ensures CursorDrawn() ==>
                At(cols, cursorX, cursorY) < index.Length && index[At(cols, cursorX, cursorY)].None?
    {
      if CursorDrawn() {
        AtBound(rows, cols, cursorX, cursorY);
      }
    }

    /** The plotting loop of flanterm_fb_full_refresh. */
    method PlotGrid()
      requires Valid()
      modifies displayed
      ensures Valid() && displayed[..] == grid[..]
    {
      for i := 0 to rows * cols
        invariant Valid() && forall k :: 0 <= k < i ==> displayed[k] == grid[k]
      {
        displayed[i] := grid[i];
      }
    }

    lemma RefreshedCursor(logical: seq<Cell>, grid0: seq<Cell>, index0: seq<Option<nat>>)
      requires Shaped() && CursorDrawn() && |logical| == |grid0| == |index0| == rows * cols
      requires var i := CellOf(cursorX, cursorY);
               && 0 <= i < rows * cols
               && displayed[..] == grid0[i := logical[i].Inverted()]
               && grid[..] == grid0[i := logical[i]]
               && index[..] == index0[i := None]
               && (index0[i].None? ==> logical[i] == grid0[i])
               && (index0[i].Some? ==>
                     index0[i].value < queueI && forall k :: 0 <= k < |index0| && index0[k] == index0[i] ==> k == i)
      requires index0 == index[..] ==> Linked()
      ensures Valid() <==>
                && index0[CellOf(cursorX, cursorY)].None?
                && (|| (oldCursorX == cursorX && oldCursorY == cursorY)
                    || grid0[CellOf(cursorX, cursorY)].fg == grid0[CellOf(cursorX, cursorY)].bg)
    {
      var i := CellOf(cursorX, cursorY);
      if index0[i].Some? {
        assert forall k :: 0 <= k < |index0| ==> index[..][k] != index0[i];
        assert !Linked();
      } else {
        assert index0 == index[..];
        if oldCursorX != cursorX || oldCursorY != cursorY {
          if OnScreen(oldCursorX, oldCursorY) && CellOf(oldCursorX, oldCursorY) == i {
            AtInjective(cols, oldCursorX, oldCursorY, cursorX, cursorY);
          }
          assert displayed[i] == displayed[..][i] && grid[i] == grid[..][i];
        }
        assert forall k :: 0 <= k < rows * cols && k != i ==> displayed[..][k] == grid[..][k];
      }
    }

    /** flanterm_fb_set_cursor_pos; (int)x < 0 looks at bit 31 of the 64-bit argument. */
    method SetCursorPos(x: nat, y: nat)
      requires Valid()
      modifies this`cursorX, this`cursorY
      ensures cursorX == Clamp(x, cols) && cursorY == Clamp(y, rows)
    {
      cursorX := if x >= cols then if IntNegative(x) then 0 else cols - 1 else x;
      cursorY := if y >= rows then if IntNegative(y) then 0 else rows - 1 else y;
    }

    /** flanterm_fb_get_cursor_pos. */
    method GetCursorPos() returns (x: nat, y: nat)
      requires Valid()
      ensures OnScreen(x, y)
      ensures x == if cursorX >= cols then cols - 1 else cursorX
      ensures y == if cursorY >= rows then rows - 1 else cursorY
    {
      x := if cursorX >= cols then cols - 1 else cursorX;
      y := if cursorY >= rows then rows - 1 else cursorY;
    }
  }

  predicate IntNegative(x: nat) {
    x % 0x1_0000_0000 >= 0x8000_0000
  }

  function Clamp(x: nat, n: nat): (r: nat)
    requires n > 0
    ensures r < n
  {
    if x < n then x else if IntNegative(x) then 0 else n - 1
  }
}
