/** The commands of the terminal (src/flanterm/flanterm.c) as functions on the logical screen and the
    cursor, and what they do to the text. */
module Editing {
  import opened Common
  import opened Framebuffer
  import opened Printing

  const TAB_SIZE: nat := 8
  const REPLACEMENT: nat := 0xfe

  /** size_t subtraction. */
  function Minus(a: nat, b: nat): nat {
    (a - b) % TWO_64
  }

  /** A screen of these dimensions with non-empty scroll margins inside it. */
  predicate Fits(s: Setup, v: View) {
    s.cols >= 1 && s.top < s.bottom <= s.rows && s.rows < TWO_32 && s.cols < TWO_32 && |v.cells| == s.rows * s.cols
  }

  // ----- the cursor -----------------------------------------------------------

  /** get_cursor_pos: a cursor past an edge counts as on it. */
  function CursorX(s: Setup, v: View): (x: nat)
    requires s.cols >= 1
    ensures x < s.cols
  {
    if v.x >= s.cols then s.cols - 1 else v.x
  }

  function CursorY(s: Setup, v: View): (y: nat)
    requires s.rows >= 1
    ensures y < s.rows
  {
    if v.y >= s.rows then s.rows - 1 else v.y
  }

  /** set_cursor_pos. */
  function Moved(s: Setup, v: View, x: nat, y: nat): View
    requires s.cols >= 1 && s.rows >= 1
  {
    View(v.cells, Clamp(x, s.cols), Clamp(y, s.rows))
  }

  /** Up n rows, but not out of the scroll region from inside or below. */
  function UpFrom(s: Setup, y: nat, n: nat): nat {
    var dest := y - Min(n, y);
    if dest < s.top <= y then s.top else dest
  }

  /** Down n rows, but not out of the scroll region from inside; the row just below the region counts as
      inside, so that moving down from there moves up. */
  function DownFrom(s: Setup, y: nat, n: nat): nat
    requires y < s.rows && s.bottom >= 1
  {
    var dest := y + Min(n, s.rows - 1 - y);
    if y <= s.bottom <= dest then s.bottom - 1 else dest
  }

  /** A one-based 32-bit coordinate, as commands d, G and ` read it: 0 wraps to the last one. */
  function OneBased(n: nat, size: nat): nat
    requires size > 0
  {
    Min((n + TWO_32 - 1) % TWO_32, size - 1)
  }

  /** A one-based coordinate, as commands H and f read it: 0 stands for 1. */
  function FromOne(n: nat, size: nat): nat
    requires size > 0
  {
    Min(if n == 0 then 0 else n - 1, size - 1)
  }

  /** Moving down never leads out of the region from inside, and leads upwards from exactly one row. */
  lemma DownStaysInside(s: Setup, y: nat, n: nat)
    requires s.top < s.bottom <= s.rows && y < s.rows
    ensures y < s.bottom ==> y <= DownFrom(s, y, n) < s.bottom
    ensures DownFrom(s, y, n) < y <==> y == s.bottom
  {
  }

  // ----- controls -------------------------------------------------------------

  /** Down one row, scrolling at the bottom margin. */
  function LineFed(s: Setup, v: View, x: nat): View
    requires Fits(s, v)
  {
    var y := CursorY(s, v);
    if y == s.bottom - 1 then Moved(s, View(Scrolled(s, v.cells), v.x, v.y), x, y) else Moved(s, v, x, y + 1)
  }

  /** A line feed at the bottom margin gives each row of the region the row below it and blanks the last; the
      cursor stays in its row. */
  lemma FeedScrolls(s: Setup, v: View, to: nat, x: nat, y: nat)
    requires Fits(s, v) && v.y == s.bottom - 1 && to < s.cols && x < s.cols && y < s.rows
    ensures At(s.cols, x, y) < |v.cells| && (y + 1 < s.rows ==> At(s.cols, x, y + 1) < |v.cells|)
    ensures var w := LineFed(s, v, to);
            && w.x == to && w.y == v.y && |w.cells| == |v.cells|
            && w.cells[At(s.cols, x, y)] ==
               if s.top <= y < s.bottom - 1 then v.cells[At(s.cols, x, y + 1)]
               else if y == s.bottom - 1 then Cell(0x20, s.fg, s.bg)
               else v.cells[At(s.cols, x, y)]
  {
    hide Scrolled, At;
    ScrolledRow(s, v.cells, x, y);
  }

  /** In any other row the text stays and the cursor goes down one row. In the last row, outside the region, it
      stays there unless bit 31 of the number of rows is set. */
  lemma FeedMoves(s: Setup, v: View, to: nat)
    requires Fits(s, v) && v.y < s.rows && v.y != s.bottom - 1 && to < s.cols
    ensures LineFed(s, v, to).cells == v.cells && LineFed(s, v, to).x == to
    ensures LineFed(s, v, to).y ==
            if v.y + 1 < s.rows then v.y + 1 else if s.rows >= 0x8000_0000 then 0 else v.y
  {
  }

  /** A reverse line feed at the top margin gives each row of the region the row above it and blanks the first;
      the cursor stays in its row and goes to the first column. */
  lemma FeedBackScrolls(s: Setup, v: View, x: nat, y: nat)
    requires Fits(s, v) && v.y == s.top && x < s.cols && y < s.rows
    ensures At(s.cols, x, y) < |v.cells| && (y > 0 ==> At(s.cols, x, y - 1) < |v.cells|)
    ensures var w := LineFedBack(s, v);
            && w.x == 0 && w.y == v.y && |w.cells| == |v.cells|
            && w.cells[At(s.cols, x, y)] ==
               if s.top < y < s.bottom then v.cells[At(s.cols, x, y - 1)]
               else if y == s.top then Cell(0x20, s.fg, s.bg)
               else v.cells[At(s.cols, x, y)]
  {
    hide RevScrolled, At;
    RevScrolledRow(s, v.cells, x, y);
  }

  /** Up one row, scrolling back at the top margin. */
  function LineFedBack(s: Setup, v: View): View
    requires Fits(s, v)
  {
    var y := CursorY(s, v);
    if y == s.top then Moved(s, View(RevScrolled(s, v.cells), v.x, v.y), 0, y) else Moved(s, v, 0, Minus(y, 1))
  }

  /** The C0 controls that move the cursor. */
  function ControlView(s: Setup, v: View, c: nat, onlcr: bool): View
    requires Fits(s, v)
  {
    var x, y := CursorX(s, v), CursorY(s, v);
    if c == 9 then Moved(s, v, if x / TAB_SIZE + 1 >= s.cols then s.cols - 1 else (x / TAB_SIZE + 1) * TAB_SIZE, y)
    else if 10 <= c <= 12 then LineFed(s, v, if onlcr then 0 else x)
    else if c == 8 then Moved(s, v, Minus(x, 1), y)
    else if c == 13 then Moved(s, v, 0, y)
    else v
  }

  function NextStop(x: nat): nat {
    (x / TAB_SIZE + 1) * TAB_SIZE
  }

  /** A tab goes to the next tab stop or, past the last one, to the last column: always on screens of
      fewer than 2^31 columns, and on wider ones unless bit 31 of that stop's number is set. */
  lemma TabStops(s: Setup, v: View, onlcr: bool)
    requires Fits(s, v)
    ensures var x := CursorX(s, v);
            ControlView(s, v, 9, onlcr) == View(v.cells, Min(NextStop(x), s.cols - 1), CursorY(s, v)) <==>
            NextStop(x) < s.cols || !IntNegative(NextStop(x))
    ensures s.cols <= 0x8000_0000 - TAB_SIZE ==>
            NextStop(CursorX(s, v)) < s.cols || !IntNegative(NextStop(CursorX(s, v)))
  {
    hide Clamp, ControlView, NextStop, IntNegative;
    var x, y := CursorX(s, v), CursorY(s, v);
    TabMoves(s, v, onlcr);
    AlreadyClamped(y, s.rows);
    AlreadyClamped(s.cols - 1, s.cols);
    ClampIsMin(NextStop(x), s.cols);
    StopAfter(x, s.cols);
    SmallIsPositive(NextStop(x));
  }

  lemma TabMoves(s: Setup, v: View, onlcr: bool)
    requires Fits(s, v)
    ensures var x := CursorX(s, v);
            ControlView(s, v, 9, onlcr) ==
            Moved(s, v, if x / TAB_SIZE + 1 >= s.cols then s.cols - 1 else NextStop(x), CursorY(s, v))
  {
    hide Clamp, LineFed;
  }

  lemma SmallIsPositive(n: nat)
    ensures n < 0x8000_0000 ==> !IntNegative(n)
  {
  }

  lemma StopAfter(x: nat, n: nat)
    requires x < n
    ensures x < NextStop(x) <= x + TAB_SIZE && (x / TAB_SIZE + 1 >= n ==> n == 1 && NextStop(x) == TAB_SIZE)
  {
  }

  lemma AlreadyClamped(x: nat, n: nat)
    requires x < n
    ensures Clamp(x, n) == x
  {
  }

  lemma ClampIsMin(k: nat, n: nat)
    requires n > 0
    ensures Clamp(k, n) == Min(k, n - 1) <==> k < n || n == 1 || !IntNegative(k)
  {
  }

  /** Backspace stops at the first column. */
  lemma Backspace(s: Setup, v: View, onlcr: bool)
    requires Fits(s, v)
    ensures var x := CursorX(s, v);
            ControlView(s, v, 8, onlcr) == View(v.cells, if x == 0 then 0 else x - 1, CursorY(s, v))
  {
    StepBack(CursorX(s, v), s.cols);
  }

  /** One less in size_t, clamped: 0 stays 0. */
  lemma StepBack(x: nat, n: nat)
    requires 0 < n < TWO_32 && x < n
    ensures Clamp(Minus(x, 1), n) == if x == 0 then 0 else x - 1
  {
    if x == 0 {
      assert Minus(0, 1) == TWO_64 - 1;
    } else {
      assert Minus(x, 1) == x - 1;
    }
  }

  /** Carriage return goes to the first column; so do line feeds when they are to; a bell moves nothing. */
  lemma ReturnsAndFeeds(s: Setup, v: View, c: nat, onlcr: bool)
    requires Fits(s, v) && 10 <= c <= 12
    ensures ControlView(s, v, 13, onlcr) == View(v.cells, 0, CursorY(s, v))
    ensures ControlView(s, v, c, onlcr).x == (if onlcr then 0 else CursorX(s, v))
    ensures ControlView(s, v, c, onlcr) == LineFed(s, v, if onlcr then 0 else CursorX(s, v))
    ensures ControlView(s, v, 7, onlcr) == v
  {
    hide Scrolled;
  }

  /** A reverse line feed above the region stops at the first row. */
  lemma BackAtTop(s: Setup, v: View)
    requires Fits(s, v) && CursorY(s, v) != s.top
    ensures LineFedBack(s, v) == View(v.cells, 0, if CursorY(s, v) == 0 then 0 else CursorY(s, v) - 1)
  {
    StepBack(CursorY(s, v), s.rows);
  }

  // ----- runs of blanks -------------------------------------------------------

  function Blanks(n: nat): (t: seq<nat>)
    ensures |t| == n
  {
    seq(n, _ => SPACE)
  }

  function PutBlanks(s: Setup, v: View, n: nat): (w: View)
    requires s.Ok() && |v.cells| == s.rows * s.cols
    ensures |w.cells| == |v.cells|
  {
    PutAll(s, v, Blanks(n))
  }

  lemma PutBlanksStep(s: Setup, v: View, n: nat)
    requires s.Ok() && |v.cells| == s.rows * s.cols
    ensures PutBlanks(s, v, 0) == v
    ensures PutBlanks(s, v, n + 1) == RawPut(s, PutBlanks(s, v, n), SPACE)
  {
    assert Blanks(n + 1)[..n] == Blanks(n);
  }

  /** Cells from..to-1 blanked. */
  function Blanked(s: Setup, cells: seq<Cell>, from: int, to: int): (r: seq<Cell>)
    ensures |r| == |cells|
  {
    seq(|cells|, i requires 0 <= i < |cells| => if from <= i < to then s.Blank() else cells[i])
  }

  lemma NothingBlanked(s: Setup, cells: seq<Cell>, from: int, to: int)
    requires to <= from
    ensures Blanked(s, cells, from, to) == cells
  {
  }

  /** One more blank at the end of a stretch, or inside it. */
  lemma BlankedStep(s: Setup, cells: seq<Cell>, from: nat, p: nat, x: nat, y: nat)
    requires |cells| == s.rows * s.cols && x < s.cols && y < s.rows && from <= y * s.cols + x <= p
    ensures Put(s, Blanked(s, cells, from, p), x, y, s.Blank()) ==
            Blanked(s, cells, from, if y * s.cols + x == p then p + 1 else p)
  {
    AtBound(s.rows, s.cols, x, y);
  }

  /** A run that stays in its row never wraps, whatever the margins and whether scrolling is on. */
  lemma {:induction false} InRowRun(s: Setup, v: View, n: nat, at: nat)
    requires s.Ok() && |v.cells| == s.rows * s.cols && v.x + n <= s.cols && v.y < s.rows && at == v.y * s.cols + v.x
    ensures PutBlanks(s, v, n) == View(Blanked(s, v.cells, at, at + n), v.x + n, v.y)
    decreases n
  {
    hide Blanked, PutBlanks, Put, Wrapped;
    PutBlanksStep(s, v, 0);
    if n == 0 {
      NothingBlanked(s, v.cells, at, at);
    } else {
      InRowRun(s, v, n - 1, at);
      PutBlanksStep(s, v, n - 1);
      BlankedStep(s, v.cells, at, at + n - 1, v.x + n - 1, v.y);
    }
  }

  /** Rows at or past the number of columns lie in the region, so that a wrap is sent back to row cols-1. */
  predicate Clamped(s: Setup, y: nat) {
    y < s.bottom - 1 && s.bottom > s.cols
  }

  /** The row after the last one that a run of blanks from row y reaches in order when it must not scroll:
      the bottom margin from inside the region, unless the clamp comes first; else the row's own end. */
  function EndRow(s: Setup, y: nat): nat {
    if y >= s.bottom - 1 then y + 1 else if s.bottom <= s.cols then s.bottom else if y < s.cols then s.cols else y + 1
  }

  /** The number of the first cell of that row. */
  function End(s: Setup, y: nat): nat {
    EndRow(s, y) * s.cols
  }

  function ClampRow(s: Setup): nat
    requires s.cols >= 1
  {
    (s.cols - 1) * s.cols
  }

  /** What n blanks from cell `at` of row y on leave: the cells up to the end, then row cols-1 again and
      again where the clamp sends them. */
  function RunCells(s: Setup, cells: seq<Cell>, y: nat, at: nat, n: nat): (r: seq<Cell>)
    requires s.cols >= 1
    ensures |r| == |cells|
  {
    var first := Blanked(s, cells, at, Min(at + n, End(s, y)));
    if Clamped(s, y) && at + n > End(s, y) then
        Blanked(s, first, ClampRow(s), ClampRow(s) + Min(at + n - End(s, y), s.cols))
    else first
  }

  /** Where the run stands while it goes in order; `p` is the number of the cell that it has reached. */
  predicate InOrder(s: Setup, y: nat, p: nat, w: View) {
    y <= w.y < EndRow(s, y) && w.y * s.cols + w.x == p &&
        (w.x <= s.cols || (w.y == EndRow(s, y) - 1 && w.y >= s.bottom - 1))
  }

  /** Where it stands once the clamp holds it in row cols-1, m blanks after the end. */
  predicate Held(s: Setup, m: nat, w: View) {
    w.y == s.cols - 1 && 0 < w.x <= s.cols && (m <= s.cols ==> w.x == m)
  }

  predicate RunsTo(s: Setup, y: nat, p: nat, w: View) {
    if Clamped(s, y) && p > End(s, y) then Held(s, p - End(s, y), w) else InOrder(s, y, p, w)
  }

  /** A run of blanks that must not scroll, from anywhere on the screen. */
  lemma {:induction false} BlankRun(s: Setup, v: View, n: nat, at: nat)
    requires Fits(s, v) && !s.scroll && v.x < s.cols && v.y < s.rows && at == v.y * s.cols + v.x
    ensures PutBlanks(s, v, n).cells == RunCells(s, v.cells, v.y, at, n)
    ensures RunsTo(s, v.y, at + n, PutBlanks(s, v, n))
    decreases n
  {
    hide RawPut, PutBlanks, RunCells, RunsTo, End;
    PutBlanksStep(s, v, 0);
    RunStarts(s, v, at);
    if n == 0 {
    } else {
      BlankRun(s, v, n - 1, at);
      PutBlanksStep(s, v, n - 1);
      BlankNext(s, v.cells, at, v.y, n - 1, PutBlanks(s, v, n - 1));
    }
  }

  lemma RunStarts(s: Setup, v: View, at: nat)
    requires Fits(s, v) && v.x < s.cols && v.y < s.rows && at == v.y * s.cols + v.x
    ensures RunCells(s, v.cells, v.y, at, 0) == v.cells && RunsTo(s, v.y, at, v)
    ensures v.y * s.cols <= at < End(s, v.y)
  {
    RowOrder(s.cols, v.y, EndRow(s, v.y));
    NothingBlanked(s, v.cells, at, at);
  }

  /** One more blank. */
  lemma BlankNext(s: Setup, cells: seq<Cell>, at: nat, y: nat, n: nat, w: View)
    requires s.Ok() && !s.scroll && y < s.rows && |cells| == s.rows * s.cols && y * s.cols <= at < End(s, y)
    requires RunsTo(s, y, at + n, w) && w.cells == RunCells(s, cells, y, at, n)
    ensures var w' := RawPut(s, w, SPACE);
            RunsTo(s, y, at + n + 1, w') && w'.cells == RunCells(s, cells, y, at, n + 1)
  {
    hide Put, Blanked, Scrolled, RunCells, End;
    if Clamped(s, y) && at + n >= End(s, y) {
      ClampedNext(s, cells, at, y, n, w);
    } else if at + n >= End(s, y) {
      PastNext(s, cells, at, y, n, w);
    } else {
      OrderedNext(s, cells, at, y, n, w);
    }
  }

  lemma EndRowFits(s: Setup, y: nat)
    requires s.Ok() && y < s.rows
    ensures EndRow(s, y) <= s.rows
  {
  }

  /** Within the cells that the run fills in order. */
  lemma OrderedNext(s: Setup, cells: seq<Cell>, at: nat, y: nat, n: nat, w: View)
    requires s.Ok() && !s.scroll && y < s.rows && |cells| == s.rows * s.cols && at + n < End(s, y)
    requires InOrder(s, y, at + n, w) && w.cells == RunCells(s, cells, y, at, n)
    ensures var w' := RawPut(s, w, SPACE);
            InOrder(s, y, at + n + 1, w') && w'.cells == RunCells(s, cells, y, at, n + 1)
  {
    hide Put, Blanked, Scrolled, End, EndRow;
    var p := at + n;
    EndRowFits(s, y);
    if w.x >= s.cols {
      WrapsWithin(s, y, p, w);
      BlankedStep(s, cells, at, p, 0, w.y + 1);
    } else {
      BlankedStep(s, cells, at, p, w.x, w.y);
    }
  }

  /** A full row before the end is followed by one more in order. */
  lemma WrapsWithin(s: Setup, y: nat, p: nat, w: View)
    requires s.Ok() && InOrder(s, y, p, w) && w.x >= s.cols && p < End(s, y)
    ensures w.x == s.cols && w.y + 1 < EndRow(s, y) && (w.y + 1) * s.cols == p && w.y < s.bottom - 1
    ensures Wrapped(s, w.(cells := AllBlank(s))).y == w.y + 1
    ensures w.y + 1 < s.cols
  {
    RowOrder(s.cols, EndRow(s, y), w.y + 1);
    assert (w.y + 1) * s.cols == w.y * s.cols + s.cols;
  }

  /** Past the end of the last row, where nothing wraps. */
  lemma PastNext(s: Setup, cells: seq<Cell>, at: nat, y: nat, n: nat, w: View)
    requires s.Ok() && !s.scroll && y < s.rows && |cells| == s.rows * s.cols && at + n >= End(s, y) && !Clamped(s, y)
    requires InOrder(s, y, at + n, w) && w.cells == RunCells(s, cells, y, at, n)
    ensures var w' := RawPut(s, w, SPACE);
            InOrder(s, y, at + n + 1, w') && w'.cells == RunCells(s, cells, y, at, n + 1)
  {
    hide Blanked, Scrolled, Put, End, EndRow;
    PastEnd(s, y, at + n, w);
    NoPut(s, w.cells, w.x, w.y);
  }

  lemma PastEnd(s: Setup, y: nat, p: nat, w: View)
    requires s.Ok() && InOrder(s, y, p, w) && p >= End(s, y) && !Clamped(s, y)
    ensures w.x >= s.cols && w.y == EndRow(s, y) - 1 && w.y >= s.bottom - 1
  {
    RowOrder(s.cols, w.y + 1, EndRow(s, y));
    assert (w.y + 1) * s.cols == w.y * s.cols + s.cols;
  }

  /** Held in row cols-1 by the clamp. */
  lemma ClampedNext(s: Setup, cells: seq<Cell>, at: nat, y: nat, n: nat, w: View)
    requires s.Ok() && !s.scroll && y < s.rows && |cells| == s.rows * s.cols && at + n >= End(s, y) && Clamped(s, y)
    requires RunsTo(s, y, at + n, w) && w.cells == RunCells(s, cells, y, at, n)
    ensures var w' := RawPut(s, w, SPACE);
            Held(s, at + n + 1 - End(s, y), w') && w'.cells == RunCells(s, cells, y, at, n + 1)
  {
    hide RawPut, Blanked, End, ClampRow, Held, InOrder;
    var m := at + n - End(s, y);
    var first := Blanked(s, cells, at, End(s, y));
    if m == 0 {
      NothingBlanked(s, first, ClampRow(s), ClampRow(s));
      ClampedWrap(s, y, w, first);
    } else {
      HeldNext(s, m, w, first);
    }
  }

  /** The first blank past the end: the wrap goes to row cols-1. */
  lemma ClampedWrap(s: Setup, y: nat, w: View, first: seq<Cell>)
    requires s.Ok() && !s.scroll && y < s.rows && |first| == s.rows * s.cols && Clamped(s, y)
    requires InOrder(s, y, End(s, y), w) && w.cells == first
    ensures var w' := RawPut(s, w, SPACE);
            Held(s, 1, w') && w'.cells == Blanked(s, first, ClampRow(s), ClampRow(s) + 1)
  {
    hide Put, Blanked, Scrolled, InOrder, End;
    ClampedAt(s, y, w);
    NothingBlanked(s, first, ClampRow(s), ClampRow(s));
    BlankedStep(s, first, ClampRow(s), ClampRow(s), 0, s.cols - 1);
  }

  lemma ClampedAt(s: Setup, y: nat, w: View)
    requires s.Ok() && Clamped(s, y) && InOrder(s, y, End(s, y), w)
    ensures w.x == s.cols && s.cols <= w.y + 1 < s.bottom
  {
    RowOrder(s.cols, w.y + 1, EndRow(s, y));
    assert (w.y + 1) * s.cols == w.y * s.cols + s.cols;
  }

  lemma HeldNext(s: Setup, m: nat, w: View, first: seq<Cell>)
    requires s.Ok() && !s.scroll && |first| == s.rows * s.cols && s.bottom > s.cols && m > 0 && Held(s, m, w)
    requires w.cells == Blanked(s, first, ClampRow(s), ClampRow(s) + Min(m, s.cols))
    ensures var w' := RawPut(s, w, SPACE);
            Held(s, m + 1, w') && w'.cells == Blanked(s, first, ClampRow(s), ClampRow(s) + Min(m + 1, s.cols))
  {
    hide Put, Blanked, Scrolled;
    var x := if w.x >= s.cols then 0 else w.x;
    BlankedStep(s, first, ClampRow(s), ClampRow(s) + Min(m, s.cols), x, s.cols - 1);
  }

  /** With a wrap pending the run starts on the row that the wrap leads to, or goes nowhere. */
  lemma PendingRun(s: Setup, v: View, n: nat)
    requires Fits(s, v) && !s.scroll && v.x >= s.cols && n > 0
    ensures v.y < s.bottom - 1 ==> PutBlanks(s, v, n) == PutBlanks(s, View(v.cells, 0, Min(v.y + 1, s.cols - 1)), n)
    ensures v.y >= s.bottom - 1 ==> PutBlanks(s, v, n) == View(v.cells, v.x + n, v.y)
    decreases n
  {
    hide PutBlanks, Put, Scrolled;
    PutBlanksStep(s, v, n - 1);
    PutBlanksStep(s, View(v.cells, 0, Min(v.y + 1, s.cols - 1)), n - 1);
    if n <= 1 {
    } else {
      PendingRun(s, v, n - 1);
    }
    NoPut(s, v.cells, v.x + n - 1, v.y);
  }

  lemma NoPut(s: Setup, cells: seq<Cell>, x: nat, y: nat)
    requires |cells| == s.rows * s.cols && (x >= s.cols || y >= s.rows)
    ensures Put(s, cells, x, y, s.Blank()) == cells
  {
  }

  /** Below the screen a run goes nowhere either. */
  lemma {:induction false} RunOffScreen(s: Setup, v: View, n: nat)
    requires Fits(s, v) && !s.scroll && v.y >= s.rows
    ensures PutBlanks(s, v, n) == View(v.cells, v.x + n, v.y)
    decreases n
  {
    hide PutBlanks, Put, Scrolled;
    PutBlanksStep(s, v, 0);
    if n == 0 {
    } else {
      RunOffScreen(s, v, n - 1);
      PutBlanksStep(s, v, n - 1);
      NoPut(s, v.cells, v.x + n - 1, v.y);
    }
  }

  // ----- erasing --------------------------------------------------------------

  /** Command K. */
  function ErasedLine(s: Setup, v: View, n: nat): (w: View)
    requires Fits(s, v)
    ensures |w.cells| == |v.cells|
  {
    var x, y := CursorX(s, v), CursorY(s, v);
    if n == 0 then View(PutBlanks(s, v, s.cols - x).cells, x, y)
    else if n == 1 then PutBlanks(s, View(v.cells, 0, y), x)
    else if n == 2 then View(PutBlanks(s, View(v.cells, 0, y), s.cols).cells, x, y)
    else v
  }

  lemma RestErased(s: Setup, v: View)
    requires Fits(s, v) && v.x < s.cols && v.y < s.rows
    ensures ErasedLine(s, v, 0) == View(Blanked(s, v.cells, At(s.cols, v.x, v.y), At(s.cols, s.cols, v.y)), v.x, v.y)
  {
    hide PutBlanks, Blanked;
    InRowRun(s, v, s.cols - v.x, At(s.cols, v.x, v.y));
  }

  lemma StartErased(s: Setup, v: View)
    requires Fits(s, v)
    ensures var x, y := CursorX(s, v), CursorY(s, v);
            ErasedLine(s, v, 1) == View(Blanked(s, v.cells, At(s.cols, 0, y), At(s.cols, x, y)), x, y)
  {
    hide PutBlanks, Blanked;
    InRowRun(s, View(v.cells, 0, CursorY(s, v)), CursorX(s, v), At(s.cols, 0, CursorY(s, v)));
  }

  lemma WholeLineErased(s: Setup, v: View)
    requires Fits(s, v)
    ensures var x, y := CursorX(s, v), CursorY(s, v);
            ErasedLine(s, v, 2) == View(Blanked(s, v.cells, At(s.cols, 0, y), At(s.cols, s.cols, y)), x, y)
  {
    hide PutBlanks, Blanked;
    InRowRun(s, View(v.cells, 0, CursorY(s, v)), s.cols, At(s.cols, 0, CursorY(s, v)));
  }

  /** Command K erases from the cursor to the end of its line, up to the cursor, or all of it, on every
      screen; ErasesTheRest says when from the cursor on. */
  lemma LineErased(s: Setup, v: View)
    requires Fits(s, v)
    ensures var x, y := CursorX(s, v), CursorY(s, v);
            && (v.x < s.cols && v.y < s.rows ==>
                  ErasedLine(s, v, 0) == View(Blanked(s, v.cells, At(s.cols, x, y), At(s.cols, s.cols, y)), x, y))
            && ErasedLine(s, v, 1) == View(Blanked(s, v.cells, At(s.cols, 0, y), At(s.cols, x, y)), x, y)
            && ErasedLine(s, v, 2) == View(Blanked(s, v.cells, At(s.cols, 0, y), At(s.cols, s.cols, y)), x, y)
  {
    hide ErasedLine, Blanked, At;
    if v.x < s.cols && v.y < s.rows {
      RestErased(s, v);
    }
    StartErased(s, v);
    WholeLineErased(s, v);
  }

  /** With a wrap pending, the cursor stands on the last column but the next character would not go
      there: erasing to the end of the line spares that column, and blanks the first cell of the line
      that the wrap leads to instead unless this is the bottom of the region or below it. */
  lemma PendingWrapErasesElsewhere(s: Setup, v: View)
    requires Fits(s, v) && !s.scroll && v.x >= s.cols
    ensures ErasedLine(s, v, 0).cells ==
            if v.y < s.bottom - 1 then
                Blanked(s, v.cells, Min(v.y + 1, s.cols - 1) * s.cols, Min(v.y + 1, s.cols - 1) * s.cols + 1)
            else v.cells
  {
    hide PutBlanks, Blanked;
    PendingRun(s, v, 1);
    if v.y < s.bottom - 1 {
      var y := Min(v.y + 1, s.cols - 1);
      InRowRun(s, View(v.cells, 0, y), 1, y * s.cols);
    }
  }

  /** From below the screen nothing is erased. */
  lemma BelowErasesNothing(s: Setup, v: View)
    requires Fits(s, v) && !s.scroll && v.y >= s.rows
    ensures ErasedLine(s, v, 0).cells == v.cells
  {
    hide PutBlanks;
    RunOffScreen(s, v, s.cols - CursorX(s, v));
  }

  /** A screen without a blank. */
  function Full(s: Setup): (cells: seq<Cell>)
    ensures |cells| == s.rows * s.cols && forall i :: 0 <= i < |cells| ==> cells[i] != s.Blank()
  {
    seq(s.rows * s.cols, _ => Cell(SPACE + 1, 0, 0))
  }

  /** K 0 erases from the cursor to the end of its line, whatever the screen holds, exactly when no wrap is
      pending and the cursor is on the screen; or where there is but one column, and the clamp sends the
      wrap from the first line back to it. */
  lemma ErasesTheRest(s: Setup, x: nat, y: nat)
    requires s.cols >= 1 && s.top < s.bottom <= s.rows && s.rows < TWO_32 && s.cols < TWO_32 && !s.scroll
    ensures (forall cells: seq<Cell> | |cells| == s.rows * s.cols ::
               var v := View(cells, x, y);
               ErasedLine(s, v, 0).cells ==
               Blanked(s, cells, At(s.cols, CursorX(s, v), CursorY(s, v)), At(s.cols, s.cols, CursorY(s, v)))) <==>
            (x < s.cols && y < s.rows) || (s.cols == 1 && y == 0 && s.bottom > 1)
  {
    hide ErasedLine, Blanked;
    if x < s.cols && y < s.rows {
      forall cells: seq<Cell> | |cells| == s.rows * s.cols
        ensures ErasedLine(s, View(cells, x, y), 0).cells ==
                Blanked(s, cells, At(s.cols, x, y), At(s.cols, s.cols, y))
      {
        RestErased(s, View(cells, x, y));
      }
    } else if s.cols == 1 && y == 0 && s.bottom > 1 {
      forall cells: seq<Cell> | |cells| == s.rows * s.cols
        ensures ErasedLine(s, View(cells, x, y), 0).cells == Blanked(s, cells, 0, 1)
      {
        PendingWrapErasesElsewhere(s, View(cells, x, y));
      }
    } else {
      RestSpared(s, View(Full(s), x, y));
    }
  }

  lemma RestSpared(s: Setup, v: View)
    requires Fits(s, v) && !s.scroll && forall i :: 0 <= i < |v.cells| ==> v.cells[i] != s.Blank()
    requires (v.x >= s.cols || v.y >= s.rows) && !(s.cols == 1 && v.y == 0 && s.bottom > 1)
    ensures var x, y := CursorX(s, v), CursorY(s, v);
            ErasedLine(s, v, 0).cells != Blanked(s, v.cells, At(s.cols, x, y), At(s.cols, s.cols, y))
  {
    hide ErasedLine, Blanked;
    var x, y := CursorX(s, v), CursorY(s, v);
    var i := At(s.cols, x, y);
    AtBound(s.rows, s.cols, x, y);
    BlankedAt(s, v.cells, i, At(s.cols, s.cols, y), i);
    if v.y >= s.rows {
      BelowErasesNothing(s, v);
    } else {
      PendingWrapErasesElsewhere(s, v);
      if v.y < s.bottom - 1 {
        var next := Min(v.y + 1, s.cols - 1);
        BlankedAt(s, v.cells, next * s.cols, next * s.cols + 1, i);
        if next * s.cols == i {
          AtInjective(s.cols, 0, next, x, y);
        }
      }
    }
  }

  /** Command J. */
  function ErasedDisplay(s: Setup, v: View, n: nat): (w: View)
    requires Fits(s, v)
    ensures |w.cells| == |v.cells|
  {
    var x, y := CursorX(s, v), CursorY(s, v);
    if n == 0 then View(PutBlanks(s, v, At(s.cols, s.cols - (x + 1), s.rows - (y + 1)) + 1).cells, x, y)
    else if n == 1 then View(PutBlanks(s, View(v.cells, 0, 0), At(s.cols, x, y) + 1).cells, x, y)
    else if n == 2 || n == 3 then View(AllBlank(s), v.x, v.y)
    else v
  }

  /** How many blanks command J puts from the cursor on. */
  function CellsLeft(s: Setup, v: View): nat
    requires Fits(s, v)
  {
    At(s.cols, s.cols - (CursorX(s, v) + 1), s.rows - (CursorY(s, v) + 1)) + 1
  }

  lemma CellsLeftIs(s: Setup, v: View)
    requires Fits(s, v)
    ensures At(s.cols, CursorX(s, v), CursorY(s, v)) + CellsLeft(s, v) == s.rows * s.cols
  {
    var y := CursorY(s, v);
    assert (s.rows - (y + 1)) * s.cols == s.rows * s.cols - (y * s.cols + s.cols);
  }

  /** Command J erases from the cursor on, or up to it, but only as far as a run of blanks goes that begins
      there: scrolling is off, and the blanks stop wrapping at the end of the region. */
  lemma DisplayErased(s: Setup, v: View)
    requires Fits(s, v) && !s.scroll
    ensures v.x < s.cols && v.y < s.rows ==>
              ErasedDisplay(s, v, 0).cells == RunCells(s, v.cells, v.y, At(s.cols, v.x, v.y), CellsLeft(s, v))
    ensures ErasedDisplay(s, v, 1).cells ==
            RunCells(s, v.cells, 0, 0, At(s.cols, CursorX(s, v), CursorY(s, v)) + 1)
  {
    hide PutBlanks, RunCells;
    if v.x < s.cols && v.y < s.rows {
      BlankRun(s, v, CellsLeft(s, v), At(s.cols, v.x, v.y));
    }
    BlankRun(s, View(v.cells, 0, 0), At(s.cols, CursorX(s, v), CursorY(s, v)) + 1, 0);
  }

  /** With a wrap pending, or the cursor below the screen. */
  lemma DisplayErasedElsewhere(s: Setup, v: View)
    requires Fits(s, v) && !s.scroll && (v.x >= s.cols || v.y >= s.rows)
    ensures ErasedDisplay(s, v, 0).cells ==
            if v.x >= s.cols && v.y < s.bottom - 1 then
              var y := Min(v.y + 1, s.cols - 1);
              RunCells(s, v.cells, y, At(s.cols, 0, y), CellsLeft(s, v))
            else v.cells
  {
    hide PutBlanks, RunCells;
    if v.x >= s.cols {
      PendingRun(s, v, CellsLeft(s, v));
      if v.y < s.bottom - 1 {
        var y := Min(v.y + 1, s.cols - 1);
        BlankRun(s, View(v.cells, 0, y), CellsLeft(s, v), At(s.cols, 0, y));
      }
    } else {
      RunOffScreen(s, v, CellsLeft(s, v));
    }
  }

  /** J 0 erases from the cursor to the end, whatever the screen holds, exactly when no wrap is pending, the
      cursor is on the screen and the run in order reaches the last row. */
  lemma ErasesToTheEnd(s: Setup, x: nat, y: nat)
    requires s.cols >= 1 && s.top < s.bottom <= s.rows && s.rows < TWO_32 && s.cols < TWO_32 && !s.scroll
    ensures (forall cells: seq<Cell> | |cells| == s.rows * s.cols ::
               var v := View(cells, x, y);
               ErasedDisplay(s, v, 0).cells ==
               Blanked(s, cells, At(s.cols, CursorX(s, v), CursorY(s, v)), |cells|)) <==>
            x < s.cols && y < s.rows && EndRow(s, y) == s.rows
  {
    hide ErasedDisplay, Blanked, At, EndRow, RunCells;
    if x < s.cols && y < s.rows && EndRow(s, y) == s.rows {
      forall cells: seq<Cell> | |cells| == s.rows * s.cols
        ensures ErasedDisplay(s, View(cells, x, y), 0).cells == Blanked(s, cells, At(s.cols, x, y), |cells|)
      {
        DisplayErased(s, View(cells, x, y));
        RunToTheEnd(s, View(cells, x, y));
      }
    } else if x < s.cols && y < s.rows {
      DisplayErased(s, View(Full(s), x, y));
      RunEndsEarly(s, View(Full(s), x, y));
    } else {
      EndSpared(s, View(Full(s), x, y));
    }
  }

  lemma EndSpared(s: Setup, v: View)
    requires Fits(s, v) && !s.scroll && forall i :: 0 <= i < |v.cells| ==> v.cells[i] != s.Blank()
    requires v.x >= s.cols || v.y >= s.rows
    ensures ErasedDisplay(s, v, 0).cells !=
            Blanked(s, v.cells, At(s.cols, CursorX(s, v), CursorY(s, v)), |v.cells|)
  {
    hide ErasedDisplay, Blanked, RunCells, CellsLeft;
    var x, y, last := CursorX(s, v), CursorY(s, v), s.rows * s.cols - 1;
    var at := At(s.cols, x, y);
    AtBound(s.rows, s.cols, x, y);
    DisplayErasedElsewhere(s, v);
    BlankedAt(s, v.cells, at, |v.cells|, at);
    BlankedAt(s, v.cells, at, |v.cells|, last);
    if v.x >= s.cols && v.y < s.bottom - 1 {
      var next := Min(v.y + 1, s.cols - 1);
      if v.y + 1 <= s.cols - 1 {
        RunSparesBefore(s, v.cells, x, y, CellsLeft(s, v));
      } else {
        ClampedEnd(s, next);
        RunSpares(s, v.cells, next, At(s.cols, 0, next), CellsLeft(s, v), last);
      }
    }
  }

  /** A run from the next row on spares the last cell of this one. */
  lemma RunSparesBefore(s: Setup, cells: seq<Cell>, x: nat, y: nat, n: nat)
    requires s.Ok() && |cells| == s.rows * s.cols && x == s.cols - 1 && y < s.bottom - 1 && y + 1 <= s.cols - 1
    ensures At(s.cols, x, y) < |cells|
    ensures RunCells(s, cells, y + 1, At(s.cols, 0, y + 1), n)[At(s.cols, x, y)] == cells[At(s.cols, x, y)]
  {
    hide Blanked, End;
    var at, i, end := At(s.cols, 0, y + 1), At(s.cols, x, y), End(s, y + 1);
    AtBound(s.rows, s.cols, x, y);
    AtNext(s.cols, x, y);
    RowOrder(s.cols, y + 1, s.cols - 1);
    var first := Blanked(s, cells, at, Min(at + n, end));
    BlankedAt(s, cells, at, Min(at + n, end), i);
    if Clamped(s, y + 1) && at + n > end {
      BlankedAt(s, first, ClampRow(s), ClampRow(s) + Min(at + n - end, s.cols), i);
    }
  }

  lemma ClampedEnd(s: Setup, y: nat)
    requires s.Ok() && y == s.cols - 1 && y < s.bottom - 1
    ensures End(s, y) == ClampRow(s) + s.cols <= s.rows * s.cols - 1
  {
    RowOrder(s.cols, s.cols, s.rows);
  }

  /** J 1 erases from the start up to the cursor, whatever the screen holds, exactly when the run in order
      from the first row reaches the cursor's. */
  lemma ErasesFromTheStart(s: Setup, x: nat, y: nat)
    requires s.cols >= 1 && s.top < s.bottom <= s.rows && s.rows < TWO_32 && s.cols < TWO_32 && !s.scroll
    ensures (forall cells: seq<Cell> | |cells| == s.rows * s.cols ::
               var v := View(cells, x, y);
               ErasedDisplay(s, v, 1).cells ==
               Blanked(s, cells, 0, At(s.cols, CursorX(s, v), CursorY(s, v)) + 1)) <==>
            CursorY(s, View([], x, y)) < EndRow(s, 0)
  {
    hide ErasedDisplay, Blanked, At, EndRow, RunCells;
    var cx, cy := CursorX(s, View([], x, y)), CursorY(s, View([], x, y));
    if cy < EndRow(s, 0) {
      forall cells: seq<Cell> | |cells| == s.rows * s.cols
        ensures ErasedDisplay(s, View(cells, x, y), 1).cells == Blanked(s, cells, 0, At(s.cols, cx, cy) + 1)
      {
        DisplayErased(s, View(cells, x, y));
        StartReached(s, cells, cx, cy);
      }
    } else {
      DisplayErased(s, View(Full(s), x, y));
      StartMissed(s, Full(s), cx, cy);
    }
  }

  lemma StartReached(s: Setup, cells: seq<Cell>, x: nat, y: nat)
    requires s.Ok() && x < s.cols && y < EndRow(s, 0)
    ensures RunCells(s, cells, 0, 0, At(s.cols, x, y) + 1) == Blanked(s, cells, 0, At(s.cols, x, y) + 1)
  {
    hide Blanked, EndRow;
    AtBound(EndRow(s, 0), s.cols, x, y);
  }

  lemma ClampedStart(s: Setup)
    requires s.Ok()
    ensures Clamped(s, 0) ==> End(s, 0) == ClampRow(s) + s.cols
  {
  }

  lemma StartMissed(s: Setup, cells: seq<Cell>, x: nat, y: nat)
    requires s.Ok() && |cells| == s.rows * s.cols && x < s.cols && EndRow(s, 0) <= y < s.rows
    requires forall i :: 0 <= i < |cells| ==> cells[i] != s.Blank()
    ensures RunCells(s, cells, 0, 0, At(s.cols, x, y) + 1) != Blanked(s, cells, 0, At(s.cols, x, y) + 1)
  {
    hide Blanked, RunCells, ClampRow, Clamped;
    var i := At(s.cols, x, y);
    AtBound(s.rows, s.cols, x, y);
    RowOrder(s.cols, EndRow(s, 0), y);
    ClampedStart(s);
    RunSpares(s, cells, 0, 0, i + 1, i);
    BlankedAt(s, cells, 0, i + 1, i);
  }

  lemma RunToTheEnd(s: Setup, v: View)
    requires Fits(s, v) && v.x < s.cols && v.y < s.rows && EndRow(s, v.y) == s.rows
    ensures RunCells(s, v.cells, v.y, At(s.cols, v.x, v.y), CellsLeft(s, v)) ==
            Blanked(s, v.cells, At(s.cols, v.x, v.y), |v.cells|)
  {
    hide Blanked;
    CellsLeftIs(s, v);
  }

  lemma BlankedAt(s: Setup, cells: seq<Cell>, from: int, to: int, i: nat)
    requires i < |cells|
    ensures Blanked(s, cells, from, to)[i] == if from <= i < to then s.Blank() else cells[i]
  {
  }

  /** The run spares every cell at or past its end, but for the clamp's row. */
  lemma RunSpares(s: Setup, cells: seq<Cell>, y: nat, at: nat, n: nat, i: nat)
    requires s.cols >= 1 && End(s, y) <= i < |cells| && (Clamped(s, y) ==> ClampRow(s) + s.cols <= i)
    ensures RunCells(s, cells, y, at, n)[i] == cells[i]
  {
    hide Blanked, End, ClampRow;
    var first := Blanked(s, cells, at, Min(at + n, End(s, y)));
    BlankedAt(s, cells, at, Min(at + n, End(s, y)), i);
    if Clamped(s, y) && at + n > End(s, y) {
      BlankedAt(s, first, ClampRow(s), ClampRow(s) + Min(at + n - End(s, y), s.cols), i);
    }
  }

  lemma RunEndsEarly(s: Setup, v: View)
    requires Fits(s, v) && v.x < s.cols && v.y < s.rows && EndRow(s, v.y) != s.rows
    requires forall i :: 0 <= i < |v.cells| ==> v.cells[i] != s.Blank()
    ensures RunCells(s, v.cells, v.y, At(s.cols, v.x, v.y), CellsLeft(s, v)) !=
            Blanked(s, v.cells, At(s.cols, v.x, v.y), |v.cells|)
  {
    hide Blanked, CellsLeft, RunCells, End, ClampRow;
    var at, last := At(s.cols, v.x, v.y), s.rows * s.cols - 1;
    AtBound(s.rows, s.cols, v.x, v.y);
    LastCellSpared(s, v.y);
    RunSpares(s, v.cells, v.y, at, CellsLeft(s, v), last);
    BlankedAt(s, v.cells, at, |v.cells|, last);
  }

  lemma LastCellSpared(s: Setup, y: nat)
    requires s.Ok() && y < s.rows && EndRow(s, y) != s.rows
    ensures End(s, y) < s.rows * s.cols && (Clamped(s, y) ==> ClampRow(s) + s.cols < s.rows * s.cols)
  {
    RowOrder(s.cols, EndRow(s, y), s.rows);
    RowOrder(s.cols, s.cols, s.rows);
    assert ClampRow(s) + s.cols == s.cols * s.cols;
  }

  // ----- moving text within a line ---------------------------------------------

  /** The text from x on moved right by n, over blanks; n == 0 leaves only blanks. */
  function Inserted(s: Setup, cells: seq<Cell>, x: nat, y: nat, n: nat): (r: seq<Cell>)
    ensures |r| == |cells|
  {
    var first, end := y * s.cols + x, y * s.cols + s.cols;
    seq(|cells|, i requires 0 <= i < |cells| =>
      if first <= i < end then if n > 0 && first + n <= i then cells[i - n] else s.Blank() else cells[i])
  }

  lemma InsertStep(s: Setup, cells: seq<Cell>, x: nat, y: nat, n: nat)
    requires |cells| == s.rows * s.cols && x < s.cols && y < s.rows
    ensures At(s.cols, x, y) < |cells| && Inserted(s, cells, x + 1, y, n)[At(s.cols, x, y)] == cells[At(s.cols, x, y)]
    ensures var now := Inserted(s, cells, x + 1, y, n);
            var moved := if x + n < s.cols then Put(s, now, x + n, y, cells[At(s.cols, x, y)]) else now;
            Put(s, moved, x, y, s.Blank()) == Inserted(s, cells, x, y, n)
    ensures Inserted(s, cells, s.cols, y, n) == cells
  {
    AtBound(s.rows, s.cols, x, y);
    if x + n < s.cols {
      AtBound(s.rows, s.cols, x + n, y);
    }
  }

  /** Inserting n blanks at x, column by column; asking for none erases the rest of the line instead. */
  lemma TextInserted(s: Setup, cells: seq<Cell>, x: nat, y: nat, n: nat, j: nat)
    requires |cells| == s.rows * s.cols && x < s.cols && y < s.rows && j < s.cols
    ensures At(s.cols, j, y) < |cells| && (x + n <= j ==> At(s.cols, j - n, y) < |cells|)
    ensures n > 0 ==> (Inserted(s, cells, x, y, n)[At(s.cols, j, y)] ==
                       if j < x then cells[At(s.cols, j, y)]
                       else if j < x + n then s.Blank()
                       else cells[At(s.cols, j - n, y)])
    ensures Inserted(s, cells, x, y, 0) == Blanked(s, cells, At(s.cols, x, y), y * s.cols + s.cols)
  {
    AtBound(s.rows, s.cols, j, y);
    if x + n <= j {
      AtBound(s.rows, s.cols, j - n, y);
    }
  }

  /** The text right of x moved right by one; the cell at x stays. */
  function MadeRoom(s: Setup, cells: seq<Cell>, x: nat, y: nat): (r: seq<Cell>)
    ensures |r| == |cells|
  {
    var first, end := y * s.cols + x, y * s.cols + s.cols;
    seq(|cells|, i requires 0 <= i < |cells| => if first < i < end then cells[i - 1] else cells[i])
  }

  lemma MakeRoomStep(s: Setup, cells: seq<Cell>, x: nat, y: nat)
    requires |cells| == s.rows * s.cols && x < s.cols && y < s.rows
    ensures At(s.cols, x, y) < |cells| && MadeRoom(s, cells, x + 1, y)[At(s.cols, x, y)] == cells[At(s.cols, x, y)]
    ensures var now := MadeRoom(s, cells, x + 1, y);
            (if x + 1 < s.cols then Put(s, now, x + 1, y, cells[At(s.cols, x, y)]) else now) == MadeRoom(s, cells, x, y)
    ensures MadeRoom(s, cells, s.cols, y) == cells
  {
    AtBound(s.rows, s.cols, x, y);
    if x + 1 < s.cols {
      AtBound(s.rows, s.cols, x + 1, y);
    }
  }

  /** Insert mode: the text after column x of row y moves right by one column, and its last character is lost;
      no other row changes. */
  lemma RoomMade(s: Setup, cells: seq<Cell>, x: nat, y: nat, i: nat, j: nat)
    requires |cells| == s.rows * s.cols && x < s.cols && y < s.rows && i < s.cols && j < s.rows
    ensures At(s.cols, i, j) < |cells| && (i > 0 ==> At(s.cols, i - 1, j) < |cells|)
    ensures MadeRoom(s, cells, x, y)[At(s.cols, i, j)] ==
            if j == y && i > x then cells[At(s.cols, i - 1, j)] else cells[At(s.cols, i, j)]
  {
    AtBound(s.rows, s.cols, i, j);
    RowOrder(s.cols, y, j);
    RowOrder(s.cols, j, y);
  }

  /** The columns x..to-n-1 of a line take the text n columns further on. */
  function PulledLeft(s: Setup, cells: seq<Cell>, x: nat, y: nat, n: nat, to: nat): (r: seq<Cell>)
    ensures |r| == |cells|
  {
    var row := y * s.cols;
    seq(|cells|, i requires 0 <= i < |cells| =>
      if row + x <= i && i + n < row + to && i + n < |cells| then cells[i + n] else cells[i])
  }

  lemma PullStep(s: Setup, cells: seq<Cell>, x: nat, y: nat, n: nat, i: nat)
    requires |cells| == s.rows * s.cols && x + n <= i < s.cols && y < s.rows
    ensures At(s.cols, i, y) < |cells| && PulledLeft(s, cells, x, y, n, i)[At(s.cols, i, y)] == cells[At(s.cols, i, y)]
    ensures Put(s, PulledLeft(s, cells, x, y, n, i), i - n, y, cells[At(s.cols, i, y)]) ==
            PulledLeft(s, cells, x, y, n, i + 1)
    ensures PulledLeft(s, cells, x, y, n, x + n) == cells
  {
    AtBound(s.rows, s.cols, i, y);
    AtBound(s.rows, s.cols, i - n, y);
  }

  lemma NothingPulled(s: Setup, cells: seq<Cell>, x: nat, y: nat, n: nat, i: nat)
    requires x < s.cols && i == x + n
    ensures PulledLeft(s, cells, x, y, n, if i < s.cols then i else s.cols) == cells
  {
  }

  /** Command X. */
  function ErasedChars(s: Setup, v: View, n: nat): (w: View)
    requires Fits(s, v)
    ensures |w.cells| == |v.cells|
  {
    View(PutBlanks(s, v, Min(n, s.cols)).cells, CursorX(s, v), CursorY(s, v))
  }

  /** Command X blanks as many cells as a run of that many blanks reaches from the cursor, at most a line of
      them; with a wrap pending, from the line that the wrap leads to. */
  lemma CharsErased(s: Setup, v: View, n: nat)
    requires Fits(s, v) && !s.scroll
    ensures ErasedChars(s, v, n).cells ==
            if v.x < s.cols && v.y < s.rows then RunCells(s, v.cells, v.y, At(s.cols, v.x, v.y), Min(n, s.cols))
            else if v.x >= s.cols && v.y < s.bottom - 1 then
              var y := Min(v.y + 1, s.cols - 1);
              RunCells(s, v.cells, y, At(s.cols, 0, y), Min(n, s.cols))
            else v.cells
  {
    hide PutBlanks, RunCells;
    if v.x < s.cols && v.y < s.rows {
      BlankRun(s, v, Min(n, s.cols), At(s.cols, v.x, v.y));
    } else if v.x >= s.cols {
      PutBlanksStep(s, v, 0);
      if n > 0 {
        PendingRun(s, v, Min(n, s.cols));
      }
      if v.y < s.bottom - 1 {
        var y := Min(v.y + 1, s.cols - 1);
        PutBlanksStep(s, View(v.cells, 0, y), 0);
        BlankRun(s, View(v.cells, 0, y), Min(n, s.cols), At(s.cols, 0, y));
      }
    } else {
      RunOffScreen(s, v, Min(n, s.cols));
    }
  }

  /** It stays in the cursor's line, whatever the screen holds, exactly when the line has that many cells
      left or is not above the bottom margin's last; otherwise it goes on into the next line, or into the
      start of the row that the clamp holds it in. */
  lemma ErasingStaysInLine(s: Setup, x: nat, y: nat, n: nat)
    requires s.cols >= 1 && s.top < s.bottom <= s.rows && s.rows < TWO_32 && s.cols < TWO_32
    requires !s.scroll && x < s.cols && y < s.rows
    ensures (forall cells: seq<Cell> | |cells| == s.rows * s.cols ::
               ErasedChars(s, View(cells, x, y), n).cells ==
               Blanked(s, cells, At(s.cols, x, y), At(s.cols, Min(x + Min(n, s.cols), s.cols), y))) <==>
            x + n <= s.cols || y >= s.bottom - 1 || x == 0
  {
    hide ErasedChars, Blanked, RunCells;
    if x + Min(n, s.cols) <= s.cols || y >= s.bottom - 1 {
      forall cells: seq<Cell> | |cells| == s.rows * s.cols
        ensures ErasedChars(s, View(cells, x, y), n).cells ==
                Blanked(s, cells, At(s.cols, x, y), At(s.cols, Min(x + Min(n, s.cols), s.cols), y))
      {
        CharsErased(s, View(cells, x, y), n);
        RunInLine(s, cells, x, y, Min(n, s.cols));
      }
    } else {
      CharsErased(s, View(Full(s), x, y), n);
      RunLeavesLine(s, Full(s), x, y, Min(n, s.cols));
    }
  }

  lemma RunInLine(s: Setup, cells: seq<Cell>, x: nat, y: nat, n: nat)
    requires s.Ok() && x < s.cols && y < s.rows && n <= s.cols && (x + n <= s.cols || y >= s.bottom - 1)
    ensures RunCells(s, cells, y, At(s.cols, x, y), n) ==
            Blanked(s, cells, At(s.cols, x, y), At(s.cols, Min(x + n, s.cols), y))
  {
    hide Blanked;
    RowOrder(s.cols, y + 1, EndRow(s, y));
    assert (y + 1) * s.cols == y * s.cols + s.cols;
  }

  lemma RunLeavesLine(s: Setup, cells: seq<Cell>, x: nat, y: nat, n: nat)
    requires s.Ok() && |cells| == s.rows * s.cols && x < s.cols && n <= s.cols < x + n && y < s.bottom - 1
    requires forall i :: 0 <= i < |cells| ==> cells[i] != s.Blank()
    ensures RunCells(s, cells, y, At(s.cols, x, y), n) != Blanked(s, cells, At(s.cols, x, y), At(s.cols, s.cols, y))
  {
    hide Blanked, RunCells, At, ClampRow;
    var i;
    if EndRow(s, y) == y + 1 {
      i := ClampRow(s);
      RunIntoClamp(s, cells, x, y, n);
    } else {
      i := At(s.cols, 0, y + 1);
      RunIntoNext(s, cells, x, y, n);
    }
    BlankedAt(s, cells, At(s.cols, x, y), At(s.cols, s.cols, y), i);
  }

  lemma RunIntoNext(s: Setup, cells: seq<Cell>, x: nat, y: nat, n: nat)
    requires s.Ok() && |cells| == s.rows * s.cols && x < s.cols && n <= s.cols < x + n && y < s.bottom - 1
    requires EndRow(s, y) != y + 1
    ensures At(s.cols, s.cols, y) <= At(s.cols, 0, y + 1) < |cells|
    ensures RunCells(s, cells, y, At(s.cols, x, y), n)[At(s.cols, 0, y + 1)] == s.Blank()
  {
    hide Blanked, ClampRow;
    var at, end, i := At(s.cols, x, y), End(s, y), At(s.cols, 0, y + 1);
    AtBound(s.rows, s.cols, 0, y + 1);
    RowOrder(s.cols, y + 2, EndRow(s, y));
    assert (y + 2) * s.cols == y * s.cols + s.cols + s.cols && (y + 1) * s.cols == y * s.cols + s.cols;
    BlankedAt(s, cells, at, Min(at + n, end), i);
  }

  lemma RunIntoClamp(s: Setup, cells: seq<Cell>, x: nat, y: nat, n: nat)
    requires s.Ok() && |cells| == s.rows * s.cols && x < s.cols && n <= s.cols < x + n && y < s.bottom - 1
    requires EndRow(s, y) == y + 1
    ensures ClampRow(s) < At(s.cols, x, y) < |cells|
    ensures RunCells(s, cells, y, At(s.cols, x, y), n)[ClampRow(s)] == s.Blank()
  {
    hide Blanked;
    var at, end := At(s.cols, x, y), End(s, y);
    AtBound(s.rows, s.cols, x, y);
    RowOrder(s.cols, s.cols - 1, y);
    assert (y + 1) * s.cols == y * s.cols + s.cols;
    BlankedAt(s, Blanked(s, cells, at, Min(at + n, end)), ClampRow(s), ClampRow(s) + Min(at + n - end, s.cols),
        ClampRow(s));
  }

  /** Command P, which falls through to X at the end of the line. */
  function DeletedChars(s: Setup, v: View, n: nat): (w: View)
    requires Fits(s, v)
    ensures |w.cells| == |v.cells|
  {
    var x, y := CursorX(s, v), CursorY(s, v);
    var pulled := View(PulledLeft(s, v.cells, x, y, n, s.cols), v.x, v.y);
    View(PutBlanks(s, Moved(s, pulled, Minus(s.cols, n), y), Min(n, s.cols)).cells, x, y)
  }

  /** Where command P puts the cursor before it blanks: n columns from the end, but past 2^31 columns
      too many the 64-bit difference is no negative int any more. */
  lemma BlankColumn(cols: nat, n: nat)
    requires 0 < cols < TWO_32 && n < TWO_32
    ensures Clamp(Minus(cols, n), cols) ==
            if n == 0 then (if IntNegative(cols) then 0 else cols - 1)
            else if n <= cols then cols - n
            else if n - cols <= 0x8000_0000 then 0
            else cols - 1
  {
    if n <= cols {
      assert Minus(cols, n) == cols - n;
    } else {
      assert Minus(cols, n) == TWO_64 - (n - cols);
      assert Minus(cols, n) % TWO_32 == TWO_32 - (n - cols);
    }
  }

  /** Deleting n characters pulls the rest of the line left and blanks its last n columns: all of them,
      even those before the cursor, on every screen and from every cursor. */
  lemma CharsDeleted(s: Setup, v: View, n: nat)
    requires Fits(s, v) && 0 < n <= s.cols
    ensures var x, y := CursorX(s, v), CursorY(s, v);
            DeletedChars(s, v, n) ==
            View(Blanked(s, PulledLeft(s, v.cells, x, y, n, s.cols), At(s.cols, s.cols - n, y), At(s.cols, s.cols, y)),
                x, y)
  {
    hide PulledLeft, Blanked, PutBlanks, Minus, Clamp;
    var x, y := CursorX(s, v), CursorY(s, v);
    BlankColumn(s.cols, n);
    AlreadyClamped(y, s.rows);
    InRowRun(s, View(PulledLeft(s, v.cells, x, y, n, s.cols), s.cols - n, y), n, y * s.cols + (s.cols - n));
  }

  /** Asking for more characters than the line has columns blanks the whole line. */
  lemma WholeLineDeleted(s: Setup, v: View, n: nat)
    requires Fits(s, v) && s.cols < n < TWO_32 && n - s.cols <= 0x8000_0000
    ensures var x, y := CursorX(s, v), CursorY(s, v);
            DeletedChars(s, v, n) == View(Blanked(s, v.cells, At(s.cols, 0, y), At(s.cols, s.cols, y)), x, y)
  {
    hide PulledLeft, Blanked, PutBlanks, Minus, Clamp;
    var x, y := CursorX(s, v), CursorY(s, v);
    BlankColumn(s.cols, n);
    AlreadyClamped(y, s.rows);
    NothingLeft(s, v.cells, x, y, n);
    InRowRun(s, View(v.cells, 0, y), s.cols, At(s.cols, 0, y));
  }

  /** Asking for more than 2^31 too many blanks its last column instead, and as many cells more as a run of
      blanks from there reaches: the next line too. */
  lemma NextLineDeleted(s: Setup, v: View, n: nat)
    requires Fits(s, v) && s.cols < n < TWO_32 && n - s.cols > 0x8000_0000 && !s.scroll
    ensures var x, y := CursorX(s, v), CursorY(s, v);
            DeletedChars(s, v, n) == View(RunCells(s, v.cells, y, At(s.cols, s.cols - 1, y), s.cols), x, y)
  {
    hide PulledLeft, PutBlanks, Minus, Clamp, RunCells;
    var x, y := CursorX(s, v), CursorY(s, v);
    BlankColumn(s.cols, n);
    AlreadyClamped(y, s.rows);
    NothingLeft(s, v.cells, x, y, n);
    BlankRun(s, View(v.cells, s.cols - 1, y), s.cols, At(s.cols, s.cols - 1, y));
  }

  lemma NothingLeft(s: Setup, cells: seq<Cell>, x: nat, y: nat, n: nat)
    requires n >= s.cols
    ensures PulledLeft(s, cells, x, y, n, s.cols) == cells
  {
  }

  /** Deleting none changes nothing. */
  lemma NoneDeleted(s: Setup, v: View)
    requires Fits(s, v)
    ensures DeletedChars(s, v, 0) == View(v.cells, CursorX(s, v), CursorY(s, v))
  {
    hide PutBlanks, Minus, Clamp;
    var x, y := CursorX(s, v), CursorY(s, v);
    assert PulledLeft(s, v.cells, x, y, 0, s.cols) == v.cells;
    PutBlanksStep(s, Moved(s, v, Minus(s.cols, 0), y), 0);
  }

  /** So a column before the cursor keeps its text exactly when it is not one of the last n. */
  lemma DeletingSparesTheStart(s: Setup, v: View, n: nat, i: nat)
    requires Fits(s, v) && 0 < n <= s.cols && i < CursorX(s, v)
    ensures At(s.cols, i, CursorY(s, v)) < |v.cells|
    ensures DeletedChars(s, v, n).cells[At(s.cols, i, CursorY(s, v))] ==
            if i < s.cols - n then v.cells[At(s.cols, i, CursorY(s, v))] else s.Blank()
  {
    AtBound(s.rows, s.cols, i, CursorY(s, v));
    CharsDeleted(s, v, n);
  }

  // ----- moving lines ------------------------------------------------------------

  function ScrolledTimes(s: Setup, cells: seq<Cell>, n: nat): (r: seq<Cell>)
    requires s.Ok() && |cells| == s.rows * s.cols
    ensures |r| == |cells|
  {
    if n == 0 then cells else Scrolled(s, ScrolledTimes(s, cells, n - 1))
  }

  function RevScrolledTimes(s: Setup, cells: seq<Cell>, n: nat): (r: seq<Cell>)
    requires s.Ok() && |cells| == s.rows * s.cols
    ensures |r| == |cells|
  {
    if n == 0 then cells else RevScrolled(s, RevScrolledTimes(s, cells, n - 1))
  }

  /** Command M: the region's rows move up by n, over blank ones, wherever the cursor is. */
  lemma {:induction false} LinesDeleted(s: Setup, cells: seq<Cell>, n: nat, x: nat, y: nat)
    requires s.Ok() && s.top < s.bottom && |cells| == s.rows * s.cols && x < s.cols && y < s.rows
    ensures At(s.cols, x, y) < |cells| && (s.top <= y && y + n < s.bottom ==> At(s.cols, x, y + n) < |cells|)
    ensures ScrolledTimes(s, cells, n)[At(s.cols, x, y)] ==
            if !(s.top <= y < s.bottom) then cells[At(s.cols, x, y)]
            else if y + n < s.bottom then cells[At(s.cols, x, y + n)]
            else s.Blank()
    decreases n
  {
    hide Scrolled, At;
    AtBound(s.rows, s.cols, x, y);
    if s.top <= y && y + n < s.bottom {
      AtBound(s.rows, s.cols, x, y + n);
    }
    if n == 0 {
    } else {
      ScrolledRow(s, ScrolledTimes(s, cells, n - 1), x, y);
      LinesDeleted(s, cells, n - 1, x, y);
      if y + 1 < s.rows {
        LinesDeleted(s, cells, n - 1, x, y + 1);
      }
    }
  }

  /** Command L: from row `top` to the bottom margin the rows move down by n, over blank ones. */
  lemma {:induction false} LinesInserted(s: Setup, cells: seq<Cell>, n: nat, x: nat, y: nat)
    requires s.Ok() && s.top < s.bottom && |cells| == s.rows * s.cols && x < s.cols && y < s.rows
    ensures At(s.cols, x, y) < |cells| && (s.top + n <= y ==> At(s.cols, x, y - n) < |cells|)
    ensures RevScrolledTimes(s, cells, n)[At(s.cols, x, y)] ==
            if !(s.top <= y < s.bottom) then cells[At(s.cols, x, y)]
            else if s.top + n <= y then cells[At(s.cols, x, y - n)]
            else s.Blank()
    decreases n
  {
    hide RevScrolled, At;
    AtBound(s.rows, s.cols, x, y);
    if s.top + n <= y {
      AtBound(s.rows, s.cols, x, y - n);
    }
    if n == 0 {
    } else {
      RevScrolledRow(s, RevScrolledTimes(s, cells, n - 1), x, y);
      LinesInserted(s, cells, n - 1, x, y);
      if y > 0 {
        LinesInserted(s, cells, n - 1, x, y - 1);
      }
    }
  }

  /** Below the region command L still blanks the cursor's row. */
  lemma InsertBelowRegion(s: Setup, cells: seq<Cell>, n: nat)
    requires s.Ok() && s.top >= s.bottom && s.top < s.rows && |cells| == s.rows * s.cols && n > 0
    ensures RevScrolledTimes(s, cells, n) == Blanked(s, cells, s.top * s.cols, s.top * s.cols + s.cols)
    decreases n
  {
    RowOrder(s.cols, s.bottom, s.top);
    if n <= 1 {
    } else {
      InsertBelowRegion(s, cells, n - 1);
    }
  }

  // ----- control sequences ---------------------------------------------------------

  datatype Margins = Margins(top: nat, bottom: nat)

  /** Command r: the margins asked for when they leave at least two rows, else the whole screen. */
  function NewMargins(rows: nat, values: seq<nat>, count: nat): Margins
    requires |values| >= 2
  {
    var top := if count > 0 && values[0] > 0 then values[0] - 1 else 0;
    var bottom := if count <= 1 then rows else if values[1] == 0 then 1 else values[1];
    if bottom <= rows && top + 1 < bottom then Margins(top, bottom) else Margins(0, rows)
  }

  /** Every control sequence leaves margins of at least two rows on a screen of at least two. */
  lemma MarginsStayApart(rows: nat, values: seq<nat>, count: nat)
    requires |values| >= 2 && rows >= 1
    ensures var m := NewMargins(rows, values, count);
            m.top < m.bottom <= rows && (rows >= 2 ==> m.top + 1 < m.bottom)
  {
  }

  /** Command r with a first and a last row, counted from 1, takes them; without numbers the whole screen. */
  lemma MarginsTaken(rows: nat, values: seq<nat>, count: nat)
    requires |values| >= 2
    ensures count >= 2 && 1 <= values[0] < values[1] <= rows ==>
              NewMargins(rows, values, count) == Margins(values[0] - 1, values[1])
    ensures count == 0 ==> NewMargins(rows, values, count) == Margins(0, rows)
  {
  }

  /** The effect of a control sequence on the screen and the cursor, with scrolling off. */
  function Command(s: Setup, v: View, savedX: nat, savedY: nat, c: nat, values: seq<nat>): View
    requires Fits(s, v) && |values| >= 2
  {
    var x, y, n := CursorX(s, v), CursorY(s, v), values[0];
    if c == 'F' as nat then Moved(s, v, 0, UpFrom(s, y, n))
    else if c == 'A' as nat then Moved(s, v, x, UpFrom(s, y, n))
    else if c == 'E' as nat then Moved(s, v, 0, DownFrom(s, y, n))
    else if c == 'e' as nat || c == 'B' as nat then Moved(s, v, x, DownFrom(s, y, n))
    else if c == 'a' as nat || c == 'C' as nat then Moved(s, v, Min(x + n, s.cols - 1), y)
    else if c == 'D' as nat then Moved(s, v, x - Min(n, x), y)
    else if c == 'd' as nat then Moved(s, v, x, OneBased(n, s.rows))
    else if c == 'G' as nat || c == '`' as nat then Moved(s, v, OneBased(n, s.cols), y)
    else if c == 'H' as nat || c == 'f' as nat then Moved(s, v, FromOne(values[1], s.cols), FromOne(n, s.rows))
    else if c == 'u' as nat then Moved(s, v, savedX, savedY)
    else if c == 'r' as nat then Moved(s, v, 0, 0)
    else Edited(s, v, c, n)
  }

  /** The commands that only move the cursor. */
  const CURSOR_COMMANDS: seq<nat> :=
    ['F' as nat, 'A' as nat, 'E' as nat, 'e' as nat, 'B' as nat, 'a' as nat, 'C' as nat, 'D' as nat,
     'd' as nat, 'G' as nat, '`' as nat, 'H' as nat, 'f' as nat, 'u' as nat]

  const PLACE_COMMANDS: seq<nat> := ['d' as nat, 'G' as nat, '`' as nat, 'H' as nat, 'f' as nat, 'u' as nat]

  /** The commands that change the text. */
  function Edited(s: Setup, v: View, c: nat, n: nat): View
    requires Fits(s, v)
  {
    var x, y := CursorX(s, v), CursorY(s, v);
    if c == 'M' as nat then View(ScrolledTimes(s, v.cells, Min(n, s.rows)), v.x, v.y)
    else if c == 'L' as nat then View(RevScrolledTimes(s.(top := y), v.cells, Min(n, s.rows)), v.x, v.y)
    else if c == 'J' as nat then ErasedDisplay(s, v, n)
    else if c == '@' as nat then View(Inserted(s, v.cells, x, y, n), x, y)
    else if c == 'P' as nat then DeletedChars(s, v, n)
    else if c == 'X' as nat then ErasedChars(s, v, n)
    else if c == 'K' as nat then ErasedLine(s, v, n)
    else v
  }

  /** The commands that leave the text alone and at most move the cursor home, and those that edit. */
  lemma OtherCommands(s: Setup, v: View, savedX: nat, savedY: nat, c: nat, values: seq<nat>)
    requires Fits(s, v) && |values| >= 2 && c !in CURSOR_COMMANDS
    ensures c in SETTING_COMMANDS ==>
              Command(s, v, savedX, savedY, c, values) == if c == 'r' as nat then View(v.cells, 0, 0) else v
    ensures c !in SETTING_COMMANDS ==> Command(s, v, savedX, savedY, c, values) == Edited(s, v, c, values[0])
  {
  }

  /** A and F go up, B, e and E down, as many rows as asked for where there are so many in the region; F and E
      also go to the first column. The text stays. */
  lemma RowCommands(s: Setup, v: View, savedX: nat, savedY: nat, values: seq<nat>)
    requires Fits(s, v) && |values| >= 2
    ensures var x, y, n := CursorX(s, v), CursorY(s, v), values[0];
            && (y >= s.top + n ==> Command(s, v, savedX, savedY, 'A' as nat, values) == View(v.cells, x, y - n))
            && (y >= s.top + n ==> Command(s, v, savedX, savedY, 'F' as nat, values) == View(v.cells, 0, y - n))
            && (y + n < s.bottom ==> Command(s, v, savedX, savedY, 'B' as nat, values) == View(v.cells, x, y + n))
            && (y + n < s.bottom ==> Command(s, v, savedX, savedY, 'e' as nat, values) == View(v.cells, x, y + n))
            && (y + n < s.bottom ==> Command(s, v, savedX, savedY, 'E' as nat, values) == View(v.cells, 0, y + n))
  {
  }

  /** From inside the region they stop at its edges, from outside at the screen's. */
  lemma RowsStop(s: Setup, v: View, savedX: nat, savedY: nat, values: seq<nat>)
    requires Fits(s, v) && |values| >= 2
    ensures var x, y, n := CursorX(s, v), CursorY(s, v), values[0];
            var up := Command(s, v, savedX, savedY, 'A' as nat, values);
            var down := Command(s, v, savedX, savedY, 'B' as nat, values);
            && (s.top <= y < s.top + n ==> up == View(v.cells, x, s.top))
            && (y < s.top ==> up == View(v.cells, x, if y < n then 0 else y - n))
            && (y <= s.bottom <= y + n && s.bottom < s.rows ==> down == View(v.cells, x, s.bottom - 1))
            && (y > s.bottom ==> down == View(v.cells, x, if y + n < s.rows then y + n else s.rows - 1))
            && (y + n >= s.rows == s.bottom ==> down == View(v.cells, x, s.rows - 1))
  {
  }

  /** C and a go right, D left, within the line. */
  lemma ColumnCommands(s: Setup, v: View, savedX: nat, savedY: nat, values: seq<nat>)
    requires Fits(s, v) && |values| >= 2
    ensures var x, y, n := CursorX(s, v), CursorY(s, v), values[0];
            var right := View(v.cells, if x + n < s.cols then x + n else s.cols - 1, y);
            && Command(s, v, savedX, savedY, 'C' as nat, values) == right
            && Command(s, v, savedX, savedY, 'a' as nat, values) == right
            && Command(s, v, savedX, savedY, 'D' as nat, values) == View(v.cells, if n < x then x - n else 0, y)
  {
  }

  /** d names a row, G and ` a column, counted from 1. */
  lemma PlaceCommands(s: Setup, v: View, savedX: nat, savedY: nat, values: seq<nat>)
    requires Fits(s, v) && |values| >= 2
    ensures var x, y, n := CursorX(s, v), CursorY(s, v), values[0];
            && (1 <= n <= s.rows ==> Command(s, v, savedX, savedY, 'd' as nat, values) == View(v.cells, x, n - 1))
            && (1 <= n <= s.cols ==> Command(s, v, savedX, savedY, 'G' as nat, values) == View(v.cells, n - 1, y))
            && (1 <= n <= s.cols ==> Command(s, v, savedX, savedY, '`' as nat, values) == View(v.cells, n - 1, y))
  {
    hide Edited, UpFrom, DownFrom;
  }

  /** H and f name a row and then a column, counted from 1; u goes to the saved position. */
  lemma PositionCommands(s: Setup, v: View, savedX: nat, savedY: nat, values: seq<nat>)
    requires Fits(s, v) && |values| >= 2
    ensures var n, k := values[0], values[1];
            1 <= n <= s.rows && 1 <= k <= s.cols ==>
              && Command(s, v, savedX, savedY, 'H' as nat, values) == View(v.cells, k - 1, n - 1)
              && Command(s, v, savedX, savedY, 'f' as nat, values) == View(v.cells, k - 1, n - 1)
    ensures savedX < s.cols && savedY < s.rows ==>
              Command(s, v, savedX, savedY, 'u' as nat, values) == View(v.cells, savedX, savedY)
  {
    hide Edited, UpFrom, DownFrom, OneBased;
  }

  /** Past an edge H stops at it, and 0 counts as 1. */
  lemma PositionsOutside(s: Setup, v: View, savedX: nat, savedY: nat, values: seq<nat>)
    requires Fits(s, v) && |values| >= 2
    ensures var n, k, w := values[0], values[1], Command(s, v, savedX, savedY, 'H' as nat, values);
            && (n == 0 ==> w.y == 0) && (n > s.rows ==> w.y == s.rows - 1)
            && (k == 0 ==> w.x == 0) && (k > s.cols ==> w.x == s.cols - 1)
  {
  }

  /** For d and G, 0 stands for the last row or column, as does all that lies past it. */
  lemma PlacesOutside(s: Setup, v: View, savedX: nat, savedY: nat, values: seq<nat>)
    requires Fits(s, v) && |values| >= 2 && values[0] < TWO_32
    ensures var x, y, n := CursorX(s, v), CursorY(s, v), values[0];
            && (n == 0 || n > s.rows ==>
                  Command(s, v, savedX, savedY, 'd' as nat, values) == View(v.cells, x, s.rows - 1))
            && (n == 0 || n > s.cols ==>
                  Command(s, v, savedX, savedY, 'G' as nat, values) == View(v.cells, s.cols - 1, y))
  {
    hide Edited;
    LastPlace(values[0], s.rows);
    LastPlace(values[0], s.cols);
    hide OneBased;
  }

  lemma LastPlace(n: nat, size: nat)
    requires 0 < size < TWO_32 && n < TWO_32
    ensures n == 0 || n > size ==> OneBased(n, size) == size - 1
  {
  }

  /** Which command makes which change to the text. */
  lemma TextCommands(s: Setup, v: View, savedX: nat, savedY: nat, values: seq<nat>)
    requires Fits(s, v) && |values| >= 2
    ensures var x, y, n := CursorX(s, v), CursorY(s, v), values[0];
            && Command(s, v, savedX, savedY, 'J' as nat, values) == ErasedDisplay(s, v, n)
            && Command(s, v, savedX, savedY, 'K' as nat, values) == ErasedLine(s, v, n)
            && Command(s, v, savedX, savedY, 'X' as nat, values) == ErasedChars(s, v, n)
            && Command(s, v, savedX, savedY, 'P' as nat, values) == DeletedChars(s, v, n)
            && Command(s, v, savedX, savedY, '@' as nat, values) == View(Inserted(s, v.cells, x, y, n), x, y)
            && Command(s, v, savedX, savedY, 'M' as nat, values) ==
               View(ScrolledTimes(s, v.cells, Min(n, s.rows)), v.x, v.y)
            && Command(s, v, savedX, savedY, 'L' as nat, values) ==
               View(RevScrolledTimes(s.(top := y), v.cells, Min(n, s.rows)), v.x, v.y)
  {
    hide ErasedDisplay, ErasedLine, ErasedChars, DeletedChars, Inserted, ScrolledTimes, RevScrolledTimes;
  }

  const SETTING_COMMANDS: seq<nat> := ['m' as nat, 's' as nat, 'r' as nat, 'l' as nat, 'h' as nat]
}
