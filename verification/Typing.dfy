/** What a text with line feeds looks like: the run of raw_putchar calls and line feeds on a fresh screen
    (src/flanterm/flanterm.c, src/flanterm/backends/fb.c), against the picture of its lines. */
module Typing {
  import opened Common
  import opened Framebuffer
  import opened Printing
  import opened Editing

  const LINE_FEED: nat := 10

  /** One character; a line feed goes to the first column of the next row. */
  function Key(s: Setup, v: View, c: nat): (w: View)
    requires Fits(s, v)
    ensures Fits(s, w)
  {
    if c == LINE_FEED then LineFed(s, v, 0) else RawPut(s, v, c)
  }

  function TypeAll(s: Setup, v: View, text: seq<nat>): (w: View)
    requires Fits(s, v)
    ensures Fits(s, w)
  {
    if text == [] then v
    else Key(s, TypeAll(s, v, text[..|text| - 1]), text[|text| - 1])
  }

  lemma TypeAllStep(s: Setup, v: View, text: seq<nat>, c: nat)
    requires Fits(s, v)
    ensures TypeAll(s, v, text + [c]) == Key(s, TypeAll(s, v, text), c) && TypeAll(s, v, []) == v
  {
    assert (text + [c])[..|text|] == text;
  }

  // ----- the lines of a text ------------------------------------------------

  /** The text split at its line feeds. */
  function Pieces(text: seq<nat>): (ps: seq<seq<nat>>)
    ensures |ps| > 0
  {
    if text == [] then [[]]
    else
      var ps, c := Pieces(text[..|text| - 1]), text[|text| - 1];
      if c == LINE_FEED then ps + [[]] else ps[..|ps| - 1] + [ps[|ps| - 1] + [c]]
  }

  /** A piece cut into lines of `cols` characters; an empty piece is one empty line. */
  function Cut(cols: nat, piece: seq<nat>): (ls: seq<seq<nat>>)
    requires cols > 0
    ensures |ls| > 0 && |ls[|ls| - 1]| <= cols
  {
    if |piece| <= cols then [piece] else [piece[..cols]] + Cut(cols, piece[cols..])
  }

  function Rows(cols: nat, ps: seq<seq<nat>>): (ls: seq<seq<nat>>)
    requires cols > 0
    ensures ps != [] ==> |ls| > 0 && |ls[|ls| - 1]| <= cols
  {
    if ps == [] then [] else Rows(cols, ps[..|ps| - 1]) + Cut(cols, ps[|ps| - 1])
  }

  function Lines(cols: nat, text: seq<nat>): (ls: seq<seq<nat>>)
    requires cols > 0
    ensures |ls| > 0 && |ls[|ls| - 1]| <= cols
  {
    Rows(cols, Pieces(text))
  }

  /** The pieces, joined with line feeds. */
  function Joined(ps: seq<seq<nat>>): seq<nat>
    requires ps != []
  {
    if |ps| == 1 then ps[0] else Joined(ps[..|ps| - 1]) + [LINE_FEED] + ps[|ps| - 1]
  }

  /** No piece holds a line feed. */
  lemma {:induction false} PiecesWithout(text: seq<nat>)
    ensures forall k :: 0 <= k < |Pieces(text)| ==> LINE_FEED !in Pieces(text)[k]
    decreases |text|
  {
    if text == [] {
    } else {
      PiecesWithout(text[..|text| - 1]);
    }
  }

  /** And joining the pieces gives the text back. */
  lemma {:induction false} PiecesJoin(text: seq<nat>)
    ensures Joined(Pieces(text)) == text
    decreases |text|
  {
    if text == [] {
    } else {
      var rest, c := text[..|text| - 1], text[|text| - 1];
      PiecesJoin(rest);
      assert text == rest + [c];
      hide Joined;
      if c == LINE_FEED {
        JoinedLast(Pieces(rest), []);
      } else {
        JoinedLonger(Pieces(rest), c);
      }
    }
  }

  lemma JoinedLonger(ps: seq<seq<nat>>, c: nat)
    requires ps != []
    ensures Joined(ps[..|ps| - 1] + [ps[|ps| - 1] + [c]]) == Joined(ps) + [c]
  {
    hide Joined;
    var before, p := ps[..|ps| - 1], ps[|ps| - 1];
    assert before + [p] == ps;
    JoinedLast(before, p);
    JoinedLast(before, p + [c]);
    if before == [] {
    } else {
      SnocConcat(Joined(before) + [LINE_FEED], p, c);
    }
  }

  lemma SnocConcat(a: seq<nat>, b: seq<nat>, c: nat)
    ensures a + (b + [c]) == a + b + [c]
  {
  }

  lemma JoinedLast(ps: seq<seq<nat>>, p: seq<nat>)
    ensures Joined(ps + [p]) == if ps == [] then p else Joined(ps) + [LINE_FEED] + p
  {
    assert (ps + [p])[..|ps|] == ps;
  }

  /** Every line is at most as long as the screen is wide. */
  lemma {:induction false} CutFits(cols: nat, piece: seq<nat>)
    requires cols > 0
    ensures forall k :: 0 <= k < |Cut(cols, piece)| ==> |Cut(cols, piece)[k]| <= cols
    decreases |piece|
  {
    if |piece| <= cols {
    } else {
      CutFits(cols, piece[cols..]);
    }
  }

  /** Line k of a piece begins at character k * cols. */
  lemma {:induction false} CutLine(cols: nat, piece: seq<nat>, k: nat, x: nat)
    requires cols > 0 && k < |Cut(cols, piece)| && x < |Cut(cols, piece)[k]|
    ensures x < cols && k * cols + x < |piece| && Cut(cols, piece)[k][x] == piece[k * cols + x]
    decreases k
  {
    if |piece| <= cols {
    } else if k == 0 {
    } else {
      CutLine(cols, piece[cols..], k - 1, x);
      RowEnd(cols, k, k);
    }
  }

  /** A piece of n characters takes n / cols lines, rounded up, and an empty one takes one. */
  lemma {:induction false} CutCount(cols: nat, piece: seq<nat>)
    requires cols > 0
    ensures |Cut(cols, piece)| == if piece == [] then 1 else (|piece| - 1) / cols + 1
    decreases |piece|
  {
    var n := |piece|;
    if n == 0 {
    } else if n <= cols {
      Quotient(n - 1, cols, 0, n - 1);
    } else {
      CutCount(cols, piece[cols..]);
      OneLineMore(cols, n - cols - 1);
    }
  }

  lemma OneLineMore(cols: nat, n: nat)
    requires cols > 0
    ensures (n + cols) / cols == n / cols + 1
  {
    var q, r := n / cols, n % cols;
    assert n == q * cols + r;
    assert (q + 1) * cols == q * cols + cols;
    Quotient(n + cols, cols, q + 1, r);
  }

  /** The lines after one more character: it goes to the last line, or to a new one when that is full. */
  function Longer(cols: nat, ls: seq<seq<nat>>, c: nat): (r: seq<seq<nat>>)
    requires ls != []
    ensures |r| > 0
  {
    var last := ls[|ls| - 1];
    if |last| == cols then ls + [[c]] else ls[..|ls| - 1] + [last + [c]]
  }

  lemma {:induction false} CutLonger(cols: nat, piece: seq<nat>, c: nat)
    requires cols > 0
    ensures Cut(cols, piece + [c]) == Longer(cols, Cut(cols, piece), c)
    decreases |piece|
  {
    var more := piece + [c];
    if |piece| < cols {
    } else if |piece| == cols {
      assert more[..cols] == piece && more[cols..] == [c];
    } else {
      assert more[..cols] == piece[..cols] && more[cols..] == piece[cols..] + [c];
      CutLonger(cols, piece[cols..], c);
      LongerBehind(cols, [piece[..cols]], Cut(cols, piece[cols..]), c);
    }
  }

  lemma LongerBehind(cols: nat, before: seq<seq<nat>>, ls: seq<seq<nat>>, c: nat)
    requires ls != []
    ensures Longer(cols, before + ls, c) == before + Longer(cols, ls, c)
  {
    assert (before + ls)[..|before + ls| - 1] == before + ls[..|ls| - 1];
  }

  lemma LinesLonger(cols: nat, text: seq<nat>, c: nat)
    requires cols > 0
    ensures Lines(cols, []) == [[]]
    ensures Lines(cols, text + [c]) ==
            if c == LINE_FEED then Lines(cols, text) + [[]] else Longer(cols, Lines(cols, text), c)
  {
    hide Cut, Longer;
    var ps := Pieces(text);
    var n := |ps| - 1;
    assert (text + [c])[..|text|] == text;
    CutEmpty(cols);
    assert Rows(cols, [[]]) == [] + Cut(cols, []);
    if c == LINE_FEED {
      assert (ps + [[]])[..|ps|] == ps;
    } else {
      var qs := ps[..n] + [ps[n] + [c]];
      assert qs[..n] == ps[..n];
      CutLonger(cols, ps[n], c);
      LongerBehind(cols, Rows(cols, ps[..n]), Cut(cols, ps[n]), c);
    }
  }

  lemma CutEmpty(cols: nat)
    requires cols > 0
    ensures Cut(cols, []) == [[]]
  {
  }

  // ----- the picture --------------------------------------------------------

  /** Lines that have scrolled off. */
  function Off(s: Setup, n: nat): nat {
    if n <= s.rows then 0 else n - s.rows
  }

  /** The screen that shows line `gone` in its first row and the lines after it below. */
  function Canvas(s: Setup, ls: seq<seq<nat>>, gone: nat): (cells: seq<Cell>)
    requires s.cols > 0
    ensures |cells| == s.rows * s.cols
  {
    seq(s.rows * s.cols, i requires i >= 0 =>
      var x, line := i % s.cols, gone + i / s.cols;
      if line < |ls| && x < |ls[line]| then Cell(ls[line][x], s.fg, s.bg) else s.Blank())
  }

  /** The last lines of the text, the cursor after the last character. */
  function Shown(s: Setup, ls: seq<seq<nat>>): View
    requires FreshSetup(s) && ls != []
  {
    View(Canvas(s, ls, Off(s, |ls|)), |ls[|ls| - 1]|, |ls| - 1 - Off(s, |ls|))
  }

  lemma CanvasCell(s: Setup, ls: seq<seq<nat>>, gone: nat, x: nat, y: nat)
    requires x < s.cols && y < s.rows
    ensures At(s.cols, x, y) < s.rows * s.cols
    ensures Canvas(s, ls, gone)[At(s.cols, x, y)] ==
            if gone + y < |ls| && x < |ls[gone + y]| then Cell(ls[gone + y][x], s.fg, s.bg) else s.Blank()
  {
    AtBound(s.rows, s.cols, x, y);
    Quotient(At(s.cols, x, y), s.cols, y, x);
  }

  /** Screens that agree in every column of every row are the same. */
  lemma SameCells(s: Setup, a: seq<Cell>, b: seq<Cell>)
    requires s.cols > 0 && |a| == |b| == s.rows * s.cols
    requires forall x: nat, y: nat :: x < s.cols && y < s.rows ==>
               At(s.cols, x, y) < |a| && a[At(s.cols, x, y)] == b[At(s.cols, x, y)]
    ensures a == b
  {
    forall i | 0 <= i < |a| ensures a[i] == b[i] {
      AtDivMod(s.rows, s.cols, i);
      assert a[At(s.cols, i % s.cols, i / s.cols)] == b[At(s.cols, i % s.cols, i / s.cols)];
    }
  }

  /** Writing a character after the last one. */
  lemma PutOnCanvas(s: Setup, ls: seq<seq<nat>>, gone: nat, c: nat)
    requires ls != [] && |ls[|ls| - 1]| < s.cols && gone < |ls| <= gone + s.rows
    ensures Put(s, Canvas(s, ls, gone), |ls[|ls| - 1]|, |ls| - 1 - gone, Cell(c, s.fg, s.bg)) ==
            Canvas(s, Longer(s.cols, ls, c), gone)
  {
    hide Canvas, At;
    var n := |ls| - 1;
    var px, py, qs := |ls[n]|, n - gone, Longer(s.cols, ls, c);
    var cells := Put(s, Canvas(s, ls, gone), px, py, Cell(c, s.fg, s.bg));
    forall x: nat, y: nat | x < s.cols && y < s.rows
      ensures At(s.cols, x, y) < |cells| && cells[At(s.cols, x, y)] == Canvas(s, qs, gone)[At(s.cols, x, y)]
    {
      CanvasCell(s, ls, gone, x, y);
      CanvasCell(s, qs, gone, x, y);
      AtBound(s.rows, s.cols, px, py);
      if At(s.cols, x, y) == At(s.cols, px, py) {
        AtInjective(s.cols, x, y, px, py);
      } else if y == py {
        assert qs[gone + y] == ls[n] + [c];
        assert x != px;
      }
    }
    SameCells(s, cells, Canvas(s, qs, gone));
  }

  /** A new empty line shows as the blank row that it takes. */
  lemma EmptyLine(s: Setup, ls: seq<seq<nat>>, gone: nat)
    requires s.cols > 0
    ensures Canvas(s, ls + [[]], gone) == Canvas(s, ls, gone)
  {
  }

  lemma ScrollCanvas(s: Setup, ls: seq<seq<nat>>, gone: nat)
    requires FreshSetup(s) && |ls| <= gone + s.rows
    ensures Scrolled(s, Canvas(s, ls, gone)) == Canvas(s, ls, gone + 1)
  {
    hide Canvas, At, Scrolled;
    var cells := Scrolled(s, Canvas(s, ls, gone));
    forall x: nat, y: nat | x < s.cols && y < s.rows
      ensures At(s.cols, x, y) < |cells| && cells[At(s.cols, x, y)] == Canvas(s, ls, gone + 1)[At(s.cols, x, y)]
    {
      ScrolledRow(s, Canvas(s, ls, gone), x, y);
      CanvasCell(s, ls, gone + 1, x, y);
      if y + 1 < s.rows {
        CanvasCell(s, ls, gone, x, y + 1);
      }
    }
    SameCells(s, cells, Canvas(s, ls, gone + 1));
  }

  /** Going to the next row, with the scroll on the last one, begins a new line. */
  lemma NewLine(s: Setup, ls: seq<seq<nat>>)
    requires FreshSetup(s) && ls != []
    ensures var v, w := Shown(s, ls), Shown(s, ls + [[]]);
            && w.x == 0 && v.y < s.rows
            && if v.y == s.rows - 1 then w.y == v.y && w.cells == Scrolled(s, v.cells)
               else w.y == v.y + 1 && w.cells == v.cells
  {
    hide Canvas, Scrolled;
    EmptyLine(s, ls, Off(s, |ls| + 1));
    ScrollCanvas(s, ls, Off(s, |ls|));
  }

  lemma FeedShown(s: Setup, ls: seq<seq<nat>>)
    requires FreshSetup(s) && ls != [] && s.rows < TWO_32 && s.cols < TWO_32
    ensures LineFed(s, Shown(s, ls), 0) == Shown(s, ls + [[]])
  {
    hide Canvas, Scrolled, Shown;
    NewLine(s, ls);
  }

  lemma PutShown(s: Setup, ls: seq<seq<nat>>, c: nat)
    requires FreshSetup(s) && ls != [] && |ls[|ls| - 1]| <= s.cols
    requires s.rows <= s.cols || |Longer(s.cols, ls, c)| <= s.cols
    ensures RawPut(s, Shown(s, ls), c) == Shown(s, Longer(s.cols, ls, c))
  {
    hide Canvas, Scrolled, Put, Longer;
    LongerCounts(s.cols, ls, c);
    if |ls[|ls| - 1]| < s.cols {
      PutOnCanvas(s, ls, Off(s, |ls|), c);
    } else {
      var more := ls + [[]];
      NewLine(s, ls);
      PutOnCanvas(s, more, Off(s, |more|), c);
      LongerCounts(s.cols, more, c);
      assert Longer(s.cols, more, c) == Longer(s.cols, ls, c) by {
        NewThenLonger(s.cols, ls, c);
      }
    }
  }

  lemma LongerCounts(cols: nat, ls: seq<seq<nat>>, c: nat)
    requires ls != []
    ensures var last, qs := |ls[|ls| - 1]|, Longer(cols, ls, c);
            if last == cols then |qs| == |ls| + 1 && |qs[|ls|]| == 1
            else |qs| == |ls| && |qs[|ls| - 1]| == last + 1
  {
  }

  lemma NewThenLonger(cols: nat, ls: seq<seq<nat>>, c: nat)
    requires ls != [] && |ls[|ls| - 1]| == cols && cols > 0
    ensures Longer(cols, ls + [[]], c) == Longer(cols, ls, c)
  {
    assert (ls + [[]])[..|ls|] == ls;
    assert [] + [c] == [c];
  }

  // ----- the theorem --------------------------------------------------------

  function Typed(s: Setup, text: seq<nat>): View
    requires FreshSetup(s) && s.rows < TWO_32 && s.cols < TWO_32
  {
    TypeAll(s, View(AllBlank(s), 0, 0), text)
  }

  /** As long as the text has no more lines than the screen has columns, or the screen no more rows, it shows
      as the picture of its last lines. */
  lemma {:induction false} TypedIsShown(s: Setup, text: seq<nat>)
    requires FreshSetup(s) && s.rows < TWO_32 && s.cols < TWO_32
    requires s.rows <= s.cols || |Lines(s.cols, text)| <= s.cols
    ensures Typed(s, text) == Shown(s, Lines(s.cols, text))
    decreases |text|
  {
    hide Lines, Shown, Key, Longer, Fits;
    LinesLonger(s.cols, [], LINE_FEED);
    if text == [] {
      NothingShown(s);
    } else {
      var rest, c := text[..|text| - 1], text[|text| - 1];
      assert rest + [c] == text;
      LinesLonger(s.cols, rest, c);
      LongerCounts(s.cols, Lines(s.cols, rest), c);
      TypedIsShown(s, rest);
      KeyShown(s, rest, c);
    }
  }

  lemma NothingShown(s: Setup)
    requires FreshSetup(s) && s.rows < TWO_32 && s.cols < TWO_32
    ensures Typed(s, []) == Shown(s, [[]])
  {
    hide Canvas, Fits, AllBlank;
    EmptyCanvas(s);
  }

  lemma EmptyCanvas(s: Setup)
    requires s.cols > 0
    ensures Canvas(s, [[]], 0) == AllBlank(s)
  {
  }

  lemma KeyShown(s: Setup, text: seq<nat>, c: nat)
    requires FreshSetup(s) && s.rows < TWO_32 && s.cols < TWO_32
    requires s.rows <= s.cols || |Lines(s.cols, text + [c])| <= s.cols
    ensures Key(s, Shown(s, Lines(s.cols, text)), c) == Shown(s, Lines(s.cols, text + [c]))
  {
    hide Lines, Shown, LineFed, RawPut, Longer;
    var ls := Lines(s.cols, text);
    LinesLonger(s.cols, text, c);
    if c == LINE_FEED {
      FeedShown(s, ls);
    } else {
      PutShown(s, ls, c);
    }
  }

  // ----- texts without line feeds -------------------------------------------

  lemma {:induction false} OnePiece(text: seq<nat>)
    requires LINE_FEED !in text
    ensures Pieces(text) == [text]
    decreases |text|
  {
    if text == [] {
    } else {
      OnePiece(text[..|text| - 1]);
      assert text == text[..|text| - 1] + [text[|text| - 1]];
    }
  }

  lemma {:induction false} TypedIsPut(s: Setup, v: View, text: seq<nat>)
    requires Fits(s, v) && LINE_FEED !in text
    ensures TypeAll(s, v, text) == PutAll(s, v, text)
    decreases |text|
  {
    hide RawPut, LineFed, Fits;
    if text == [] {
    } else {
      TypedIsPut(s, v, text[..|text| - 1]);
      assert text[|text| - 1] != LINE_FEED;
    }
  }

  /** Every text shows as its picture exactly on the screens with at most as many rows as columns. */
  lemma TypesRight(s: Setup)
    requires FreshSetup(s) && s.rows < TWO_32 && s.cols < TWO_32
    ensures (forall text: seq<nat> :: Typed(s, text) == Shown(s, Lines(s.cols, text))) <==> s.rows <= s.cols
  {
    hide Typed, Shown, Lines;
    if s.rows <= s.cols {
      forall text: seq<nat> ensures Typed(s, text) == Shown(s, Lines(s.cols, text)) {
        TypedIsShown(s, text);
      }
    } else {
      TypesWrong(s, seq(s.cols * s.cols + 1, _ => SPACE));
    }
  }

  lemma TypesWrong(s: Setup, text: seq<nat>)
    requires FreshSetup(s) && s.rows < TWO_32 && s.cols < TWO_32 && s.rows > s.cols
    requires LINE_FEED !in text && |text| == s.cols * s.cols + 1
    ensures Typed(s, text).y == s.cols - 1 && Shown(s, Lines(s.cols, text)).y == s.cols
  {
    hide Canvas, Cut, PutAll, TypeAll, Fits, AllBlank;
    BlankFits(s);
    TypedIsPut(s, View(AllBlank(s), 0, 0), text);
    PrintsWrong(s, text);
    OnePiece(text);
    assert Rows(s.cols, [text]) == [] + Cut(s.cols, text);
    CutCount(s.cols, text);
    Quotient(s.cols * s.cols, s.cols, s.cols, 0);
  }

  lemma BlankFits(s: Setup)
    requires FreshSetup(s) && s.rows < TWO_32 && s.cols < TWO_32
    ensures Fits(s, View(AllBlank(s), 0, 0))
  {
  }
}
