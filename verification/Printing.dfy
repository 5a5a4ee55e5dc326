/** What a printed text looks like: the effect of a run of raw_putchar calls on a fresh screen
    (src/flanterm/backends/fb.c), against the picture a reader expects. */
module Printing {
  import opened Framebuffer

  /** A terminal as init leaves it: the whole screen scrolls. */
  predicate FreshSetup(s: Setup) {
    s.rows >= 1 && s.cols >= 1 && s.top == 0 && s.bottom == s.rows && s.scroll
  }

  /** raw_putchar over a whole text. */
  function PutAll(s: Setup, v: View, text: seq<nat>): (w: View)
    requires s.Ok() && |v.cells| == s.rows * s.cols
    ensures |w.cells| == |v.cells|
  {
    if text == [] then v
    else RawPut(s, PutAll(s, v, text[..|text| - 1]), text[|text| - 1])
  }

  lemma PutAllStep(s: Setup, v: View, text: seq<nat>, c: nat)
    requires s.Ok() && |v.cells| == s.rows * s.cols
    ensures PutAll(s, v, text + [c]) == RawPut(s, PutAll(s, v, text), c) && PutAll(s, v, []) == v
  {
    assert (text + [c])[..|text|] == text;
  }

  function Printed(s: Setup, text: seq<nat>): View
    requires FreshSetup(s)
  {
    PutAll(s, View(AllBlank(s), 0, 0), text)
  }

  // ----- the expected picture -----------------------------------------------

  /** The line of the last character when a text of n characters is cut into lines of `cols`. */
  function LastLine(s: Setup, n: nat): nat
    requires s.cols >= 1
  {
    if n == 0 then 0 else (n - 1) / s.cols
  }

  /** Lines that have scrolled off. */
  function Gone(s: Setup, n: nat): nat
    requires FreshSetup(s)
  {
    if LastLine(s, n) < s.rows then 0 else LastLine(s, n) - (s.rows - 1)
  }

  /** The last `rows` lines, blank-padded. */
  function Picture(s: Setup, text: seq<nat>, gone: nat): (cells: seq<Cell>)
    ensures |cells| == s.rows * s.cols
  {
    var first := gone * s.cols;
    seq(s.rows * s.cols, i requires i >= 0 =>
      if first + i < |text| then Cell(text[first + i], s.fg, s.bg) else s.Blank())
  }

  function Expected(s: Setup, text: seq<nat>): View
    requires FreshSetup(s)
  {
    var n := |text|;
    View(Picture(s, text, Gone(s, n)), if n == 0 then 0 else (n - 1) % s.cols + 1, LastLine(s, n) - Gone(s, n))
  }

  /** Cell by cell: row y shows line Gone + y of the text. */
  lemma PictureCell(s: Setup, text: seq<nat>, gone: nat, x: nat, y: nat)
    requires x < s.cols && y < s.rows
    ensures At(s.cols, x, y) < s.rows * s.cols
    ensures Picture(s, text, gone)[At(s.cols, x, y)] ==
            if At(s.cols, x, gone + y) < |text| then Cell(text[At(s.cols, x, gone + y)], s.fg, s.bg) else s.Blank()
  {
    AtBound(s.rows, s.cols, x, y);
    assert (gone + y) * s.cols == gone * s.cols + y * s.cols;
  }

  // ----- one more character -------------------------------------------------

  lemma LinePosition(s: Setup, n: nat)
    requires s.cols >= 1 && n > 0
    ensures n == LastLine(s, n) * s.cols + (n - 1) % s.cols + 1
    ensures LastLine(s, n + 1) == if (n - 1) % s.cols + 1 == s.cols then LastLine(s, n) + 1 else LastLine(s, n)
    ensures n % s.cols == if (n - 1) % s.cols + 1 == s.cols then 0 else (n - 1) % s.cols + 1
  {
    var q, r := (n - 1) / s.cols, (n - 1) % s.cols;
    assert n == q * s.cols + r + 1;
    if r + 1 == s.cols {
      assert n == (q + 1) * s.cols;
      Quotient(n, s.cols, q + 1, 0);
    } else {
      Quotient(n, s.cols, q, r + 1);
    }
  }

  lemma Quotient(n: nat, k: nat, q: nat, r: nat)
    requires r < k && n == q * k + r
    ensures n / k == q && n % k == r
  {
    assert n == n / k * k + n % k;
    RowOrder(k, q, n / k);
    RowOrder(k, n / k, q);
  }

  /** Writing the next character at its place extends the picture. */
  lemma PutExtends(s: Setup, text: seq<nat>, gone: nat, c: nat, x: nat, y: nat)
    requires x < s.cols && y < s.rows && |text| == (gone + y) * s.cols + x
    ensures Put(s, Picture(s, text, gone), x, y, Cell(c, s.fg, s.bg)) == Picture(s, text + [c], gone)
  {
    AtBound(s.rows, s.cols, x, y);
    assert (gone + y) * s.cols == gone * s.cols + y * s.cols;
  }

  /** Scrolling a picture whose last row is full shows the picture one line further down. */
  lemma ScrollAdvances(s: Setup, text: seq<nat>, gone: nat)
    requires FreshSetup(s) && |text| == (gone + s.rows) * s.cols
    ensures Scrolled(s, Picture(s, text, gone)) == Picture(s, text, gone + 1)
  {
    assert (gone + s.rows) * s.cols == gone * s.cols + s.rows * s.cols;
    assert (gone + 1) * s.cols == gone * s.cols + s.cols;
    assert (s.rows - 1) * s.cols == s.rows * s.cols - s.cols;
    assert s.top * s.cols == 0;
  }

  lemma PrintNext(s: Setup, text: seq<nat>, c: nat)
    requires FreshSetup(s) && LastLine(s, |text| + 1) - Gone(s, |text| + 1) < s.cols
    ensures RawPut(s, Expected(s, text), c) == Expected(s, text + [c])
  {
    hide Picture, RawPut;
    var n, gone := |text|, Gone(s, |text|);
    if n == 0 {
      PrintInLine(s, text, 0, 0, 0, c);
    } else {
      var q, r := LastLine(s, n), (n - 1) % s.cols;
      LinePosition(s, n);
      assert gone + (q - gone) == q;
      if r + 1 < s.cols {
        PrintInLine(s, text, gone, r + 1, q - gone, c);
      } else {
        FullLine(s, n, q, r);
        PrintWrapped(s, text, gone, q, c);
      }
    }
  }

  lemma FullLine(s: Setup, n: nat, q: nat, r: nat)
    requires n == q * s.cols + r + 1 && r + 1 == s.cols
    ensures n == (q + 1) * s.cols
  {
  }

  /** The case of room left in the line. */
  lemma PrintInLine(s: Setup, text: seq<nat>, gone: nat, x: nat, y: nat, c: nat)
    requires FreshSetup(s) && x < s.cols && y < s.rows && |text| == (gone + y) * s.cols + x
    ensures RawPut(s, View(Picture(s, text, gone), x, y), c) == View(Picture(s, text + [c], gone), x + 1, y)
  {
    PutExtends(s, text, gone, c, x, y);
  }

  /** The case of a full line: the wrap comes first. */
  lemma PrintWrapped(s: Setup, text: seq<nat>, gone: nat, q: nat, c: nat)
    requires FreshSetup(s) && |text| == (q + 1) * s.cols && gone <= q && q - gone < s.rows
    requires q - gone + 1 < s.rows ==> q - gone + 1 < s.cols
    requires q - gone < s.cols
    ensures var v := RawPut(s, View(Picture(s, text, gone), s.cols, q - gone), c);
            && v.x == 1
            && (q - gone + 1 == s.rows ==> v.y == q - gone && v.cells == Picture(s, text + [c], gone + 1))
            && (q - gone + 1 < s.rows ==> v.y == q - gone + 1 && v.cells == Picture(s, text + [c], gone))
  {
    if q - gone + 1 == s.rows {
      ScrollAdvances(s, text, gone);
      PutExtends(s, text, gone + 1, c, 0, s.rows - 1);
    } else {
      PutExtends(s, text, gone, c, 0, q - gone + 1);
    }
  }

  /** As long as no row number reaches the number of columns, printing shows the expected picture. */
  lemma {:induction false} PrintedIsExpected(s: Setup, text: seq<nat>)
    requires FreshSetup(s) && (s.rows <= s.cols || |text| <= s.cols * s.cols)
    ensures Printed(s, text) == Expected(s, text)
    decreases |text|
  {
    if text == [] {
      assert Picture(s, [], 0) == AllBlank(s);
    } else {
      var rest, c := text[..|text| - 1], text[|text| - 1];
      assert rest + [c] == text;
      PrintedIsExpected(s, rest);
      RowBelowCols(s, |text|);
      PrintNext(s, rest, c);
    }
  }

  lemma RowBelowCols(s: Setup, n: nat)
    requires FreshSetup(s) && (s.rows <= s.cols || n <= s.cols * s.cols)
    ensures LastLine(s, n) - Gone(s, n) < s.cols
  {
    if n > 0 && n <= s.cols * s.cols {
      LinePosition(s, n);
      RowOrder(s.cols, s.cols, LastLine(s, n));
    }
  }

  /** Any long enough text breaks a screen with more rows than columns: the clamp of the row against
      the number of columns puts the first character of line `cols` on the line before. */
  lemma PrintsWrong(s: Setup, text: seq<nat>)
    requires FreshSetup(s) && s.rows > s.cols && |text| == s.cols * s.cols + 1
    ensures Printed(s, text).y == s.cols - 1 && Expected(s, text).y == s.cols
  {
    var rest := text[..|text| - 1];
    PrintedIsExpected(s, rest);
    FullSquare(s);
  }

  lemma FullSquare(s: Setup)
    requires s.cols >= 1
    ensures LastLine(s, s.cols * s.cols) == s.cols - 1 && LastLine(s, s.cols * s.cols + 1) == s.cols
    ensures s.cols * s.cols > 0 && (s.cols * s.cols - 1) % s.cols + 1 == s.cols
  {
    var n := s.cols * s.cols;
    RowOrder(s.cols, 1, s.cols);
    Quotient(n, s.cols, s.cols, 0);
    assert n - 1 == (s.cols - 1) * s.cols + (s.cols - 1);
    Quotient(n - 1, s.cols, s.cols - 1, s.cols - 1);
  }

  /** Every text prints as expected exactly on the screens with at most as many rows as columns. */
  lemma PrintsRight(s: Setup)
    requires FreshSetup(s)
    ensures (forall text: seq<nat> :: Printed(s, text) == Expected(s, text)) <==> s.rows <= s.cols
  {
    if s.rows <= s.cols {
      forall text: seq<nat> ensures Printed(s, text) == Expected(s, text) {
        PrintedIsExpected(s, text);
      }
    } else {
      var text := seq(s.cols * s.cols + 1, _ => SPACE);
      PrintsWrong(s, text);
    }
  }
}
