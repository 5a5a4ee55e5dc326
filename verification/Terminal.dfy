/** The terminal (src/flanterm/flanterm.c): the decisions of the byte-stream parser carried out on the
    cell store. */
module Terminal {
  import opened Common
  import opened Colours
  import opened Framebuffer
  import opened Parser
  import opened Decoder
  import opened Printing
  import opened Editing
  import opened Typing

  /** The glyph of a byte that is not a control: printable ASCII stands for itself. */
  function Glyph(c: nat): nat {
    if 0x20 <= c <= 0x7e then c else REPLACEMENT
  }

  function Glyphs(buf: seq<nat>): (r: seq<nat>)
    ensures |r| == |buf|
  {
    seq(|buf|, i requires 0 <= i < |buf| => Glyph(buf[i]))
  }

  /** The byte goes straight to the screen: idle parser, default character set, no control. */
  predicate IsPlain(p: State, c: nat) {
    && Idle(p) && 0x20 <= c && c != 0x7f && c < 256 && !StartsUnicode(c)
    && (if p.charsets.current == 0 then p.charsets.g0 else p.charsets.g1) == Default
  }

  predicate PlainText(p: State, buf: seq<nat>) {
    forall i :: 0 <= i < |buf| ==> IsPlain(p, buf[i])
  }

  /** Such a byte leaves the parser as it was. */
  lemma PlainStep(p: State, c: nat)
    requires IsPlain(p, c)
    ensures Step(p, c) == (p, Event.Print(c))
  {
  }

  lemma {:induction false} PlainRun(p: State, buf: seq<nat>)
    requires Parser.Ok(p) && PlainText(p, buf)
    ensures Bytes(buf) && After(p, buf) == p
    decreases |buf|
  {
    if buf == [] {
    } else {
      var rest, c := buf[..|buf| - 1], buf[|buf| - 1];
      assert IsPlain(p, c);
      PlainRun(p, rest);
      PlainStep(p, c);
    }
  }

  /** A plain byte or a line feed. */
  predicate IsTyped(p: State, c: nat) {
    IsPlain(p, c) || (Idle(p) && c == LINE_FEED)
  }

  predicate TypedText(p: State, buf: seq<nat>) {
    forall i :: 0 <= i < |buf| ==> IsTyped(p, buf[i])
  }

  function KeyOf(c: nat): nat {
    if c == LINE_FEED then LINE_FEED else Glyph(c)
  }

  function Keys(buf: seq<nat>): (r: seq<nat>)
    ensures |r| == |buf|
  {
    seq(|buf|, i requires 0 <= i < |buf| => KeyOf(buf[i]))
  }

  lemma TypedStep(p: State, c: nat)
    requires IsTyped(p, c)
    ensures c < 256 && Step(p, c) == (p, if c == LINE_FEED then Event.Control(c) else Event.Print(c))
  {
  }

  lemma {:induction false} TypedRun(p: State, buf: seq<nat>)
    requires Parser.Ok(p) && TypedText(p, buf)
    ensures Bytes(buf) && After(p, buf) == p
    decreases |buf|
  {
    hide Step;
    if buf == [] {
    } else {
      var rest, c := buf[..|buf| - 1], buf[|buf| - 1];
      assert IsTyped(p, c);
      TypedRun(p, rest);
      TypedStep(p, c);
    }
  }

  const DEC_SPECIAL_PRINT: map<nat, nat> :=
    map['`' as nat := 0x04, '0' as nat := 0xdb, '-' as nat := 0x18, ',' as nat := 0x1b, '.' as nat := 0x19,
        'a' as nat := 0xb1, 'f' as nat := 0xf8, 'g' as nat := 0xf1, 'h' as nat := 0xb0, 'j' as nat := 0xd9,
        'k' as nat := 0xbf, 'l' as nat := 0xda, 'm' as nat := 0xc0, 'n' as nat := 0xc5, 'q' as nat := 0xc4,
        's' as nat := 0x5f, 't' as nat := 0xc3, 'u' as nat := 0xb4, 'v' as nat := 0xc1, 'w' as nat := 0xc2,
        'x' as nat := 0xb3, 'y' as nat := 0xf3, 'z' as nat := 0xf2, '~' as nat := 0xfa, '_' as nat := 0xff,
        '+' as nat := 0x1a, '{' as nat := 0xe3, '}' as nat := 0x9c]

  /** A byte put on the screen: in insert mode the rest of the line makes room first. */
  function PrintView(s: Setup, v: View, charset: Charset, insert: bool, c: nat): View
    requires Fits(s, v)
  {
    RawPut(s, if insert then View(MadeRoom(s, v.cells, CursorX(s, v), CursorY(s, v)), v.x, v.y) else v,
           GlyphIn(charset, c))
  }

  function GlyphIn(charset: Charset, c: nat): nat {
    if charset == DecSpecial && c in DEC_SPECIAL_PRINT then DEC_SPECIAL_PRINT[c] else Glyph(c)
  }

  /** The code page (-1 for a character it lacks), the widths of characters, as size_t, and the colours. */
  datatype Tables = Tables(glyph: nat -> int, width: nat -> nat, palette: Palette)

  /** The characters put for a code point: its code page glyph, or a replacement as wide as it is. */
  function CodePointGlyphs(cc: int, width: nat): seq<nat> {
    if cc >= 0 then [cc] else if width > 0 then [REPLACEMENT] + Blanks(width - 1) else []
  }

  /** The line feeds among the escapes. */
  function EscapeView(s: Setup, v: View, c: nat): View
    requires Fits(s, v)
  {
    if c == 'D' as nat then LineFed(s, v, CursorX(s, v))
    else if c == 'E' as nat then LineFed(s, v, 0)
    else if c == 'M' as nat then LineFedBack(s, v)
    else v
  }

  /** The modes, text attributes and saved positions of the terminal beside the screen's own settings. */
  datatype Modes = Modes(insert: bool, onlcr: bool, autoflush: bool, cursorEnabled: bool, look: Look,
                         savedX: nat, savedY: nat, stateX: nat, stateY: nat, stateFg: nat, stateBg: nat,
                         stateLook: Look)

  datatype Term = Term(setup: Setup, view: View, modes: Modes)

  function Active(cs: Charsets): Charset {
    if cs.current == 0 then cs.g0 else cs.g1
  }

  /** ESC and a final byte. */
  predicate Escaped(c: nat, t: Term, t': Term)
    requires Fits(t.setup, t.view)
  {
    var s, v, m := t.setup, t.view, t.modes;
    if c == '7' as nat then
      t' == Term(s, v, m.(stateX := v.x, stateY := v.y, stateFg := s.fg, stateBg := s.bg, stateLook := m.look))
    else if c == '8' as nat then
      t' == Term(s.(fg := m.stateFg, bg := m.stateBg), View(v.cells, m.stateX, m.stateY), m.(look := m.stateLook))
    else if c == 'c' as nat then
      t' == Term(s.(top := 0, bottom := s.rows, scroll := true), View(AllBlank(s), 0, 0),
                 m.(insert := false, onlcr := true, autoflush := true, cursorEnabled := true, look := PLAIN,
                    savedX := 0, savedY := 0))
    else t' == Term(s, EscapeView(s, v, c), m)
  }

  /** A control sequence. */
  predicate Commanded(p: Palette, c: nat, values: seq<nat>, count: nat, t: Term, t': Term)
    requires Fits(t.setup, t.view) && |values| >= 2 && count <= |values|
  {
    var s, v, m := t.setup, t.view, t.modes;
    var pen := if c == 'm' as nat then Selected(p, Pen(s.fg, s.bg, m.look), values[..count])
        else Pen(s.fg, s.bg, m.look);
    && t'.view == Command(s.(scroll := false), v, m.savedX, m.savedY, c, values)
    && (if c == 'r' as nat then
          var margins := NewMargins(s.rows, values, count);
          t'.setup == s.(top := margins.top, bottom := margins.bottom)
        else t'.setup == s.(fg := pen.fg, bg := pen.bg))
    && t'.modes == CommandModes(m.(look := pen.look), CursorX(s, v), CursorY(s, v), c, values, count)
  }

  /** The commands that change a mode or the saved cursor. */
  function CommandModes(m: Modes, x: nat, y: nat, c: nat, values: seq<nat>, count: nat): (m': Modes)
    requires |values| >= 1
    ensures c !in ['s' as nat, 'h' as nat, 'l' as nat] ==> m' == m
  {
    if c == 's' as nat then m.(savedX := x, savedY := y)
    else if (c == 'h' as nat || c == 'l' as nat) && count != 0 && values[0] == 4 then m.(insert := c == 'h' as nat)
    else m
  }

  /** A control sequence after '?': only 25h and 25l have an effect. */
  function PrivateModes(m: Modes, c: nat, values: seq<nat>, count: nat): Modes
    requires |values| >= 1
  {
    if count != 0 && values[0] == 25 && (c == 'h' as nat || c == 'l' as nat) then
      m.(cursorEnabled := c == 'h' as nat)
    else m
  }

  /** The byte a decision carries is the one just read. */
  predicate Carried(e: Event, c: nat) {
    match e
    case Print(b) => b == c
    case Control(b) => b == c
    case Escape(b) => b == c
    case Csi(_, b, values, count) => b == c && |values| == MAX_ESC_VALUES && count <= |values|
    case _ => true
  }

  lemma StepCarries(p: State, c: nat)
    requires Parser.Ok(p) && c < 256
    ensures Carried(Step(p, c).1, c)
  {
  }

  /** What each decision of the parser makes of the terminal. */
  ghost predicate Acts(tables: Tables, e: Event, charset: Charset, t: Term, t': Term)
    requires Fits(t.setup, t.view)
  {
    match e
    case Nothing => t' == t
    case Print(c) => t' == t.(view := PrintView(t.setup, t.view, charset, t.modes.insert, c))
    case CodePoint(cp) => t' == t.(view := PutAll(t.setup, t.view, CodePointGlyphs(tables.glyph(cp), tables.width(cp))))
    case Control(c) => t' == t.(view := ControlView(t.setup, t.view, c, t.modes.onlcr))
    case Escape(c) => Escaped(c, t, t')
    case Csi(private, c, values, count) =>
      && |values| >= 2 && count <= |values|
      && if private then t' == t.(modes := PrivateModes(t.modes, c, values, count))
         else Commanded(tables.palette, c, values, count, t, t')
  }

  class Context {
    const screen: Screen
    const decoder: Decoder
    const brush: Brush
    const tables: Tables
    var autoflush: bool
    var insertMode: bool
    var onlcr: bool
    var savedCursorX: nat
    var savedCursorY: nat
    var savedStateX: nat
    var savedStateY: nat
    var savedStateFg: nat
    var savedStateBg: nat

    /** A consistent cell store and non-empty scroll margins inside the screen. */
    ghost predicate Sound()
      reads screen, screen.grid, screen.queue, screen.index, screen.displayed
      ensures Sound() ==> screen.Valid() && Fits(screen.Setting(), screen.TheView())
    {
      && screen.Valid() && screen.scrollTop < screen.scrollBottom <= screen.rows
      && screen.rows < TWO_32 && screen.cols < TWO_32
    }

    ghost predicate Valid()
      reads decoder, decoder.escValues, screen, screen.grid, screen.queue, screen.index, screen.displayed
    {
      Sound() && decoder.Valid() && brush.palette == tables.palette
    }

    ghost function TheModes(): Modes
      reads this, brush, screen`cursorEnabled
    {
      Modes(insertMode, onlcr, autoflush, screen.cursorEnabled, brush.TheLook(), savedCursorX, savedCursorY,
            savedStateX, savedStateY, savedStateFg, savedStateBg, brush.saved)
    }

    ghost function TheTerm(): Term
      requires screen.Valid()
      reads this, brush, screen, screen.grid, screen.queue, screen.index, screen.displayed
    {
      Term(screen.Setting(), screen.TheView(), TheModes())
    }

    /** The position that get_cursor_pos gives. */
    ghost predicate IsCursor(x: nat, y: nat)
      requires Sound()
      reads screen, screen.grid, screen.queue, screen.index, screen.displayed
    {
      x == CursorX(screen.Setting(), screen.TheView()) && y == CursorY(screen.Setting(), screen.TheView())
    }

    /** flanterm_fb_init: an empty screen, refreshed, and a parser at rest. */
    constructor (rows: nat, cols: nat, tables: Tables)
      requires 1 <= rows < TWO_32 && 1 <= cols < TWO_32 && rows * cols < SIZE_MAX
      ensures Valid() && fresh(screen) && fresh(decoder) && fresh(brush)
      ensures this.tables == tables && decoder.TheState() == Fresh() && !insertMode && autoflush
      ensures screen.Setting() == Setup(rows, cols, 0, rows, true, tables.palette.defaultFg, TRANSPARENT)
      ensures Pen(screen.textFg, screen.textBg, brush.TheLook()) == DefaultPen(tables.palette)
      ensures TheModes() == Modes(false, true, true, true, PLAIN, 0, 0, 0, 0, 0, 0, ZEROED)
      ensures screen.TheView() == View(AllBlank(screen.Setting()), 0, 0)
    {
      hide Screen.Linked, Screen.Shown, Overlay, AllBlank;
      this.tables := tables;
      screen := new Screen(rows, cols, tables.palette.defaultFg, TRANSPARENT);
      decoder := new Decoder();
      brush := new Brush(tables.palette);
      savedStateX, savedStateY, savedStateFg, savedStateBg := 0, 0, 0, 0;
      savedCursorX, savedCursorY := 0, 0;
      autoflush, insertMode, onlcr := true, false, true;
      new;
      screen.FirstRefresh();
    }

    /** flanterm_putchar: one step of the parser, then what it decided. */
    method Putchar(c: nat)
      requires Valid() && c < 256
      modifies this, decoder, decoder.escValues, brush, screen, screen.queue, screen.index
      ensures Valid() && decoder.TheState() == Step(old(decoder.TheState()), c).0
      ensures Acts(tables, Step(old(decoder.TheState()), c).1, Active(decoder.Sets()), old(TheTerm()), TheTerm())
    {
      hide Step, Acts, Screen.Valid;
      StepCarries(decoder.TheState(), c);
      var e := decoder.Putchar(c);
      Act(e, c);
    }

    /** Carries out one decision of the parser. */
    method Act(e: Event, c: nat)
      requires Valid() && Carried(e, c)
      modifies this, brush, screen, screen.queue, screen.index
      ensures Sound() && Acts(tables, e, Active(decoder.Sets()), old(TheTerm()), TheTerm())
    {
      match e
      case Nothing =>
      case Print(_) => PrintByte(c);
      case CodePoint(cp) => PutCodePoint(cp);
      case Control(_) => ControlByte(c);
      case Escape(_) => EscapeFinal(c);
      case Csi(private, _, values, count) => ControlSequence(private, c, values, count);
    }

    /** The output switch at the end of flanterm_putchar. */
    method PrintByte(c: nat)
      requires Valid()
      modifies screen`queueI, screen`cursorX, screen`cursorY, screen.queue, screen.index
      ensures Sound()
      ensures screen.TheView() ==
              PrintView(screen.Setting(), old(screen.TheView()), Active(decoder.Sets()), insertMode, c)
    {
      hide Screen.Valid, MadeRoom, RawPut, GlyphIn;
      if insertMode {
        var x, y := screen.GetCursorPos();
        ShiftRowRight(x, y);
      }
      var charset := if decoder.currentCharset == 0 then decoder.g0 else decoder.g1;
      screen.RawPutchar(GlyphIn(charset, c));
    }

    /** The insert-mode loop. */
    method ShiftRowRight(x: nat, y: nat)
      requires Sound() && x < screen.cols && y < screen.rows
      modifies screen`queueI, screen.queue, screen.index
      ensures Sound() && screen.Logical() == MadeRoom(screen.Setting(), old(screen.Logical()), x, y)
    {
      hide Screen.Valid, MadeRoom;
      ghost var s, cells := screen.Setting(), screen.Logical();
      var i := screen.cols - 1;
      MakeRoomStep(s, cells, i, y);
      while true
        invariant Sound() && x <= i < screen.cols && screen.Logical() == MadeRoom(s, cells, i + 1, y)
        decreases i
      {
        MakeRoomStep(s, cells, i, y);
        screen.MoveCharacter(i + 1, y, i, y);
        if i == x {
          break;
        }
        i := i - 1;
      }
    }

    /** The output of a completed code point. */
    method PutCodePoint(cp: nat)
      requires Sound()
      modifies screen`queueI, screen`cursorX, screen`cursorY, screen.queue, screen.index
      ensures Sound() && screen.TheView() == PutAll(screen.Setting(), old(screen.TheView()),
                                                        CodePointGlyphs(tables.glyph(cp), tables.width(cp)))
    {
      hide Screen.Valid, PutAll, RawPut;
      var cc, width := tables.glyph(cp), tables.width(cp);
      ghost var s, v := screen.Setting(), screen.TheView();
      PutAllStep(s, v, [], REPLACEMENT);
      if cc >= 0 {
        PutAllStep(s, v, [], cc);
        assert [] + [cc] == CodePointGlyphs(cc, width);
        screen.RawPutchar(cc);
      } else {
        assert [] + [REPLACEMENT] == CodePointGlyphs(cc, 1);
        if width > 0 {
          screen.RawPutchar(REPLACEMENT);
        }
        for i := 1 to if width < 1 then 1 else width
          invariant Sound() && screen.TheView() == PutAll(s, v, CodePointGlyphs(cc, if width == 0 then 0 else i))
        {
          PutAllStep(s, v, CodePointGlyphs(cc, i), SPACE);
          assert CodePointGlyphs(cc, i) + [SPACE] == CodePointGlyphs(cc, i + 1);
          screen.RawPutchar(SPACE);
        }
      }
    }

    /** ctx->set_cursor_pos. */
    method SetCursor(x: nat, y: nat)
      requires Sound()
      modifies screen`cursorX, screen`cursorY
      ensures Sound() && screen.TheView() == Moved(screen.Setting(), old(screen.TheView()), x, y)
    {
      hide Screen.Valid, Clamp;
      screen.SetCursorPos(x, y);
    }

    /** The same for a position on the screen. */
    method SetOnScreen(x: nat, y: nat)
      requires Sound() && x < screen.cols && y < screen.rows
      modifies screen`cursorX, screen`cursorY
      ensures Sound() && screen.TheView() == View(old(screen.Logical()), x, y)
    {
      hide Screen.Valid, Clamp;
      AlreadyClamped(x, screen.cols);
      AlreadyClamped(y, screen.rows);
      screen.SetCursorPos(x, y);
    }

    /** The effect of a C0 control on the cursor and the screen. */
    method ControlByte(c: nat)
      requires Sound()
      modifies screen`queueI, screen`cursorX, screen`cursorY, screen.queue, screen.index
      ensures Sound() && screen.TheView() == ControlView(screen.Setting(), old(screen.TheView()), c, onlcr)
    {
      hide Screen.Valid, LineFed, Moved;
      var x, y := screen.GetCursorPos();
      if c == 9 {
        if x / TAB_SIZE + 1 >= screen.cols {
          SetCursor(screen.cols - 1, y);
        } else {
          SetCursor((x / TAB_SIZE + 1) * TAB_SIZE, y);
        }
      } else if 10 <= c <= 12 {
        LineFeed(if onlcr then 0 else x, y);
      } else if c == 8 {
        SetCursor(Minus(x, 1), y);
      } else if c == 13 {
        SetCursor(0, y);
      }
    }

    /** Moves down one row, scrolling at the bottom margin. */
    method LineFeed(x: nat, y: nat)
      requires Sound() && y == CursorY(screen.Setting(), screen.TheView())
      modifies screen`queueI, screen`cursorX, screen`cursorY, screen.queue, screen.index
      ensures Sound() && screen.TheView() == LineFed(screen.Setting(), old(screen.TheView()), x)
    {
      hide Screen.Valid, Scrolled;
      if y == screen.scrollBottom - 1 {
        screen.Scroll();
        screen.SetCursorPos(x, y);
      } else {
        screen.SetCursorPos(x, y + 1);
      }
    }

    /** ESC M. */
    method ReverseLineFeed(y: nat)
      requires Sound() && y == CursorY(screen.Setting(), screen.TheView())
      modifies screen`queueI, screen`cursorX, screen`cursorY, screen.queue, screen.index
      ensures Sound() && screen.TheView() == LineFedBack(screen.Setting(), old(screen.TheView()))
    {
      hide Screen.Valid, RevScrolled;
      if y == screen.scrollTop {
        screen.RevScroll();
        screen.SetCursorPos(0, y);
      } else {
        screen.SetCursorPos(0, Minus(y, 1));
      }
    }

    /** The switch of escape_parse, as far as it touches the screen. */
    method EscapeFinal(c: nat)
      requires Sound()
      modifies this, brush, screen, screen.queue, screen.index
      ensures Sound() && Escaped(c, old(TheTerm()), TheTerm())
    {
      hide Screen.Valid, EscapeView, AllBlank;
      var x, y := screen.GetCursorPos();
      if c == '7' as nat {
        SaveState();
      } else if c == '8' as nat {
        RestoreState();
      } else if c == 'c' as nat {
        Reset();
      } else {
        EscapeFeed(c, x, y);
      }
    }

    method SaveState()
      modifies this`savedStateFg, this`savedStateBg, this`savedStateX, this`savedStateY, brush`saved
      ensures TheModes() == old(TheModes()).(stateX := screen.cursorX, stateY := screen.cursorY,
                                             stateFg := screen.textFg, stateBg := screen.textBg,
                                             stateLook := brush.TheLook())
    {
      brush.Save();
      savedStateFg, savedStateBg, savedStateX, savedStateY :=
          screen.textFg, screen.textBg, screen.cursorX, screen.cursorY;
    }

    method RestoreState()
      requires screen.Valid()
      modifies screen`textFg, screen`textBg, screen`cursorX, screen`cursorY, brush
      ensures TheModes() == old(TheModes()).(look := brush.saved)
      ensures screen.Valid() && screen.Setting() == old(screen.Setting()).(fg := savedStateFg, bg := savedStateBg)
      ensures screen.TheView() == View(old(screen.Logical()), savedStateX, savedStateY)
    {
      hide Screen.Valid;
      brush.Restore();
      screen.textFg, screen.textBg, screen.cursorX, screen.cursorY :=
          savedStateFg, savedStateBg, savedStateX, savedStateY;
    }

    method EscapeFeed(c: nat, x: nat, y: nat)
      requires Sound() && IsCursor(x, y)
      modifies screen`queueI, screen`cursorX, screen`cursorY, screen.queue, screen.index
      ensures Sound() && screen.TheView() == EscapeView(screen.Setting(), old(screen.TheView()), c)
    {
      hide Screen.Valid, LineFed, LineFedBack;
      if c == 'D' as nat {
        LineFeed(x, y);
      } else if c == 'E' as nat {
        LineFeed(0, y);
      } else if c == 'M' as nat {
        ReverseLineFeed(y);
      }
    }

    /** ESC c. */
    method Reset()
      requires Sound()
      modifies this, brush, screen, screen.queue, screen.index
      ensures Sound() && Escaped('c' as nat, old(TheTerm()), TheTerm()) && FreshSetup(screen.Setting())
    {
      hide Screen.Valid;
      Reinit();
      screen.Clear(true);
    }

    /** The rest of flanterm_context_reinit: modes, saved cursor and margins. */
    method Reinit()
      requires Sound()
      modifies this`autoflush, this`insertMode, this`savedCursorX, this`savedCursorY, this`onlcr, brush
      modifies screen`cursorEnabled, screen`scrollEnabled, screen`scrollTop, screen`scrollBottom
      ensures Sound()
      ensures screen.Setting() == old(screen.Setting()).(top := 0, bottom := screen.rows, scroll := true)
      ensures TheModes() == old(TheModes()).(insert := false, onlcr := true, autoflush := true, cursorEnabled := true,
                                             look := PLAIN, savedX := 0, savedY := 0)
    {
      hide Screen.Valid;
      brush.Reinit();
      autoflush := true;
      insertMode := false;
      savedCursorX := 0;
      savedCursorY := 0;
      onlcr := true;
      ReinitScreen();
    }

    method ReinitScreen()
      modifies screen`cursorEnabled, screen`scrollEnabled, screen`scrollTop, screen`scrollBottom
      ensures screen.cursorEnabled
      ensures screen.Setting() == old(screen.Setting()).(top := 0, bottom := screen.rows, scroll := true)
    {
      screen.cursorEnabled := true;
      screen.scrollEnabled := true;
      screen.scrollTop := 0;
      screen.scrollBottom := screen.rows;
    }

    // ----- control_sequence_parse, from the dispatch on ----------------------

    /** dec_private_parse, or a command with scrolling switched off. */
    method ControlSequence(private: bool, c: nat, values: seq<nat>, count: nat)
      requires Sound() && |values| == MAX_ESC_VALUES && count <= |values| && brush.palette == tables.palette
      modifies this, brush, screen, screen.queue, screen.index
      ensures Sound()
      ensures if private then TheTerm() == old(TheTerm()).(modes := PrivateModes(old(TheModes()), c, values, count))
              else Commanded(tables.palette, c, values, count, old(TheTerm()), TheTerm())
    {
      if private {
        if count != 0 && values[0] == 25 && (c == 'h' as nat || c == 'l' as nat) {
          screen.cursorEnabled := c == 'h' as nat;
        }
      } else {
        var r := screen.scrollEnabled;
        screen.scrollEnabled := false;
        Dispatch(c, values, count);
        screen.scrollEnabled := r;
      }
    }

    /** The switch of control_sequence_parse. */
    method Dispatch(c: nat, values: seq<nat>, count: nat)
      requires Sound() && |values| == MAX_ESC_VALUES && count <= |values| && brush.palette == tables.palette
      requires !screen.scrollEnabled
      modifies this, brush, screen, screen.queue, screen.index
      ensures Sound() && Commanded(tables.palette, c, values, count, old(TheTerm()), TheTerm())
    {
      hide Screen.Valid, Command, Edited, CommandModes, NewMargins, Selected;
      var x, y := screen.GetCursorPos();
      if c in CURSOR_COMMANDS {
        MoveCursor(c, x, y, values);
      } else {
        OtherCommands(screen.Setting(), screen.TheView(), savedCursorX, savedCursorY, c, values);
        if c in SETTING_COMMANDS {
          ChangeSettings(c, x, y, values, count);
        } else {
          EditText(c, x, y, values[0]);
        }
      }
    }

    /** The commands that change modes, margins, colours or the saved cursor. */
    method ChangeSettings(c: nat, x: nat, y: nat, values: seq<nat>, count: nat)
      requires Sound() && |values| == MAX_ESC_VALUES && count <= |values| && brush.palette == tables.palette
      requires !screen.scrollEnabled && c in SETTING_COMMANDS && IsCursor(x, y)
      modifies this`insertMode, this`savedCursorX, this`savedCursorY, brush
      modifies screen`cursorX, screen`cursorY, screen`scrollTop, screen`scrollBottom, screen`textFg, screen`textBg
      ensures Sound() && Commanded(tables.palette, c, values, count, old(TheTerm()), TheTerm())
    {
      hide Screen.Valid, Command, CommandModes, NewMargins, Fits, Selected, CursorX, CursorY;
      OtherCommands(screen.Setting(), screen.TheView(), savedCursorX, savedCursorY, c, values);
      if c == 'm' as nat {
        SelectGraphics(values[..count]);
      } else if c == 'r' as nat {
        SetMargins(values, count);
      } else {
        ChangeModes(c, x, y, values, count);
      }
    }

    /** Commands s, h and l. */
    method ChangeModes(c: nat, x: nat, y: nat, values: seq<nat>, count: nat)
      requires |values| == MAX_ESC_VALUES && c in ['s' as nat, 'h' as nat, 'l' as nat]
      modifies this`insertMode, this`savedCursorX, this`savedCursorY
      ensures TheModes() == CommandModes(old(TheModes()), x, y, c, values, count)
    {
      if c == 's' as nat {
        savedCursorX, savedCursorY := x, y;
      } else if count != 0 && values[0] == 4 {
        insertMode := c == 'h' as nat;
      }
    }

    /** The commands that only move the cursor. */
    method MoveCursor(c: nat, x: nat, y: nat, values: seq<nat>)
      requires Sound() && |values| == MAX_ESC_VALUES && c in CURSOR_COMMANDS && IsCursor(x, y)
      modifies screen`cursorX, screen`cursorY
      ensures Sound()
      ensures screen.TheView() ==
              Command(screen.Setting(), old(screen.TheView()), savedCursorX, savedCursorY, c, values)
    {
      hide Screen.Valid, Edited, UpFrom, DownFrom, Moved, FromOne;
      var n := values[0];
      if c == 'F' as nat || c == 'A' as nat {
        CursorUp(if c == 'F' as nat then 0 else x, y, n);
      } else if c == 'E' as nat || c == 'e' as nat || c == 'B' as nat {
        CursorDown(if c == 'E' as nat then 0 else x, y, n);
      } else if c == 'a' as nat || c == 'C' as nat {
        SetCursor(x + if x + n > screen.cols - 1 then screen.cols - 1 - x else n, y);
      } else if c == 'D' as nat {
        SetCursor(x - Min(n, x), y);
      } else {
        PlaceCursor(c, x, y, values);
      }
    }

    /** Those of them that name a position. */
    method PlaceCursor(c: nat, x: nat, y: nat, values: seq<nat>)
      requires Sound() && |values| == MAX_ESC_VALUES && c in PLACE_COMMANDS && IsCursor(x, y)
      modifies screen`cursorX, screen`cursorY
      ensures Sound()
      ensures screen.TheView() ==
              Command(screen.Setting(), old(screen.TheView()), savedCursorX, savedCursorY, c, values)
    {
      hide Screen.Valid, Edited, UpFrom, DownFrom, Moved, FromOne;
      var n := values[0];
      if c == 'd' as nat {
        var row := (n + TWO_32 - 1) % TWO_32;
        SetCursor(x, if row >= screen.rows then screen.rows - 1 else row);
      } else if c == 'G' as nat || c == '`' as nat {
        var col := (n + TWO_32 - 1) % TWO_32;
        SetCursor(if col >= screen.cols then screen.cols - 1 else col, y);
      } else if c == 'H' as nat || c == 'f' as nat {
        CursorTo(values[0], values[1]);
      } else {
        SetCursor(savedCursorX, savedCursorY);
      }
    }

    /** Commands A and F. */
    method CursorUp(x: nat, y: nat, n: nat)
      requires Sound() && y < screen.rows
      modifies screen`cursorX, screen`cursorY
      ensures Sound()
      ensures screen.TheView() == Moved(screen.Setting(), old(screen.TheView()), x, UpFrom(screen.Setting(), y, n))
    {
      var dest := y - Min(n, y);
      var region := (screen.scrollTop >= dest && screen.scrollTop <= y) ||
          (screen.scrollBottom >= dest && screen.scrollBottom <= y);
      if region && dest < screen.scrollTop {
        dest := screen.scrollTop;
      }
      screen.SetCursorPos(x, dest);
    }

    /** Commands B, e and E. */
    method CursorDown(x: nat, y: nat, n: nat)
      requires Sound() && y < screen.rows
      modifies screen`cursorX, screen`cursorY
      ensures Sound()
      ensures screen.TheView() == Moved(screen.Setting(), old(screen.TheView()), x, DownFrom(screen.Setting(), y, n))
    {
      var dest := y + if y + n > screen.rows - 1 then screen.rows - 1 - y else n;
      var region := (screen.scrollTop >= y && screen.scrollTop <= dest) ||
          (screen.scrollBottom >= y && screen.scrollBottom <= dest);
      if region && dest >= screen.scrollBottom {
        dest := screen.scrollBottom - 1;
      }
      screen.SetCursorPos(x, dest);
    }

    /** Commands H and f: one-based row and column, 0 read as 1, cut off at the edges. */
    method CursorTo(row: nat, col: nat)
      requires Sound()
      modifies screen`cursorX, screen`cursorY
      ensures Sound()
      ensures screen.TheView() ==
              Moved(screen.Setting(), old(screen.TheView()), FromOne(col, screen.cols), FromOne(row, screen.rows))
    {
      var y := if row != 0 then row - 1 else 0;
      var x := if col != 0 then col - 1 else 0;
      if x >= screen.cols {
        x := screen.cols - 1;
      }
      if y >= screen.rows {
        y := screen.rows - 1;
      }
      screen.SetCursorPos(x, y);
    }

    /** The commands that change the text; any other byte changes nothing. */
    method EditText(c: nat, x: nat, y: nat, n: nat)
      requires Sound() && IsCursor(x, y)
      modifies screen`queueI, screen`scrollTop, screen`cursorX, screen`cursorY, screen.queue, screen.index
      ensures Sound() && screen.Setting() == old(screen.Setting())
      ensures screen.TheView() == Edited(screen.Setting(), old(screen.TheView()), c, n)
    {
      hide Screen.Valid, ScrolledTimes, RevScrolledTimes, ErasedDisplay, Inserted, DeletedChars, ErasedChars,
        ErasedLine;
      if c == 'M' as nat {
        ScrollBy(Min(n, screen.rows));
      } else if c == 'L' as nat {
        InsertLines(y, Min(n, screen.rows));
      } else if c == 'J' as nat {
        EraseDisplay(x, y, n);
      } else if c == '@' as nat {
        InsertBlanks(x, y, n);
      } else if c == 'P' as nat {
        DeleteCharacters(x, y, n);
      } else if c == 'X' as nat {
        EraseCharacters(x, y, n);
      } else if c == 'K' as nat {
        EraseLine(x, y, n);
      }
    }

    /** Command M. */
    method ScrollBy(count: nat)
      requires Sound()
      modifies screen`queueI, screen.queue, screen.index
      ensures Sound() && screen.Logical() == ScrolledTimes(screen.Setting(), old(screen.Logical()), count)
    {
      hide Screen.Valid, Scrolled;
      for i := 0 to count
        invariant Sound() && screen.Logical() == ScrolledTimes(screen.Setting(), old(screen.Logical()), i)
      {
        screen.Scroll();
      }
    }

    /** Command L: scrolls back with the top margin moved to row `y` for the while. */
    method InsertLines(y: nat, count: nat)
      requires Sound()
      modifies screen`queueI, screen`scrollTop, screen.queue, screen.index
      ensures Sound() && screen.Setting() == old(screen.Setting())
      ensures screen.Logical() == RevScrolledTimes(screen.Setting().(top := y), old(screen.Logical()), count)
    {
      hide Screen.Valid, RevScrolled;
      var top := screen.scrollTop;
      screen.scrollTop := y;
      for i := 0 to count
        invariant screen.Valid() && screen.Setting() == old(screen.Setting()).(top := y)
        invariant screen.Logical() == RevScrolledTimes(screen.Setting(), old(screen.Logical()), i)
      {
        screen.RevScroll();
      }
      screen.scrollTop := top;
    }

    /** A loop of raw_putchar calls with a space. */
    method PutSpaces(count: nat)
      requires Sound()
      modifies screen`queueI, screen`cursorX, screen`cursorY, screen.queue, screen.index
      ensures Sound() && screen.TheView() == PutBlanks(screen.Setting(), old(screen.TheView()), count)
    {
      hide Screen.Valid, RawPut, PutBlanks;
      ghost var s, v := screen.Setting(), screen.TheView();
      PutBlanksStep(s, v, 0);
      for i := 0 to count
        invariant Sound() && screen.TheView() == PutBlanks(s, v, i)
      {
        PutBlanksStep(s, v, i);
        screen.RawPutchar(SPACE);
      }
    }

    /** Command J. */
    method EraseDisplay(x: nat, y: nat, n: nat)
      requires Sound() && IsCursor(x, y)
      modifies screen`queueI, screen`cursorX, screen`cursorY, screen.queue, screen.index
      ensures Sound() && screen.TheView() == ErasedDisplay(screen.Setting(), old(screen.TheView()), n)
    {
      hide Screen.Valid, PutBlanks, At, AllBlank;
      if n == 0 {
        EraseFrom(x, y);
      } else if n == 1 {
        EraseUpTo(x, y);
      } else if n == 2 || n == 3 {
        screen.Clear(false);
      }
    }

    /** Command J with argument 0. */
    method EraseFrom(x: nat, y: nat)
      requires Sound() && x < screen.cols && y < screen.rows
      modifies screen`queueI, screen`cursorX, screen`cursorY, screen.queue, screen.index
      ensures Sound()
      ensures screen.TheView() ==
              View(PutBlanks(screen.Setting(), old(screen.TheView()),
                             At(screen.cols, screen.cols - (x + 1), screen.rows - (y + 1)) + 1).cells, x, y)
    {
      hide Screen.Valid, PutBlanks, At;
      PutSpaces(At(screen.cols, screen.cols - (x + 1), screen.rows - (y + 1)) + 1);
      SetOnScreen(x, y);
    }

    /** Command J with argument 1 and its nested loops. */
    method EraseUpTo(x: nat, y: nat)
      requires Sound() && x < screen.cols && y < screen.rows
      modifies screen`queueI, screen`cursorX, screen`cursorY, screen.queue, screen.index
      ensures Sound()
      ensures screen.TheView() ==
              View(PutBlanks(screen.Setting(), View(old(screen.Logical()), 0, 0), At(screen.cols, x, y) + 1).cells,
                   x, y)
    {
      hide Screen.Valid, PutBlanks, RawPut, At;
      SetOnScreen(0, 0);
      ghost var s, v := screen.Setting(), screen.TheView();
      PutBlanksStep(s, v, 0);
      AtNext(screen.cols, 0, 0);
      for yc := 0 to screen.rows
        invariant Sound() && yc <= y && screen.TheView() == PutBlanks(s, v, At(screen.cols, 0, yc))
      {
        AtNext(screen.cols, 0, yc);
        for xc := 0 to screen.cols
          invariant Sound() && (yc == y ==> xc <= x) && screen.TheView() == PutBlanks(s, v, At(screen.cols, xc, yc))
        {
          PutBlanksStep(s, v, At(screen.cols, xc, yc));
          AtNext(screen.cols, xc, yc);
          screen.RawPutchar(SPACE);
          if xc == x && yc == y {
            SetOnScreen(x, y);
            return;
          }
        }
      }
    }

    /** Command @. */
    method InsertBlanks(x: nat, y: nat, n: nat)
      requires Sound() && x < screen.cols && y < screen.rows
      modifies screen`queueI, screen`cursorX, screen`cursorY, screen.queue, screen.index
      ensures Sound() && screen.TheView() == View(Inserted(screen.Setting(), old(screen.Logical()), x, y, n), x, y)
    {
      hide Screen.Valid, Inserted, Wrapped, Put;
      ghost var s, cells := screen.Setting(), screen.Logical();
      var i := screen.cols - 1;
      InsertStep(s, cells, i, y, n);
      while true
        invariant Sound() && x <= i < screen.cols && screen.Logical() == Inserted(s, cells, i + 1, y, n)
        decreases i
      {
        InsertStep(s, cells, i, y, n);
        screen.MoveCharacter(i + n, y, i, y);
        PutBlankAt(i, y);
        if i == x {
          break;
        }
        i := i - 1;
      }
      SetOnScreen(x, y);
    }

    method PutBlankAt(x: nat, y: nat)
      requires Sound() && x < screen.cols && y < screen.rows
      modifies screen`queueI, screen`cursorX, screen`cursorY, screen.queue, screen.index
      ensures Sound()
      ensures screen.Logical() == Put(screen.Setting(), old(screen.Logical()), x, y, screen.Setting().Blank())
    {
      hide Screen.Valid, Put;
      SetOnScreen(x, y);
      screen.RawPutchar(SPACE);
    }

    /** Command P, falling through to X. */
    method DeleteCharacters(x: nat, y: nat, n: nat)
      requires Sound() && IsCursor(x, y)
      modifies screen`queueI, screen`cursorX, screen`cursorY, screen.queue, screen.index
      ensures Sound() && screen.TheView() == DeletedChars(screen.Setting(), old(screen.TheView()), n)
    {
      hide Screen.Valid, PutBlanks, PulledLeft, Minus;
      ghost var s, cells := screen.Setting(), screen.Logical();
      var i := x + n;
      NothingPulled(s, cells, x, y, n, i);
      while i < screen.cols
        invariant Sound() && i >= x + n
        invariant screen.Logical() == PulledLeft(s, cells, x, y, n, if i < screen.cols then i else screen.cols)
      {
        PullStep(s, cells, x, y, n, i);
        screen.MoveCharacter(i - n, y, i, y);
        i := i + 1;
      }
      screen.SetCursorPos(Minus(screen.cols, n), y);
      PutSpaces(Min(n, screen.cols));
      SetOnScreen(x, y);
    }

    /** Command X. */
    method EraseCharacters(x: nat, y: nat, n: nat)
      requires Sound() && IsCursor(x, y)
      modifies screen`queueI, screen`cursorX, screen`cursorY, screen.queue, screen.index
      ensures Sound() && screen.TheView() == ErasedChars(screen.Setting(), old(screen.TheView()), n)
    {
      PutSpaces(Min(n, screen.cols));
      SetOnScreen(x, y);
    }

    /** Command K. */
    method EraseLine(x: nat, y: nat, n: nat)
      requires Sound() && IsCursor(x, y)
      modifies screen`queueI, screen`cursorX, screen`cursorY, screen.queue, screen.index
      ensures Sound() && screen.TheView() == ErasedLine(screen.Setting(), old(screen.TheView()), n)
    {
      hide Screen.Valid, PutBlanks;
      if n == 0 {
        PutSpaces(screen.cols - x);
        SetOnScreen(x, y);
      } else if n == 1 {
        SetOnScreen(0, y);
        PutSpaces(x);
      } else if n == 2 {
        SetOnScreen(0, y);
        PutSpaces(screen.cols);
        SetOnScreen(x, y);
      }
    }

    /** Command m. */
    method SelectGraphics(values: seq<nat>)
      requires Sound() && brush.palette == tables.palette
      modifies screen`textFg, screen`textBg, brush
      ensures Sound() && brush.saved == old(brush.saved) && ThePen() == Selected(tables.palette, old(ThePen()), values)
    {
      hide Screen.Valid, Selected;
      var fg, bg := brush.Select(values, screen.textFg, screen.textBg);
      screen.textFg, screen.textBg := fg, bg;
    }

    ghost function ThePen(): Pen
      reads brush, screen`textFg, screen`textBg
    {
      Pen(screen.textFg, screen.textBg, brush.TheLook())
    }

    /** Command r. */
    method SetMargins(values: seq<nat>, count: nat)
      requires Sound() && |values| == MAX_ESC_VALUES
      modifies screen`scrollTop, screen`scrollBottom, screen`cursorX, screen`cursorY
      ensures Sound() && screen.TheView() == View(old(screen.Logical()), 0, 0)
      ensures Margins(screen.scrollTop, screen.scrollBottom) == NewMargins(screen.rows, values, count)
    {
      hide Screen.Valid, NewMargins;
      ChooseMargins(values, count);
      MarginsStayApart(screen.rows, values, count);
      SetCursor(0, 0);
    }

    method ChooseMargins(values: seq<nat>, count: nat)
      requires screen.rows >= 1 && |values| == MAX_ESC_VALUES
      modifies screen`scrollTop, screen`scrollBottom
      ensures Margins(screen.scrollTop, screen.scrollBottom) == NewMargins(screen.rows, values, count)
    {
      screen.scrollTop := 0;
      screen.scrollBottom := screen.rows;
      if count > 0 {
        screen.scrollTop := (if values[0] == 0 then 1 else values[0]) - 1;
      }
      if count > 1 {
        screen.scrollBottom := if values[1] == 0 then 1 else values[1];
      }
      if screen.scrollTop >= screen.rows || screen.scrollBottom > screen.rows ||
          screen.scrollTop >= screen.scrollBottom - 1 {
        screen.scrollTop := 0;
        screen.scrollBottom := screen.rows;
      }
    }

    // ----- flanterm_write ---------------------------------------------------

    /** flanterm_write: the terminal runs over the bytes one by one; with autoflush the result is on
        display when the call returns. On a fresh terminal with at most as many rows as columns a plain
        text shows as the expected picture of its glyphs, and one with line feeds as its last lines. */
    method Write(buf: seq<nat>)
      requires Valid() && Bytes(buf)
      modifies this, decoder, decoder.escValues, brush, screen, screen.queue, screen.index, screen.grid,
               screen.displayed
      ensures Valid() && decoder.TheState() == After(old(decoder.TheState()), buf)
      ensures Ran(tables, old(decoder.TheState()), old(TheTerm()), buf, TheTerm())
      ensures autoflush ==> screen.queueI == 0 && screen.displayed[..] == screen.Display(screen.Logical())
      ensures PlainTextShows(old(decoder.TheState()), old(TheTerm()), buf, TheTerm())
      ensures TypedTextShows(old(decoder.TheState()), old(TheTerm()), buf, TheTerm())
    {
      hide Screen.Valid, Screen.Display, Ran, PlainTextShows, TypedTextShows, After, Fits, Bytes;
      ghost var p0, t0 := decoder.TheState(), TheTerm();
      PutcharAll(buf);
      BlankTextShows(tables, p0, t0, buf, TheTerm());
      BlankTypedShows(tables, p0, t0, buf, TheTerm());
      if autoflush {
        screen.Flush();
      }
    }

    /** The loop of flanterm_write. */
    method PutcharAll(buf: seq<nat>)
      requires Valid() && Bytes(buf)
      modifies this, decoder, decoder.escValues, brush, screen, screen.queue, screen.index
      ensures Valid() && decoder.TheState() == After(old(decoder.TheState()), buf)
      ensures Ran(tables, old(decoder.TheState()), old(TheTerm()), buf, TheTerm())
    {
      hide Screen.Valid, Acts, Step;
      ghost var p0, t0 := decoder.TheState(), TheTerm();
      for i := 0 to |buf|
        invariant Valid() && decoder.TheState() == After(p0, buf[..i])
        invariant Ran(tables, p0, t0, buf[..i], TheTerm())
      {
        ghost var t := TheTerm();
        assert buf[..i + 1] == buf[..i] + [buf[i]];
        RunSnoc(p0, buf[..i], buf[i]);
        Putchar(buf[i]);
        RanNext(tables, p0, t0, buf, i, t, TheTerm());
      }
      assert buf[..|buf|] == buf;
    }
  }

  /** The terminal goes from `t` to `t'` over these bytes, each acted on as the parser decides. */
  ghost predicate Ran(tables: Tables, p: State, t: Term, buf: seq<nat>, t': Term)
    requires Parser.Ok(p) && Bytes(buf)
    decreases |buf|
  {
    if buf == [] then t' == t
    else
      var rest, c := buf[..|buf| - 1], buf[|buf| - 1];
      exists t1 :: Ran(tables, p, t, rest, t1) && Moves(tables, p, rest, c, t1, t')
  }

  /** One byte more after the bytes `rest`. */
  ghost predicate Moves(tables: Tables, p: State, rest: seq<nat>, c: nat, t: Term, t': Term)
    requires Parser.Ok(p) && Bytes(rest) && c < 256
  {
    && Fits(t.setup, t.view)
    && var (q, e) := Step(After(p, rest), c);
       Acts(tables, e, Active(q.charsets), t, t')
  }

  lemma RanNext(tables: Tables, p: State, t0: Term, buf: seq<nat>, i: nat, t: Term, t': Term)
    requires Parser.Ok(p) && Bytes(buf) && i < |buf| && Bytes(buf[..i]) && Bytes(buf[..i + 1])
    requires Ran(tables, p, t0, buf[..i], t) && Moves(tables, p, buf[..i], buf[i], t, t')
    ensures Ran(tables, p, t0, buf[..i + 1], t')
  {
    assert buf[..i + 1][..i] == buf[..i];
  }

  /** A plain text goes to the screen as the run of its glyphs, and touches nothing else. */
  lemma {:induction false} PlainTextPuts(tables: Tables, p: State, t: Term, buf: seq<nat>, t': Term)
    requires Parser.Ok(p) && Bytes(buf) && Ran(tables, p, t, buf, t') && PlainText(p, buf) && Fits(t.setup, t.view)
    requires !t.modes.insert
    ensures t' == t.(view := PutAll(t.setup, t.view, Glyphs(buf)))
    decreases |buf|
  {
    hide Acts, PutAll, RawPut, MadeRoom, Step;
    PutAllStep(t.setup, t.view, [], SPACE);
    if buf == [] {
      assert Glyphs(buf) == [];
    } else {
      var rest, c := buf[..|buf| - 1], buf[|buf| - 1];
      var t1 :| Ran(tables, p, t, rest, t1) && Moves(tables, p, rest, c, t1, t');
      PlainTextPuts(tables, p, t, rest, t1);
      PlainMoves(tables, p, rest, c, t1, t');
      PutAllStep(t.setup, t.view, Glyphs(rest), Glyph(c));
      assert Glyphs(rest) + [Glyph(c)] == Glyphs(buf);
    }
  }

  lemma PlainMoves(tables: Tables, p: State, rest: seq<nat>, c: nat, t: Term, t': Term)
    requires Parser.Ok(p) && Bytes(rest) && PlainText(p, rest) && IsPlain(p, c) && Moves(tables, p, rest, c, t, t')
    requires !t.modes.insert
    ensures t' == t.(view := RawPut(t.setup, t.view, Glyph(c)))
  {
    hide RawPut, MadeRoom, Step;
    PlainRun(p, rest);
    PlainStep(p, c);
  }

  /** A terminal as init leaves it. */
  predicate Blank(t: Term) {
    && FreshSetup(t.setup) && t.setup.rows < TWO_32 && t.setup.cols < TWO_32
    && t.view == View(AllBlank(t.setup), 0, 0) && !t.modes.insert
  }

  /** On a blank terminal with at most as many rows as columns a plain text shows as the expected
      picture of its glyphs. */
  predicate PlainTextShows(p: State, t: Term, buf: seq<nat>, t': Term)
    requires Parser.Ok(p)
  {
    PlainText(p, buf) && Blank(t) && t.setup.rows <= t.setup.cols ==>
        t'.setup == t.setup && t'.view == Expected(t.setup, Glyphs(buf))
  }

  lemma BlankTextShows(tables: Tables, p: State, t: Term, buf: seq<nat>, t': Term)
    requires Parser.Ok(p) && Bytes(buf) && Ran(tables, p, t, buf, t')
    ensures PlainTextShows(p, t, buf, t')
  {
    if PlainText(p, buf) && Blank(t) && t.setup.rows <= t.setup.cols {
      PlainTextPuts(tables, p, t, buf, t');
      PrintedIsExpected(t.setup, Glyphs(buf));
    }
  }

  /** A text with line feeds goes to the screen key by key, and touches nothing else. */
  lemma {:induction false} TypedTextTypes(tables: Tables, p: State, t: Term, buf: seq<nat>, t': Term)
    requires Parser.Ok(p) && Bytes(buf) && Ran(tables, p, t, buf, t') && TypedText(p, buf) && Fits(t.setup, t.view)
    requires !t.modes.insert && t.modes.onlcr
    ensures t' == t.(view := TypeAll(t.setup, t.view, Keys(buf)))
    decreases |buf|
  {
    hide Acts, TypeAll, Key, Step, Fits;
    TypeAllStep(t.setup, t.view, [], SPACE);
    if buf == [] {
      assert Keys(buf) == [];
    } else {
      var rest, c := buf[..|buf| - 1], buf[|buf| - 1];
      var t1 :| Ran(tables, p, t, rest, t1) && Moves(tables, p, rest, c, t1, t');
      TypedTextTypes(tables, p, t, rest, t1);
      TypedMoves(tables, p, rest, c, t1, t');
      TypeAllStep(t.setup, t.view, Keys(rest), KeyOf(c));
      assert Keys(rest) + [KeyOf(c)] == Keys(buf);
    }
  }

  lemma TypedMoves(tables: Tables, p: State, rest: seq<nat>, c: nat, t: Term, t': Term)
    requires Parser.Ok(p) && Bytes(rest) && TypedText(p, rest) && IsTyped(p, c) && c < 256
    requires Moves(tables, p, rest, c, t, t') && !t.modes.insert && t.modes.onlcr && Fits(t.setup, t.view)
    ensures t' == t.(view := Key(t.setup, t.view, KeyOf(c)))
  {
    hide RawPut, MadeRoom, LineFed, Step, Fits;
    TypedRun(p, rest);
    TypedStep(p, c);
  }

  /** On a blank terminal with at most as many rows as columns, or for a text of at most as many lines as there
      are columns, a text with line feeds shows as its last lines, split at the line feeds and at the width. */
  predicate TypedTextShows(p: State, t: Term, buf: seq<nat>, t': Term)
    requires Parser.Ok(p)
  {
    TypedText(p, buf) && Blank(t) && t.modes.onlcr &&
    (t.setup.rows <= t.setup.cols || |Lines(t.setup.cols, Keys(buf))| <= t.setup.cols) ==>
        t'.setup == t.setup && t'.view == Shown(t.setup, Lines(t.setup.cols, Keys(buf)))
  }

  lemma BlankTypedShows(tables: Tables, p: State, t: Term, buf: seq<nat>, t': Term)
    requires Parser.Ok(p) && Bytes(buf) && Ran(tables, p, t, buf, t')
    ensures TypedTextShows(p, t, buf, t')
  {
    hide Lines, Shown, Ran, Keys, TypeAll, Fits, AllBlank;
    if TypedText(p, buf) && Blank(t) && t.modes.onlcr &&
        (t.setup.rows <= t.setup.cols || |Lines(t.setup.cols, Keys(buf))| <= t.setup.cols) {
      BlankFits(t.setup);
      TypedTextTypes(tables, p, t, buf, t');
      TypedIsShown(t.setup, Keys(buf));
    }
  }

  // ----- sequences of bytes as commands --------------------------------------------

  /** Bytes that the parser passes in silence change nothing. */
  lemma {:induction false} RanSilent(tables: Tables, p: State, t: Term, buf: seq<nat>, t': Term)
    requires Parser.Ok(p) && Bytes(buf) && Silent(Events(p, buf)) && Ran(tables, p, t, buf, t')
    ensures t' == t
    decreases |buf|
  {
    hide Step, Fits, Commanded, Escaped;
    if buf == [] {
    } else {
      var rest, c := buf[..|buf| - 1], buf[|buf| - 1];
      var t1 :| Ran(tables, p, t, rest, t1) && Moves(tables, p, rest, c, t1, t');
      SilentFront(p, buf);
      RanSilent(tables, p, t, rest, t1);
    }
  }

  lemma SilentFront(p: State, buf: seq<nat>)
    requires Parser.Ok(p) && Bytes(buf) && buf != []
    ensures var rest, e := buf[..|buf| - 1], Step(After(p, buf[..|buf| - 1]), buf[|buf| - 1]).1;
            && Bytes(rest) && (Silent(Events(p, buf)) ==> Silent(Events(p, rest)) && e == Nothing)
            && forall last :: SilentBut(Events(p, buf), last) ==> Silent(Events(p, rest)) && e == last
  {
    hide Step;
    var rest, c := buf[..|buf| - 1], buf[|buf| - 1];
    assert rest + [c] == buf;
    RunSnoc(p, rest, c);
    SilentSnoc(Events(p, rest), Step(After(p, rest), c).1);
  }

  lemma SilentSnoc(es: seq<Event>, e: Event)
    ensures Silent(es + [e]) ==> Silent(es) && e == Nothing
    ensures forall last :: SilentBut(es + [e], last) ==> Silent(es) && e == last
  {
    assert forall i :: 0 <= i < |es| ==> (es + [e])[i] == es[i];
    assert (es + [e])[|es|] == e;
  }

  /** Bytes that dispatch once act once. */
  lemma RanOnce(tables: Tables, p: State, t: Term, buf: seq<nat>, e: Event, t': Term)
    requires Parser.Ok(p) && Bytes(buf) && SilentBut(Events(p, buf), e) && Ran(tables, p, t, buf, t')
    ensures Fits(t.setup, t.view) && Acts(tables, e, Active(After(p, buf).charsets), t, t')
  {
    hide Step, Fits, Acts, Commanded, Escaped, Events;
    var rest, c := buf[..|buf| - 1], buf[|buf| - 1];
    var t1 :| Ran(tables, p, t, rest, t1) && Moves(tables, p, rest, c, t1, t');
    SilentFront(p, buf);
    RanSilent(tables, p, t, rest, t1);
  }

  /** A control sequence sent to an idle terminal is carried out once, with the numbers sent. */
  lemma SequenceRuns(tables: Tables, p: State, t: Term, params: seq<nat>, c: nat, t': Term)
    requires Idle(p) && !p.decPrivate && IsFinal(params, c) && forall i :: 0 <= i < |params| ==> params[i] < TWO_32
    requires Ran(tables, p, t, CsiBytes(params, c), t')
    ensures Fits(t.setup, t.view)
    ensures Commanded(tables.palette, c, Sent(params, c), if |params| < 16 then |params| else 16, t, t')
  {
    hide Step, Fits, Commanded, Sent, CsiBytes, Events, SilentBut, Ran;
    CsiRoundTrip(p, params, c);
    var n := if |params| < 16 then |params| else 16;
    RanOnce(tables, p, t, CsiBytes(params, c), Csi(false, c, Sent(params, c), n), t');
  }

  /** ESC [ row ; column H goes there, counted from 1, and touches nothing else. */
  lemma PositionSent(tables: Tables, p: State, t: Term, row: nat, col: nat, t': Term)
    requires Idle(p) && !p.decPrivate && Fits(t.setup, t.view) && 1 <= row <= t.setup.rows && 1 <= col <= t.setup.cols
    requires Ran(tables, p, t, CsiBytes([row, col], 'H' as nat), t')
    ensures t' == t.(view := View(t.view.cells, col - 1, row - 1))
  {
    hide CsiBytes, Command, CommandModes, Ran, Selected;
    SequenceRuns(tables, p, t, [row, col], 'H' as nat, t');
    var values := Sent([row, col], 'H' as nat);
    PositionCommands(t.setup.(scroll := false), t.view, t.modes.savedX, t.modes.savedY, values);
  }

  /** ESC [ and up to 16 numbers and m set colours and attributes as the selection of these numbers does. */
  lemma GraphicsSent(tables: Tables, p: State, t: Term, params: seq<nat>, t': Term)
    requires Idle(p) && !p.decPrivate && |params| <= 16 && forall i :: 0 <= i < |params| ==> params[i] < TWO_32
    requires Ran(tables, p, t, CsiBytes(params, 'm' as nat), t')
    ensures var pen := Selected(tables.palette, Pen(t.setup.fg, t.setup.bg, t.modes.look), params);
            t' == t.(setup := t.setup.(fg := pen.fg, bg := pen.bg), modes := t.modes.(look := pen.look))
  {
    hide CsiBytes, Command, Ran, Selected;
    SequenceRuns(tables, p, t, params, 'm' as nat, t');
    var values := Sent(params, 'm' as nat);
    assert values[..|params|] == params;
    OtherCommands(t.setup.(scroll := false), t.view, t.modes.savedX, t.modes.savedY, 'm' as nat, values);
  }

  /** ESC [ first ; last r sets the scroll region to these rows, counted from 1, and goes home. */
  lemma MarginsSent(tables: Tables, p: State, t: Term, first: nat, last: nat, t': Term)
    requires Idle(p) && !p.decPrivate && Fits(t.setup, t.view) && 1 <= first < last <= t.setup.rows
    requires Ran(tables, p, t, CsiBytes([first, last], 'r' as nat), t')
    ensures t' == t.(setup := t.setup.(top := first - 1, bottom := last), view := View(t.view.cells, 0, 0))
  {
    hide CsiBytes, Command, Ran, Selected, NewMargins;
    SequenceRuns(tables, p, t, [first, last], 'r' as nat, t');
    var values := Sent([first, last], 'r' as nat);
    MarginsTaken(t.setup.rows, values, 2);
    OtherCommands(t.setup.(scroll := false), t.view, t.modes.savedX, t.modes.savedY, 'r' as nat, values);
  }

  /** ESC [ ? 25 h shows the cursor and ESC [ ? 25 l hides it; every other private sequence does nothing. */
  lemma CursorSwitched(tables: Tables, p: State, t: Term, params: seq<nat>, c: nat, t': Term)
    requires Idle(p) && IsFinal(params, c) && forall i :: 0 <= i < |params| ==> params[i] < TWO_32
    requires Ran(tables, p, t, PrivateBytes(params, c), t')
    ensures params != [] && params[0] == 25 && c == 'h' as nat ==> t' == t.(modes := t.modes.(cursorEnabled := true))
    ensures params != [] && params[0] == 25 && c == 'l' as nat ==> t' == t.(modes := t.modes.(cursorEnabled := false))
    ensures params == [] || params[0] != 25 || c !in ['h' as nat, 'l' as nat] ==> t' == t
  {
    hide Step, Fits, PrivateBytes, Events, SilentBut, Ran;
    PrivateRoundTrip(p, params, c);
    var n := if |params| < 16 then |params| else 16;
    RanOnce(tables, p, t, PrivateBytes(params, c), Csi(true, c, Sent(params, c), n), t');
  }

  /** An escape sent to an idle terminal is carried out once. */
  lemma EscapeRuns(tables: Tables, p: State, t: Term, c: nat, t': Term)
    requires Idle(p) && c < 256 && c !in ['[' as nat, ']' as nat, '(' as nat, ')' as nat, 'c' as nat, CAN, SUB]
    requires !StartsUnicode(c) && Ran(tables, p, t, [ESC, c], t')
    ensures Fits(t.setup, t.view) && Escaped(c, t, t')
  {
    hide Step, Fits, Escaped, Events, SilentBut, Ran;
    EscapeRead(p, c);
    RanOnce(tables, p, t, [ESC, c], Event.Escape(c), t');
  }

  /** ESC c leaves a blank terminal, as init does, with every mode at its default; the colours stay. */
  lemma ResetSent(tables: Tables, p: State, t: Term, t': Term)
    requires Idle(p) && Ran(tables, p, t, [ESC, 'c' as nat], t')
    ensures Blank(t') && t'.modes.onlcr && t'.modes.autoflush && t'.modes.cursorEnabled && t'.modes.look == PLAIN
    ensures t'.setup.rows == t.setup.rows && t'.setup.cols == t.setup.cols
    ensures t'.setup.fg == t.setup.fg && t'.setup.bg == t.setup.bg
    ensures forall i :: 0 <= i < |t'.view.cells| ==> t'.view.cells[i] == Cell(0x20, t.setup.fg, t.setup.bg)
  {
    hide Step, Events, SilentBut, Ran, EscapeView;
    ResetRead(p);
    RanOnce(tables, p, t, [ESC, 'c' as nat], Event.Escape('c' as nat), t');
  }

  /** ESC D and ESC E feed a line, E from the first column; ESC M feeds one back; other letters do nothing. */
  lemma FeedsSent(tables: Tables, p: State, t: Term, t': Term)
    requires Idle(p)
    ensures Ran(tables, p, t, [ESC, 'D' as nat], t') ==>
              Fits(t.setup, t.view) && t' == t.(view := LineFed(t.setup, t.view, CursorX(t.setup, t.view)))
    ensures Ran(tables, p, t, [ESC, 'E' as nat], t') ==>
              Fits(t.setup, t.view) && t' == t.(view := LineFed(t.setup, t.view, 0))
    ensures Ran(tables, p, t, [ESC, 'M' as nat], t') ==>
              Fits(t.setup, t.view) && t' == t.(view := LineFedBack(t.setup, t.view))
  {
    hide Fits, Ran, LineFed, LineFedBack;
    if Ran(tables, p, t, [ESC, 'D' as nat], t') {
      EscapeRuns(tables, p, t, 'D' as nat, t');
    }
    if Ran(tables, p, t, [ESC, 'E' as nat], t') {
      EscapeRuns(tables, p, t, 'E' as nat, t');
    }
    if Ran(tables, p, t, [ESC, 'M' as nat], t') {
      EscapeRuns(tables, p, t, 'M' as nat, t');
    }
  }

  /** What ESC 7 saves, ESC 8 restores, whatever was done to cursor, colours and text in between: the cursor, a
      pending wrap included, the colours and the attributes. The text and the margins stay as they are. */
  lemma SavedAndRestored(tables: Tables, p: State, t: Term, t1: Term, q: State, t2: Term, t3: Term)
    requires Idle(p) && Idle(q)
    requires Ran(tables, p, t, [ESC, '7' as nat], t1) && Ran(tables, q, t2, [ESC, '8' as nat], t3)
    requires var a, b := t1.modes, t2.modes;
             && a.stateX == b.stateX && a.stateY == b.stateY && a.stateFg == b.stateFg && a.stateBg == b.stateBg
             && a.stateLook == b.stateLook
    ensures t3.view == View(t2.view.cells, t.view.x, t.view.y)
    ensures t3.setup == t2.setup.(fg := t.setup.fg, bg := t.setup.bg) && t3.modes == t2.modes.(look := t.modes.look)
  {
    hide Fits, Ran, EscapeView;
    EscapeRuns(tables, p, t, '7' as nat, t1);
    EscapeRuns(tables, q, t2, '8' as nat, t3);
  }

  /** Commands s and u save and restore the position alone. */
  lemma PositionSaved(palette: Palette, values: seq<nat>, count: nat, t: Term, t1: Term, t2: Term, t3: Term)
    requires Fits(t.setup, t.view) && Fits(t2.setup, t2.view) && |values| >= 2 && count <= |values|
    requires Commanded(palette, 's' as nat, values, count, t, t1)
    requires Commanded(palette, 'u' as nat, values, count, t2, t3)
    requires t1.modes.savedX == t2.modes.savedX && t1.modes.savedY == t2.modes.savedY
    requires t2.setup.rows == t.setup.rows && t2.setup.cols == t.setup.cols
    ensures t1.view == t.view && t1.setup == t.setup
    ensures t3 == t2.(view := View(t2.view.cells, CursorX(t.setup, t.view), CursorY(t.setup, t.view)))
  {
    hide Selected, Edited;
    OtherCommands(t.setup.(scroll := false), t.view, t.modes.savedX, t.modes.savedY, 's' as nat, values);
    PositionCommands(t2.setup.(scroll := false), t2.view, t2.modes.savedX, t2.modes.savedY, values);
    hide Command;
  }

  /** Insert mode is on after 4 h and off after 4 l; these commands change nothing else. */
  lemma InsertSwitched(palette: Palette, values: seq<nat>, count: nat, t: Term, t': Term)
    requires Fits(t.setup, t.view) && |values| >= 2 && 1 <= count <= |values|
    ensures Commanded(palette, 'h' as nat, values, count, t, t') ==>
              t' == if values[0] == 4 then t.(modes := t.modes.(insert := true)) else t
    ensures Commanded(palette, 'l' as nat, values, count, t, t') ==>
              t' == if values[0] == 4 then t.(modes := t.modes.(insert := false)) else t
  {
    hide Selected, Edited;
    OtherCommands(t.setup.(scroll := false), t.view, t.modes.savedX, t.modes.savedY, 'h' as nat, values);
    OtherCommands(t.setup.(scroll := false), t.view, t.modes.savedX, t.modes.savedY, 'l' as nat, values);
  }

  // ----- glyphs -------------------------------------------------------------------

  /** On a fresh terminal the printable characters of ASCII, and line feeds, are typed as themselves. */
  lemma AsciiTyped(buf: seq<nat>)
    requires forall i :: 0 <= i < |buf| ==> 0x20 <= buf[i] < 0x7f || buf[i] == 10
    ensures TypedText(Fresh(), buf) && Keys(buf) == buf
  {
  }

  /** With the line drawing set in use, q and x are lines and upper-case letters stand for themselves. */
  lemma LinesDrawn(c: nat)
    ensures GlyphIn(DecSpecial, 'q' as nat) == 0xc4 && GlyphIn(DecSpecial, 'x' as nat) == 0xb3
    ensures 0x41 <= c <= 0x5a ==> GlyphIn(DecSpecial, c) == c
    ensures 0x20 <= c <= 0x7e ==> GlyphIn(Default, c) == c
    ensures c < 0x20 || c > 0x7e ==> GlyphIn(Default, c) == 0xfe
  {
  }

  /** A code point takes as many columns as it is wide, or one where the code page has it. */
  lemma CodePointWidth(cc: int, width: nat)
    ensures cc >= 0 ==> CodePointGlyphs(cc, width) == [cc]
    ensures cc < 0 ==> |CodePointGlyphs(cc, width)| == width
    ensures cc < 0 && width > 0 ==> CodePointGlyphs(cc, width)[0] == 0xfe
    ensures forall i :: 0 < i < |CodePointGlyphs(cc, width)| ==> CodePointGlyphs(cc, width)[i] == 0x20
  {
  }
}
