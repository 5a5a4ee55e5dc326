/** Text colours (sgr in src/flanterm/flanterm.c, set_text_fg and its kin in backends/fb.c): the attributes
    that select-graphics codes set, the two colours that characters are drawn in, and when the one still
    tells the other. */
module Colours {
  import opened Common

  /** The background colour that stands for whatever lies behind the text. */
  const TRANSPARENT: nat := 0xffff_ffff

  type Colour = c: nat | c < 8

  type EightColours = s: seq<nat> | |s| == 8 witness [0, 0, 0, 0, 0, 0, 0, 0]

  /** The colour tables of a screen: `extended` is the table of colours 16 to 255, `convert` the encoding
      of red, green and blue. */
  datatype Palette = Palette(ansi: EightColours, bright: EightColours, defaultFg: nat, defaultFgBright: nat,
                             defaultBgBright: nat, extended: nat -> nat, convert: nat -> nat)

  /** The attributes; no colour stands for the default one. */
  datatype Look = Look(bold: bool, bgBold: bool, reverse: bool, primary: Option<Colour>, back: Option<Colour>)

  const PLAIN: Look := Look(false, false, false, None, None)

  /** What zeroed memory stands for: colour number 0 on both sides. */
  const ZEROED: Look := Look(false, false, false, Some(0), Some(0))

  datatype Pen = Pen(fg: nat, bg: nat, look: Look) {
    /** Sets the colour in which reverse video shows the primary colour. */
    function WithFront(c: nat): Pen { if look.reverse then this.(bg := c) else this.(fg := c) }

    function WithBack(c: nat): Pen { if look.reverse then this.(fg := c) else this.(bg := c) }

    function Swapped(): Pen { this.(fg := bg, bg := fg) }
  }

  function DefaultPen(p: Palette): Pen {
    Pen(p.defaultFg, TRANSPARENT, PLAIN)
  }

  /** One code of a selection, 38 and 48 excepted. */
  function SelectOne(p: Palette, pen: Pen, v: nat): Pen {
    var l := pen.look;
    if v == 0 then DefaultPen(p)
    else if v == 1 then
      pen.(look := l.(bold := true)).WithFront(
        if l.primary.Some? then p.bright[l.primary.value]
        else if l.reverse then p.defaultBgBright
        else p.defaultFgBright)
    else if v == 5 then
      pen.(look := l.(bgBold := true)).WithBack(
        if l.back.Some? then p.bright[l.back.value]
        else if l.reverse then p.defaultFgBright
        else p.defaultBgBright)
    else if v == 22 then
      pen.(look := l.(bold := false)).WithFront(
        if l.primary.Some? then p.ansi[l.primary.value] else if l.reverse then TRANSPARENT else p.defaultFg)
    else if v == 25 then
      pen.(look := l.(bgBold := false)).WithBack(
        if l.back.Some? then p.ansi[l.back.value] else if l.reverse then p.defaultFg else TRANSPARENT)
    else if 30 <= v <= 37 then
      pen.(look := l.(primary := Some(v - 30))).WithFront((if l.bold then p.bright else p.ansi)[v - 30])
    else if 40 <= v <= 47 then
      pen.(look := l.(back := Some(v - 40))).WithBack((if l.bgBold then p.bright else p.ansi)[v - 40])
    else if 90 <= v <= 97 then pen.(look := l.(primary := Some(v - 90))).WithFront(p.bright[v - 90])
    else if 100 <= v <= 107 then pen.(look := l.(back := Some(v - 100))).WithBack(p.bright[v - 100])
    else if v == 39 then pen.(look := l.(primary := None)).WithFront(if l.bold then p.defaultFgBright else p.defaultFg)
    else if v == 49 then pen.(look := l.(back := None)).WithBack(if l.bgBold then p.defaultBgBright else TRANSPARENT)
    else if (v == 7 && !l.reverse) || (v == 27 && l.reverse) then pen.(look := l.(reverse := v == 7)).Swapped()
    else pen
  }

  /** Which code sets which attribute: 1 and 22 switch bold, 5 and 25 the bright background, 7 and 27 reverse
      video, 30 to 37 and 90 to 97 name the primary colour, 40 to 47 and 100 to 107 the background, 39 and 49
      clear them, 0 clears all; every other attribute stays, and no other code sets any. */
  lemma AttributeSet(p: Palette, pen: Pen, v: nat)
    ensures SelectOne(p, pen, v).look ==
            match v
            case 0 => Look(false, false, false, None, None)
            case 1 => pen.look.(bold := true)
            case 22 => pen.look.(bold := false)
            case 5 => pen.look.(bgBold := true)
            case 25 => pen.look.(bgBold := false)
            case 7 => pen.look.(reverse := true)
            case 27 => pen.look.(reverse := false)
            case 39 => pen.look.(primary := None)
            case 49 => pen.look.(back := None)
            case _ =>
              if 30 <= v < 38 then pen.look.(primary := Some(v - 30))
              else if 40 <= v < 48 then pen.look.(back := Some(v - 40))
              else if 90 <= v < 98 then pen.look.(primary := Some(v - 90))
              else if 100 <= v < 108 then pen.look.(back := Some(v - 100))
              else pen.look
  {
  }

  /** And in reverse video off, which colours follow: a colour named is the character's or the background's,
      bright for 90 to 107 and for a colour named while its side is bright. */
  lemma ColourSet(p: Palette, pen: Pen, k: Colour)
    requires !pen.look.reverse
    ensures var one := (v: nat) => SelectOne(p, pen, v);
            && one(30 + k).fg == (if pen.look.bold then p.bright[k] else p.ansi[k]) && one(30 + k).bg == pen.bg
            && one(40 + k).bg == (if pen.look.bgBold then p.bright[k] else p.ansi[k]) && one(40 + k).fg == pen.fg
            && one(90 + k).fg == p.bright[k] && one(90 + k).bg == pen.bg
            && one(100 + k).bg == p.bright[k] && one(100 + k).fg == pen.fg
            && one(0).fg == p.defaultFg && one(0).bg == 0xffff_ffff
            && one(7).fg == pen.bg && one(7).bg == pen.fg && one(27) == pen
  {
  }

  /** The RGB value of a 38;2 selection: three values shifted and joined in 32 bits. */
  function Rgb(r: nat, g: nat, b: nat): nat {
    (((r % TWO_32) as bv32 << 16) | ((g % TWO_32) as bv32 << 8) | (b % TWO_32) as bv32) as nat
  }

  /** Red comes highest, blue lowest. */
  lemma RgbOrder()
    ensures Rgb(0x12, 0x34, 0x56) == 0x12_3456
  {
  }

  /** Codes 38 and 48 set a colour itself and no attribute. */
  function Direct(pen: Pen, fg: bool, c: nat): Pen {
    if fg then pen.(fg := c) else pen.(bg := c)
  }

  /** The colour of a 38;5 selection, unless the number is too large. */
  function Indexed(p: Palette, n: nat): Option<nat> {
    if n < 8 then Some(p.ansi[n])
    else if n < 16 then Some(p.bright[n - 8])
    else if n < 256 then Some(p.convert(p.extended(n)))
    else None
  }

  /** A selection from its i-th number on; 38 and 48 read on, and end it when numbers are missing. */
  function SelectFrom(p: Palette, pen: Pen, values: seq<nat>, i: nat): Pen
    decreases |values| - i
  {
    if i >= |values| then pen
    else if values[i] != 38 && values[i] != 48 then SelectFrom(p, SelectOne(p, pen, values[i]), values, i + 1)
    else if i + 1 >= |values| then pen
    else if values[i + 1] == 2 then
      if i + 4 >= |values| then pen
      else
        var c := p.convert(Rgb(values[i + 2], values[i + 3], values[i + 4]));
        SelectFrom(p, Direct(pen, values[i] == 38, c), values, i + 5)
    else if values[i + 1] == 5 then
      if i + 2 >= |values| then pen
      else
        var c := Indexed(p, values[i + 2]);
        SelectFrom(p, if c.Some? then Direct(pen, values[i] == 38, c.value) else pen, values, i + 3)
    else SelectFrom(p, pen, values, i + 2)
  }

  /** sgr: without numbers it is a reset. */
  function Selected(p: Palette, pen: Pen, values: seq<nat>): Pen
  {
    if values == [] then DefaultPen(p) else SelectFrom(p, pen, values, 0)
  }

  /** 38 sets the character's colour and 48 the background's, reverse video or not, from a colour number or from
      red, green and blue; a number past 255 sets nothing. */
  lemma ColourByNumber(p: Palette, pen: Pen, code: nat, n: nat)
    requires code == 38 || code == 48
    ensures var c := if n < 8 then p.ansi[n] else if n < 16 then p.bright[n - 8] else p.convert(p.extended(n));
            Selected(p, pen, [code, 5, n]) ==
            if n >= 256 then pen else if code == 38 then pen.(fg := c) else pen.(bg := c)
  {
    hide SelectOne;
    var values := [code, 5, n];
    var c := Indexed(p, n);
    var after := if c.Some? then Direct(pen, code == 38, c.value) else pen;
    assert SelectFrom(p, pen, values, 0) == SelectFrom(p, after, values, 3);
  }

  /** Any other number after 38 or 48 is passed over with it. */
  lemma OtherKindSkipped(p: Palette, pen: Pen, code: nat, kind: nat, v: nat)
    requires (code == 38 || code == 48) && kind != 2 && kind != 5 && v != 38 && v != 48
    ensures Selected(p, pen, [code, kind]) == pen && Selected(p, pen, [code, kind, v]) == SelectOne(p, pen, v)
  {
    hide SelectOne;
    var values := [code, kind, v];
    assert SelectFrom(p, pen, values, 0) == SelectFrom(p, pen, values, 2) ==
        SelectFrom(p, SelectOne(p, pen, v), values, 3);
    assert SelectFrom(p, pen, [code, kind], 0) == SelectFrom(p, pen, [code, kind], 2);
  }

  lemma ColourByParts(p: Palette, pen: Pen, code: nat, r: nat, g: nat, b: nat)
    requires code == 38 || code == 48
    ensures var c := p.convert(Rgb(r, g, b));
            Selected(p, pen, [code, 2, r, g, b]) == if code == 38 then pen.(fg := c) else pen.(bg := c)
  {
    hide SelectOne, Rgb;
    var values := [code, 2, r, g, b];
    assert SelectFrom(p, pen, values, 0) == SelectFrom(p, Direct(pen, code == 38, p.convert(Rgb(r, g, b))), values, 5);
  }

  // ----- do the attributes tell the colours? ----------------------------------

  function Front(p: Palette, l: Look): nat {
    match l.primary
    case Some(c) => (if l.bold then p.bright else p.ansi)[c]
    case None => if l.bold then p.defaultFgBright else p.defaultFg
  }

  function Back(p: Palette, l: Look): nat {
    match l.back
    case Some(c) => (if l.bgBold then p.bright else p.ansi)[c]
    case None => if l.bgBold then p.defaultBgBright else TRANSPARENT
  }

  /** The pen that the attributes describe. */
  function Described(p: Palette, l: Look): Pen {
    if l.reverse then Pen(Back(p, l), Front(p, l), l) else Pen(Front(p, l), Back(p, l), l)
  }

  /** Brightness changes go wrong for a default colour shown in reverse, where the default of the other
      side is taken; bright colours are described only where the attribute is set as well. */
  predicate Steady(l: Look, v: nat) {
    && ((v == 1 || v == 22) && l.reverse ==> l.primary.Some?)
    && ((v == 5 || v == 25) && l.reverse ==> l.back.Some?)
    && (90 <= v <= 97 ==> l.bold)
    && (100 <= v <= 107 ==> l.bgBold)
  }

  /** A palette without two equal colours, to tell them apart. */
  const DISTINCT: Palette :=
    Palette([1, 2, 3, 4, 5, 6, 7, 8], [11, 12, 13, 14, 15, 16, 17, 18], 21, 22, 23, n => n, n => n)

  /** A code leaves the pen as its attributes describe it, whatever the palette, exactly when it is steady. */
  lemma DescribedExactlyWhen(l: Look, v: nat)
    ensures (forall p: Palette :: var pen := SelectOne(p, Described(p, l), v); pen == Described(p, pen.look)) <==>
            Steady(l, v)
  {
    if Steady(l, v) {
      forall p: Palette ensures var pen := SelectOne(p, Described(p, l), v); pen == Described(p, pen.look) {
        SteadyStays(p, l, v);
      }
    } else {
      UnsteadyShows(l, v);
    }
  }

  lemma SteadyStays(p: Palette, l: Look, v: nat)
    requires Steady(l, v)
    ensures var pen := SelectOne(p, Described(p, l), v); pen == Described(p, pen.look)
  {
    if v == 1 || v == 5 || v == 22 || v == 25 {
    } else if l.reverse {
    } else {
    }
  }

  lemma UnsteadyShows(l: Look, v: nat)
    requires !Steady(l, v)
    ensures var pen := SelectOne(DISTINCT, Described(DISTINCT, l), v); pen != Described(DISTINCT, pen.look)
  {
    if l.reverse {
    } else {
    }
  }

  /** Every code of the selection, none of them 38 or 48, is steady where it takes effect. */
  predicate SteadyFrom(l: Look, values: seq<nat>, i: nat)
    decreases |values| - i
  {
    i >= |values| ||
    (values[i] != 38 && values[i] != 48 && Steady(l, values[i]) && SteadyFrom(LookAfter(l, values[i]), values, i + 1))
  }

  /** The attributes move on their own, without the colours. */
  function LookAfter(l: Look, v: nat): Look {
    SelectOne(DISTINCT, Pen(0, 0, l), v).look
  }

  lemma LookMoves(p: Palette, pen: Pen, v: nat)
    ensures SelectOne(p, pen, v).look == LookAfter(pen.look, v)
  {
  }

  /** Through such a selection the attributes go on describing the pen. */
  lemma {:induction false} SelectionDescribed(p: Palette, l: Look, values: seq<nat>, i: nat)
    requires SteadyFrom(l, values, i)
    ensures var pen := SelectFrom(p, Described(p, l), values, i); pen == Described(p, pen.look)
    decreases |values| - i
  {
    if i >= |values| {
    } else {
      LookMoves(p, Described(p, l), values[i]);
      SteadyStays(p, l, values[i]);
      SelectionDescribed(p, LookAfter(l, values[i]), values, i + 1);
    }
  }

  /** Reading `values` from the i-th on ends at their own end: no 38 or 48 reads past it or gives up. */
  predicate Complete(values: seq<nat>, i: nat)
    decreases |values| - i
  {
    if i >= |values| then i == |values|
    else if values[i] != 38 && values[i] != 48 then Complete(values, i + 1)
    else
      && i + 1 < |values|
      && if values[i + 1] == 2 then i + 4 < |values| && Complete(values, i + 5)
         else if values[i + 1] == 5 then i + 2 < |values| && Complete(values, i + 3)
         else Complete(values, i + 2)
  }

  /** A selection may be given in pieces, each but the last read to its end. */
  lemma {:induction false} SelectConcat(p: Palette, pen: Pen, a: seq<nat>, b: seq<nat>, i: nat)
    requires Complete(a, i)
    ensures SelectFrom(p, pen, a + b, i) == SelectFrom(p, SelectFrom(p, pen, a, i), b, 0)
    decreases |a| - i
  {
    if i == |a| {
      SelectShift(p, pen, a, b, 0);
    } else if a[i] != 38 && a[i] != 48 {
      SelectConcat(p, SelectOne(p, pen, a[i]), a, b, i + 1);
    } else if a[i + 1] == 2 {
      SelectConcat(p, Direct(pen, a[i] == 38, p.convert(Rgb(a[i + 2], a[i + 3], a[i + 4]))), a, b, i + 5);
    } else if a[i + 1] == 5 {
      var c := Indexed(p, a[i + 2]);
      SelectConcat(p, if c.Some? then Direct(pen, a[i] == 38, c.value) else pen, a, b, i + 3);
    } else {
      SelectConcat(p, pen, a, b, i + 2);
    }
  }

  lemma {:induction false} SelectShift(p: Palette, pen: Pen, a: seq<nat>, b: seq<nat>, i: nat)
    ensures SelectFrom(p, pen, a + b, |a| + i) == SelectFrom(p, pen, b, i)
    decreases |b| - i
  {
    if i >= |b| {
    } else {
      assert forall k :: 0 <= k < |b| ==> (a + b)[|a| + k] == b[k];
      if b[i] != 38 && b[i] != 48 {
        SelectShift(p, SelectOne(p, pen, b[i]), a, b, i + 1);
      } else if i + 1 >= |b| {
      } else if b[i + 1] == 2 {
        if i + 4 < |b| {
          SelectShift(p, Direct(pen, b[i] == 38, p.convert(Rgb(b[i + 2], b[i + 3], b[i + 4]))), a, b, i + 5);
        }
      } else if b[i + 1] == 5 {
        if i + 2 < |b| {
          var c := Indexed(p, b[i + 2]);
          SelectShift(p, if c.Some? then Direct(pen, b[i] == 38, c.value) else pen, a, b, i + 3);
        }
      } else {
        SelectShift(p, pen, a, b, i + 2);
      }
    }
  }

  /** Whatever was selected before, if it was read to its end, a reset gives the default pen. */
  lemma ResetIsDefault(p: Palette, pen: Pen, values: seq<nat>)
    requires Complete(values, 0)
    ensures Selected(p, pen, values + [0]) == DefaultPen(p)
  {
    SelectConcat(p, pen, values, [0], 0);
    assert SelectFrom(p, SelectFrom(p, pen, values, 0), [0], 0) == DefaultPen(p);
  }

  /** Otherwise it may be taken for a colour number: 38;5;0 selects colour 0 and resets nothing. */
  lemma ResetSwallowed(p: Palette, pen: Pen)
    ensures !Complete([38, 5], 0) && Selected(p, pen, [38, 5] + [0]) == pen.(fg := p.ansi[0])
  {
    var values := [38, 5] + [0];
    assert values[0] == 38 && values[1] == 5 && values[2] == 0;
    assert SelectFrom(p, pen, values, 0) == SelectFrom(p, Direct(pen, true, p.ansi[0]), values, 3);
  }

  /** A colour selected by number is no attribute: the next change of brightness forgets it, in reverse
      video it lands on the other side. */
  lemma IndexedForgotten(p: Palette, pen: Pen, n: nat, v: nat)
    requires v in {1, 22}
    ensures SelectFrom(p, pen, [38, 5, n, v], 0) ==
            if pen.look.reverse && Indexed(p, n).Some? then Direct(SelectOne(p, pen, v), true, Indexed(p, n).value)
            else SelectOne(p, pen, v)
  {
    var values := [38, 5, n, v];
    var c := Indexed(p, n);
    var now := if c.Some? then Direct(pen, true, c.value) else pen;
    assert SelectFrom(p, pen, values, 0) == SelectFrom(p, now, values, 3) ==
        SelectFrom(p, SelectOne(p, now, v), values, 4);
  }

  /** ESC c clears the attributes and leaves the colours: they describe the pen only if it had the default
      colours already. */
  lemma ReinitDescribed(p: Palette, pen: Pen)
    ensures pen.(look := PLAIN) == Described(p, PLAIN) <==> pen.fg == p.defaultFg && pen.bg == TRANSPARENT
  {
  }

  /** The attribute fields of the context, and their saved copies. */
  class Brush {
    const palette: Palette
    var bold: bool
    var bgBold: bool
    var reverseVideo: bool
    var currentPrimary: Option<Colour>
    var currentBg: Option<Colour>
    var saved: Look

    ghost function TheLook(): Look
      reads this
    {
      Look(bold, bgBold, reverseVideo, currentPrimary, currentBg)
    }

    constructor (palette: Palette)
      ensures this.palette == palette && TheLook() == PLAIN && saved == ZEROED
    {
      this.palette := palette;
      bold, bgBold, reverseVideo, currentPrimary, currentBg, saved := false, false, false, None, None, ZEROED;
    }

    /** The part of flanterm_context_reinit. */
    method Reinit()
      modifies this
      ensures TheLook() == PLAIN && saved == old(saved)
    {
      bold, bgBold, reverseVideo, currentPrimary, currentBg := false, false, false, None, None;
    }

    method Save()
      modifies this`saved
      ensures saved == TheLook()
    {
      saved := Look(bold, bgBold, reverseVideo, currentPrimary, currentBg);
    }

    method Restore()
      modifies this
      ensures TheLook() == saved == old(saved)
    {
      bold, bgBold, reverseVideo, currentPrimary, currentBg :=
          saved.bold, saved.bgBold, saved.reverse, saved.primary, saved.back;
    }

    /** sgr, for text colours that are `fg0` and `bg0` before. */
    method Select(values: seq<nat>, fg0: nat, bg0: nat) returns (fg: nat, bg: nat)
      modifies this
      ensures saved == old(saved) && Pen(fg, bg, TheLook()) == Selected(palette, Pen(fg0, bg0, old(TheLook())), values)
    {
      hide SelectOne, Direct, Rgb, Indexed;
      fg, bg := fg0, bg0;
      if values == [] {
        fg, bg := Reset();
        return;
      }
      var i := 0;
      ghost var pen := Pen(fg0, bg0, TheLook());
      while i < |values|
        invariant saved == old(saved)
        invariant SelectFrom(palette, Pen(fg, bg, TheLook()), values, i) == SelectFrom(palette, pen, values, 0)
        decreases |values| - i
      {
        if values[i] != 38 && values[i] != 48 {
          fg, bg := Code(values[i], fg, bg);
        } else {
          var isFg := values[i] == 38;
          i := i + 1;
          if i >= |values| {
            break;
          }
          if values[i] == 2 {
            if i + 3 >= |values| {
              return;
            }
            fg, bg := SetText(isFg, palette.convert(Rgb(values[i + 1], values[i + 2], values[i + 3])), fg, bg);
            i := i + 3;
          } else if values[i] == 5 {
            if i + 1 >= |values| {
              return;
            }
            var c := Indexed(palette, values[i + 1]);
            if c.Some? {
              fg, bg := SetText(isFg, c.value, fg, bg);
            }
            i := i + 1;
          }
        }
        i := i + 1;
      }
    }

    /** One of set_text_fg and set_text_bg. */
    method SetText(isFg: bool, c: nat, fg0: nat, bg0: nat) returns (fg: nat, bg: nat)
      ensures forall l :: Pen(fg, bg, l) == Direct(Pen(fg0, bg0, l), isFg, c)
    {
      fg, bg := if isFg then c else fg0, if isFg then bg0 else c;
    }

    method Reset() returns (fg: nat, bg: nat)
      modifies this`bold, this`bgBold, this`reverseVideo, this`currentPrimary, this`currentBg
      ensures Pen(fg, bg, TheLook()) == DefaultPen(palette)
    {
      reverseVideo := false;
      bold := false;
      bgBold := false;
      currentPrimary := None;
      currentBg := None;
      bg := TRANSPARENT;
      fg := palette.defaultFg;
    }

    /** The branches of sgr on one number. */
    method Code(v: nat, fg0: nat, bg0: nat) returns (fg: nat, bg: nat)
      modifies this`bold, this`bgBold, this`reverseVideo, this`currentPrimary, this`currentBg
      ensures Pen(fg, bg, TheLook()) == SelectOne(palette, Pen(fg0, bg0, old(TheLook())), v)
    {
      fg, bg := fg0, bg0;
      if v == 0 {
        fg, bg := Reset();
      } else if v == 1 || v == 5 || v == 22 || v == 25 {
        fg, bg := Brightness(v, fg, bg);
      } else if 30 <= v <= 37 {
        currentPrimary := Some(v - 30);
        fg, bg := SetText(!reverseVideo, (if bold then palette.bright else palette.ansi)[v - 30], fg, bg);
      } else if 40 <= v <= 47 {
        currentBg := Some(v - 40);
        fg, bg := SetText(reverseVideo, (if bgBold then palette.bright else palette.ansi)[v - 40], fg, bg);
      } else if 90 <= v <= 97 {
        currentPrimary := Some(v - 90);
        fg, bg := SetText(!reverseVideo, palette.bright[v - 90], fg, bg);
      } else if 100 <= v <= 107 {
        currentBg := Some(v - 100);
        fg, bg := SetText(reverseVideo, palette.bright[v - 100], fg, bg);
      } else {
        fg, bg := SwapCode(v, fg, bg);
      }
    }

    /** Codes 1, 5, 22 and 25. */
    method Brightness(v: nat, fg0: nat, bg0: nat) returns (fg: nat, bg: nat)
      requires v == 1 || v == 5 || v == 22 || v == 25
      modifies this`bold, this`bgBold
      ensures Pen(fg, bg, TheLook()) == SelectOne(palette, Pen(fg0, bg0, old(TheLook())), v)
    {
      if v == 1 || v == 22 {
        bold := v == 1;
      } else {
        bgBold := v == 5;
      }
      var bright := v == 1 || v == 5;
      var isFg := (v == 1 || v == 22) == !reverseVideo;
      var colour := if v == 1 || v == 22 then currentPrimary else currentBg;
      var c;
      if colour.Some? {
        c := (if bright then palette.bright else palette.ansi)[colour.value];
      } else if isFg {
        c := if bright then palette.defaultFgBright else palette.defaultFg;
      } else {
        c := if bright then palette.defaultBgBright else TRANSPARENT;
      }
      fg, bg := SetText(isFg, c, fg0, bg0);
    }

    /** The branches that swap the two colours: 39 and 49 do so twice in reverse video. */
    method SwapCode(v: nat, fg0: nat, bg0: nat) returns (fg: nat, bg: nat)
      requires v != 0 && v !in {1, 5, 22, 25}
      requires !(30 <= v <= 37) && !(40 <= v <= 47) && !(90 <= v <= 97) && !(100 <= v <= 107)
      modifies this`reverseVideo, this`currentPrimary, this`currentBg
      ensures Pen(fg, bg, TheLook()) == SelectOne(palette, Pen(fg0, bg0, old(TheLook())), v)
    {
      fg, bg := fg0, bg0;
      if v == 39 || v == 49 {
        if v == 39 {
          currentPrimary := None;
        } else {
          currentBg := None;
        }
        if reverseVideo {
          fg, bg := bg, fg;
        }
        if v == 39 {
          fg := if bold then palette.defaultFgBright else palette.defaultFg;
        } else {
          bg := if bgBold then palette.defaultBgBright else TRANSPARENT;
        }
        if reverseVideo {
          fg, bg := bg, fg;
        }
      } else if (v == 7 && !reverseVideo) || (v == 27 && reverseVideo) {
        reverseVideo := v == 7;
        fg, bg := bg, fg;
      }
    }
  }
}
