/** The parsing half of flanterm_putchar (src/flanterm/flanterm.c): the fields of the context that the
    byte stream updates in place. Each byte yields the decision that the terminal then carries out. */
module Decoder {
  import opened Common
  import opened Parser

  class Decoder {
    const escValues: array<nat>
    var discardNext: bool
    var escape: bool
    var controlSequence: bool
    var osc: bool
    var oscEscape: bool
    var decPrivate: bool
    var rrr: bool
    var escapeOffset: nat
    var escI: nat
    var unicodeRemaining: nat
    var codePoint: nat
    var gSelect: nat
    var g0: Charset
    var g1: Charset
    var currentCharset: nat
    var savedCharset: nat

    ghost function Numbers(): Params
      reads this`escI, this`rrr, escValues
    {
      Params(escValues[..], escI, rrr)
    }

    ghost function Sets(): Charsets
      reads this`g0, this`g1, this`currentCharset, this`savedCharset, this`gSelect
    {
      Charsets(g0, g1, currentCharset, savedCharset, gSelect)
    }

    ghost function TheState(): State
      reads this, escValues
    {
      State(discardNext, escape, controlSequence, osc, oscEscape, decPrivate, escapeOffset, Numbers(),
            Utf8(unicodeRemaining, codePoint), Sets())
    }

    ghost predicate Valid()
      reads this, escValues
    {
      Ok(TheState())
    }

    constructor ()
      ensures TheState() == Fresh() && fresh(escValues)
    {
      escValues := new nat[MAX_ESC_VALUES](_ => 0);
      escapeOffset, escI, unicodeRemaining, codePoint, gSelect, currentCharset, savedCharset := 0, 0, 0, 0, 0, 0, 0;
      g0, g1 := Default, DecSpecial;
      discardNext, escape, controlSequence, osc, oscEscape, decPrivate, rrr :=
          false, false, false, false, false, false, false;
    }

    /** The parser's part of flanterm_context_reinit. */
    method ReinitFields()
      requires Valid()
      modifies this
      ensures TheState() == Reinit(old(TheState()))
    {
      hide Ok;
      ReinitModes();
      ReinitCounters();
      ReinitCharsets();
      assert escValues[..] == old(escValues[..]);
    }

    method ReinitModes()
      modifies this`discardNext, this`escape, this`controlSequence, this`osc, this`oscEscape, this`decPrivate
      ensures !discardNext && !escape && !controlSequence && !osc && !oscEscape && !decPrivate
    {
      controlSequence := false;
      escape := false;
      osc := false;
      oscEscape := false;
      discardNext := false;
      decPrivate := false;
    }

    method ReinitCounters()
      modifies this`rrr, this`unicodeRemaining, this`escapeOffset, this`escI
      ensures !rrr && unicodeRemaining == escapeOffset == escI == 0
    {
      rrr := false;
      unicodeRemaining := 0;
      escapeOffset := 0;
      escI := 0;
    }

    method ReinitCharsets()
      modifies this`g0, this`g1, this`gSelect, this`currentCharset
      ensures Sets() == Charsets(Default, DecSpecial, 0, savedCharset, 0)
    {
      gSelect := 0;
      g0 := Default;
      g1 := DecSpecial;
      currentCharset := 0;
    }

    /** flanterm_putchar refines the state machine of Parser. */
    method Putchar(c: nat) returns (e: Event)
      requires Valid() && c < 256
      modifies this, escValues
      ensures (TheState(), e) == Step(old(TheState()), c)
    {
      hide Begin, Continued;
      if discardNext || c == CAN || c == SUB {
        Cancel();
        return Nothing;
      }
      if unicodeRemaining != 0 {
        if IsContinuation(c) {
          Continue(c);
          return if unicodeRemaining != 0 then Nothing else CodePoint(codePoint);
        }
        unicodeRemaining := 0;
      }
      e := BeginByte(c);
    }

    method Cancel()
      modifies this`discardNext, this`escape, this`controlSequence, this`unicodeRemaining, this`osc, this`oscEscape,
               this`gSelect
      ensures !discardNext && !escape && !controlSequence && unicodeRemaining == 0 && !osc && !oscEscape && gSelect == 0
    {
      discardNext := false;
      escape := false;
      controlSequence := false;
      unicodeRemaining := 0;
      osc := false;
      oscEscape := false;
      gSelect := 0;
    }

    method Continue(c: nat)
      requires unicodeRemaining > 0 && IsContinuation(c)
      modifies this`unicodeRemaining, this`codePoint
      ensures Utf8(unicodeRemaining, codePoint) == Continued(old(Utf8(unicodeRemaining, codePoint)), c)
    {
      unicodeRemaining := unicodeRemaining - 1;
      codePoint := codePoint + (c - 0x80) * Pow64(unicodeRemaining);
    }

    /** flanterm_putchar from the label unicode_error on. */
    method BeginByte(c: nat) returns (e: Event)
      requires Valid() && c < 256
      modifies this, escValues
      ensures (TheState(), e) == Begin(old(TheState()), c)
    {
      hide EscapeParse, Ground;
      if StartsUnicode(c) {
        if c <= 0xdf {
          unicodeRemaining, codePoint := 1, c % 0x20 * Pow64(1);
        } else if c <= 0xef {
          unicodeRemaining, codePoint := 2, c % 0x10 * Pow64(2);
        } else {
          unicodeRemaining, codePoint := 3, c % 8 * Pow64(3);
        }
        e := Nothing;
      } else if escape {
        escapeOffset := escapeOffset + 1;
        e := EscapeByte(c);
      } else if gSelect != 0 {
        ChooseCharset(c);
        e := Nothing;
      } else {
        e := GroundByte(c);
      }
    }

    method ChooseCharset(c: nat)
      requires Sets().Ok() && gSelect != 0
      modifies this`g0, this`g1, this`gSelect
      ensures Sets() == old(Sets()).Chosen(c)
    {
      if c == 'B' as nat || c == '0' as nat {
        var chosen := if c == 'B' as nat then Default else DecSpecial;
        if gSelect == 1 {
          g0 := chosen;
        } else {
          g1 := chosen;
        }
      }
      gSelect := 0;
    }

    /** The switch on a plain byte at the end of flanterm_putchar. */
    method GroundByte(c: nat) returns (e: Event)
      requires Valid()
      modifies this`escape, this`escapeOffset, this`currentCharset
      ensures (TheState(), e) == Ground(old(TheState()), c)
    {
      e := Nothing;
      if c == 0 || c == 0x7f {
      } else if c == ESC {
        escapeOffset := 0;
        escape := true;
      } else if c == 14 {
        currentCharset := 1;
      } else if c == 15 {
        currentCharset := 0;
      } else if 7 <= c <= 13 {
        e := Control(c);
      } else {
        e := Print(c);
      }
    }

    /** escape_parse, after the increment of escape_offset. */
    method EscapeByte(c: nat) returns (e: Event)
      requires Valid()
      modifies this, escValues
      ensures (TheState(), e) == EscapeParse(old(TheState()), c)
    {
      e := Nothing;
      if osc {
        OscByte(c);
      } else if controlSequence {
        e := ControlSequenceByte(c);
      } else if c == ']' as nat {
        oscEscape := false;
        osc := true;
      } else if c == '[' as nat {
        ZeroValues();
        escI := 0;
        rrr := false;
        controlSequence := true;
      } else {
        EscapeFinalByte(c);
        e := Escape(c);
      }
    }

    /** The switch of escape_parse, as far as it touches the parser. */
    method EscapeFinalByte(c: nat)
      requires Valid()
      modifies this
      ensures TheState() == EscapeFinal(old(TheState()), c)
    {
      hide Charsets.Escaped;
      if c == 'c' as nat {
        ReinitFields();
      } else {
        EscapeCharsets(c);
      }
      escape := false;
    }

    method EscapeCharsets(c: nat)
      modifies this`savedCharset, this`currentCharset, this`gSelect
      ensures Sets() == old(Sets()).Escaped(c)
    {
      if c == '7' as nat {
        savedCharset := currentCharset;
      } else if c == '8' as nat {
        currentCharset := savedCharset;
      } else if c == '(' as nat || c == ')' as nat {
        gSelect := c - '\'' as nat;
      }
    }

    method ZeroValues()
      requires escValues.Length == MAX_ESC_VALUES
      modifies escValues
      ensures escValues[..] == NoParams().values
    {
      for i := 0 to MAX_ESC_VALUES
        invariant forall j :: 0 <= j < i ==> escValues[j] == 0
      {
        escValues[i] := 0;
      }
    }

    /** osc_parse. */
    method OscByte(c: nat)
      requires Valid()
      modifies this`osc, this`oscEscape, this`escape
      ensures TheState() == OscParse(old(TheState()), c)
    {
      if oscEscape && c == '\\' as nat {
        oscEscape := false;
        osc := false;
        escape := false;
        return;
      }
      oscEscape := false;
      if c == ESC {
        oscEscape := true;
        return;
      }
      osc := false;
      escape := false;
    }

    /** control_sequence_parse up to the dispatch. */
    method ControlSequenceByte(c: nat) returns (e: Event)
      requires Valid()
      modifies this, escValues
      ensures (TheState(), e) == ControlSequenceParse(old(TheState()), c)
    {
      hide Digit, Semicolon, Final, Dispatched;
      e := Nothing;
      if escapeOffset == 2 && c == '[' as nat {
        discardNext := true;
        controlSequence := false;
        escape := false;
      } else if escapeOffset == 2 && c == '?' as nat {
        decPrivate := true;
      } else if IsDigit(c) {
        DigitByte(c);
      } else if c == ';' as nat {
        SemicolonByte();
      } else {
        e := DispatchByte(c);
      }
    }

    method DispatchByte(c: nat) returns (e: Event)
      requires Valid()
      modifies this`rrr, this`escI, this`decPrivate, this`controlSequence, this`escape, escValues
      ensures (TheState(), e) == Dispatched(old(TheState()), Final(old(Numbers()), c), c)
    {
      hide Final;
      FinalByte(c);
      e := Csi(decPrivate, c, escValues[..], escI);
      decPrivate := false;
      controlSequence := false;
      escape := false;
    }

    method DigitByte(c: nat)
      requires Numbers().Ok() && IsDigit(c)
      modifies this`rrr, escValues
      ensures Numbers() == Digit(old(Numbers()), c)
    {
      if escI == MAX_ESC_VALUES {
        return;
      }
      rrr := true;
      DigitMod(escValues[escI] * 10, c - 0x30);
      escValues[escI] := escValues[escI] * 10 % TWO_32;
      escValues[escI] := (escValues[escI] + (c - 0x30)) % TWO_32;
    }

    lemma DigitMod(x: nat, d: nat)
      ensures (x % TWO_32 + d) % TWO_32 == (x + d) % TWO_32
    {
    }

    method SemicolonByte()
      requires Numbers().Ok()
      modifies this`rrr, this`escI, escValues
      ensures Numbers() == Semicolon(old(Numbers()))
    {
      if rrr {
        escI := escI + 1;
        rrr := false;
        return;
      }
      if escI == MAX_ESC_VALUES {
        return;
      }
      escValues[escI] := 0;
      escI := escI + 1;
    }

    /** A final byte closes the open number and fills in the command's default. */
    method FinalByte(c: nat)
      requires Numbers().Ok()
      modifies this`rrr, this`escI, escValues
      ensures Numbers() == Final(old(Numbers()), c)
    {
      if rrr {
        escI := escI + 1;
        rrr := false;
      }
      var default := if c == 'J' as nat || c == 'K' as nat || c == 'q' as nat then 0 else 1;
      ghost var values, count := escValues[..], escI;
      assert values == old(escValues[..]);
      for i := escI to MAX_ESC_VALUES
        modifies escValues
        invariant forall j :: 0 <= j < MAX_ESC_VALUES ==> escValues[j] == if count <= j < i then default else values[j]
      {
        escValues[i] := default;
      }
      assert escValues[..] == Padded(values, count, EscDefault(c));
    }
  }
}
