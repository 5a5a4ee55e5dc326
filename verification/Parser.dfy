/** The byte-stream parser of the terminal (src/flanterm/flanterm.c) as a state machine: one step a
    byte, each step yielding the decision that the terminal then acts on. */
module Parser {
  import opened Common

  const MAX_ESC_VALUES: nat := 16

  const CAN: nat := 0x18
  const SUB: nat := 0x1a
  const ESC: nat := 0x1b

  datatype Charset = Default | DecSpecial

  /** What one byte makes the terminal do. */
  datatype Event =
    | Nothing
    | Print(c: nat)                                      // a character that is not a control
    | CodePoint(cp: nat)                                 // a completed UTF-8 sequence
    | Control(c: nat)                                    // a C0 control with an effect on the screen
    | Escape(c: nat)                                     // ESC and a final byte
    | Csi(private: bool, final: nat, values: seq<nat>, count: nat)

  /** The numbers of a control sequence: esc_values, esc_values_i and whether a number is open (rrr). */
  datatype Params = Params(values: seq<nat>, i: nat, open: bool) {
    predicate Ok() {
      |values| == MAX_ESC_VALUES && i <= MAX_ESC_VALUES && (open ==> i < MAX_ESC_VALUES)
    }
  }

  datatype Charsets = Charsets(g0: Charset, g1: Charset, current: nat, saved: nat, select: nat) {
    predicate Ok() { current < 2 && saved < 2 && select <= 2 }

    function Chosen(c: nat): Charsets {
      var chosen := if c == 'B' as nat then Default else DecSpecial;
      if c != 'B' as nat && c != '0' as nat then this.(select := 0)
      else if select == 1 then this.(g0 := chosen, select := 0)
      else this.(g1 := chosen, select := 0)
    }

    function Escaped(c: nat): Charsets {
      if c == '7' as nat then this.(saved := current)
      else if c == '8' as nat then this.(current := saved)
      else if c == '(' as nat || c == ')' as nat then this.(select := c - '\'' as nat)
      else this
    }
  }

  datatype Utf8 = Utf8(remaining: nat, codePoint: nat)

  /** The parser's part of struct flanterm_context. */
  datatype State = State(discardNext: bool, escape: bool, controlSequence: bool, osc: bool, oscEscape: bool,
                         decPrivate: bool, escapeOffset: nat, params: Params, utf8: Utf8, charsets: Charsets)

  /** The fields that flanterm_context_reinit sets. */
  function Reinit(p: State): State {
    State(false, false, false, false, false, false, 0, p.params.(i := 0, open := false), p.utf8.(remaining := 0),
          Charsets(Default, DecSpecial, 0, p.charsets.saved, 0))
  }

  function NoParams(): (r: Params)
    ensures r.Ok()
  {
    Params(seq(MAX_ESC_VALUES, _ => 0), 0, false)
  }

  function Fresh(): State {
    State(false, false, false, false, false, false, 0, NoParams(), Utf8(0, 0), Charsets(Default, DecSpecial, 0, 0, 0))
  }

  /** What no byte stream breaks: indexes stay inside their arrays. */
  predicate Ok(p: State) {
    p.params.Ok() && p.charsets.Ok() && p.utf8.remaining <= 3
  }

  predicate IsDigit(c: nat) { 0x30 <= c <= 0x39 }

  predicate IsContinuation(c: nat) { 0x80 <= c <= 0xbf }

  predicate StartsUnicode(c: nat) { 0xc0 <= c <= 0xf7 }

  /** 2 to the power 6*n, for the at most three bytes still to come. */
  function Pow64(n: nat): nat
    ensures Pow64(n) > 0
  {
    match n
    case 0 => 1
    case 1 => 0x40
    case 2 => 0x1000
    case _ => 0x4_0000
  }

  /** flanterm_putchar. */
  function Step(p: State, c: nat): (r: (State, Event))
    requires Ok(p) && c < 256
    ensures Ok(r.0)
  {
    if p.discardNext || c == CAN || c == SUB then
      (p.(discardNext := false, escape := false, controlSequence := false, utf8 := p.utf8.(remaining := 0),
          osc := false,
          oscEscape := false, charsets := p.charsets.(select := 0)), Nothing)
    else if p.utf8.remaining != 0 && IsContinuation(c) then
      var u := Continued(p.utf8, c);
      (p.(utf8 := u), if u.remaining != 0 then Nothing else CodePoint(u.codePoint))
    else
      Begin(p.(utf8 := p.utf8.(remaining := 0)), c)
  }

  function Continued(u: Utf8, c: nat): Utf8
    requires u.remaining > 0 && IsContinuation(c)
  {
    Utf8(u.remaining - 1, u.codePoint + (c - 0x80) * Pow64(u.remaining - 1))
  }

  function Started(c: nat): Utf8
    requires StartsUnicode(c)
  {
    if c <= 0xdf then Utf8(1, c % 0x20 * Pow64(1))
    else if c <= 0xef then Utf8(2, c % 0x10 * Pow64(2))
    else Utf8(3, c % 8 * Pow64(3))
  }

  /** flanterm_putchar from the label unicode_error on. */
  function Begin(p: State, c: nat): (r: (State, Event))
    requires Ok(p) && c < 256
    ensures Ok(r.0)
  {
    if StartsUnicode(c) then (p.(utf8 := Started(c)), Nothing)
    else if p.escape then EscapeParse(p.(escapeOffset := p.escapeOffset + 1), c)
    else if p.charsets.select != 0 then (p.(charsets := p.charsets.Chosen(c)), Nothing)
    else Ground(p, c)
  }

  function Ground(p: State, c: nat): (r: (State, Event))
    requires Ok(p)
    ensures Ok(r.0)
  {
    if c == 0 || c == 0x7f then (p, Nothing)
    else if c == ESC then (p.(escapeOffset := 0, escape := true), Nothing)
    else if c == 14 || c == 15 then (p.(charsets := p.charsets.(current := 15 - c)), Nothing)
    else if 7 <= c <= 13 then (p, Control(c))
    else (p, Print(c))
  }

  /** escape_parse, after the increment of escape_offset. */
  function EscapeParse(p: State, c: nat): (r: (State, Event))
    requires Ok(p)
    ensures Ok(r.0)
  {
    if p.osc then (OscParse(p, c), Nothing)
    else if p.controlSequence then ControlSequenceParse(p, c)
    else if c == ']' as nat then (p.(oscEscape := false, osc := true), Nothing)
    else if c == '[' as nat then (p.(params := NoParams(), controlSequence := true), Nothing)
    else (EscapeFinal(p, c), Escape(c))
  }

  function EscapeFinal(p: State, c: nat): (r: State)
    requires Ok(p)
    ensures Ok(r)
  {
    if c == 'c' as nat then Reinit(p) else p.(escape := false, charsets := p.charsets.Escaped(c))
  }

  function OscParse(p: State, c: nat): (r: State)
    requires Ok(p)
    ensures Ok(r)
  {
    if !(p.oscEscape && c == '\\' as nat) && c == ESC then p.(oscEscape := true)
    else p.(oscEscape := false, osc := false, escape := false)
  }

  function EscDefault(c: nat): nat {
    if c == 'J' as nat || c == 'K' as nat || c == 'q' as nat then 0 else 1
  }

  /** The first `count` values, then the command's default. */
  function Padded(values: seq<nat>, count: nat, default: nat): (r: seq<nat>)
    ensures |r| == |values|
  {
    seq(|values|, i requires 0 <= i < |values| => if i < count then values[i] else default)
  }

  function Digit(ps: Params, c: nat): (r: Params)
    requires ps.Ok() && IsDigit(c)
    ensures r.Ok()
  {
    if ps.i == MAX_ESC_VALUES then ps
    else Params(ps.values[ps.i := (ps.values[ps.i] * 10 + (c - 0x30)) % TWO_32], ps.i, true)
  }

  function Semicolon(ps: Params): (r: Params)
    requires ps.Ok()
    ensures r.Ok()
  {
    if ps.open then Params(ps.values, ps.i + 1, false)
    else if ps.i == MAX_ESC_VALUES then ps
    else Params(ps.values[ps.i := 0], ps.i + 1, false)
  }

  function Final(ps: Params, c: nat): (r: Params)
    requires ps.Ok()
    ensures r.Ok()
  {
    var count := if ps.open then ps.i + 1 else ps.i;
    Params(Padded(ps.values, count, EscDefault(c)), count, false)
  }

  function Dispatched(p: State, ps: Params, c: nat): (State, Event) {
    (p.(controlSequence := false, escape := false, params := ps, decPrivate := false),
        Csi(p.decPrivate, c, ps.values, ps.i))
  }

  function ControlSequenceParse(p: State, c: nat): (r: (State, Event))
    requires Ok(p)
    ensures Ok(r.0)
  {
    if p.escapeOffset == 2 && c == '[' as nat then
      (p.(controlSequence := false, escape := false, discardNext := true), Nothing)
    else if p.escapeOffset == 2 && c == '?' as nat then (p.(decPrivate := true), Nothing)
    else if IsDigit(c) then (p.(params := Digit(p.params, c)), Nothing)
    else if c == ';' as nat then (p.(params := Semicolon(p.params)), Nothing)
    else Dispatched(p, Final(p.params, c), c)
  }

  // ----- runs ---------------------------------------------------------------

  predicate Bytes(bs: seq<nat>) {
    forall i :: 0 <= i < |bs| ==> bs[i] < 256
  }

  function After(p: State, bs: seq<nat>): (q: State)
    requires Ok(p) && Bytes(bs)
    ensures Ok(q)
  {
    if bs == [] then p else Step(After(p, bs[..|bs| - 1]), bs[|bs| - 1]).0
  }

  function Events(p: State, bs: seq<nat>): (es: seq<Event>)
    requires Ok(p) && Bytes(bs)
    ensures |es| == |bs|
  {
    if bs == [] then [] else Events(p, bs[..|bs| - 1]) + [Step(After(p, bs[..|bs| - 1]), bs[|bs| - 1]).1]
  }

  lemma RunSnoc(p: State, bs: seq<nat>, c: nat)
    requires Ok(p) && Bytes(bs) && c < 256
    ensures Bytes(bs + [c])
    ensures After(p, bs + [c]) == Step(After(p, bs), c).0
    ensures Events(p, bs + [c]) == Events(p, bs) + [Step(After(p, bs), c).1]
  {
    assert (bs + [c])[..|bs + [c]| - 1] == bs;
  }

  lemma {:induction false} RunConcat(p: State, a: seq<nat>, b: seq<nat>)
    requires Ok(p) && Bytes(a) && Bytes(b)
    ensures Bytes(a + b)
    ensures After(p, a + b) == After(After(p, a), b)
    ensures Events(p, a + b) == Events(p, a) + Events(After(p, a), b)
    decreases |b|
  {
    if b == [] {
      assert a + b == a;
    } else {
      var c, rest := b[|b| - 1], b[..|b| - 1];
      SplitLast(a, b);
      RunConcat(p, a, rest);
      RunSnoc(p, a + rest, c);
      RunSnoc(After(p, a), rest, c);
      Assoc(Events(p, a), Events(After(p, a), rest), [Step(After(p, a + rest), c).1]);
    }
  }

  lemma Assoc(a: seq<Event>, b: seq<Event>, c: seq<Event>)
    ensures a + b + c == a + (b + c)
  {
  }

  lemma SplitLast(a: seq<nat>, b: seq<nat>)
    requires b != []
    ensures b[..|b| - 1] + [b[|b| - 1]] == b && a + b[..|b| - 1] + [b[|b| - 1]] == a + b
  {
  }

  /** All bytes but the last pass in silence. */
  predicate SilentBut(es: seq<Event>, last: Event) {
    |es| > 0 && es[|es| - 1] == last && forall i :: 0 <= i < |es| - 1 ==> es[i] == Nothing
  }

  predicate Silent(es: seq<Event>) {
    forall i :: 0 <= i < |es| ==> es[i] == Nothing
  }

  lemma Feed(p: State, bs: seq<nat>, c: nat)
    requires Ok(p) && Bytes(bs) && c < 256 && Silent(Events(p, bs))
    ensures Bytes(bs + [c]) && After(p, bs + [c]) == Step(After(p, bs), c).0
    ensures var e := Step(After(p, bs), c).1;
            SilentBut(Events(p, bs + [c]), e) && (e == Nothing ==> Silent(Events(p, bs + [c])))
  {
    RunSnoc(p, bs, c);
  }

  // ----- UTF-8 --------------------------------------------------------------

  /** The encoding of section 3 of RFC 3629, for the code points outside ASCII. */
  function Utf8Encode(cp: nat): (bs: seq<nat>)
    requires 0x80 <= cp <= 0x10ffff
    ensures Bytes(bs) && 2 <= |bs| <= 4
  {
    if cp <= 0x7ff then [0xc0 + cp / 0x40, 0x80 + cp % 0x40]
    else if cp <= 0xffff then [0xe0 + cp / 0x1000, 0x80 + cp / 0x40 % 0x40, 0x80 + cp % 0x40]
    else [0xf0 + cp / 0x4_0000, 0x80 + cp / 0x1000 % 0x40, 0x80 + cp / 0x40 % 0x40, 0x80 + cp % 0x40]
  }

  /** The part of a code point that the first `k` bytes of its encoding carry. */
  function Partial(cp: nat, len: nat, k: nat): nat
    requires 1 <= k <= len <= 4
  {
    cp / Pow64(len - k) * Pow64(len - k)
  }

  /** After k bytes of an encoding the decoder holds the part they carry and expects the rest. */
  lemma {:induction false} DecodePrefix(p: State, cp: nat, k: nat)
    requires Ok(p) && !p.discardNext && p.utf8.remaining == 0
    requires 0x80 <= cp <= 0x10ffff && 1 <= k <= |Utf8Encode(cp)|
    ensures Bytes(Utf8Encode(cp)[..k])
    ensures var bs := Utf8Encode(cp);
            After(p, bs[..k]) == p.(utf8 := Utf8(|bs| - k, Partial(cp, |bs|, k)))
    ensures var bs := Utf8Encode(cp);
            if k < |bs| then Silent(Events(p, bs[..k])) else SilentBut(Events(p, bs[..k]), CodePoint(cp))
    decreases k
  {
    hide Step, Partial, Utf8Encode;
    var bs := Utf8Encode(cp);
    assert bs[..k] == bs[..k - 1] + [bs[k - 1]];
    if k == 1 {
      assert bs[..0] == [];
      StartStep(p, cp);
    } else {
      DecodePrefix(p, cp, k - 1);
      ContinueStep(p, cp, k);
    }
    Feed(p, bs[..k - 1], bs[k - 1]);
  }

  lemma StartStep(p: State, cp: nat)
    requires Ok(p) && !p.discardNext && p.utf8.remaining == 0 && 0x80 <= cp <= 0x10ffff
    ensures var bs := Utf8Encode(cp);
            Step(p, bs[0]) == (p.(utf8 := Utf8(|bs| - 1, Partial(cp, |bs|, 1))), Nothing)
  {
    LeadByte(cp);
  }

  lemma LeadByte(cp: nat)
    requires 0x80 <= cp <= 0x10ffff
    ensures var bs := Utf8Encode(cp);
            StartsUnicode(bs[0]) && Started(bs[0]) == Utf8(|bs| - 1, Partial(cp, |bs|, 1))
  {
    if cp <= 0x7ff {
      assert (0xc0 + cp / 0x40) % 0x20 == cp / 0x40;
    } else if cp <= 0xffff {
      assert (0xe0 + cp / 0x1000) % 0x10 == cp / 0x1000;
    } else {
      assert (0xf0 + cp / 0x4_0000) % 8 == cp / 0x4_0000;
    }
  }

  lemma ContinueStep(p: State, cp: nat, k: nat)
    requires Ok(p) && !p.discardNext && 0x80 <= cp <= 0x10ffff && 2 <= k <= |Utf8Encode(cp)|
    ensures var bs := Utf8Encode(cp);
            var q := p.(utf8 := Utf8(|bs| - k + 1, Partial(cp, |bs|, k - 1)));
            Step(q, bs[k - 1]) ==
              (p.(utf8 := Utf8(|bs| - k, Partial(cp, |bs|, k))), if k < |bs| then Nothing else CodePoint(cp))
  {
    ContinueByte(cp, k);
  }

  lemma ContinueByte(cp: nat, k: nat)
    requires 0x80 <= cp <= 0x10ffff && 2 <= k <= |Utf8Encode(cp)|
    ensures var bs := Utf8Encode(cp);
            && IsContinuation(bs[k - 1])
            && Continued(Utf8(|bs| - k + 1, Partial(cp, |bs|, k - 1)), bs[k - 1]) ==
                Utf8(|bs| - k, Partial(cp, |bs|, k))
            && Partial(cp, |bs|, |bs|) == cp
  {
    Digits64(cp);
  }

  lemma Digits64(cp: nat)
    ensures cp == cp / 0x40 * 0x40 + cp % 0x40
    ensures cp / 0x40 * 0x40 == cp / 0x1000 * 0x1000 + cp / 0x40 % 0x40 * 0x40
    ensures cp / 0x1000 * 0x1000 == cp / 0x4_0000 * 0x4_0000 + cp / 0x1000 % 0x40 * 0x1000
  {
    var a := cp / 0x40;
    var b := a / 0x40;
    assert cp == a * 0x40 + cp % 0x40 && a == b * 0x40 + a % 0x40 && b == b / 0x40 * 0x40 + b % 0x40;
    assert b == cp / 0x1000 && b / 0x40 == cp / 0x4_0000;
  }

  /** Decoding undoes encoding: in any state that is not inside another sequence, even in the middle of
      an escape, the encoding of a code point yields exactly that code point and leaves the rest of the
      parser as it was. */
  lemma Utf8RoundTrip(p: State, cp: nat)
    requires Ok(p) && !p.discardNext && p.utf8.remaining == 0 && 0x80 <= cp <= 0x10ffff
    ensures After(p, Utf8Encode(cp)) == p.(utf8 := Utf8(0, cp))
    ensures SilentBut(Events(p, Utf8Encode(cp)), CodePoint(cp))
  {
    var bs := Utf8Encode(cp);
    DecodePrefix(p, cp, |bs|);
    assert bs[..|bs|] == bs;
  }

  /** A sequence cut short by a byte that does not continue it is dropped without a trace, and that
      byte is handled as if it had come first. */
  lemma Utf8CutShort(p: State, cp: nat, k: nat, c: nat)
    requires Ok(p) && !p.discardNext && p.utf8.remaining == 0 && 0x80 <= cp <= 0x10ffff
    requires 1 <= k < |Utf8Encode(cp)| && c < 256 && !IsContinuation(c) && c != CAN && c != SUB
    ensures var bs := Utf8Encode(cp)[..k];
            var direct := Step(p.(utf8 := Utf8(0, Partial(cp, |Utf8Encode(cp)|, k))), c);
            After(p, bs + [c]) == direct.0 && SilentBut(Events(p, bs + [c]), direct.1)
  {
    DecodePrefix(p, cp, k);
    RunSnoc(p, Utf8Encode(cp)[..k], c);
  }

  // ----- control sequences --------------------------------------------------

  function Digits(n: nat): (bs: seq<nat>)
    ensures |bs| > 0 && Bytes(bs) && forall i :: 0 <= i < |bs| ==> IsDigit(bs[i])
  {
    if n < 10 then [0x30 + n] else Digits(n / 10) + [0x30 + n % 10]
  }

  function Join(params: seq<nat>): (bs: seq<nat>)
    ensures Bytes(bs) && forall i :: 0 <= i < |bs| ==> IsDigit(bs[i]) || bs[i] == ';' as nat
  {
    if params == [] then []
    else if |params| == 1 then Digits(params[0])
    else Join(params[..|params| - 1]) + [';' as nat] + Digits(params[|params| - 1])
  }

  /** Collecting the numbers of a control sequence. */
  predicate Collecting(p: State) {
    Ok(p) && p.escape && p.controlSequence && !p.osc && !p.discardNext && p.utf8.remaining == 0 && p.escapeOffset >= 1
  }

  function Numbered(ps: Params, n: nat): (r: Params)
    requires ps.Ok()
    ensures r.Ok()
  {
    if ps.i == MAX_ESC_VALUES then ps else Params(ps.values[ps.i := n], ps.i, true)
  }

  lemma AppendDigit(ps: Params, n: nat)
    requires ps.Ok() && n < TWO_32
    ensures Digit(Numbered(ps, n / 10), 0x30 + n % 10) == Numbered(ps, n)
  {
  }

  lemma DigitStep(p: State, c: nat)
    requires Collecting(p) && IsDigit(c)
    ensures Step(p, c) == (p.(escapeOffset := p.escapeOffset + 1, params := Digit(p.params, c)), Nothing)
  {
  }

  lemma {:induction false} FeedDigits(p: State, n: nat)
    requires Collecting(p) && n < TWO_32
    requires p.params.i < MAX_ESC_VALUES ==> p.params.values[p.params.i] == 0
    ensures Silent(Events(p, Digits(n)))
    ensures After(p, Digits(n)) == p.(escapeOffset := p.escapeOffset + |Digits(n)|, params := Numbered(p.params, n))
    decreases n
  {
    if n < 10 {
      FeedDigit(p, [], 0x30 + n);
      assert [] + [0x30 + n] == Digits(n);
    } else {
      FeedDigits(p, n / 10);
      FeedDigit(p, Digits(n / 10), 0x30 + n % 10);
      AppendDigit(p.params, n);
    }
  }

  lemma FeedDigit(p: State, bs: seq<nat>, c: nat)
    requires Ok(p) && Bytes(bs) && IsDigit(c) && Collecting(After(p, bs)) && Silent(Events(p, bs))
    ensures var q := After(p, bs);
            After(p, bs + [c]) == q.(escapeOffset := q.escapeOffset + 1, params := Digit(q.params, c))
    ensures Silent(Events(p, bs + [c]))
  {
    RunSnoc(p, bs, c);
    DigitStep(After(p, bs), c);
  }

  function FirstValues(params: seq<nat>): (r: seq<nat>)
    ensures |r| == MAX_ESC_VALUES
  {
    seq(MAX_ESC_VALUES, i requires i >= 0 => if i < |params| then params[i] else 0)
  }

  /** The collected numbers after a joined list: the last one is still open while there is room. */
  function Collected(params: seq<nat>): (r: Params)
    ensures r.Ok()
  {
    if params == [] then NoParams()
    else if |params| <= MAX_ESC_VALUES then Params(FirstValues(params), |params| - 1, true)
    else Params(FirstValues(params), MAX_ESC_VALUES, false)
  }

  lemma CollectedStep(params: seq<nat>, x: nat)
    ensures params != [] ==> Numbered(Semicolon(Collected(params)), x) == Collected(params + [x])
    ensures Numbered(NoParams(), x) == Collected([x])
    ensures params != [] ==> var ps := Semicolon(Collected(params)); ps.i < MAX_ESC_VALUES ==> ps.values[ps.i] == 0
  {
    if params != [] {
      var ps := Semicolon(Collected(params));
      if ps.i < MAX_ESC_VALUES {
        assert ps.values[ps.i := x] == FirstValues(params + [x]);
      } else {
        assert FirstValues(params) == FirstValues(params + [x]);
      }
    }
    assert NoParams().values[0 := x] == FirstValues([x]);
  }

  lemma SemicolonStep(p: State)
    requires Collecting(p)
    ensures Step(p, ';' as nat) == (p.(escapeOffset := p.escapeOffset + 1, params := Semicolon(p.params)), Nothing)
  {
  }

  lemma SilentConcat(a: seq<Event>, b: seq<Event>)
    requires Silent(a) && Silent(b)
    ensures Silent(a + b)
  {
  }

  lemma {:induction false} FeedJoin(p: State, params: seq<nat>)
    requires Collecting(p) && p.params == NoParams() && forall i :: 0 <= i < |params| ==> params[i] < TWO_32
    ensures Silent(Events(p, Join(params)))
    ensures After(p, Join(params)) == p.(escapeOffset := p.escapeOffset + |Join(params)|, params := Collected(params))
    decreases |params|
  {
    hide Step, Digits, Numbered, Semicolon, FirstValues;
    if params == [] {
    } else if |params| == 1 {
      CollectedStep([], params[0]);
      assert params == [params[0]];
      FeedDigits(p, params[0]);
    } else {
      var rest, x := params[..|params| - 1], params[|params| - 1];
      assert params == rest + [x];
      FeedJoin(p, rest);
      CollectedStep(rest, x);
      FeedNext(p, Join(rest), x);
    }
  }

  lemma FeedNext(p: State, bs: seq<nat>, x: nat)
    requires Ok(p) && Bytes(bs) && Collecting(After(p, bs)) && Silent(Events(p, bs)) && x < TWO_32
    requires var ps := Semicolon(After(p, bs).params); ps.i < MAX_ESC_VALUES ==> ps.values[ps.i] == 0
    ensures var q, all := After(p, bs), bs + [';' as nat] + Digits(x);
            && Bytes(all) && Silent(Events(p, all))
            && After(p, all) == q.(escapeOffset := q.escapeOffset + 1 + |Digits(x)|,
                                   params := Numbered(Semicolon(q.params), x))
  {
    hide Step, Digits, Numbered, Semicolon;
    RunSnoc(p, bs, ';' as nat);
    SemicolonStep(After(p, bs));
    var q := After(p, bs + [';' as nat]);
    FeedDigits(q, x);
    RunConcat(p, bs + [';' as nat], Digits(x));
    SilentConcat(Events(p, bs + [';' as nat]), Events(q, Digits(x)));
  }

  /** Outside every sequence. */
  predicate Idle(p: State) {
    && Ok(p) && !p.discardNext && !p.escape && !p.controlSequence && !p.osc && p.utf8.remaining == 0
    && p.charsets.select == 0
  }

  /** A byte that ends a control sequence whose numbers are `params`. */
  predicate IsFinal(params: seq<nat>, c: nat) {
    && c < 256 && !IsDigit(c) && c != ';' as nat && c != CAN && c != SUB && !StartsUnicode(c)
    && (params == [] ==> c != '[' as nat && c != '?' as nat)
  }

  /** The numbers that a sequence is dispatched with: the first 16 sent, then 0 for J, K and q and 1 for every
      other command. */
  function Sent(params: seq<nat>, c: nat): (r: seq<nat>)
    ensures |r| == 16
  {
    seq(16, i requires i >= 0 =>
      if i < |params| then params[i]
      else if c == 'J' as nat || c == 'K' as nat || c == 'q' as nat then 0
      else 1)
  }

  lemma SentIsPadded(params: seq<nat>, c: nat)
    ensures var n := if |params| < 16 then |params| else 16;
            Padded(FirstValues(params), n, EscDefault(c)) == Sent(params, c)
  {
  }

  function CsiBytes(params: seq<nat>, c: nat): (bs: seq<nat>)
    requires c < 256
    ensures Bytes(bs)
  {
    [ESC, '[' as nat] + Join(params) + [c]
  }

  lemma EscapeStep(p: State)
    requires Idle(p)
    ensures Step(p, ESC) == (p.(escape := true, escapeOffset := 0), Nothing)
  {
  }

  lemma BracketStep(p: State)
    requires Idle(p)
    ensures var q := p.(escape := true, escapeOffset := 0);
            Step(q, '[' as nat) == (q.(controlSequence := true, escapeOffset := 1, params := NoParams()), Nothing)
  {
  }

  lemma OpenSequence(p: State)
    requires Idle(p)
    ensures Bytes([ESC, '[' as nat]) && Silent(Events(p, [ESC, '[' as nat]))
    ensures After(p, [ESC, '[' as nat]) ==
            p.(escape := true, controlSequence := true, escapeOffset := 1, params := NoParams())
  {
    hide Step;
    EscapeStep(p);
    BracketStep(p);
    RunSnoc(p, [], ESC);
    assert [] + [ESC] == [ESC];
    RunSnoc(p, [ESC], '[' as nat);
    assert [ESC] + ['[' as nat] == [ESC, '[' as nat];
  }

  lemma FinalStep(p: State, params: seq<nat>, c: nat)
    requires Collecting(p) && p.params == Collected(params) && IsFinal(params, c)
    requires params != [] ==> p.escapeOffset >= 2
    ensures var n := if |params| < 16 then |params| else 16;
            Step(p, c) == (p.(escape := false, controlSequence := false, decPrivate := false,
                              escapeOffset := p.escapeOffset + 1, params := Params(Sent(params, c), n, false)),
                           Csi(p.decPrivate, c, Sent(params, c), n))
  {
    SentIsPadded(params, c);
    if params == [] {
      assert Padded(NoParams().values, 0, EscDefault(c)) == Padded(FirstValues(params), 0, EscDefault(c));
    }
  }

  /** Printing a control sequence and parsing it back: any list of 32-bit numbers and any final byte
      dispatch once, with the first 16 numbers, then the command's default; the parser is idle again.
      The dispatch is a private one exactly when the flag was left set by an earlier sequence. */
  lemma CsiRoundTrip(p: State, params: seq<nat>, c: nat)
    requires Idle(p) && IsFinal(params, c) && forall i :: 0 <= i < |params| ==> params[i] < TWO_32
    ensures var n := if |params| < 16 then |params| else 16;
            SilentBut(Events(p, CsiBytes(params, c)), Csi(p.decPrivate, c, Sent(params, c), n))
    ensures var q := After(p, CsiBytes(params, c));
            Idle(q) && q.charsets == p.charsets && q.utf8 == p.utf8 && !q.decPrivate
  {
    hide Step, Join, Sent, Collected, After, Events, SilentBut, Silent, NoParams;
    var sent := [ESC, '[' as nat] + Join(params);
    NumbersRead(p, params);
    FinalStep(After(p, sent), params, c);
    Feed(p, sent, c);
  }

  /** A control sequence up to its final byte. */
  lemma NumbersRead(p: State, params: seq<nat>)
    requires Idle(p) && forall i :: 0 <= i < |params| ==> params[i] < TWO_32
    ensures var sent := [ESC, '[' as nat] + Join(params);
            && Bytes(sent) && Silent(Events(p, sent)) && (params != [] ==> |sent| > 2)
            && After(p, sent) == p.(escape := true, controlSequence := true, escapeOffset := |sent| - 1,
                                    params := Collected(params))
  {
    hide Step, Join, FirstValues, Collected, After, Events, Silent;
    var open := [ESC, '[' as nat];
    OpenSequence(p);
    var q := After(p, open);
    FeedJoin(q, params);
    RunConcat(p, open, Join(params));
    SilentConcat(Events(p, open), Events(q, Join(params)));
    JoinNonempty(params);
  }

  lemma JoinNonempty(params: seq<nat>)
    ensures params != [] ==> Join(params) != []
  {
  }

  function PrivateBytes(params: seq<nat>, c: nat): (bs: seq<nat>)
    requires c < 256
    ensures Bytes(bs)
  {
    [ESC, '[' as nat, '?' as nat] + Join(params) + [c]
  }

  lemma OpenPrivate(p: State)
    requires Idle(p)
    ensures var open := [ESC, '[' as nat, '?' as nat];
            && Bytes(open) && Silent(Events(p, open))
            && After(p, open) == p.(escape := true, controlSequence := true, escapeOffset := 2, decPrivate := true,
                                    params := NoParams())
  {
    var open := [ESC, '[' as nat];
    OpenSequence(p);
    RunSnoc(p, open, '?' as nat);
    assert open + ['?' as nat] == [ESC, '[' as nat, '?' as nat];
  }

  /** The same after a question mark: one private dispatch. */
  lemma PrivateRoundTrip(p: State, params: seq<nat>, c: nat)
    requires Idle(p) && IsFinal(params, c) && forall i :: 0 <= i < |params| ==> params[i] < TWO_32
    ensures var n := if |params| < 16 then |params| else 16;
            SilentBut(Events(p, PrivateBytes(params, c)), Csi(true, c, Sent(params, c), n))
    ensures var q := After(p, PrivateBytes(params, c));
            Idle(q) && q.charsets == p.charsets && q.utf8 == p.utf8 && !q.decPrivate
  {
    hide Step, Join, Sent, Collected, After, Events, SilentBut, Silent, NoParams;
    var open := [ESC, '[' as nat, '?' as nat];
    OpenPrivate(p);
    var q := After(p, open);
    FeedJoin(q, params);
    RunConcat(p, open, Join(params));
    SilentConcat(Events(p, open), Events(q, Join(params)));
    FinalStep(After(p, open + Join(params)), params, c);
    Feed(p, open + Join(params), c);
  }

  /** Whatever has been read, CAN and SUB bring the parser back outside every sequence, without any effect. */
  lemma Cancelled(p: State, c: nat)
    requires Ok(p) && (c == 0x18 || c == 0x1a)
    ensures Idle(Step(p, c).0) && Step(p, c).1 == Nothing
  {
  }

  /** After ESC [ [ one more byte is read and dropped. */
  lemma FunctionKeyDropped(p: State, c: nat)
    requires Idle(p) && c < 256
    ensures var bs := [ESC, '[' as nat, '[' as nat, c];
            Bytes(bs) && Silent(Events(p, bs)) && Idle(After(p, bs)) && After(p, bs).charsets == p.charsets
  {
    hide After, Events;
    var open := [ESC, '[' as nat];
    OpenSequence(p);
    Feed(p, open, '[' as nat);
    assert open + ['[' as nat] == [ESC, '[' as nat, '[' as nat];
    Feed(p, [ESC, '[' as nat, '[' as nat], c);
    assert [ESC, '[' as nat, '[' as nat] + [c] == [ESC, '[' as nat, '[' as nat, c];
  }

  // ----- escapes --------------------------------------------------------------

  /** A control that is not NUL passes through an idle parser. */
  lemma ControlRead(p: State, c: nat)
    requires Idle(p) && 7 <= c <= 13
    ensures Step(p, c) == (p, Control(c))
  {
  }

  lemma EscapeThen(p: State, c: nat)
    requires Idle(p) && c < 256
    ensures Bytes([ESC, c])
    ensures var (q, e) := Step(p.(escape := true, escapeOffset := 0), c);
            After(p, [ESC, c]) == q && Events(p, [ESC, c]) == [Nothing, e]
  {
    hide Step;
    EscapeStep(p);
    RunSnoc(p, [], ESC);
    assert [] + [ESC] == [ESC];
    RunSnoc(p, [ESC], c);
    assert [ESC] + [c] == [ESC, c];
  }

  /** ESC and a final byte dispatch once, and the parser is idle again, its character sets as before but for
      ESC 7 and 8, which save and restore the one in use. */
  lemma EscapeRead(p: State, c: nat)
    requires Idle(p) && c < 256 && c !in ['[' as nat, ']' as nat, '(' as nat, ')' as nat, 'c' as nat, CAN, SUB]
    requires !StartsUnicode(c)
    ensures Bytes([ESC, c]) && SilentBut(Events(p, [ESC, c]), Escape(c))
    ensures After(p, [ESC, c]) ==
            p.(escapeOffset := 1,
               charsets := if c == '7' as nat then p.charsets.(saved := p.charsets.current)
                           else if c == '8' as nat then p.charsets.(current := p.charsets.saved)
                           else p.charsets)
    ensures Idle(After(p, [ESC, c]))
  {
    hide After, Events;
    EscapeThen(p, c);
  }

  /** ESC c also puts the character sets back: the default one and the line drawing one, the first in use. */
  lemma ResetRead(p: State)
    requires Idle(p)
    ensures Bytes([ESC, 'c' as nat]) && SilentBut(Events(p, [ESC, 'c' as nat]), Escape('c' as nat))
    ensures var q := After(p, [ESC, 'c' as nat]);
            Idle(q) && !q.decPrivate && q.charsets == Charsets(Default, DecSpecial, 0, p.charsets.saved, 0)
  {
    hide After, Events;
    EscapeThen(p, 'c' as nat);
  }

  /** ESC ( designates the first character set, ESC ) the second: 0 the line drawing one, B the default one,
      any other byte neither. */
  lemma CharsetDesignated(p: State, c: nat, d: nat)
    requires Idle(p) && (c == '(' as nat || c == ')' as nat)
    requires d < 256 && d != CAN && d != SUB && !StartsUnicode(d)
    ensures Bytes([ESC, c, d])
    ensures After(p, [ESC, c, d]) ==
            p.(escapeOffset := 1,
               charsets := if c == '(' as nat && d == '0' as nat then p.charsets.(g0 := DecSpecial)
                           else if c == '(' as nat && d == 'B' as nat then p.charsets.(g0 := Default)
                           else if d == '0' as nat then p.charsets.(g1 := DecSpecial)
                           else if d == 'B' as nat then p.charsets.(g1 := Default)
                           else p.charsets)
    ensures Idle(After(p, [ESC, c, d]))
  {
    hide After, Events, Step;
    EscapeThen(p, c);
    ParenStep(p, c);
    RunSnoc(p, [ESC, c], d);
    assert [ESC, c] + [d] == [ESC, c, d];
    DesignatorStep(p, c, d);
  }

  lemma ParenStep(p: State, c: nat)
    requires Idle(p) && (c == '(' as nat || c == ')' as nat)
    ensures Step(p.(escape := true, escapeOffset := 0), c) ==
            (p.(escapeOffset := 1, charsets := p.charsets.(select := if c == '(' as nat then 1 else 2)), Escape(c))
  {
  }

  lemma DesignatorStep(p: State, c: nat, d: nat)
    requires Idle(p) && (c == '(' as nat || c == ')' as nat)
    requires d < 256 && d != CAN && d != SUB && !StartsUnicode(d)
    ensures var q := p.(escapeOffset := 1, charsets := p.charsets.(select := if c == '(' as nat then 1 else 2));
            Step(q, d) ==
            (p.(escapeOffset := 1,
                charsets := if c == '(' as nat && d == '0' as nat then p.charsets.(g0 := DecSpecial)
                            else if c == '(' as nat && d == 'B' as nat then p.charsets.(g0 := Default)
                            else if d == '0' as nat then p.charsets.(g1 := DecSpecial)
                            else if d == 'B' as nat then p.charsets.(g1 := Default)
                            else p.charsets), Nothing)
  {
  }

  /** Shift out puts the second set in use, shift in the first. */
  lemma CharsetShifted(p: State)
    requires Idle(p)
    ensures Step(p, 14) == (p.(charsets := p.charsets.(current := 1)), Nothing)
    ensures Step(p, 15) == (p.(charsets := p.charsets.(current := 0)), Nothing)
  {
  }

  function Escapes(n: nat): (bs: seq<nat>)
    ensures |bs| == n && Bytes(bs)
  {
    seq(n, _ => ESC)
  }

  /** Inside an operating system command after n further ESC bytes. */
  lemma {:induction false} OscOpen(p: State, n: nat)
    requires Idle(p)
    ensures var bs := [ESC, ']' as nat] + Escapes(n);
            && Bytes(bs) && Silent(Events(p, bs))
            && After(p, bs) == p.(escape := true, osc := true, oscEscape := n > 0, escapeOffset := n + 1)
    decreases n
  {
    hide After, Events, Step;
    var open := [ESC, ']' as nat];
    if n == 0 {
      EscapeThen(p, ']' as nat);
      OscSteps(p, 0);
      assert open == open + Escapes(0);
    } else {
      OscOpen(p, n - 1);
      OscSteps(p, n - 1);
      assert open + Escapes(n - 1) + [ESC] == open + Escapes(n);
      Feed(p, open + Escapes(n - 1), ESC);
    }
  }

  lemma OscSteps(p: State, n: nat)
    requires Idle(p)
    ensures Step(p.(escape := true, escapeOffset := 0), ']' as nat) ==
            (p.(escape := true, osc := true, oscEscape := false, escapeOffset := 1), Nothing)
    ensures Step(p.(escape := true, osc := true, oscEscape := n > 0, escapeOffset := n + 1), ESC) ==
            (p.(escape := true, osc := true, oscEscape := true, escapeOffset := n + 2), Nothing)
  {
  }

  /** An operating system command ends with the first byte that is neither ESC nor the start of a UTF-8 sequence,
      whether it is a terminator or not: the parser is idle again, and the rest of its text is read as if it
      came from outside. */
  lemma OscEnds(p: State, n: nat, c: nat)
    requires Idle(p) && c < 256 && c != ESC && !StartsUnicode(c)
    ensures var bs := [ESC, ']' as nat] + Escapes(n) + [c];
            && Bytes(bs) && Silent(Events(p, bs)) && Idle(After(p, bs))
            && After(p, bs).charsets == p.charsets && After(p, bs).params == p.params
  {
    OscOpen(p, n);
    Feed(p, [ESC, ']' as nat] + Escapes(n), c);
  }

  lemma PrintRead(p: State, c: nat)
    requires Idle(p) && 0x20 <= c < 0x7f
    ensures Step(p, c) == (p, Print(c))
  {
  }

  /** So a title set by ESC ] 0 ; and a text is printed from the semicolon on. */
  lemma TitlePrinted(p: State)
    requires Idle(p)
    ensures var bs := [ESC, ']' as nat, '0' as nat, ';' as nat];
            Bytes(bs) && SilentBut(Events(p, bs), Print(';' as nat)) && Idle(After(p, bs))
  {
    hide Step, After, Events;
    OscEnds(p, 0, '0' as nat);
    PrintRead(After(p, [ESC, ']' as nat] + Escapes(0) + ['0' as nat]), ';' as nat);
    var start := [ESC, ']' as nat] + Escapes(0) + ['0' as nat];
    assert start + [';' as nat] == [ESC, ']' as nat, '0' as nat, ';' as nat];
    Feed(p, start, ';' as nat);
  }

  /** CAN in the middle of a private sequence leaves the private flag set in an idle parser. */
  lemma StalePrivateFlag()
    ensures var bs := [ESC, '[' as nat, '?' as nat, CAN];
            Bytes(bs) && Idle(After(Fresh(), bs)) && After(Fresh(), bs).decPrivate && Silent(Events(Fresh(), bs))
  {
    var open := [ESC, '[' as nat];
    OpenSequence(Fresh());
    RunSnoc(Fresh(), open, '?' as nat);
    RunSnoc(Fresh(), open + ['?' as nat], CAN);
    assert open + ['?' as nat] + [CAN] == [ESC, '[' as nat, '?' as nat, CAN];
  }
}
