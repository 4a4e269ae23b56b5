/** Escape sequences: they never reach the log, and a colour sequence sets exactly the colours it lists. */
module Escapes {
  import opened Sequences
  import opened TerminalSpec
  import opened Numbers

  // ---------------------------------------------------------------- streams

  lemma {:induction false} PrintConcat(t: Terminal, a: string, b: string)
    requires TerminalOk(t)
    ensures Print(t, a + b) == Print(Print(t, a), b)
    decreases |a|
  {
    if a == [] {
      assert a + b == b;
    } else {
      PutOk(t, a[0]);
      assert (a + b)[1..] == a[1..] + b;
      PrintConcat(Put(t, a[0]), a[1..], b);
    }
  }

  // ---------------------------------------------------------------- transparency

  /** What follows the parameters and the final character of a sequence. */
  function AfterParams(s: string): (r: string)
    ensures |r| <= |s|
  {
    if s == [] then [] else if IsParam(s[0]) then AfterParams(s[1..]) else s[1..]
  }

  /** What follows the sequence that began with an ESC before s. */
  function AfterEscape(s: string): (r: string)
    ensures |r| <= |s|
  {
    if s == [] then [] else if s[0] == '[' then AfterParams(s[1..]) else s[1..]
  }

  /** The stream without its escape sequences. */
  function Strip(s: string): string
    decreases |s|
  {
    if s == [] then []
    else if s[0] == ESC then Strip(AfterEscape(s[1..]))
    else [s[0]] + Strip(s[1..])
  }

  /** The same characters in the log, the same cursor and the same view; colours may differ. */
  ghost predicate SameText(g: Grid, h: Grid) {
    && |g.lines| == |h.lines| && g.row == h.row && g.col == h.col && g.off == h.off
    && forall r :: 0 <= r < |g.lines| ==> SameRow(g.lines[r], h.lines[r])
  }

  predicate SameRow(a: Row, b: Row) {
    |a| == |b| && forall c :: 0 <= c < |a| ==> a[c].ch == b[c].ch
  }

  lemma AdvanceSameText(g: Grid, h: Grid, attr: nat, attr': nat)
    requires |g.lines| == MAX_LOG && SameText(g, h)
    ensures SameText(Advance(g, attr), Advance(h, attr'))
  {
    assert SameRow(BlankRow(attr), BlankRow(attr'));
  }

  lemma SetCellSameText(g: Grid, h: Grid, r: nat, c: nat, ch: char, attr: nat, attr': nat)
    requires SameText(g, h) && r < |g.lines| && c < |g.lines[r]|
    ensures SameRow(g.lines[r], h.lines[r])
    ensures SameText(g.(lines := SetCell(g.lines, r, c, Cell(attr, ch))),
                     h.(lines := SetCell(h.lines, r, c, Cell(attr', ch))))
  {
    assert SameRow(g.lines[r], h.lines[r]);
  }

  lemma PlaceSameText(g: Grid, h: Grid, attr: nat, attr': nat, c: char)
    requires GridOk(g) && GridOk(h) && SameText(g, h)
    ensures SameText(Place(g, attr, c), Place(h, attr', c))
  {
    if c == '\n' {
      AdvanceSameText(g, h, attr, attr');
    } else if c == BACKSPACE {
      if g.col > 0 {
        SetCellSameText(g, h, g.row, g.col - 1, ' ', attr, attr');
      } else if g.row > 0 {
        SetCellSameText(g, h, g.row - 1, MAX_COLS - 1, ' ', attr, attr');
      }
    } else if c != '\r' {
      SetCellSameText(g, h, g.row, g.col, c, attr, attr');
      AdvanceSameText(g.(lines := SetCell(g.lines, g.row, g.col, Cell(attr, c))),
                      h.(lines := SetCell(h.lines, h.row, h.col, Cell(attr', c))), attr, attr');
    }
  }

  /** Inside a sequence nothing is placed; afterwards the parser is back where it was. */
  lemma {:induction false} ParamsPlaceNothing(t: Terminal, s: string) returns (t': Terminal)
    requires TerminalOk(t) && t.parser.Params?
    ensures TerminalOk(t') && t'.grid == t.grid && t'.parser.Plain?
    ensures Print(t, s).grid == Print(t', AfterParams(s)).grid
    decreases |s|
  {
    if s == [] {
      t' := t.(parser := Plain);
    } else {
      PutOk(t, s[0]);
      var next := Put(t, s[0]);
      if IsParam(s[0]) {
        t' := ParamsPlaceNothing(next, s[1..]);
      } else {
        t' := next;
      }
    }
  }

  lemma EscapePlacesNothing(t: Terminal, s: string) returns (t': Terminal)
    requires TerminalOk(t) && t.parser.Escape?
    ensures TerminalOk(t') && t'.grid == t.grid && t'.parser.Plain?
    ensures Print(t, s).grid == Print(t', AfterEscape(s)).grid
  {
    if s == [] {
      t' := t.(parser := Plain);
    } else {
      PutOk(t, s[0]);
      var next := Put(t, s[0]);
      if s[0] == '[' {
        t' := ParamsPlaceNothing(next, s[1..]);
      } else {
        t' := next;
      }
    }
  }

  /** Escape transparency: the text and the cursor are those of the stream without escape sequences. */
  lemma {:induction false} EscapesAreTransparent(t: Terminal, u: Terminal, s: string)
    requires TerminalOk(t) && TerminalOk(u) && t.parser.Plain? && u.parser.Plain? && SameText(t.grid, u.grid)
    ensures SameText(Print(t, s).grid, Print(u, Strip(s)).grid)
    decreases |s|
  {
    if s != [] {
      PutOk(t, s[0]);
      if s[0] == ESC {
        var t' := EscapePlacesNothing(Put(t, s[0]), s[1..]);
        EscapesAreTransparent(t', u, AfterEscape(s[1..]));
      } else {
        PutOk(u, s[0]);
        PlaceSameText(t.grid, u.grid, t.pen.attr, u.pen.attr, s[0]);
        EscapesAreTransparent(Put(t, s[0]), Put(u, s[0]), s[1..]);
        assert ([s[0]] + Strip(s[1..]))[1..] == Strip(s[1..]);
      }
    }
  }

  // ---------------------------------------------------------------- colours

  /** The codes in decimal with semicolons between them. */
  function Join(codes: seq<nat>): string
    decreases |codes|
  {
    if codes == [] then ""
    else if |codes| == 1 then Numeral(codes[0], 10, false)
    else Numeral(codes[0], 10, false) + ";" + Join(codes[1..])
  }

  lemma {:induction false} TokenValueOfDigits(s: string)
    requires AllDigits(s)
    ensures TokenValue(s) == Eval(s, 10)
  {
    if s != [] {
      var n := |s| - 1;
      assert IsDigit(s[n]);
      TokenValueOfDigits(s[..n]);
    }
  }

  lemma {:induction false} TokenLengthOfDigits(s: string, rest: string)
    requires AllDigits(s) && (rest == [] || rest[0] == ';')
    ensures TokenLength(s + rest) == |s|
  {
    if s == [] {
      assert s + rest == rest;
    } else {
      assert (s + rest)[1..] == s[1..] + rest;
      assert IsDigit(s[0]);
      TokenLengthOfDigits(s[1..], rest);
    }
  }

  lemma FirstCode(s: string, rest: string)
    requires AllDigits(s) && s != [] && (rest == [] || rest[0] == ';')
    ensures Codes(s + rest) == [Eval(s, 10)] + Codes(if rest == [] then [] else rest[1..])
  {
    var buf := s + rest;
    TokenValueOfDigits(s);
    TokenLengthOfDigits(s, rest);
    assert buf[..|s|] == s;
    if rest == [] {
      assert buf[|s|..] == [];
    } else {
      assert buf[|s| + 1..] == rest[1..];
    }
  }

  /** The parameter parser reads back any list of codes. */
  lemma {:induction false} CodesOfJoin(codes: seq<nat>)
    ensures Codes(Join(codes)) == codes
    decreases |codes|
  {
    if codes != [] {
      var s := Numeral(codes[0], 10, false);
      DecimalDigits(codes[0]);
      NumeralEvaluates(codes[0], 10, false);
      if |codes| == 1 {
        FirstCode(s, "");
        assert s + "" == s;
      } else {
        var rest := ";" + Join(codes[1..]);
        FirstCode(s, rest);
        JoinMore(codes);
        assert rest[1..] == Join(codes[1..]);
        CodesOfJoin(codes[1..]);
      }
    }
  }

  lemma JoinMore(codes: seq<nat>)
    requires |codes| > 1
    ensures Join(codes) == Numeral(codes[0], 10, false) + (";" + Join(codes[1..]))
  {
    Associative(Numeral(codes[0], 10, false), ";", Join(codes[1..]));
  }

  predicate AllParams(s: string) { forall k :: 0 <= k < |s| ==> IsParam(s[k]) }

  /** The part of the parameters that is kept: the first 31 characters. */
  function Kept(params: string): string {
    if |params| <= 31 then params else params[..31]
  }

  lemma {:induction false} ParamsCollected(t: Terminal, before: string, s: string)
    requires TerminalOk(t) && t.parser == Params(Kept(before)) && AllParams(s)
    ensures Print(t, s) == t.(parser := Params(Kept(before + s)))
    decreases |s|
  {
    if s == [] {
      assert before + s == before;
    } else {
      PutOk(t, s[0]);
      KeptStep(before, s[0]);
      assert before + [s[0]] + s[1..] == before + s;
      ParamsCollected(Put(t, s[0]), before + [s[0]], s[1..]);
    }
  }

  lemma KeptStep(before: string, c: char)
    ensures Kept(before + [c]) == if |before| < 31 then Kept(before) + [c] else Kept(before)
  {
    assert |before| > 31 ==> (before + [c])[..31] == before[..31];
    assert |before| == 31 ==> (before + [c])[..31] == before;
  }

  lemma {:induction false} JoinIsParams(codes: seq<nat>)
    ensures AllParams(Join(codes))
    decreases |codes|
  {
    if codes != [] {
      DecimalDigits(codes[0]);
      var s := Numeral(codes[0], 10, false);
      forall k | 0 <= k < |s| ensures IsParam(s[k]) { assert IsDigit(s[k]); }
      if |codes| > 1 { JoinIsParams(codes[1..]); }
    }
  }

  /** A complete sequence moves only the pen, by the codes in the first 31 characters of its parameters. */
  lemma SequenceApplies(t: Terminal, params: string)
    requires TerminalOk(t) && t.parser.Plain? && AllParams(params)
    ensures Print(t, ['\U{1B}', '['] + params + "m") == t.(pen := SgrAll(t.pen, Codes(Kept(params))))
  {
    OpenSequence(t);
    ParamsCollected(t.(parser := Params("")), "", params);
    assert "" + params == params;
    CloseSequence(t, Kept(params));
    PrintThree(t, [ESC, '['], params, "m");
  }

  /** A colour sequence applies its codes from left to right and does nothing else. */
  lemma ColourSequence(t: Terminal, codes: seq<nat>)
    requires TerminalOk(t) && t.parser.Plain? && |Join(codes)| <= 31
    ensures Print(t, ['\U{1B}', '['] + Join(codes) + "m") == t.(pen := SgrAll(t.pen, codes))
  {
    JoinIsParams(codes);
    CodesOfJoin(codes);
    SequenceApplies(t, Join(codes));
  }

  lemma CloseSequence(t: Terminal, params: string)
    requires TerminalOk(t) && t.parser.Plain? && |params| <= ESC_CAP
    ensures Print(t.(parser := Params(params)), "m") == t.(pen := SgrAll(t.pen, Codes(params)))
  {
    PrintOne(t.(parser := Params(params)), 'm');
  }

  lemma OpenSequence(t: Terminal)
    requires TerminalOk(t) && t.parser.Plain?
    ensures Print(t, [ESC, '[']) == t.(parser := Params(""))
  {
    PrintTwo(t, ESC, '[');
  }

  lemma PrintThree(t: Terminal, a: string, b: string, c: string)
    requires TerminalOk(t)
    ensures Print(t, a + b + c) == Print(Print(Print(t, a), b), c)
  {
    PrintConcat(t, a, b);
    PrintConcat(t, a + b, c);
  }

  lemma {:induction false} SgrKeepsBackground(pen: Pen, codes: seq<nat>)
    ensures SgrAll(pen, codes).attr / 16 == pen.attr / 16 || SgrAll(pen, codes).attr < 16
    decreases |codes|
  {
    if codes != [] { SgrKeepsBackground(Sgr(pen, codes[0]), codes[1..]); }
  }

  /** No stream can set a background: it is black from `clear_screen` on, for every cell ever written. */
  lemma {:induction false} BackgroundStaysBlack(t: Terminal, s: string)
    requires TerminalOk(t) && BlackBackground(t)
    ensures BlackBackground(Print(t, s))
    decreases |s|
  {
    if s != [] {
      var c := s[0];
      PutOk(t, c);
      var action := ActionOf(t.parser, c);
      if action.Colours? { SgrKeepsBackground(t.pen, Codes(action.buf)); }
      if action.Glyph? { PlaceKeepsBlack(t.grid, t.pen.attr, c); }
      BackgroundStaysBlack(Put(t, c), s[1..]);
    }
  }

  ghost predicate BlackRow(row: Row) { forall c :: 0 <= c < |row| ==> row[c].attr < 16 }

  ghost predicate BlackBackground(t: Terminal) {
    t.pen.attr < 16 && forall r :: 0 <= r < |t.grid.lines| ==> BlackRow(t.grid.lines[r])
  }

  lemma PlaceKeepsBlack(g: Grid, attr: nat, c: char)
    requires GridOk(g) && attr < 16 && forall r :: 0 <= r < |g.lines| ==> BlackRow(g.lines[r])
    ensures forall r :: 0 <= r < |Place(g, attr, c).lines| ==> BlackRow(Place(g, attr, c).lines[r])
  {
    assert BlackRow(BlankRow(attr));
  }

  lemma PrintOne(t: Terminal, c: char)
    requires TerminalOk(t)
    ensures TerminalOk(Put(t, c)) && Print(t, [c]) == Put(t, c)
  {
    PutOk(t, c);
    assert [c][1..] == [];
  }

  lemma PrintTwo(t: Terminal, c: char, d: char)
    requires TerminalOk(t)
    ensures TerminalOk(Put(t, c)) && Print(t, [c, d]) == Put(Put(t, c), d)
  {
    PutOk(t, c);
    assert [c, d][1..] == [d];
    PrintOne(Put(t, c), d);
  }
}
