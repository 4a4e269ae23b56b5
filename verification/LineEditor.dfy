/** The shell's line editor and the terminal it echoes to. */
module LineEditor {
  import opened TerminalSpec

  const MAX_LINE := 256

  /** The line typed so far and the terminal. */
  datatype Typing = Typing(line: string, term: Terminal)

  ghost predicate TypingOk(t: Typing) {
    |t.line| < MAX_LINE && TerminalOk(t.term)
  }

  /** `microsos_shell_handle_char` for a key other than newline. */
  function Key(t: Typing, c: char): Typing
    requires TypingOk(t)
  {
    if c == BACKSPACE then
      if t.line == [] then t else Typing(t.line[..|t.line| - 1], Put(t.term, BACKSPACE))
    else if |t.line| < MAX_LINE - 1 then Typing(t.line + [c], Put(t.term, c))
    else t
  }

  function Keys(t: Typing, keys: string): (r: Typing)
    requires TypingOk(t)
    ensures TypingOk(r)
  {
    if keys == [] then t
    else
      var before := Keys(t, keys[..|keys| - 1]);
      PutOk(before.term, BACKSPACE);
      PutOk(before.term, keys[|keys| - 1]);
      Key(before, keys[|keys| - 1])
  }

  /** The line editor alone: what is typed, minus what is rubbed out, up to 255 characters. */
  function Edited(keys: string): (line: string)
    ensures |line| < MAX_LINE
  {
    if keys == [] then []
    else
      var line, c := Edited(keys[..|keys| - 1]), keys[|keys| - 1];
      if c == BACKSPACE then (if line == [] then [] else line[..|line| - 1])
      else if |line| < MAX_LINE - 1 then line + [c] else line
  }

  /** Without backspaces the line is what was typed, up to 255 characters. */
  lemma {:induction false} TypedIsLine(keys: string)
    requires BACKSPACE !in keys
    ensures Edited(keys) == if |keys| <= 255 then keys else keys[..255]
  {
    if keys != [] {
      var n := |keys| - 1;
      TypedIsLine(keys[..n]);
      assert keys == keys[..n] + [keys[n]];
      assert n >= 255 ==> keys[..n][..255] == keys[..255];
    }
  }

  /** One more key. */
  lemma EditedSnoc(keys: string, c: char)
    ensures var line := Edited(keys);
      Edited(keys + [c]) ==
        if c == BACKSPACE then (if line == "" then "" else line[..|line| - 1])
        else if |line| < 255 then line + [c] else line
  {
    assert (keys + [c])[..|keys|] == keys;
  }

  /** A backspace takes back the last character typed, if that one was taken in; in a full line, where it was
      not, it removes the character before it. On an empty line it does nothing. */
  lemma RubOut(keys: string, c: char)
    requires c != BACKSPACE
    ensures var line := Edited(keys);
      && Edited(keys + [c, BACKSPACE]) == (if |line| < 255 then line else line[..254])
      && (line == "" ==> Edited(keys + [BACKSPACE]) == "")
  {
    EditedSnoc(keys, c);
    EditedSnoc(keys, BACKSPACE);
    EditedSnoc(keys + [c], BACKSPACE);
    assert keys + [c, BACKSPACE] == keys + [c] + [BACKSPACE];
  }

  // ---------------------------------------------------------------- cells in reading order

  const CELLS := MAX_LOG * MAX_COLS

  function Position(g: Grid): nat { g.row * MAX_COLS + g.col }

  function CellAt(g: Grid, p: nat): Cell
    requires GridOk(g) && p < CELLS
  {
    g.lines[p / MAX_COLS][p % MAX_COLS]
  }

  /** Keys that put a character into the line. */
  predicate Printable(c: char) { c != ESC && c != '\n' && c != '\r' && c != BACKSPACE }

  /** Rows that leave the log when a character is placed at the cursor. */
  function RowsShifted(g: Grid): nat { if Position(g) == CELLS - 1 then 1 else 0 }

  /** A printable character fills the cursor's cell, moves on by one, and leaves every earlier cell alone. */
  lemma PlaceInOrder(g: Grid, attr: nat, c: char)
    requires GridOk(g) && Printable(c)
    ensures var g', d := Place(g, attr, c), MAX_COLS * RowsShifted(g);
      && GridOk(g')
      && Position(g') + d == Position(g) + 1
      && forall q: nat :: d <= q <= Position(g) ==>
           CellAt(g', q - d) == if q == Position(g) then Cell(attr, c) else CellAt(g, q)
  {
    PlaceOk(g, attr, c);
    var g', d := Place(g, attr, c), MAX_COLS * RowsShifted(g);
    forall q: nat | d <= q <= Position(g)
      ensures CellAt(g', q - d) == if q == Position(g) then Cell(attr, c) else CellAt(g, q)
    {
      RowAndColumn(q, d, g);
    }
  }

  lemma RowAndColumn(q: nat, d: nat, g: Grid)
    requires GridOk(g) && q <= Position(g) && d <= q && (d == 0 || d == MAX_COLS)
    ensures q / MAX_COLS <= g.row && (q / MAX_COLS == g.row ==> q % MAX_COLS <= g.col)
    ensures q == Position(g) <==> q / MAX_COLS == g.row && q % MAX_COLS == g.col
    ensures (q - d) / MAX_COLS == q / MAX_COLS - (if d == 0 then 0 else 1) && (q - d) % MAX_COLS == q % MAX_COLS
  {
  }

  /** Away from the end of a row a printable character changes one cell; at the end it also opens the next
      row, as a newline would. */
  lemma PlaceInRow(g: Grid, attr: nat, c: char)
    requires GridOk(g) && Printable(c)
    ensures var g', written := Place(g, attr, c), SetCell(g.lines, g.row, g.col, Cell(attr, c));
      && (g.col < 79 ==> g'.lines == written && g'.row == g.row && g'.col == g.col + 1)
      && (g.col == 79 ==> g' == Place(g.(lines := written), attr, '\n'))
  {
  }

  /** A backspace behind another cell blanks that cell and moves back to it; at the start of the log it does
      nothing. */
  lemma BackInOrder(g: Grid, attr: nat)
    requires GridOk(g)
    ensures var g' := Place(g, attr, BACKSPACE);
      && GridOk(g')
      && (if Position(g) == 0 then g' == g
          else
            && Position(g') + 1 == Position(g)
            && forall q: nat :: q < CELLS ==>
                 CellAt(g', q) == if q == Position(g') then Cell(attr, ' ') else CellAt(g, q))
  {
    PlaceOk(g, attr, BACKSPACE);
    var g' := Place(g, attr, BACKSPACE);
    if Position(g) > 0 {
      forall q: nat | q < CELLS
        ensures CellAt(g', q) == if q == Position(g') then Cell(attr, ' ') else CellAt(g, q)
      {
        CellIsThere(q, g');
      }
    }
  }

  lemma CellIsThere(q: nat, g: Grid)
    requires GridOk(g) && q < CELLS
    ensures q == Position(g) <==> q / MAX_COLS == g.row && q % MAX_COLS == g.col
  {
  }

  // ---------------------------------------------------------------- the screen shows the line

  /** From position p on, with d rows gone, the log spells the line. */
  ghost predicate LineAt(g: Grid, p: nat, line: string, d: nat)
    requires GridOk(g)
  {
    forall k :: 0 <= k < |line| ==>
      0 <= p + k - MAX_COLS * d < CELLS && CellAt(g, p + k - MAX_COLS * d).ch == line[k]
  }

  /** With d rows gone, the cells before position p are those of `start`. */
  ghost predicate KeptBefore(start: Grid, g: Grid, p: nat, d: nat)
    requires GridOk(start) && GridOk(g) && p <= CELLS
  {
    forall q: nat :: MAX_COLS * d <= q < p ==> CellAt(g, q - MAX_COLS * d) == CellAt(start, q)
  }

  /** After d rows left the log: the cells from the prompt's end to the cursor spell the line, and what the
      log still has from before the prompt's end is unchanged, its last row included. */
  ghost predicate Spells(start: Grid, g: Grid, line: string, d: nat) {
    && GridOk(start) && GridOk(g) && d <= start.row
    && Position(g) + MAX_COLS * d == Position(start) + |line|
    && LineAt(g, Position(start), line, d)
    && KeptBefore(start, g, Position(start), d)
  }

  /** The retained part of the log moves up by the rows that leave it. */
  lemma CellsMove(g: Grid, attr: nat, c: char, d: nat, p: nat)
    requires GridOk(g) && Printable(c)
    requires MAX_COLS * (d + RowsShifted(g)) <= p < Position(g) + MAX_COLS * d
    ensures GridOk(Place(g, attr, c))
    ensures CellAt(Place(g, attr, c), p - MAX_COLS * (d + RowsShifted(g))) == CellAt(g, p - MAX_COLS * d)
  {
    PlaceInOrder(g, attr, c);
    var q: nat := p - MAX_COLS * d;
    assert q - MAX_COLS * RowsShifted(g) == p - MAX_COLS * (d + RowsShifted(g));
  }

  lemma CharMoves(g: Grid, attr: nat, c: char, p: nat, line: string, d: nat, k: nat)
    requires GridOk(g) && Printable(c) && LineAt(g, p, line, d) && k < |line|
    requires Position(g) + MAX_COLS * d == p + |line| && MAX_COLS * (d + RowsShifted(g)) <= p
    ensures GridOk(Place(g, attr, c))
    ensures var q := p + k - MAX_COLS * (d + RowsShifted(g));
      0 <= q < CELLS && CellAt(Place(g, attr, c), q).ch == line[k]
  {
    assert 0 <= p + k - MAX_COLS * d < CELLS && CellAt(g, p + k - MAX_COLS * d).ch == line[k];
    CellsMove(g, attr, c, d, p + k);
  }

  lemma LineMoves(g: Grid, attr: nat, c: char, p: nat, line: string, d: nat)
    requires GridOk(g) && Printable(c) && LineAt(g, p, line, d)
    requires Position(g) + MAX_COLS * d == p + |line| && MAX_COLS * (d + RowsShifted(g)) <= p
    ensures GridOk(Place(g, attr, c)) && LineAt(Place(g, attr, c), p, line + [c], d + RowsShifted(g))
  {
    CellPlaced(g, attr, c);
    var g', d' := Place(g, attr, c), d + RowsShifted(g);
    forall k | 0 <= k < |line| + 1
      ensures 0 <= p + k - MAX_COLS * d' < CELLS && CellAt(g', p + k - MAX_COLS * d').ch == (line + [c])[k]
    {
      if k < |line| {
        CharMoves(g, attr, c, p, line, d, k);
      } else {
        assert p + k - MAX_COLS * d' == Position(g) - MAX_COLS * RowsShifted(g);
      }
    }
  }

  lemma CellPlaced(g: Grid, attr: nat, c: char)
    requires GridOk(g) && Printable(c)
    ensures GridOk(Place(g, attr, c)) && 0 <= Position(g) - MAX_COLS * RowsShifted(g)
    ensures CellAt(Place(g, attr, c), Position(g) - MAX_COLS * RowsShifted(g)) == Cell(attr, c)
  {
    PlaceInOrder(g, attr, c);
  }

  lemma PromptMoves(start: Grid, g: Grid, attr: nat, c: char, p: nat, d: nat)
    requires GridOk(start) && GridOk(g) && Printable(c) && p <= CELLS && KeptBefore(start, g, p, d)
    requires p <= Position(g) + MAX_COLS * d
    ensures GridOk(Place(g, attr, c)) && KeptBefore(start, Place(g, attr, c), p, d + RowsShifted(g))
  {
    PlaceOk(g, attr, c);
    var g', d' := Place(g, attr, c), d + RowsShifted(g);
    forall q: nat | MAX_COLS * d' <= q < p
      ensures CellAt(g', q - MAX_COLS * d') == CellAt(start, q)
    {
      CellsMove(g, attr, c, d, q);
    }
  }

  lemma SpellsMore(start: Grid, g: Grid, line: string, d: nat, attr: nat, c: char)
    requires Spells(start, g, line, d) && |line| < MAX_LINE - 1 && Printable(c)
    ensures Spells(start, Place(g, attr, c), line + [c], d + RowsShifted(g))
  {
    PlaceInOrder(g, attr, c);
    assert d + RowsShifted(g) <= start.row;
    LineMoves(g, attr, c, Position(start), line, d);
    PromptMoves(start, g, attr, c, Position(start), d);
  }

  lemma SpellsLess(start: Grid, g: Grid, line: string, d: nat, attr: nat)
    requires Spells(start, g, line, d) && line != []
    ensures Spells(start, Place(g, attr, BACKSPACE), line[..|line| - 1], d)
  {
    BackInOrder(g, attr);
  }

  lemma KeySpells(start: Grid, t: Typing, d: nat, c: char)
    requires TypingOk(t) && t.term.parser.Plain? && Spells(start, t.term.grid, t.line, d)
    requires Printable(c) || c == BACKSPACE
    ensures var u := Key(t, c);
      && u.term.parser.Plain? && u.term.pen == t.term.pen
      && exists e: nat :: Spells(start, u.term.grid, u.line, e)
  {
    var g, attr := t.term.grid, t.term.pen.attr;
    if c == BACKSPACE {
      if t.line != [] { SpellsLess(start, g, t.line, d, attr); }
    } else if |t.line| < MAX_LINE - 1 {
      SpellsMore(start, g, t.line, d, attr, c);
    }
  }

  /** After these keys the log spells the edited line. */
  ghost predicate Shown(start: Terminal, t: Typing, keys: string) {
    && TerminalOk(start) && TypingOk(t)
    && t.line == Edited(keys) && t.term.parser.Plain? && t.term.pen == start.pen
    && exists d: nat :: Spells(start.grid, t.term.grid, t.line, d)
  }

  lemma ShownStart(start: Terminal)
    requires TerminalOk(start) && start.parser.Plain?
    ensures Shown(start, Typing("", start), "")
  {
    assert Spells(start.grid, start.grid, "", 0);
  }

  lemma ShownStep(start: Terminal, t: Typing, keys: string, c: char)
    requires Shown(start, t, keys) && (Printable(c) || c == BACKSPACE)
    ensures TypingOk(Key(t, c)) && Shown(start, Key(t, c), keys + [c])
  {
    assert (keys + [c])[..|keys|] == keys;
    PutOk(t.term, c);
    var d: nat :| Spells(start.grid, t.term.grid, t.line, d);
    KeySpells(start.grid, t, d, c);
  }

  lemma {:induction false} AllShown(start: Terminal, keys: string)
    requires TerminalOk(start) && start.parser.Plain?
    requires forall k :: 0 <= k < |keys| ==> Printable(keys[k]) || keys[k] == BACKSPACE
    ensures Shown(start, Keys(Typing("", start), keys), keys)
  {
    if keys == [] {
      ShownStart(start);
    } else {
      var n := |keys| - 1;
      AllShown(start, keys[..n]);
      ShownStep(start, Keys(Typing("", start), keys[..n]), keys[..n], keys[n]);
      assert keys[..n] + [keys[n]] == keys;
    }
  }

  /** From any prompt position, after any keys other than ESC, newline and carriage return, the log spells
      the line behind the prompt and the prompt is still there, across row wraps and log shifts. */
  lemma ScreenShowsLine(start: Terminal, keys: string)
    requires TerminalOk(start) && start.parser.Plain?
    requires forall k :: 0 <= k < |keys| ==> Printable(keys[k]) || keys[k] == BACKSPACE
    ensures var t := Keys(Typing("", start), keys);
      && t.line == Edited(keys) && t.term.parser.Plain? && t.term.pen == start.pen
      && exists d: nat :: Spells(start.grid, t.term.grid, t.line, d)
  {
    AllShown(start, keys);
  }
}
