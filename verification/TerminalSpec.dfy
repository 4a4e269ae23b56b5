/** What `screen.c` does to its state, as a value: the escape-sequence parser, the pen, and the log of rows. */
module TerminalSpec {
  const MAX_ROWS := 25
  const MAX_COLS := 80
  const MAX_LOG := 200
  const ESC := '\U{1B}'
  const BACKSPACE := '\U{08}'
  const ESC_CAP := 31      // sizeof(esc_buf) - 1

  /** A cell of the log: attribute byte and character. */
  datatype Cell = Cell(attr: nat, ch: char)

  type Row = seq<Cell>

  function BlankRow(attr: nat): (r: Row)
    ensures |r| == MAX_COLS && forall c :: 0 <= c < MAX_COLS ==> r[c] == Cell(attr, ' ')
  {
    seq(MAX_COLS, _ => Cell(attr, ' '))
  }

  // ---------------------------------------------------------------- parser

  /** `esc_state` 0, 1 and 2; the digits and semicolons seen so far matter in state 2 only. */
  datatype Parser = Plain | Escape | Params(buf: string)

  /** What one character does besides moving the parser. */
  datatype Action = Skip | Glyph(c: char) | Colours(buf: string)

  predicate IsParam(c: char) { '0' <= c <= '9' || c == ';' }

  function NextParser(p: Parser, c: char): Parser {
    match p
    case Plain => if c == ESC then Escape else Plain
    case Escape => if c == '[' then Params("") else Plain
    case Params(buf) =>
      if IsParam(c) then (if |buf| < ESC_CAP then Params(buf + [c]) else p) else Plain
  }

  function ActionOf(p: Parser, c: char): Action {
    match p
    case Plain => if c == ESC then Skip else Glyph(c)
    case Escape => Skip
    case Params(buf) => if c == 'm' then Colours(buf) else Skip
  }

  // ---------------------------------------------------------------- pen

  datatype Pen = Pen(attr: nat, bold: bool)

  const NORMAL := Pen(0x07, false)

  /** Foreground fg under the background of attr. */
  function WithForeground(attr: nat, fg: nat): nat { attr / 16 * 16 + fg % 16 }

  /** One SGR code: a subset of section 8.3.117 of ECMA-48, with 90-97 for the bright colours. */
  function Sgr(pen: Pen, code: nat): Pen {
    if code == 0 then NORMAL
    else if code == 1 then pen.(bold := true)
    else if code == 22 then pen.(bold := false)
    else if code == 39 then pen.(attr := WithForeground(pen.attr, 7))
    else if 30 <= code <= 37 then pen.(attr := WithForeground(pen.attr, code - 30 + if pen.bold then 8 else 0))
    else if 90 <= code <= 97 then pen.(attr := WithForeground(pen.attr, 8 + code - 90))
    else pen
  }

  function SgrAll(pen: Pen, codes: seq<nat>): Pen
    decreases |codes|
  {
    if codes == [] then pen else SgrAll(Sgr(pen, codes[0]), codes[1..])
  }

  /** Characters before the first ';', or all. */
  function TokenLength(buf: string): (n: nat)
    ensures n <= |buf| && (n < |buf| ==> buf[n] == ';')
    ensures forall k :: 0 <= k < n ==> buf[k] != ';'
  {
    if buf == [] || buf[0] == ';' then 0 else 1 + TokenLength(buf[1..])
  }

  /** A decimal number, passing over other characters. */
  function TokenValue(s: string): nat {
    if s == [] then 0
    else
      var front, c := TokenValue(s[..|s| - 1]), s[|s| - 1];
      if '0' <= c <= '9' then front * 10 + (c - '0') as nat else front
  }

  /** The codes of a parameter string. An empty token counts as 0, except behind a final ';'. */
  function Codes(buf: string): seq<nat>
    decreases |buf|
  {
    if buf == [] then []
    else
      var n := TokenLength(buf);
      [TokenValue(buf[..n])] + Codes(buf[if n < |buf| then n + 1 else n..])
  }

  // ---------------------------------------------------------------- grid

  /** The log, the cursor, and the first log row shown. */
  datatype Grid = Grid(lines: seq<Row>, row: nat, col: nat, off: int)

  ghost predicate GridOk(g: Grid) {
    && |g.lines| == MAX_LOG && (forall r :: 0 <= r < MAX_LOG ==> |g.lines[r]| == MAX_COLS)
    && g.row < MAX_LOG && g.col < MAX_COLS
    && 0 <= g.off <= MAX_LOG - MAX_ROWS
  }

  function MaxScroll(row: nat): nat {
    if row < MAX_ROWS - 1 then 0 else row - (MAX_ROWS - 1)
  }

  function Clamp(off: int, row: nat): int {
    if off < 0 then 0 else if off > MaxScroll(row) then MaxScroll(row) else off
  }

  /** `follow_cursor`. */
  function Follow(g: Grid): Grid {
    g.(off := Clamp(if g.row >= g.off + MAX_ROWS then g.row - (MAX_ROWS - 1) else g.off, g.row))
  }

  /** `advance_row`: the log shifts up when the cursor would leave it. */
  function Advance(g: Grid, attr: nat): Grid
    requires |g.lines| == MAX_LOG
  {
    if g.row + 1 >= MAX_LOG then
      Follow(g.(lines := g.lines[1..] + [BlankRow(attr)], row := MAX_LOG - 1, col := 0))
    else
      Follow(g.(lines := g.lines[g.row + 1 := BlankRow(attr)], row := g.row + 1, col := 0))
  }

  function SetCell(lines: seq<Row>, r: nat, c: nat, cell: Cell): seq<Row>
    requires r < |lines| && c < |lines[r]|
  {
    lines[r := lines[r][c := cell]]
  }

  /** A character outside any escape sequence. */
  function Place(g: Grid, attr: nat, c: char): Grid
    requires GridOk(g)
  {
    if c == '\n' then Advance(g, attr)
    else if c == BACKSPACE then
      if g.col > 0 then g.(lines := SetCell(g.lines, g.row, g.col - 1, Cell(attr, ' ')), col := g.col - 1)
      else if g.row > 0 then
        g.(lines := SetCell(g.lines, g.row - 1, MAX_COLS - 1, Cell(attr, ' ')), row := g.row - 1, col := MAX_COLS - 1)
      else g
    else if c == '\r' then g.(col := 0)
    else
      var written := g.(lines := SetCell(g.lines, g.row, g.col, Cell(attr, c)));
      if g.col + 1 >= MAX_COLS then Follow(Advance(written, attr)) else Follow(written.(col := g.col + 1))
  }

  function Scroll(g: Grid, delta: int): Grid {
    g.(off := Clamp(g.off + delta, g.row))
  }

  // ---------------------------------------------------------------- terminal

  datatype Terminal = Terminal(parser: Parser, pen: Pen, grid: Grid)

  ghost predicate TerminalOk(t: Terminal) {
    GridOk(t.grid) && (t.parser.Params? ==> |t.parser.buf| <= ESC_CAP)
  }

  /** After `clear_screen()`. */
  function Cleared(): Terminal {
    Terminal(Plain, NORMAL, Grid(seq(MAX_LOG, _ => BlankRow(0x07)), 0, 0, 0))
  }

  /** `putchar(c)`. */
  function Put(t: Terminal, c: char): Terminal
    requires TerminalOk(t)
  {
    var parser := NextParser(t.parser, c);
    match ActionOf(t.parser, c)
    case Skip => t.(parser := parser)
    case Glyph(_) => Terminal(parser, t.pen, Place(t.grid, t.pen.attr, c))
    case Colours(buf) => Terminal(parser, SgrAll(t.pen, Codes(buf)), t.grid)
  }

  /** The row is among the 25 rows shown from row off on. */
  predicate InView(row: nat, off: int) { off <= row < off + 25 }

  /** Bounds hold after every character. After a newline or a printed character the cursor row is among the
      25 rows shown, and the view starts at the least row for which it is; backspace and carriage return
      leave the view alone, and a carriage return everything but the column. */
  lemma PlaceOk(g: Grid, attr: nat, c: char)
    requires GridOk(g)
    ensures GridOk(Place(g, attr, c))
    ensures var g' := Place(g, attr, c);
      if c == '\r' then g' == g.(col := 0)
      else if c == BACKSPACE then g'.off == g.off
      else
        && g'.off == (if g'.row < 24 then 0 else g'.row - 24)
        && InView(g'.row, g'.off)
        && forall off :: 0 <= off && InView(g'.row, off) ==> g'.off <= off
  {
  }

  /** A newline moves the cursor to the start of the next row and blanks that row in the current colours; at
      the end of the log all rows move up by one. */
  lemma NewlineOpensRow(g: Grid, attr: nat)
    requires GridOk(g)
    ensures var g' := Place(g, attr, '\n');
      && GridOk(g') && g'.col == 0 && g'.row == (if g.row < 199 then g.row + 1 else 199)
      && (forall c :: 0 <= c < 80 ==> g'.lines[g'.row][c] == Cell(attr, ' '))
      && forall r :: 0 <= r < 200 && r != g'.row ==> g'.lines[r] == g.lines[if g.row < 199 then r else r + 1]
  {
    PlaceOk(g, attr, '\n');
  }

  /** After `clear_screen` the log is 200 rows of 80 grey blanks, with the cursor at the start of the first. */
  lemma ClearedIsBlank()
    ensures var t := Cleared();
      && TerminalOk(t) && t.parser.Plain? && t.pen == Pen(7, false)
      && t.grid.row == t.grid.col == t.grid.off == 0
      && |t.grid.lines| == 200
      && forall r, c :: 0 <= r < 200 && 0 <= c < 80 ==> t.grid.lines[r][c] == Cell(7, ' ')
  {
  }

  lemma PutOk(t: Terminal, c: char)
    requires TerminalOk(t)
    ensures TerminalOk(Put(t, c))
  {
    if ActionOf(t.parser, c).Glyph? { PlaceOk(t.grid, t.pen.attr, c); }
  }

  /** A stream of characters. */
  function Print(t: Terminal, s: string): (r: Terminal)
    requires TerminalOk(t)
    ensures TerminalOk(r)
    decreases |s|
  {
    if s == [] then t
    else
      PutOk(t, s[0]);
      Print(Put(t, s[0]), s[1..])
  }

  /** Whatever is printed and however the view is scrolled in between, the 25 rows that are copied to the
      video memory are rows of the log. */
  lemma ViewInLog(t: Terminal, s: string, delta: int, r: nat)
    requires TerminalOk(t) && r < MAX_ROWS
    ensures 0 <= Print(t, s).grid.off + r < MAX_LOG
    ensures 0 <= Scroll(Print(t, s).grid, delta).off + r < MAX_LOG
  {
    ScrollOk(Print(t, s).grid, delta);
  }

  /** Scrolling moves the view as asked, but not above the log nor beyond the view that ends at the cursor. */
  lemma ScrollOk(g: Grid, delta: int)
    requires GridOk(g)
    ensures GridOk(Scroll(g, delta)) && Scroll(g, delta) == g.(off := Scroll(g, delta).off)
    ensures var off, last := Scroll(g, delta).off, if g.row < 24 then 0 else g.row - 24;
      && 0 <= off <= last
      && (0 <= g.off + delta <= last ==> off == g.off + delta)
      && (g.off + delta < 0 ==> off == 0)
      && (g.off + delta > last ==> off == last)
  {
  }
}
