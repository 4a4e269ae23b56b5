/** The 200-row log with in-place shifting is a window onto an unbounded transcript. */
module Transcript {
  import opened TerminalSpec

  /** Every row ever reached; the cursor is in one of them. */
  datatype Paper = Paper(rows: seq<Row>, row: nat, col: nat)

  /** Rows that have left the log: max(0, highest row reached - 199). */
  function Dropped(p: Paper): nat {
    if |p.rows| <= MAX_LOG then 0 else |p.rows| - MAX_LOG
  }

  ghost predicate PaperOk(p: Paper) {
    && Dropped(p) <= p.row < |p.rows| && p.col < MAX_COLS
    && forall r :: 0 <= r < |p.rows| ==> |p.rows[r]| == MAX_COLS
  }

  function NewLine(p: Paper, attr: nat): Paper
    requires p.row < |p.rows|
  {
    if p.row + 1 < |p.rows| then p.(rows := p.rows[p.row + 1 := BlankRow(attr)], row := p.row + 1, col := 0)
    else p.(rows := p.rows + [BlankRow(attr)], row := p.row + 1, col := 0)
  }

  /** A character on paper; a backspace does not go above row `floor`. */
  function Mark(p: Paper, attr: nat, c: char, floor: nat): Paper
    requires p.row < |p.rows| && p.col < MAX_COLS && forall r :: 0 <= r < |p.rows| ==> |p.rows[r]| == MAX_COLS
  {
    if c == '\n' then NewLine(p, attr)
    else if c == BACKSPACE then
      if p.col > 0 then p.(rows := SetCell(p.rows, p.row, p.col - 1, Cell(attr, ' ')), col := p.col - 1)
      else if p.row > floor then
        p.(rows := SetCell(p.rows, p.row - 1, MAX_COLS - 1, Cell(attr, ' ')), row := p.row - 1, col := MAX_COLS - 1)
      else p
    else if c == '\r' then p.(col := 0)
    else
      var written := p.(rows := SetCell(p.rows, p.row, p.col, Cell(attr, c)));
      if p.col + 1 >= MAX_COLS then NewLine(written, attr) else written.(col := p.col + 1)
  }

  /** Row k of the paper; rows never reached are blank as `clear_screen` left them. */
  function RowAt(p: Paper, k: nat): Row {
    if k < |p.rows| then p.rows[k] else BlankRow(0x07)
  }

  /** The log is the paper from row Dropped on, with the cursor moved up as much. */
  ghost predicate Shows(g: Grid, p: Paper) {
    && |g.lines| == MAX_LOG
    && p.row == Dropped(p) + g.row && p.col == g.col
    && forall r :: 0 <= r < MAX_LOG ==> g.lines[r] == RowAt(p, Dropped(p) + r)
  }

  lemma NewLineShown(g: Grid, p: Paper, attr: nat)
    requires GridOk(g) && PaperOk(p) && Shows(g, p)
    ensures PaperOk(NewLine(p, attr)) && Shows(Advance(g, attr), NewLine(p, attr))
  {
    var g', p' := Advance(g, attr), NewLine(p, attr);
    forall r | 0 <= r < MAX_LOG
      ensures g'.lines[r] == RowAt(p', Dropped(p') + r)
    {
      if g.row + 1 >= MAX_LOG {
        if r + 1 < MAX_LOG { assert g'.lines[r] == g.lines[r + 1]; }
      } else {
        assert r != g.row + 1 ==> g'.lines[r] == g.lines[r];
      }
    }
  }

  lemma SetCellShown(g: Grid, p: Paper, r: nat, c: nat, cell: Cell)
    requires GridOk(g) && PaperOk(p) && Shows(g, p) && c < MAX_COLS && r <= g.row
    ensures Dropped(p) + r < |p.rows|
    ensures var g' := g.(lines := SetCell(g.lines, r, c, cell));
      var p' := p.(rows := SetCell(p.rows, Dropped(p) + r, c, cell));
      GridOk(g') && PaperOk(p') && Shows(g', p')
  {
  }

  lemma GlyphShown(g: Grid, p: Paper, attr: nat, c: char)
    requires GridOk(g) && PaperOk(p) && Shows(g, p) && c != '\n' && c != BACKSPACE && c != '\r'
    ensures PaperOk(Mark(p, attr, c, Dropped(p))) && Shows(Place(g, attr, c), Mark(p, attr, c, Dropped(p)))
  {
    SetCellShown(g, p, g.row, g.col, Cell(attr, c));
    var g', p' := g.(lines := SetCell(g.lines, g.row, g.col, Cell(attr, c))),
                  p.(rows := SetCell(p.rows, p.row, p.col, Cell(attr, c)));
    if g.col + 1 >= MAX_COLS {
      NewLineShown(g', p', attr);
    }
  }

  lemma BackspaceShown(g: Grid, p: Paper, attr: nat)
    requires GridOk(g) && PaperOk(p) && Shows(g, p)
    ensures PaperOk(Mark(p, attr, BACKSPACE, Dropped(p)))
    ensures Shows(Place(g, attr, BACKSPACE), Mark(p, attr, BACKSPACE, Dropped(p)))
  {
    if g.col > 0 {
      SetCellShown(g, p, g.row, g.col - 1, Cell(attr, ' '));
    } else if g.row > 0 {
      SetCellShown(g, p, g.row - 1, MAX_COLS - 1, Cell(attr, ' '));
    }
  }

  /** One character keeps the correspondence, if backspace stops at the oldest row of the log. */
  lemma PlaceShown(g: Grid, p: Paper, attr: nat, c: char)
    requires GridOk(g) && PaperOk(p) && Shows(g, p)
    ensures PaperOk(Mark(p, attr, c, Dropped(p))) && Shows(Place(g, attr, c), Mark(p, attr, c, Dropped(p)))
  {
    if c == '\n' {
      NewLineShown(g, p, attr);
    } else if c == BACKSPACE {
      BackspaceShown(g, p, attr);
    } else if c != '\r' {
      GlyphShown(g, p, attr, c);
    }
  }

  // ---------------------------------------------------------------- streams

  /** A terminal that writes on paper. */
  datatype Teletype = Teletype(parser: Parser, pen: Pen, paper: Paper)

  /** `bounded` is whether backspace stops where the log ends. */
  function Type(t: Teletype, c: char, bounded: bool): Teletype
    requires PaperShape(t.paper)
  {
    var parser := NextParser(t.parser, c);
    match ActionOf(t.parser, c)
    case Skip => t.(parser := parser)
    case Glyph(_) => Teletype(parser, t.pen, Mark(t.paper, t.pen.attr, c, if bounded then Dropped(t.paper) else 0))
    case Colours(buf) => Teletype(parser, SgrAll(t.pen, Codes(buf)), t.paper)
  }

  ghost predicate PaperShape(p: Paper) {
    p.row < |p.rows| && p.col < MAX_COLS && forall r :: 0 <= r < |p.rows| ==> |p.rows[r]| == MAX_COLS
  }

  lemma MarkShape(p: Paper, attr: nat, c: char, floor: nat)
    requires PaperShape(p)
    ensures PaperShape(Mark(p, attr, c, floor))
  {
  }

  ghost function TypeAll(t: Teletype, s: string, bounded: bool): (r: Teletype)
    requires PaperShape(t.paper)
    ensures PaperShape(r.paper)
    decreases |s|
  {
    if s == [] then t
    else
      MarkShape(t.paper, t.pen.attr, s[0], if bounded then Dropped(t.paper) else 0);
      TypeAll(Type(t, s[0], bounded), s[1..], bounded)
  }

  function Fresh(): Teletype {
    Teletype(Plain, NORMAL, Paper([BlankRow(0x07)], 0, 0))
  }

  /** The same parser and pen, and a log that is a window onto the paper. */
  ghost predicate Mirrors(s: Terminal, t: Teletype) {
    TerminalOk(s) && PaperOk(t.paper) && s.parser == t.parser && s.pen == t.pen && Shows(s.grid, t.paper)
  }

  lemma PutMirrors(s: Terminal, t: Teletype, c: char)
    requires Mirrors(s, t)
    ensures Mirrors(Put(s, c), Type(t, c, true))
  {
    PutOk(s, c);
    if ActionOf(s.parser, c).Glyph? { PlaceShown(s.grid, t.paper, s.pen.attr, c); }
  }

  lemma {:induction false} PrintMirrors(s: Terminal, t: Teletype, stream: string)
    requires Mirrors(s, t)
    ensures Mirrors(Print(s, stream), TypeAll(t, stream, true))
    decreases |stream|
  {
    if stream != [] {
      PutMirrors(s, t, stream[0]);
      PrintMirrors(Put(s, stream[0]), Type(t, stream[0], true), stream[1..]);
    }
  }

  /** Terminal refinement: for every stream after `clear_screen`, the log is the window of the transcript
      that starts at row max(0, highest row reached - 199). */
  lemma TerminalRefinesTranscript(stream: string)
    ensures TerminalOk(Cleared()) && PaperOk(Fresh().paper)
    ensures Mirrors(Print(Cleared(), stream), TypeAll(Fresh(), stream, true))
  {
    PrintMirrors(Cleared(), Fresh(), stream);
  }

  // ---------------------------------------------------------------- the one difference

  /** The next character is a backspace at the oldest cell that the log still has, while older rows exist. */
  predicate AtTornEdge(t: Teletype, c: char) {
    t.parser.Plain? && c == BACKSPACE && t.paper.col == 0 && t.paper.row == Dropped(t.paper) > 0
  }

  ghost predicate NeverTorn(t: Teletype, stream: string)
    requires PaperOk(t.paper)
    decreases |stream|
  {
    stream == [] ||
    (&& !AtTornEdge(t, stream[0])
     && (TypeOk(t, stream[0]); NeverTorn(Type(t, stream[0], true), stream[1..])))
  }

  lemma TypeOk(t: Teletype, c: char)
    requires PaperOk(t.paper)
    ensures PaperOk(Type(t, c, true).paper)
  {
  }

  /** The log and an unbounded terminal differ on a character if and only if it is such a backspace. */
  lemma DiffersOnlyAtTornEdge(t: Teletype, c: char)
    requires PaperOk(t.paper)
    ensures Type(t, c, true) == Type(t, c, false) <==> !AtTornEdge(t, c)
  {
  }

  lemma {:induction false} SameWhenNeverTorn(t: Teletype, stream: string)
    requires PaperOk(t.paper) && NeverTorn(t, stream)
    ensures TypeAll(t, stream, true) == TypeAll(t, stream, false)
    decreases |stream|
  {
    if stream != [] {
      DiffersOnlyAtTornEdge(t, stream[0]);
      TypeOk(t, stream[0]);
      SameWhenNeverTorn(Type(t, stream[0], true), stream[1..]);
    }
  }

  lemma {:induction false} NeverTornPrefix(t: Teletype, stream: string, n: nat)
    requires PaperOk(t.paper) && n <= |stream| && NeverTorn(t, stream)
    ensures NeverTorn(t, stream[..n])
    decreases |stream|
  {
    if n > 0 {
      assert stream[..n][0] == stream[0] && stream[..n][1..] == stream[1..][..n - 1];
      TypeOk(t, stream[0]);
      NeverTornPrefix(Type(t, stream[0], true), stream[1..], n - 1);
    }
  }

  lemma {:induction false} DiffersOnceTorn(t: Teletype, stream: string)
    requires PaperOk(t.paper) && !NeverTorn(t, stream)
    ensures exists n :: 0 <= n <= |stream| && TypeAll(t, stream[..n], true) != TypeAll(t, stream[..n], false)
    decreases |stream|
  {
    var c := stream[0];
    DiffersOnlyAtTornEdge(t, c);
    TypeOk(t, c);
    if AtTornEdge(t, c) {
      assert stream[..1] == [c] && [c][1..] == [];
      assert TypeAll(t, stream[..1], true) != TypeAll(t, stream[..1], false);
    } else {
      var next := Type(t, c, true);
      DiffersOnceTorn(next, stream[1..]);
      var n :| 0 <= n <= |stream| - 1
        && TypeAll(next, stream[1..][..n], true) != TypeAll(next, stream[1..][..n], false);
      assert stream[..n + 1][0] == c && stream[..n + 1][1..] == stream[1..][..n];
      assert TypeAll(t, stream[..n + 1], true) != TypeAll(t, stream[..n + 1], false);
    }
  }

  /** The log shows an unbounded transcript all along the stream if and only if no such backspace occurs. */
  lemma UnboundedIffNeverTorn(t: Teletype, stream: string)
    requires PaperOk(t.paper)
    ensures NeverTorn(t, stream) <==>
      forall n :: 0 <= n <= |stream| ==> TypeAll(t, stream[..n], true) == TypeAll(t, stream[..n], false)
  {
    if NeverTorn(t, stream) {
      forall n | 0 <= n <= |stream|
        ensures TypeAll(t, stream[..n], true) == TypeAll(t, stream[..n], false)
      {
        NeverTornPrefix(t, stream, n);
        SameWhenNeverTorn(t, stream[..n]);
      }
    } else {
      DiffersOnceTorn(t, stream);
    }
  }
}
