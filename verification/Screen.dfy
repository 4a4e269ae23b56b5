/** `screen.c` on its static arrays, proved against `TerminalSpec`. */
module ScreenDriver {
  import opened TerminalSpec

  lemma TokenValueSnoc(s: string, c: char)
    ensures TokenValue(s + [c]) == if '0' <= c <= '9' then TokenValue(s) * 10 + (c - '0') as nat else TokenValue(s)
  {
    assert (s + [c])[..|s|] == s;
  }

  lemma TokenLengthIs(buf: string, n: nat)
    requires n <= |buf| && (n < |buf| ==> buf[n] == ';') && forall k :: 0 <= k < n ==> buf[k] != ';'
    ensures TokenLength(buf) == n
  {
  }

  /** The codes from position i on are the one that ends at `end` and those behind the separator. */
  lemma CodesFrom(buf: string, i: nat, end: nat)
    requires i < |buf| && end == i + TokenLength(buf[i..])
    ensures Codes(buf[i..]) == [TokenValue(buf[i..end])] + Codes(buf[if end < |buf| then end + 1 else end..])
    ensures end <= |buf| && (end < |buf| ==> buf[end] == ';')
  {
    var rest, n := buf[i..], end - i;
    assert rest[..n] == buf[i..end];
    assert rest[if n < |rest| then n + 1 else n..] == buf[if end < |buf| then end + 1 else end..];
  }

  lemma SgrFirst(pen: Pen, code: nat, rest: seq<nat>)
    ensures SgrAll(pen, [code] + rest) == SgrAll(Sgr(pen, code), rest)
  {
    assert ([code] + rest)[1..] == rest;
  }

  /** `pen` is what the codes before position i made of `from`. */
  predicate AppliedUpTo(from: Pen, pen: Pen, buf: string, i: nat) {
    i <= |buf| && SgrAll(from, Codes(buf)) == SgrAll(pen, Codes(buf[i..]))
  }

  lemma ApplyNext(from: Pen, pen: Pen, buf: string, i: nat, end: nat)
    requires AppliedUpTo(from, pen, buf, i) && i < |buf| && end == i + TokenLength(buf[i..])
    ensures end <= |buf| && (end < |buf| ==> buf[end] == ';')
    ensures AppliedUpTo(from, Sgr(pen, TokenValue(buf[i..end])), buf, if end < |buf| then end + 1 else end)
  {
    CodesFrom(buf, i, end);
    SgrFirst(pen, TokenValue(buf[i..end]), Codes(buf[if end < |buf| then end + 1 else end..]));
  }

  lemma ApplyDone(from: Pen, pen: Pen, buf: string, i: nat)
    requires AppliedUpTo(from, pen, buf, i) && i == |buf|
    ensures SgrAll(from, Codes(buf)) == pen
  {
    assert buf[i..] == [];
  }

  class Screen {
    const lines: array2<Cell>
    const escBuf: array<char>
    var curRow: int
    var curCol: int
    var scrollOff: int
    var currentAttr: nat
    var ansiBold: bool
    var escState: nat
    var escLen: nat

    ghost predicate Shape() {
      lines.Length0 == MAX_LOG && lines.Length1 == MAX_COLS && escBuf.Length == ESC_CAP + 1
    }

    ghost function RowOf(r: nat): (s: Row)
      reads lines
      requires Shape() && r < MAX_LOG
      ensures |s| == MAX_COLS && forall c :: 0 <= c < MAX_COLS ==> s[c] == lines[r, c]
    {
      seq(MAX_COLS, c requires 0 <= c < MAX_COLS && Shape() reads lines => lines[r, c])
    }

    ghost function Log(): (s: seq<Row>)
      reads lines
      requires Shape()
      ensures |s| == MAX_LOG && forall r :: 0 <= r < MAX_LOG ==> s[r] == RowOf(r)
    {
      seq(MAX_LOG, r requires 0 <= r < MAX_LOG && Shape() reads lines => RowOf(r))
    }

    ghost predicate InBounds()
      reads this
    {
      && Shape()
      && 0 <= curRow < MAX_LOG && 0 <= curCol < MAX_COLS && 0 <= scrollOff <= MAX_LOG - MAX_ROWS
      && escState <= 2 && escLen <= ESC_CAP && (escState != 2 ==> escLen == 0)
    }

    ghost function GridView(): Grid
      reads this, lines
      requires Shape() && curRow >= 0 && curCol >= 0
    {
      Grid(Log(), curRow, curCol, scrollOff)
    }

    ghost function ParserView(): Parser
      reads this, escBuf
      requires Shape() && escLen <= ESC_CAP
    {
      if escState == 0 then Plain else if escState == 1 then Escape else Params(escBuf[..escLen])
    }

    ghost function View(): Terminal
      reads this, lines, escBuf
      requires InBounds()
    {
      Terminal(ParserView(), Pen(currentAttr, ansiBold), GridView())
    }

    ghost predicate Valid()
      reads this, lines, escBuf
    {
      InBounds() && TerminalOk(View())
    }

    function MakeCell(c: char): Cell
      reads this
    {
      Cell(currentAttr, c)
    }

    constructor ()
      ensures Valid() && View() == Cleared() && fresh(lines) && fresh(escBuf)
    {
      lines := new Cell[MAX_LOG, MAX_COLS]((r, c) => Cell(0x07, ' '));
      escBuf := new char[ESC_CAP + 1](_ => ' ');
      curRow, curCol, scrollOff := 0, 0, 0;
      currentAttr, ansiBold, escState, escLen := 0x07, false, 0, 0;
      new;
      assert forall r :: 0 <= r < MAX_LOG ==> RowOf(r) == BlankRow(0x07);
      assert Log() == Cleared().grid.lines;
    }

    method EnsureRowBlank(r: nat)
      requires Shape() && r < MAX_LOG
      modifies lines
      ensures Log() == old(Log())[r := BlankRow(currentAttr)]
    {
      for x := 0 to MAX_COLS
        invariant forall c :: 0 <= c < x ==> lines[r, c] == Cell(currentAttr, ' ')
        invariant forall q, c :: 0 <= q < MAX_LOG && 0 <= c < MAX_COLS && q != r ==> lines[q, c] == old(lines[q, c])
      {
        lines[r, x] := MakeCell(' ');
      }
      assert RowOf(r) == BlankRow(currentAttr);
      assert forall q :: 0 <= q < MAX_LOG && q != r ==> RowOf(q) == old(RowOf(q));
    }

    method ApplySgrToken(code: nat)
      modifies this`currentAttr, this`ansiBold
      ensures Pen(currentAttr, ansiBold) == Sgr(old(Pen(currentAttr, ansiBold)), code)
    {
      if code == 0 {
        currentAttr := 0x07;
        ansiBold := false;
        return;
      }
      if code == 1 {
        ansiBold := true;
        return;
      }
      if code == 22 {
        ansiBold := false;
        return;
      }
      if code == 39 {
        currentAttr := currentAttr / 16 * 16 + 7;
        return;
      }
      if 30 <= code <= 37 {
        var fg := code - 30;
        if ansiBold {
          fg := fg + 8;
        }
        currentAttr := currentAttr / 16 * 16 + fg % 16;
        return;
      }
      if 90 <= code <= 97 {
        var fg := 8 + (code - 90);
        currentAttr := currentAttr / 16 * 16 + fg % 16;
        return;
      }
    }

    /** Splits the collected parameters at semicolons and applies the codes in order. */
    method FlushEscSequence()
      requires InBounds() && escState == 2
      modifies this`currentAttr, this`ansiBold, this`escLen, this`escState, escBuf
      ensures InBounds() && escState == 0
      ensures Pen(currentAttr, ansiBold) == SgrAll(old(Pen(currentAttr, ansiBold)), Codes(old(escBuf[..escLen])))
    {
      escBuf[escLen] := '\0';
      ApplyCodes();
      escLen := 0;
      escState := 0;
    }

    method ApplyCodes()
      requires Shape() && escLen <= ESC_CAP
      modifies this`currentAttr, this`ansiBold
      ensures Pen(currentAttr, ansiBold) == SgrAll(old(Pen(currentAttr, ansiBold)), Codes(escBuf[..escLen]))
    {
      ghost var buf, pen := escBuf[..escLen], Pen(currentAttr, ansiBold);
      var i := 0;
      assert buf[0..] == buf;
      while i < escLen
        invariant 0 <= i <= escLen
        invariant AppliedUpTo(pen, Pen(currentAttr, ansiBold), buf, i)
      {
        i := ApplyOne(i, pen);
      }
      ApplyDone(pen, Pen(currentAttr, ansiBold), buf, i);
    }

    method ApplyOne(start: nat, ghost pen: Pen) returns (i: nat)
      requires Shape() && start < escLen <= ESC_CAP
      requires AppliedUpTo(pen, Pen(currentAttr, ansiBold), escBuf[..escLen], start)
      modifies this`currentAttr, this`ansiBold
      ensures start < i <= escLen && AppliedUpTo(pen, Pen(currentAttr, ansiBold), escBuf[..escLen], i)
    {
      i := TokenEnd(start);
      var n := TokenNumber(start, i);
      ApplyNext(pen, Pen(currentAttr, ansiBold), escBuf[..escLen], start, i);
      ApplySgrToken(n);
      if i < escLen && escBuf[i] == ';' {
        i := i + 1;
      }
    }

    /** The first inner loop of the flush: the end of the token. */
    method TokenEnd(start: nat) returns (i: nat)
      requires Shape() && start < escLen <= ESC_CAP
      ensures i == start + TokenLength(escBuf[..escLen][start..])
    {
      ghost var rest := escBuf[..escLen][start..];
      i := start;
      while i < escLen && escBuf[i] != ';'
        invariant start <= i <= escLen
        invariant forall k :: 0 <= k < i - start ==> rest[k] != ';'
      {
        i := i + 1;
      }
      TokenLengthIs(rest, i - start);
    }

    /** The second one: its value. */
    method TokenNumber(start: nat, end: nat) returns (n: nat)
      requires Shape() && start <= end <= escLen <= ESC_CAP
      ensures n == TokenValue(escBuf[..escLen][start..end])
    {
      ghost var token := escBuf[..escLen][start..end];
      n := 0;
      for j := start to end
        invariant n == TokenValue(token[..j - start])
      {
        TokenValueSnoc(token[..j - start], escBuf[j]);
        assert token[j - start] == escBuf[j];
        assert token[..j + 1 - start] == token[..j - start] + [token[j - start]];
        if '0' <= escBuf[j] <= '9' {
          n := n * 10 + (escBuf[j] - '0') as nat;
        }
      }
      assert token[..end - start] == token;
    }

    method ClampScroll()
      requires curRow >= 0
      modifies this`scrollOff
      ensures scrollOff == Clamp(old(scrollOff), curRow)
      ensures var last := if curRow < 24 then 0 else curRow - 24;
        0 <= scrollOff <= last && (0 <= old(scrollOff) <= last ==> scrollOff == old(scrollOff))
    {
      var maxScroll := curRow - (MAX_ROWS - 1);
      if maxScroll < 0 {
        maxScroll := 0;
      }
      if scrollOff < 0 {
        scrollOff := 0;
      }
      if scrollOff > maxScroll {
        scrollOff := maxScroll;
      }
    }

    method FollowCursor()
      requires Shape() && curRow >= 0 && curCol >= 0
      modifies this`scrollOff
      ensures GridView() == Follow(old(GridView()))
      ensures scrollOff == if curRow < 24 then 0 else curRow - 24
    {
      if curRow >= scrollOff + MAX_ROWS {
        scrollOff := curRow - (MAX_ROWS - 1);
      }
      ClampScroll();
    }

    /** Every row moves up by one, in place. */
    method ShiftRows()
      requires Shape()
      modifies lines
      ensures forall r :: 0 <= r < MAX_LOG - 1 ==> RowOf(r) == old(RowOf(r + 1))
    {
      for r := 1 to MAX_LOG
        invariant forall q, c :: 0 <= q < r - 1 && 0 <= c < MAX_COLS ==> lines[q, c] == old(lines[q + 1, c])
        invariant forall q, c :: r <= q < MAX_LOG && 0 <= c < MAX_COLS ==> lines[q, c] == old(lines[q, c])
      {
        for c := 0 to MAX_COLS
          invariant forall q, d :: 0 <= q < r - 1 && 0 <= d < MAX_COLS ==> lines[q, d] == old(lines[q + 1, d])
          invariant forall q, d :: r <= q < MAX_LOG && 0 <= d < MAX_COLS ==> lines[q, d] == old(lines[q, d])
          invariant forall d :: 0 <= d < c ==> lines[r - 1, d] == old(lines[r, d])
        {
          lines[r - 1, c] := lines[r, c];
        }
      }
    }

    method AdvanceRow()
      requires Shape() && 0 <= curRow < MAX_LOG && curCol >= 0
      modifies this`curRow, this`curCol, this`scrollOff, lines
      ensures 0 <= curRow && 0 <= curCol && GridView() == Advance(old(GridView()), currentAttr)
    {
      ghost var g := GridView();
      curCol := 0;
      curRow := curRow + 1;
      if curRow >= MAX_LOG {
        ShiftRows();
        curRow := MAX_LOG - 1;
        EnsureRowBlank(curRow);
        assert Log() == g.lines[1..] + [BlankRow(currentAttr)];
      } else {
        EnsureRowBlank(curRow);
      }
      FollowCursor();
    }

    method ClearScreen()
      requires Shape()
      modifies this, lines
      ensures Valid() && View() == Cleared()
    {
      currentAttr := 0x07;
      ansiBold := false;
      escState := 0;
      escLen := 0;
      curRow := 0;
      curCol := 0;
      scrollOff := 0;
      for r := 0 to MAX_LOG
        invariant currentAttr == 0x07 && !ansiBold && escState == escLen == 0 && curRow == curCol == scrollOff == 0
        invariant forall q :: 0 <= q < r ==> Log()[q] == BlankRow(0x07)
      {
        EnsureRowBlank(r);
      }
      assert Log() == Cleared().grid.lines;
    }

    method ScreenScrollView(delta: int)
      requires Valid()
      modifies this`scrollOff
      ensures Valid() && View() == old(View()).(grid := Scroll(old(GridView()), delta))
    {
      ScrollOk(GridView(), delta);
      scrollOff := scrollOff + delta;
      ClampScroll();
    }

    method PutCell(r: nat, c: nat, ch: char)
      requires Shape() && r < MAX_LOG && c < MAX_COLS
      modifies lines
      ensures Log() == SetCell(old(Log()), r, c, Cell(currentAttr, ch))
    {
      lines[r, c] := MakeCell(ch);
      assert RowOf(r) == old(RowOf(r))[c := Cell(currentAttr, ch)];
      assert forall q :: 0 <= q < MAX_LOG && q != r ==> RowOf(q) == old(RowOf(q));
    }

    /** `putchar` outside an escape sequence. */
    method PutPlain(c: char)
      requires Valid() && escState == 0 && c != ESC
      modifies this`curRow, this`curCol, this`scrollOff, lines
      ensures InBounds() && GridView() == Place(old(GridView()), currentAttr, c) && GridOk(GridView())
    {
      PlaceOk(GridView(), currentAttr, c);
      if c == '\n' {
        AdvanceRow();
        return;
      }
      if c == BACKSPACE {
        if curCol > 0 {
          curCol := curCol - 1;
          PutCell(curRow, curCol, ' ');
        } else if curRow > 0 {
          curRow := curRow - 1;
          curCol := MAX_COLS - 1;
          PutCell(curRow, curCol, ' ');
        }
        return;
      }
      if c == '\r' {
        curCol := 0;
        return;
      }
      PutCell(curRow, curCol, c);
      curCol := curCol + 1;
      if curCol >= MAX_COLS {
        AdvanceRow();
      }
      FollowCursor();
    }

    method Putchar(c: char)
      requires Valid()
      modifies this, lines, escBuf
      ensures Valid() && View() == Put(old(View()), c)
    {
      PutOk(View(), c);
      if escState == 0 && c == ESC {
        escState := 1;
        escLen := 0;
        return;
      }
      if escState == 1 {
        if c == '[' {
          escState := 2;
        } else {
          escState := 0;
        }
        return;
      }
      if escState == 2 {
        if ('0' <= c <= '9') || c == ';' {
          if escLen < escBuf.Length - 1 {
            escBuf[escLen] := c;
            escLen := escLen + 1;
            assert escBuf[..escLen] == old(escBuf[..escLen]) + [c];
          }
          return;
        }
        if c == 'm' {
          FlushEscSequence();
          return;
        }
        escState := 0;
        escLen := 0;
        return;
      }
      PutPlain(c);
    }

    method Print(str: string)
      requires Valid()
      modifies this, lines, escBuf
      ensures Valid() && TerminalOk(old(View())) && View() == TerminalSpec.Print(old(View()), str)
    {
      ghost var t := View();
      assert str[0..] == str;
      for i := 0 to |str|
        invariant Valid() && TerminalSpec.Print(t, str) == TerminalSpec.Print(View(), str[i..])
      {
        assert str[i..][1..] == str[i + 1..];
        Putchar(str[i]);
      }
    }
  }
}
