/** What the colour sequences do to the characters printed after them. */
module Colours {
  import opened TerminalSpec
  import opened Numbers
  import opened Escapes
  import opened LineEditor

  /** The escape sequence with these parameters, as a program prints it. */
  function Sequence(params: string): string { ['\U{1B}', '['] + params + "m" }

  // ---------------------------------------------------------------- sequences in a row

  lemma {:induction false} SgrConcat(pen: Pen, a: seq<nat>, b: seq<nat>)
    ensures SgrAll(pen, a + b) == SgrAll(SgrAll(pen, a), b)
    decreases |a|
  {
    if a == [] {
      assert a + b == b;
    } else {
      assert (a + b)[1..] == a[1..] + b;
      SgrConcat(Sgr(pen, a[0]), a[1..], b);
    }
  }

  /** An empty token before a semicolon. */
  predicate EndsEmpty(params: string) { params == "" || params[|params| - 1] == ';' }

  lemma {:induction false} TokenLengthKept(a: string, b: string)
    ensures TokenLength(a + ";" + b) == TokenLength(a)
  {
    if a == "" {
      assert (a + ";" + b)[0] == ';';
    } else {
      assert (a + ";" + b)[1..] == a[1..] + ";" + b;
      TokenLengthKept(a[1..], b);
    }
  }

  /** The codes of a string that begins with a token and a semicolon. */
  lemma FirstToken(token: string, rest: string)
    requires TokenLength(token) == |token|
    ensures Codes(token + ";" + rest) == [TokenValue(token)] + Codes(rest)
  {
    var buf := token + ";" + rest;
    TokenLengthKept(token, rest);
    assert buf[..|token|] == token && buf[|token| + 1..] == rest;
  }

  lemma LastToken(token: string)
    requires TokenLength(token) == |token| > 0
    ensures Codes(token) == [TokenValue(token)]
  {
    assert token[..|token|] == token && token[|token|..] == [];
  }

  lemma SplitToken(a: string, b: string) returns (token: string, rest: string)
    requires TokenLength(a) < |a|
    ensures TokenLength(token) == |token| < |a| && a == token + ";" + rest && EndsEmpty(a) == EndsEmpty(rest)
    ensures a + ";" + b == token + ";" + (rest + ";" + b)
  {
    token, rest := a[..TokenLength(a)], a[TokenLength(a) + 1..];
    TokenAlone(a);
  }

  lemma {:induction false} TokenAlone(a: string)
    ensures TokenLength(a[..TokenLength(a)]) == TokenLength(a)
  {
    if a != [] && a[0] != ';' {
      assert a[..TokenLength(a)][1..] == a[1..][..TokenLength(a[1..])];
      TokenAlone(a[1..]);
    }
  }

  lemma {:induction false} CodesOfJoined(a: string, b: string)
    ensures Codes(a + ";" + b) == Codes(a) + (if EndsEmpty(a) then [0] else []) + Codes(b)
    decreases |a|
  {
    if TokenLength(a) == |a| {
      FirstToken(a, b);
      if a != "" { LastToken(a); }
    } else {
      var token, rest := SplitToken(a, b);
      FirstToken(token, rest);
      FirstToken(token, rest + ";" + b);
      CodesOfJoined(rest, b);
      Grouped([TokenValue(token)], Codes(rest), if EndsEmpty(a) then [0] else [], Codes(b));
    }
  }

  lemma Grouped(a: seq<nat>, b: seq<nat>, c: seq<nat>, d: seq<nat>)
    ensures a + (b + c + d) == a + b + c + d
  {
  }

  lemma ShortSequence(t: Terminal, params: string)
    requires TerminalOk(t) && t.parser.Plain? && AllParams(params) && |params| <= 31
    ensures Print(t, Sequence(params)) == t.(pen := SgrAll(t.pen, Codes(params)))
  {
    SequenceApplies(t, params);
  }

  lemma JoinedPens(pen: Pen, a: string, b: string)
    ensures var between := if EndsEmpty(a) then SgrAll(SgrAll(pen, Codes(a)), Codes("0")) else SgrAll(pen, Codes(a));
      SgrAll(pen, Codes(a + ";" + b)) == SgrAll(between, Codes(b))
  {
    var c := if EndsEmpty(a) then [0] else [];
    CodesOfJoined(a, b);
    OneCode("0", 0);
    SgrConcat(pen, Codes(a) + c, Codes(b));
    SgrConcat(pen, Codes(a), c);
  }

  /** Parameters joined by a semicolon do what the two sequences do one after the other; an empty parameter
      before the semicolon does what 0 does. */
  lemma JoinedSequences(t: Terminal, a: string, b: string)
    requires TerminalOk(t) && t.parser.Plain? && AllParams(a) && AllParams(b) && |a| + 1 + |b| <= 31
    ensures Print(t, Sequence(a + ";" + b))
      == Print(Print(t, Sequence(a) + if EndsEmpty(a) then Sequence("0") else ""), Sequence(b))
  {
    JoinedPens(t.pen, a, b);
    ShortSequence(t, a + ";" + b);
    ShortSequence(t, a);
    var u := t.(pen := SgrAll(t.pen, Codes(a)));
    PrintConcat(t, Sequence(a), if EndsEmpty(a) then Sequence("0") else "");
    ShortSequence(u, "0");
    ShortSequence(Print(u, if EndsEmpty(a) then Sequence("0") else ""), b);
  }

  /** Parameters beyond the 31st character are dropped. */
  lemma LongSequence(t: Terminal, params: string)
    requires TerminalOk(t) && t.parser.Plain? && AllParams(params) && |params| > 31
    ensures Print(t, Sequence(params)) == Print(t, Sequence(params[..31]))
  {
    SequenceApplies(t, params);
    SequenceApplies(t, params[..31]);
  }

  lemma OneCode(s: string, code: nat)
    requires s != "" && AllDigits(s) && Eval(s, 10) == code
    ensures AllParams(s) && Codes(s) == [code] && forall pen :: SgrAll(pen, Codes(s)) == Sgr(pen, code)
  {
    FirstCode(s, "");
    assert s + "" == s;
    forall k | 0 <= k < |s| ensures IsParam(s[k]) { assert IsDigit(s[k]); }
    assert [code][1..] == [];
  }

  /** A sequence that ends in another character than m, and an ESC without a bracket, do nothing at all. */
  lemma OtherSequences(t: Terminal, params: string, c: char)
    requires TerminalOk(t) && t.parser.Plain? && AllParams(params)
    ensures c != 'm' && !IsParam(c) ==> Print(t, ['\U{1B}', '['] + params + [c]) == t
    ensures c != '[' ==> Print(t, ['\U{1B}', c]) == t
  {
    if c != 'm' && !IsParam(c) {
      OpenSequence(t);
      ParamsCollected(t.(parser := Params("")), "", params);
      assert "" + params == params;
      PrintOne(t.(parser := Params(Kept(params))), c);
      PrintThree(t, [ESC, '['], params, [c]);
    }
    PrintTwo(t, ESC, c);
  }

  // ---------------------------------------------------------------- single codes

  /** A number of one or two digits with this last digit. */
  function TwoDigits(tens: char, k: nat): string
    requires k <= 9
  {
    [tens, '0' + k as char]
  }

  lemma TwoDigitsValue(tens: char, k: nat)
    requires k <= 9 && IsDigit(tens)
    ensures AllDigits(TwoDigits(tens, k)) && Eval(TwoDigits(tens, k), 10) == (tens - '0') as nat * 10 + k
  {
    var s := TwoDigits(tens, k);
    assert s[..1] == [tens] && s[..1][..0] == "";
    assert Eval(s[..1], 10) == DigitValue(tens);
  }

  lemma OneDigitValue(c: char)
    requires IsDigit(c)
    ensures AllDigits([c]) && Eval([c], 10) == (c - '0') as nat
  {
    assert [c][..0] == "";
  }

  /** The colour codes, each in a sequence of its own, from any pen. */
  lemma ColourCodes(t: Terminal, k: nat)
    requires TerminalOk(t) && t.parser.Plain? && k <= 7
    ensures var paper, bright := t.pen.attr / 16 * 16, if t.pen.bold then 8 else 0;
      && Print(t, Sequence("3" + ['0' + k as char])) == t.(pen := Pen(paper + k + bright, t.pen.bold))
      && Print(t, Sequence("9" + ['0' + k as char])) == t.(pen := Pen(paper + k + 8, t.pen.bold))
  {
    TwoDigitCode(t, '3', k);
    TwoDigitCode(t, '9', k);
    ColourPens(t.pen, k);
  }

  lemma ColourPens(pen: Pen, k: nat)
    requires k <= 7
    ensures Sgr(pen, 30 + k) == Pen(pen.attr / 16 * 16 + k + (if pen.bold then 8 else 0), pen.bold)
    ensures Sgr(pen, 90 + k) == Pen(pen.attr / 16 * 16 + k + 8, pen.bold)
  {
  }

  /** Bold on and off. */
  lemma BoldCodes(t: Terminal)
    requires TerminalOk(t) && t.parser.Plain?
    ensures Print(t, Sequence("1")) == t.(pen := Pen(t.pen.attr, true))
    ensures Print(t, Sequence("22")) == t.(pen := Pen(t.pen.attr, false))
  {
    OneDigitCode(t, '1');
    BoldOffCode(t);
  }

  lemma BoldOffCode(t: Terminal)
    requires TerminalOk(t) && t.parser.Plain?
    ensures Print(t, Sequence("22")) == t.(pen := Pen(t.pen.attr, false))
  {
    assert "22" == ['2'] + ['0' + 2 as char];
    TwoDigitCode(t, '2', 2);
  }

  /** Reset, and no code at all. */
  lemma ResetCodes(t: Terminal)
    requires TerminalOk(t) && t.parser.Plain?
    ensures Print(t, Sequence("0")) == t.(pen := Pen(7, false))
    ensures Print(t, Sequence("")) == t
  {
    OneDigitCode(t, '0');
    ShortSequence(t, "");
  }

  /** The default colour. */
  lemma DefaultCode(t: Terminal)
    requires TerminalOk(t) && t.parser.Plain?
    ensures Print(t, Sequence("39")) == t.(pen := Pen(t.pen.attr / 16 * 16 + 7, t.pen.bold))
  {
    TwoDigitCode(t, '3', 9);
    assert "39" == ['3'] + ['0' + 9 as char];
  }

  lemma TwoDigitCode(t: Terminal, tens: char, k: nat)
    requires TerminalOk(t) && t.parser.Plain? && k <= 9 && IsDigit(tens)
    ensures Print(t, Sequence([tens] + ['0' + k as char])) == t.(pen := Sgr(t.pen, (tens - '0') as nat * 10 + k))
  {
    var s := TwoDigits(tens, k);
    assert [tens] + ['0' + k as char] == s;
    TwoDigitsValue(tens, k);
    OneCode(s, (tens - '0') as nat * 10 + k);
    ShortSequence(t, s);
  }

  lemma OneDigitCode(t: Terminal, c: char)
    requires TerminalOk(t) && t.parser.Plain? && IsDigit(c)
    ensures Print(t, Sequence([c])) == t.(pen := Sgr(t.pen, (c - '0') as nat))
  {
    OneDigitValue(c);
    OneCode([c], (c - '0') as nat);
    ShortSequence(t, [c]);
  }

  /** Every other code changes nothing. */
  lemma OtherCodesIgnored(t: Terminal, code: nat)
    requires TerminalOk(t) && t.parser.Plain? && |Numeral(code, 10, false)| <= 31
    requires code !in {0, 1, 22, 39} && !(30 <= code <= 37) && !(90 <= code <= 97)
    ensures Print(t, Sequence(Numeral(code, 10, false))) == t
  {
    DecimalDigits(code);
    NumeralEvaluates(code, 10, false);
    OneCode(Numeral(code, 10, false), code);
    ShortSequence(t, Numeral(code, 10, false));
  }

  // ---------------------------------------------------------------- what is seen

  /** A printable character c after the sequence appears with this attribute where the cursor was, which is
      a row higher if the log shifts. */
  ghost predicate Paints(t: Terminal, params: string, attr: nat, c: char)
    requires TerminalOk(t)
  {
    var g := Print(t, ['\U{1B}', '['] + params + "m" + [c]).grid;
    var p := Position(t.grid) - (if Position(t.grid) == 200 * 80 - 1 then 80 else 0);
    CellAt(g, p) == Cell(attr, c)
  }

  lemma PenPaints(t: Terminal, params: string, pen: Pen, c: char)
    requires TerminalOk(t) && t.parser.Plain? && Printable(c)
    requires Print(t, Sequence(params)) == t.(pen := pen)
    ensures Paints(t, params, pen.attr, c)
  {
    var u := t.(pen := pen);
    PrintConcat(t, Sequence(params), [c]);
    PrintOne(u, c);
    CellPlaced(t.grid, pen.attr, c);
  }

  lemma Joined(t: Terminal, a: string, b: string, pen: Pen)
    requires TerminalOk(t) && t.parser.Plain? && AllParams(a) && AllParams(b) && |a| + 1 + |b| <= 31
    requires !EndsEmpty(a) && Print(t, Sequence(a)) == t.(pen := pen)
    ensures Print(t, Sequence(a + ";" + b)) == Print(t.(pen := pen), Sequence(b))
  {
    JoinedSequences(t, a, b);
    assert Sequence(a) + "" == Sequence(a);
  }

  /** A reset, then other codes, from any pen: what is seen depends on the codes alone. */
  lemma PaintsAfterReset(t: Terminal, params: string, pen: Pen, c: char)
    requires TerminalOk(t) && t.parser.Plain? && AllParams(params) && |params| <= 29 && Printable(c)
    requires Print(t.(pen := Pen(7, false)), Sequence(params)) == t.(pen := pen)
    ensures Paints(t, "0" + ";" + params, pen.attr, c)
  {
    ResetCodes(t);
    Joined(t, "0", params, Pen(7, false));
    PenPaints(t, "0" + ";" + params, pen, c);
  }

  /** Bold before a colour makes it bright. */
  lemma BoldThenColour(t: Terminal, d: string, k: nat)
    requires TerminalOk(t) && t.parser.Plain? && t.pen == Pen(7, false) && k <= 7 && d == ['0' + k as char]
    ensures Print(t, Sequence("1" + ";" + ("3" + d))) == t.(pen := Pen(k + 8, true))
  {
    var u := t.(pen := Pen(7, true));
    BoldCodes(t);
    ColourCodes(u, k);
    Joined(t, "1", "3" + d, u.pen);
  }

  lemma PlainThenColour(t: Terminal, d: string, k: nat)
    requires TerminalOk(t) && t.parser.Plain? && t.pen == Pen(7, true) && k <= 7 && d == ['0' + k as char]
    ensures Print(t, Sequence("22" + ";" + ("3" + d))) == t.(pen := Pen(k, false))
  {
    var u := t.(pen := Pen(7, false));
    BoldCodes(t);
    ColourCodes(u, k);
    Joined(t, "22", "3" + d, u.pen);
  }

  /** Bold turned on and off again does not. */
  lemma BoldOffThenColour(t: Terminal, d: string, k: nat)
    requires TerminalOk(t) && t.parser.Plain? && t.pen == Pen(7, false) && k <= 7 && d == ['0' + k as char]
    ensures Print(t, Sequence("1" + ";" + ("22" + ";" + ("3" + d)))) == t.(pen := Pen(k, false))
  {
    var u := t.(pen := Pen(7, true));
    BoldCodes(t);
    PlainThenColour(u, d, k);
    Joined(t, "1", "22" + ";" + ("3" + d), u.pen);
  }

  lemma Spelled(d: string)
    ensures "0" + ";" + ("3" + d) == "0;3" + d && "0" + ";" + ("9" + d) == "0;9" + d
    ensures "0" + ";" + ("1" + ";" + ("3" + d)) == "0;1;3" + d
    ensures "0" + ";" + ("1" + ";" + ("22" + ";" + ("3" + d))) == "0;1;22;3" + d
  {
  }

  /** The sequences that the kernel prints, after a reset, from any pen: colour k, and the same colour bright
      by a code of its own. */
  lemma ColoursShown(t: Terminal, k: nat, c: char)
    requires TerminalOk(t) && t.parser.Plain? && k <= 7 && Printable(c)
    ensures Paints(t, "0;3" + ['0' + k as char], k, c)
    ensures Paints(t, "0;9" + ['0' + k as char], k + 8, c)
  {
    var normal, d := t.(pen := Pen(7, false)), ['0' + k as char];
    ColourCodes(normal, k);
    Spelled(d);
    PaintsAfterReset(t, "3" + d, Pen(k, false), c);
    PaintsAfterReset(t, "9" + d, Pen(k + 8, false), c);
  }

  /** Bold makes colour k bright; bold turned off again does not. */
  lemma BoldShown(t: Terminal, k: nat, c: char)
    requires TerminalOk(t) && t.parser.Plain? && k <= 7 && Printable(c)
    ensures Paints(t, "0;1;3" + ['0' + k as char], k + 8, c)
    ensures Paints(t, "0;1;22;3" + ['0' + k as char], k, c)
  {
    var normal, d := t.(pen := Pen(7, false)), ['0' + k as char];
    Spelled(d);
    BoldThenColour(normal, d, k);
    PaintsAfterReset(t, "1" + ";" + ("3" + d), Pen(k + 8, true), c);
    BoldOffThenColour(normal, d, k);
    PaintsAfterReset(t, "1" + ";" + ("22" + ";" + ("3" + d)), Pen(k, false), c);
  }

  /** The default colour, a reset, and a sequence without codes. */
  lemma DefaultShown(t: Terminal, c: char)
    requires TerminalOk(t) && t.parser.Plain? && Printable(c)
    ensures Paints(t, "0;39", 7, c) && Paints(t, "0", 7, c) && Paints(t, "", t.pen.attr, c)
  {
    ResetCodes(t);
    DefaultAfterReset(t, c);
    PenPaints(t, "0", Pen(7, false), c);
    PenPaints(t, "", t.pen, c);
  }

  lemma DefaultAfterReset(t: Terminal, c: char)
    requires TerminalOk(t) && t.parser.Plain? && Printable(c)
    ensures Paints(t, "0;39", 7, c)
  {
    DefaultCode(t.(pen := Pen(7, false)));
    assert "0" + ";" + "39" == "0;39";
    PaintsAfterReset(t, "39", Pen(7, false), c);
  }
}
