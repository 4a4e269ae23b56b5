/** The decimal and hexadecimal printers (`printf.c`, `kernel_shell.c`, `process.c`) and `katoi`. A printer
    returns the characters it hands to `putchar`. */
module Numbers {
  import opened Int32
  import opened CStrings

  const UINT_RANGE := 0x1_0000_0000

  type uint32 = x: int | 0 <= x < UINT_RANGE

  const LOWER := "0123456789abcdef"
  const UPPER := "0123456789ABCDEF"

  /** The value of x in 32 two's complement bits. */
  function Wrap(x: int): int32 { (x + 0x8000_0000) % UINT_RANGE - 0x8000_0000 }

  function Digit(d: nat, upper: bool): (c: char)
    requires d < 16
    ensures c == if d < 10 then '0' + d as char else (if upper then 'A' else 'a') + (d - 10) as char
  {
    if upper then UPPER[d] else LOWER[d]
  }

  function Quot(v: nat, base: nat): (q: nat)
    requires base >= 2
    ensures v < base ==> q == 0
    ensures v >= base ==> 0 < q < v
  {
    v / base
  }

  function Rest(v: nat, base: nat): (r: nat)
    requires base >= 2
    ensures r < base && v == Quot(v, base) * base + r
    ensures v < base ==> r == v
  {
    v % base
  }

  /** v in the given base, most significant digit first, without leading zeros. */
  function Numeral(v: nat, base: nat, upper: bool): string
    requires 2 <= base <= 16
  {
    if v < base then [Digit(v, upper)] else Numeral(Quot(v, base), base, upper) + [Digit(Rest(v, base), upper)]
  }

  function DigitValue(c: char): nat {
    if '0' <= c <= '9' then (c - '0') as nat
    else if 'a' <= c <= 'f' then (c - 'a') as nat + 10
    else if 'A' <= c <= 'F' then (c - 'A') as nat + 10
    else 0
  }

  /** The number that a string of digits denotes. */
  function Eval(s: string, base: nat): nat {
    if s == [] then 0 else Eval(s[..|s| - 1], base) * base + DigitValue(s[|s| - 1])
  }

  predicate IsDigit(c: char) { '0' <= c <= '9' }

  lemma DigitRoundTrip(d: nat, upper: bool)
    requires d < 16
    ensures DigitValue(Digit(d, upper)) == d
    ensures d < 10 ==> IsDigit(Digit(d, upper))
  {
  }

  lemma EvalSnoc(s: string, c: char, base: nat)
    ensures Eval(s + [c], base) == Eval(s, base) * base + DigitValue(c)
  {
    assert (s + [c])[..|s|] == s;
  }

  /** One digit appended, in terms of the number. */
  lemma EvalStep(s: string, v: nat, base: nat, upper: bool)
    requires 2 <= base <= 16 && Eval(s, base) == Quot(v, base)
    ensures Eval(s + [Digit(Rest(v, base), upper)], base) == v
  {
    EvalSnoc(s, Digit(Rest(v, base), upper), base);
    DigitRoundTrip(Rest(v, base), upper);
  }

  /** The digits of a number evaluate back to it. */
  lemma {:induction false} NumeralEvaluates(v: nat, base: nat, upper: bool)
    requires 2 <= base <= 16
    ensures Eval(Numeral(v, base, upper), base) == v
  {
    if v < base {
      EvalStep("", v, base, upper);
      assert "" + [Digit(v, upper)] == [Digit(v, upper)];
    } else {
      NumeralEvaluates(Quot(v, base), base, upper);
      EvalStep(Numeral(Quot(v, base), base, upper), v, base, upper);
    }
  }

  predicate AllDigits(s: string) { forall k :: 0 <= k < |s| ==> IsDigit(s[k]) }

  lemma {:induction false} DecimalDigits(v: nat)
    ensures AllDigits(Numeral(v, 10, false)) && Numeral(v, 10, false) != ""
  {
    if v >= 10 { DecimalDigits(v / 10); }
  }

  predicate IsHex(c: char, upper: bool) {
    IsDigit(c) || (if upper then 'A' <= c <= 'F' else 'a' <= c <= 'f')
  }

  /** Hexadecimal letters are all of the case asked for, and only 0 has a leading zero. */
  lemma {:induction false} NumeralShape(v: nat, base: nat, upper: bool)
    requires 2 <= base <= 16
    ensures var s := Numeral(v, base, upper);
      && (forall k :: 0 <= k < |s| ==> IsHex(s[k], upper))
      && s != "" && (s[0] == '0' <==> v == 0)
  {
    if v >= base { NumeralShape(Quot(v, base), base, upper); }
  }

  function Pow(base: nat, n: nat): nat { if n == 0 then 1 else base * Pow(base, n - 1) }

  lemma {:induction false} NumeralLength(v: nat, base: nat, upper: bool, n: nat)
    requires 2 <= base <= 16 && v < Pow(base, n) && n > 0
    ensures |Numeral(v, base, upper)| <= n
  {
    if n == 1 {
      assert Pow(base, 1) == base * Pow(base, 0) == base;
    } else if v >= base {
      QuotientBelow(v, base, Pow(base, n - 1));
      NumeralLength(Quot(v, base), base, upper, n - 1);
    }
  }

  lemma MulPositive(base: nat, d: int)
    requires base > 0
    ensures d >= 1 ==> base * d >= base
  {
  }

  lemma QuotientBelow(v: nat, base: nat, p: nat)
    requires base >= 2 && v < base * p
    ensures Quot(v, base) < p
  {
    var q, r := Quot(v, base), Rest(v, base);
    assert v == base * q + r;
    assert base * (q - p) < base;
    MulPositive(base, q - p);
  }

  /** 32 bits take at most 10 decimal or 8 hexadecimal digits, so the cap of 31 is never reached. */
  lemma NumeralShort(v: nat, base: nat, upper: bool)
    requires v < UINT_RANGE && (base == 10 || base == 16)
    ensures |Numeral(v, base, upper)| <= if base == 10 then 10 else 8
  {
    assert Pow(10, 10) == 10_000_000_000 by { PowTen(); }
    assert Pow(16, 8) == UINT_RANGE by { PowSixteen(); }
    NumeralLength(v, base, upper, if base == 10 then 10 else 8);
  }

  lemma PowTen()
    ensures Pow(10, 10) == 10_000_000_000
  {
    assert Pow(10, 2) == 100;
    assert Pow(10, 4) == 10_000;
    assert Pow(10, 6) == 1_000_000;
    assert Pow(10, 8) == 100_000_000;
  }

  lemma PowSixteen()
    ensures Pow(16, 8) == UINT_RANGE
  {
    assert Pow(16, 2) == 0x100;
    assert Pow(16, 4) == 0x1_0000;
    assert Pow(16, 6) == 0x100_0000;
  }

  function Reversed(s: string): (r: string)
    ensures |r| == |s|
  {
    if s == [] then [] else Reversed(s[1..]) + [s[0]]
  }

  lemma {:induction false} ReversedSnoc(s: string, c: char)
    ensures Reversed(s + [c]) == [c] + Reversed(s)
  {
    if s == [] {
      assert [c][1..] == [];
    } else {
      assert (s + [c])[1..] == s[1..] + [c];
      ReversedSnoc(s[1..], c);
    }
  }

  /** buf holds the digits of v that are not yet in `left`, least significant first. */
  predicate Peeled(v: nat, left: nat, buf: string, base: nat, upper: bool)
    requires 2 <= base <= 16
  {
    Numeral(v, base, upper) == (if left == 0 then "" else Numeral(left, base, upper)) + Reversed(buf)
  }

  lemma PeelStep(v: nat, left: nat, buf: string, base: nat, upper: bool)
    requires 2 <= base <= 16 && left > 0 && Peeled(v, left, buf, base, upper)
    ensures Peeled(v, Quot(left, base), buf + [Digit(Rest(left, base), upper)], base, upper)
  {
    var d := Digit(Rest(left, base), upper);
    ReversedSnoc(buf, d);
    if left >= base {
      var front := Numeral(Quot(left, base), base, upper);
      assert front + [d] + Reversed(buf) == front + Reversed(buf + [d]);
    }
  }

  /** `print_uint` of printf.c: digits into a buffer of 32, then out in reverse. */
  method PrintUint(value: uint32, base: nat, upper: bool) returns (out: string)
    requires base == 10 || base == 16
    ensures out == Numeral(value, base, upper)
  {
    if value == 0 {
      return "0";
    }
    var buf := new char[32];
    var i := 0;
    var left: nat := value;
    while left > 0 && i < 31
      invariant 0 <= i <= 31 && left <= value
      invariant Peeled(value, left, buf[..i], base, upper)
      invariant left > 0 ==> i < 31
    {
      PeelStep(value, left, buf[..i], base, upper);
      NumeralShort(value, base, upper);
      buf[i] := Digit(Rest(left, base), upper);
      assert buf[..i + 1] == buf[..i] + [Digit(Rest(left, base), upper)];
      left := Quot(left, base);
      i := i + 1;
    }
    out := EmitReversed(buf, i);
  }

  method EmitReversed(buf: array<char>, n: nat) returns (out: string)
    requires n <= buf.Length
    ensures out == Reversed(buf[..n])
  {
    out := "";
    var i := n;
    while i > 0
      invariant 0 <= i <= n
      invariant Reversed(buf[..n]) == out + Reversed(buf[..i])
    {
      i := i - 1;
      assert buf[..i + 1] == buf[..i] + [buf[i]];
      ReversedSnoc(buf[..i], buf[i]);
      out := out + [buf[i]];
    }
  }

  // ---------------------------------------------------------------- signed numbers

  /** The decimal numeral of an int. */
  function Signed(v: int): string {
    if v < 0 then "-" + Numeral(-v, 10, false) else Numeral(v, 10, false)
  }

  function Negate(x: int): int { -x }

  lemma SignedNegative(v: int)
    requires v < 0
    ensures Signed(v) == "-" + Numeral(Negate(v), 10, false)
  {
  }

  /** Unsigned negation of a negative int gives its magnitude. */
  function UnsignedNegation(value: int32): (r: uint32)
    ensures value < 0 ==> r == Negate(value)
  {
    var u: int := if value < 0 then value + UINT_RANGE else value;
    (UINT_RANGE - u) % UINT_RANGE
  }

  /** `print_int` of printf.c in base 10: negation as unsigned, so it is right for INT_MIN too. */
  method PrintfInt(value: int32) returns (out: string)
    ensures out == Signed(value)
  {
    if value < 0 {
      out := PrintUint(UnsignedNegation(value), 10, false);
      out := "-" + out;
      SignedNegative(value);
    } else {
      out := PrintUint(value, 10, false);
    }
  }

  /** `-x` on an int. */
  function IntNegation(v: int32): (r: int32)
    ensures r == if v == INT_MIN then INT_MIN else Negate(v)
  {
    Wrap(Negate(v))
  }

  /** What the two printers that negate as int make of v: INT_MIN is its own negation. */
  function SignedOrDash(v: int32): string {
    if v == INT_MIN then "-" else Signed(v)
  }

  /** The digit loop that both of them share, for buffers of 15 digits. */
  method PeelDigits(buf: array<char>, value: int32) returns (n: nat)
    requires buf.Length >= 15 && value > 0
    modifies buf
    ensures n <= 10 && Reversed(buf[..n]) == Numeral(value, 10, false)
  {
    n := 0;
    var left: nat := value;
    while left > 0 && n < 15
      invariant n <= 15 && left <= value
      invariant Peeled(value, left, buf[..n], 10, false)
      invariant left > 0 ==> n <= 10
    {
      PeelStep(value, left, buf[..n], 10, false);
      NumeralShort(value, 10, false);
      buf[n] := '0' + (left % 10) as char;
      assert buf[..n + 1] == buf[..n] + [Digit(left % 10, false)];
      left := left / 10;
      n := n + 1;
    }
    NumeralShort(value, 10, false);
  }

  /** `print_int` of kernel_shell.c. */
  method ShellPrintInt(value: int32) returns (out: string)
    ensures out == SignedOrDash(value)
  {
    if value == 0 {
      return "0";
    }
    out := "";
    var v := value;
    if v < 0 {
      out := "-";
      v := IntNegation(v);
    }
    if v > 0 {
      var buf := new char[16];
      var n := PeelDigits(buf, v);
      var digits := EmitReversed(buf, n);
      out := out + digits;
    }
  }

  function Spaces(n: nat): (r: string)
    ensures |r| == n && forall k :: 0 <= k < n ==> r[k] == ' '
  {
    seq(n, _ => ' ')
  }

  /** `print_padded_int` of process.c: the digits, then spaces up to the width. */
  method PrintPaddedInt(value: int32, width: nat) returns (out: string)
    ensures var text := SignedOrDash(value);
      out == text + Spaces(if |text| < width then width - |text| else 0)
  {
    out := ShellPrintInt(value);
    ghost var text := out;
    var n := |out|;
    while n < width
      invariant n >= |text| && (n <= width || n == |text|)
      invariant out == text + Spaces(n - |text|)
    {
      out := out + " ";
      n := n + 1;
    }
  }

  // ---------------------------------------------------------------- katoi

  function DigitPrefix(s: string): (r: string)
    ensures r <= s && AllDigits(r)
    ensures |r| < |s| ==> !IsDigit(s[|r|])
  {
    if s == [] || !IsDigit(s[0]) then []
    else
      var rest := DigitPrefix(s[1..]);
      assert [s[0]] + rest <= s;
      [s[0]] + rest
  }

  /** A sign, then digits up to the first other character, kept to 32 bits. */
  function Atoi(s: string): int32 {
    if s != [] && s[0] == '-' then Wrap(Negate(Eval(DigitPrefix(s[1..]), 10))) else Wrap(Eval(DigitPrefix(s), 10))
  }

  lemma WrapIsCongruent(x: int)
    ensures exists k: int :: Wrap(x) == x + k * UINT_RANGE
  {
    assert Wrap(x) == x + (-((x + 0x8000_0000) / UINT_RANGE)) * UINT_RANGE;
  }

  lemma WrapShift(x: int, k: int)
    ensures Wrap(x + k * UINT_RANGE) == Wrap(x)
  {
  }

  lemma WrapStep(x: int, m: int, d: int)
    requires m == 10 || m == -1 || m == 1
    ensures Wrap(Wrap(x) * m + d) == Wrap(x * m + d)
  {
    WrapIsCongruent(x);
    var k: int :| Wrap(x) == x + k * UINT_RANGE;
    WrapShift(x * m + d, k * m);
  }

  lemma AtoiStep(digits: string, k: nat)
    requires k < |digits| && IsDigit(digits[k])
    ensures Wrap(Wrap(Eval(digits[..k], 10)) * 10 + (digits[k] - '0') as int) == Wrap(Eval(digits[..k + 1], 10))
  {
    EvalSnoc(digits[..k], digits[k], 10);
    assert digits[..k + 1] == digits[..k] + [digits[k]];
    WrapStep(Eval(digits[..k], 10), 10, DigitValue(digits[k]));
  }

  lemma AtoiSign(x: int, sign: int)
    requires sign == 1 || sign == -1
    ensures Wrap(Wrap(x) * sign) == if sign == 1 then Wrap(x) else Wrap(Negate(x))
  {
    WrapStep(x, sign, 0);
  }

  /** Two's complement arithmetic at every step gives the exact value, wrapped once. */
  method Katoi(s: string) returns (r: int32)
    requires NUL !in s
    ensures r == Atoi(s)
  {
    var sign := 1;
    var value: int32 := 0;
    var i := 0;
    if At(s, 0) == '-' {
      sign := -1;
      i := 1;
    }
    ghost var from := i;
    ghost var digits := DigitPrefix(s[from..]);
    while IsDigit(At(s, i))
      invariant from <= i <= from + |digits|
      invariant value == Wrap(Eval(digits[..i - from], 10))
      decreases |s| - i
    {
      ghost var k := i - from;
      assert k < |digits| && digits[k] == s[i];
      AtoiStep(digits, k);
      value := Wrap(value * 10 + (s[i] - '0') as int);
      i := i + 1;
    }
    assert digits[..i - from] == digits;
    AtoiSign(Eval(digits, 10), sign);
    r := Wrap(value * sign);
  }

  lemma {:induction false} PrefixOfDigits(s: string)
    requires AllDigits(s)
    ensures DigitPrefix(s) == s
  {
    if s != [] { PrefixOfDigits(s[1..]); }
  }

  lemma TailIgnored(digits: string, tail: string)
    requires AllDigits(digits) && digits != "" && (tail == "" || !IsDigit(tail[0]))
    ensures Atoi(digits + tail) == Atoi(digits)
    ensures Atoi("-" + (digits + tail)) == Atoi("-" + digits)
  {
    PrefixBeforeTail(digits, tail);
    PrefixOfDigits(digits);
    assert IsDigit(digits[0]);
    assert ("-" + (digits + tail))[1..] == digits + tail && ("-" + digits)[1..] == digits;
  }

  /** What follows the digits does not matter. */
  lemma AtoiIgnoresTail(v: int32, tail: string)
    requires tail == "" || !IsDigit(tail[0])
    ensures Atoi(Signed(v) + tail) == v
  {
    AtoiInvertsSigned(v);
    if v < 0 {
      var digits := Numeral(Negate(v), 10, false);
      DecimalDigits(Negate(v));
      SignedNegative(v);
      assert "-" + digits + tail == "-" + (digits + tail);
      TailIgnored(digits, tail);
    } else {
      DecimalDigits(v);
      TailIgnored(Signed(v), tail);
    }
  }

  lemma {:induction false} PrefixBeforeTail(s: string, tail: string)
    requires AllDigits(s) && (tail == "" || !IsDigit(tail[0]))
    ensures DigitPrefix(s + tail) == s
  {
    if s == "" {
      assert s + tail == tail;
    } else {
      assert (s + tail)[1..] == s[1..] + tail;
      assert IsDigit(s[0]);
      PrefixBeforeTail(s[1..], tail);
    }
  }

  lemma WrapInRange(x: int32)
    ensures Wrap(x) == x
  {
  }

  lemma AtoiOfNumeral(m: nat)
    ensures Atoi(Numeral(m, 10, false)) == Wrap(m)
    ensures Atoi("-" + Numeral(m, 10, false)) == Wrap(Negate(m))
  {
    var digits := Numeral(m, 10, false);
    DecimalDigits(m);
    PrefixOfDigits(digits);
    NumeralEvaluates(m, 10, false);
    assert ("-" + digits)[1..] == digits;
    assert IsDigit(digits[0]);
  }

  /** `katoi` reads back every int from its decimal numeral. */
  lemma AtoiInvertsSigned(v: int32)
    ensures Atoi(Signed(v)) == v
  {
    WrapInRange(v);
    if v < 0 {
      SignedNegative(v);
      AtoiOfNumeral(Negate(v));
    } else {
      AtoiOfNumeral(v);
    }
  }

  /** It inverts the shell's own printer on every int but INT_MIN, of which that one prints only the sign. */
  lemma AtoiInvertsShellPrinter(v: int32)
    ensures Atoi(SignedOrDash(v)) == v <==> v != INT_MIN
  {
    AtoiInvertsSigned(v);
    assert "-"[1..] == "";
  }
}
