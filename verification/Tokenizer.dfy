/** The in-place tokenizer of the shell, proved against a recursive definition of its fields. */
module Tokenizer {
  import opened CStrings
  import opened Sequences

  const MAX_TOKENS := 16

  /** Spaces at the front. */
  function SpaceRun(s: string): (n: nat)
    ensures n <= |s| && (n < |s| ==> s[n] != ' ')
    ensures forall k :: 0 <= k < n ==> s[k] == ' '
  {
    if s == [] || s[0] != ' ' then 0 else 1 + SpaceRun(s[1..])
  }

  /** Characters up to the first space. */
  function WordRun(s: string): (n: nat)
    ensures n <= |s| && (n < |s| ==> s[n] == ' ')
    ensures forall k :: 0 <= k < n ==> s[k] != ' '
  {
    if s == [] || s[0] == ' ' then 0 else 1 + WordRun(s[1..])
  }

  /** The non-empty fields of s between spaces. */
  function Fields(s: string): seq<string>
    decreases |s|, 1
  {
    FieldsFromWord(s[SpaceRun(s)..])
  }

  function FieldsFromWord(s: string): seq<string>
    requires s == [] || s[0] != ' '
    decreases |s|, 0
  {
    if s == [] then [] else [s[..WordRun(s)]] + Fields(s[WordRun(s)..])
  }

  lemma SpaceRunIs(s: string, n: nat)
    requires n <= |s| && (n < |s| ==> s[n] != ' ') && forall k :: 0 <= k < n ==> s[k] == ' '
    ensures SpaceRun(s) == n
  {
  }

  lemma WordRunIs(s: string, n: nat)
    requires n <= |s| && (n < |s| ==> s[n] == ' ') && forall k :: 0 <= k < n ==> s[k] != ' '
    ensures WordRun(s) == n
  {
  }

  lemma FieldsSkipSpace(s: string)
    requires s != [] && s[0] == ' '
    ensures Fields(s) == Fields(s[1..])
  {
    var n := SpaceRun(s);
    SpaceRunIs(s[1..], n - 1);
    assert s[1..][n - 1..] == s[n..];
  }

  /** The fields from position i on, when a word lies at start..end. */
  lemma NextField(text: string, i: nat, start: nat, end: nat)
    requires i <= start < end <= |text|
    requires forall k :: i <= k < start ==> text[k] == ' '
    requires forall k :: start <= k < end ==> text[k] != ' '
    requires end < |text| ==> text[end] == ' '
    ensures Fields(text[i..]) == [text[start..end]] + Fields(text[if end < |text| then end + 1 else end..])
  {
    SpaceRunIs(text[i..], start - i);
    assert text[i..][start - i..] == text[start..];
    WordThere(text, start, end);
    if end < |text| {
      FieldsSkipSpace(text[end..]);
      assert text[end..][1..] == text[end + 1..];
    }
  }

  lemma WordThere(text: string, start: nat, end: nat)
    requires start < end <= |text|
    requires forall k :: start <= k < end ==> text[k] != ' '
    requires end < |text| ==> text[end] == ' '
    ensures FieldsFromWord(text[start..]) == [text[start..end]] + Fields(text[end..])
  {
    WordRunIs(text[start..], end - start);
    assert text[start..][..end - start] == text[start..end];
    assert text[start..][end - start..] == text[end..];
  }

  lemma NoField(text: string, i: nat)
    requires i <= |text| && forall k :: i <= k < |text| ==> text[k] == ' '
    ensures Fields(text[i..]) == []
  {
    SpaceRunIs(text[i..], |text| - i);
  }

  /** Token f stands at position a, with its terminator. */
  predicate TokenAt(line: seq<char>, a: nat, f: string) {
    a + |f| < |line| && line[a..a + |f|] == f && line[a + |f|] == NUL
  }

  /** The tokens found so far, in order, none beyond position i. */
  ghost predicate TokensAt(line: seq<char>, argv: seq<nat>, fields: seq<string>, i: nat) {
    && |argv| == |fields|
    && forall k :: 0 <= k < |argv| ==> TokenAt(line, argv[k], fields[k]) && argv[k] + |fields[k]| <= i
  }

  /** From position i on the line is still the text and its terminator. */
  ghost predicate Untouched(line: seq<char>, text: string, i: nat) {
    i <= |text| < |line| && line[i..|text|] == text[i..] && line[|text|] == NUL && NUL !in text
  }

  method SkipSpaces(line: array<char>, from: nat, ghost text: string) returns (i: nat)
    requires Untouched(line[..], text, from)
    ensures from <= i <= |text| && (forall k :: from <= k < i ==> text[k] == ' ')
    ensures line[i] == (if i < |text| then text[i] else NUL) && line[i] != ' '
  {
    i := from;
    while line[i] == ' '
      invariant from <= i <= |text|
      invariant forall k :: from <= k < i ==> text[k] == ' '
      decreases |text| - i
    {
      assert i < |text| ==> line[..][from..|text|][i - from] == text[from..][i - from];
      i := i + 1;
    }
    assert i < |text| ==> line[..][from..|text|][i - from] == text[from..][i - from];
  }

  method SkipWord(line: array<char>, from: nat, ghost text: string) returns (i: nat)
    requires Untouched(line[..], text, from)
    ensures from <= i <= |text| && (forall k :: from <= k < i ==> text[k] != ' ')
    ensures (i < |text| ==> text[i] == ' ' && line[i] == ' ') && (i == |text| ==> line[i] == NUL)
  {
    i := from;
    while line[i] != NUL && line[i] != ' '
      invariant from <= i <= |text|
      invariant forall k :: from <= k < i ==> text[k] != ' '
      decreases |text| - i
    {
      assert i < |text| ==> line[..][from..|text|][i - from] == text[from..][i - from];
      i := i + 1;
    }
    assert i < |text| ==> line[..][from..|text|][i - from] == text[from..][i - from];
    assert i < |text| ==> text[i] in text;
  }

  /** What the loop of the tokenizer keeps. */
  ghost predicate Progress(line: seq<char>, argv: seq<nat>, text: string, done: seq<string>, i: nat) {
    && Untouched(line, text, i)
    && Fields(text) == done + Fields(text[i..])
    && TokensAt(line, argv, done, i)
  }

  lemma SameSlice(line: seq<char>, text: string, from: nat, a: nat, b: nat)
    requires Untouched(line, text, from) && from <= a <= b <= |text|
    ensures line[a..b] == text[a..b]
  {
    forall k | a <= k < b ensures line[k] == text[k] {
      assert line[from..|text|][k - from] == text[from..][k - from];
    }
  }

  /** Writing a NUL behind everything found so far keeps it. */
  lemma TokensKept(line: seq<char>, argv: seq<nat>, done: seq<string>, from: nat, end: nat)
    requires TokensAt(line, argv, done, from) && from <= end < |line|
    ensures TokensAt(line[end := NUL], argv, done, end)
  {
    var line' := line[end := NUL];
    forall k | 0 <= k < |argv|
      ensures TokenAt(line', argv[k], done[k]) && argv[k] + |done[k]| <= end
    {
      assert TokenAt(line, argv[k], done[k]);
      assert line'[argv[k]..argv[k] + |done[k]|] == line[argv[k]..argv[k] + |done[k]|];
    }
  }

  lemma TokensSnoc(line: seq<char>, argv: seq<nat>, done: seq<string>, i: nat, start: nat, word: string)
    requires TokensAt(line, argv, done, i) && TokenAt(line, start, word) && start + |word| <= i
    ensures TokensAt(line, argv + [start], done + [word], i)
  {
  }

  lemma UntouchedBehind(line: seq<char>, text: string, from: nat, end: nat, next: nat)
    requires Untouched(line, text, from) && from <= end <= next <= |text| && (next == end ==> end == |text|)
    ensures Untouched(line[end := NUL], text, next)
  {
    SameSlice(line, text, from, next, |text|);
    assert line[end := NUL][next..|text|] == line[next..|text|];
  }

  /** start..end is the first word from position i on. */
  predicate IsNextWord(text: string, from: nat, start: nat, end: nat) {
    && from <= start < end <= |text|
    && (forall k :: from <= k < start ==> text[k] == ' ')
    && (forall k :: start <= k < end ==> text[k] != ' ')
    && (end < |text| ==> text[end] == ' ')
  }

  function Behind(text: string, end: nat): nat { if end < |text| then end + 1 else end }

  lemma OneMoreField(text: string, done: seq<string>, from: nat, start: nat, end: nat)
    requires IsNextWord(text, from, start, end) && Fields(text) == done + Fields(text[from..])
    ensures Fields(text) == done + [text[start..end]] + Fields(text[Behind(text, end)..])
  {
    var word, rest := text[start..end], Fields(text[Behind(text, end)..]);
    NextField(text, from, start, end);
    Associative(done, [word], rest);
  }

  lemma WordPlaced(line: seq<char>, text: string, from: nat, start: nat, end: nat)
    requires Untouched(line, text, from) && from <= start < end <= |text|
    ensures TokenAt(line[end := NUL], start, text[start..end])
  {
    SameSlice(line, text, from, start, end);
    assert line[end := NUL][start..end] == line[start..end];
  }

  lemma OneMoreToken(line: seq<char>, argv: seq<nat>, text: string, done: seq<string>, from: nat, start: nat, end: nat)
    requires Untouched(line, text, from) && TokensAt(line, argv, done, from) && from <= start < end <= |text|
    ensures TokensAt(line[end := NUL], argv + [start], done + [text[start..end]], Behind(text, end))
  {
    WordPlaced(line, text, from, start, end);
    TokensKept(line, argv, done, from, end);
    TokensSnoc(line[end := NUL], argv, done, end, start, text[start..end]);
  }

  /** One more token, with or without a separator behind it. */
  lemma OneMore(line: seq<char>, argv: seq<nat>, text: string, done: seq<string>, from: nat, start: nat, end: nat)
    requires Progress(line, argv, text, done, from) && IsNextWord(text, from, start, end)
    ensures Progress(line[end := NUL], argv + [start], text, done + [text[start..end]], Behind(text, end))
  {
    OneMoreField(text, done, from, start, end);
    OneMoreToken(line, argv, text, done, from, start, end);
    UntouchedBehind(line, text, from, end, Behind(text, end));
  }

  /** Nothing changes but spaces that become terminators. */
  ghost predicate OnlyCuts(before: seq<char>, after: seq<char>) {
    |before| == |after| && forall j :: 0 <= j < |before| ==> CutOrSame(before[j], after[j])
  }

  predicate CutOrSame(before: char, after: char) { after == before || (before == ' ' && after == NUL) }

  lemma OneCut(line: seq<char>, end: nat)
    requires end < |line| && (line[end] == ' ' || line[end] == NUL)
    ensures OnlyCuts(line, line[end := NUL])
  {
  }

  lemma CutsCompose(first: seq<char>, second: seq<char>, third: seq<char>)
    requires OnlyCuts(first, second) && OnlyCuts(second, third)
    ensures OnlyCuts(first, third)
  {
    forall j | 0 <= j < |first| ensures CutOrSame(first[j], third[j]) {
      assert CutOrSame(first[j], second[j]) && CutOrSame(second[j], third[j]);
    }
  }

  /** One iteration of the loop: passes spaces, delimits a word, ends it with a NUL. */
  method NextToken(line: array<char>, from: nat, ghost text: string) 
    returns (found: bool, start: nat, i: nat, ghost end: nat)
    requires Untouched(line[..], text, from)
    modifies line
    ensures !found ==> line[..] == old(line[..]) && i == |text| && Fields(text[from..]) == []
    ensures found ==>
      && IsNextWord(text, from, start, end) && i == Behind(text, end)
      && line[..] == old(line[..])[end := NUL]
    ensures OnlyCuts(old(line[..]), line[..])
  {
    i := SkipSpaces(line, from, text);
    start, end := i, i;
    assert i < |text| ==> text[i] in text;
    if line[i] == NUL {
      NoField(text, from);
      found := false;
      return;
    }
    i := SkipWord(line, i, text);
    end := i;
    OneCut(line[..], i);
    if line[i] != NUL {
      line[i] := NUL;
      i := i + 1;
    }
    assert line[..] == old(line[..])[end := NUL];
    found := true;
  }

  /** Splits the line in place: `argv[k]` is the position of token k, which ends in a NUL. */
  method Tokenize(line: array<char>, argv: array<nat>) returns (argc: nat)
    requires NUL in line[..] && argv.Length == MAX_TOKENS
    modifies line, argv
    ensures var fields := Fields(CStr(old(line[..])));
      && argc == (if |fields| < MAX_TOKENS then |fields| else MAX_TOKENS)
      && TokensAt(line[..], argv[..argc], fields[..argc], line.Length)
    ensures OnlyCuts(old(line[..]), line[..])
  {
    ghost var text := CStr(line[..]);
    ghost var done: seq<string> := [];
    var i := 0;
    argc := 0;
    assert text[0..] == text && line[..][0..|text|] == text;
    while line[i] != NUL && argc < MAX_TOKENS
      invariant argc <= MAX_TOKENS && Progress(line[..], argv[..argc], text, done, i)
      invariant OnlyCuts(old(line[..]), line[..])
      decreases |text| - i
    {
      ghost var from, m, args := i, line[..], argv[..argc];
      ghost var end;
      var found, start, next;
      found, start, next, end := NextToken(line, i, text);
      if !found {
        break;
      }
      OneMore(m, args, text, done, from, start, end);
      CutsCompose(old(line[..]), m, line[..]);
      done := done + [text[start..end]];
      argv[argc] := start;
      argc := argc + 1;
      assert argv[..argc] == args + [start];
      i := next;
    }
    Finished(line[..], argv[..argc], text, done, i);
  }

  /** When the loop stops, it has all fields, or the first 16. */
  lemma Finished(line: seq<char>, argv: seq<nat>, text: string, done: seq<string>, i: nat)
    requires Progress(line, argv, text, done, i)
    requires Fields(text[i..]) == [] || |argv| == MAX_TOKENS || line[i] == NUL
    ensures |argv| <= |Fields(text)| && done == Fields(text)[..|argv|]
    ensures |argv| < MAX_TOKENS ==> |argv| == |Fields(text)|
    ensures TokensAt(line, argv, done, |line|)
  {
    if i < |text| {
      assert line[i] == line[i..|text|][0] == text[i..][0];
      assert text[i] in text;
    } else {
      NoField(text, i);
    }
  }

  // ---------------------------------------------------------------- what fields are

  predicate IsWord(w: string) { w != [] && forall k :: 0 <= k < |w| ==> w[k] != ' ' }

  predicate FieldOk(f: string, s: string) {
    IsWord(f) && |f| <= |s| && (NUL !in s ==> NUL !in f)
  }

  /** Fields are words: not empty, without spaces, and C strings if the line is one. */
  lemma {:induction false} FieldsAreWords(s: string)
    ensures forall k :: 0 <= k < |Fields(s)| ==> FieldOk(Fields(s)[k], s)
    decreases |s|
  {
    var n := SpaceRun(s);
    var rest := s[n..];
    if rest != [] {
      var w := WordRun(rest);
      var tail := rest[w..];
      assert FieldOk(rest[..w], s);
      FieldsAreWords(tail);
      assert Fields(s) == [rest[..w]] + Fields(tail);
      forall k | 0 <= k < |Fields(s)| ensures FieldOk(Fields(s)[k], s) {
        if k > 0 { TailField(Fields(tail)[k - 1], s, n, w); }
      }
    }
  }

  lemma TailField(f: string, s: string, n: nat, w: nat)
    requires n + w <= |s| && FieldOk(f, s[n..][w..])
    ensures FieldOk(f, s)
  {
    forall c | c in s[n..][w..] ensures c in s {
    }
  }

  lemma TokenIsField(line: seq<char>, a: nat, f: string)
    requires TokenAt(line, a, f) && NUL !in f
    ensures CStr(line[a..]) == f
  {
    assert line[a..][..|f|] == line[a..a + |f|];
    CStrIs(line[a..], |f|);
  }

  /** Words with single spaces between them. */
  function Unwords(words: seq<string>): string {
    if words == [] then "" else if |words| == 1 then words[0] else words[0] + " " + Unwords(words[1..])
  }

  lemma FirstField(w: string, rest: string)
    requires IsWord(w) && (rest == "" || rest[0] == ' ')
    ensures Fields(w + rest) == [w] + if rest == "" then [] else Fields(rest[1..])
  {
    var line := w + rest;
    assert line[0..] == line && line[0..|w|] == w;
    assert forall k :: 0 <= k < |w| ==> line[k] == w[k];
    NextField(line, 0, 0, |w|);
    if rest == "" {
      NoField(line, |w|);
    } else {
      assert line[|w| + 1..] == rest[1..];
    }
  }

  /** Any list of words is read back from its line. */
  lemma {:induction false} FieldsOfUnwords(words: seq<string>)
    requires forall k :: 0 <= k < |words| ==> IsWord(words[k])
    ensures Fields(Unwords(words)) == words
    decreases |words|
  {
    if words == [] {
      NoField("", 0);
      assert ""[0..] == "";
    } else if |words| == 1 {
      FirstField(words[0], "");
      assert words[0] + "" == words[0];
      assert [words[0]] + [] == words;
    } else {
      var rest := " " + Unwords(words[1..]);
      UnwordsMore(words);
      FirstField(words[0], rest);
      assert rest[1..] == Unwords(words[1..]);
      FieldsOfUnwords(words[1..]);
      assert [words[0]] + words[1..] == words;
    }
  }

  lemma UnwordsMore(words: seq<string>)
    requires |words| > 1
    ensures Unwords(words) == words[0] + (" " + Unwords(words[1..]))
  {
    Associative(words[0], " ", Unwords(words[1..]));
  }

}
