/** The kernel shell: keys into a line, a line into tokens, tokens into file operations. */
module Shell {
  import opened CStrings
  import opened FatSpec
  import opened FileSpec
  import opened FileRuns
  import opened FileMap
  import opened Tokenizer
  import TerminalSpec
  import ScreenDriver
  import opened LineEditor
  import FS = FileSystem

  datatype Option<T> = None | Some(value: T)

  const READ_BUF := 1024

  // ---------------------------------------------------------------- the line being typed

  class Keyboard {
    const lineBuffer: array<char>
    const screen: ScreenDriver.Screen
    var linePos: nat

    ghost predicate Valid()
      reads this, screen, screen.lines, screen.escBuf
    {
      && lineBuffer.Length == MAX_LINE && linePos < MAX_LINE
      && lineBuffer != screen.escBuf && screen.Valid()
    }

    ghost function View(): Typing
      reads this, lineBuffer, screen, screen.lines, screen.escBuf
      requires Valid()
    {
      Typing(lineBuffer[..linePos], screen.View())
    }

    constructor (screen: ScreenDriver.Screen)
      requires screen.Valid()
      ensures Valid() && View() == Typing("", screen.View()) && this.screen == screen && fresh(lineBuffer)
    {
      this.screen := screen;
      lineBuffer := new char[MAX_LINE](_ => NUL);
      linePos := 0;
    }

    /** `microsos_shell_handle_char` for a key other than newline. */
    method HandleKey(c: char)
      requires Valid() && c != '\n'
      modifies this, lineBuffer, screen, screen.lines, screen.escBuf
      ensures Valid() && TypingOk(old(View())) && View() == Key(old(View()), c)
    {
      if c == TerminalSpec.BACKSPACE {
        if linePos > 0 {
          linePos := linePos - 1;
          lineBuffer[linePos] := NUL;
          screen.Putchar(TerminalSpec.BACKSPACE);
        }
        return;
      }
      if linePos < MAX_LINE - 1 {
        lineBuffer[linePos] := c;
        linePos := linePos + 1;
        lineBuffer[linePos] := NUL;
        screen.Putchar(c);
      }
    }

    /** What newline does before the line is executed: the buffer is then the C string that was typed. */
    method EndLine()
      requires Valid() && NUL !in View().line
      modifies lineBuffer, screen, screen.lines, screen.escBuf
      ensures Valid() && View() == Typing(old(View().line), TerminalSpec.Put(old(screen.View()), '\n'))
      ensures NUL in lineBuffer[..] && CStr(lineBuffer[..]) == View().line
    {
      screen.Putchar('\n');
      lineBuffer[linePos] := NUL;
      assert lineBuffer[..][linePos] == NUL && lineBuffer[..][..linePos] == lineBuffer[..linePos];
      CStrIs(lineBuffer[..], linePos);
    }
  }

  // ---------------------------------------------------------------- file commands

  /** The file operations that a command line asks for. */
  function CommandOf(fields: seq<string>): (ops: seq<Op>)
    ensures |ops| <= 1
    ensures forall op :: op in ops ==> OpOk(op)
  {
    if |fields| >= 2 && fields[0] == "create" then [Create(fields[1])]
    else if |fields| >= 3 && fields[0] == "write" then [Write(fields[1], fields[2], |fields[2]|)]
    else []
  }

  /** What `execute_line` does to the files. */
  ghost function ExecuteLine(v: Volume, line: string): (v': Volume)
    requires VolumeOk(v)
    ensures VolumeOk(v')
  {
    Dispatched(v, CommandOf(Fields(line)))
  }

  ghost function Dispatched(v: Volume, ops: seq<Op>): (v': Volume)
    requires VolumeOk(v) && |ops| <= 1 && forall op :: op in ops ==> OpOk(op)
    ensures VolumeOk(v')
  {
    if ops == [] then v
    else
      StepOk(v, ops[0]);
      Apply(v, ops[0]).1
  }

  /** The files after a session from boot. */
  ghost function Session(lines: seq<string>): (v: Volume)
    ensures VolumeOk(v)
  {
    if lines == [] then
      BootOk();
      Boot()
    else ExecuteLine(Session(lines[..|lines| - 1]), lines[|lines| - 1])
  }

  /** All file operations of a session, line by line. */
  function SessionOps(lines: seq<string>): (ops: seq<Op>)
    ensures forall op :: op in ops ==> OpOk(op)
  {
    if lines == [] then [] else SessionOps(lines[..|lines| - 1]) + CommandOf(Fields(lines[|lines| - 1]))
  }

  lemma {:induction false} SessionIsRun(lines: seq<string>)
    ensures OpsOk(SessionOps(lines)) && Session(lines) == Run(SessionOps(lines))
  {
    var ops := SessionOps(lines);
    forall i | 0 <= i < |ops| ensures OpOk(ops[i]) { assert ops[i] in ops; }
    if lines != [] {
      var n := |lines| - 1;
      SessionIsRun(lines[..n]);
      var front, last := SessionOps(lines[..n]), CommandOf(Fields(lines[n]));
      if last == [] {
        assert ops == front;
      } else {
        assert ops == front + [last[0]];
        assert ops[..|ops| - 1] == front;
      }
    }
  }

  /** What `read <name>` prints between its colour codes; None is "Read failed". */
  function ReadOutput(v: Volume, name: string): Option<string>
    requires VolumeOk(v)
  {
    var i := Find(v.files, name);
    if i == -1 || |RawText(v, i)| == 0 then None else Some(CStr(RawText(v, i) + [NUL]))
  }

  /** Lines as the editor delivers them. */
  ghost predicate LinesOk(lines: seq<string>) {
    forall k :: 0 <= k < |lines| ==> |lines[k]| < MAX_LINE && NUL !in lines[k]
  }

  ghost predicate TextOk(text: seq<char>) { |text| < MAX_LINE && NUL !in text }

  ghost predicate StoreOk(store: Store) { forall name :: name in store ==> TextOk(store[name]) }

  lemma {:induction false} ExpectedOk(ops: seq<Op>)
    requires OpsOk(ops) && forall op :: op in ops && op.Write? ==> op.size == |op.text| && TextOk(op.text)
    ensures StoreOk(Expected(ops))
  {
    if ops != [] {
      var front, op := ops[..|ops| - 1], ops[|ops| - 1];
      assert op in ops;
      ExpectedOk(front);
      assert op.Write? ==> Payload(op.text, op.size) == op.text;
    }
  }

  lemma CommandOk(line: string)
    requires |line| < MAX_LINE && NUL !in line
    ensures forall op :: op in CommandOf(Fields(line)) && op.Write? ==> op.size == |op.text| && TextOk(op.text)
  {
    FieldsAreWords(line);
    var fields := Fields(line);
    if |fields| >= 3 { assert FieldOk(fields[2], line); }
  }

  lemma {:induction false} SessionOk(lines: seq<string>)
    requires LinesOk(lines)
    ensures forall op :: op in SessionOps(lines) && op.Write? ==> op.size == |op.text| && TextOk(op.text)
  {
    if lines != [] {
      SessionOk(lines[..|lines| - 1]);
      CommandOk(lines[|lines| - 1]);
    }
  }

  /** `write` then `read`, end to end: after any session from boot, `read` prints exactly the text last
      written to the file, fails for files that were never written or do not exist, and its buffer of
      1024 characters, terminator included, is never exceeded. */
  lemma ReadPrintsLastWrite(lines: seq<string>, name: string)
    requires LinesOk(lines) && name != ""
    ensures OpsOk(SessionOps(lines))
    ensures var v, store := Session(lines), Expected(SessionOps(lines));
      && ReadOutput(v, name) == (if name in store && store[name] != "" then Some(store[name]) else None)
      && (Find(v.files, name) != -1 ==> |RawText(v, Find(v.files, name))| < READ_BUF)
  {
    var ops := SessionOps(lines);
    SessionIsRun(lines);
    SessionOk(lines);
    ExpectedOk(ops);
    FilesAreAMap(ops);
    assert AgreesOn(Run(ops), Expected(ops), name);
    if name in Expected(ops) {
      assert TextOk(Expected(ops)[name]);
      ReadsBackText(ops, name);
    }
  }

  // ---------------------------------------------------------------- what a line does

  /** Nothing that can be looked up has changed. */
  ghost predicate SameReads(v: Volume, v': Volume, name: string)
    requires VolumeOk(v) && VolumeOk(v')
  {
    (Find(v'.files, name) == -1 <==> Find(v.files, name) == -1) && ReadOutput(v', name) == ReadOutput(v, name)
  }

  lemma SameSlotSameReads(v: Volume, v': Volume, name: string)
    requires VolumeOk(v) && VolumeOk(v') && Find(v'.files, name) == Find(v.files, name)
    requires Find(v.files, name) != -1 ==> FileKept(v, v', Find(v.files, name))
    ensures SameReads(v, v', name)
  {
  }

  /** A line `write <name> <text>`, with any words behind it: if the file exists and the text fits into the
      free blocks of 64 characters, `read <name>` prints the text, and no other read changes; else no read
      changes at all. */
  lemma WriteLine(v: Volume, line: string)
    requires VolumeOk(v) && FreeAreBlank(v.disk) && NUL !in line
    requires |Fields(line)| >= 3 && Fields(line)[0] == "write"
    ensures var v', name, text := ExecuteLine(v, line), Fields(line)[1], Fields(line)[2];
      var done := Find(v.files, name) != -1 && |text| <= 64 * CountFree(v.disk.fat);
      && (done ==> Find(v'.files, name) != -1 && ReadOutput(v', name) == Some(text))
      && forall other :: !done || other != name ==> SameReads(v, v', other)
  {
    var v', name, text := ExecuteLine(v, line), Fields(line)[1], Fields(line)[2];
    FieldsAreWords(line);
    assert FieldOk(text, line);
    var ok := WriteFile(v, name, text, |text|).0;
    WriteKeeps(v, name, text, |text|);
    WriteSucceedsWhen(v, name, text, |text|);
    FindSame(v.files, v'.files, name);
    if ok { WrittenIsRead(v, name, text); }
    forall other | !ok || other != name ensures SameReads(v, v', other) {
      FindSame(v.files, v'.files, other);
      SameSlotSameReads(v, v', other);
    }
  }

  lemma WrittenIsRead(v: Volume, name: string, text: string)
    requires VolumeOk(v) && FreeAreBlank(v.disk) && text != "" && NUL !in text
    requires WriteFile(v, name, text, |text|).0
    ensures var v' := WriteFile(v, name, text, |text|).1;
      VolumeOk(v') && Find(v'.files, name) != -1 && ReadOutput(v', name) == Some(text)
  {
    var v' := WriteFile(v, name, text, |text|).1;
    var i := Find(v.files, name);
    WriteThenRead(v, name, text, |text|);
    WriteKeeps(v, name, text, |text|);
    FindSame(v.files, v'.files, name);
    var raw := RawText(v', i) + [NUL];
    assert raw[..|text|] == text && raw[|text|] == NUL;
    CStrIs(raw, |text|);
  }

  /** A line `create <name>`, with any words behind it: if a slot is empty, the first 15 characters of the
      name can be found afterwards, as an empty file if there was none of that name, else as the file that
      was there; nothing else changes. If no slot is empty, nothing changes at all. */
  lemma CreateLine(v: Volume, line: string)
    requires VolumeOk(v) && |Fields(line)| >= 2 && Fields(line)[0] == "create"
    ensures var v', name := ExecuteLine(v, line), Fields(line)[1];
      var made := if |name| <= 15 then name else name[..15];
      if Find(v.files, "") == -1 then v' == v
      else
        && (var i := Find(v'.files, made);
            i != -1 && (Find(v.files, made) == -1 ==> Contents(v', i) == [] && ReadOutput(v', made) == None))
        && (Packed(v) && Find(v.files, made) != -1 ==> SameReads(v, v', made))
        && forall other :: other != "" && other != made ==> SameReads(v, v', other)
  {
    var v', name := ExecuteLine(v, line), Fields(line)[1];
    var made, i := Stored(name), Find(v.files, "");
    FieldsAreWords(line);
    assert FieldOk(name, line);
    CreateKeeps(v, name);
    if i != -1 {
      forall other | other != "" && (other != made || (Find(v.files, made) != -1 && Packed(v)))
        ensures SameReads(v, v', other)
      {
        FoundAfterCreate(v, name, other);
        SameSlotSameReads(v, v', other);
      }
      CreatedIsThere(v, name);
    }
  }

  lemma CreatedIsThere(v: Volume, name: string)
    requires VolumeOk(v) && Find(v.files, "") != -1 && name != ""
    ensures var v', made := CreateFile(v, name).1, Stored(name);
      && VolumeOk(v') && Find(v'.files, made) != -1
      && (Find(v.files, made) == -1 ==> Contents(v', Find(v'.files, made)) == [] && ReadOutput(v', made) == None)
  {
    var v', made, i := CreateFile(v, name).1, Stored(name), Find(v.files, "");
    CreateKeeps(v, name);
    assert v'.files[i].name == made;
    if Find(v.files, made) == -1 {
      FindIs(v'.files, made, i);
      RawLength(v', i);
    }
  }

  lemma FoundAfterCreate(v: Volume, name: string, other: string)
    requires VolumeOk(v) && other != "" && Find(v.files, "") != -1
    requires other != Stored(name) || (Find(v.files, other) != -1 && Packed(v))
    ensures Find(CreateFile(v, name).1.files, other) == Find(v.files, other)
  {
    var files, j := CreateFile(v, name).1.files, Find(v.files, other);
    if j == -1 { FindNone(files, other); } else { FindIs(files, other, j); }
  }

  /** Any other line, and a `create` or `write` with too few words, changes nothing. */
  lemma OtherLine(v: Volume, line: string)
    requires VolumeOk(v)
    requires var words := Fields(line);
      !(|words| >= 2 && words[0] == "create") && !(|words| >= 3 && words[0] == "write")
    ensures ExecuteLine(v, line) == v
  {
  }

  /** The line that spells a write of `text` to the existing file `name`, on any volume with enough room. */
  lemma WriteCommand(v: Volume, name: string, text: string)
    requires VolumeOk(v) && FreeAreBlank(v.disk) && NUL !in name + text && IsWord(name) && IsWord(text)
    requires Find(v.files, name) != -1 && |text| <= 64 * CountFree(v.disk.fat)
    ensures var v' := ExecuteLine(v, "write " + name + " " + text);
      && Find(v'.files, name) != -1 && ReadOutput(v', name) == Some(text)
      && forall other :: other != name ==> SameReads(v, v', other)
  {
    var line := "write " + name + " " + text;
    WriteSpelled(name, text);
    assert NUL !in line;
    WriteLine(v, line);
  }

  lemma WriteSpelled(name: string, text: string)
    requires IsWord(name) && IsWord(text)
    ensures Fields("write " + name + " " + text) == ["write", name, text]
  {
    var words := ["write", name, text];
    assert words[1..] == [name, text] && [name, text][1..] == [text];
    UnwordsMore(words);
    UnwordsMore([name, text]);
    assert "write " + name + " " + text == "write" + (" " + (name + (" " + text)));
    FieldsOfUnwords(words);
  }

  /** The line that creates a file of at most 15 characters while a slot is empty; of a name that exists it
      makes a second slot that no lookup reaches. */
  lemma CreateCommand(v: Volume, name: string)
    requires VolumeOk(v) && Packed(v) && IsWord(name) && |name| <= 15 && Find(v.files, "") != -1
    ensures var v' := ExecuteLine(v, "create " + name);
      && Find(v'.files, name) != -1 && ReadOutput(v', name) == ReadOutput(v, name)
      && (Find(v.files, name) == -1 ==> ReadOutput(v', name) == None)
      && forall other :: other != "" && other != name ==> SameReads(v, v', other)
  {
    var words := ["create", name];
    assert words[1..] == [name];
    assert "create " + name == Unwords(words);
    FieldsOfUnwords(words);
    CreateLine(v, "create " + name);
  }

  // ---------------------------------------------------------------- the last write wins

  /** The line is a `write` to this file. */
  predicate Writes(line: string, name: string) {
    var words := Fields(line);
    |words| >= 3 && words[0] == "write" && words[1] == name
  }

  /** A line that does not write to an existing file leaves what is read from it. */
  lemma OthersKeep(v: Volume, line: string, name: string)
    requires VolumeOk(v) && Packed(v) && FreeAreBlank(v.disk) && NUL !in line
    requires name != "" && Find(v.files, name) != -1
    requires !Writes(line, name)
    ensures SameReads(v, ExecuteLine(v, line), name)
  {
    var words := Fields(line);
    if |words| >= 2 && words[0] == "create" {
      CreateLine(v, line);
    } else if |words| >= 3 && words[0] == "write" {
      WriteLine(v, line);
    } else {
      OtherLine(v, line);
    }
  }

  lemma SessionVolume(lines: seq<string>)
    ensures Packed(Session(lines)) && FreeAreBlank(Session(lines).disk)
  {
    SessionIsRun(lines);
    FilesAreAMap(SessionOps(lines));
    RunsArePadded(SessionOps(lines));
  }

  lemma SessionNext(lines: seq<string>, line: string)
    ensures Session(lines + [line]) == ExecuteLine(Session(lines), line)
  {
    assert (lines + [line])[..|lines|] == lines;
  }

  /** After these lines `read <name>` prints this text. */
  ghost predicate Prints(lines: seq<string>, name: string, text: string) {
    Find(Session(lines).files, name) != -1 && ReadOutput(Session(lines), name) == Some(text)
  }

  lemma StillPrints(lines: seq<string>, name: string, text: string, line: string)
    requires name != "" && Prints(lines, name, text) && NUL !in line && !Writes(line, name)
    ensures Prints(lines + [line], name, text)
  {
    SessionVolume(lines);
    OthersKeep(Session(lines), line, name);
    SessionNext(lines, line);
  }

  lemma Front(lines: seq<string>, later: seq<string>)
    requires later != []
    ensures lines + later == lines + later[..|later| - 1] + [later[|later| - 1]]
  {
  }

  /** None of the lines writes to the file. */
  ghost predicate WriteFree(later: seq<string>, name: string) {
    forall k :: 0 <= k < |later| ==> NUL !in later[k] && !Writes(later[k], name)
  }

  lemma {:induction false} OthersKeepAll(lines: seq<string>, name: string, text: string, later: seq<string>)
    requires name != "" && Prints(lines, name, text) && WriteFree(later, name)
    ensures Prints(lines + later, name, text)
    decreases |later|
  {
    if later == [] {
      assert lines + later == lines;
    } else {
      var n := |later| - 1;
      var front := later[..n];
      OthersKeepAll(lines, name, text, front);
      StillPrints(lines + front, name, text, later[n]);
      Front(lines, later);
    }
  }

  /** After any session, a write of `text` to an existing file that fits is what `read` prints, whatever
      lines follow, until the next write to that file. */
  lemma LastWriteWins(lines: seq<string>, name: string, text: string, later: seq<string>)
    requires IsWord(name) && IsWord(text) && NUL !in name + text
    requires Find(Session(lines).files, name) != -1 && |text| <= 64 * CountFree(Session(lines).disk.fat)
    requires WriteFree(later, name)
    ensures Prints(lines + ["write " + name + " " + text] + later, name, text)
  {
    var line := "write " + name + " " + text;
    SessionVolume(lines);
    WriteCommand(Session(lines), name, text);
    SessionNext(lines, line);
    OthersKeepAll(lines + [line], name, text, later);
  }

  // ---------------------------------------------------------------- commands on the kernel's arrays

  /** The C string at position a, by `kstrlen`. */
  method StringAt(line: array<char>, a: nat, ghost f: string) returns (s: string)
    requires TokenAt(line[..], a, f) && NUL !in f
    ensures s == f
  {
    var n := 0;
    assert line[..][a..a + |f|] == line[a..a + |f|];
    while line[a + n] != NUL
      invariant n <= |f|
      decreases |f| - n
    {
      assert n < |f|;
      n := n + 1;
    }
    s := line[a..a + n];
  }

  lemma NthToken(line: seq<char>, argv: seq<nat>, fields: seq<string>, k: nat)
    requires TokensAt(line, argv, fields, |line|) && k < |argv|
    ensures TokenAt(line, argv[k], fields[k])
  {
  }

  /** The first tokens as strings, at most three. */
  method WordsAt(line: array<char>, argv: array<nat>, argc: nat, ghost fields: seq<string>) returns (words: seq<string>)
    requires argc <= argv.Length && TokensAt(line[..], argv[..argc], fields, line.Length)
    requires forall k :: 0 <= k < |fields| ==> NUL !in fields[k]
    ensures words == FirstThree(fields)
  {
    words := [];
    var k := 0;
    while k < argc && k < 3
      invariant 0 <= k <= argc && k <= 3 && words == fields[..k]
    {
      NthToken(line[..], argv[..argc], fields, k);
      var w := StringAt(line, argv[k], fields[k]);
      words := words + [w];
      k := k + 1;
    }
  }

  /** Tokenizes the line and reads the first tokens. */
  method FirstWords(line: array<char>) returns (words: seq<string>)
    requires NUL in line[..]
    modifies line
    ensures words == FirstThree(Fields(CStr(old(line[..]))))
    ensures forall w :: w in words ==> NUL !in w
  {
    ghost var fields := Fields(CStr(line[..]));
    FieldsAreWords(CStr(line[..]));
    forall k | 0 <= k < |fields| ensures NUL !in fields[k] { assert FieldOk(fields[k], CStr(line[..])); }
    var argv := new nat[MAX_TOKENS](_ => 0);
    var argc := Tokenize(line, argv);
    words := WordsAt(line, argv, argc, fields[..argc]);
  }

  function FirstThree(fields: seq<string>): seq<string> {
    if |fields| < 3 then fields else fields[..3]
  }

  lemma CommandOfFirstThree(fields: seq<string>)
    ensures CommandOf(FirstThree(fields)) == CommandOf(fields)
  {
  }

  /** The `create` and `write` branches of `execute_line`. */
  method FileCommand(fs: FS.FileSystem, line: array<char>)
    requires fs.Valid() && NUL in line[..] && line.Length == MAX_LINE
    modifies line, fs.fat.table, fs.names, fs.sizes, fs.starts, fs.data
    ensures fs.Valid()
    ensures VolumeOk(old(fs.View())) && fs.View() == ExecuteLine(old(fs.View()), CStr(old(line[..])))
  {
    CommandOfFirstThree(Fields(CStr(line[..])));
    var argv := FirstWords(line);
    FileDispatch(fs, argv);
  }

  method FileDispatch(fs: FS.FileSystem, argv: seq<string>)
    requires fs.Valid() && forall w :: w in argv ==> NUL !in w
    modifies fs.fat.table, fs.names, fs.sizes, fs.starts, fs.data
    ensures fs.Valid()
    ensures VolumeOk(old(fs.View())) && fs.View() == Dispatched(old(fs.View()), CommandOf(argv))
  {
    if |argv| == 0 {
      return;
    }
    if argv[0] == "create" {
      if |argv| >= 2 {
        var r := fs.CreateFile(argv[1]);
      }
    } else if argv[0] == "write" {
      if |argv| >= 3 {
        var r := fs.WriteFile(argv[1], argv[2], |argv[2]|);
      }
    }
  }

  /** The `read` branch of `execute_line`: what `print` receives. */
  method ReadCommand(fs: FS.FileSystem, name: string) returns (out: Option<string>)
    requires fs.Valid() && NUL !in name
    requires var i := Find(fs.View().files, name); i != -1 ==> |RawText(fs.View(), i)| < READ_BUF
    ensures out == ReadOutput(fs.View(), name)
  {
    var readBuf := new char[READ_BUF];
    var n := fs.ReadFile(name, readBuf);
    if n <= 0 {
      return None;
    }
    readBuf[n] := NUL;
    ghost var raw := readBuf[..n];
    var k := 0;
    while readBuf[k] != NUL
      invariant k <= n && NUL !in readBuf[..k]
      decreases n - k
    {
      assert readBuf[..k + 1] == readBuf[..k] + [readBuf[k]];
      k := k + 1;
    }
    assert (raw + [NUL])[..k] == readBuf[..k];
    CStrIs(raw + [NUL], k);
    out := Some(readBuf[..k]);
  }

  /** A whole `read` line: what is printed is what can be read from the file that its second word names. */
  method ReadLine(fs: FS.FileSystem, line: array<char>) returns (out: Option<string>)
    requires fs.Valid() && NUL in line[..] && line.Length == MAX_LINE
    requires var words := Fields(CStr(line[..]));
      |words| >= 2 ==> var i := Find(fs.View().files, words[1]); i != -1 ==> |RawText(fs.View(), i)| < READ_BUF
    modifies line
    ensures fs.Valid() && fs.View() == old(fs.View())
    ensures var words := Fields(CStr(old(line[..])));
      out == if |words| >= 2 && words[0] == "read" then ReadOutput(fs.View(), words[1]) else None
  {
    var argv := FirstWords(line);
    out := None;
    if |argv| >= 2 && argv[0] == "read" {
      out := ReadCommand(fs, argv[1]);
    }
  }
}
