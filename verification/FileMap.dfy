/** After any run from boot the files are a map from names to the text last written. */
module FileMap {
  import opened CStrings
  import opened FatSpec
  import opened FileSpec
  import opened FileRuns

  /** What is in memory after `fs_init` at boot: the blocks are static, hence zero. */
  function Boot(): Volume {
    Volume(Disk(seq(MAX_BLOCKS, _ => FREE), seq(MAX_BLOCKS, _ => Zeros(BLOCK_SIZE))),
           seq(MAX_FILES, _ => Entry("", 0, -1)))
  }

  datatype Op = Create(name: string) | Write(name: string, text: seq<char>, size: int)

  predicate OpOk(op: Op) { op.Write? ==> op.size <= |op.text| }

  /** The call and its outcome. */
  function Apply(v: Volume, op: Op): (bool, Volume)
    requires DiskOk(v.disk) && OpOk(op)
  {
    match op
    case Create(name) => CreateFile(v, name)
    case Write(name, text, size) => WriteFile(v, name, text, size)
  }

  ghost predicate OpsOk(ops: seq<Op>) { forall i :: 0 <= i < |ops| ==> OpOk(ops[i]) }

  ghost function Run(ops: seq<Op>): (v: Volume)
    requires OpsOk(ops)
    ensures VolumeOk(v)
  {
    if ops == [] then
      BootOk();
      Boot()
    else
      var before := Run(ops[..|ops| - 1]);
      StepOk(before, ops[|ops| - 1]);
      Apply(before, ops[|ops| - 1]).1
  }

  lemma BootOk()
    ensures VolumeOk(Boot())
  {
    forall i | 0 <= i < MAX_FILES ensures FileOk(Boot(), i) && ChainOf(Boot(), i) == [] {
    }
  }

  lemma StepOk(v: Volume, op: Op)
    requires VolumeOk(v) && OpOk(op)
    ensures VolumeOk(Apply(v, op).1)
  {
    match op
    case Create(name) => CreateKeeps(v, name);
    case Write(name, text, size) => WriteKeeps(v, name, text, size);
  }

  // ---------------------------------------------------------------- the map

  /** Files by name. */
  type Store = map<string, seq<char>>

  /** What the call does to the map, given whether it succeeded. A create of a name that exists makes a
      second slot that no lookup ever reaches. */
  function Track(store: Store, op: Op, ok: bool): Store
    requires OpOk(op)
  {
    if !ok then store
    else match op
      case Create(name) =>
        if Stored(name) == "" || Stored(name) in store then store else store[Stored(name) := []]
      case Write(name, text, size) =>
        if name == "" then store else store[name := Payload(text, size)]
  }

  ghost function Expected(ops: seq<Op>): Store
    requires OpsOk(ops)
  {
    if ops == [] then map[]
    else
      var front, op := ops[..|ops| - 1], ops[|ops| - 1];
      Track(Expected(front), op, Apply(Run(front), op).0)
  }

  /** Slots fill up from the front, since nothing deletes a file. */
  predicate Packed(v: Volume) {
    forall i, j :: 0 <= i < j < |v.files| && v.files[i].name == "" ==> v.files[j].name == ""
  }

  /** The lookups of v are those of the map. */
  ghost predicate Agrees(v: Volume, store: Store)
    requires VolumeOk(v)
  {
    forall name: string :: name != "" ==> AgreesOn(v, store, name)
  }

  ghost predicate AgreesOn(v: Volume, store: Store, name: string)
    requires VolumeOk(v)
  {
    var i := Find(v.files, name);
    && (i != -1 <==> name in store)
    && (i != -1 ==> Contents(v, i) == store[name])
  }

  lemma FindIs(files: seq<Entry>, name: string, i: nat)
    requires i < |files| && files[i].name == name && forall k :: 0 <= k < i ==> files[k].name != name
    ensures Find(files, name) == i
  {
  }

  lemma FindNone(files: seq<Entry>, name: string)
    requires forall k :: 0 <= k < |files| ==> files[k].name != name
    ensures Find(files, name) == -1
  {
  }

  /** Two directories with the same names find the same slots. */
  lemma FindSame(files: seq<Entry>, files': seq<Entry>, name: string)
    requires |files| == |files'| && forall k :: 0 <= k < |files| ==> files[k].name == files'[k].name
    ensures Find(files, name) == Find(files', name)
  {
    var i := Find(files, name);
    if i == -1 { FindNone(files', name); } else { FindIs(files', name, i); }
  }

  lemma KeptContents(v: Volume, v': Volume, i: nat)
    requires VolumeOk(v) && VolumeOk(v') && i < MAX_FILES && FileKept(v, v', i)
    ensures Contents(v', i) == Contents(v, i)
  {
  }

  lemma WriteAgrees(v: Volume, store: Store, op: Op, name: string)
    requires VolumeOk(v) && op.Write? && OpOk(op) && name != "" && AgreesOn(v, store, name)
    ensures VolumeOk(Apply(v, op).1) && AgreesOn(Apply(v, op).1, Track(store, op, Apply(v, op).0), name)
  {
    var (ok, v') := Apply(v, op);
    WriteKeeps(v, op.name, op.text, op.size);
    var i := Find(v.files, name);
    FindSame(v.files, v'.files, name);
    if ok && op.name == name {
      WriteThenRead(v, name, op.text, op.size);
    } else if i != -1 {
      KeptContents(v, v', i);
    }
  }

  lemma CreateAgrees(v: Volume, store: Store, op: Op, name: string)
    requires VolumeOk(v) && Packed(v) && op.Create? && name != "" && AgreesOn(v, store, name)
    ensures VolumeOk(Apply(v, op).1) && AgreesOn(Apply(v, op).1, Track(store, op, Apply(v, op).0), name)
  {
    var (ok, v') := Apply(v, op);
    CreateKeeps(v, op.name);
    var i, empty := Find(v.files, name), Find(v.files, "");
    if i != -1 {
      FindIs(v'.files, name, i);
      KeptContents(v, v', i);
    } else if ok && Stored(op.name) == name {
      FindIs(v'.files, name, empty);
    } else {
      FindNone(v'.files, name);
    }
  }

  lemma PackedStep(v: Volume, op: Op)
    requires VolumeOk(v) && Packed(v) && OpOk(op)
    ensures Packed(Apply(v, op).1)
  {
  }

  /** The files refine a map: after any run of creates and writes, a name is found exactly if the map has
      it, and its first `size` characters are the text of the last successful write (none before it). */
  lemma {:induction false} FilesAreAMap(ops: seq<Op>)
    requires OpsOk(ops)
    ensures Packed(Run(ops)) && Agrees(Run(ops), Expected(ops))
  {
    if ops == [] {
      forall name: string | name != "" ensures AgreesOn(Run(ops), Expected(ops), name) {
        FindNone(Boot().files, name);
      }
    } else {
      var front, op := ops[..|ops| - 1], ops[|ops| - 1];
      FilesAreAMap(front);
      var v, store := Run(front), Expected(front);
      PackedStep(v, op);
      forall name: string | name != ""
        ensures AgreesOn(Run(ops), Expected(ops), name)
      {
        assert AgreesOn(v, store, name);
        if op.Write? { WriteAgrees(v, store, op, name); } else { CreateAgrees(v, store, op, name); }
      }
    }
  }

  /** A file just created can be opened by the name it was created with if and only if the name fits in
      its slot: longer names are cut when stored and compared whole when looked up. Its first 15 characters
      always open it. */
  lemma CreatedIsFoundIff(v: Volume, name: string)
    requires VolumeOk(v) && CreateFile(v, name).0
    ensures Find(CreateFile(v, name).1.files, name) != -1 <==> |name| < 16
    ensures Find(CreateFile(v, name).1.files, if |name| <= 15 then name else name[..15]) != -1
  {
    var v' := CreateFile(v, name).1;
    CreateKeeps(v, name);
    FoundFits(v', name);
    assert v'.files[Find(v.files, "")].name == Stored(name);
  }

  lemma FoundFits(v: Volume, name: string)
    requires VolumeOk(v)
    ensures Find(v.files, name) != -1 ==> |name| < MAX_FILENAME
  {
    var i := Find(v.files, name);
    if i != -1 { assert FileOk(v, i); }
  }

  // ---------------------------------------------------------------- where files lie

  /** The last blocks of the disk, in order. */
  ghost predicate IsTail(free: seq<nat>) {
    forall k :: 0 <= k < |free| ==> free[k] == MAX_BLOCKS - |free| + k
  }

  ghost predicate Contiguous(c: seq<nat>) { forall k :: 0 <= k < |c| ==> c[k] == c[0] + k }

  /** The free blocks are the last ones, and each file lies in consecutive blocks. */
  ghost predicate Compact(v: Volume)
    requires VolumeOk(v)
  {
    && IsTail(FreeBlocks(v.disk.fat))
    && forall i :: 0 <= i < MAX_FILES ==> Contiguous(ChainOf(v, i))
  }

  lemma {:induction false} AllFree(fat: Table, b: nat)
    requires |fat| == MAX_BLOCKS && b <= MAX_BLOCKS && forall x :: 0 <= x < MAX_BLOCKS ==> fat[x] == FREE
    ensures |FreeFrom(fat, b)| == MAX_BLOCKS - b && IsTail(FreeFrom(fat, b))
    decreases MAX_BLOCKS - b
  {
    if b < MAX_BLOCKS {
      AllFree(fat, b + 1);
    }
  }

  lemma CompactStep(v: Volume, op: Op)
    requires VolumeOk(v) && Compact(v) && OpOk(op)
    ensures VolumeOk(Apply(v, op).1) && Compact(Apply(v, op).1)
  {
    var (ok, v') := Apply(v, op);
    if op.Create? {
      CreateKeeps(v, op.name);
      forall i | 0 <= i < MAX_FILES ensures Contiguous(ChainOf(v', i)) {
        if i == Find(v.files, "") { assert ChainOf(v', i) == []; } else { assert FileKept(v, v', i); }
      }
    } else {
      var text := Payload(op.text, op.size);
      var i, free, taken := Find(v.files, op.name), FreeBlocks(v.disk.fat), Taken(v.disk.fat, text);
      WriteKeeps(v, op.name, op.text, op.size);
      if i != -1 {
        TakenFrom(v, text);
      }
      forall j | 0 <= j < MAX_FILES ensures Contiguous(ChainOf(v', j)) {
        if ok && j == i { assert Contiguous(taken); } else { assert FileKept(v, v', j); }
      }
    }
  }

  lemma TakenFrom(v: Volume, text: seq<char>)
    requires VolumeOk(v) && IsTail(FreeBlocks(v.disk.fat))
    ensures Contiguous(Taken(v.disk.fat, text))
    ensures IsTail(FreeBlocks(WrittenDisk(v, text).disk.fat))
  {
    NewChain(v, text);
    WriteFromTakes(Progress(v.disk, -1, -1), text, []);
  }

  /** In every run from boot blocks are handed out in ascending order, so each file is contiguous. */
  lemma {:induction false} FilesAreContiguous(ops: seq<Op>)
    requires OpsOk(ops)
    ensures Compact(Run(ops))
  {
    if ops == [] {
      AllFree(Boot().disk.fat, 0);
      forall i | 0 <= i < MAX_FILES ensures Contiguous(ChainOf(Boot(), i)) {
        assert ChainOf(Boot(), i) == [];
      }
    } else {
      FilesAreContiguous(ops[..|ops| - 1]);
      CompactStep(Run(ops[..|ops| - 1]), ops[|ops| - 1]);
    }
  }

  // ---------------------------------------------------------------- what the shell prints

  /** Free blocks are blank, and behind the text of every file its last block is blank. */
  ghost predicate Padded(v: Volume)
    requires VolumeOk(v)
  {
    && FreeAreBlank(v.disk)
    && forall i :: 0 <= i < MAX_FILES ==> PaddedFile(v, i)
  }

  ghost predicate PaddedFile(v: Volume, i: nat)
    requires VolumeOk(v) && i < MAX_FILES
  {
    RawText(v, i) == Contents(v, i) + Zeros(Padding(Size(v, i)))
  }

  lemma WritePads(v: Volume, op: Op)
    requires VolumeOk(v) && Padded(v) && op.Write? && OpOk(op)
    ensures VolumeOk(Apply(v, op).1) && Padded(Apply(v, op).1)
  {
    var (ok, v') := Apply(v, op);
    var i := Find(v.files, op.name);
    WriteKeeps(v, op.name, op.text, op.size);
    if ok {
      WriteThenRead(v, op.name, op.text, op.size);
    } else if i != -1 {
      FailedWriteBlank(v, Payload(op.text, op.size));
    }
    forall j | 0 <= j < MAX_FILES
      ensures PaddedFile(v', j)
    {
      if !ok || j != i {
        assert PaddedFile(v, j);
        KeptContents(v, v', j);
      }
    }
  }

  lemma FailedWriteBlank(v: Volume, text: seq<char>)
    requires VolumeOk(v) && FreeAreBlank(v.disk) && !WrittenDisk(v, text).ok
    ensures DiskOk(WrittenDisk(v, text).disk) && FreeAreBlank(WrittenDisk(v, text).disk)
  {
    var d := WrittenDisk(v, text).disk;
    NewChain(v, text);
    forall b | 0 <= b < MAX_BLOCKS
      ensures d.fat[b] != FREE
    {
      if d.fat[b] == FREE { FreeFromComplete(d.fat, 0, b); }
    }
  }

  lemma CreatePads(v: Volume, op: Op)
    requires VolumeOk(v) && Padded(v) && op.Create?
    ensures VolumeOk(Apply(v, op).1) && Padded(Apply(v, op).1)
  {
    var (ok, v') := Apply(v, op);
    var i := Find(v.files, "");
    CreateKeeps(v, op.name);
    forall j | 0 <= j < MAX_FILES
      ensures PaddedFile(v', j)
    {
      if j == i {
        assert ChainOf(v', j) == [];
      } else {
        assert PaddedFile(v, j);
        KeptContents(v, v', j);
      }
    }
  }

  /** In every run from boot no block is used twice, so behind a text there are only NULs. */
  lemma {:induction false} RunsArePadded(ops: seq<Op>)
    requires OpsOk(ops)
    ensures Padded(Run(ops))
  {
    if ops == [] {
      forall i | 0 <= i < MAX_FILES ensures PaddedFile(Boot(), i) {
        assert ChainOf(Boot(), i) == [];
      }
    } else {
      var front, op := ops[..|ops| - 1], ops[|ops| - 1];
      RunsArePadded(front);
      if op.Write? { WritePads(Run(front), op); } else { CreatePads(Run(front), op); }
    }
  }

  /** `read_file` followed by a NUL at the end of what it copied is, as a C string, exactly the text last
      written, even when that text fills its last block. */
  lemma ReadsBackText(ops: seq<Op>, name: string)
    requires OpsOk(ops) && name != "" && name in Expected(ops) && NUL !in Expected(ops)[name]
    ensures var i := Find(Run(ops).files, name);
      && i != -1
      && CStr(RawText(Run(ops), i) + [NUL]) == Expected(ops)[name]
      && |RawText(Run(ops), i)| == BLOCK_SIZE * Blocks(|Expected(ops)[name]|)
  {
    var v, text := Run(ops), Expected(ops)[name];
    FilesAreAMap(ops);
    RunsArePadded(ops);
    assert AgreesOn(v, Expected(ops), name);
    var i := Find(v.files, name);
    assert PaddedFile(v, i);
    RawLength(v, i);
    var raw := RawText(v, i) + [NUL];
    assert raw[..|text|] == text;
    assert raw[|text|] == NUL;
    CStrIs(raw, |text|);
  }
}
