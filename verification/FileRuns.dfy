/** Theorems about files: chains, atomic writes, and the directory as a map from names to contents. */
module FileRuns {
  import opened FatSpec
  import opened FileSpec
  import opened Sequences

  /** Slot i owns a chain of as many blocks as its size needs. */
  ghost predicate FileOk(v: Volume, i: nat)
    requires i < |v.files|
  {
    var c := ChainOf(v, i);
    && Chained(v.disk.fat, c)
    && v.files[i].start == Start(c)
    && |c| == Blocks(v.files[i].size)
    && |v.files[i].name| < MAX_FILENAME
  }

  ghost predicate Apart(c: seq<nat>, d: seq<nat>) {
    forall k :: 0 <= k < |c| ==> c[k] !in d
  }

  /** Files i and j share no block. */
  ghost predicate ChainsApart(v: Volume, i: nat, j: nat)
    requires i < |v.files| && j < |v.files|
  {
    Apart(ChainOf(v, i), ChainOf(v, j))
  }

  /** Every volume that creates and writes can produce; chains may run through the blocks in any order. */
  ghost predicate VolumeOk(v: Volume) {
    && DiskOk(v.disk) && |v.files| == MAX_FILES
    && (forall i :: 0 <= i < MAX_FILES ==> FileOk(v, i))
    && (forall i, j :: 0 <= i < MAX_FILES && 0 <= j < MAX_FILES && i != j ==> ChainsApart(v, i, j))
  }

  /** All the characters that `read_file` copies for slot i. */
  function RawText(v: Volume, i: nat): seq<char>
    requires i < |v.files| && DiskOk(v.disk)
  {
    FollowInRange(v.disk.fat, v.files[i].start, MAX_BLOCKS);
    Text(v.disk.data, ChainOf(v, i))
  }

  lemma {:induction false} FollowInRange(fat: Table, b: int, fuel: nat)
    ensures forall k :: 0 <= k < |Follow(fat, b, fuel)| ==> Follow(fat, b, fuel)[k] < |fat|
    decreases fuel
  {
    if fuel > 0 && 0 <= b < |fat| { FollowInRange(fat, fat[b], fuel - 1); }
  }

  function Size(v: Volume, i: nat): nat
    requires i < |v.files|
  {
    if v.files[i].size < 0 then 0 else v.files[i].size
  }

  lemma RawLength(v: Volume, i: nat)
    requires VolumeOk(v) && i < MAX_FILES
    ensures |RawText(v, i)| == BLOCK_SIZE * Blocks(v.files[i].size) >= Size(v, i)
  {
    assert FileOk(v, i);
    FollowInRange(v.disk.fat, v.files[i].start, MAX_BLOCKS);
    TextLength(v.disk.data, ChainOf(v, i));
  }

  /** The first `size` characters read back. */
  function Contents(v: Volume, i: nat): seq<char>
    requires VolumeOk(v) && i < MAX_FILES
  {
    RawLength(v, i);
    RawText(v, i)[..Size(v, i)]
  }

  // ---------------------------------------------------------------- files that are not written

  lemma ChainNotFree(fat: Table, c: seq<nat>, free: seq<nat>)
    requires Chained(fat, c) && free <= FreeBlocks(fat)
    ensures Apart(c, free)
  {
    forall k | 0 <= k < |c| ensures c[k] !in free {
      assert LinkOk(fat, c, k);
    }
  }

  /** A chain survives any change to free blocks, and so does what is written in it. */
  lemma ChainSurvives(d: Disk, d': Disk, c: seq<nat>, taken: seq<nat>)
    requires DiskKept(d, d', taken, -1) && Chained(d.fat, c) && taken <= FreeBlocks(d.fat)
    ensures Chained(d'.fat, c)
    ensures (forall k :: 0 <= k < |c| ==> c[k] < MAX_BLOCKS) && Text(d'.data, c) == Text(d.data, c)
  {
    ChainNotFree(d.fat, c, taken);
    forall k | 0 <= k < |c|
      ensures LinkOk(d'.fat, c, k) && c[k] < MAX_BLOCKS && d'.data[c[k]] == d.data[c[k]]
    {
      assert LinkOk(d.fat, c, k);
    }
    TextDepends(d.data, d'.data, c);
  }

  /** Slot i of v and of v' is the same file with the same chain and the same text. */
  ghost predicate FileKept(v: Volume, v': Volume, i: nat)
    requires VolumeOk(v) && DiskOk(v'.disk) && i < |v'.files| == MAX_FILES
  {
    && v'.files[i] == v.files[i]
    && ChainOf(v', i) == ChainOf(v, i)
    && RawText(v', i) == RawText(v, i)
  }

  lemma FileSurvives(v: Volume, v': Volume, i: nat, taken: seq<nat>)
    requires VolumeOk(v) && i < |v'.files| == MAX_FILES && v'.files[i] == v.files[i]
    requires DiskKept(v.disk, v'.disk, taken, -1) && taken <= FreeBlocks(v.disk.fat)
    ensures FileKept(v, v', i) && FileOk(v', i)
  {
    assert FileOk(v, i);
    var c := ChainOf(v, i);
    ChainSurvives(v.disk, v'.disk, c, taken);
    if c != [] { ChainIsFollowed(v'.disk.fat, c); }
  }

  /** Slot i has a new chain c that meets no old one; all other chains are as before. */
  lemma StillApart(v: Volume, v': Volume, i: int, c: seq<nat>)
    requires VolumeOk(v) && |v'.files| == MAX_FILES
    requires forall j :: 0 <= j < MAX_FILES && j != i ==> ChainOf(v', j) == ChainOf(v, j)
    requires 0 <= i < MAX_FILES ==> ChainOf(v', i) == c
    requires forall j :: 0 <= j < MAX_FILES ==> Apart(ChainOf(v, j), c) && Apart(c, ChainOf(v, j))
    ensures forall h, j :: 0 <= h < MAX_FILES && 0 <= j < MAX_FILES && h != j ==> ChainsApart(v', h, j)
  {
    forall h, j | 0 <= h < MAX_FILES && 0 <= j < MAX_FILES && h != j
      ensures ChainsApart(v', h, j)
    {
      if h != i && j != i { assert ChainsApart(v, h, j); }
    }
  }

  // ---------------------------------------------------------------- new chains

  /** The disk after a write, successful or not, when the file exists. */
  function WrittenDisk(v: Volume, text: seq<char>): Outcome
    requires DiskOk(v.disk)
  {
    WriteFrom(Progress(v.disk, -1, -1), text)
  }

  function Payload(text: seq<char>, size: int): seq<char>
    requires size <= |text|
  {
    if size <= 0 then [] else text[..size]
  }

  /** The chain of a new text is made of the first free blocks. */
  lemma NewChain(v: Volume, text: seq<char>)
    requires DiskOk(v.disk)
    ensures var r := WrittenDisk(v, text); var taken := Taken(v.disk.fat, text);
      && DiskKept(v.disk, r.disk, taken, -1)
      && r.ok == (Blocks(|text|) <= CountFree(v.disk.fat))
      && CountFree(r.disk.fat) == CountFree(v.disk.fat) - |taken|
      && Chained(r.disk.fat, taken) && r.first == Start(taken)
      && Follow(r.disk.fat, r.first, MAX_BLOCKS) == taken
  {
    var p := Progress(v.disk, -1, -1);
    WriteFromTakes(p, text, []);
    WriteFromChains(p, text, []);
    WriteFromKeeps(p, text, []);
    var taken := Taken(v.disk.fat, text);
    assert [] + taken == taken;
    if taken != [] { ChainIsFollowed(WrittenDisk(v, text).disk.fat, taken); }
  }

  /** Free blocks belong to no file. */
  lemma FreeApart(v: Volume, free: seq<nat>)
    requires VolumeOk(v) && free <= FreeBlocks(v.disk.fat)
    ensures forall i :: 0 <= i < MAX_FILES ==> Apart(ChainOf(v, i), free) && Apart(free, ChainOf(v, i))
  {
    forall i | 0 <= i < MAX_FILES
      ensures Apart(ChainOf(v, i), free) && Apart(free, ChainOf(v, i))
    {
      assert FileOk(v, i);
      ChainNotFree(v.disk.fat, ChainOf(v, i), free);
    }
  }

  /** Writes to free blocks disturb no directory slot that stays as it is. */
  lemma FilesSurvive(v: Volume, v': Volume, i: int, taken: seq<nat>)
    requires VolumeOk(v) && |v'.files| == MAX_FILES
    requires forall j :: 0 <= j < MAX_FILES && j != i ==> v'.files[j] == v.files[j]
    requires DiskKept(v.disk, v'.disk, taken, -1) && taken <= FreeBlocks(v.disk.fat)
    ensures forall j :: 0 <= j < MAX_FILES && j != i ==> FileKept(v, v', j) && FileOk(v', j)
    ensures forall j :: 0 <= j < MAX_FILES && j != i ==> ChainOf(v', j) == ChainOf(v, j)
  {
    forall j | 0 <= j < MAX_FILES && j != i
      ensures FileKept(v, v', j) && FileOk(v', j) && ChainOf(v', j) == ChainOf(v, j)
    {
      FileSurvives(v, v', j, taken);
    }
  }

  /** A volume whose slot i, if any, got a chain from free blocks is as good as before. */
  lemma VolumeSurvives(v: Volume, v': Volume, i: int, taken: seq<nat>)
    requires VolumeOk(v) && |v'.files| == MAX_FILES
    requires forall j :: 0 <= j < MAX_FILES && j != i ==> v'.files[j] == v.files[j]
    requires DiskKept(v.disk, v'.disk, taken, -1) && taken <= FreeBlocks(v.disk.fat)
    requires 0 <= i < MAX_FILES ==> FileOk(v', i) && ChainOf(v', i) == taken
    ensures VolumeOk(v') && forall j :: 0 <= j < MAX_FILES && j != i ==> FileKept(v, v', j)
  {
    FilesSurvive(v, v', i, taken);
    FreeApart(v, taken);
    StillApart(v, v', i, taken);
    assert forall j :: 0 <= j < MAX_FILES ==> FileOk(v', j);
  }

  // ---------------------------------------------------------------- create

  /** A create changes one empty slot and no file. */
  lemma CreateKeeps(v: Volume, name: string)
    requires VolumeOk(v)
    ensures var (ok, v') := CreateFile(v, name); var i := Find(v.files, "");
      && VolumeOk(v') && (ok <==> i != -1) && v'.disk == v.disk
      && (forall j :: 0 <= j < MAX_FILES && j != i ==> FileKept(v, v', j))
      && (ok ==> v'.files[i].name == Stored(name) && Contents(v', i) == [])
  {
    var v', i := CreateFile(v, name).1, Find(v.files, "");
    assert i != -1 ==> ChainOf(v', i) == [];
    VolumeSurvives(v, v', i, []);
  }

  // ---------------------------------------------------------------- write

  /** When a write succeeds, and how many free blocks it leaves: exactly ceil(size / 64) fewer after a
      success, none at all after running out. */
  lemma WriteSucceedsWhen(v: Volume, name: string, text: seq<char>, size: int)
    requires VolumeOk(v) && size <= |text|
    ensures var (ok, v') := WriteFile(v, name, text, size); var found := Find(v.files, name) != -1;
      && (ok <==> found && Blocks(size) <= CountFree(v.disk.fat))
      && CountFree(v'.disk.fat)
         == CountFree(v.disk.fat) - (if ok then Blocks(size) else if found then CountFree(v.disk.fat) else 0)
  {
    NewChain(v, Payload(text, size));
    assert Blocks(|Payload(text, size)|) == Blocks(size);
  }

  /** A write that runs out of blocks has changed no file. */
  lemma FailedWriteKeeps(v: Volume, text: seq<char>)
    requires VolumeOk(v)
    ensures var v' := v.(disk := WrittenDisk(v, text).disk);
      VolumeOk(v') && forall j :: 0 <= j < MAX_FILES ==> FileKept(v, v', j)
  {
    NewChain(v, text);
    VolumeSurvives(v, v.(disk := WrittenDisk(v, text).disk), -1, Taken(v.disk.fat, text));
  }

  /** A write that goes through gives slot i a new chain and changes no other file. */
  lemma DoneWriteKeeps(v: Volume, i: nat, text: seq<char>, size: int)
    requires VolumeOk(v) && i < MAX_FILES && WrittenDisk(v, text).ok && Blocks(size) == Blocks(|text|)
    ensures var r := WrittenDisk(v, text);
      var v' := Volume(r.disk, v.files[i := v.files[i].(size := size, start := r.first)]);
      && VolumeOk(v') && ChainOf(v', i) == Taken(v.disk.fat, text)
      && forall j :: 0 <= j < MAX_FILES && j != i ==> FileKept(v, v', j)
  {
    var r, taken := WrittenDisk(v, text), Taken(v.disk.fat, text);
    var v' := Volume(r.disk, v.files[i := v.files[i].(size := size, start := r.first)]);
    NewChain(v, text);
    assert FileOk(v, i);
    assert ChainOf(v', i) == taken;
    VolumeSurvives(v, v', i, taken);
  }

  /** A write touches no other file; one that fails touches no file at all. */
  lemma WriteKeeps(v: Volume, name: string, text: seq<char>, size: int)
    requires VolumeOk(v) && size <= |text|
    ensures var (ok, v') := WriteFile(v, name, text, size); var i := Find(v.files, name);
      && VolumeOk(v')
      && (forall j :: 0 <= j < MAX_FILES && (!ok || j != i) ==> FileKept(v, v', j))
      && (ok ==> v'.files[i].name == name && ChainOf(v', i) == Taken(v.disk.fat, Payload(text, size)))
  {
    var i, payload := Find(v.files, name), Payload(text, size);
    if i != -1 {
      if WrittenDisk(v, payload).ok {
        DoneWriteKeeps(v, i, payload, size);
      } else {
        FailedWriteKeeps(v, payload);
      }
    }
  }

  /** What a successful write stores is what a read gives back. */
  lemma WriteThenRead(v: Volume, name: string, text: seq<char>, size: int)
    requires VolumeOk(v) && size <= |text| && WriteFile(v, name, text, size).0
    ensures var v' := WriteFile(v, name, text, size).1; var i := Find(v.files, name);
      && VolumeOk(v') && 0 <= i < MAX_FILES
      && v'.files[i].name == name && v'.files[i].size == size
      && Contents(v', i) == (if size <= 0 then [] else text[..size])
      && (FreeAreBlank(v.disk) ==>
            FreeAreBlank(v'.disk) && RawText(v', i) == Contents(v', i) + Zeros(Padding(Size(v', i))))
  {
    WriteKeeps(v, name, text, size);
    WriteSucceedsWhen(v, name, text, size);
    WriteFromWrites(Progress(v.disk, -1, -1), Payload(text, size), []);
  }

  /** Chain discipline: no chain repeats a block, each has ceil(size / 64) blocks and ends in the end mark,
      and no block belongs to two files. */
  lemma ChainDiscipline(v: Volume, i: nat, j: nat)
    requires VolumeOk(v) && i < MAX_FILES && j < MAX_FILES && i != j
    ensures var c := ChainOf(v, i);
      && Distinct(c)
      && BLOCK_SIZE * (|c| - 1) < Size(v, i) <= BLOCK_SIZE * |c|
    ensures var c := ChainOf(v, i);
      && Chained(v.disk.fat, c)
      && forall k :: 0 <= k < |c| ==> c[k] !in ChainOf(v, j) && c[k] < |v.disk.fat| && v.disk.fat[c[k]] != FREE
  {
    var c := ChainOf(v, i);
    assert FileOk(v, i) && ChainsApart(v, i, j);
    ChainIsAcyclic(v.disk.fat, c);
    forall k | 0 <= k < |c|
      ensures c[k] !in ChainOf(v, j) && c[k] < |v.disk.fat| && v.disk.fat[c[k]] != FREE
    {
      assert LinkOk(v.disk.fat, c, k);
    }
  }
}
