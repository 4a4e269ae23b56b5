/** The file layer of `filesystem.c` as a value: the directory, the blocks, and the four operations. */
module FileSpec {
  import opened CStrings
  import opened FatSpec
  import opened Sequences

  const MAX_FILES := 32
  const MAX_FILENAME := 16

  /** The allocation table and the contents of the blocks. */
  datatype Disk = Disk(fat: Table, data: seq<seq<char>>)

  /** A directory slot; the name is the C string in it, so "" is an empty slot. */
  datatype Entry = Entry(name: string, size: int, start: int)

  datatype Volume = Volume(disk: Disk, files: seq<Entry>)

  predicate DiskOk(d: Disk) {
    && TableOk(d.fat)
    && |d.data| == MAX_BLOCKS && forall b :: 0 <= b < MAX_BLOCKS ==> |d.data[b]| == BLOCK_SIZE
  }

  function Zeros(n: nat): (r: seq<char>)
    ensures |r| == n && forall k :: 0 <= k < n ==> r[k] == NUL
  {
    seq(n, _ => NUL)
  }

  /** The blocks of a chain one after the other, as `read_file` copies them. */
  function Text(data: seq<seq<char>>, c: seq<nat>): seq<char>
    requires forall k :: 0 <= k < |c| ==> c[k] < |data|
  {
    if c == [] then [] else data[c[0]] + Text(data, c[1..])
  }

  // ---------------------------------------------------------------- the write loop

  /** Between two iterations of the loop of `write_file`. */
  datatype Progress = Progress(disk: Disk, first: int, prev: int)

  datatype Outcome = Outcome(ok: bool, disk: Disk, first: int)

  predicate ProgressOk(p: Progress) {
    DiskOk(p.disk) && -1 <= p.prev < MAX_BLOCKS && -1 <= p.first < MAX_BLOCKS
  }

  function Chunk(text: seq<char>): (n: nat)
    ensures n <= |text| && n <= BLOCK_SIZE && (n == |text| || n == BLOCK_SIZE)
  {
    if |text| < BLOCK_SIZE then |text| else BLOCK_SIZE
  }

  /** One iteration: take the first free block, link it behind the previous one, fill it. */
  function WriteBlock(p: Progress, text: seq<char>): (q: Progress)
    requires ProgressOk(p) && FreeBlocks(p.disk.fat) != []
    ensures ProgressOk(q)
  {
    var b := FreeBlocks(p.disk.fat)[0];
    var fat := p.disk.fat[b := END];
    Progress(Disk(if p.prev == -1 then fat else fat[p.prev := b],
                  p.disk.data[b := text[..Chunk(text)] + p.disk.data[b][Chunk(text)..]]),
             if p.first == -1 then b else p.first,
             b)
  }

  function WriteFrom(p: Progress, text: seq<char>): Outcome
    requires ProgressOk(p)
    decreases |text|
  {
    if text == [] then Outcome(true, p.disk, p.first)
    else if FreeBlocks(p.disk.fat) == [] then Outcome(false, p.disk, p.first)
    else WriteFrom(WriteBlock(p, text), text[Chunk(text)..])
  }

  // ---------------------------------------------------------------- operations

  /** First slot with this name, from slot i on, or -1. */
  function FindFrom(files: seq<Entry>, name: string, i: nat): (r: int)
    ensures r == -1 || (i <= r < |files| && files[r].name == name)
    ensures forall k :: i <= k < (if r == -1 then |files| else r) ==> files[k].name != name
    decreases |files| - i
  {
    if i >= |files| then -1
    else if files[i].name == name then i
    else FindFrom(files, name, i + 1)
  }

  function Find(files: seq<Entry>, name: string): int { FindFrom(files, name, 0) }

  /** What fits in a directory slot of a file name. */
  function Stored(name: string): string {
    if |name| < MAX_FILENAME then name else name[..MAX_FILENAME - 1]
  }

  /** `create_file`: the first empty slot is taken; no check for a file of that name. */
  function CreateFile(v: Volume, name: string): (bool, Volume) {
    var i := Find(v.files, "");
    if i == -1 then (false, v)
    else (true, v.(files := v.files[i := Entry(Stored(name), 0, -1)]))
  }

  /** `write_file` of the first `size` characters of text. The old chain is not freed. */
  function WriteFile(v: Volume, name: string, text: seq<char>, size: int): (bool, Volume)
    requires DiskOk(v.disk) && size <= |text|
  {
    var i := Find(v.files, name);
    if i == -1 then (false, v)
    else
      var r := WriteFrom(Progress(v.disk, -1, -1), if size <= 0 then [] else text[..size]);
      if !r.ok then (false, v.(disk := r.disk))
      else (true, Volume(r.disk, v.files[i := v.files[i].(size := size, start := r.first)]))
  }

  /** The blocks that `read_file` visits for slot i. */
  function ChainOf(v: Volume, i: nat): seq<nat>
    requires i < |v.files|
  {
    Follow(v.disk.fat, v.files[i].start, MAX_BLOCKS)
  }

  // ---------------------------------------------------------------- one write

  lemma BlocksStep(n: nat)
    requires n > 0
    ensures Blocks(n) == 1 + Blocks(n - if n < BLOCK_SIZE then n else BLOCK_SIZE)
  {
  }

  /** c is the chain written so far. */
  ghost predicate Building(p: Progress, c: seq<nat>) {
    && ProgressOk(p) && Chained(p.disk.fat, c)
    && p.first == (if c == [] then -1 else c[0])
    && p.prev == (if c == [] then -1 else c[|c| - 1])
  }

  lemma BuildingStep(p: Progress, text: seq<char>, c: seq<nat>)
    requires Building(p, c) && FreeBlocks(p.disk.fat) != []
    ensures Building(WriteBlock(p, text), c + [FreeBlocks(p.disk.fat)[0]])
    ensures FreeBlocks(WriteBlock(p, text).disk.fat) == FreeBlocks(p.disk.fat)[1..]
  {
    var fat, b := p.disk.fat, FreeBlocks(p.disk.fat)[0];
    var fat' := WriteBlock(p, text).disk.fat;
    ChainIsAcyclic(fat, c);
    forall k | 0 <= k < |c| ensures c[k] != b {
      assert LinkOk(fat, c, k);
    }
    TakeFirst(fat, 0, END);
    if c != [] {
      assert LinkOk(fat, c, |c| - 1);
      FreeFromDepends(fat[b := END], fat', 0);
    }
    forall k | 0 <= k < |c| + 1 ensures LinkOk(fat', c + [b], k) {
      if k < |c| { assert LinkOk(fat, c, k); }
    }
  }

  /** The blocks that the write loop takes: the first free ones, as many as needed or all. */
  function Taken(fat: Table, text: seq<char>): (r: seq<nat>)
    ensures r <= FreeBlocks(fat)
  {
    var free, n := FreeBlocks(fat), Blocks(|text|);
    if n <= |free| then free[..n] else free
  }

  /** One step of the loop, seen from the blocks it will take. */
  lemma TakenStep(p: Progress, text: seq<char>)
    requires ProgressOk(p) && text != [] && FreeBlocks(p.disk.fat) != []
    requires FreeBlocks(WriteBlock(p, text).disk.fat) == FreeBlocks(p.disk.fat)[1..]
    ensures var b := FreeBlocks(p.disk.fat)[0]; var q := WriteBlock(p, text); var rest := text[Chunk(text)..];
      && Taken(p.disk.fat, text) == [b] + Taken(q.disk.fat, rest)
      && Blocks(|text|) == 1 + Blocks(|rest|)
  {
    BlocksStep(|text|);
  }

  /** The write loop fails exactly when there are too few free blocks; then it has taken them all. */
  lemma {:induction false} WriteFromTakes(p: Progress, text: seq<char>, c: seq<nat>)
    requires Building(p, c)
    ensures var free := FreeBlocks(p.disk.fat); var r := WriteFrom(p, text);
      && r.ok == (Blocks(|text|) <= |free|)
      && FreeBlocks(r.disk.fat) == free[|Taken(p.disk.fat, text)|..]
    decreases |text|
  {
    var free := FreeBlocks(p.disk.fat);
    if text != [] && free != [] {
      BuildingStep(p, text, c);
      TakenStep(p, text);
      WriteFromTakes(WriteBlock(p, text), text[Chunk(text)..], c + [free[0]]);
    }
  }

  function Start(c: seq<nat>): int { if c == [] then -1 else c[0] }

  /** The blocks taken are appended to the chain, in order. */
  lemma {:induction false} WriteFromChains(p: Progress, text: seq<char>, c: seq<nat>)
    requires Building(p, c)
    ensures var r := WriteFrom(p, text); var whole := c + Taken(p.disk.fat, text);
      DiskOk(r.disk) && Chained(r.disk.fat, whole) && r.first == Start(whole)
    decreases |text|
  {
    var free := FreeBlocks(p.disk.fat);
    if text != [] && free != [] {
      var q, rest := WriteBlock(p, text), text[Chunk(text)..];
      BuildingStep(p, text, c);
      TakenStep(p, text);
      WriteFromChains(q, rest, c + [free[0]]);
      Associative(c, [free[0]], Taken(q.disk.fat, rest));
    } else {
      assert Taken(p.disk.fat, text) == [];
      assert c + [] == c;
    }
  }

  /** Blocks that are not free, nor the last one of the chain, are as before. */
  ghost predicate DiskKept(d: Disk, d': Disk, taken: seq<nat>, prev: int) {
    && DiskOk(d) && DiskOk(d')
    && forall b: nat :: b < MAX_BLOCKS && b !in taken ==>
         d'.data[b] == d.data[b] && (b != prev ==> d'.fat[b] == d.fat[b])
  }

  lemma {:induction false} WriteFromKeeps(p: Progress, text: seq<char>, c: seq<nat>)
    requires Building(p, c)
    ensures DiskKept(p.disk, WriteFrom(p, text).disk, Taken(p.disk.fat, text), p.prev)
    decreases |text|
  {
    var free := FreeBlocks(p.disk.fat);
    if text != [] && free != [] {
      var q, rest := WriteBlock(p, text), text[Chunk(text)..];
      BuildingStep(p, text, c);
      TakenStep(p, text);
      WriteFromKeeps(q, rest, c + [free[0]]);
    }
  }

  lemma {:induction false} TextLength(data: seq<seq<char>>, c: seq<nat>)
    requires forall b :: 0 <= b < |data| ==> |data[b]| == BLOCK_SIZE
    requires forall k :: 0 <= k < |c| ==> c[k] < |data|
    ensures |Text(data, c)| == BLOCK_SIZE * |c|
  {
    if c != [] { TextLength(data, c[1..]); }
  }

  lemma {:induction false} TextDepends(data: seq<seq<char>>, data': seq<seq<char>>, c: seq<nat>)
    requires forall k :: 0 <= k < |c| ==> c[k] < |data| && c[k] < |data'| && data[c[k]] == data'[c[k]]
    ensures Text(data, c) == Text(data', c)
  {
    if c != [] { TextDepends(data, data', c[1..]); }
  }

  /** What is left of the last block behind a text of n characters. */
  function Padding(n: nat): nat { BLOCK_SIZE * Blocks(n) - n }

  /** Free blocks hold nothing but NULs. */
  ghost predicate FreeAreBlank(d: Disk)
    requires DiskOk(d)
  {
    forall b :: 0 <= b < MAX_BLOCKS && d.fat[b] == FREE ==> d.data[b] == Zeros(BLOCK_SIZE)
  }

  lemma BlankStep(p: Progress, text: seq<char>, c: seq<nat>)
    requires Building(p, c) && FreeBlocks(p.disk.fat) != [] && FreeAreBlank(p.disk)
    ensures FreeAreBlank(WriteBlock(p, text).disk)
  {
    var b := FreeBlocks(p.disk.fat)[0];
    if c != [] { assert LinkOk(p.disk.fat, c, |c| - 1); }
  }

  /** The later iterations leave the block that the first one filled. */
  lemma FirstBlockKept(p: Progress, text: seq<char>, c: seq<nat>)
    requires Building(p, c) && text != [] && FreeBlocks(p.disk.fat) != []
    ensures var b := FreeBlocks(p.disk.fat)[0]; var r := WriteFrom(p, text);
      DiskOk(r.disk) && r.disk.data[b] == text[..Chunk(text)] + p.disk.data[b][Chunk(text)..]
  {
    var b, q, rest := FreeBlocks(p.disk.fat)[0], WriteBlock(p, text), text[Chunk(text)..];
    BuildingStep(p, text, c);
    WriteFromKeeps(q, rest, c + [b]);
    FreeFromAscending(p.disk.fat, 0);
    assert b !in FreeBlocks(q.disk.fat);
  }

  /** A filled block and the blocks behind it hold the text. */
  lemma BlockThenRest(text: seq<char>, block: seq<char>, tail: seq<char>)
    requires |block| == BLOCK_SIZE
    requires var rest := text[Chunk(text)..]; |tail| >= |rest| && tail[..|rest|] == rest
    ensures var all := text[..Chunk(text)] + block[Chunk(text)..] + tail;
      |all| == BLOCK_SIZE + |tail| >= |text| && all[..|text|] == text
  {
    var all := text[..Chunk(text)] + block[Chunk(text)..] + tail;
    forall k | 0 <= k < |text| ensures all[k] == text[k] {
      if k >= Chunk(text) { assert tail[..|text| - Chunk(text)][k - Chunk(text)] == text[k]; }
    }
  }

  /** And nothing but NULs behind it, if they were blank. */
  lemma BlankBehind(text: seq<char>, block: seq<char>, tail: seq<char>)
    requires text != [] && block == Zeros(BLOCK_SIZE)
    requires var rest := text[Chunk(text)..]; tail == rest + Zeros(Padding(|rest|))
    ensures text[..Chunk(text)] + block[Chunk(text)..] + tail == text + Zeros(Padding(|text|))
  {
    BlocksStep(|text|);
    var n, rest := Chunk(text), text[Chunk(text)..];
    if n < BLOCK_SIZE {
      assert rest == [] && tail == [];
      assert block[n..] == Zeros(BLOCK_SIZE - n);
    } else {
      assert block[n..] == [] && text == text[..n] + rest;
      assert Padding(|rest|) == Padding(|text|);
    }
  }

  /** The blocks taken hold the text, and NULs behind it if free blocks were blank. */
  lemma {:induction false} WriteFromWrites(p: Progress, text: seq<char>, c: seq<nat>)
    requires Building(p, c) && Blocks(|text|) <= CountFree(p.disk.fat)
    ensures var r := WriteFrom(p, text); var taken := Taken(p.disk.fat, text);
      && DiskOk(r.disk) && |taken| == Blocks(|text|)
      && |Text(r.disk.data, taken)| == BLOCK_SIZE * |taken| >= |text|
      && Text(r.disk.data, taken)[..|text|] == text
      && (FreeAreBlank(p.disk) ==> FreeAreBlank(r.disk) && Text(r.disk.data, taken) == text + Zeros(Padding(|text|)))
    decreases |text|
  {
    var free, r := FreeBlocks(p.disk.fat), WriteFrom(p, text);
    if text != [] {
      var b, n := free[0], Chunk(text);
      var q, rest := WriteBlock(p, text), text[n..];
      BuildingStep(p, text, c);
      TakenStep(p, text);
      WriteFromWrites(q, rest, c + [b]);
      FirstBlockKept(p, text, c);
      var tail := Text(r.disk.data, Taken(q.disk.fat, rest));
      assert Text(r.disk.data, Taken(p.disk.fat, text)) == r.disk.data[b] + tail;
      BlockThenRest(text, p.disk.data[b], tail);
      if FreeAreBlank(p.disk) {
        BlankStep(p, text, c);
        BlankBehind(text, p.disk.data[b], tail);
      }
    }
  }
}
