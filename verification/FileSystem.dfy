/** `fat.c` and `filesystem.c` on their static arrays, proved against `FatSpec` and `FileSpec`. */
module FileSystem {
  import opened CStrings
  import opened FatSpec
  import opened FileSpec
  import opened FileRuns

  class Fat {
    const table: array<int>

    ghost predicate Valid()
    {
      table.Length == MAX_BLOCKS
    }

    constructor ()
      ensures Valid() && fresh(table)
    {
      table := new int[MAX_BLOCKS](_ => 0);
    }

    method FatInit()
      requires Valid()
      modifies table
      ensures table[..] == seq(MAX_BLOCKS, _ => FREE)
    {
      for i := 0 to MAX_BLOCKS
        invariant forall j :: 0 <= j < i ==> table[j] == FREE
      {
        table[i] := FREE;
      }
    }

    /** The first free block, now the end of a chain, or -1 if the disk is full. */
    method AllocateBlock() returns (b: int)
      requires Valid()
      modifies table
      ensures FreeBlocks(old(table[..])) == [] ==> b == -1 && table[..] == old(table[..])
      ensures FreeBlocks(old(table[..])) != [] ==>
        b == FreeBlocks(old(table[..]))[0] && table[..] == old(table[..])[b := END]
    {
      for i := 0 to MAX_BLOCKS
        invariant FreeFrom(table[..], i) == FreeBlocks(table[..])
        invariant table[..] == old(table[..])
      {
        if table[i] == FREE {
          table[i] := END;
          return i;
        }
      }
      return -1;
    }

    /** Public, but no code of the kernel calls it: overwritten and failed texts keep their blocks. */
    method FreeBlock(block: int)
      requires Valid() && 0 <= block < MAX_BLOCKS
      modifies table
      ensures table[..] == old(table[..])[block := FREE]
    {
      table[block] := FREE;
    }

    method SetNextBlock(current: int, next: int)
      requires Valid() && 0 <= current < MAX_BLOCKS
      modifies table
      ensures table[..] == old(table[..])[current := next]
    {
      table[current] := next;
    }

    method GetNextBlock(current: int) returns (next: int)
      requires Valid() && 0 <= current < MAX_BLOCKS
      ensures next == table[current]
    {
      next := table[current];
    }

    method FatCountFree() returns (n: nat)
      requires Valid()
      ensures n == CountFree(table[..])
    {
      n := 0;
      for i := 0 to MAX_BLOCKS
        invariant n + |FreeFrom(table[..], i)| == CountFree(table[..])
      {
        if table[i] == FREE {
          n := n + 1;
        }
      }
    }
  }

  class FileSystem {
    const fat: Fat
    const names: array2<char>
    const sizes: array<int>
    const starts: array<int>
    const data: array2<char>

    ghost predicate Shape()
    {
      && fat.Valid()
      && names.Length0 == MAX_FILES && names.Length1 == MAX_FILENAME
      && sizes.Length == MAX_FILES && starts.Length == MAX_FILES && sizes != starts
      && sizes != fat.table && starts != fat.table
      && data.Length0 == MAX_BLOCKS && data.Length1 == BLOCK_SIZE && data != names
    }

    ghost function Row(b: nat): (r: seq<char>)
      reads data
      requires Shape() && b < MAX_BLOCKS
      ensures |r| == BLOCK_SIZE && forall j :: 0 <= j < BLOCK_SIZE ==> r[j] == data[b, j]
    {
      seq(BLOCK_SIZE, j requires 0 <= j < BLOCK_SIZE && Shape() reads data => data[b, j])
    }

    ghost function Rows(): (r: seq<seq<char>>)
      reads data
      requires Shape()
      ensures |r| == MAX_BLOCKS && forall b :: 0 <= b < MAX_BLOCKS ==> r[b] == Row(b)
    {
      seq(MAX_BLOCKS, b requires 0 <= b < MAX_BLOCKS && Shape() reads data => Row(b))
    }

    ghost function NameRow(i: nat): (r: seq<char>)
      reads names
      requires Shape() && i < MAX_FILES
      ensures |r| == MAX_FILENAME && forall j :: 0 <= j < MAX_FILENAME ==> r[j] == names[i, j]
    {
      seq(MAX_FILENAME, j requires 0 <= j < MAX_FILENAME && Shape() reads names => names[i, j])
    }

    ghost function EntryAt(i: nat): Entry
      reads names, sizes, starts
      requires Shape() && i < MAX_FILES
    {
      Entry(CStr(NameRow(i)), sizes[i], starts[i])
    }

    ghost function Entries(): (r: seq<Entry>)
      reads names, sizes, starts
      requires Shape()
      ensures |r| == MAX_FILES && forall i :: 0 <= i < MAX_FILES ==> r[i] == EntryAt(i)
    {
      seq(MAX_FILES, i requires 0 <= i < MAX_FILES && Shape() reads names, sizes, starts => EntryAt(i))
    }

    ghost function View(): Volume
      reads fat.table, names, sizes, starts, data
      requires Shape()
    {
      Volume(Disk(fat.table[..], Rows()), Entries())
    }

    /** Every name buffer is terminated and the volume is well formed. */
    ghost predicate Valid()
      reads fat.table, names, sizes, starts, data
    {
      && Shape()
      && Terminated()
      && VolumeOk(View())
    }

    /** Static storage: all zero. */
    constructor ()
      ensures Shape() && fresh(fat) && fresh(fat.table) && fresh(names) && fresh(sizes) && fresh(starts) && fresh(data)
      ensures forall b :: 0 <= b < MAX_BLOCKS ==> Row(b) == Zeros(BLOCK_SIZE)
    {
      fat := new Fat();
      names := new char[MAX_FILES, MAX_FILENAME]((i, j) => NUL);
      sizes := new int[MAX_FILES](_ => 0);
      starts := new int[MAX_FILES](_ => 0);
      data := new char[MAX_BLOCKS, BLOCK_SIZE]((b, j) => NUL);
    }

    method FsInit()
      requires Shape()
      modifies fat.table, names, sizes, starts
      ensures Valid()
      ensures View() == Volume(Disk(seq(MAX_BLOCKS, _ => FREE), old(Rows())), seq(MAX_FILES, _ => Entry("", 0, -1)))
    {
      for i := 0 to MAX_FILES
        invariant forall k :: 0 <= k < i ==> names[k, 0] == NUL && sizes[k] == 0 && starts[k] == -1
      {
        names[i, 0] := NUL;
        sizes[i] := 0;
        starts[i] := -1;
      }
      fat.FatInit();
      forall i | 0 <= i < MAX_FILES
        ensures EntryAt(i) == Entry("", 0, -1) && NUL in NameRow(i)
      {
        assert NameRow(i)[0] == NUL;
      }
      EmptyVolumeOk(View());
    }

    /** Character by character, up to the first difference or end. */
    method SameName(i: nat, name: string) returns (same: bool)
      requires Shape() && i < MAX_FILES && NUL in NameRow(i) && NUL !in name
      ensures same == (EntryAt(i).name == name)
    {
      var j := 0;
      ghost var row := NameRow(i);
      while At(name, j) != NUL && names[i, j] != NUL && At(name, j) == names[i, j]
        invariant j <= |name| && j < MAX_FILENAME
        invariant name[..j] == row[..j] && NUL !in row[..j]
        decreases |name| - j
      {
        j := j + 1;
        assert row[..j] == row[..j - 1] + [row[j - 1]];
        assert row[..MAX_FILENAME] == row;
      }
      SameCString(name, row, j);
      same := At(name, j) == NUL && names[i, j] == NUL;
    }

    method FindFile(name: string) returns (r: int)
      requires Valid() && NUL !in name
      ensures r == Find(View().files, name)
    {
      for i := 0 to MAX_FILES
        invariant Find(View().files, name) == FindFrom(View().files, name, i)
      {
        var same := SameName(i, name);
        if same {
          return i;
        }
      }
      return -1;
    }

    ghost predicate Terminated()
      reads names
      requires Shape()
    {
      forall i :: 0 <= i < MAX_FILES ==> NUL in NameRow(i)
    }

    /** Takes the first empty slot; the name is cut after 15 characters. */
    method CreateFile(name: string) returns (r: int)
      requires Valid() && NUL !in name
      modifies names, sizes, starts
      ensures Valid()
      ensures var (ok, v) := FileSpec.CreateFile(old(View()), name);
        View() == v && r == if ok then 0 else -1
    {
      ghost var files := Entries();
      CreateKeeps(View(), name);
      for i := 0 to MAX_FILES
        invariant Find(files, "") == FindFrom(files, "", i)
      {
        assert names[i, 0] == NameRow(i)[0];
        assert files[i] == EntryAt(i);
        if names[i, 0] == NUL {
          TakeSlot(i, name);
          return 0;
        }
      }
      return -1;
    }

    method TakeSlot(i: nat, name: string)
      requires Shape() && Terminated() && i < MAX_FILES && NUL !in name
      modifies names, sizes, starts
      ensures Terminated()
      ensures View() == old(View()).(files := old(Entries())[i := Entry(Stored(name), 0, -1)])
    {
      PutName(i, name);
      sizes[i] := 0;
      starts[i] := -1;
      assert forall k :: 0 <= k < MAX_FILES && k != i ==> EntryAt(k) == old(EntryAt(k));
      assert Entries() == old(Entries())[i := EntryAt(i)];
    }

    method PutName(i: nat, name: string)
      requires Shape() && i < MAX_FILES && NUL !in name
      modifies names
      ensures NUL in NameRow(i) && CStr(NameRow(i)) == Stored(name)
      ensures forall k :: 0 <= k < MAX_FILES && k != i ==> NameRow(k) == old(NameRow(k))
    {
      var j := 0;
      while At(name, j) != NUL && j < MAX_FILENAME - 1
        invariant j <= |name| && j < MAX_FILENAME
        invariant forall k :: 0 <= k < j ==> names[i, k] == name[k]
        invariant forall h, k :: 0 <= h < MAX_FILES && 0 <= k < MAX_FILENAME && h != i ==>
                    names[h, k] == old(names[h, k])
        decreases |name| - j
      {
        names[i, j] := name[j];
        j := j + 1;
      }
      names[i, j] := NUL;
      ghost var row := NameRow(i);
      assert row[j] == NUL;
      assert row[..j] == name[..j] == Stored(name);
      CStrIs(row, j);
    }

    ghost function DiskView(): Disk
      reads fat.table, data
      requires Shape()
    {
      Disk(fat.table[..], Rows())
    }

    /** The inner loop of `write_file`: copies until the block or the text ends. */
    method FillBlock(block: nat, text: seq<char>, written: nat, size: nat) returns (done: nat)
      requires Shape() && block < MAX_BLOCKS && written < size <= |text|
      modifies data
      ensures var n := Chunk(text[written..size]);
        && done == written + n
        && Rows() == old(Rows())[block := text[written..size][..n] + old(Row(block))[n..]]
    {
      done := written;
      var i := 0;
      while i < BLOCK_SIZE && done < size
        invariant 0 <= i <= BLOCK_SIZE && done == written + i <= size
        invariant forall j :: 0 <= j < i ==> data[block, j] == text[written + j]
        invariant forall j :: i <= j < BLOCK_SIZE ==> data[block, j] == old(data[block, j])
        invariant forall b, j :: 0 <= b < MAX_BLOCKS && 0 <= j < BLOCK_SIZE && b != block ==>
                    data[b, j] == old(data[b, j])
      {
        data[block, i] := text[done];
        done := done + 1;
        i := i + 1;
      }
      assert Row(block) == text[written..size][..i] + old(Row(block))[i..];
      assert forall b :: 0 <= b < MAX_BLOCKS && b != block ==> Row(b) == old(Row(b));
    }

    /** One iteration of the loop of `write_file`. */
    method WriteNext(text: seq<char>, written: nat, size: nat, prev: int, first: int)
      returns (block: int, done: nat, first': int)
      requires Shape() && written < size <= |text| && ProgressOk(Progress(DiskView(), first, prev))
      modifies fat.table, data
      ensures FreeBlocks(old(fat.table[..])) == [] ==> block == -1 && DiskView() == old(DiskView())
      ensures FreeBlocks(old(fat.table[..])) != [] ==>
        var rest := text[written..size];
        && 0 <= block < MAX_BLOCKS
        && done == written + Chunk(rest)
        && Progress(DiskView(), first', block) == WriteBlock(Progress(old(DiskView()), first, prev), rest)
    {
      done, first' := written, first;
      block := fat.AllocateBlock();
      if block == -1 {
        return;
      }
      if first == -1 {
        first' := block;
      }
      if prev != -1 {
        fat.SetNextBlock(prev, block);
      }
      done := FillBlock(block, text, written, size);
    }

    /** The loop of `write_file`. */
    method WriteBlocks(text: seq<char>, size: int) returns (ok: bool, first: int)
      requires Shape() && DiskOk(DiskView()) && size <= |text|
      modifies fat.table, data
      ensures Outcome(ok, DiskView(), first)
        == WriteFrom(Progress(old(DiskView()), -1, -1), Payload(text, size))
    {
      ghost var all := Payload(text, size);
      ghost var outcome := WriteFrom(Progress(DiskView(), -1, -1), all);
      assert all[0..] == all;
      var prev, written := -1, 0;
      first := -1;
      while written < size
        invariant 0 <= written && (written == 0 || written <= size)
        invariant ProgressOk(Progress(DiskView(), first, prev))
        invariant WriteFrom(Progress(DiskView(), first, prev), all[written..]) == outcome
      {
        ghost var rest := text[written..size];
        assert rest == all[written..] && rest != [];
        var block, done, first' := WriteNext(text, written, size, prev, first);
        if block == -1 {
          return false, first;
        }
        RestOf(all, rest, written, done);
        prev, first, written := block, first', done;
      }
      assert all[written..] == [];
      ok := true;
    }

    /** Allocates and fills blocks, then sets the directory entry; the old chain is left behind. */
    method WriteFile(name: string, text: seq<char>, size: int) returns (r: int)
      requires Valid() && NUL !in name && size <= |text|
      modifies fat.table, sizes, starts, data
      ensures Valid()
      ensures var (ok, v) := FileSpec.WriteFile(old(View()), name, text, size);
        View() == v && r == if ok then 0 else -1
    {
      WriteKeeps(View(), name, text, size);
      var fileIndex := FindFile(name);
      if fileIndex == -1 {
        return -1;
      }
      var ok, first := WriteText(text, size);
      if !ok {
        return -1;
      }
      SetEntry(fileIndex, size, first);
      return 0;
    }

    /** Writing the blocks leaves the directory alone. */
    method WriteText(text: seq<char>, size: int) returns (ok: bool, first: int)
      requires Shape() && Terminated() && DiskOk(DiskView()) && size <= |text|
      modifies fat.table, data
      ensures Terminated()
      ensures var r := WrittenDisk(old(View()), Payload(text, size));
        ok == r.ok && first == r.first && View() == old(View()).(disk := r.disk)
    {
      ok, first := WriteBlocks(text, size);
    }

    method SetEntry(i: nat, size: int, first: int)
      requires Shape() && Terminated() && i < MAX_FILES
      modifies sizes, starts
      ensures Terminated()
      ensures View() == old(View()).(files := old(Entries())[i := old(EntryAt(i)).(size := size, start := first)])
    {
      starts[i] := first;
      sizes[i] := size;
      assert forall k :: 0 <= k < MAX_FILES && k != i ==> EntryAt(k) == old(EntryAt(k));
      assert Entries() == old(Entries())[i := EntryAt(i)];
    }

    /** Copies whole blocks while following the chain. */
    method ReadFile(name: string, buffer: array<char>) returns (n: int)
      requires Valid() && NUL !in name
      requires var i := Find(View().files, name); i != -1 ==> |RawText(View(), i)| <= buffer.Length
      modifies buffer
      ensures Valid() && View() == old(View())
      ensures var i := Find(old(View()).files, name);
        if i == -1 then n == -1 && buffer[..] == old(buffer[..])
        else 0 <= n <= buffer.Length && buffer[..n] == RawText(old(View()), i) && buffer[n..] == old(buffer[n..])
    {
      var fileIndex := FindFile(name);
      if fileIndex == -1 {
        return -1;
      }
      ghost var v := View();
      assert FileOk(v, fileIndex);
      RawLength(v, fileIndex);
      FollowInRange(v.disk.fat, v.files[fileIndex].start, MAX_BLOCKS);
      n := ReadChain(starts[fileIndex], buffer, ChainOf(v, fileIndex));
    }

    /** The loop of `read_file`. */
    method ReadChain(start: int, buffer: array<char>, ghost c: seq<nat>) returns (n: nat)
      requires Shape() && Chained(fat.table[..], c) && start == Start(c)
      requires |c| * BLOCK_SIZE <= buffer.Length
      modifies buffer
      ensures n == BLOCK_SIZE * |c| && (forall i :: 0 <= i < |c| ==> c[i] < MAX_BLOCKS)
      ensures buffer[..n] == Text(old(Rows()), c) && buffer[n..] == old(buffer[n..])
    {
      ghost var fat', rows, k := fat.table[..], Rows(), 0;
      forall i | 0 <= i < |c| ensures c[i] < MAX_BLOCKS { assert LinkOk(fat', c, i); }
      var block := start;
      n := 0;
      while block != END && block != FREE
        invariant k <= |c| && block == if k < |c| then c[k] else if k == 0 then FREE else END
        invariant n == BLOCK_SIZE * k && buffer[..n] == Text(rows, c[..k])
        invariant buffer[n..] == old(buffer[n..])
        invariant fat.table[..] == fat'
        decreases |c| - k
      {
        assert LinkOk(fat', c, k);
        n := CopyBlock(block, buffer, n);
        TextSnoc(rows, c, k);
        block := fat.GetNextBlock(block);
        k := k + 1;
      }
      assert c[..k] == c;
    }

    /** The inner loop of `read_file`. */
    method CopyBlock(block: nat, buffer: array<char>, at: nat) returns (n: nat)
      requires Shape() && block < MAX_BLOCKS && at + BLOCK_SIZE <= buffer.Length
      modifies buffer
      ensures n == at + BLOCK_SIZE
      ensures buffer[..n] == old(buffer[..at]) + Row(block) && buffer[n..] == old(buffer[n..])
    {
      n := at;
      for i := 0 to BLOCK_SIZE
        invariant n == at + i
        invariant forall j :: 0 <= j < i ==> buffer[at + j] == data[block, j]
        invariant forall j :: 0 <= j < at || n <= j < buffer.Length ==> buffer[j] == old(buffer[j])
      {
        buffer[n] := data[block, i];
        n := n + 1;
      }
    }
  }

  lemma RestOf(all: seq<char>, rest: seq<char>, written: nat, done: nat)
    requires written <= |all| && rest == all[written..] && done == written + Chunk(rest)
    ensures done <= |all| && rest[Chunk(rest)..] == all[done..]
  {
  }

  lemma {:induction false} TextSnoc(data: seq<seq<char>>, c: seq<nat>, k: nat)
    requires k < |c| && forall i :: 0 <= i < |c| ==> c[i] < |data|
    ensures Text(data, c[..k + 1]) == Text(data, c[..k]) + data[c[k]]
  {
    if k == 0 {
      assert c[..1] == [c[0]] && [c[0]][1..] == [];
    } else {
      assert c[..k + 1][1..] == c[1..][..k] && c[..k][1..] == c[1..][..k - 1];
      TextSnoc(data, c[1..], k - 1);
    }
  }

  lemma EmptyVolumeOk(v: Volume)
    requires DiskOk(v.disk) && |v.files| == MAX_FILES
    requires forall i :: 0 <= i < MAX_FILES ==> v.files[i] == Entry("", 0, -1)
    ensures VolumeOk(v)
  {
    forall i | 0 <= i < MAX_FILES ensures FileOk(v, i) && ChainOf(v, i) == [] {
    }
  }

  /** Comparing up to the first difference or end decides equality. */
  lemma SameCString(name: string, row: seq<char>, j: nat)
    requires NUL !in name && j <= |name| && j < |row|
    requires name[..j] == row[..j] && NUL !in row[..j]
    requires At(name, j) == NUL || row[j] == NUL || At(name, j) != row[j]
    ensures CStr(row) == name <==> At(name, j) == NUL && row[j] == NUL
  {
    if row[j] == NUL {
      CStrIs(row, j);
      if j < |name| { assert name[j] in name; }
    } else {
      assert forall k :: 0 <= k < j ==> row[k] == row[..j][k] != NUL;
      assert |CStr(row)| > j;
    }
  }
}
