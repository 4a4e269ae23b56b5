/** The allocation table of `fat.c` as a value, and chains of blocks in it. */
module FatSpec {
  import opened Sequences

  const MAX_BLOCKS := 128
  const BLOCK_SIZE := 64
  const FREE := -1
  const END := -2

  type Table = seq<int>

  /** Every entry is free, the end of a chain, or another block. */
  predicate TableOk(fat: Table) {
    |fat| == MAX_BLOCKS && forall b :: 0 <= b < MAX_BLOCKS ==> END <= fat[b] < MAX_BLOCKS
  }

  /** The free blocks among b.., in ascending order. */
  function FreeFrom(fat: Table, b: nat): (r: seq<nat>)
    ensures forall k :: 0 <= k < |r| ==> b <= r[k] < |fat| && fat[r[k]] == FREE
    decreases |fat| - b
  {
    if b >= |fat| then []
    else (if fat[b] == FREE then [b] else []) + FreeFrom(fat, b + 1)
  }

  function FreeBlocks(fat: Table): seq<nat> { FreeFrom(fat, 0) }

  /** What `fat_count_free()` counts. */
  function CountFree(fat: Table): nat { |FreeBlocks(fat)| }

  /** Block k of c leads to the next one, or is marked as the end if it is the last one. */
  predicate LinkOk(fat: Table, c: seq<nat>, k: nat)
    requires k < |c|
  {
    c[k] < |fat| && fat[c[k]] == if k + 1 < |c| then c[k + 1] else END
  }

  /** c is a chain of the table. */
  ghost predicate Chained(fat: Table, c: seq<nat>) {
    forall k :: 0 <= k < |c| ==> LinkOk(fat, c, k)
  }

  /** The blocks met from b on, as `read_file` meets them; at most `fuel` of them. */
  function Follow(fat: Table, b: int, fuel: nat): seq<nat>
    decreases fuel
  {
    if fuel == 0 || b < 0 || b >= |fat| then [] else [b] + Follow(fat, fat[b], fuel - 1)
  }

  /** Blocks that a file of `size` bytes takes. */
  function Blocks(size: int): nat {
    if size <= 0 then 0 else (size + BLOCK_SIZE - 1) / BLOCK_SIZE
  }

  // ---------------------------------------------------------------- free blocks

  lemma {:induction false} FreeFromComplete(fat: Table, b: nat, x: nat)
    requires b <= x < |fat| && fat[x] == FREE
    ensures x in FreeFrom(fat, b)
    decreases |fat| - b
  {
    if b < x { FreeFromComplete(fat, b + 1, x); }
  }

  lemma {:induction false} FreeFromAscending(fat: Table, b: nat)
    ensures forall i, j :: 0 <= i < j < |FreeFrom(fat, b)| ==> FreeFrom(fat, b)[i] < FreeFrom(fat, b)[j]
    decreases |fat| - b
  {
    if b < |fat| { FreeFromAscending(fat, b + 1); }
  }

  /** Entries that are free before and after, and entries that are not, may change in any other way. */
  lemma {:induction false} FreeFromDepends(fat: Table, fat': Table, b: nat)
    requires |fat| == |fat'|
    requires forall x :: b <= x < |fat| ==> (fat[x] == FREE <==> fat'[x] == FREE)
    ensures FreeFrom(fat, b) == FreeFrom(fat', b)
    decreases |fat| - b
  {
    if b < |fat| { FreeFromDepends(fat, fat', b + 1); }
  }

  /** Taking the first free block leaves the other ones. */
  lemma {:induction false} TakeFirst(fat: Table, b: nat, v: int)
    requires FreeFrom(fat, b) != [] && v != FREE
    ensures FreeFrom(fat[FreeFrom(fat, b)[0] := v], b) == FreeFrom(fat, b)[1..]
    decreases |fat| - b
  {
    var x := FreeFrom(fat, b)[0];
    if fat[b] == FREE {
      FreeFromDepends(fat, fat[x := v], b + 1);
    } else {
      TakeFirst(fat, b + 1, v);
    }
  }

  // ---------------------------------------------------------------- chains

  lemma {:induction false} ChainNoRepeat(fat: Table, c: seq<nat>, i: nat, j: nat)
    requires Chained(fat, c) && i < j < |c|
    ensures c[i] != c[j]
    decreases |c| - j
  {
    if j + 1 < |c| {
      ChainNoRepeat(fat, c, i + 1, j + 1);
    }
    assert LinkOk(fat, c, i) && LinkOk(fat, c, j);
  }

  /** Every chain is acyclic. */
  lemma ChainIsAcyclic(fat: Table, c: seq<nat>)
    requires Chained(fat, c)
    ensures Distinct(c)
  {
    forall i, j | 0 <= i < j < |c| ensures c[i] != c[j] {
      ChainNoRepeat(fat, c, i, j);
    }
  }

  lemma {:induction false} DistinctIsShort(c: seq<nat>, n: nat)
    requires Distinct(c) && forall k :: 0 <= k < |c| ==> c[k] < n
    ensures |c| <= n
    decreases n
  {
    assert c != [] ==> c[0] < n;
    if c != [] {
      // drop the largest value n - 1, if it is there
      if k :| 0 <= k < |c| && c[k] == n - 1 {
        var rest := c[..k] + c[k + 1..];
        forall h | 0 <= h < |rest| ensures rest[h] < n - 1 {
          assert rest[h] == if h < k then c[h] else c[h + 1];
        }
        DistinctIsShort(rest, n - 1);
      } else {
        DistinctIsShort(c, n - 1);
      }
    }
  }

  /** Following the table from the start of a chain yields exactly the chain, so reading it terminates. */
  lemma ChainIsFollowed(fat: Table, c: seq<nat>)
    requires Chained(fat, c) && |fat| == MAX_BLOCKS && c != []
    ensures Follow(fat, c[0], MAX_BLOCKS) == c && |c| <= MAX_BLOCKS
  {
    ChainIsAcyclic(fat, c);
    forall k | 0 <= k < |c| ensures c[k] < MAX_BLOCKS { assert LinkOk(fat, c, k); }
    DistinctIsShort(c, MAX_BLOCKS);
    FollowFrom(fat, c, 0, MAX_BLOCKS);
  }

  lemma {:induction false} FollowFrom(fat: Table, c: seq<nat>, k: nat, fuel: nat)
    requires Chained(fat, c) && k < |c| && fuel >= |c| - k
    ensures Follow(fat, c[k], fuel) == c[k..]
    decreases fuel
  {
    assert LinkOk(fat, c, k);
    if k + 1 < |c| {
      FollowFrom(fat, c, k + 1, fuel - 1);
    }
    assert c[k..] == [c[k]] + c[k + 1..];
  }
}
