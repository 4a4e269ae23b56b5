/** The block list of `memory.c` as a value: what the allocator does to it, and why its state after any
    run depends only on which blocks are live. */
module HeapSpec {
  import opened Int32

  const HEADER := 12       // sizeof(MemoryBlock) on the i686 target: two ints and a pointer
  const HEAP_SIZE := 65536

  /** A header and the payload behind it; `size` counts the payload only. */
  datatype Block = Block(size: nat, free: bool)

  /** Blocks in address order, the first at offset 0; [] before `memory_init`. */
  type Blocks = seq<Block>

  const INITIAL: Blocks := [Block(HEAP_SIZE - HEADER, true)]

  // ---------------------------------------------------------------- layout

  /** Bytes that the blocks take, headers included. */
  function Span(bs: Blocks): nat {
    if bs == [] then 0 else HEADER + bs[0].size + Span(bs[1..])
  }

  /** Offset of the header of block i; for i == |bs| the end of the last block. */
  function Addr(bs: Blocks, i: nat): nat
    requires i <= |bs|
  {
    Span(bs[..i])
  }

  /** Sizes of the live blocks by header address, for blocks laid out from `base`. */
  function Live(bs: Blocks, base: nat): map<nat, nat> {
    if bs == [] then map[]
    else
      var rest := Live(bs[1..], base + HEADER + bs[0].size);
      if bs[0].free then rest else rest[base := bs[0].size]
  }

  ghost predicate Canonical(bs: Blocks) {
    forall i :: 0 <= i < |bs| - 1 ==> !(bs[i].free && bs[i + 1].free)
  }

  predicate SizeOk(b: Block) { b.size >= 8 && b.size % 4 == 0 }

  ghost predicate SizesOk(bs: Blocks) { forall i :: 0 <= i < |bs| ==> SizeOk(bs[i]) }

  /** Every list the allocator can produce. */
  ghost predicate WellFormed(bs: Blocks) {
    bs == [] || (Span(bs) == HEAP_SIZE && Canonical(bs) && SizesOk(bs))
  }

  // ---------------------------------------------------------------- operations

  function Align8(size: int): int { (size + 7) / 8 * 8 }

  /** Index of the first free block that can hold `request` bytes, or |bs|. */
  function FirstFit(bs: Blocks, request: int): (i: nat)
    ensures i <= |bs|
    ensures i < |bs| ==> bs[i].free && bs[i].size >= request
    ensures forall k :: 0 <= k < i ==> !(bs[k].free && bs[k].size >= request)
  {
    if bs == [] || (bs[0].free && bs[0].size >= request) then 0 else 1 + FirstFit(bs[1..], request)
  }

  /** A free block once `request` bytes are taken from it: split if the rest can hold a header and 8 bytes. */
  function Carve(b: Block, request: nat): Blocks
    requires b.size >= request
  {
    if b.size >= request + HEADER + 8 then [Block(request, false), Block(b.size - request - HEADER, true)]
    else [Block(b.size, false)]
  }

  function Initialised(bs: Blocks): Blocks { if bs == [] then INITIAL else bs }

  /** The block that `os_malloc(size)` chooses, |bs| if it fails for lack of space. */
  function Chosen(bs: Blocks, size: int): nat {
    FirstFit(Initialised(bs), Align8(size))
  }

  predicate CanAlloc(bs: Blocks, size: int) {
    size > 0 && Chosen(bs, size) < |Initialised(bs)|
  }

  /** Header address of the block that a successful `os_malloc(size)` hands out. */
  function AllocAddr(bs: Blocks, size: int): nat
    requires CanAlloc(bs, size)
  {
    Addr(Initialised(bs), Chosen(bs, size))
  }

  function Malloc(bs: Blocks, size: int): Blocks {
    if size <= 0 then bs
    else
      var heap := Initialised(bs);
      var i := FirstFit(heap, Align8(size));
      if i == |heap| then heap else heap[..i] + Carve(heap[i], Align8(size)) + heap[i + 1..]
  }

  /** Set the free flag of the block at address a. */
  function Mark(bs: Blocks, base: nat, a: nat): Blocks {
    if bs == [] then []
    else if base == a then [bs[0].(free := true)] + bs[1..]
    else [bs[0]] + Mark(bs[1..], base + HEADER + bs[0].size, a)
  }

  function Merge(b: Block, c: Block): Block {
    b.(size := b.size + HEADER + c.size)
  }

  /** The coalescing sweep of `os_free`. */
  function Sweep(bs: Blocks): Blocks
    decreases |bs|
  {
    if |bs| < 2 then bs
    else if bs[0].free && bs[1].free then Sweep([Merge(bs[0], bs[1])] + bs[2..])
    else [bs[0]] + Sweep(bs[1..])
  }

  function Free(bs: Blocks, a: nat): Blocks {
    Sweep(Mark(bs, 0, a))
  }

  // ---------------------------------------------------------------- layout facts

  lemma {:induction false} SpanConcat(a: Blocks, b: Blocks)
    ensures Span(a + b) == Span(a) + Span(b)
  {
    if a == [] {
      assert a + b == b;
    } else {
      assert (a + b)[1..] == a[1..] + b;
      SpanConcat(a[1..], b);
    }
  }

  lemma SpanOne(b: Block)
    ensures Span([b]) == HEADER + b.size
  {
    assert [b][1..] == [];
  }

  lemma SpanTwo(b: Block, c: Block)
    ensures Span([b, c]) == 2 * HEADER + b.size + c.size
  {
    assert [b, c][1..] == [c];
    SpanOne(c);
  }

  lemma LiveOne(b: Block, base: nat)
    ensures Live([b], base) == if b.free then map[] else map[base := b.size]
  {
    assert [b][1..] == [];
  }

  lemma {:induction false} LiveConcat(a: Blocks, b: Blocks, base: nat)
    ensures Live(a + b, base) == Live(b, base + Span(a)) + Live(a, base)
  {
    if a == [] {
      assert a + b == b;
    } else {
      assert (a + b)[1..] == a[1..] + b;
      LiveConcat(a[1..], b, base + HEADER + a[0].size);
    }
  }

  lemma {:induction false} LiveBounds(bs: Blocks, base: nat)
    ensures forall a :: a in Live(bs, base) ==> base <= a && a + HEADER + Live(bs, base)[a] <= base + Span(bs)
  {
    if bs != [] { LiveBounds(bs[1..], base + HEADER + bs[0].size); }
  }

  lemma AddrStep(bs: Blocks, i: nat)
    requires i < |bs|
    ensures Addr(bs, i + 1) == Addr(bs, i) + HEADER + bs[i].size
  {
    assert bs[..i + 1] == bs[..i] + [bs[i]];
    SpanConcat(bs[..i], [bs[i]]);
  }

  lemma {:induction false} AddrOrder(bs: Blocks, i: nat, j: nat)
    requires i < j <= |bs|
    ensures Addr(bs, i) + HEADER + bs[i].size <= Addr(bs, j)
    decreases j
  {
    AddrStep(bs, j - 1);
    if i < j - 1 { AddrOrder(bs, i, j - 1); }
  }

  lemma AddrEnds(bs: Blocks)
    ensures Addr(bs, 0) == 0 && Addr(bs, |bs|) == Span(bs)
  {
    assert bs[..|bs|] == bs;
  }

  lemma {:induction false} AddrAligned(bs: Blocks, i: nat)
    requires i <= |bs| && SizesOk(bs)
    ensures Addr(bs, i) % 4 == 0
  {
    if i > 0 {
      AddrAligned(bs, i - 1);
      AddrStep(bs, i - 1);
      assert SizeOk(bs[i - 1]);
    }
  }

  /** Headers and payloads tile the heap: every byte lies in exactly one block. */
  lemma BlocksTile(bs: Blocks, x: nat)
    requires WellFormed(bs) && bs != [] && x < HEAP_SIZE
    ensures exists i :: 0 <= i < |bs| && Addr(bs, i) <= x < Addr(bs, i) + HEADER + bs[i].size
    ensures forall i, j ::
              (&& 0 <= i < |bs| && 0 <= j < |bs|
               && Addr(bs, i) <= x < Addr(bs, i) + HEADER + bs[i].size
               && Addr(bs, j) <= x < Addr(bs, j) + HEADER + bs[j].size)
              ==> i == j
  {
    AddrEnds(bs);
    var i := 0;
    while i < |bs| - 1 && Addr(bs, i + 1) <= x
      invariant i < |bs| && Addr(bs, i) <= x
    {
      i := i + 1;
    }
    AddrStep(bs, i);
    forall k, j | 0 <= k < j < |bs|
      ensures Addr(bs, k) + HEADER + bs[k].size <= Addr(bs, j)
    {
      AddrOrder(bs, k, j);
    }
  }

  /** A live address is the address of a live block, with the size that Live gives. */
  lemma {:induction false} LiveIndex(bs: Blocks, base: nat, a: nat) returns (i: nat)
    requires a in Live(bs, base)
    ensures i < |bs| && !bs[i].free && base + Addr(bs, i) == a && bs[i].size == Live(bs, base)[a]
  {
    FirstBlock(bs, base);
    if a == base {
      i := 0;
    } else {
      var k := LiveIndex(bs[1..], base + HEADER + bs[0].size, a);
      i := k + 1;
      assert bs[..i] == [bs[0]] + bs[1..][..k];
      SpanConcat([bs[0]], bs[1..][..k]);
    }
  }

  /** No header lies inside a live payload. */
  lemma LivePayloadApart(bs: Blocks, a: nat, i: nat)
    requires a in Live(bs, 0) && i < |bs|
    ensures Addr(bs, i) <= a || a + HEADER + Live(bs, 0)[a] <= Addr(bs, i)
  {
    var k := LiveIndex(bs, 0, a);
    if k < i { AddrOrder(bs, k, i); }
    if i < k { AddrOrder(bs, i, k); }
  }

  // ---------------------------------------------------------------- the sweep

  lemma {:induction false} SweepKeepsLive(bs: Blocks, base: nat)
    ensures Span(Sweep(bs)) == Span(bs)
    ensures Live(Sweep(bs), base) == Live(bs, base)
    ensures bs != [] ==> Sweep(bs) != [] && Sweep(bs)[0].free == bs[0].free
    decreases |bs|
  {
    if |bs| >= 2 {
      if bs[0].free && bs[1].free {
        var merged := [Merge(bs[0], bs[1])] + bs[2..];
        assert merged[1..] == bs[2..] == bs[1..][1..];
        SweepKeepsLive(merged, base);
      } else {
        SweepKeepsLive(bs[1..], base + HEADER + bs[0].size);
      }
    }
  }

  lemma {:induction false} SweepIsCanonical(bs: Blocks)
    ensures Canonical(Sweep(bs))
    decreases |bs|
  {
    if |bs| >= 2 {
      if bs[0].free && bs[1].free {
        SweepIsCanonical([Merge(bs[0], bs[1])] + bs[2..]);
      } else {
        SweepIsCanonical(bs[1..]);
        SweepKeepsLive(bs[1..], 0);
      }
    }
  }

  lemma MergeSize(b: Block, c: Block)
    ensures SizeOk(b) && SizeOk(c) ==> SizeOk(Merge(b, c))
  {
  }

  lemma {:induction false} SweepKeepsSizes(bs: Blocks)
    requires SizesOk(bs)
    ensures SizesOk(Sweep(bs))
    decreases |bs|
  {
    if |bs| >= 2 {
      MergeSize(bs[0], bs[1]);
      if bs[0].free && bs[1].free {
        SweepKeepsSizes([Merge(bs[0], bs[1])] + bs[2..]);
      } else {
        SweepKeepsSizes(bs[1..]);
      }
    }
  }

  /** Length of the run of free blocks at the front. */
  function FreeRun(bs: Blocks): (n: nat)
    ensures n <= |bs|
  {
    if bs == [] || !bs[0].free then 0 else 1 + FreeRun(bs[1..])
  }

  /** Each maximal run of free blocks made into one block, independently of any order of merging. */
  function MergeRuns(bs: Blocks): Blocks
    decreases |bs|
  {
    if bs == [] then []
    else
      var n := FreeRun(bs);
      if n == 0 then [bs[0]] + MergeRuns(bs[1..])
      else [Block(Span(bs[..n]) - HEADER, true)] + MergeRuns(bs[n..])
  }

  /** Merging the first two blocks of a free run leaves the same runs. */
  lemma MergeRunsMerged(bs: Blocks)
    requires |bs| >= 2 && bs[0].free && bs[1].free
    ensures MergeRuns([Merge(bs[0], bs[1])] + bs[2..]) == MergeRuns(bs)
  {
    var merged := [Merge(bs[0], bs[1])] + bs[2..];
    var n := FreeRun(bs);
    FreeRunMerged(bs);
    TailMerged(bs, n);
    SpanMerged(bs, n);
    RunFirst(bs);
    RunFirst(merged);
  }

  lemma RunFirst(bs: Blocks)
    requires FreeRun(bs) > 0
    ensures MergeRuns(bs) == [Block(Span(bs[..FreeRun(bs)]) - HEADER, true)] + MergeRuns(bs[FreeRun(bs)..])
  {
  }

  lemma TailMerged(bs: Blocks, n: nat)
    requires 2 <= n <= |bs|
    ensures ([Merge(bs[0], bs[1])] + bs[2..])[n - 1..] == bs[n..]
  {
  }

  lemma FreeRunMerged(bs: Blocks)
    requires |bs| >= 2 && bs[0].free && bs[1].free
    ensures FreeRun([Merge(bs[0], bs[1])] + bs[2..]) == FreeRun(bs) - 1 && FreeRun(bs) >= 2
  {
    var merged := [Merge(bs[0], bs[1])] + bs[2..];
    assert merged[1..] == bs[2..] == bs[1..][1..];
    assert FreeRun(bs[1..]) == 1 + FreeRun(bs[2..]);
    assert FreeRun(merged) == 1 + FreeRun(bs[2..]);
  }

  lemma SpanMerged(bs: Blocks, n: nat)
    requires 2 <= n <= |bs|
    ensures var merged := [Merge(bs[0], bs[1])] + bs[2..]; Span(merged[..n - 1]) == Span(bs[..n])
  {
    var merged := [Merge(bs[0], bs[1])] + bs[2..];
    assert merged[..n - 1] == [merged[0]] + bs[2..n] && bs[..n] == [bs[0], bs[1]] + bs[2..n];
    SpanConcat([merged[0]], bs[2..n]);
    SpanConcat([bs[0], bs[1]], bs[2..n]);
    SpanOne(merged[0]);
    SpanTwo(bs[0], bs[1]);
  }

  /** One sweep merges all maximal free runs, of an arbitrary list. */
  lemma {:induction false} SweepMergesRuns(bs: Blocks)
    ensures Sweep(bs) == MergeRuns(bs)
    decreases |bs|
  {
    if |bs| >= 2 && bs[0].free && bs[1].free {
      MergeRunsMerged(bs);
      SweepMergesRuns([Merge(bs[0], bs[1])] + bs[2..]);
    } else if |bs| >= 1 {
      SweepMergesRuns(bs[1..]);
      if bs[0].free {
        assert |bs| > 1 ==> !bs[1..][0].free;
        assert FreeRun(bs[1..]) == 0;
        assert bs[..1] == [bs[0]];
        SpanOne(bs[0]);
      }
    }
  }

  // ---------------------------------------------------------------- canonical lists

  /** Two canonical lists of the same span with the same live blocks are equal. */
  lemma {:induction false} CanonicalUnique(bs: Blocks, cs: Blocks, base: nat)
    requires Canonical(bs) && Canonical(cs)
    requires Span(bs) == Span(cs) && Live(bs, base) == Live(cs, base)
    ensures bs == cs
    decreases |bs|
  {
    if bs == [] || cs == [] { return; }
    FirstBlock(bs, base);
    FirstBlock(cs, base);
    var b, c := bs[0], cs[0];
    assert b.free == c.free;
    if b.free {
      SecondBlock(bs, cs, base);
      SecondBlock(cs, bs, base);
    }
    assert b == c;
    var next := base + HEADER + b.size;
    assert Live(bs[1..], next) == if b.free then Live(bs, base) else Live(bs, base) - {base};
    assert Live(cs[1..], next) == if c.free then Live(cs, base) else Live(cs, base) - {base};
    CanonicalUnique(bs[1..], cs[1..], next);
    assert bs == [b] + bs[1..] && cs == [c] + cs[1..];
  }

  lemma FirstBlock(bs: Blocks, base: nat)
    requires bs != []
    ensures base in Live(bs, base) <==> !bs[0].free
    ensures base in Live(bs, base) ==> Live(bs, base)[base] == bs[0].size
    ensures base !in Live(bs[1..], base + HEADER + bs[0].size)
  {
    LiveBounds(bs[1..], base + HEADER + bs[0].size);
  }

  lemma SpanStart(bs: Blocks)
    requires bs != []
    ensures Span(bs) == HEADER + bs[0].size + Span(bs[1..])
  {
  }

  /** A free first block reaches to the first live block, or to the end. */
  lemma SecondBlock(bs: Blocks, cs: Blocks, base: nat)
    requires Canonical(bs) && bs != [] && bs[0].free && cs != [] && cs[0].free
    requires Span(bs) == Span(cs) && Live(bs, base) == Live(cs, base)
    ensures cs[0].size <= bs[0].size
  {
    var next := base + HEADER + bs[0].size;
    LiveBounds(cs[1..], base + HEADER + cs[0].size);
    SpanStart(bs);
    if |bs| > 1 {
      assert !bs[1].free;
      FirstBlock(bs[1..], next);
      assert next in Live(bs, base);
      assert next in Live(cs[1..], base + HEADER + cs[0].size);
    }
  }

  // ---------------------------------------------------------------- what malloc and free do to the live blocks

  lemma {:induction false} MarkKeeps(bs: Blocks, base: nat, a: nat)
    requires a in Live(bs, base)
    ensures Span(Mark(bs, base, a)) == Span(bs) && |Mark(bs, base, a)| == |bs|
    ensures Live(Mark(bs, base, a), base) == Live(bs, base) - {a}
  {
    var next := base + HEADER + bs[0].size;
    FirstBlock(bs, base);
    if a != base {
      MarkKeeps(bs[1..], next, a);
      assert Mark(bs, base, a)[1..] == Mark(bs[1..], next, a);
    }
  }

  lemma {:induction false} MarkKeepsSizes(bs: Blocks, base: nat, a: nat)
    requires SizesOk(bs)
    ensures SizesOk(Mark(bs, base, a))
  {
    if bs != [] {
      assert SizeOk(bs[0]);
      MarkKeepsSizes(bs[1..], base + HEADER + bs[0].size, a);
    }
  }

  /** `os_free` of a live block removes it and nothing else, and leaves no two adjacent free blocks. */
  lemma FreeRemoves(bs: Blocks, a: nat)
    requires WellFormed(bs) && a in Live(bs, 0)
    ensures WellFormed(Free(bs, a)) && Free(bs, a) != []
    ensures Live(Free(bs, a), 0) == Live(bs, 0) - {a}
  {
    var marked := Mark(bs, 0, a);
    MarkKeeps(bs, 0, a);
    MarkKeepsSizes(bs, 0, a);
    SweepKeepsLive(marked, 0);
    SweepIsCanonical(marked);
    SweepKeepsSizes(marked);
  }

  lemma Align8Facts(size: int)
    requires size > 0
    ensures Align8(size) % 8 == 0 && size <= Align8(size) < size + 8 && Align8(size) >= 8
  {
  }

  /** What a successful `os_malloc` leaves: the same tiling with one more live block. Its size is exactly the
      aligned request if the chosen free block has room for 20 bytes more, a header and 8 bytes; otherwise it
      is that whole block, at most 16 bytes more than the aligned request. */
  lemma MallocAdds(bs: Blocks, size: int)
    requires WellFormed(bs) && CanAlloc(bs, size)
    ensures WellFormed(Malloc(bs, size)) && Malloc(bs, size) != []
    ensures var a := AllocAddr(bs, size); var heap := Initialised(bs);
      && a !in Live(heap, 0)
      && var room := heap[Chosen(bs, size)].size;
      && Live(Malloc(bs, size), 0) == Live(heap, 0)[a := if room >= Align8(size) + 20 then Align8(size) else room]
      && Align8(size) <= room && (room < Align8(size) + 20 ==> room <= Align8(size) + 16)
  {
    var heap := Initialised(bs);
    assert Span(INITIAL) == HEAP_SIZE;
    var i := Chosen(bs, size);
    Align8Facts(size);
    CarveAdds(heap, i, Align8(size));
  }

  /** Block i of bs replaced by `mid`. */
  function Replace(bs: Blocks, i: nat, mid: Blocks): Blocks
    requires i < |bs|
  {
    bs[..i] + mid + bs[i + 1..]
  }

  lemma ReplaceLayout(bs: Blocks, i: nat, mid: Blocks)
    requires i < |bs| && Span(mid) == HEADER + bs[i].size
    ensures Span(Replace(bs, i, mid)) == Span(bs)
    ensures Live(Replace(bs, i, mid), 0)
      == Live(bs[i + 1..], Addr(bs, i + 1)) + Live(mid, Addr(bs, i)) + Live(bs[..i], 0)
  {
    var pre, post := bs[..i], bs[i + 1..];
    AddrStep(bs, i);
    assert Replace(bs, i, mid) == pre + (mid + post);
    assert bs == pre + ([bs[i]] + post);
    SpanConcat(pre, mid + post);
    SpanConcat(mid, post);
    SpanConcat(pre, [bs[i]] + post);
    SpanConcat([bs[i]], post);
    LiveConcat(pre, mid + post, 0);
    LiveConcat(mid, post, Span(pre));
  }

  lemma PairLayout(b: Block, c: Block, base: nat)
    requires !b.free && c.free
    ensures Span([b, c]) == 2 * HEADER + b.size + c.size && Live([b, c], base) == map[base := b.size]
  {
    SpanTwo(b, c);
    assert [b, c][1..] == [c];
    LiveOne(c, base + HEADER + b.size);
  }

  lemma CarveSizes(b: Block, request: nat)
    requires b.size >= request && SizeOk(b) && request >= 8 && request % 8 == 0
    ensures SizesOk(Carve(b, request))
  {
    assert SizeOk(Carve(b, request)[0]);
    if b.size >= request + HEADER + 8 { RestSize(b.size, request); }
  }

  lemma RestSize(size: nat, request: nat)
    requires size >= request + HEADER + 8 && size % 4 == 0 && request % 8 == 0
    ensures SizeOk(Block(size - request - HEADER, true))
  {
    var k := size / 4 - 2 * (request / 8) - 3;
    assert size - request - HEADER == 4 * k;
  }

  lemma CarveLayout(b: Block, request: nat, base: nat)
    requires b.size >= request && SizeOk(b) && request >= 8 && request % 8 == 0
    ensures var mid := Carve(b, request);
      && Span(mid) == HEADER + b.size
      && Live(mid, base) == map[base := if b.size >= request + 20 then request else b.size]
      && (b.size < request + 20 ==> b.size <= request + 16)
  {
    if b.size >= request + HEADER + 8 {
      PairLayout(Block(request, false), Block(b.size - request - HEADER, true), base);
    } else {
      SpanOne(Block(b.size, false));
      LiveOne(Block(b.size, false), base);
    }
  }

  lemma MapInsert(low: map<nat, nat>, high: map<nat, nat>, a: nat, size: nat)
    requires a !in low
    ensures high + map[a := size] + low == (high + low)[a := size]
  {
  }

  lemma LiveAround(bs: Blocks, i: nat)
    requires i < |bs| && bs[i].free
    ensures var low, high := Live(bs[..i], 0), Live(bs[i + 1..], Addr(bs, i + 1));
      && Live(bs, 0) == high + low
      && Addr(bs, i) !in low && Addr(bs, i) !in high
  {
    AddrStep(bs, i);
    SplitAt(bs, i);
    LiveSkipsFree(bs[..i], bs[i], bs[i + 1..]);
    LiveBounds(bs[..i], 0);
    LiveBounds(bs[i + 1..], Addr(bs, i + 1));
  }

  lemma SplitAt(bs: Blocks, i: nat)
    requires i < |bs|
    ensures bs == bs[..i] + ([bs[i]] + bs[i + 1..])
  {
  }

  lemma LiveSkipsFree(low: Blocks, b: Block, high: Blocks)
    requires b.free
    ensures Live(low + ([b] + high), 0) == Live(high, Span(low) + HEADER + b.size) + Live(low, 0)
  {
    LiveConcat(low, [b] + high, 0);
    assert ([b] + high)[1..] == high;
  }

  lemma CarveLive(bs: Blocks, i: nat, request: nat)
    requires i < |bs| && bs[i].free && bs[i].size >= request && SizeOk(bs[i])
    requires request >= 8 && request % 8 == 0
    ensures var a, room := Addr(bs, i), bs[i].size;
      && a !in Live(bs, 0)
      && Live(Replace(bs, i, Carve(bs[i], request)), 0)
         == Live(bs, 0)[a := if room >= request + 20 then request else room]
  {
    var mid, a := Carve(bs[i], request), Addr(bs, i);
    LiveAround(bs, i);
    CarveLayout(bs[i], request, a);
    ReplaceLayout(bs, i, mid);
    MapInsert(Live(bs[..i], 0), Live(bs[i + 1..], Addr(bs, i + 1)), a,
              if bs[i].size >= request + 20 then request else bs[i].size);
  }

  lemma SizesReplaced(bs: Blocks, i: nat, j: nat, mid: Blocks)
    requires i <= j <= |bs| && SizesOk(bs) && SizesOk(mid)
    ensures SizesOk(bs[..i] + mid + bs[j..])
  {
  }

  lemma CarveAdds(bs: Blocks, i: nat, request: nat)
    requires WellFormed(bs) && i < |bs| && bs[i].free && bs[i].size >= request
    requires request >= 8 && request % 8 == 0
    ensures var cs, room := Replace(bs, i, Carve(bs[i], request)), bs[i].size;
      && WellFormed(cs) && cs != []
      && Addr(bs, i) !in Live(bs, 0)
      && Live(cs, 0) == Live(bs, 0)[Addr(bs, i) := if room >= request + 20 then request else room]
      && (room < request + 20 ==> room <= request + 16)
  {
    var mid := Carve(bs[i], request);
    var cs := Replace(bs, i, mid);
    assert SizeOk(bs[i]);
    CarveLive(bs, i, request);
    CarveLayout(bs[i], request, Addr(bs, i));
    CarveSizes(bs[i], request);
    CarveCanonical(bs, i, request);
    ReplaceLayout(bs, i, mid);
    SizesReplaced(bs, i, i + 1, mid);
  }

  lemma CarveCanonical(bs: Blocks, i: nat, request: nat)
    requires Canonical(bs) && i < |bs| && bs[i].free && bs[i].size >= request
    ensures Canonical(Replace(bs, i, Carve(bs[i], request)))
  {
    var mid := Carve(bs[i], request);
    var cs := Replace(bs, i, mid);
    forall k | 0 <= k < |cs| - 1
      ensures !(cs[k].free && cs[k + 1].free)
    {
      if k >= i + |mid| {
        assert cs[k] == bs[k - |mid| + 1] && cs[k + 1] == bs[k - |mid| + 2];
      } else if k == i + |mid| - 1 {
        assert cs[k + 1] == bs[i + 1] && !bs[i + 1].free;
      }
    }
  }
}
