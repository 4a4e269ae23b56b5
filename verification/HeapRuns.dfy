/** Theorems about whole runs of `os_malloc` and `os_free`. */
module HeapRuns {
  import opened HeapSpec
  import opened Sequences

  /** First fit is exact: `os_malloc` fails only when nothing is asked for or no free block is large enough,
      and otherwise takes the one at the lowest address. A failure leaves the blocks as they were, once the
      heap is initialised; a request for nothing does not even initialise it. */
  lemma FirstFitExact(bs: Blocks, size: int)
    requires WellFormed(bs)
    ensures var heap := Initialised(bs);
      && (CanAlloc(bs, size) <==>
            size > 0 && exists k :: 0 <= k < |heap| && heap[k].free && heap[k].size >= Align8(size))
      && (CanAlloc(bs, size) ==>
            forall k :: 0 <= k < |heap| && heap[k].free && heap[k].size >= Align8(size)
              ==> AllocAddr(bs, size) <= Addr(heap, k))
      && (!CanAlloc(bs, size) ==> Malloc(bs, size) == if size <= 0 then bs else heap)
  {
    var heap := Initialised(bs);
    var i := Chosen(bs, size);
    forall k | i < k < |heap|
      ensures Addr(heap, i) <= Addr(heap, k)
    {
      AddrOrder(heap, i, k);
    }
  }

  /** The state of the heap is a function of which blocks are live and how large they are. */
  lemma HeapIsItsLiveBlocks(bs: Blocks, cs: Blocks)
    requires WellFormed(bs) && WellFormed(cs) && bs != [] && cs != []
    requires Live(bs, 0) == Live(cs, 0)
    ensures bs == cs
  {
    CanonicalUnique(bs, cs, 0);
  }

  lemma InitialOk()
    ensures WellFormed(INITIAL) && Live(INITIAL, 0) == map[]
  {
    SpanOne(INITIAL[0]);
    assert INITIAL[1..] == [];
  }

  lemma InitialisedOk(bs: Blocks)
    requires WellFormed(bs)
    ensures WellFormed(Initialised(bs)) && Live(Initialised(bs), 0) == Live(bs, 0)
  {
    InitialOk();
  }

  /** Freeing what was just allocated restores the block list, whether or not the block was split. */
  lemma AllocThenFreeIsIdentity(bs: Blocks, size: int)
    requires WellFormed(bs) && CanAlloc(bs, size)
    ensures Free(Malloc(bs, size), AllocAddr(bs, size)) == Initialised(bs)
  {
    var a := AllocAddr(bs, size);
    MallocAdds(bs, size);
    InitialisedOk(bs);
    FreeRemoves(Malloc(bs, size), a);
    assert Live(Malloc(bs, size), 0) - {a} == Live(bs, 0);
    HeapIsItsLiveBlocks(Free(Malloc(bs, size), a), Initialised(bs));
  }

  // ---------------------------------------------------------------- frees in any order

  /** The blocks of `order` freed one after the other. */
  function FreeAll(bs: Blocks, order: seq<nat>): Blocks {
    if order == [] then bs else Free(FreeAll(bs, order[..|order| - 1]), order[|order| - 1])
  }

  ghost function Elements(order: seq<nat>): set<nat> { set a | a in order }

  lemma {:induction false} FreeAllRemoves(bs: Blocks, order: seq<nat>)
    requires WellFormed(bs) && bs != []
    requires Distinct(order) && Elements(order) <= Live(bs, 0).Keys
    ensures WellFormed(FreeAll(bs, order)) && FreeAll(bs, order) != []
    ensures Live(FreeAll(bs, order), 0) == Live(bs, 0) - Elements(order)
  {
    if order != [] {
      var n := |order| - 1;
      var front, a := order[..n], order[n];
      assert order == front + [a];
      assert Elements(order) == Elements(front) + {a};
      assert a !in Elements(front);
      FreeAllRemoves(bs, front);
      FreeRemoves(FreeAll(bs, front), a);
    }
  }

  /** Confluence: any two orders of freeing the same live blocks give the same heap. */
  lemma FreesAreConfluent(bs: Blocks, order: seq<nat>, other: seq<nat>)
    requires WellFormed(bs) && bs != []
    requires Distinct(order) && Distinct(other) && Elements(order) == Elements(other) <= Live(bs, 0).Keys
    ensures FreeAll(bs, order) == FreeAll(bs, other)
  {
    FreeAllRemoves(bs, order);
    FreeAllRemoves(bs, other);
    HeapIsItsLiveBlocks(FreeAll(bs, order), FreeAll(bs, other));
  }

  /** Freeing everything, in any order, gives back the single block of 65524 bytes. */
  lemma FreeingEverything(bs: Blocks, order: seq<nat>)
    requires WellFormed(bs) && bs != []
    requires Distinct(order) && Elements(order) == Live(bs, 0).Keys
    ensures FreeAll(bs, order) == [Block(65524, true)]
  {
    FreeAllRemoves(bs, order);
    InitialOk();
    assert Live(bs, 0) - Elements(order) == map[];
    HeapIsItsLiveBlocks(FreeAll(bs, order), INITIAL);
  }

  // ---------------------------------------------------------------- runs

  /** A client call. `Release` names the header of the payload it gives back. */
  datatype Op = Alloc(size: int) | Release(a: nat)

  /** The heap, and for each live block what was asked for and how many bytes it got. */
  datatype Heap = Heap(blocks: Blocks, asked: map<nat, int>, granted: map<nat, nat>)

  /** The client's view of a call: a block of the aligned request, or the whole free block where that has
      fewer than 20 bytes to spare. */

  function Apply(h: Heap, op: Op): Heap {
    match op
    case Alloc(size) =>
      if !CanAlloc(h.blocks, size) then h.(blocks := Malloc(h.blocks, size))
      else
        var a, room := AllocAddr(h.blocks, size), Initialised(h.blocks)[Chosen(h.blocks, size)].size;
        var got := if room < Align8(size) + 20 then room else Align8(size);
        Heap(Malloc(h.blocks, size), h.asked[a := size], h.granted[a := got])
    case Release(a) => Heap(Free(h.blocks, a), h.asked - {a}, h.granted - {a})
  }

  function RunOps(h: Heap, ops: seq<Op>): Heap {
    if ops == [] then h else Apply(RunOps(h, ops[..|ops| - 1]), ops[|ops| - 1])
  }

  /** Clients give back only payloads they hold. */
  predicate Disciplined(h: Heap, ops: seq<Op>) {
    ops == [] ||
    (var n := |ops| - 1;
     Disciplined(h, ops[..n]) && (ops[n].Release? ==> ops[n].a in Live(RunOps(h, ops[..n]).blocks, 0)))
  }

  /** The allocator's invariant: a well-formed tiling whose live blocks are the unreturned requests, each
      with exactly the bytes it was granted: the aligned request or up to 16 bytes more. */
  ghost predicate HeapOk(h: Heap) {
    && WellFormed(h.blocks)
    && Live(h.blocks, 0) == h.granted
    && h.asked.Keys == h.granted.Keys
    && forall a :: a in h.asked ==> Align8(h.asked[a]) <= h.granted[a] <= Align8(h.asked[a]) + 16
  }

  lemma ApplyOk(h: Heap, op: Op)
    requires HeapOk(h) && (op.Release? ==> op.a in Live(h.blocks, 0))
    ensures HeapOk(Apply(h, op))
  {
    match op
    case Alloc(size) =>
      InitialisedOk(h.blocks);
      if CanAlloc(h.blocks, size) { MallocAdds(h.blocks, size); }
    case Release(a) =>
      FreeRemoves(h.blocks, a);
  }

  lemma {:induction false} RunsStayOk(h: Heap, ops: seq<Op>)
    requires HeapOk(h) && Disciplined(h, ops)
    ensures HeapOk(RunOps(h, ops))
  {
    if ops != [] {
      var n := |ops| - 1;
      RunsStayOk(h, ops[..n]);
      ApplyOk(RunOps(h, ops[..n]), ops[n]);
    }
  }

  const BOOT := Heap([], map[], map[])

  /** After any run from boot the live payloads are pairwise disjoint, disjoint from every header, and inside
      the heap; and no two adjacent blocks are free. */
  lemma LiveBlocksApart(ops: seq<Op>, a: nat, b: nat)
    requires Disciplined(BOOT, ops)
    requires var live := Live(RunOps(BOOT, ops).blocks, 0); a in live && b in live && a < b
    ensures var bs := RunOps(BOOT, ops).blocks;
      && Canonical(bs)
      && a + HEADER + Live(bs, 0)[a] <= b
      && b + HEADER + Live(bs, 0)[b] <= HEAP_SIZE
      && forall i :: 0 <= i < |bs| ==>
           Addr(bs, i) <= a || a + HEADER + Live(bs, 0)[a] <= Addr(bs, i)
  {
    RunsStayOk(BOOT, ops);
    var bs := RunOps(BOOT, ops).blocks;
    LiveBounds(bs, 0);
    var i := LiveIndex(bs, 0, b);
    forall k | 0 <= k < |bs|
      ensures Addr(bs, k) <= a || a + HEADER + Live(bs, 0)[a] <= Addr(bs, k)
    {
      LivePayloadApart(bs, a, k);
    }
    assert Addr(bs, i) == b;
  }

  // ---------------------------------------------------------------- packing

  /** Bytes that blocks of these sizes take with their headers. */
  function Packed(sizes: seq<int>): int {
    if sizes == [] then 0 else Packed(sizes[..|sizes| - 1]) + 12 + Align8(sizes[|sizes| - 1])
  }

  function Allocs(sizes: seq<int>): seq<Op> { seq(|sizes|, k requires 0 <= k < |sizes| => Alloc(sizes[k])) }

  ghost predicate AllLive(bs: Blocks) { forall i :: 0 <= i < |bs| ==> !bs[i].free }

  /** Live blocks of `used` bytes, and one free block with the rest of the heap. */
  ghost predicate FilledTo(bs: Blocks, used: int) {
    && |bs| > 0 && 0 <= used <= HEAP_SIZE - HEADER
    && AllLive(bs[..|bs| - 1]) && Span(bs[..|bs| - 1]) == used
    && bs[|bs| - 1] == Block(HEAP_SIZE - HEADER - used, true)
  }

  lemma FilledStep(bs: Blocks, used: int, size: int)
    requires FilledTo(bs, used) && size > 0 && used + 12 + Align8(size) + 20 <= HEAP_SIZE
    ensures CanAlloc(bs, size) && AllocAddr(bs, size) == used
    ensures FilledTo(Malloc(bs, size), used + 12 + Align8(size))
  {
    var n, request := |bs| - 1, Align8(size);
    Align8Facts(size);
    assert forall i :: 0 <= i < n ==> !bs[..n][i].free && bs[i] == bs[..n][i];
    assert Chosen(bs, size) == n;
    var cs := Malloc(bs, size);
    assert cs == bs[..n] + [Block(request, false), Block(HEAP_SIZE - HEADER - used - request - HEADER, true)];
    assert cs[..|cs| - 1] == bs[..n] + [Block(request, false)];
    SpanConcat(bs[..n], [Block(request, false)]);
    SpanOne(Block(request, false));
  }

  /** From boot, requests are packed from the start of the heap without a gap between them: each header lies
      right behind the payload before it, and the next one goes to the address Packed(sizes). */
  lemma {:induction false} BootPacks(sizes: seq<int>)
    requires forall k :: 0 <= k < |sizes| ==> sizes[k] > 0
    requires sizes != [] && Packed(sizes) + 20 <= HEAP_SIZE
    ensures var before, size := RunOps(BOOT, Allocs(sizes[..|sizes| - 1])).blocks, sizes[|sizes| - 1];
      CanAlloc(before, size) && AllocAddr(before, size) == Packed(sizes[..|sizes| - 1])
    ensures FilledTo(RunOps(BOOT, Allocs(sizes)).blocks, Packed(sizes)) && Packed(sizes) >= 0
  {
    var n := |sizes| - 1;
    var front := sizes[..n];
    assert Allocs(sizes)[..n] == Allocs(front);
    assert RunOps(BOOT, Allocs(sizes)) == Apply(RunOps(BOOT, Allocs(front)), Alloc(sizes[n]));
    Align8Facts(sizes[n]);
    if n == 0 {
      InitialFilled(sizes[0]);
    } else {
      BootPacks(front);
      FilledStep(RunOps(BOOT, Allocs(front)).blocks, Packed(front), sizes[n]);
    }
  }

  lemma InitialFilled(size: int)
    requires size > 0 && 12 + Align8(size) + 20 <= HEAP_SIZE
    ensures CanAlloc([], size) && AllocAddr([], size) == 0 && FilledTo(Malloc([], size), 12 + Align8(size))
  {
    FilledStep(INITIAL, 0, size);
  }

  /** Two runs that leave the same live blocks leave the same heap, whatever else they did. */
  lemma HistoryDoesNotMatter(ops: seq<Op>, other: seq<Op>)
    requires Disciplined(BOOT, ops) && Disciplined(BOOT, other)
    requires Live(RunOps(BOOT, ops).blocks, 0) == Live(RunOps(BOOT, other).blocks, 0)
    ensures Initialised(RunOps(BOOT, ops).blocks) == Initialised(RunOps(BOOT, other).blocks)
  {
    RunsStayOk(BOOT, ops);
    RunsStayOk(BOOT, other);
    InitialisedOk(RunOps(BOOT, ops).blocks);
    InitialisedOk(RunOps(BOOT, other).blocks);
    HeapIsItsLiveBlocks(Initialised(RunOps(BOOT, ops).blocks), Initialised(RunOps(BOOT, other).blocks));
  }
}
