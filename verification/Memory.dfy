/** `memory.c` on the heap array itself: headers are words inside the bytes that they manage. */
module Memory {
  import opened Int32
  import opened HeapSpec

  const WORDS := HEAP_SIZE / 4
  const NULL := -1            // pointers are byte offsets into the heap, 0 being the first header

  function Flag(free: bool): int { if free then 1 else 0 }

  /** The three words at byte offset a are the header of block b, linked to `next`. */
  predicate HeaderIs(mem: seq<int>, a: nat, b: Block, next: int) {
    && |mem| == WORDS && a % 4 == 0 && a + HEADER <= HEAP_SIZE
    && mem[a / 4] == b.size
    && mem[a / 4 + 1] == Flag(b.free)
    && mem[a / 4 + 2] == next
  }

  /** Where the `next` field of block i points: the end of the block, or null at the end of the heap. */
  function Next(bs: Blocks, i: nat): int
    requires i < |bs|
  {
    if i + 1 < |bs| then Addr(bs, i + 1) else NULL
  }

  predicate HeaderAt(mem: seq<int>, bs: Blocks, i: nat)
    requires i < |bs|
  {
    HeaderIs(mem, Addr(bs, i), bs[i], Next(bs, i))
  }

  /** The words of the heap hold the block list bs. */
  ghost predicate Holds(mem: seq<int>, bs: Blocks) {
    && |mem| == WORDS
    && forall i :: 0 <= i < |bs| ==> HeaderAt(mem, bs, i)
  }

  /** As well-formed, except that free blocks may be adjacent. */
  ghost predicate Tiled(bs: Blocks) {
    bs != [] && Span(bs) == HEAP_SIZE && SizesOk(bs)
  }

  /** Word w belongs to a payload of `live`. */
  predicate InPayload(live: map<nat, nat>, a: nat, w: nat) {
    a in live && a + HEADER <= 4 * w < a + HEADER + live[a]
  }

  /** No word of a live payload differs. */
  ghost predicate PayloadsKept(before: seq<int>, after: seq<int>, live: map<nat, nat>) {
    && |before| == |after| == WORDS
    && forall a, w: nat :: w < WORDS && InPayload(live, a, w) ==> after[w] == before[w]
  }

  // ---------------------------------------------------------------- replacing blocks in place

  /** Blocks i..i + c replaced by `mid`. */
  function Splice(bs: Blocks, i: nat, c: nat, mid: Blocks): Blocks
    requires i + c <= |bs|
  {
    bs[..i] + mid + bs[i + c..]
  }

  lemma SpliceAddr(bs: Blocks, i: nat, c: nat, mid: Blocks, k: nat)
    requires i + c <= |bs| && Addr(bs, i) + Span(mid) == Addr(bs, i + c)
    requires k <= |bs| - c + |mid|
    ensures k <= i ==> Addr(Splice(bs, i, c, mid), k) == Addr(bs, k)
    ensures k >= i + |mid| ==> Addr(Splice(bs, i, c, mid), k) == Addr(bs, k - |mid| + c)
  {
    var cs := Splice(bs, i, c, mid);
    if k <= i {
      assert cs[..k] == bs[..k];
    }
    if k >= i + |mid| {
      var tail := bs[i + c..k - |mid| + c];
      assert cs[..k] == bs[..i] + mid + tail;
      assert bs[..k - |mid| + c] == bs[..i + c] + tail;
      SpanConcat(bs[..i] + mid, tail);
      SpanConcat(bs[..i], mid);
      SpanConcat(bs[..i + c], tail);
    }
  }

  lemma SpliceOne(bs: Blocks, i: nat, b: Block)
    requires i < |bs|
    ensures Splice(bs, i, 1, [b]) == bs[i := b]
  {
  }

  /** The two memories differ at most in bytes lo..hi. */
  ghost predicate AgreeOutside(mem: seq<int>, mem': seq<int>, lo: nat, hi: nat) {
    && |mem| == |mem'| == WORDS
    && forall w :: 0 <= w < WORDS && !(lo <= 4 * w < hi) ==> mem'[w] == mem[w]
  }

  lemma HeaderKept(mem: seq<int>, mem': seq<int>, lo: nat, hi: nat, a: nat, b: Block, next: int)
    requires HeaderIs(mem, a, b, next) && AgreeOutside(mem, mem', lo, hi)
    requires a + HEADER <= lo || hi <= a
    ensures HeaderIs(mem', a, b, next)
  {
    var w := a / 4;
    assert mem'[w] == mem[w] && mem'[w + 1] == mem[w + 1] && mem'[w + 2] == mem[w + 2];
  }

  lemma SpliceNext(bs: Blocks, i: nat, c: nat, mid: Blocks, k: nat)
    requires i + c <= |bs| && mid != [] && c > 0 && Addr(bs, i) + Span(mid) == Addr(bs, i + c)
    requires k < |bs| - c + |mid|
    ensures k < i ==> Next(Splice(bs, i, c, mid), k) == Next(bs, k)
    ensures k >= i + |mid| - 1 ==> Next(Splice(bs, i, c, mid), k) == Next(bs, k - |mid| + c)
  {
    SpliceAddr(bs, i, c, mid, k + 1);
  }

  lemma ClearOf(bs: Blocks, i: nat, j: nat, h: nat)
    requires i <= j <= |bs| && h < |bs| && (h < i || j <= h)
    ensures h < i ==> Addr(bs, h) + HEADER <= Addr(bs, i)
    ensures j <= h ==> Addr(bs, j) <= Addr(bs, h)
  {
    if h < i { AddrOrder(bs, h, i); }
    if j < h { AddrOrder(bs, j, h); }
  }

  lemma OtherHeader(mem: seq<int>, bs: Blocks, i: nat, c: nat, mid: Blocks, mem': seq<int>, k: nat)
    requires Holds(mem, bs)
    requires i + c <= |bs| && c > 0 && mid != [] && Addr(bs, i) + Span(mid) == Addr(bs, i + c)
    requires AgreeOutside(mem, mem', Addr(bs, i), Addr(bs, i + c))
    requires k < |bs| - c + |mid| && (k < i || k >= i + |mid|)
    ensures HeaderAt(mem', Splice(bs, i, c, mid), k)
  {
    var h := if k < i then k else k - |mid| + c;
    SpliceAddr(bs, i, c, mid, k);
    SpliceNext(bs, i, c, mid, k);
    ClearOf(bs, i, i + c, h);
    assert Splice(bs, i, c, mid)[k] == bs[h];
    assert HeaderAt(mem, bs, h);
    HeaderKept(mem, mem', Addr(bs, i), Addr(bs, i + c), Addr(bs, h), bs[h], Next(bs, h));
  }

  /** Writes confined to blocks i..i + c leave every other header right. */
  lemma SpliceHolds(mem: seq<int>, bs: Blocks, i: nat, c: nat, mid: Blocks, mem': seq<int>)
    requires Holds(mem, bs)
    requires i + c <= |bs| && c > 0 && mid != [] && Addr(bs, i) + Span(mid) == Addr(bs, i + c)
    requires AgreeOutside(mem, mem', Addr(bs, i), Addr(bs, i + c))
    requires var cs := Splice(bs, i, c, mid);
      forall k :: i <= k < i + |mid| ==> HeaderAt(mem', cs, k)
    ensures Holds(mem', Splice(bs, i, c, mid))
  {
    var cs := Splice(bs, i, c, mid);
    forall k | 0 <= k < |cs|
      ensures HeaderAt(mem', cs, k)
    {
      if k < i || k >= i + |mid| {
        OtherHeader(mem, bs, i, c, mid, mem', k);
      }
    }
  }

  lemma BlockInHeap(bs: Blocks, i: nat)
    requires Tiled(bs) && i < |bs|
    ensures Addr(bs, i) % 4 == 0 && SizeOk(bs[i])
    ensures Addr(bs, i + 1) == Addr(bs, i) + HEADER + bs[i].size <= HEAP_SIZE
  {
    assert SizeOk(bs[i]);
    AddrAligned(bs, i);
    AddrStep(bs, i);
    AddrEnds(bs);
    if i + 1 < |bs| { AddrOrder(bs, i + 1, |bs|); }
  }

  lemma SpliceTiled(bs: Blocks, i: nat, c: nat, mid: Blocks)
    requires Tiled(bs) && i + c <= |bs| && mid != [] && Addr(bs, i) + Span(mid) == Addr(bs, i + c)
    requires SizesOk(mid)
    ensures Tiled(Splice(bs, i, c, mid))
  {
    var cs := Splice(bs, i, c, mid);
    SpliceAddr(bs, i, c, mid, |cs|);
    AddrEnds(bs);
    AddrEnds(cs);
    SizesReplaced(bs, i, i + c, mid);
  }

  /** Blocks i..i + c turned into the single block b. */
  lemma OneBlock(mem: seq<int>, bs: Blocks, i: nat, c: nat, b: Block, mem': seq<int>)
    requires Tiled(bs) && Holds(mem, bs) && c > 0 && i + c <= |bs|
    requires SizeOk(b) && Addr(bs, i) + HEADER + b.size == Addr(bs, i + c)
    requires AgreeOutside(mem, mem', Addr(bs, i), Addr(bs, i + c))
    requires HeaderIs(mem', Addr(bs, i), b, Next(bs, i + c - 1))
    ensures var cs := Splice(bs, i, c, [b]);
      Tiled(cs) && Holds(mem', cs) && Addr(cs, i) == Addr(bs, i) && cs[i] == b
  {
    SpanOne(b);
    SpliceTiled(bs, i, c, [b]);
    SpliceAddr(bs, i, c, [b], i);
    SpliceNext(bs, i, c, [b], i);
    SpliceHolds(mem, bs, i, c, [b], mem');
  }

  lemma FlagWrite(mem: seq<int>, a: nat, b: Block, next: int, free: bool, hi: nat)
    requires HeaderIs(mem, a, b, next) && a + HEADER <= hi
    ensures var mem' := mem[a / 4 + 1 := Flag(free)];
      HeaderIs(mem', a, b.(free := free), next) && AgreeOutside(mem, mem', a, hi)
  {
  }

  lemma MergeWrite(mem: seq<int>, a: nat, b: Block, next: int, size: nat, next': int, hi: nat)
    requires HeaderIs(mem, a, b, next) && a + HEADER <= hi
    ensures var mem' := mem[a / 4 := size][a / 4 + 2 := next'];
      HeaderIs(mem', a, b.(size := size), next') && AgreeOutside(mem, mem', a, hi)
  {
  }

  /** Setting the free flag of block i. */
  lemma FlagHolds(mem: seq<int>, bs: Blocks, i: nat, free: bool)
    requires Tiled(bs) && Holds(mem, bs) && i < |bs|
    ensures Tiled(bs[i := bs[i].(free := free)])
    ensures Addr(bs, i) / 4 + 1 < WORDS
    ensures Holds(mem[Addr(bs, i) / 4 + 1 := Flag(free)], bs[i := bs[i].(free := free)])
  {
    var b, a := bs[i].(free := free), Addr(bs, i);
    BlockInHeap(bs, i);
    assert HeaderAt(mem, bs, i);
    FlagWrite(mem, a, bs[i], Next(bs, i), free, Addr(bs, i + 1));
    OneBlock(mem, bs, i, 1, b, mem[a / 4 + 1 := Flag(free)]);
    SpliceOne(bs, i, b);
  }

  /** Absorbing block i + 1 into block i. */
  lemma MergeHolds(mem: seq<int>, bs: Blocks, i: nat)
    requires Tiled(bs) && Holds(mem, bs) && i + 1 < |bs|
    requires bs[i].free && bs[i + 1].free
    ensures var cs := Splice(bs, i, 2, [Merge(bs[i], bs[i + 1])]); var a := Addr(bs, i) / 4;
      && Tiled(cs) && a + 2 < WORDS
      && Holds(mem[a := bs[i].size + HEADER + bs[i + 1].size][a + 2 := Next(bs, i + 1)], cs)
      && Addr(cs, i) == Addr(bs, i)
  {
    var b, a := Merge(bs[i], bs[i + 1]), Addr(bs, i);
    BlockInHeap(bs, i);
    BlockInHeap(bs, i + 1);
    assert HeaderAt(mem, bs, i);
    MergeWrite(mem, a, bs[i], Next(bs, i), b.size, Next(bs, i + 1), Addr(bs, i + 2));
    OneBlock(mem, bs, i, 2, b, mem[a / 4 := b.size][a / 4 + 2 := Next(bs, i + 1)]);
  }

  /** The two halves of a split block. */
  function Halves(b: Block, request: nat): Blocks
    requires b.size >= request + HEADER
  {
    [Block(request, b.free), Block(b.size - request - HEADER, true)]
  }

  lemma HalvesLayout(bs: Blocks, i: nat, request: nat)
    requires Tiled(bs) && i < |bs| && request % 8 == 0 && request >= 8
    requires bs[i].size >= request + HEADER + 8
    ensures var mid := Halves(bs[i], request); var cs := Splice(bs, i, 1, mid);
      && Addr(bs, i) + Span(mid) == Addr(bs, i + 1) && Tiled(cs)
      && Addr(cs, i) == Addr(bs, i) && Addr(cs, i + 1) == Addr(bs, i) + HEADER + request
      && Next(cs, i) == Addr(cs, i + 1) && Next(cs, i + 1) == Next(bs, i)
  {
    var mid := Halves(bs[i], request);
    var cs := Splice(bs, i, 1, mid);
    BlockInHeap(bs, i);
    SpanTwo(mid[0], mid[1]);
    assert mid == [mid[0], mid[1]];
    SpliceTiled(bs, i, 1, mid);
    SpliceAddr(bs, i, 1, mid, i);
    SpliceNext(bs, i, 1, mid, i + 1);
    AddrStep(cs, i);
  }

  /** A split wrote a fresh header at word s and shortened the one at word a. */
  ghost predicate IsSplit(mem: seq<int>, mem': seq<int>, a: nat, s: nat, request: nat, rest: int, next: int) {
    && a + 2 < s && s + 2 < |mem| == |mem'|
    && mem'[a] == request && mem'[a + 1] == mem[a + 1] && mem'[a + 2] == 4 * s
    && mem'[s] == rest && mem'[s + 1] == 1 && mem'[s + 2] == next
    && forall w :: 0 <= w < |mem| && !(a <= w <= a + 2) && !(s <= w <= s + 2) ==> mem'[w] == mem[w]
  }

  lemma SplitWrite(mem: seq<int>, mem': seq<int>, a: nat, s: nat, b: Block, next: int, request: nat, hi: nat)
    requires HeaderIs(mem, a, b, next) && s % 4 == 0 && s == a + HEADER + request && b.size >= request + HEADER
    requires hi == a + HEADER + b.size <= HEAP_SIZE
    requires IsSplit(mem, mem', a / 4, s / 4, request, b.size - request - HEADER, next)
    ensures var mid := Halves(b, request);
      HeaderIs(mem', a, mid[0], s) && HeaderIs(mem', s, mid[1], next) && AgreeOutside(mem, mem', a, hi)
  {
  }

  /** Splitting block i: a new header behind `request` payload bytes, then the old one shortened. */
  lemma SplitHolds(mem: seq<int>, mem': seq<int>, bs: Blocks, i: nat, request: nat)
    requires Tiled(bs) && Holds(mem, bs) && i < |bs| && request % 8 == 0 && request >= 8
    requires bs[i].size >= request + HEADER + 8
    requires IsSplit(mem, mem', Addr(bs, i) / 4, (Addr(bs, i) + HEADER + request) / 4, request,
                     bs[i].size - request - HEADER, Next(bs, i))
    ensures var cs := Splice(bs, i, 1, Halves(bs[i], request));
      && Tiled(cs) && Holds(mem', cs) && Addr(cs, i) == Addr(bs, i)
      && AgreeOutside(mem, mem', Addr(bs, i), Addr(bs, i + 1))
  {
    var mid := Halves(bs[i], request);
    HalvesLayout(bs, i, request);
    SplitHeaders(mem, mem', bs, i, request);
    SpliceHolds(mem, bs, i, 1, mid, mem');
  }

  lemma SplitHeaders(mem: seq<int>, mem': seq<int>, bs: Blocks, i: nat, request: nat)
    requires Tiled(bs) && Holds(mem, bs) && i < |bs| && request % 8 == 0 && request >= 8
    requires bs[i].size >= request + HEADER + 8
    requires IsSplit(mem, mem', Addr(bs, i) / 4, (Addr(bs, i) + HEADER + request) / 4, request,
                     bs[i].size - request - HEADER, Next(bs, i))
    ensures var cs := Splice(bs, i, 1, Halves(bs[i], request));
      HeaderAt(mem', cs, i) && HeaderAt(mem', cs, i + 1)
    ensures AgreeOutside(mem, mem', Addr(bs, i), Addr(bs, i + 1))
  {
    var mid := Halves(bs[i], request);
    var cs := Splice(bs, i, 1, mid);
    BlockInHeap(bs, i);
    HalvesLayout(bs, i, request);
    assert HeaderAt(mem, bs, i);
    SplitWrite(mem, mem', Addr(bs, i), Addr(bs, i) + HEADER + request, bs[i], Next(bs, i), request, Addr(bs, i + 1));
    assert cs[i] == mid[0] && cs[i + 1] == mid[1];
  }

  /** A header write keeps every live payload. */
  lemma HeaderWriteKeeps(bs: Blocks, i: nat, w: nat)
    requires i < |bs| && Tiled(bs) && Addr(bs, i) / 4 <= w <= Addr(bs, i) / 4 + 2
    ensures forall a :: a in Live(bs, 0) ==> !InPayload(Live(bs, 0), a, w)
  {
    BlockInHeap(bs, i);
    forall a | a in Live(bs, 0) ensures !InPayload(Live(bs, 0), a, w) {
      var k := LiveIndex(bs, 0, a);
      if k < i { AddrOrder(bs, k, i); }
      if i < k { AddrOrder(bs, i, k); }
    }
  }

  lemma KeptTwice(first: seq<int>, second: seq<int>, third: seq<int>, live: map<nat, nat>, a: nat)
    requires PayloadsKept(first, second, live) && PayloadsKept(second, third, live - {a})
    ensures PayloadsKept(first, third, live - {a})
  {
    forall b, w: nat | w < WORDS && InPayload(live - {a}, b, w)
      ensures third[w] == first[w]
    {
      assert InPayload(live, b, w);
    }
  }

  /** Writes inside a free block keep every live payload. */
  lemma FreeBlockWrites(bs: Blocks, i: nat, mem: seq<int>, mem': seq<int>)
    requires i < |bs| && bs[i].free && AgreeOutside(mem, mem', Addr(bs, i), Addr(bs, i + 1))
    ensures PayloadsKept(mem, mem', Live(bs, 0))
  {
    AddrStep(bs, i);
    forall a, w: nat | w < WORDS && InPayload(Live(bs, 0), a, w)
      ensures mem'[w] == mem[w]
    {
      var k := LiveIndex(bs, 0, a);
      if k < i { AddrOrder(bs, k, i); }
      if i < k { AddrOrder(bs, i, k); }
    }
  }

  // ---------------------------------------------------------------- steps of the loops

  lemma {:induction false} MarkAtIndex(bs: Blocks, base: nat, i: nat)
    requires i < |bs|
    ensures Mark(bs, base, base + Addr(bs, i)) == bs[i := bs[i].(free := true)]
  {
    if i == 0 {
      assert bs == [bs[0]] + bs[1..];
    } else {
      assert bs[..i] == [bs[0]] + bs[1..][..i - 1];
      MarkAtIndex(bs[1..], base + HEADER + bs[0].size, i - 1);
      AddrOrder(bs, 0, i);
      SpanConcat([bs[0]], bs[1..][..i - 1]);
      SpanOne(bs[0]);
      assert bs[i := bs[i].(free := true)] == [bs[0]] + bs[1..][i - 1 := bs[i].(free := true)];
    }
  }

  /** How far the sweep is: blocks before i are final. */
  predicate Swept(start: Blocks, bs: Blocks, i: nat) {
    i < |bs| && Sweep(start) == bs[..i] + Sweep(bs[i..])
  }

  lemma SweptMerge(start: Blocks, bs: Blocks, i: nat)
    requires Swept(start, bs, i) && i + 1 < |bs| && bs[i].free && bs[i + 1].free
    ensures Swept(start, Splice(bs, i, 2, [Merge(bs[i], bs[i + 1])]), i)
  {
    var cs := Splice(bs, i, 2, [Merge(bs[i], bs[i + 1])]);
    assert cs[..i] == bs[..i];
    assert cs[i..] == [Merge(bs[i..][0], bs[i..][1])] + bs[i..][2..];
  }

  lemma SweptAdvance(start: Blocks, bs: Blocks, i: nat)
    requires Swept(start, bs, i) && i + 1 < |bs| && !(bs[i].free && bs[i + 1].free)
    ensures Swept(start, bs, i + 1)
  {
    assert bs[i..][1..] == bs[i + 1..];
    assert bs[..i + 1] == bs[..i] + [bs[i]];
  }

  lemma SweptDone(start: Blocks, bs: Blocks, i: nat)
    requires Swept(start, bs, i) && i + 1 == |bs|
    ensures Sweep(start) == bs
  {
    assert bs == bs[..i] + bs[i..];
  }

  lemma MergeKeepsLive(bs: Blocks, i: nat)
    requires i + 1 < |bs| && bs[i].free && bs[i + 1].free
    ensures Live(Splice(bs, i, 2, [Merge(bs[i], bs[i + 1])]), 0) == Live(bs, 0)
  {
    var merged := [Merge(bs[i], bs[i + 1])] + bs[i + 2..];
    assert bs == bs[..i] + bs[i..];
    assert Splice(bs, i, 2, [Merge(bs[i], bs[i + 1])]) == bs[..i] + merged;
    LiveConcat(bs[..i], bs[i..], 0);
    LiveConcat(bs[..i], merged, 0);
    assert bs[i..][1..][1..] == bs[i + 2..] == merged[1..];
  }

  lemma {:induction false} FirstFitIs(bs: Blocks, request: int, i: nat)
    requires i <= |bs|
    requires forall k :: 0 <= k < i ==> !(bs[k].free && bs[k].size >= request)
    requires i < |bs| ==> bs[i].free && bs[i].size >= request
    ensures FirstFit(bs, request) == i
  {
  }

  // ---------------------------------------------------------------- the allocator

  class Allocator {
    const mem: array<int>
    var head: int
    ghost var blocks: Blocks

    /** The array holds the block list, which is empty until `memory_init`. */
    ghost predicate Valid()
      reads this, mem
    {
      && mem.Length == WORDS
      && (head == 0 || head == NULL)
      && (head == NULL <==> blocks == [])
      && WellFormed(blocks)
      && Holds(mem[..], blocks)
    }

    constructor ()
      ensures Valid() && fresh(mem) && blocks == []
    {
      mem := new int[WORDS](_ => 0);
      head := NULL;
      blocks := [];
    }

    method MemoryInit()
      requires Valid()
      modifies this, mem
      ensures Valid() && blocks == INITIAL
    {
      head := 0;
      mem[0] := HEAP_SIZE - HEADER;
      mem[1] := 1;
      mem[2] := NULL;
      blocks := INITIAL;
      SpanOne(INITIAL[0]);
      assert HeaderAt(mem[..], INITIAL, 0);
    }

    /** First fit with splitting. The comparison with request + 20 cannot overflow: it is reached only for
        requests that fit in a block. */
    method OsMalloc(size: int32) returns (p: int)
      requires Valid()
      requires size <= INT_MAX - 7
      modifies this, mem
      ensures Valid() && blocks == Malloc(old(blocks), size)
      ensures p == if CanAlloc(old(blocks), size) then AllocAddr(old(blocks), size) + HEADER else NULL
      ensures old(blocks) != [] ==> PayloadsKept(old(mem[..]), mem[..], Live(old(blocks), 0))
    {
      if size <= 0 {
        return NULL;
      }
      if head == NULL {
        MemoryInit();
      }
      assert blocks == Initialised(old(blocks));
      var request: int32 := (size + 7) / 8 * 8;
      Align8Facts(size);
      var current := Search(request);
      if current == NULL {
        return NULL;
      }
      Take(FirstFit(blocks, request), current, request);
      return current + HEADER;
    }

    /** The search loop of `os_malloc`. */
    method Search(request: int32) returns (current: int)
      requires Valid() && blocks != []
      ensures var i := FirstFit(blocks, request);
        current == if i < |blocks| then Addr(blocks, i) else NULL
    {
      ghost var m, i := mem[..], 0;
      current := head;
      while current != NULL
        invariant i <= |blocks| && current == if i < |blocks| then Addr(blocks, i) else NULL
        invariant forall k :: 0 <= k < i ==> !(blocks[k].free && blocks[k].size >= request)
        decreases |blocks| - i
      {
        BlockInHeap(blocks, i);
        assert HeaderAt(m, blocks, i);
        if mem[current / 4 + 1] != 0 && mem[current / 4] >= request {
          FirstFitIs(blocks, request, i);
          return;
        }
        current := mem[current / 4 + 2];
        i := i + 1;
      }
      FirstFitIs(blocks, request, i);
    }

    /** The five writes of a split. */
    method WriteSplit(w: nat, s: nat, request: int32)
      requires w + 2 < s && s + 2 < mem.Length && request >= 0
      modifies mem
      ensures IsSplit(old(mem[..]), mem[..], w, s, request, old(mem[w]) - request - HEADER, old(mem[w + 2]))
    {
      mem[s] := mem[w] - request - HEADER;
      mem[s + 1] := 1;
      mem[s + 2] := mem[w + 2];
      mem[w + 2] := 4 * s;
      mem[w] := request;
    }

    /** The split of a block that is larger than needed: the new block is still free. */
    method Split(ghost i: nat, current: nat, request: int32)
      requires mem.Length == WORDS && Tiled(blocks) && Holds(mem[..], blocks)
      requires i < |blocks| && current == Addr(blocks, i)
      requires blocks[i].size >= request + HEADER + 8 && request >= 8 && request % 8 == 0
      modifies this`blocks, mem
      ensures blocks == Splice(old(blocks), i, 1, Halves(old(blocks[i]), request))
      ensures Tiled(blocks) && Holds(mem[..], blocks) && Addr(blocks, i) == current
      ensures AgreeOutside(old(mem[..]), mem[..], current, Addr(old(blocks), i + 1))
    {
      ghost var bs, b := blocks, blocks[i];
      var w := current / 4;
      var s := (current + HEADER + request) / 4;
      ghost var m := mem[..];
      BlockInHeap(bs, i);
      assert HeaderAt(m, bs, i);
      WriteSplit(w, s, request);
      blocks := Splice(bs, i, 1, Halves(b, request));
      SplitHolds(m, mem[..], bs, i, request);
    }

    /** The body of the search loop once a block is found. */
    method Take(ghost i: nat, current: nat, request: int32)
      requires Valid() && i < |blocks| && current == Addr(blocks, i)
      requires blocks[i].free && blocks[i].size >= request >= 8 && request % 8 == 0
      modifies this`blocks, mem
      ensures Valid() && blocks == Replace(old(blocks), i, Carve(old(blocks[i]), request))
      ensures PayloadsKept(old(mem[..]), mem[..], Live(old(blocks), 0))
    {
      ghost var bs := blocks;
      var w := current / 4;
      BlockInHeap(bs, i);
      assert HeaderAt(mem[..], bs, i);
      assert request + HEADER + 8 <= INT_MAX;
      if mem[w] >= request + HEADER + 8 {
        Split(i, current, request);
      }
      label Marked:
      FlagHolds(mem[..], blocks, i, false);
      mem[w + 1] := 0;
      blocks := blocks[i := blocks[i].(free := false)];
      assert mem[..] == old@Marked(mem[..])[w + 1 := 0];
      assert blocks == Replace(bs, i, Carve(bs[i], request));
      assert WellFormed(blocks) && blocks != [] by { CarveAdds(bs, i, request); }
      FreeBlockWrites(bs, i, old(mem[..]), mem[..]);
    }

    /** Marks the block of p free and sweeps once over the whole list, merging neighbours. */
    method OsFree(p: int)
      requires Valid()
      requires p == NULL || (p >= HEADER && p - HEADER in Live(blocks, 0))
      modifies this`blocks, mem
      ensures Valid()
      ensures blocks == if p == NULL then old(blocks) else Free(old(blocks), p - HEADER)
      ensures p == NULL ==> mem[..] == old(mem[..])
      ensures p != NULL ==> PayloadsKept(old(mem[..]), mem[..], Live(old(blocks), 0) - {p - HEADER})
    {
      if p == NULL {
        return;
      }
      ghost var a := p - HEADER;
      FreeRemoves(blocks, a);
      MarkKeeps(blocks, 0, a);
      MarkBlock(p - HEADER);
      ghost var m := mem[..];
      Coalesce();
      KeptTwice(old(mem[..]), m, mem[..], Live(old(blocks), 0), a);
    }

    /** The loop of `os_free`. */
    method Coalesce()
      requires mem.Length == WORDS && head == 0 && Tiled(blocks) && Holds(mem[..], blocks)
      modifies this`blocks, mem
      ensures blocks == Sweep(old(blocks)) && Holds(mem[..], blocks)
      ensures PayloadsKept(old(mem[..]), mem[..], Live(old(blocks), 0))
    {
      ghost var marked, live, m := blocks, Live(blocks, 0), mem[..];
      ghost var i := 0;
      AddrEnds(blocks);
      assert marked[0..] == marked;
      var current := head;
      BlockInHeap(blocks, 0);
      while current != NULL && mem[current / 4 + 2] != NULL
        invariant mem.Length == WORDS && Tiled(blocks) && Holds(mem[..], blocks)
        invariant Swept(marked, blocks, i) && current == Addr(blocks, i) && current / 4 + 2 < WORDS
        invariant Live(blocks, 0) == live && PayloadsKept(m, mem[..], live)
        decreases |blocks| - i
      {
        assert HeaderAt(mem[..], blocks, i);
        BlockInHeap(blocks, i + 1);
        assert HeaderAt(mem[..], blocks, i + 1);
        var next := mem[current / 4 + 2];
        if mem[current / 4 + 1] != 0 && mem[next / 4 + 1] != 0 {
          Absorb(i, current);
        } else {
          SweptAdvance(marked, blocks, i);
          current := next;
          i := i + 1;
        }
      }
      assert HeaderAt(mem[..], blocks, i);
      SweptDone(marked, blocks, i);
    }

    method MarkBlock(a: nat)
      requires Valid() && a in Live(blocks, 0)
      modifies this`blocks, mem
      ensures mem.Length == WORDS && blocks == Mark(old(blocks), 0, a)
      ensures Tiled(blocks) && Holds(mem[..], blocks)
      ensures PayloadsKept(old(mem[..]), mem[..], Live(old(blocks), 0))
    {
      ghost var k := LiveIndex(blocks, 0, a);
      FlagHolds(mem[..], blocks, k, true);
      HeaderWriteKeeps(blocks, k, a / 4 + 1);
      MarkAtIndex(blocks, 0, k);
      mem[a / 4 + 1] := 1;
      blocks := blocks[k := blocks[k].(free := true)];
      assert mem[..] == old(mem[..])[a / 4 + 1 := 1];
    }

    /** Block i takes in its successor. */
    method Absorb(ghost i: nat, current: nat)
      requires mem.Length == WORDS && Tiled(blocks) && Holds(mem[..], blocks)
      requires i + 1 < |blocks| && current == Addr(blocks, i)
      requires blocks[i].free && blocks[i + 1].free
      modifies this`blocks, mem
      ensures blocks == Splice(old(blocks), i, 2, [Merge(old(blocks[i]), old(blocks[i + 1]))])
      ensures Tiled(blocks) && Holds(mem[..], blocks) && Addr(blocks, i) == current
      ensures Live(blocks, 0) == Live(old(blocks), 0)
      ensures PayloadsKept(old(mem[..]), mem[..], Live(blocks, 0))
      ensures forall start :: Swept(start, old(blocks), i) ==> Swept(start, blocks, i)
    {
      ghost var bs, m := blocks, mem[..];
      var w := current / 4;
      BlockInHeap(bs, i);
      BlockInHeap(bs, i + 1);
      assert HeaderAt(m, bs, i) && HeaderAt(m, bs, i + 1);
      MergeHolds(m, bs, i);
      MergeKeepsLive(bs, i);
      HeaderWriteKeeps(bs, i, w);
      HeaderWriteKeeps(bs, i, w + 2);
      var next := mem[w + 2];
      mem[w] := mem[w] + HEADER + mem[next / 4];
      mem[w + 2] := mem[next / 4 + 2];
      blocks := Splice(bs, i, 2, [Merge(bs[i], bs[i + 1])]);
      assert mem[..] == m[w := bs[i].size + HEADER + bs[i + 1].size][w + 2 := Next(bs, i + 1)];
      forall start | Swept(start, bs, i) ensures Swept(start, blocks, i) {
        SweptMerge(start, bs, i);
      }
    }

    /** A client that stays inside its payload cannot disturb the allocator. */
    method Store(a: nat, w: nat, v: int)
      requires Valid() && w < WORDS && InPayload(Live(blocks, 0), a, w)
      modifies mem
      ensures Valid() && mem[..] == old(mem[..])[w := v]
    {
      mem[w] := v;
      forall i | 0 <= i < |blocks|
        ensures HeaderAt(mem[..], blocks, i)
      {
        assert HeaderAt(old(mem[..]), blocks, i);
        if Addr(blocks, i) / 4 <= w <= Addr(blocks, i) / 4 + 2 {
          HeaderWriteKeeps(blocks, i, w);
        }
      }
    }
  }
}
