/** What first fit, splitting and two-sided coalescing guarantee, for single calls and for
    whole runs. */
module AllocatorLaws {
  import opened Tiling
  import opened Heaps
  import opened Allocator

  // ---- one call ----

  /** The free block b can hold n bytes rounded up to a multiple of 8, a header for the
      remainder, and 16 bytes more. */
  ghost predicate HasRoom(b: Block, n: int) {
    b.free && b.size >= (n + 7) / 8 * 8 + 32
  }

  /** A request succeeds exactly when some free block has room, and is served by the lowest one. */
  lemma FirstFitPolicy(h: Heap, n: int, h': Heap, ptr: int)
    requires WellFormed(h) && n > 0 && AllocStep(h, n, h', ptr)
    ensures ptr != NULL <==> exists b :: b in h.blocks && HasRoom(b, n)
    ensures forall b :: b in h.blocks && HasRoom(b, n) ==> ptr <= b.addr + 16
    ensures ptr != NULL ==> exists b :: b in h.blocks && HasRoom(b, n) && ptr == b.addr + 16
    ensures ptr == NULL ==> h' == h
  {
    var i := FirstFit(h.blocks, n);
    assert forall b :: Fits(b, n) <==> HasRoom(b, n);
    if i < |h.blocks| {
      Bounds(h.blocks, h.lo, h.hi, i);
      assert h.blocks[i] in h.blocks;
    }
    forall b | b in h.blocks && HasRoom(b, n) ensures i < |h.blocks| && ptr <= b.addr + 16
    {
      var j :| 0 <= j < |h.blocks| && h.blocks[j] == b;
      if i < j { Ordered(h.blocks, h.lo, h.hi, i, j); }
    }
  }

  /** What a successful request does to the blocks: the one it is served from becomes a live
      block of the rounded size at the same place and a free one with the rest; no other
      block changes. */
  lemma AllocEffect(h: Heap, n: int, h': Heap, ptr: int) returns (i: nat)
    requires WellFormed(h) && n > 0 && AllocStep(h, n, h', ptr) && ptr != NULL
    ensures i < |h.blocks| && |h'.blocks| == |h.blocks| + 1
    ensures var (b, size) := (h.blocks[i], (n + 7) / 8 * 8);
      && b.free && ptr == b.addr + 16
      && h'.blocks[i] == Block(b.addr, size, false)
      && h'.blocks[i + 1] == Block(b.addr + 16 + size, b.size - 16 - size, true)
    ensures forall j :: 0 <= j < i ==> h'.blocks[j] == h.blocks[j]
    ensures forall j :: i < j < |h.blocks| ==> h'.blocks[j + 1] == h.blocks[j]
  {
    i := FirstFit(h.blocks, n);
  }

  /** The first request after Mem_Init is served from the start of the region exactly when the
      region has room for it. */
  lemma FirstRequest(h: Heap, base: int, size: int, n: int, h': Heap, ptr: int)
    requires Fresh(h, base, size) && WellFormed(h) && base > 0 && n > 0 && AllocStep(h, n, h', ptr)
    ensures ptr == if size >= (n + 7) / 8 * 8 + 32 then base + 16 else NULL
  {
    assert h.blocks[0] == Block(base, size, true);
    assert Fits(h.blocks[0], n) <==> size >= (n + 7) / 8 * 8 + 32;
  }

  // ---- one free ----

  /** Without coalescing, a free changes nothing but one flag: all blocks keep their places and
      sizes, free neighbours included, and the free list gains exactly that address, in order. */
  lemma FreeEffect(h: Heap, ptr: int, h': Heap) returns (t: nat, below: seq<int>, above: seq<int>)
    requires Tiles(h.blocks, h.lo, h.hi) && ptr != NULL && InRegion(h, ptr) && IsLive(h.blocks, ptr)
    requires FreeStep(h, ptr, false, h')
    ensures t < |h.blocks| && h.blocks[t].addr == ptr - 16 && !h.blocks[t].free
    ensures |h'.blocks| == |h.blocks| && h'.blocks[t] == Block(ptr - 16, h.blocks[t].size, true)
    ensures forall j :: 0 <= j < |h.blocks| && j != t ==> h'.blocks[j] == h.blocks[j]
    ensures FreeAddrs(h.blocks) == below + above && FreeAddrs(h'.blocks) == below + [ptr - 16] + above
    ensures (forall a :: a in below ==> a < ptr - 16) && (forall a :: a in above ==> ptr - 16 < a)
  {
    t := IndexOf(h.blocks, ptr - HEADER);
    below, above := ReleasedList(h.blocks, h.lo, h.hi, t);
  }

  lemma ReleasedList(bs: seq<Block>, lo: int, hi: int, t: nat) returns (below: seq<int>, above: seq<int>)
    requires Tiles(bs, lo, hi) && t < |bs| && !bs[t].free
    ensures FreeAddrs(bs) == below + above && FreeAddrs(Release(bs, t)) == below + [bs[t].addr] + above
    ensures (forall a :: a in below ==> a < bs[t].addr) && (forall a :: a in above ==> bs[t].addr < a)
  {
    below, above := FreeAddrs(bs[..t]), FreeAddrs(bs[t + 1..]);
    ListSplits(bs, t);
    FreeBelow(bs, lo, hi, t);
    Bounds(bs, lo, hi, t);
    FreeAbove(bs, lo, hi, t + 1, bs[t].End());
  }

  lemma ListSplits(bs: seq<Block>, t: nat)
    requires t < |bs| && !bs[t].free
    ensures FreeAddrs(bs) == FreeAddrs(bs[..t]) + FreeAddrs(bs[t + 1..])
    ensures FreeAddrs(Release(bs, t)) == FreeAddrs(bs[..t]) + [bs[t].addr] + FreeAddrs(bs[t + 1..])
  {
    var bs' := Release(bs, t);
    var (below, above) := (FreeAddrs(bs[..t]), FreeAddrs(bs[t + 1..]));
    FreeAddrsAt(bs, t);
    assert below + [] == below;
    FreeAddrsAt(bs', t);
    ReleaseSides(bs, t);
  }

  lemma ReleaseSides(bs: seq<Block>, t: nat)
    requires t < |bs|
    ensures Release(bs, t)[..t] == bs[..t] && Release(bs, t)[t + 1..] == bs[t + 1..]
  {}

  /** `bs'` is `bs` with blocks first, ..., last replaced by one free block that spans them. */
  ghost predicate OneFreeBlock(bs: seq<Block>, bs': seq<Block>, first: nat, last: nat)
    requires first <= last < |bs|
  {
    var size := bs[last].addr + bs[last].size - bs[first].addr;
    bs' == bs[..first] + [Block(bs[first].addr, size, true)] + bs[last + 1..]
  }

  /** With coalescing, the block and its free neighbours on either side become one free block
      from the start of the first to the end of the last; no other boundary vanishes. */
  lemma CoalesceEffect(h: Heap, ptr: int, h': Heap) returns (t: nat, first: nat, last: nat)
    requires Tiles(h.blocks, h.lo, h.hi) && ptr != NULL && InRegion(h, ptr) && IsLive(h.blocks, ptr)
    requires FreeStep(h, ptr, true, h')
    ensures t < |h.blocks| && h.blocks[t].addr == ptr - 16 && !h.blocks[t].free
    ensures first == if t > 0 && h.blocks[t - 1].free then t - 1 else t
    ensures last == if t + 1 < |h.blocks| && h.blocks[t + 1].free then t + 1 else t
    ensures OneFreeBlock(h.blocks, h'.blocks, first, last)
  {
    t := IndexOf(h.blocks, ptr - HEADER);
    first := if t > 0 && h.blocks[t - 1].free then t - 1 else t;
    last := if t + 1 < |h.blocks| && h.blocks[t + 1].free then t + 1 else t;
    FreeBlockSpans(h.blocks, h.lo, h.hi, t, first, last);
  }

  lemma FreeBlockSpans(bs: seq<Block>, lo: int, hi: int, t: nat, first: nat, last: nat)
    requires Tiles(bs, lo, hi) && t < |bs|
    requires first == if t > 0 && bs[t - 1].free then t - 1 else t
    requires last == if t + 1 < |bs| && bs[t + 1].free then t + 1 else t
    ensures OneFreeBlock(bs, FreeBlock(bs, t, true), first, last)
  {
    var mid := Block(bs[t].addr, bs[last].addr + bs[last].size - bs[t].addr, true);
    var (b2, rest) := (MergeRight(Release(bs, t), t), bs[last + 1..]);
    RightSpan(bs, t, last, mid);
    assert b2 == bs[..t] + [mid] + rest;
    if first < t {
      assert bs[first].End() == bs[t].addr;
      LeftSpan(bs, b2, t, mid, rest);
    }
  }

  lemma RightSpan(bs: seq<Block>, t: nat, last: nat, mid: Block)
    requires t < |bs| && (t + 1 < |bs| ==> bs[t + 1].addr == bs[t].End())
    requires last == if t + 1 < |bs| && bs[t + 1].free then t + 1 else t
    requires mid == Block(bs[t].addr, bs[last].addr + bs[last].size - bs[t].addr, true)
    ensures MergeRight(Release(bs, t), t) == bs[..t] + [mid] + bs[last + 1..]
  {}

  lemma LeftSpan(bs: seq<Block>, b2: seq<Block>, t: nat, mid: Block, rest: seq<Block>)
    requires 0 < t < |bs| && bs[t - 1].free && b2 == bs[..t] + [mid] + rest
    ensures MergeLeft(b2, t) == bs[..t - 1] + [Block(bs[t - 1].addr, bs[t - 1].size + 16 + mid.size, true)] + rest
  {
    assert b2[..t - 1] == bs[..t - 1] && b2[t + 1..] == rest;
  }

  /** The flag matters: freed without coalescing, 16 and 224 bytes next to each other cannot
      serve a request for 200; freed with it, they can. */
  lemma CoalesceMatters()
    ensures var bs := [Block(8, 16, false), Block(40, 224, true)];
      && AllocBlocks(FreeBlock(bs, 0, false), 200) == [Block(8, 16, true), Block(40, 224, true)]
      && AllocBlocks(FreeBlock(bs, 0, true), 200) == [Block(8, 200, false), Block(224, 40, true)]
  {
    var bs := [Block(8, 16, false), Block(40, 224, true)];
    var (apart, joined) := (FreeBlock(bs, 0, false), FreeBlock(bs, 0, true));
    assert apart == [Block(8, 16, true), Block(40, 224, true)];
    assert joined == [Block(8, 256, true)];
    assert FirstFit(apart, 200) == 2 by { assert !Fits(apart[0], 200) && !Fits(apart[1], 200); }
    assert FirstFit(joined, 200) == 0 by { assert Fits(joined[0], 200); }
  }

  /** The documentation calls the policy worst fit; with free blocks of 64 and 128 bytes it is not. */
  lemma NotWorstFit()
    ensures var bs := [Block(8, 64, true), Block(88, 8, false), Block(112, 128, true)];
      Tiles(bs, 8, 256) && AllocBlocks(bs, 8)[0] == Block(8, 8, false)
  {
    var bs := [Block(8, 64, true), Block(88, 8, false), Block(112, 128, true)];
    assert Fits(bs[0], 8);
    assert FirstFit(bs, 8) == 0;
  }

  /** An allocated pointer is 8-aligned and points to a live block with room for the request. */
  lemma AllocatedBlock(h: Heap, n: int, h': Heap, ptr: int)
    requires WellFormed(h) && WellFormed(h') && n > 0 && AllocStep(h, n, h', ptr) && ptr != NULL
    ensures ptr % 8 == 0 && IsLive(h'.blocks, ptr)
    ensures var b := h'.blocks[IndexOf(h'.blocks, ptr - HEADER)];
      n <= b.size < n + 8 && b.size % 8 == 0 && ptr + b.size <= h'.hi
  {
    var i := FirstFit(h.blocks, n);
    Carved(h.blocks, i, n);
    PointerTo(h', i, ptr);
  }

  lemma Carved(bs: seq<Block>, i: nat, n: int)
    requires i < |bs| && n > 0
    ensures var b := Split(bs, i, RoundUp8(n))[i];
      b.addr == bs[i].addr && !b.free && n <= b.size < n + 8 && b.size % 8 == 0
  {}

  lemma PointerTo(h: Heap, i: nat, ptr: int)
    requires Shaped(h) && h.lo % 8 == 0 && Aligned(h.blocks, h.lo) && i < |h.blocks| && ptr == h.blocks[i].addr + HEADER
    ensures ptr % 8 == 0 && IndexOf(h.blocks, ptr - HEADER) == i && ptr + h.blocks[i].size <= h.hi
  {
    Bounds(h.blocks, h.lo, h.hi, i);
    AddrIndex(h.blocks, h.lo, h.hi, i);
    Multiple8(h.lo, h.blocks[i].addr);
  }

  lemma Multiple8(lo: int, a: int)
    requires lo % 8 == 0 && (a - lo) % 8 == 0
    ensures (a + HEADER) % 8 == 0
  {}

  lemma AddrIndex(bs: seq<Block>, lo: int, hi: int, i: nat)
    requires Tiles(bs, lo, hi) && i < |bs|
    ensures IndexOf(bs, bs[i].addr) == i
  {
    var k := IndexOf(bs, bs[i].addr);
    if k < i { Ordered(bs, lo, hi, k, i); }
  }

  /** The free list holds exactly the free blocks, in strictly ascending order, and is never empty. */
  lemma FreeListShape(h: Heap)
    requires WellFormed(h) && h.blocks != []
    ensures var list := FreeAddrs(h.blocks);
      && Linked(h, list) && list != []
      && (forall i, j :: 0 <= i < j < |list| ==> list[i] + HEADER < list[j])
      && (forall a :: a in list <==> exists b :: b in h.blocks && b.free && b.addr == a)
  {
    var bs := h.blocks;
    FreeAddrsAt(bs, |bs| - 1);
    Ascending(bs, h.lo, h.hi, |bs|);
    assert bs[..|bs|] == bs;
    Members(bs);
  }

  lemma {:induction false} Ascending(bs: seq<Block>, lo: int, hi: int, i: nat)
    requires Tiles(bs, lo, hi) && i <= |bs|
    ensures var list := FreeAddrs(bs[..i]); forall j, k :: 0 <= j < k < |list| ==> list[j] + HEADER < list[k]
  {
    var p := PredIndex(bs, i);
    if p >= 0 {
      Ascending(bs, lo, hi, p);
      FreeBelow(bs, lo, hi, p);
    }
  }

  lemma {:induction false} Members(bs: seq<Block>)
    ensures forall a :: a in FreeAddrs(bs) <==> exists b :: b in bs && b.free && b.addr == a
  {
    if bs != [] {
      Members(bs[1..]);
      assert forall b :: b in bs <==> b == bs[0] || b in bs[1..];
    }
  }

  /** The spans of all blocks, 16 bytes of header each, add up to the region. */
  lemma {:induction false} Conservation(bs: seq<Block>, lo: int, hi: int)
    requires Tiles(bs, lo, hi)
    ensures Spans(bs) == hi - lo
  {
    if bs != [] {
      TilesTail(bs, lo, hi);
      Conservation(bs[1..], bs[0].End(), hi);
    }
  }

  ghost function Spans(bs: seq<Block>): int {
    if bs == [] then 0 else bs[0].size + HEADER + Spans(bs[1..])
  }

  // ---- whole runs ----

  /** A step of a program that uses the allocator; `Store` is the program writing through a
      pointer it owns. */
  datatype Op = Alloc(size: int) | Free(ptr: int, coalesce: bool) | Store(a: int, v: int)

  ghost predicate InPayload(b: Block, a: int) {
    !b.free && b.addr + HEADER <= a < b.End()
  }

  /** What Mem_Alloc and Mem_Free ensure, or a store into the payload of a live block. */
  ghost predicate Step(h: Heap, op: Op, h': Heap) {
    match op
    case Alloc(size) => WellFormed(h') && exists ptr :: AllocStep(h, size, h', ptr)
    case Free(ptr, coalesce) =>
      (ptr != NULL && InRegion(h, ptr) ==> IsLive(h.blocks, ptr)) && WellFormed(h') && FreeStep(h, ptr, coalesce, h')
    case Store(a, v) => h' == h.Write(a, v) && exists b :: b in h.blocks && InPayload(b, a)
  }

  ghost predicate Run(hs: seq<Heap>, ops: seq<Op>) {
    && |hs| == |ops| + 1 && WellFormed(hs[0])
    && forall i :: 0 <= i < |ops| ==> Step(hs[i], ops[i], hs[i + 1])
  }

  /** A program that only writes inside its own blocks cannot damage the allocator's headers. */
  lemma StoreKeeps(h: Heap, b: Block, a: int, v: int)
    requires WellFormed(h) && b in h.blocks && InPayload(b, a)
    ensures WellFormed(h.Write(a, v))
    ensures forall c :: c in h.blocks && c != b ==> SameSpan(h, h.Write(a, v), c)
  {
    var h' := h.Write(a, v);
    var i :| 0 <= i < |h.blocks| && h.blocks[i] == b;
    Bounds(h.blocks, h.lo, h.hi, i);
    forall j | 0 <= j < |h.blocks|
      ensures j != i ==> SameSpan(h, h', h.blocks[j])
      ensures h'.Word(h.blocks[j].addr) == h.Word(h.blocks[j].addr)
    {
      if j < i { Ordered(h.blocks, h.lo, h.hi, j, i); } else if i < j { Ordered(h.blocks, h.lo, h.hi, i, j); }
    }
    StoreLinks(h, i, a, v);
  }

  lemma StoreLinks(h: Heap, i: nat, a: int, v: int)
    requires Shaped(h) && Linked(h, FreeAddrs(h.blocks)) && i < |h.blocks| && InPayload(h.blocks[i], a)
    ensures Linked(h.Write(a, v), FreeAddrs(h.blocks))
  {
    var bs := h.blocks;
    EntryAt(h, i);
    FreeBelow(bs, h.lo, h.hi, i);
    assert bs[i..][1..] == bs[i + 1..];
    FreeAbove(bs, h.lo, h.hi, i + 1, bs[i].End());
    Bounds(bs, h.lo, h.hi, i);
    SegmentSame(h, h.Write(a, v), FreeAddrs(bs), h.head, 0);
  }

  lemma {:induction false} RunKeeps(hs: seq<Heap>, ops: seq<Op>)
    requires Run(hs, ops)
    ensures forall i :: 0 <= i < |hs| ==> WellFormed(hs[i]) && hs[i].lo == hs[0].lo && hs[i].hi == hs[0].hi
  {
    for n := 0 to |ops|
      invariant forall i :: 0 <= i <= n ==> WellFormed(hs[i]) && hs[i].lo == hs[0].lo && hs[i].hi == hs[0].hi
    {
      assert Step(hs[n], ops[n], hs[n + 1]);
      if ops[n].Store? {
        var b :| b in hs[n].blocks && InPayload(b, ops[n].a);
        StoreKeeps(hs[n], b, ops[n].a, ops[n].v);
      }
    }
  }

  /** Over every run, a live block that the program neither frees nor writes keeps its place,
      its recorded size and every word of its payload. */
  lemma {:induction false} LiveSurvives(hs: seq<Heap>, ops: seq<Op>, b: Block, n: nat)
    requires Run(hs, ops) && b in hs[0].blocks && !b.free && n <= |ops|
    requires forall i :: 0 <= i < n ==> ops[i] != Free(b.addr + HEADER, true) && ops[i] != Free(b.addr + HEADER, false)
    requires forall i :: 0 <= i < n && ops[i].Store? ==> !InPayload(b, ops[i].a)
    ensures b in hs[n].blocks && SameSpan(hs[0], hs[n], b)
  {
    if n > 0 {
      LiveSurvives(hs, ops, b, n - 1);
      RunKeeps(hs, ops);
      assert Step(hs[n - 1], ops[n - 1], hs[n]);
      StepKeepsLive(hs[n - 1], ops[n - 1], hs[n], b);
      assert forall a :: b.addr <= a < b.End() ==> hs[n].Word(a) == hs[n - 1].Word(a) == hs[0].Word(a);
    }
  }

  lemma StepKeepsLive(h: Heap, op: Op, h': Heap, b: Block)
    requires WellFormed(h) && Step(h, op, h') && b in h.blocks && !b.free
    requires op != Free(b.addr + HEADER, true) && op != Free(b.addr + HEADER, false)
    requires op.Store? ==> !InPayload(b, op.a)
    ensures b in h'.blocks && SameSpan(h, h', b)
  {
    if op.Store? {
      var c :| c in h.blocks && InPayload(c, op.a);
      StoreKeeps(h, c, op.a, op.v);
    } else {
      NonNull(h.blocks, h.lo, h.hi);
    }
  }
}
