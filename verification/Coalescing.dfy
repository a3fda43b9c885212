/** Canonical form: when every free coalesces, the free list is a function of the set of
    free bytes, so neither the order of frees nor the history matters. */
module Coalescing {
  import opened Tiling
  import opened Heaps
  import opened Allocator
  import opened AllocatorLaws

  /** The free list, sizes included. */
  ghost function FreeList(bs: seq<Block>): seq<Block> {
    if bs == [] then []
    else (if bs[0].free then [bs[0]] else []) + FreeList(bs[1..])
  }

  ghost predicate Contains(b: Block, x: int) { b.addr <= x < b.End() }

  /** Byte `x` belongs to a block in `bs`. */
  ghost predicate Covers(bs: seq<Block>, x: int) {
    exists b :: b in bs && Contains(b, x)
  }

  ghost predicate FreeByte(bs: seq<Block>, x: int) {
    exists b :: b in bs && b.free && Contains(b, x)
  }

  /** Sorted, with a gap between consecutive blocks. */
  ghost predicate Separated(f: seq<Block>) {
    && (forall i :: 0 <= i < |f| ==> f[i].size > 0 && f[i].free)
    && (forall i, j :: 0 <= i < j < |f| ==> f[i].End() < f[j].addr)
  }

  lemma {:induction false} FreeListMembers(bs: seq<Block>)
    ensures forall b :: b in FreeList(bs) <==> b in bs && b.free
  {
    if bs != [] {
      FreeListMembers(bs[1..]);
      assert forall b :: b in bs <==> b == bs[0] || b in bs[1..];
    }
  }

  lemma {:induction false} FreeListHead(bs: seq<Block>, lo: int, hi: int)
    requires Tiles(bs, lo, hi) && FreeList(bs) != []
    ensures bs != [] && if bs[0].free then FreeList(bs)[0] == bs[0] else FreeList(bs)[0].addr >= bs[0].End()
  {
    if !bs[0].free {
      TilesTail(bs, lo, hi);
      assert [] + FreeList(bs[1..]) == FreeList(bs[1..]);
      FreeListHead(bs[1..], bs[0].End(), hi);
    }
  }

  lemma {:induction false} CoalescedSeparated(bs: seq<Block>, lo: int, hi: int)
    requires Tiles(bs, lo, hi) && Coalesced(bs)
    ensures Separated(FreeList(bs))
  {
    if bs != [] {
      TilesTail(bs, lo, hi);
      var rest := FreeList(bs[1..]);
      CoalescedSeparated(bs[1..], bs[0].End(), hi);
      if bs[0].free {
        if rest != [] { FreeListHead(bs[1..], bs[0].End(), hi); }
        SeparatedCons(bs[0], rest);
      } else {
        assert [] + rest == rest;
      }
    }
  }

  lemma SeparatedCons(b: Block, f: seq<Block>)
    requires Separated(f) && b.free && b.size > 0 && (f != [] ==> b.End() < f[0].addr)
    ensures Separated([b] + f)
  {
    var g := [b] + f;
    forall i, j | 0 <= i < j < |g| ensures g[i].End() < g[j].addr
    {
      if j > 1 { assert f[0].addr <= f[j - 1].addr; }
    }
  }

  /** Two separated lists that cover the same bytes are equal. */
  lemma {:induction false} SameCover(f: seq<Block>, g: seq<Block>)
    requires Separated(f) && Separated(g)
    requires forall x :: Covers(f, x) <==> Covers(g, x)
    ensures f == g
  {
    if f == [] {
      if g != [] { assert Contains(g[0], g[0].addr); assert Covers(g, g[0].addr); }
    } else {
      assert Contains(f[0], f[0].addr);
      assert Covers(f, f[0].addr);
      assert g != [];
      HeadStart(f, g);
      HeadStart(g, f);
      HeadEnd(f, g);
      HeadEnd(g, f);
      TailCover(f);
      TailCover(g);
      SameCover(f[1..], g[1..]);
    }
  }

  lemma HeadStart(f: seq<Block>, g: seq<Block>)
    requires Separated(f) && Separated(g) && f != [] && g != []
    requires forall x :: Covers(f, x) <==> Covers(g, x)
    ensures g[0].addr <= f[0].addr
  {
    assert Contains(f[0], f[0].addr);
    assert Covers(g, f[0].addr);
    var b :| b in g && Contains(b, f[0].addr);
  }

  lemma HeadEnd(f: seq<Block>, g: seq<Block>)
    requires Separated(f) && Separated(g) && f != [] && g != [] && f[0].addr == g[0].addr
    requires forall x :: Covers(f, x) <==> Covers(g, x)
    ensures g[0].End() <= f[0].End()
  {
    var e := f[0].End();
    assert !Covers(f, e);
    assert !Covers(g, e);
    assert g[0] in g && !Contains(g[0], e);
  }

  lemma TailCover(f: seq<Block>)
    requires Separated(f) && f != []
    ensures forall x :: Covers(f[1..], x) <==> Covers(f, x) && !Contains(f[0], x)
  {
    assert forall b :: b in f <==> b == f[0] || b in f[1..];
  }

  /** The free list of a coalesced tiling is determined by the free bytes alone. */
  lemma Canonical(bs: seq<Block>, cs: seq<Block>, lo: int, hi: int)
    requires Tiles(bs, lo, hi) && Coalesced(bs) && Tiles(cs, lo, hi) && Coalesced(cs)
    requires forall x :: FreeByte(bs, x) <==> FreeByte(cs, x)
    ensures FreeList(bs) == FreeList(cs)
  {
    CoalescedSeparated(bs, lo, hi);
    CoalescedSeparated(cs, lo, hi);
    FreeListMembers(bs);
    FreeListMembers(cs);
    forall x ensures Covers(FreeList(bs), x) <==> Covers(FreeList(cs), x)
    {
      assert Covers(FreeList(bs), x) <==> FreeByte(bs, x);
      assert Covers(FreeList(cs), x) <==> FreeByte(cs, x);
    }
    SameCover(FreeList(bs), FreeList(cs));
  }

  // ---- what the tiling functions do to free bytes and live blocks ----

  lemma MergeBytes(bs: seq<Block>, lo: int, hi: int, i: nat)
    requires Tiles(bs, lo, hi) && i + 1 < |bs| && bs[i].free && bs[i + 1].free
    ensures forall x :: FreeByte(Merge(bs, i), x) <==> FreeByte(bs, x)
    ensures forall b: Block :: !b.free ==> (b in Merge(bs, i) <==> b in bs)
  {
    var (t, c, m) := (bs[i], bs[i + 1], Merge(bs, i)[i]);
    assert bs == bs[..i] + [t, c] + bs[i + 2..];
    assert Merge(bs, i) == bs[..i] + [m] + bs[i + 2..];
    assert forall b :: b in bs <==> b in bs[..i] || b == t || b == c || b in bs[i + 2..];
    assert forall b :: b in Merge(bs, i) <==> b in bs[..i] || b == m || b in bs[i + 2..];
    assert forall x :: Contains(m, x) <==> Contains(t, x) || Contains(c, x);
    forall x ensures FreeByte(Merge(bs, i), x) <==> FreeByte(bs, x)
    {
      assert FreeByte(bs, x) <==> FreeByte(bs[..i], x) || Contains(t, x) || Contains(c, x) || FreeByte(bs[i + 2..], x);
      assert FreeByte(Merge(bs, i), x) <==> FreeByte(bs[..i], x) || Contains(m, x) || FreeByte(bs[i + 2..], x);
    }
  }

  lemma ReleaseBytes(bs: seq<Block>, lo: int, hi: int, i: nat)
    requires Tiles(bs, lo, hi) && i < |bs| && !bs[i].free
    ensures forall x :: FreeByte(Release(bs, i), x) <==> FreeByte(bs, x) || Contains(bs[i], x)
    ensures forall b: Block :: !b.free ==> (b in Release(bs, i) <==> b in bs && b != bs[i])
  {
    var t := bs[i].(free := true);
    Apart(bs, lo, hi);
    assert bs == bs[..i] + [bs[i]] + bs[i + 1..];
    assert Release(bs, i) == bs[..i] + [t] + bs[i + 1..];
    assert forall b :: b in bs <==> b in bs[..i] || b == bs[i] || b in bs[i + 1..];
    assert forall b :: b in Release(bs, i) <==> b in bs[..i] || b == t || b in bs[i + 1..];
    forall x ensures FreeByte(Release(bs, i), x) <==> FreeByte(bs, x) || Contains(bs[i], x)
    {
      assert Contains(t, x) <==> Contains(bs[i], x);
      assert FreeByte(bs, x) <==> FreeByte(bs[..i], x) || FreeByte(bs[i + 1..], x);
      assert FreeByte(Release(bs, i), x) <==> FreeByte(bs[..i], x) || Contains(t, x) || FreeByte(bs[i + 1..], x);
    }
  }

  /** Freeing block i, with or without merging, adds exactly its span to the free bytes and
      removes exactly it from the live blocks. */
  lemma FreeBytes(bs: seq<Block>, lo: int, hi: int, i: nat, coalesce: bool)
    requires Tiles(bs, lo, hi) && i < |bs| && !bs[i].free
    ensures Tiles(FreeBlock(bs, i, coalesce), lo, hi)
    ensures forall x :: FreeByte(FreeBlock(bs, i, coalesce), x) <==> FreeByte(bs, x) || Contains(bs[i], x)
    ensures forall b: Block :: !b.free ==> (b in FreeBlock(bs, i, coalesce) <==> b in bs && b != bs[i])
  {
    var b1 := Release(bs, i);
    ReleaseTiles(bs, lo, hi, i);
    ReleaseBytes(bs, lo, hi, i);
    if coalesce {
      if i + 1 < |b1| && b1[i + 1].free {
        MergeTiles(b1, lo, hi, i);
        MergeBytes(b1, lo, hi, i);
      }
      var b2 := MergeRight(b1, i);
      if i > 0 && b2[i - 1].free {
        MergeTiles(b2, lo, hi, i - 1);
        MergeBytes(b2, lo, hi, i - 1);
      }
    }
  }

  /** Neither allocation nor a coalescing free leaves two free blocks side by side. */
  lemma AllocCoalesced(bs: seq<Block>, n: int)
    requires Coalesced(bs)
    ensures Coalesced(AllocBlocks(bs, n))
  {
    var i := FirstFit(bs, n);
    if i < |bs| {
      var bs' := AllocBlocks(bs, n);
      forall j | 0 <= j < |bs'| - 1 ensures !(bs'[j].free && bs'[j + 1].free)
      {
        if j > i { assert bs'[j + 1] == bs[j]; assert j > i + 1 ==> bs'[j] == bs[j - 1]; }
      }
    }
  }

  lemma FreeCoalesced(bs: seq<Block>, i: nat)
    requires Coalesced(bs) && i < |bs| && !bs[i].free
    ensures Coalesced(FreeBlock(bs, i, true))
  {
    RightCoalesced(bs, i);
    LeftCoalesced(MergeRight(Release(bs, i), i), i);
  }

  /** After the right merge, only blocks i - 1 and i may both be free. */
  lemma RightCoalesced(bs: seq<Block>, i: nat)
    requires Coalesced(bs) && i < |bs|
    ensures var b2 := MergeRight(Release(bs, i), i);
      i < |b2| && b2[i].free && forall j :: 0 <= j < |b2| - 1 && j != i - 1 ==> !(b2[j].free && b2[j + 1].free)
  {
    var b2 := MergeRight(Release(bs, i), i);
    forall j | 0 <= j < |b2| - 1 && j != i - 1 ensures !(b2[j].free && b2[j + 1].free)
    {
      if j < i - 1 { assert b2[j] == bs[j] && b2[j + 1] == bs[j + 1]; }
      else if |b2| == |bs| { assert b2[j + 1] == bs[j + 1] && (j > i ==> b2[j] == bs[j]); }
      else { assert b2[j + 1] == bs[j + 2] && (j > i ==> b2[j] == bs[j + 1]); }
    }
  }

  lemma LeftCoalesced(b2: seq<Block>, i: nat)
    requires i < |b2| && b2[i].free && forall j :: 0 <= j < |b2| - 1 && j != i - 1 ==> !(b2[j].free && b2[j + 1].free)
    ensures Coalesced(MergeLeft(b2, i))
  {
    var b3 := MergeLeft(b2, i);
    if |b3| != |b2| {
      forall j | 0 <= j < |b3| - 1 ensures !(b3[j].free && b3[j + 1].free)
      {
        if j < i - 1 { assert b3[j] == b2[j] && b3[j + 1].free == b2[j + 1].free; }
        else { assert b3[j + 1] == b2[j + 2] && b3[j].free == b2[j + 1].free; }
      }
    }
  }

  ghost predicate AlwaysCoalesces(ops: seq<Op>) {
    forall i :: 0 <= i < |ops| && ops[i].Free? ==> ops[i].coalesce
  }

  lemma StepCoalesced(h: Heap, op: Op, h': Heap)
    requires Step(h, op, h') && Coalesced(h.blocks) && (op.Free? ==> op.coalesce)
    ensures Coalesced(h'.blocks)
  {
    match op
    case Alloc(size) => AllocCoalesced(h.blocks, size);
    case Free(ptr, c) =>
      if ptr != NULL && InRegion(h, ptr) { FreeCoalesced(h.blocks, IndexOf(h.blocks, ptr - HEADER)); }
    case Store(a, v) =>
  }

  /** If every free of a run coalesces, no state of the run has two adjacent free blocks. */
  lemma {:induction false} RunCoalesced(hs: seq<Heap>, ops: seq<Op>, n: nat)
    requires Run(hs, ops) && AlwaysCoalesces(ops) && Coalesced(hs[0].blocks) && n <= |ops|
    ensures Coalesced(hs[n].blocks)
  {
    if n > 0 {
      RunCoalesced(hs, ops, n - 1);
      assert Step(hs[n - 1], ops[n - 1], hs[n]);
      StepCoalesced(hs[n - 1], ops[n - 1], hs[n]);
    }
  }

  /** Two runs over the same region that end with the same free bytes end with the same free list. */
  lemma HistoryIrrelevant(hs: seq<Heap>, ops: seq<Op>, gs: seq<Heap>, ops': seq<Op>)
    requires Run(hs, ops) && AlwaysCoalesces(ops) && Coalesced(hs[0].blocks)
    requires Run(gs, ops') && AlwaysCoalesces(ops') && Coalesced(gs[0].blocks)
    requires hs[0].lo == gs[0].lo && hs[0].hi == gs[0].hi
    requires forall x :: FreeByte(hs[|ops|].blocks, x) <==> FreeByte(gs[|ops'|].blocks, x)
    ensures FreeList(hs[|ops|].blocks) == FreeList(gs[|ops'|].blocks)
  {
    RunKeeps(hs, ops);
    RunKeeps(gs, ops');
    RunCoalesced(hs, ops, |ops|);
    RunCoalesced(gs, ops', |ops'|);
    Canonical(hs[|ops|].blocks, gs[|ops'|].blocks, hs[0].lo, hs[0].hi);
  }

  // ---- freeing many blocks ----

  ghost predicate LiveAt(bs: seq<Block>, a: int) {
    exists b :: b in bs && !b.free && b.addr == a
  }

  /** Coalescing frees of the blocks at `addrs`, in that order. */
  ghost function FreeAll(bs: seq<Block>, addrs: seq<int>): seq<Block>
    decreases |addrs|
  {
    if addrs == [] then bs
    else
      var i := IndexOf(bs, addrs[0]);
      if i < |bs| then FreeAll(FreeBlock(bs, i, true), addrs[1..]) else bs
  }

  ghost predicate FreedByte(bs: seq<Block>, addrs: seq<int>, x: int) {
    exists b :: b in bs && !b.free && b.addr in addrs && Contains(b, x)
  }

  ghost predicate Distinct(addrs: seq<int>) {
    forall i, j :: 0 <= i < j < |addrs| ==> addrs[i] != addrs[j]
  }

  lemma LiveIndex(bs: seq<Block>, lo: int, hi: int, a: int)
    requires Tiles(bs, lo, hi) && LiveAt(bs, a)
    ensures IndexOf(bs, a) < |bs| && !bs[IndexOf(bs, a)].free
    ensures forall b :: b in bs && b.addr == a ==> b == bs[IndexOf(bs, a)]
  {
    forall b | b in bs && b.addr == a ensures IndexOf(bs, a) < |bs| && b == bs[IndexOf(bs, a)]
    {
      var i :| 0 <= i < |bs| && bs[i] == b;
      AddrIndex(bs, lo, hi, i);
    }
  }

  /** One coalescing free of the block at `a`. */
  lemma FreeOne(bs: seq<Block>, lo: int, hi: int, a: int) returns (bs': seq<Block>, f: Block)
    requires Tiles(bs, lo, hi) && Coalesced(bs) && LiveAt(bs, a)
    ensures IndexOf(bs, a) < |bs| && bs' == FreeBlock(bs, IndexOf(bs, a), true)
    ensures Tiles(bs', lo, hi) && Coalesced(bs')
    ensures f in bs && f.addr == a && !f.free && forall b :: b in bs && b.addr == a ==> b == f
    ensures forall x :: FreeByte(bs', x) <==> FreeByte(bs, x) || Contains(f, x)
    ensures forall b: Block :: !b.free ==> (b in bs' <==> b in bs && b != f)
  {
    LiveIndex(bs, lo, hi, a);
    var i := IndexOf(bs, a);
    bs', f := FreeBlock(bs, i, true), bs[i];
    FreeBytes(bs, lo, hi, i, true);
    FreeCoalesced(bs, i);
  }

  lemma {:induction false} FreeAllBytes(bs: seq<Block>, lo: int, hi: int, addrs: seq<int>)
    requires Tiles(bs, lo, hi) && Coalesced(bs) && Distinct(addrs)
    requires forall a :: a in addrs ==> LiveAt(bs, a)
    ensures Tiles(FreeAll(bs, addrs), lo, hi) && Coalesced(FreeAll(bs, addrs))
    ensures forall x :: FreeByte(FreeAll(bs, addrs), x) <==> FreeByte(bs, x) || FreedByte(bs, addrs, x)
    decreases |addrs|
  {
    if addrs != [] {
      var rest := addrs[1..];
      assert addrs[0] in addrs;
      var bs', f := FreeOne(bs, lo, hi, addrs[0]);
      forall c | c in rest ensures LiveAt(bs', c)
      {
        assert c in addrs;
        var b :| b in bs && !b.free && b.addr == c;
        assert b in bs';
      }
      FreeAllBytes(bs', lo, hi, rest);
      assert FreeAll(bs, addrs) == FreeAll(bs', rest);
      forall x ensures FreedByte(bs, addrs, x) <==> Contains(f, x) || FreedByte(bs', rest, x)
      {
        FreedSplit(bs, bs', f, addrs, x);
      }
    }
  }

  lemma FreedSplit(bs: seq<Block>, bs': seq<Block>, f: Block, addrs: seq<int>, x: int)
    requires f in bs && !f.free && addrs != [] && addrs[0] == f.addr && Distinct(addrs)
    requires forall b: Block :: !b.free ==> (b in bs' <==> b in bs && b != f)
    requires forall b :: b in bs && b.addr == f.addr ==> b == f
    ensures FreedByte(bs, addrs, x) <==> Contains(f, x) || FreedByte(bs', addrs[1..], x)
  {
    assert forall a :: a in addrs <==> a == addrs[0] || a in addrs[1..];
  }

  /** Freeing any set of live blocks in any two orders gives the same free list. */
  lemma OrderIrrelevant(bs: seq<Block>, lo: int, hi: int, s: seq<int>, t: seq<int>)
    requires Tiles(bs, lo, hi) && Coalesced(bs)
    requires Distinct(s) && Distinct(t) && forall a :: a in s <==> a in t
    requires forall a :: a in s ==> LiveAt(bs, a)
    ensures FreeList(FreeAll(bs, s)) == FreeList(FreeAll(bs, t))
  {
    FreeAllBytes(bs, lo, hi, s);
    FreeAllBytes(bs, lo, hi, t);
    assert forall x :: FreedByte(bs, s, x) <==> FreedByte(bs, t, x);
    Canonical(FreeAll(bs, s), FreeAll(bs, t), lo, hi);
  }

  /** Freeing every live block gives back the single block that Mem_Init made. */
  lemma AllFreed(bs: seq<Block>, lo: int, hi: int, s: seq<int>)
    requires Tiles(bs, lo, hi) && Coalesced(bs) && bs != []
    requires Distinct(s) && forall a :: a in s <==> LiveAt(bs, a)
    ensures FreeAll(bs, s) == [Block(lo, hi - lo - HEADER, true)]
  {
    FreeAllBytes(bs, lo, hi, s);
    var (done, whole) := (FreeAll(bs, s), [Block(lo, hi - lo - HEADER, true)]);
    Bounds(bs, lo, hi, 0);
    forall x ensures FreeByte(done, x) <==> FreeByte(whole, x)
    {
      TiledByte(bs, lo, hi, x);
      assert FreeByte(whole, x) <==> Contains(whole[0], x);
      if lo <= x < hi {
        var b :| b in bs && Contains(b, x);
        if !b.free { assert LiveAt(bs, b.addr); }
      }
    }
    Canonical(done, whole, lo, hi);
    assert FreeList(whole) == whole by { assert whole[1..] == []; }
    FreeListMembers(done);
    assert whole[0] in FreeList(done);
    var i :| 0 <= i < |done| && done[i] == whole[0];
    if i > 0 { Ordered(done, lo, hi, 0, i); }
    if i < |done| - 1 { Ordered(done, lo, hi, i, |done| - 1); }
  }

  lemma {:induction false} TiledByte(bs: seq<Block>, lo: int, hi: int, x: int)
    requires Tiles(bs, lo, hi)
    ensures Covers(bs, x) <==> lo <= x < hi
  {
    if bs == [] { assert !Covers(bs, x); }
    else {
      var rest := bs[1..];
      TilesTail(bs, lo, hi);
      TiledByte(rest, bs[0].End(), hi, x);
      assert forall b :: b in bs <==> b == bs[0] || b in rest;
      assert Covers(bs, x) <==> Contains(bs[0], x) || Covers(rest, x);
      Bounds(bs, lo, hi, 0);
    }
  }

  // ---- allocating and freeing at once ----

  /** An allocation undone at once restores every block, sizes included, exactly when no free
      block precedes the one it was carved from. */
  lemma SplitThenFree(bs: seq<Block>, i: nat, n: int)
    requires i < |bs| && bs[i].free
    ensures FreeBlock(Split(bs, i, n), i, true) == bs <==> !(i > 0 && bs[i - 1].free)
  {
    var b1 := Release(Split(bs, i, n), i);
    var b2 := MergeRight(b1, i);
    assert b1[..i] == bs[..i] && b1[i + 2..] == bs[i + 1..];
    assert b2 == bs[..i] + [bs[i]] + bs[i + 1..] == bs;
  }

  lemma AllocThenFree(bs: seq<Block>, n: int)
    requires FirstFit(bs, n) < |bs|
    ensures var i := FirstFit(bs, n);
      FreeBlock(AllocBlocks(bs, n), i, true) == bs <==> !(i > 0 && bs[i - 1].free)
    ensures Coalesced(bs) ==> FreeBlock(AllocBlocks(bs, n), FirstFit(bs, n), true) == bs
  {
    var i := FirstFit(bs, n);
    SplitThenFree(bs, i, RoundUp8(n));
    if i > 0 && Coalesced(bs) {
      var k := i - 1;
      assert bs[k + 1].free;
      assert !bs[k].free;
    }
  }

  /** The same for the calls themselves: in a coalesced heap, Mem_Alloc followed by a coalescing
      Mem_Free of its result gives back the same blocks, and with them the list head and every
      header the library can read: all sizes, and the links of all free blocks. */
  lemma AllocFreeRestores(h: Heap, n: int, h1: Heap, ptr: int, h2: Heap)
    requires WellFormed(h) && Coalesced(h.blocks) && n > 0 && WellFormed(h1)
    requires AllocStep(h, n, h1, ptr) && ptr != NULL && FreeStep(h1, ptr, true, h2)
    requires WellFormed(h2)
    ensures h2.blocks == h.blocks && h2.lo == h.lo && h2.hi == h.hi
    ensures SameHeaders(h, h2)
  {
    var i := FirstFit(h.blocks, n);
    PointerTo(h1, i, ptr);
    AllocThenFree(h.blocks, n);
    HeadersDetermined(h, h2);
  }

  ghost predicate SameHeaders(h: Heap, h': Heap) {
    && h'.head == h.head
    && forall b :: b in h.blocks ==>
      h'.Word(b.addr) == h.Word(b.addr) && (b.free ==> h'.Word(b.addr + 8) == h.Word(b.addr + 8))
  }

  /** The blocks of a well-formed heap determine its list head and headers. */
  lemma HeadersDetermined(h: Heap, h': Heap)
    requires WellFormed(h) && WellFormed(h') && h'.blocks == h.blocks
    ensures SameHeaders(h, h')
  {
    var list := FreeAddrs(h.blocks);
    SegmentDetermined(h, h', list, h.head, h'.head);
    forall b | b in h.blocks
      ensures h'.Word(b.addr) == h.Word(b.addr) && (b.free ==> h'.Word(b.addr + 8) == h.Word(b.addr + 8))
    {
      var i :| 0 <= i < |h.blocks| && h.blocks[i] == b;
      if b.free {
        FreeAddrsAt(h.blocks, i);
        assert b.addr in list;
      }
    }
  }

  lemma {:induction false} SegmentDetermined(h: Heap, h': Heap, list: seq<int>, p: int, p': int)
    requires Segment(h, list, p, 0) && Segment(h', list, p', 0)
    ensures p' == p && forall a :: a in list ==> h'.Word(a + 8) == h.Word(a + 8)
  {
    if list != [] {
      SegmentDetermined(h, h', list[1..], h.Word(p + 8), h'.Word(p' + 8));
      assert forall a :: a in list ==> a == p || a in list[1..];
    }
  }
}
