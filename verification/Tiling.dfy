/** The block structure of the managed region: a sequence of adjacent blocks, each a
    16-byte header followed by `size` bytes.  The allocator's methods are specified by
    the functions here; what those functions guarantee is proved in `TilingLaws`. */
module Tiling {
  import opened Basics

  // sizeof(struct block): an 8-byte size followed by an 8-byte next pointer
  const HEADER := 16

  datatype Block = Block(addr: int, size: int, free: bool) {
    function End(): int { addr + HEADER + size }
  }

  /** `bs` covers [lo, hi) exactly: every block starts where the one before it ends. */
  ghost predicate Tiles(bs: seq<Block>, lo: int, hi: int) {
    && (if bs == [] then lo == hi else bs[0].addr == lo && bs[|bs| - 1].End() == hi)
    && (forall i :: 0 <= i < |bs| - 1 ==> bs[i + 1].addr == bs[i].End())
    && (forall i :: 0 <= i < |bs| ==> bs[i].size > 0)
  }

  ghost predicate Aligned(bs: seq<Block>, lo: int) {
    forall i :: 0 <= i < |bs| ==> (bs[i].addr - lo) % 8 == 0
  }

  /** Addresses of the free blocks, in order: the contents of the free list. */
  ghost function FreeAddrs(bs: seq<Block>): seq<int> {
    if bs == [] then []
    else (if bs[0].free then [bs[0].addr] else []) + FreeAddrs(bs[1..])
  }

  /** No two adjacent blocks are both free. */
  ghost predicate Coalesced(bs: seq<Block>) {
    forall i :: 0 <= i < |bs| - 1 ==> !(bs[i].free && bs[i + 1].free)
  }

  function RoundUp8(n: int): int { (n + 7) / 8 * 8 }

  ghost predicate Fits(b: Block, n: int) {
    b.free && b.size >= RoundUp8(n) + 2 * HEADER
  }

  /** Index of the lowest free block able to hold `n` bytes and leave a free remainder. */
  ghost function FirstFit(bs: seq<Block>, n: int): (i: nat)
    ensures i <= |bs|
    ensures i < |bs| ==> Fits(bs[i], n)
    ensures forall j :: 0 <= j < i ==> !Fits(bs[j], n)
  {
    if bs == [] || Fits(bs[0], n) then 0 else FirstFit(bs[1..], n) + 1
  }

  /** The tiling with the front of block `i` carved off as a live block of `n` bytes. */
  ghost function Split(bs: seq<Block>, i: nat, n: int): seq<Block>
    requires i < |bs|
  {
    var b := bs[i];
    bs[..i] + [Block(b.addr, n, false), Block(b.addr + HEADER + n, b.size - HEADER - n, true)] + bs[i + 1..]
  }

  ghost function AllocBlocks(bs: seq<Block>, n: int): seq<Block> {
    var i := FirstFit(bs, n);
    if i < |bs| then Split(bs, i, RoundUp8(n)) else bs
  }

  /** Blocks `i` and `i + 1` replaced by one free block spanning both. */
  ghost function Merge(bs: seq<Block>, i: nat): seq<Block>
    requires i + 1 < |bs|
  {
    bs[..i] + [Block(bs[i].addr, bs[i].size + HEADER + bs[i + 1].size, true)] + bs[i + 2..]
  }

  ghost function MergeRight(bs: seq<Block>, i: nat): seq<Block>
    requires i < |bs|
  {
    if i + 1 < |bs| && bs[i + 1].free then Merge(bs, i) else bs
  }

  ghost function MergeLeft(bs: seq<Block>, i: nat): seq<Block>
    requires i < |bs|
  {
    if i > 0 && bs[i - 1].free then Merge(bs, i - 1) else bs
  }

  ghost function Release(bs: seq<Block>, i: nat): seq<Block>
    requires i < |bs|
  {
    bs[i := bs[i].(free := true)]
  }

  ghost function FreeBlock(bs: seq<Block>, i: nat, coalesce: bool): seq<Block>
    requires i < |bs|
  {
    var released := Release(bs, i);
    if coalesce then MergeLeft(MergeRight(released, i), i) else released
  }

  /** Blocks of a tiling are disjoint and address-ordered. */
  lemma {:induction false} Ordered(bs: seq<Block>, lo: int, hi: int, i: nat, j: nat)
    requires Tiles(bs, lo, hi) && i < j < |bs|
    ensures lo <= bs[i].addr && bs[i].End() <= bs[j].addr && bs[j].End() <= hi
    decreases j - i, |bs| - j + i
  {
    if i + 1 < j { Ordered(bs, lo, hi, i, j - 1); }
    else {
      Bounds(bs, lo, hi, i);
      Bounds(bs, lo, hi, j);
    }
    Bounds(bs, lo, hi, j);
  }

  lemma {:induction false} Bounds(bs: seq<Block>, lo: int, hi: int, i: nat)
    requires Tiles(bs, lo, hi) && i < |bs|
    ensures lo <= bs[i].addr < bs[i].End() <= hi
  {
    for k := 0 to i
      invariant lo <= bs[k].addr
    {}
    var k := |bs| - 1;
    while k > i
      invariant i <= k < |bs| && bs[k].End() <= hi
    { k := k - 1; }
  }

  /** All but the first block of a tiling tile the rest of the region. */
  lemma TilesTail(bs: seq<Block>, lo: int, hi: int)
    requires Tiles(bs, lo, hi) && bs != []
    ensures Tiles(bs[1..], bs[0].End(), hi)
    ensures Coalesced(bs) ==> Coalesced(bs[1..])
  {
    var rest := bs[1..];
    assert forall i :: 0 <= i < |rest| ==> rest[i] == bs[i + 1];
    if rest != [] { assert rest[|rest| - 1] == bs[|bs| - 1]; }
  }

  lemma {:induction false} FreeAddrsConcat(a: seq<Block>, b: seq<Block>)
    ensures FreeAddrs(a + b) == FreeAddrs(a) + FreeAddrs(b)
  {
    if a == [] { assert a + b == b; }
    else {
      assert (a + b)[0] == a[0] && (a + b)[1..] == a[1..] + b;
      FreeAddrsConcat(a[1..], b);
      Associative(if a[0].free then [a[0].addr] else [], FreeAddrs(a[1..]), FreeAddrs(b));
    }
  }
}
