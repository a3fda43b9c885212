/** The allocator library: global state, `Mem_Init`, `Mem_Alloc` and `Mem_Free`. */
module Allocator {
  import opened Tiling
  import opened Heaps

  const INT_MAX := 0x7FFF_FFFF

  const E_NO_SPACE := 1
  const E_BAD_ARGS := 4
  const E_BAD_POINTER := 5

  const NULL := 0

  /** Index of the block that starts at `a`, or |bs|. */
  ghost function IndexOf(bs: seq<Block>, a: int): (i: nat)
    ensures i <= |bs|
    ensures i < |bs| ==> bs[i].addr == a
    ensures forall j :: 0 <= j < i ==> bs[j].addr != a
  {
    if bs == [] || bs[0].addr == a then 0 else IndexOf(bs[1..], a) + 1
  }

  /** `ptr` was handed out by an allocation and has not been freed since. */
  ghost predicate IsLive(bs: seq<Block>, ptr: int) {
    var i := IndexOf(bs, ptr - HEADER);
    i < |bs| && !bs[i].free
  }

  ghost predicate InRegion(h: Heap, ptr: int) {
    h.lo <= ptr - HEADER < h.hi
  }

  /** A heap with the single free block that Mem_Init makes of a region of `size` usable bytes. */
  ghost predicate Fresh(h: Heap, base: int, size: int) {
    h.lo == base && h.hi == base + size + HEADER && h.blocks == [Block(base, size, true)]
  }

  /** First fit: the lowest free block that holds `size` rounded up to 8 bytes and leaves room
      for another header is split; if there is none, nothing changes. */
  ghost predicate AllocStep(h: Heap, size: int, h': Heap, ptr: int) {
    var i := FirstFit(h.blocks, size);
    if size <= 0 || i == |h.blocks| then ptr == NULL && h' == h
    else
      && ptr == h.blocks[i].addr + HEADER
      && h'.lo == h.lo && h'.hi == h.hi && h'.blocks == AllocBlocks(h.blocks, size)
      && KeepsLive(h, h', 0)
  }

  ghost predicate FreeStep(h: Heap, ptr: int, coalesce: bool, h': Heap) {
    if ptr == NULL || !InRegion(h, ptr) then h' == h
    else
      var i := IndexOf(h.blocks, ptr - HEADER);
      && i < |h.blocks|
      && h'.lo == h.lo && h'.hi == h.hi && h'.blocks == FreeBlock(h.blocks, i, coalesce)
      && KeepsLive(h, h', ptr - HEADER)
  }

  class Library {
    // mem[o] is the 64-bit word that starts at byte offset o of the region
    var mem: array<int>
    var memStart: int
    var memEnd: int
    var freeList: int
    var mError: int
    ghost var blocks: seq<Block>

    ghost function State(): Heap
      reads this, mem
    {
      Heap(memStart, memEnd, freeList, mem[..], blocks)
    }

    ghost predicate Valid()
      reads this, mem
    {
      WellFormed(State())
    }

    /** The library as loaded, before Mem_Init. */
    constructor ()
      ensures Valid() && blocks == [] && mError == 0
    {
      mem := new int[0];
      memStart, memEnd, freeList, mError := 0, 0, NULL, 0;
      blocks := [];
      new;
      EmptyWellFormed(State());
    }

    /** `base` is what mmap returned. */
    method MemInit(sizeOfRegion: int, base: int) returns (r: int)
      requires Valid() && sizeOfRegion <= INT_MAX
      requires base > 0 && base % 8 == 0
      modifies this
      ensures Valid()
      ensures sizeOfRegion <= 0 ==> r == -1 && mError == E_BAD_ARGS && State() == old(State())
      ensures sizeOfRegion > 0 ==> r == 0 && mError == old(mError) && Fresh(State(), base, sizeOfRegion) && fresh(mem)
    {
      if sizeOfRegion <= 0 {
        mError := E_BAD_ARGS;
        return -1;
      }
      var totalSize := sizeOfRegion + HEADER;
      mem := new int[totalSize](_ => 0);
      memStart := base;
      memEnd := memStart + totalSize;
      freeList := memStart;
      mem[freeList - memStart] := sizeOfRegion;
      mem[freeList - memStart + 8] := NULL;
      blocks := [Block(base, sizeOfRegion, true)];
      FreshWellFormed(State(), base, sizeOfRegion);
      return 0;
    }

    // Header fields: `size` is the word at the block's address, `next` the word after it.

    method GetSize(block: int) returns (v: int)
      requires memStart <= block && block < memStart + mem.Length
      ensures v == State().Word(block)
    {
      v := mem[block - memStart];
    }

    method GetNext(block: int) returns (v: int)
      requires memStart <= block && block + 8 < memStart + mem.Length
      ensures v == State().Word(block + 8)
    {
      v := mem[block + 8 - memStart];
    }

    method SetSize(block: int, v: int)
      requires memStart <= block && block < memStart + mem.Length
      modifies mem
      ensures State() == old(State()).Write(block, v)
    {
      mem[block - memStart] := v;
      assert mem[..] == old(mem[..])[block - memStart := v];
    }

    method SetNext(block: int, v: int)
      requires memStart <= block && block + 8 < memStart + mem.Length
      modifies mem
      ensures State() == old(State()).Write(block + 8, v)
    {
      mem[block + 8 - memStart] := v;
      assert mem[..] == old(mem[..])[block + 8 - memStart := v];
    }

    /** prev->next = target, or free_list = target when there is no previous block. */
    method SetLink(prev: int, target: int)
      requires prev != NULL ==> memStart <= prev && prev + 8 < memStart + mem.Length
      modifies mem, this`freeList
      ensures State() == old(State()).Link(prev, target)
    {
      if prev != NULL {
        SetNext(prev, target);
      } else {
        freeList := target;
      }
    }

    /** split->size and split->next. */
    method InitRemainder(curr: int, split: int, rest: int)
      requires memStart <= curr && curr + HEADER <= split && split + 8 < memStart + mem.Length
      modifies mem
      ensures State() == RemainderWords(old(State()), curr, split, rest)
    {
      SetSize(split, rest);
      var next := GetNext(curr);
      SetNext(split, next);
    }

    /** curr->size and curr->next. */
    method ShrinkFront(curr: int, split: int, rounded: int)
      requires memStart <= curr && curr + 8 < memStart + mem.Length
      modifies mem
      ensures State() == FrontWords(old(State()), curr, split, rounded) && State().Word(curr + 8) == split
    {
      SetSize(curr, rounded);
      SetNext(curr, split);
    }

    /** The body of Mem_Alloc's search once block j, at `curr`, is found to fit: its front
        becomes a live block of `rounded` bytes and the rest replaces it in the list. */
    method CarveFront(curr: int, prev: int, rounded: int, ghost j: nat)
      requires Shaped(State()) && SizesStored(State())
      requires j < |blocks| && curr == blocks[j].addr && prev == Pred(blocks, j)
      requires rounded > 0 && blocks[j].size >= rounded + 2 * HEADER
      modifies mem, this`freeList, this`blocks
      ensures State() == SplitHeap(old(State()), j, rounded)
    {
      BlockInside(State(), j);
      var totalSize := rounded + HEADER;
      var split := curr + totalSize;
      var size := GetSize(curr);
      InitRemainder(curr, split, size - totalSize);
      ShrinkFront(curr, split, rounded);
      var next := GetNext(curr);
      SetLink(prev, next);
      blocks := Split(blocks, j, rounded);
    }

    /** The search loop of Mem_Alloc: `curr` is the first block that fits and `prev` the free
        block before it; a null `curr` means that no block fits. */
    method FindFit(totalSize: int, ghost size: int) returns (curr: int, prev: int)
      requires Valid() && totalSize == RoundUp8(size) + HEADER
      ensures var j := FirstFit(blocks, size);
        if j == |blocks| then curr == NULL else curr == blocks[j].addr && curr != NULL && prev == Pred(blocks, j)
    {
      curr := freeList;
      prev := NULL;
      ghost var h := State();
      ghost var i: nat := 0;
      while curr != NULL
        invariant i <= |blocks| && prev == Pred(blocks, i) && curr == Entry(h, i)
        invariant forall k :: 0 <= k < i ==> !Fits(blocks[k], size)
        decreases |blocks| - i
      {
        ghost var j := NextFree(h, i);
        var available := GetSize(curr);
        if available >= totalSize + HEADER {
          return;
        }
        prev := curr;
        curr := GetNext(curr);
        i := j + 1;
      }
      NoneFits(h, i, size);
    }

    /** A null result means failure. */
    method MemAlloc(size: int) returns (ptr: int)
      requires Valid() && size <= INT_MAX - 7
      modifies mem, this`freeList, this`blocks, this`mError
      ensures Valid()
      ensures AllocStep(old(State()), size, State(), ptr)
      ensures mError == if size <= 0 then E_BAD_ARGS else if ptr == NULL then E_NO_SPACE else old(mError)
    {
      if size <= 0 {
        mError := E_BAD_ARGS;
        return NULL;
      }
      var rounded := RoundUp8(size);
      var curr, prev := FindFit(rounded + HEADER, size);
      if curr != NULL {
        ghost var j := FirstFit(blocks, size);
        CarveFront(curr, prev, rounded, j);
        AllocDone(old(State()), j, size, State());
        return curr + HEADER;
      }
      mError := E_NO_SPACE;
      return NULL;
    }

    /** The search loop of Mem_Free: the free blocks on either side of the live block t at `toFree`. */
    method FindPlace(toFree: int, ghost t: nat) returns (curr: int, prev: int)
      requires Valid() && t < |blocks| && blocks[t].addr == toFree && !blocks[t].free
      ensures prev == Pred(blocks, t) && curr == Entry(State(), t)
    {
      curr := freeList;
      prev := NULL;
      ghost var h := State();
      ghost var i: nat := 0;
      while curr != NULL && curr < toFree
        invariant i <= t && prev == Pred(blocks, i) && curr == Entry(h, i)
        decreases |blocks| - i
      {
        ghost var j := NextFree(h, i);
        NotBeyond(h, j, t);
        prev := curr;
        curr := GetNext(curr);
        i := j + 1;
      }
      NothingBetween(h, i, t);
    }

    /** Links the released block t in between its list neighbours. */
    method LinkIn(prev: int, toFree: int, curr: int, ghost t: nat)
      requires Valid() && t < |blocks| && blocks[t].addr == toFree && !blocks[t].free
      requires prev == Pred(blocks, t) && curr == Entry(State(), t)
      modifies mem, this`freeList, this`blocks
      ensures Valid() && blocks == Release(old(blocks), t) && KeepsLive(old(State()), State(), toFree)
      ensures prev == Pred(blocks, t) && curr == State().Word(toFree + 8)
    {
      BlockInside(State(), t);
      SetLink(prev, toFree);
      SetNext(toFree, curr);
      blocks := Release(blocks, t);
      ReleaseDone(old(State()), t, State());
    }

    /** Lets `block`, the free block i, absorb the free block after it. */
    method Absorb(block: int, next: int, ghost i: nat)
      requires Shaped(State()) && i + 1 < |blocks| && blocks[i].addr == block && blocks[i + 1].addr == next
      modifies mem, this`blocks
      ensures State() == MergeHeap(old(State()), i)
    {
      BlockInside(State(), i);
      BlockInside(State(), i + 1);
      var size := GetSize(block);
      var nextSize := GetSize(next);
      SetSize(block, size + (nextSize + HEADER));
      var link := GetNext(next);
      SetNext(block, link);
      blocks := Merge(blocks, i);
    }

    /** The part of Mem_Free for a live block. */
    method ReleaseBlock(toFree: int, coalesce: bool, ghost t: nat)
      requires Valid() && t < |blocks| && blocks[t].addr == toFree && !blocks[t].free
      modifies mem, this`freeList, this`blocks
      ensures Valid() && blocks == FreeBlock(old(blocks), t, coalesce)
      ensures KeepsLive(old(State()), State(), toFree)
    {
      var curr, prev := FindPlace(toFree, t);
      LinkIn(prev, toFree, curr, t);
      if coalesce {
        ghost var h1 := State();
        CoalesceAround(prev, toFree, curr, t);
        KeepsBoth(old(State()), h1, State(), toFree);
      }
    }

    method MemFree(ptr: int, coalesce: bool) returns (r: int)
      requires Valid()
      requires ptr != NULL && InRegion(State(), ptr) ==> IsLive(blocks, ptr)
      modifies mem, this`freeList, this`blocks, this`mError
      ensures Valid()
      ensures FreeStep(old(State()), ptr, coalesce, State())
      ensures if ptr == NULL || memStart <= ptr - 16 < memEnd then r == 0 && mError == old(mError)
              else r == -1 && mError == E_BAD_POINTER
    {
      if ptr == NULL {
        return 0;
      }
      var toFree := ptr - HEADER;
      if toFree < memStart || toFree >= memEnd {
        mError := E_BAD_POINTER;
        return -1;
      }
      ReleaseBlock(toFree, coalesce, IndexOf(blocks, toFree));
      return 0;
    }

    /** The coalescing half of Mem_Free, for the free block t and its list neighbours. */
    method CoalesceAround(prev: int, toFree: int, curr: int, ghost t: nat)
      requires Valid() && t < |blocks| && blocks[t].free && blocks[t].addr == toFree
      requires prev == Pred(blocks, t) && curr == State().Word(toFree + 8)
      modifies mem, this`blocks
      ensures Valid() && blocks == MergeLeft(MergeRight(old(blocks), t), t) && KeepsLive(old(State()), State(), 0)
    {
      ghost var h1 := State();
      RightNeighbour(h1, t);
      BlockInside(h1, t);
      var size := GetSize(toFree);
      if curr != NULL && toFree + size + HEADER == curr {
        Absorb(toFree, curr, t);
        MergeDone(h1, t, State());
      }
      ghost var h2 := State();
      RightMerged(h1.blocks, t);
      LeftNeighbour(h2, t);
      if prev != NULL {
        var prevSize := GetSize(prev);
        if prev + prevSize + HEADER == toFree {
          Absorb(prev, toFree, t - 1);
          MergeDone(h2, t - 1, State());
        }
      }
      KeepsBoth(h1, h2, State(), 0);
    }
  }

  lemma KeepsBoth(h: Heap, h': Heap, h'': Heap, a: int)
    requires KeepsLive(h, h', a) && KeepsLive(h', h'', 0)
    requires Shaped(h)
    ensures KeepsLive(h, h'', a)
  {
    NonNull(h.blocks, h.lo, h.hi);
  }

  lemma ReleaseDone(h: Heap, t: nat, h': Heap)
    requires WellFormed(h) && t < |h.blocks| && !h.blocks[t].free && h' == ReleaseHeap(h, t)
    ensures WellFormed(h') && KeepsLive(h, h', h.blocks[t].addr)
    ensures Pred(h'.blocks, t) == Pred(h.blocks, t) && h'.Word(h.blocks[t].addr + 8) == Entry(h, t)
  {
    ReleaseWrites(h, t);
    ReleaseKeeps(h, h', t);
    assert h'.blocks[..t] == h.blocks[..t];
  }

  lemma NonNull(bs: seq<Block>, lo: int, hi: int)
    requires Tiles(bs, lo, hi) && (bs != [] ==> lo > 0)
    ensures forall b :: b in bs ==> b.addr != 0
  {
    forall i | 0 <= i < |bs| ensures bs[i].addr != 0 { Bounds(bs, lo, hi, i); }
  }

  lemma MergeDone(h: Heap, i: nat, h': Heap)
    requires WellFormed(h) && i + 1 < |h.blocks| && h.blocks[i].free && h.blocks[i + 1].free && h' == MergeHeap(h, i)
    ensures WellFormed(h') && KeepsLive(h, h', 0)
  {
    MergeWrites(h, i);
    MergeKeeps(h, h', i);
  }

  lemma NotBeyond(h: Heap, j: nat, t: nat)
    requires Shaped(h) && j < |h.blocks| && t < |h.blocks| && h.blocks[j].addr < h.blocks[t].addr
    ensures j < t
  {
    if t < j { Ordered(h.blocks, h.lo, h.hi, t, j); }
  }

  /** No free block lies between position i, whose next free block is not below t, and t. */
  lemma NothingBetween(h: Heap, i: nat, t: nat)
    requires WellFormed(h) && i <= t < |h.blocks| && !h.blocks[t].free
    requires Entry(h, i) == NULL || Entry(h, i) >= h.blocks[t].addr
    ensures Pred(h.blocks, t) == Pred(h.blocks, i)
  {
    if Entry(h, i) == NULL {
      EntryAt(h, i);
      NothingFree(h.blocks, h.lo, h.hi, i);
      SamePred(h.blocks, i, t);
    } else {
      var j := NextFree(h, i);
      if j < t { Ordered(h.blocks, h.lo, h.hi, j, t); }
      SamePred(h.blocks, i, t);
    }
  }

  lemma {:induction false} SamePred(bs: seq<Block>, i: nat, t: nat)
    requires i <= t <= |bs| && forall k :: i <= k < t ==> !bs[k].free
    ensures Pred(bs, t) == Pred(bs, i)
  {
    if i < t {
      PrefixFree(bs, t - 1);
      SamePred(bs, i, t - 1);
    }
  }

  /** The list successor of the free block t starts where t ends exactly if block t + 1 is free. */
  lemma RightNeighbour(h: Heap, t: nat)
    requires WellFormed(h) && t < |h.blocks| && h.blocks[t].free
    ensures var (b, curr) := (h.blocks[t], h.Word(h.blocks[t].addr + 8));
      (curr != NULL && b.End() == curr) <==> (t + 1 < |h.blocks| && h.blocks[t + 1].free)
    ensures t + 1 < |h.blocks| ==> h.blocks[t + 1].addr == h.blocks[t].End()
  {
    PrefixFree(h.blocks, t);
    Bounds(h.blocks, h.lo, h.hi, t);
    assert Entry(h, t + 1) == h.Word(h.blocks[t].addr + 8);
    if Entry(h, t + 1) == NULL {
      EntryAt(h, t + 1);
      NothingFree(h.blocks, h.lo, h.hi, t + 1);
    } else {
      var j := NextFree(h, t + 1);
      if t + 1 < j { Ordered(h.blocks, h.lo, h.hi, t + 1, j); }
    }
  }

  lemma LeftNeighbour(h: Heap, t: nat)
    requires WellFormed(h) && t < |h.blocks|
    ensures var prev := Pred(h.blocks, t);
      && (prev != NULL ==> h.lo <= prev && prev + HEADER < h.hi)
      && ((prev != NULL && prev + h.Word(prev) + HEADER == h.blocks[t].addr) <==> (t > 0 && h.blocks[t - 1].free))
      && (t > 0 && h.blocks[t - 1].free ==> prev == h.blocks[t - 1].addr)
  {
    var p := PredIndex(h.blocks, t);
    if p >= 0 {
      Bounds(h.blocks, h.lo, h.hi, p);
      if p < t - 1 { Ordered(h.blocks, h.lo, h.hi, p, t - 1); }
      Ordered(h.blocks, h.lo, h.hi, p, t);
    }
  }

  lemma RightMerged(bs: seq<Block>, t: nat)
    requires t < |bs|
    ensures t < |MergeRight(bs, t)| && MergeRight(bs, t)[t].addr == bs[t].addr
    ensures bs[t].free ==> MergeRight(bs, t)[t].free
    ensures Pred(MergeRight(bs, t), t) == Pred(bs, t)
    ensures t > 0 ==> MergeRight(bs, t)[t - 1] == bs[t - 1]
  {
    assert MergeRight(bs, t)[..t] == bs[..t];
  }

  lemma BlockInside(h: Heap, j: nat)
    requires Shaped(h) && j < |h.blocks|
    ensures h.lo <= h.blocks[j].addr && h.blocks[j].End() <= h.hi
    ensures Pred(h.blocks, j) != NULL ==> h.lo <= Pred(h.blocks, j) && Pred(h.blocks, j) + HEADER < h.blocks[j].addr
  {
    Bounds(h.blocks, h.lo, h.hi, j);
    PredBelow(h.blocks, h.lo, h.hi, j);
  }

  lemma AllocDone(h: Heap, j: nat, size: int, h': Heap)
    requires WellFormed(h) && j < |h.blocks| && Fits(h.blocks[j], size) && size > 0
    requires forall k :: 0 <= k < j ==> !Fits(h.blocks[k], size)
    requires h' == SplitHeap(h, j, RoundUp8(size))
    ensures WellFormed(h') && AllocStep(h, size, h', h.blocks[j].addr + HEADER)
  {
    assert j == FirstFit(h.blocks, size);
    SplitWrites(h, j, RoundUp8(size));
    AllocEffect(h, j, size, h');
  }

  lemma AllocEffect(h: Heap, j: nat, size: int, h': Heap)
    requires WellFormed(h) && j < |h.blocks| && Fits(h.blocks[j], size) && size > 0
    requires SplitEffect(h, h', j, RoundUp8(size))
    ensures WellFormed(h') && KeepsLive(h, h', 0)
  {
    SplitKeeps(h, h', j, RoundUp8(size));
    KeepsMore(h, h', j);
  }

  /** The block that was split is free, so no live block is excepted. */
  lemma KeepsMore(h: Heap, h': Heap, j: nat)
    requires Shaped(h) && j < |h.blocks| && h.blocks[j].free && KeepsLive(h, h', h.blocks[j].addr)
    ensures KeepsLive(h, h', 0)
  {
    Apart(h.blocks, h.lo, h.hi);
  }

  lemma Apart(bs: seq<Block>, lo: int, hi: int)
    requires Tiles(bs, lo, hi)
    ensures forall i, j :: 0 <= i < j < |bs| ==> bs[i].addr < bs[j].addr
  {
    forall i, j | 0 <= i < j < |bs| ensures bs[i].addr < bs[j].addr { Ordered(bs, lo, hi, i, j); }
  }

  lemma NoneFits(h: Heap, i: nat, size: int)
    requires WellFormed(h) && i <= |h.blocks| && Entry(h, i) == NULL
    requires forall k :: 0 <= k < i ==> !Fits(h.blocks[k], size)
    ensures FirstFit(h.blocks, size) == |h.blocks|
  {
    EntryAt(h, i);
    NothingFree(h.blocks, h.lo, h.hi, i);
  }

  lemma EmptyWellFormed(h: Heap)
    requires h.lo == h.hi == 0 && h.head == NULL && h.words == [] && h.blocks == []
    ensures WellFormed(h)
  {}

  lemma FreshWellFormed(h: Heap, base: int, size: int)
    requires Fresh(h, base, size) && size > 0 && base > 0 && base % 8 == 0
    requires h.head == base && |h.words| == size + HEADER && h.words[0] == size && h.words[8] == NULL
    ensures WellFormed(h)
  {
    assert h.blocks[1..] == [];
    assert FreeAddrs(h.blocks) == [base] + [];
    assert Segment(h, [base][1..], h.Word(base + 8), 0);
  }

  /** A non-null list pointer reached at block `i` is the next free block j, whose header is in the region. */
  lemma NextFree(h: Heap, i: nat) returns (j: nat)
    requires WellFormed(h) && i <= |h.blocks| && Entry(h, i) != NULL
    ensures i <= j < |h.blocks| && h.blocks[j].free && Entry(h, i) == h.blocks[j].addr
    ensures h.lo <= h.blocks[j].addr && h.blocks[j].addr + HEADER < h.hi && h.Word(h.blocks[j].addr) == h.blocks[j].size
    ensures forall k :: i <= k < j ==> !h.blocks[k].free
    ensures Pred(h.blocks, j) == Pred(h.blocks, i) && Pred(h.blocks, j + 1) == h.blocks[j].addr
  {
    EntryAt(h, i);
    j := FirstFree(h.blocks, i);
    Bounds(h.blocks, h.lo, h.hi, j);
    SamePred(h.blocks, i, j);
    PrefixFree(h.blocks, j);
  }

  lemma {:induction false} FirstFree(bs: seq<Block>, i: nat) returns (j: nat)
    requires i <= |bs| && FreeAddrs(bs[i..]) != []
    ensures i <= j < |bs| && bs[j].free && bs[j].addr == FreeAddrs(bs[i..])[0]
    ensures forall k :: i <= k < j ==> !bs[k].free
    decreases |bs| - i
  {
    assert i < |bs|;
    if bs[i].free { j := i; }
    else {
      assert bs[i..][1..] == bs[i + 1..];
      assert [] + FreeAddrs(bs[i + 1..]) == FreeAddrs(bs[i + 1..]);
      j := FirstFree(bs, i + 1);
    }
  }

  lemma {:induction false} NothingFree(bs: seq<Block>, lo: int, hi: int, i: nat)
    requires Tiles(bs, lo, hi) && i <= |bs| && (bs != [] ==> lo > 0)
    requires FreeAddrs(bs[i..]) == [] || FreeAddrs(bs[i..])[0] == 0
    ensures forall k :: i <= k < |bs| ==> !bs[k].free
    decreases |bs| - i
  {
    if i < |bs| {
      Bounds(bs, lo, hi, i);
      assert bs[i..][1..] == bs[i + 1..];
      NothingFree(bs, lo, hi, i + 1);
    }
  }

  lemma PrefixFree(bs: seq<Block>, i: nat)
    requires i < |bs|
    ensures FreeAddrs(bs[..i + 1]) == FreeAddrs(bs[..i]) + (if bs[i].free then [bs[i].addr] else [])
  {
    assert bs[..i + 1] == bs[..i] + [bs[i]];
    FreeAddrsConcat(bs[..i], [bs[i]]);
  }
}
