/** The region with block headers stored inside it, related to the tiling those headers
    describe.  Each heap function below is one group of header rewrites of the allocator;
    its `Keeps` lemma shows that it turns a well-formed heap into a well-formed heap and
    leaves every word of the other live blocks alone. */
module Heaps {
  import opened Basics
  import opened Tiling

  /** `head` and `words` are the concrete state, `blocks` the tiling they encode.
      `words[o]` is the 64-bit word that starts at byte offset `o` of the region; all offsets
      the allocator uses are multiples of 8 (`Aligned`), so different ones do not overlap. */
  datatype Heap = Heap(lo: int, hi: int, head: int, words: seq<int>, blocks: seq<Block>) {
    ghost function Word(a: int): int {
      if lo <= a < lo + |words| then words[a - lo] else 0
    }

    ghost function Write(a: int, v: int): Heap {
      if lo <= a < lo + |words| then this.(words := words[a - lo := v]) else this
    }

    /** Makes the free block at `prev`, or the list head if there is none, point to `target`. */
    ghost function Link(prev: int, target: int): Heap {
      if prev == 0 then this.(head := target) else Write(prev + 8, target)
    }
  }

  ghost function Last(list: seq<int>): int { if list == [] then 0 else list[|list| - 1] }

  /** Following the `next` words from `p` visits exactly the addresses in `list`, then reaches `q`. */
  ghost predicate Segment(h: Heap, list: seq<int>, p: int, q: int) {
    if list == [] then p == q
    else p == list[0] && Segment(h, list[1..], h.Word(p + 8), q)
  }

  /** The list starting at `head` is exactly `list`. */
  ghost predicate Linked(h: Heap, list: seq<int>) {
    Segment(h, list, h.head, 0)
  }

  ghost predicate SizesStored(h: Heap) {
    forall i :: 0 <= i < |h.blocks| ==> h.Word(h.blocks[i].addr) == h.blocks[i].size
  }

  ghost predicate Shaped(h: Heap) {
    Tiles(h.blocks, h.lo, h.hi) && |h.words| == h.hi - h.lo && (h.blocks != [] ==> h.lo > 0)
  }

  ghost predicate LastFree(bs: seq<Block>) {
    bs != [] ==> bs[|bs| - 1].free
  }

  ghost predicate WellFormed(h: Heap) {
    && Shaped(h)
    && h.lo % 8 == 0 && Aligned(h.blocks, h.lo)
    && LastFree(h.blocks)
    && SizesStored(h)
    && Linked(h, FreeAddrs(h.blocks))
  }

  /** All words of `b`, header included, are the same in both heaps. */
  ghost predicate SameSpan(h: Heap, h': Heap, b: Block) {
    forall a :: b.addr <= a < b.End() ==> h'.Word(a) == h.Word(a)
  }

  /** Every live block of `h` except the one at `a` is in `h'` with all its words. */
  ghost predicate KeepsLive(h: Heap, h': Heap, a: int) {
    forall b :: b in h.blocks && !b.free && b.addr != a ==> b in h'.blocks && SameSpan(h, h', b)
  }

  /** `h'` differs from `h` only in the link of the header at `p` and inside [a, e). */
  ghost predicate WritesOnly(h: Heap, h': Heap, p: int, a: int, e: int) {
    && h'.lo == h.lo && h'.hi == h.hi && |h'.words| == |h.words|
    && forall w :: h'.Word(w) != h.Word(w) ==> (p != 0 && w == p + 8) || a <= w < e
  }

  // ---- free addresses of a tiling ----

  lemma FreeAddrsAt(bs: seq<Block>, i: nat)
    requires i < |bs|
    ensures FreeAddrs(bs) == FreeAddrs(bs[..i]) + (if bs[i].free then [bs[i].addr] else []) + FreeAddrs(bs[i + 1..])
  {
    var (a, b) := (bs[..i], bs[i..]);
    assert bs == a + b;
    FreeAddrsConcat(a, b);
    assert b[0] == bs[i] && b[1..] == bs[i + 1..];
    Associative(FreeAddrs(a), if bs[i].free then [bs[i].addr] else [], FreeAddrs(bs[i + 1..]));
  }

  /** The free block before block `i`, or the null pointer. */
  ghost function Pred(bs: seq<Block>, i: nat): int
    requires i <= |bs|
  {
    Last(FreeAddrs(bs[..i]))
  }

  /** p is the index of `Pred`, or -1. */
  lemma {:induction false} PredIndex(bs: seq<Block>, i: nat) returns (p: int)
    requires i <= |bs|
    ensures -1 <= p < i
    ensures p == -1 ==> Pred(bs, i) == 0 && FreeAddrs(bs[..i]) == []
    ensures p >= 0 ==>
      bs[p].free && Pred(bs, i) == bs[p].addr && FreeAddrs(bs[..i]) == FreeAddrs(bs[..p]) + [bs[p].addr]
    ensures forall j :: p < j < i ==> !bs[j].free
  {
    if i == 0 { p := -1; }
    else {
      assert bs[..i] == bs[..i - 1] + [bs[i - 1]];
      FreeAddrsConcat(bs[..i - 1], [bs[i - 1]]);
      if bs[i - 1].free { p := i - 1; }
      else { p := PredIndex(bs, i - 1); }
    }
  }

  lemma PredBelow(bs: seq<Block>, lo: int, hi: int, i: nat)
    requires Tiles(bs, lo, hi) && i < |bs|
    ensures Pred(bs, i) != 0 ==> lo <= Pred(bs, i) && Pred(bs, i) + HEADER < bs[i].addr
  {
    var p := PredIndex(bs, i);
    if p >= 0 { Ordered(bs, lo, hi, p, i); }
  }

  /** Every element of `list` lies at or above `a`, with its header below `e`. */
  ghost predicate Within(list: seq<int>, a: int, e: int) {
    forall k :: 0 <= k < |list| ==> a <= list[k] && list[k] + HEADER < e
  }

  /** Free blocks below block `i` have their headers below it, and below the last one. */
  lemma {:induction false} FreeBelow(bs: seq<Block>, lo: int, hi: int, i: nat)
    requires Tiles(bs, lo, hi) && i < |bs|
    ensures Within(FreeAddrs(bs[..i]), lo, bs[i].addr)
    ensures FreeAddrs(bs[..i]) != [] ==> Within(Init(FreeAddrs(bs[..i])), lo, Pred(bs, i))
  {
    var p := PredIndex(bs, i);
    if p >= 0 {
      Ordered(bs, lo, hi, p, i);
      FreeBelow(bs, lo, hi, p);
    }
  }

  lemma {:induction false} FreeAbove(bs: seq<Block>, lo: int, hi: int, y: nat, e: int)
    requires Tiles(bs, lo, hi) && y <= |bs| && (y < |bs| ==> e <= bs[y].addr)
    ensures Within(FreeAddrs(bs[y..]), e, hi)
    decreases |bs| - y
  {
    if y < |bs| {
      assert bs[y..][1..] == bs[y + 1..];
      Bounds(bs, lo, hi, y);
      FreeAbove(bs, lo, hi, y + 1, e);
    }
  }

  // ---- list segments ----

  ghost function Init(list: seq<int>): seq<int>
    requires list != []
  {
    list[..|list| - 1]
  }

  lemma {:induction false} SegmentJoin(h: Heap, a: seq<int>, b: seq<int>, p: int, q: int, r: int)
    requires Segment(h, a, p, q) && Segment(h, b, q, r)
    ensures Segment(h, a + b, p, r)
  {
    if a == [] { assert a + b == b; }
    else {
      assert (a + b)[1..] == a[1..] + b;
      SegmentJoin(h, a[1..], b, h.Word(p + 8), q, r);
    }
  }

  lemma {:induction false} SegmentCut(h: Heap, a: seq<int>, b: seq<int>, p: int, r: int) returns (q: int)
    requires Segment(h, a + b, p, r)
    ensures Segment(h, a, p, q) && Segment(h, b, q, r)
  {
    if a == [] { q := p; assert a + b == b; }
    else {
      assert (a + b)[1..] == a[1..] + b;
      q := SegmentCut(h, a[1..], b, h.Word(p + 8), r);
    }
  }

  /** The links of the first n elements are the same in both heaps. */
  ghost predicate NextKept(h: Heap, h': Heap, list: seq<int>, n: int) {
    forall k :: 0 <= k < n && k < |list| ==> h'.Word(list[k] + 8) == h.Word(list[k] + 8)
  }

  lemma {:induction false} SegmentSame(h: Heap, h': Heap, list: seq<int>, p: int, q: int)
    requires Segment(h, list, p, q)
    requires NextKept(h, h', list, |list|)
    ensures Segment(h', list, p, q)
  {
    if list != [] {
      SegmentSame(h, h', list[1..], h.Word(p + 8), q);
    }
  }

  /** Rewriting the last link of a segment, or its start if it is empty, redirects its end. */
  lemma {:induction false} SegmentRedirect(h: Heap, h': Heap, list: seq<int>, p: int, q: int, p': int, q': int)
    requires Segment(h, list, p, q)
    requires if list == [] then p' == q' else p' == p && h'.Word(Last(list) + 8) == q'
    requires NextKept(h, h', list, |list| - 1)
    ensures Segment(h', list, p', q')
  {
    if |list| == 1 {
      assert list[1..] == [];
    } else if |list| > 1 {
      SegmentRedirect(h, h', list[1..], h.Word(p + 8), q, h.Word(p + 8), q');
    }
  }

  // ---- what a group of header rewrites leaves alone ----

  lemma Kept(h: Heap, h': Heap, p: int, x: nat, y: nat, j: nat)
    requires Shaped(h) && x < y <= |h.blocks| && j < |h.blocks| && !(x <= j < y)
    requires p == 0 || p == Pred(h.blocks, x)
    requires WritesOnly(h, h', p, h.blocks[x].addr, h.blocks[y - 1].End())
    ensures h'.Word(h.blocks[j].addr) == h.Word(h.blocks[j].addr)
    ensures !h.blocks[j].free ==> SameSpan(h, h', h.blocks[j])
  {
    var bs := h.blocks;
    var k := PredIndex(bs, x);
    if j < x { Ordered(bs, h.lo, h.hi, j, x); } else if j > y - 1 { Ordered(bs, h.lo, h.hi, y - 1, j); }
    if k >= 0 {
      if j < k { Ordered(bs, h.lo, h.hi, j, k); } else if k < j { Ordered(bs, h.lo, h.hi, k, j); }
    }
  }

  /** Blocks x .. y - 1 are replaced by `mid`: the stored sizes stay right. */
  lemma ReplacedSizes(h: Heap, h': Heap, p: int, x: nat, mid: seq<Block>, y: nat)
    requires Shaped(h) && SizesStored(h) && x < y <= |h.blocks|
    requires h'.blocks == h.blocks[..x] + mid + h.blocks[y..]
    requires p == 0 || p == Pred(h.blocks, x)
    requires WritesOnly(h, h', p, h.blocks[x].addr, h.blocks[y - 1].End())
    requires forall m :: 0 <= m < |mid| ==> h'.Word(mid[m].addr) == mid[m].size
    ensures SizesStored(h')
  {
    forall m | 0 <= m < |h'.blocks| ensures h'.Word(h'.blocks[m].addr) == h'.blocks[m].size
    {
      if m < x { Kept(h, h', p, x, y, m); }
      else if m >= x + |mid| { Kept(h, h', p, x, y, m - x - |mid| + y); }
    }
  }

  /** Blocks x .. y - 1 are replaced by `mid`: live blocks other than the one at `a` stay. */
  lemma ReplacedLive(h: Heap, h': Heap, p: int, x: nat, mid: seq<Block>, y: nat, a: int)
    requires Shaped(h) && x < y <= |h.blocks|
    requires h'.blocks == h.blocks[..x] + mid + h.blocks[y..]
    requires p == 0 || p == Pred(h.blocks, x)
    requires WritesOnly(h, h', p, h.blocks[x].addr, h.blocks[y - 1].End())
    requires forall j :: x <= j < y ==> h.blocks[j].free || h.blocks[j].addr == a
    ensures KeepsLive(h, h', a)
  {
    forall b | b in h.blocks && !b.free && b.addr != a ensures b in h'.blocks && SameSpan(h, h', b)
    {
      var j :| 0 <= j < |h.blocks| && h.blocks[j] == b;
      assert b == h'.blocks[if j < x then j else j - y + x + |mid|];
      Kept(h, h', p, x, y, j);
    }
  }

  /** The free blocks among x .. y - 1, addresses `mid`, are replaced by the free block at `m`. */
  lemma Relinked(h: Heap, h': Heap, p: int, x: nat, mid: seq<int>, y: nat, m: int)
    requires Shaped(h) && x < y <= |h.blocks|
    requires Linked(h, FreeAddrs(h.blocks[..x]) + (mid + FreeAddrs(h.blocks[y..])))
    requires p == 0 || p == Pred(h.blocks, x)
    requires WritesOnly(h, h', p, h.blocks[x].addr, h.blocks[y - 1].End())
    requires Segment(h, FreeAddrs(h.blocks[y..]), h'.Word(m + 8), 0)
    requires if Pred(h.blocks, x) == 0 then h'.head == m else h'.head == h.head && h'.Word(Pred(h.blocks, x) + 8) == m
    ensures Linked(h', FreeAddrs(h.blocks[..x]) + ([m] + FreeAddrs(h.blocks[y..])))
  {
    var (A, B) := (FreeAddrs(h.blocks[..x]), FreeAddrs(h.blocks[y..]));
    LinksKept(h, h', p, x, y);
    var q := SegmentCut(h, A, mid + B, h.head, 0);
    SegmentRedirect(h, h', A, h.head, q, h'.head, m);
    SegmentSame(h, h', B, h'.Word(m + 8), 0);
    SegmentJoin(h', [m], B, m, h'.Word(m + 8), 0);
    SegmentJoin(h', A, [m] + B, h'.head, m, 0);
  }

  /** The links of the free blocks outside x .. y - 1 stay, except that of the last one below x. */
  lemma LinksKept(h: Heap, h': Heap, p: int, x: nat, y: nat)
    requires Shaped(h) && x < y <= |h.blocks| && (p == 0 || p == Pred(h.blocks, x))
    requires WritesOnly(h, h', p, h.blocks[x].addr, h.blocks[y - 1].End())
    ensures NextKept(h, h', FreeAddrs(h.blocks[..x]), |FreeAddrs(h.blocks[..x])| - 1)
    ensures NextKept(h, h', FreeAddrs(h.blocks[y..]), |FreeAddrs(h.blocks[y..])|)
    ensures Pred(h.blocks, x) == 0 <==> FreeAddrs(h.blocks[..x]) == []
  {
    var bs := h.blocks;
    var (A, B) := (FreeAddrs(bs[..x]), FreeAddrs(bs[y..]));
    FreeBelow(bs, h.lo, h.hi, x);
    PredBelow(bs, h.lo, h.hi, x);
    if x < y - 1 { Ordered(bs, h.lo, h.hi, x, y - 1); }
    FreeAbove(bs, h.lo, h.hi, y, bs[y - 1].End());
    assert A != [] ==> forall k :: 0 <= k < |A| - 1 ==> A[k] == Init(A)[k];
  }

  // ---- splitting ----

  /** The remainder's header at `s` is written, then the front at `c` is shrunk and unlinked. */
  ghost function SplitWords(h: Heap, c: int, s: int, rest: int, n: int, prev: int): Heap {
    FrontWords(RemainderWords(h, c, s, rest), c, s, n).Link(prev, s)
  }

  ghost function RemainderWords(h: Heap, c: int, s: int, rest: int): Heap {
    h.Write(s, rest).Write(s + 8, h.Word(c + 8))
  }

  ghost function FrontWords(h: Heap, c: int, s: int, n: int): Heap {
    h.Write(c, n).Write(c + 8, s)
  }

  ghost function SplitHeap(h: Heap, i: nat, n: int): Heap
    requires i < |h.blocks|
  {
    var b := h.blocks[i];
    SplitWords(h, b.addr, b.addr + HEADER + n, b.size - HEADER - n, n, Pred(h.blocks, i))
      .(blocks := Split(h.blocks, i, n))
  }

  lemma SplitTiles(bs: seq<Block>, lo: int, hi: int, i: nat, n: int)
    requires Tiles(bs, lo, hi) && i < |bs| && 0 < n && bs[i].size > n + HEADER
    ensures Tiles(Split(bs, i, n), lo, hi)
  {
    var bs' := Split(bs, i, n);
    forall j | 0 <= j < |bs'| - 1 ensures bs'[j + 1].addr == bs'[j].End()
    {
      if j < i { assert bs'[j] == bs[j]; }
      if j > i + 1 { assert bs'[j] == bs[j - 1] && bs'[j + 1] == bs[j]; }
    }
  }

  lemma SplitAligned(bs: seq<Block>, lo: int, i: nat, n: int)
    requires Aligned(bs, lo) && i < |bs| && n % 8 == 0
    ensures Aligned(Split(bs, i, n), lo)
  {
    var bs' := Split(bs, i, n);
    assert (bs[i].addr - lo) % 8 == 0 && (bs[i].addr + HEADER + n - lo) % 8 == 0;
    forall j | 0 <= j < |bs'| ensures (bs'[j].addr - lo) % 8 == 0
    {
      if j < i {
        assert bs'[j] == bs[j];
      } else if j > i + 1 {
        assert bs'[j] == bs[j - 1];
      } else if j == i {
        assert bs'[j].addr == bs[i].addr;
      } else {
        assert bs'[j].addr == bs[i].addr + HEADER + n;
      }
    }
  }

  lemma SplitFree(bs: seq<Block>, i: nat, n: int)
    requires i < |bs|
    ensures FreeAddrs(Split(bs, i, n)) == FreeAddrs(bs[..i]) + ([bs[i].addr + HEADER + n] + FreeAddrs(bs[i + 1..]))
  {
    var bs' := Split(bs, i, n);
    FreeAddrsAt(bs', i + 1);
    assert bs'[..i + 1] == bs[..i] + [bs'[i]] && bs'[i + 2..] == bs[i + 1..];
    FreeAddrsConcat(bs[..i], [bs'[i]]);
    Associative(FreeAddrs(bs[..i]), [bs'[i + 1].addr], FreeAddrs(bs[i + 1..]));
  }

  /** What splitting does to the words, stated without the order of the writes. */
  ghost predicate SplitEffect(h: Heap, h': Heap, i: nat, n: int)
    requires i < |h.blocks|
  {
    var (b, p) := (h.blocks[i], Pred(h.blocks, i));
    var s := b.addr + HEADER + n;
    && h'.blocks == Split(h.blocks, i, n)
    && WritesOnly(h, h', p, b.addr, b.End())
    && h'.Word(b.addr) == n && h'.Word(s) == b.size - HEADER - n && h'.Word(s + 8) == h.Word(b.addr + 8)
    && (if p == 0 then h'.head == s else h'.head == h.head && h'.Word(p + 8) == s)
  }

  lemma SplitWrites(h: Heap, i: nat, n: int)
    requires Shaped(h) && i < |h.blocks| && 0 < n && h.blocks[i].size >= n + 2 * HEADER
    ensures SplitEffect(h, SplitHeap(h, i, n), i, n)
  {
    PredBelow(h.blocks, h.lo, h.hi, i);
    Bounds(h.blocks, h.lo, h.hi, i);
  }

  lemma SplitSizes(h: Heap, h': Heap, i: nat, n: int)
    requires Shaped(h) && SizesStored(h) && i < |h.blocks| && SplitEffect(h, h', i, n)
    ensures SizesStored(h') && KeepsLive(h, h', h.blocks[i].addr)
  {
    var b := h.blocks[i];
    var mid := [Block(b.addr, n, false), Block(b.addr + HEADER + n, b.size - HEADER - n, true)];
    ReplacedSizes(h, h', Pred(h.blocks, i), i, mid, i + 1);
    ReplacedLive(h, h', Pred(h.blocks, i), i, mid, i + 1, b.addr);
  }

  lemma SplitLinks(h: Heap, h': Heap, i: nat, n: int)
    requires Shaped(h) && Linked(h, FreeAddrs(h.blocks))
    requires i < |h.blocks| && h.blocks[i].free && SplitEffect(h, h', i, n)
    ensures Linked(h', FreeAddrs(h'.blocks))
  {
    var b := h.blocks[i];
    SplitFree(h.blocks, i, n);
    LinkAt(h, i);
    Relinked(h, h', Pred(h.blocks, i), i, [b.addr], i + 1, b.addr + HEADER + n);
  }

  lemma SplitKeeps(h: Heap, h': Heap, i: nat, n: int)
    requires WellFormed(h) && i < |h.blocks| && h.blocks[i].free && SplitEffect(h, h', i, n)
    requires 0 < n && n % 8 == 0 && h.blocks[i].size >= n + 2 * HEADER
    ensures WellFormed(h') && KeepsLive(h, h', h.blocks[i].addr)
  {
    SplitTiles(h.blocks, h.lo, h.hi, i, n);
    SplitAligned(h.blocks, h.lo, i, n);
    SplitSizes(h, h', i, n);
    SplitLinks(h, h', i, n);
  }

  /** A free block points to the next free block. */
  lemma LinkAt(h: Heap, i: nat)
    requires Linked(h, FreeAddrs(h.blocks)) && i < |h.blocks| && h.blocks[i].free
    ensures FreeAddrs(h.blocks) == FreeAddrs(h.blocks[..i]) + ([h.blocks[i].addr] + FreeAddrs(h.blocks[i + 1..]))
    ensures Segment(h, FreeAddrs(h.blocks[i + 1..]), h.Word(h.blocks[i].addr + 8), 0)
  {
    var (A, c, B) := (FreeAddrs(h.blocks[..i]), h.blocks[i].addr, FreeAddrs(h.blocks[i + 1..]));
    FreeAddrsAt(h.blocks, i);
    assert A + [c] + B == A + ([c] + B);
    var q := SegmentCut(h, A, [c] + B, h.head, 0);
    assert ([c] + B)[1..] == B;
  }

  lemma {:induction false} SegmentEnd(h: Heap, list: seq<int>, p: int, q: int)
    requires Segment(h, list, p, q) && list != []
    ensures q == h.Word(Last(list) + 8)
  {
    if list[1..] != [] { SegmentEnd(h, list[1..], h.Word(p + 8), q); }
  }

  /** The pointer that leads to the first free block at or after block `i`. */
  ghost function Entry(h: Heap, i: nat): int
    requires i <= |h.blocks|
  {
    if Pred(h.blocks, i) == 0 then h.head else h.Word(Pred(h.blocks, i) + 8)
  }

  lemma EntryAt(h: Heap, i: nat)
    requires Shaped(h) && Linked(h, FreeAddrs(h.blocks)) && i <= |h.blocks|
    ensures FreeAddrs(h.blocks) == FreeAddrs(h.blocks[..i]) + FreeAddrs(h.blocks[i..])
    ensures Segment(h, FreeAddrs(h.blocks[i..]), Entry(h, i), 0)
  {
    var (A, B) := (FreeAddrs(h.blocks[..i]), FreeAddrs(h.blocks[i..]));
    assert h.blocks == h.blocks[..i] + h.blocks[i..];
    FreeAddrsConcat(h.blocks[..i], h.blocks[i..]);
    var q := SegmentCut(h, A, B, h.head, 0);
    var p := PredIndex(h.blocks, i);
    if p >= 0 {
      Bounds(h.blocks, h.lo, h.hi, p);
      SegmentEnd(h, A, h.head, q);
    }
  }

  // ---- releasing ----

  /** The block's predecessor in the list, or the head, points to it; it points to what they pointed to. */
  ghost function ReleaseHeap(h: Heap, i: nat): Heap
    requires i < |h.blocks|
  {
    var t := h.blocks[i].addr;
    h.Link(Pred(h.blocks, i), t).Write(t + 8, Entry(h, i)).(blocks := Release(h.blocks, i))
  }

  ghost predicate ReleaseEffect(h: Heap, h': Heap, i: nat)
    requires i < |h.blocks|
  {
    var (b, p) := (h.blocks[i], Pred(h.blocks, i));
    && h'.blocks == Release(h.blocks, i)
    && WritesOnly(h, h', p, b.addr, b.End())
    && h'.Word(b.addr) == h.Word(b.addr) && h'.Word(b.addr + 8) == Entry(h, i)
    && (forall a :: b.addr + HEADER <= a < b.End() ==> h'.Word(a) == h.Word(a))
    && (if p == 0 then h'.head == b.addr else h'.head == h.head && h'.Word(p + 8) == b.addr)
  }

  lemma ReleaseWrites(h: Heap, i: nat)
    requires Shaped(h) && i < |h.blocks|
    ensures ReleaseEffect(h, ReleaseHeap(h, i), i)
  {
    PredBelow(h.blocks, h.lo, h.hi, i);
    Bounds(h.blocks, h.lo, h.hi, i);
  }

  lemma ReleaseSizes(h: Heap, h': Heap, i: nat)
    requires Shaped(h) && SizesStored(h) && i < |h.blocks| && ReleaseEffect(h, h', i)
    ensures SizesStored(h') && KeepsLive(h, h', h.blocks[i].addr)
  {
    ReplacedSizes(h, h', Pred(h.blocks, i), i, [h.blocks[i].(free := true)], i + 1);
    ReplacedLive(h, h', Pred(h.blocks, i), i, [h.blocks[i].(free := true)], i + 1, h.blocks[i].addr);
  }

  lemma ReleaseTiles(bs: seq<Block>, lo: int, hi: int, i: nat)
    requires Tiles(bs, lo, hi) && i < |bs|
    ensures Tiles(Release(bs, i), lo, hi)
    ensures Aligned(bs, lo) ==> Aligned(Release(bs, i), lo)
  {
    var bs' := Release(bs, i);
    assert forall j :: 0 <= j < |bs| ==> bs'[j].addr == bs[j].addr && bs'[j].size == bs[j].size;
  }

  lemma ReleaseFree(bs: seq<Block>, i: nat)
    requires i < |bs|
    ensures FreeAddrs(Release(bs, i)) == FreeAddrs(bs[..i]) + ([bs[i].addr] + FreeAddrs(bs[i + 1..]))
  {
    var (bs', A, B) := (Release(bs, i), FreeAddrs(bs[..i]), FreeAddrs(bs[i + 1..]));
    assert bs'[..i] == bs[..i] && bs'[i + 1..] == bs[i + 1..];
    FreeAddrsAt(bs', i);
    assert A + [bs[i].addr] + B == A + ([bs[i].addr] + B);
  }

  lemma ReleaseLinks(h: Heap, h': Heap, i: nat)
    requires Shaped(h) && Linked(h, FreeAddrs(h.blocks))
    requires i < |h.blocks| && !h.blocks[i].free && ReleaseEffect(h, h', i)
    ensures Linked(h', FreeAddrs(h'.blocks))
  {
    var bs := h.blocks;
    EntryAt(h, i);
    ReleaseFree(bs, i);
    assert bs[i..][1..] == bs[i + 1..];
    assert [] + FreeAddrs(bs[i + 1..]) == FreeAddrs(bs[i + 1..]);
    Relinked(h, h', Pred(bs, i), i, [], i + 1, bs[i].addr);
  }

  lemma ReleaseKeeps(h: Heap, h': Heap, i: nat)
    requires WellFormed(h) && i < |h.blocks| && !h.blocks[i].free && ReleaseEffect(h, h', i)
    ensures WellFormed(h') && KeepsLive(h, h', h.blocks[i].addr)
  {
    ReleaseTiles(h.blocks, h.lo, h.hi, i);
    ReleaseSizes(h, h', i);
    ReleaseLinks(h, h', i);
  }

  // ---- merging two adjacent free blocks ----

  ghost function MergeHeap(h: Heap, i: nat): Heap
    requires i + 1 < |h.blocks|
  {
    var (t, c) := (h.blocks[i].addr, h.blocks[i + 1].addr);
    h.Write(t, h.Word(t) + (h.Word(c) + HEADER)).Write(t + 8, h.Word(c + 8)).(blocks := Merge(h.blocks, i))
  }

  ghost predicate MergeEffect(h: Heap, h': Heap, i: nat)
    requires i + 1 < |h.blocks|
  {
    var (t, c) := (h.blocks[i], h.blocks[i + 1]);
    && h'.blocks == Merge(h.blocks, i) && h'.head == h.head
    && WritesOnly(h, h', 0, t.addr, t.addr + HEADER)
    && h'.Word(t.addr) == t.size + HEADER + c.size && h'.Word(t.addr + 8) == h.Word(c.addr + 8)
  }

  lemma MergeWrites(h: Heap, i: nat)
    requires Shaped(h) && SizesStored(h) && i + 1 < |h.blocks|
    ensures MergeEffect(h, MergeHeap(h, i), i)
  {
    Bounds(h.blocks, h.lo, h.hi, i);
  }

  lemma MergeTiles(bs: seq<Block>, lo: int, hi: int, i: nat)
    requires Tiles(bs, lo, hi) && i + 1 < |bs|
    ensures Tiles(Merge(bs, i), lo, hi)
    ensures Aligned(bs, lo) ==> Aligned(Merge(bs, i), lo)
  {
    var bs' := Merge(bs, i);
    forall j | 0 <= j < |bs'| - 1 ensures bs'[j + 1].addr == bs'[j].End()
    {
      if j < i { assert bs'[j] == bs[j]; }
      else { assert bs'[j + 1] == bs[j + 2]; }
    }
  }

  lemma MergeSizes(h: Heap, h': Heap, i: nat)
    requires Shaped(h) && SizesStored(h) && i + 1 < |h.blocks| && MergeEffect(h, h', i)
    requires h.blocks[i].free && h.blocks[i + 1].free
    ensures SizesStored(h') && KeepsLive(h, h', 0)
  {
    var (t, c) := (h.blocks[i], h.blocks[i + 1]);
    ReplacedSizes(h, h', 0, i, [Block(t.addr, t.size + HEADER + c.size, true)], i + 2);
    ReplacedLive(h, h', 0, i, [Block(t.addr, t.size + HEADER + c.size, true)], i + 2, 0);
  }

  lemma MergeFree(bs: seq<Block>, i: nat)
    requires i + 1 < |bs|
    ensures FreeAddrs(Merge(bs, i)) == FreeAddrs(bs[..i]) + ([bs[i].addr] + FreeAddrs(bs[i + 2..]))
  {
    var bs' := Merge(bs, i);
    FreeAddrsAt(bs', i);
    assert bs'[..i] == bs[..i] && bs'[i + 1..] == bs[i + 2..];
    var (A, B) := (FreeAddrs(bs[..i]), FreeAddrs(bs[i + 2..]));
    assert A + [bs[i].addr] + B == A + ([bs[i].addr] + B);
  }

  lemma MergeLinks(h: Heap, h': Heap, i: nat)
    requires Shaped(h) && Linked(h, FreeAddrs(h.blocks)) && i + 1 < |h.blocks| && MergeEffect(h, h', i)
    requires h.blocks[i].free && h.blocks[i + 1].free
    ensures Linked(h', FreeAddrs(h'.blocks))
  {
    var bs := h.blocks;
    var (t, c, B) := (bs[i].addr, bs[i + 1].addr, FreeAddrs(bs[i + 2..]));
    EntryAt(h, i);
    assert bs[i..][1..] == bs[i + 1..] && bs[i + 1..][1..] == bs[i + 2..];
    assert FreeAddrs(bs[i + 1..]) == [c] + B;
    assert FreeAddrs(bs[i..]) == [t] + ([c] + B) == [t, c] + B;
    assert ([t] + ([c] + B))[1..] == [c] + B;
    PredBelow(bs, h.lo, h.hi, i);
    LinkAt(h, i + 1);
    MergeFree(bs, i);
    Relinked(h, h', 0, i, [t, c], i + 2, t);
  }

  lemma MergeKeeps(h: Heap, h': Heap, i: nat)
    requires WellFormed(h) && i + 1 < |h.blocks| && h.blocks[i].free && h.blocks[i + 1].free && MergeEffect(h, h', i)
    ensures WellFormed(h') && KeepsLive(h, h', 0)
  {
    MergeTiles(h.blocks, h.lo, h.hi, i);
    MergeSizes(h, h', i);
    MergeLinks(h, h', i);
  }
}
