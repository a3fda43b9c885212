/** Disk images of the defragmenter at the level of inodes and data blocks, and what it means
    for a destination to hold the same files as a source. */
module DiskImage {
  import opened Basics

  // the contents of a data block as 32-bit words
  type Words = seq<int>
  type Blocks = map<int, Words>

  /** `meta` stands for the eight inode fields that are copied untouched; an inode has ten
      direct block numbers and four indirect ones. */
  datatype Inode = Inode(meta: seq<int>, nlink: int, dblocks: seq<int>, iblocks: seq<int>, i2block: int, i3block: int)

  const ZERO_INODE := Inode([0, 0, 0, 0, 0, 0, 0, 0], 0, [0, 0, 0, 0, 0, 0, 0, 0, 0, 0], [0, 0, 0, 0], 0, 0)

  /** Number of entries of a block list before its first 0. */
  ghost function Used(s: seq<int>): (n: nat)
    ensures n <= |s|
    ensures forall i :: 0 <= i < n ==> s[i] != 0
    ensures n < |s| ==> s[n] == 0
  {
    if s == [] || s[0] == 0 then 0 else Used(s[1..]) + 1
  }

  /** The distinct numbers of `list` are exactly those in [a, e). */
  ghost predicate Fills(list: seq<int>, a: int, e: int) {
    && a <= e && |list| == e - a
    && (forall i, j :: 0 <= i < j < |list| ==> Differ(list, i, j))
    && (forall i :: 0 <= i < |list| ==> a <= list[i] < e)
  }

  ghost predicate Differ(list: seq<int>, i: int, j: int)
    requires 0 <= i < |list| && 0 <= j < |list|
  {
    list[i] != list[j]
  }

  lemma FillsJoin(l: seq<int>, m: seq<int>, a: int, b: int, e: int)
    requires Fills(l, a, b) && Fills(m, b, e)
    ensures Fills(l + m, a, e)
  {
    forall i, j | 0 <= i < j < |l + m| ensures Differ(l + m, i, j)
    {
      if j < |l| {
        assert Differ(l, i, j);
      } else if i >= |l| {
        assert Differ(m, i - |l|, j - |l|);
      }
    }
  }

  /** A list of the right length without repetitions reaches every number. */
  lemma FillsAll(list: seq<int>, a: int, e: int, x: int)
    requires Fills(list, a, e) && a <= x < e
    ensures x in list
  {
    var (s, range) := (Members(list), Range(a, e));
    assert range == s + (range - s);
    assert |range - s| == 0;
    assert x in range && x !in range - s;
  }

  ghost function Members(list: seq<int>): (s: set<int>)
    ensures forall x :: x in s <==> x in list
    ensures (forall i, j :: 0 <= i < j < |list| ==> Differ(list, i, j)) ==> |s| == |list|
  {
    if list == [] then {} else
      assert forall i, j :: 0 <= i < j < |list| - 1 && Differ(list, i + 1, j + 1) ==> Differ(list[1..], i, j);
      assert forall j :: 0 < j < |list| && Differ(list, 0, j) ==> list[j] != list[0];
      Members(list[1..]) + {list[0]}
  }

  ghost function Range(a: int, e: int): (s: set<int>)
    ensures forall x :: x in s <==> a <= x < e
    ensures a <= e ==> |s| == e - a
    decreases e - a
  {
    if a >= e then {} else Range(a, e - 1) + {e - 1}
  }

  // ---- block trees that exist in an image ----

  ghost predicate LeavesExist(src: Blocks, list: seq<int>) {
    forall i :: 0 <= i < Used(list) ==> list[i] in src
  }

  ghost predicate IndirectExists(src: Blocks, b: int) {
    b in src && LeavesExist(src, src[b])
  }

  ghost predicate IndirectsExist(src: Blocks, list: seq<int>) {
    forall i :: 0 <= i < Used(list) ==> IndirectExists(src, list[i])
  }

  ghost predicate DoublyExists(src: Blocks, b: int) {
    b != 0 ==> b in src && IndirectsExist(src, src[b])
  }

  ghost predicate FileExists(src: Blocks, node: Inode) {
    && LeavesExist(src, node.dblocks) && IndirectsExist(src, node.iblocks)
    && DoublyExists(src, node.i2block) && DoublyExists(src, node.i3block)
  }

  // ---- the same tree in another image, using only block numbers in [lo, hi) ----

  /** Entry i of `list'` names in `dst` a copy of the block that entry i of `list` names in `src`. */
  ghost predicate SameLeaves(src: Blocks, dst: Blocks, list: seq<int>, list': seq<int>, n: nat, lo: int, hi: int) {
    && n <= |list| == |list'|
    && (forall i :: 0 <= i < n ==>
      lo <= list'[i] < hi && list[i] in src && list'[i] in dst && dst[list'[i]] == src[list[i]])
    && (forall i :: n <= i < |list| ==> list'[i] == list[i])
  }

  ghost predicate SameIndirect(src: Blocks, dst: Blocks, b: int, b': int, lo: int, hi: int) {
    && lo <= b' < hi && b in src && b' in dst
    && SameLeaves(src, dst, src[b], dst[b'], Used(src[b]), lo, hi)
  }

  ghost predicate SameIndirects(src: Blocks, dst: Blocks, list: seq<int>, list': seq<int>, n: nat, lo: int, hi: int) {
    && n <= |list| == |list'|
    && (forall i :: 0 <= i < n ==> SameEntry(src, dst, list, list', i, lo, hi))
    && (forall i :: n <= i < |list| ==> list'[i] == list[i])
  }

  ghost predicate SameEntry(src: Blocks, dst: Blocks, list: seq<int>, list': seq<int>, i: nat, lo: int, hi: int)
    requires i < |list| == |list'|
  {
    SameIndirect(src, dst, list[i], list'[i], lo, hi)
  }

  ghost predicate SameDoubly(src: Blocks, dst: Blocks, b: int, b': int, lo: int, hi: int) {
    if b == 0 then b' == 0
    else
      && lo <= b' < hi && b in src && b' in dst
      && SameIndirects(src, dst, src[b], dst[b'], Used(src[b]), lo, hi)
  }

  /** `node'` in `dst` has the contents of `node` in `src`, slot by slot over the slots `node`
      uses.  The tree under `i3block` is compared to depth two only, as deep as it is copied. */
  ghost predicate SameFile(src: Blocks, dst: Blocks, node: Inode, node': Inode, lo: int, hi: int) {
    && node'.meta == node.meta && node'.nlink == node.nlink
    && SameLeaves(src, dst, node.dblocks, node'.dblocks, Used(node.dblocks), lo, hi)
    && SameIndirects(src, dst, node.iblocks, node'.iblocks, Used(node.iblocks), lo, hi)
    && SameDoubly(src, dst, node.i2block, node'.i2block, lo, hi)
    && SameDoubly(src, dst, node.i3block, node'.i3block, lo, hi)
  }

  /** The two images agree on the blocks in [lo, hi). */
  ghost predicate Agree(d: Blocks, d': Blocks, lo: int, hi: int) {
    forall b :: lo <= b < hi && b in d ==> b in d' && d'[b] == d[b]
  }

  lemma IndirectMonotone(src: Blocks, dst: Blocks, dst': Blocks, b: int, b': int, lo: int, hi: int, hi': int)
    requires SameIndirect(src, dst, b, b', lo, hi) && Agree(dst, dst', lo, hi) && hi <= hi'
    ensures SameIndirect(src, dst', b, b', lo, hi')
  {}

  lemma IndirectsMonotone(src: Blocks, dst: Blocks, dst': Blocks, list: seq<int>, list': seq<int>, n: nat,
                          lo: int, hi: int, hi': int)
    requires SameIndirects(src, dst, list, list', n, lo, hi) && Agree(dst, dst', lo, hi) && hi <= hi'
    ensures SameIndirects(src, dst', list, list', n, lo, hi')
  {
    forall i | 0 <= i < n ensures SameEntry(src, dst', list, list', i, lo, hi')
    {
      assert SameEntry(src, dst, list, list', i, lo, hi);
      IndirectMonotone(src, dst, dst', list[i], list'[i], lo, hi, hi');
    }
  }

  lemma DoublyMonotone(src: Blocks, dst: Blocks, dst': Blocks, b: int, b': int, lo: int, hi: int, hi': int)
    requires SameDoubly(src, dst, b, b', lo, hi) && Agree(dst, dst', lo, hi) && hi <= hi'
    ensures SameDoubly(src, dst', b, b', lo, hi')
  {
    if b != 0 {
      IndirectsMonotone(src, dst, dst', src[b], dst[b'], Used(src[b]), lo, hi, hi');
    }
  }

  /** Blocks written outside a file's range leave the file as it is. */
  lemma FileMonotone(src: Blocks, dst: Blocks, dst': Blocks, node: Inode, node': Inode, lo: int, hi: int)
    requires SameFile(src, dst, node, node', lo, hi) && Agree(dst, dst', lo, hi)
    ensures SameFile(src, dst', node, node', lo, hi)
  {
    IndirectsMonotone(src, dst, dst', node.iblocks, node'.iblocks, Used(node.iblocks), lo, hi, hi);
    DoublyMonotone(src, dst, dst', node.i2block, node'.i2block, lo, hi, hi);
    DoublyMonotone(src, dst, dst', node.i3block, node'.i3block, lo, hi, hi);
  }

  /** Nothing below `lo` was added, removed or changed. */
  ghost predicate SameBelow(d: Blocks, d': Blocks, lo: int) {
    forall b :: b < lo ==> (b in d <==> b in d') && (b in d ==> d'[b] == d[b])
  }

  /** Nothing from `hi` on was added, removed or changed. */
  ghost predicate SameAbove(d: Blocks, d': Blocks, hi: int) {
    forall b :: b >= hi ==> (b in d <==> b in d') && (b in d ==> d'[b] == d[b])
  }

  lemma AboveJoin(d: Blocks, d1: Blocks, d2: Blocks, h1: int, h2: int)
    requires SameAbove(d, d1, h1) && SameAbove(d1, d2, h2) && h1 <= h2
    ensures SameAbove(d, d2, h2)
  {}

  // ---- how many blocks a tree has ----

  ghost function At(src: Blocks, b: int): Words {
    if b in src then src[b] else []
  }

  ghost function UsedIn(src: Blocks, b: int): nat {
    Used(At(src, b))
  }

  ghost function IndirectsCount(src: Blocks, list: seq<int>, n: nat): nat {
    if n == 0 then 0
    else IndirectsCount(src, list, n - 1) + if n <= |list| then 1 + UsedIn(src, list[n - 1]) else 0
  }

  ghost function DoublyCount(src: Blocks, b: int): nat {
    if b == 0 || b !in src then 0 else IndirectsCount(src, src[b], Used(src[b])) + 1
  }

  ghost function FileCount(src: Blocks, node: Inode): nat {
    Used(node.dblocks) + IndirectsCount(src, node.iblocks, Used(node.iblocks))
    + DoublyCount(src, node.i2block) + DoublyCount(src, node.i3block)
  }

  // ---- which numbers a tree has in the destination ----

  // A tree in `dst` is read over the slots its source uses: the numbers in those slots, each
  // pointer block after the blocks it names.

  ghost function IndirectNumbers(src: Blocks, dst: Blocks, b: int, b': int): seq<int> {
    Take(At(dst, b'), UsedIn(src, b)) + [b']
  }

  ghost function IndirectsNumbers(src: Blocks, dst: Blocks, list: seq<int>, list': seq<int>, n: nat): seq<int> {
    if n == 0 then [] else IndirectsNumbers(src, dst, list, list', n - 1) + LastNumbers(src, dst, list, list', n)
  }

  ghost function LastNumbers(src: Blocks, dst: Blocks, list: seq<int>, list': seq<int>, n: nat): seq<int> {
    if 0 < n <= |list| && n <= |list'| then IndirectNumbers(src, dst, list[n - 1], list'[n - 1]) else []
  }

  ghost function DoublyNumbers(src: Blocks, dst: Blocks, b: int, b': int): seq<int> {
    if b == 0 then [] else IndirectsNumbers(src, dst, At(src, b), At(dst, b'), UsedIn(src, b)) + [b']
  }

  ghost function FileNumbers(src: Blocks, dst: Blocks, node: Inode, node': Inode): seq<int> {
    Take(node'.dblocks, Used(node.dblocks))
    + IndirectsNumbers(src, dst, node.iblocks, node'.iblocks, Used(node.iblocks))
    + DoublyNumbers(src, dst, node.i2block, node'.i2block)
    + DoublyNumbers(src, dst, node.i3block, node'.i3block)
  }

  /** The non-empty pointer blocks among the first n of `list'` lie below `hi`. */
  ghost predicate IndirectsBelow(src: Blocks, list: seq<int>, list': seq<int>, n: nat, hi: int) {
    forall i :: 0 <= i < n && i < |list| && i < |list'| && UsedIn(src, list[i]) > 0 ==> list'[i] < hi
  }

  ghost predicate DoublyBelow(src: Blocks, dst: Blocks, b: int, b': int, hi: int) {
    b == 0 || (b' < hi && IndirectsBelow(src, At(src, b), At(dst, b'), UsedIn(src, b), hi))
  }

  ghost predicate FileBelow(src: Blocks, dst: Blocks, node: Inode, node': Inode, hi: int) {
    && IndirectsBelow(src, node.iblocks, node'.iblocks, Used(node.iblocks), hi)
    && DoublyBelow(src, dst, node.i2block, node'.i2block, hi)
    && DoublyBelow(src, dst, node.i3block, node'.i3block, hi)
  }

  lemma IndirectNumbersKept(src: Blocks, dst: Blocks, dst': Blocks, b: int, b': int, hi: int)
    requires (UsedIn(src, b) > 0 ==> b' < hi) && SameBelow(dst, dst', hi)
    ensures IndirectNumbers(src, dst', b, b') == IndirectNumbers(src, dst, b, b')
  {
    if UsedIn(src, b) == 0 {
      assert Take(At(dst, b'), 0) == Take(At(dst', b'), 0) == [];
    }
  }

  /** Writes from `hi` on leave the numbers of a tree below `hi` as they are. */
  lemma {:induction false} IndirectsNumbersKept(src: Blocks, dst: Blocks, dst': Blocks,
                                               list: seq<int>, list': seq<int>, n: nat, hi: int)
    requires IndirectsBelow(src, list, list', n, hi) && SameBelow(dst, dst', hi)
    ensures IndirectsNumbers(src, dst', list, list', n) == IndirectsNumbers(src, dst, list, list', n)
  {
    if n > 0 {
      IndirectsNumbersKept(src, dst, dst', list, list', n - 1, hi);
      if n <= |list| && n <= |list'| {
        IndirectNumbersKept(src, dst, dst', list[n - 1], list'[n - 1], hi);
      }
    }
  }

  lemma DoublyNumbersKept(src: Blocks, dst: Blocks, dst': Blocks, b: int, b': int, hi: int)
    requires DoublyBelow(src, dst, b, b', hi) && SameBelow(dst, dst', hi)
    ensures DoublyNumbers(src, dst', b, b') == DoublyNumbers(src, dst, b, b')
    ensures DoublyBelow(src, dst', b, b', hi)
  {
    if b != 0 {
      IndirectsNumbersKept(src, dst, dst', At(src, b), At(dst, b'), UsedIn(src, b), hi);
    }
  }

  lemma FileNumbersKept(src: Blocks, dst: Blocks, dst': Blocks, node: Inode, node': Inode, hi: int)
    requires FileBelow(src, dst, node, node', hi) && SameBelow(dst, dst', hi)
    ensures FileNumbers(src, dst', node, node') == FileNumbers(src, dst, node, node')
    ensures FileBelow(src, dst', node, node', hi)
  {
    IndirectsNumbersKept(src, dst, dst', node.iblocks, node'.iblocks, Used(node.iblocks), hi);
    DoublyNumbersKept(src, dst, dst', node.i2block, node'.i2block, hi);
    DoublyNumbersKept(src, dst, dst', node.i3block, node'.i3block, hi);
  }

  /** The numbers depend only on the list entries read. */
  lemma {:induction false} IndirectsNumbersPrefix(src: Blocks, dst: Blocks, list: seq<int>,
                                                 list': seq<int>, list'': seq<int>, n: nat)
    requires n <= |list'| == |list''| && forall i :: 0 <= i < n ==> list''[i] == list'[i]
    ensures IndirectsNumbers(src, dst, list, list'', n) == IndirectsNumbers(src, dst, list, list', n)
  {
    if n > 0 { IndirectsNumbersPrefix(src, dst, list, list', list'', n - 1); }
  }
}
