/** Consequences of the defragmenter's contracts for whole disks, and where the code as
    written (`reserve` false) falls short. */
module DefragLaws {
  import opened Basics
  import opened DiskImage
  import opened Defrag

  // ---- handle_indirect_blocks as written ----

  /** As written, the pointer block lands on its first child's copy: the children after the
      first come out right, and slot 0 leads back to the pointer block itself. */
  lemma AsWrittenSlots(src: Blocks, dst: Blocks, words: Words, c: int)
    requires LeavesExist(src, words) && Used(words) > 0
    ensures var (d', u) := (Indirected(src, dst, words, c, false), Used(words));
      && NamesFrom(words, d'[c], u, c) && d'[c][0] == c
      && forall j :: 0 < j < u ==> d'[c][j] in d' && d'[d'[c][j]] == src[words[j]]
  {
    var (d', u) := (Indirected(src, dst, words, c, false), Used(words));
    Copied(src, dst, words, u, c);
    forall j | 0 < j < u ensures d'[c][j] in d' && d'[d'[c][j]] == src[words[j]]
    {
      var n := c + j;
      assert d'[c][j] == n && n in CopyChildren(src, dst, words, u, c);
    }
  }

  /** So a non-empty pointer block survives exactly when its first child already holds the
      very words that overwrite it. */
  lemma AsWrittenExactly(src: Blocks, dst: Blocks, b: int, c: int)
    requires IndirectExists(src, b) && Used(src[b]) > 0
    ensures SameIndirect(src, Indirected(src, dst, src[b], c, false), b, c, c, c + Used(src[b]))
       <==> NamesFrom(src[b], src[src[b][0]], Used(src[b]), c)
  {
    var (d', u) := (Indirected(src, dst, src[b], c, false), Used(src[b]));
    AsWrittenSlots(src, dst, src[b], c);
    assert forall j :: 0 <= j < u ==> d'[c][j] == c + j;
    assert forall j :: u <= j < |src[b]| ==> d'[c][j] == src[b][j];
  }

  /** An empty pointer block comes out right at first, but its number c is handed out again:
      it survives the next pointer block exactly when that one is stored as the same words. */
  lemma AsWrittenEmpty(src: Blocks, dst: Blocks, b: int, next: int, c: int)
    requires IndirectExists(src, b) && Used(src[b]) == 0 && IndirectExists(src, next)
    ensures var d := Indirected(src, dst, src[b], c, false);
      var d' := Indirected(src, d, src[next], c, false);
      && SameIndirect(src, d, b, c, c, c + 1)
      && (SameIndirect(src, d', b, c, c, c + 1) <==> NamesFrom(src[next], src[b], Used(src[next]), c))
  {
    var d' := Indirected(src, Indirected(src, dst, src[b], c, false), src[next], c, false);
    assert d'[c] == Renumber(src[next], Used(src[next]), c);
    assert Renumber(src[b], 0, c) == src[b];
  }

  /** Pointer block 5 names block 7, whose contents are lost. */
  lemma AsWrittenLosesChild()
    ensures var src: Blocks := map[5 := [7, 0], 7 := [42, 42]];
      && IndirectExists(src, 5)
      && !SameIndirect(src, Indirected(src, map[], src[5], 3, false), 5, 3, 3, 4)
      && SameIndirect(src, Indirected(src, map[], src[5], 3, true), 5, 3, 3, 5)
  {
    var src: Blocks := map[5 := [7, 0], 7 := [42, 42]];
    assert Used([7, 0]) == 1;
    AsWrittenExactly(src, map[], 5, 3);
    assert Renumber(src[5], 1, 3)[0] == 3;
    IndirectSame(src, map[], 5, 3);
  }

  // ---- number 0 ----

  /** Read with the convention that 0 means "no block", a file's direct list keeps its length
      exactly when the file does not start at number 0 or has no direct blocks: the first file
      of every destination that has any is cut off at once. */
  lemma ZeroEndsTheList(list: seq<int>, list': seq<int>, start: int)
    requires |list'| == |list| && Consecutive(list', Used(list), start) && start >= 0
    requires forall i :: Used(list) <= i < |list| ==> list'[i] == list[i]
    ensures Used(list') == Used(list) <==> start != 0 || Used(list) == 0
  {
    if start != 0 || Used(list) == 0 {
      UsedIs(list', Used(list));
    } else {
      UsedIs(list', 0);
    }
  }

  lemma UsedIs(list: seq<int>, n: nat)
    requires n <= |list| && (forall i :: 0 <= i < n ==> list[i] != 0) && (n < |list| ==> list[n] == 0)
    ensures Used(list) == n
  {}

  // ---- whole disks ----

  ghost function DiskCount(s: Source, n: nat): nat
    requires n <= |s.inodes|
  {
    if n == 0 then 0
    else DiskCount(s, n - 1) + if s.inodes[n - 1].nlink == 0 then 0 else FileCount(s.data, s.inodes[n - 1])
  }

  /** Every used inode of the disk is one that the mode at hand moves correctly. */
  ghost predicate AllSound(s: Source, reserve: bool) {
    forall k :: 0 <= k < |s.inodes| && s.inodes[k].nlink != 0 ==> Sound(s, reserve, k)
  }

  ghost predicate DirectOnly(node: Inode) {
    Used(node.iblocks) == 0 && node.i2block == 0 && node.i3block == 0
  }

  /** Repaired, every disk is sound; as written, every disk without pointer blocks is. */
  lemma SoundDisks(s: Source, reserve: bool)
    requires reserve || forall k :: 0 <= k < |s.inodes| && s.inodes[k].nlink != 0 ==> DirectOnly(s.inodes[k])
    ensures AllSound(s, reserve)
  {}

  /** In either mode the inodes before n take the numbers below DiskSpan. */
  ghost function DiskSpan(s: Source, reserve: bool, n: nat): nat
    requires n <= |s.inodes|
  {
    if n == 0 then 0 else DiskSpan(s, reserve, n - 1) + InodeSpan(s, reserve, n - 1)
  }

  ghost function InodeSpan(s: Source, reserve: bool, k: nat): nat
    requires k < |s.inodes|
  {
    if s.inodes[k].nlink == 0 then 0 else Span(s.data, reserve, s.inodes[k])
  }

  lemma InodeRange(s: Source, reserve: bool, dst: Blocks, k: nat, node': Inode, lo: int, hi: int)
    requires k < |s.inodes| && InodeMoved(s, reserve, dst, k, node', lo, hi)
    ensures hi == lo + InodeSpan(s, reserve, k)
    ensures Sound(s, reserve, k) ==> hi == lo + FileCount(s.data, s.inodes[k])
  {}

  lemma {:induction false} RangesAreSpans(s: Source, reserve: bool, dst: Blocks, list: seq<Inode>, starts: seq<int>,
                                         n: nat)
    requires DiskMoved(s, reserve, dst, list, starts, |s.inodes|) && starts[0] == 0 && n <= |s.inodes|
    ensures starts[n] == DiskSpan(s, reserve, n)
  {
    if n > 0 {
      RangesAreSpans(s, reserve, dst, list, starts, n - 1);
      InodeRange(s, reserve, dst, n - 1, list[n - 1], starts[n - 1], starts[n]);
    }
  }

  /** On a sound disk these are the block counts of the files. */
  lemma {:induction false} RangesAreCounts(s: Source, reserve: bool, dst: Blocks, list: seq<Inode>, starts: seq<int>,
                                          n: nat)
    requires DiskMoved(s, reserve, dst, list, starts, |s.inodes|) && starts[0] == 0
    requires AllSound(s, reserve) && n <= |s.inodes|
    ensures starts[n] == DiskCount(s, n)
  {
    if n > 0 {
      RangesAreCounts(s, reserve, dst, list, starts, n - 1);
      InodeRange(s, reserve, dst, n - 1, list[n - 1], starts[n - 1], starts[n]);
    }
  }

  ghost predicate FilePacked(s: Source, dst: Blocks, list: seq<Inode>, k: nat)
    requires k < |s.inodes| && k < |list|
  {
    && SameFile(s.data, dst, s.inodes[k], list[k], DiskCount(s, k), DiskCount(s, k + 1))
    && Consecutive(list[k].dblocks, Used(s.inodes[k].dblocks), DiskCount(s, k))
    && Fills(FileNumbers(s.data, dst, s.inodes[k], list[k]), DiskCount(s, k), DiskCount(s, k + 1))
  }

  // ---- the inode table ----

  /** In either mode, lost children or not: an inode of the destination is free exactly when the
      source's is, and then all its fields are 0; otherwise its fields are the source's and its
      direct blocks read the same, at consecutive numbers. */
  lemma InodeTable(s: Source, reserve: bool, dst: Blocks, list: seq<Inode>, starts: seq<int>, k: nat)
    requires DiskMoved(s, reserve, dst, list, starts, |s.inodes|) && k < |s.inodes|
    ensures |list| == |s.inodes| && (list[k].nlink == 0 <==> s.inodes[k].nlink == 0)
    ensures list[k].nlink == 0 ==>
      && list[k].dblocks == [0, 0, 0, 0, 0, 0, 0, 0, 0, 0] && list[k].iblocks == [0, 0, 0, 0]
      && list[k].i2block == 0 && list[k].i3block == 0 && list[k].meta == [0, 0, 0, 0, 0, 0, 0, 0]
    ensures list[k].nlink != 0 ==>
      && list[k].nlink == s.inodes[k].nlink && list[k].meta == s.inodes[k].meta
      && |list[k].dblocks| == |s.inodes[k].dblocks|
      && (forall i :: 0 <= i < Used(s.inodes[k].dblocks) ==> DirectCopied(s, dst, list, starts, k, i))
      && (forall i :: Used(s.inodes[k].dblocks) <= i < |list[k].dblocks| ==>
        list[k].dblocks[i] == s.inodes[k].dblocks[i])
  {
    assert InodeMoved(s, reserve, dst, k, list[k], starts[k], starts[k + 1]);
  }

  /** Direct block i of inode k has number starts[k] + i and the contents it had in the source. */
  ghost predicate DirectCopied(s: Source, dst: Blocks, list: seq<Inode>, starts: seq<int>, k: nat, i: nat)
    requires k < |s.inodes| && k < |list| && k < |starts| && i < |s.inodes[k].dblocks| && i < |list[k].dblocks|
  {
    var (n, n') := (s.inodes[k].dblocks[i], list[k].dblocks[i]);
    n' == starts[k] + i && n in s.data && n' in dst && dst[n'] == s.data[n]
  }

  /** As written, on the whole disk: entry i of the pointer blocks of inode k gets the number after
      the direct blocks and the children of the entries before it; a non-empty pointer block there
      names itself first and then its other children, which have their source contents. */
  lemma PointersLand(s: Source, dst: Blocks, list: seq<Inode>, starts: seq<int>, k: nat, i: nat)
    requires DiskMoved(s, false, dst, list, starts, |s.inodes|) && k < |s.inodes| && s.inodes[k].nlink != 0
    requires i < Used(s.inodes[k].iblocks)
    ensures i < |list[k].iblocks|
    ensures var (node, n') := (s.inodes[k], list[k].iblocks[i]);
      && n' == starts[k] + Used(node.dblocks) + LeafCount(s.data, node.iblocks, i)
      && TreeLanded(s.data, dst, node.iblocks[i], n')
  {
    assert InodeMoved(s, false, dst, k, list[k], starts[k], starts[k + 1]);
    assert EntryLanded(s.data, dst, s.inodes[k].iblocks, list[k].iblocks, i,
                       IndirectsStart(s.inodes[k], starts[k]), DoublyStart(s.data, s.inodes[k], starts[k]));
    LandedTree(s.data, dst, s.inodes[k].iblocks[i], list[k].iblocks[i]);
  }

  ghost predicate TreeLanded(src: Blocks, dst: Blocks, b: int, c: int) {
    var words := At(src, b);
    UsedIn(src, b) > 0 ==>
      && c in dst && |dst[c]| == |words| && dst[c][0] == c
      && (forall j :: 0 < j < UsedIn(src, b) ==>
        dst[c][j] == c + j && words[j] in src && c + j in dst && dst[c + j] == src[words[j]])
      && (forall j :: UsedIn(src, b) <= j < |words| ==> dst[c][j] == words[j])
  }

  lemma LandedTree(src: Blocks, dst: Blocks, b: int, c: int)
    requires LandedAt(src, dst, b, c)
    ensures TreeLanded(src, dst, b, c)
  {
    if UsedIn(src, b) > 0 {
      forall j | 0 < j < UsedIn(src, b)
        ensures At(src, b)[j] in src && c + j in dst && dst[c + j] == src[At(src, b)[j]]
      {
        assert ChildLanded(src, dst, b, c, j);
      }
    }
  }

  /** The same for the trees under `i2block`, whose own block comes last, and then for those
      under `i3block`. */
  lemma DoublyLands(s: Source, dst: Blocks, list: seq<Inode>, starts: seq<int>, k: nat)
    requires DiskMoved(s, false, dst, list, starts, |s.inodes|) && k < |s.inodes| && s.inodes[k].nlink != 0
    ensures DoublyTreesLanded(s.data, dst, s.inodes[k], list[k], starts[k], starts[k + 1])
  {
    assert InodeMoved(s, false, dst, k, list[k], starts[k], starts[k + 1]);
    DoublyTreesLand(s.data, dst, s.inodes[k], list[k], starts[k], starts[k + 1]);
  }

  ghost predicate DoublyTreesLanded(src: Blocks, dst: Blocks, node: Inode, node': Inode, lo: int, hi: int) {
    var c2 := lo + Used(node.dblocks) + LeafCount(src, node.iblocks, Used(node.iblocks));
    var c3 := if node.i2block == 0 then c2
              else c2 + LeafCount(src, At(src, node.i2block), UsedIn(src, node.i2block)) + 1;
    && DoublyTreeLanded(src, dst, node.i2block, node'.i2block, c2)
    && DoublyTreeLanded(src, dst, node.i3block, node'.i3block, c3)
    && (node.i2block != 0 ==> node'.i2block == c3 - 1)
    && (node.i3block != 0 ==> node'.i3block == hi - 1)
  }

  lemma DoublyTreesLand(src: Blocks, dst: Blocks, node: Inode, node': Inode, lo: int, hi: int)
    requires PartsLanded(src, dst, node, node', lo, hi)
    ensures DoublyTreesLanded(src, dst, node, node', lo, hi)
  {
    var c2 := DoublyStart(src, node, lo);
    var c3 := TriplyStart(src, node, lo);
    DoublyTreeLands(src, dst, node.i2block, node'.i2block, c2, c3);
    DoublyTreeLands(src, dst, node.i3block, node'.i3block, c3, hi);
  }

  ghost predicate DoublyTreeLanded(src: Blocks, dst: Blocks, b: int, b': int, start: int) {
    if b == 0 then b' == 0
    else
      && b' in dst && |dst[b']| == |At(src, b)|
      && (forall i :: 0 <= i < UsedIn(src, b) ==> EntryTreeLanded(src, dst, At(src, b), dst[b'], i, start))
      && (forall i :: UsedIn(src, b) <= i < |At(src, b)| ==> dst[b'][i] == At(src, b)[i])
  }

  ghost predicate EntryTreeLanded(src: Blocks, dst: Blocks, list: seq<int>, list': seq<int>, i: nat, start: int)
    requires i < |list| == |list'|
  {
    list'[i] == start + LeafCount(src, list, i) && TreeLanded(src, dst, list[i], list'[i])
  }

  lemma DoublyTreeLands(src: Blocks, dst: Blocks, b: int, b': int, start: int, end: int)
    requires DoublyLanded(src, dst, b, b', start, end)
    ensures DoublyTreeLanded(src, dst, b, b', start)
  {
    if b != 0 {
      forall i | 0 <= i < UsedIn(src, b) ensures EntryTreeLanded(src, dst, At(src, b), dst[b'], i, start)
      {
        assert EntryLanded(src, dst, At(src, b), dst[b'], i, start, b');
        LandedTree(src, dst, At(src, b)[i], dst[b'][i]);
      }
    }
  }

  /** The numbers recorded for a non-empty pointer block are never in consecutive order, in
      either mode: its own number is recorded after those of its children. */
  lemma NeverInOrder(src: Blocks, dst: Blocks, b: int, c: int, reserve: bool)
    requires IndirectExists(src, b) && UsedIn(src, b) > 0
    ensures !InOrder(IndirectNumbers(src, Indirected(src, dst, src[b], c, reserve), b, c))
  {
    IndirectMoved(src, dst, b, c, reserve);
    var (u, r) := (Used(src[b]), CallNumbers(Used(src[b]), c, reserve));
    assert r[u - 1] + 1 != r[u];
  }

  // ---- sound disks ----

  /** Every file of a sound disk is in the destination with its contents, its direct blocks at
      consecutive numbers; its numbers are distinct and fill its range, the ranges lie end to
      end, and together they take as many numbers as the files have blocks. */
  lemma DiskPacked(s: Source, reserve: bool, dst: Blocks, list: seq<Inode>, starts: seq<int>)
    requires DiskMoved(s, reserve, dst, list, starts, |s.inodes|) && starts[0] == 0 && AllSound(s, reserve)
    ensures starts[|s.inodes|] == DiskCount(s, |s.inodes|)
    ensures forall k :: 0 <= k < |s.inodes| && s.inodes[k].nlink != 0 ==> FilePacked(s, dst, list, k)
  {
    RangesAreCounts(s, reserve, dst, list, starts, |s.inodes|);
    forall k | 0 <= k < |s.inodes| && s.inodes[k].nlink != 0 ensures FilePacked(s, dst, list, k)
    {
      assert InodeMoved(s, reserve, dst, k, list[k], starts[k], starts[k + 1]);
      RangesAreCounts(s, reserve, dst, list, starts, k);
      RangesAreCounts(s, reserve, dst, list, starts, k + 1);
    }
  }

  ghost predicate InFile(s: Source, dst: Blocks, list: seq<Inode>, k: nat, x: int)
    requires k < |s.inodes| && k < |list|
  {
    s.inodes[k].nlink != 0 && x in FileNumbers(s.data, dst, s.inodes[k], list[k])
  }

  /** Every number in the range of inode k belongs to its file. */
  ghost predicate Covered(s: Source, dst: Blocks, list: seq<Inode>, starts: seq<int>, k: nat)
    requires k < |s.inodes| && k < |list| && k + 1 < |starts|
  {
    forall x :: starts[k] <= x < starts[k + 1] ==> InFile(s, dst, list, k, x)
  }

  lemma InodeCovered(s: Source, reserve: bool, dst: Blocks, list: seq<Inode>, starts: seq<int>, k: nat)
    requires k < |s.inodes| && k < |list| && k + 1 < |starts|
    requires InodeMoved(s, reserve, dst, k, list[k], starts[k], starts[k + 1])
    requires s.inodes[k].nlink != 0 ==> Sound(s, reserve, k)
    ensures Covered(s, dst, list, starts, k)
  {
    forall x | starts[k] <= x < starts[k + 1] ensures InFile(s, dst, list, k, x)
    {
      FillsAll(FileNumbers(s.data, dst, s.inodes[k], list[k]), starts[k], starts[k + 1], x);
    }
  }

  lemma {:induction false} RangeOf(starts: seq<int>, n: nat, x: int) returns (k: nat)
    requires n < |starts| && starts[0] <= x < starts[n]
    ensures k < n && starts[k] <= x < starts[k + 1]
  {
    if x < starts[n - 1] { k := RangeOf(starts, n - 1, x); } else { k := n - 1; }
  }

  /** No gaps: every number below the frontier belongs to a file of a sound disk. */
  lemma NoGaps(s: Source, reserve: bool, dst: Blocks, list: seq<Inode>, starts: seq<int>, x: int)
    requires DiskMoved(s, reserve, dst, list, starts, |s.inodes|) && starts[0] == 0 && AllSound(s, reserve)
    requires 0 <= x < starts[|s.inodes|]
    ensures exists k :: 0 <= k < |s.inodes| && InFile(s, dst, list, k, x)
  {
    var k := RangeOf(starts, |s.inodes|, x);
    assert InodeMoved(s, reserve, dst, k, list[k], starts[k], starts[k + 1]);
    InodeCovered(s, reserve, dst, list, starts, k);
    assert InFile(s, dst, list, k, x);
  }

  ghost predicate RangeFilled(s: Source, dst: Blocks, list: seq<Inode>, starts: seq<int>, k: nat)
    requires k < |s.inodes| && k < |list| && k + 1 < |starts|
  {
    Fills(FileNumbers(s.data, dst, s.inodes[k], list[k]), starts[k], starts[k + 1])
  }

  /** In either mode: every used inode has distinct numbers that fill its range exactly when
      the disk is sound. */
  lemma PackedExactly(s: Source, reserve: bool, dst: Blocks, list: seq<Inode>, starts: seq<int>)
    requires DiskMoved(s, reserve, dst, list, starts, |s.inodes|)
    ensures AllSound(s, reserve)
       <==> forall k :: 0 <= k < |s.inodes| && s.inodes[k].nlink != 0 ==> RangeFilled(s, dst, list, starts, k)
  {
    forall k | 0 <= k < |s.inodes| && s.inodes[k].nlink != 0
      ensures RangeFilled(s, dst, list, starts, k) <==> Sound(s, reserve, k)
    {
      assert InodeMoved(s, reserve, dst, k, list[k], starts[k], starts[k + 1]);
    }
  }

  /** The contents as written or repaired: on a disk without empty pointer blocks, a file reads
      the same in the destination exactly when the mode is repaired or each of its pointer
      blocks has a first child that already equals the words stored over it. */
  lemma ContentsExactly(s: Source, reserve: bool, dst: Blocks, list: seq<Inode>, starts: seq<int>, k: nat)
    requires DiskMoved(s, reserve, dst, list, starts, |s.inodes|) && k < |s.inodes| && s.inodes[k].nlink != 0
    requires starts[0] == 0 && NoEmptyPointers(s.data, s.inodes[k])
    ensures SameFile(s.data, dst, s.inodes[k], list[k], starts[k], starts[k + 1])
       <==> reserve || FileIntact(s.data, s.inodes[k], DiskSpan(s, false, k))
  {
    RangesAreSpans(s, reserve, dst, list, starts, k);
    assert InodeMoved(s, reserve, dst, k, list[k], starts[k], starts[k + 1]);
  }

  /** No two files of a sound disk share a block of any kind: direct, pointer block or leaf. */
  lemma FilesDisjoint(s: Source, reserve: bool, dst: Blocks, list: seq<Inode>, starts: seq<int>,
                      k: nat, m: nat, x: int, y: int)
    requires DiskMoved(s, reserve, dst, list, starts, |s.inodes|) && k < m < |s.inodes|
    requires Sound(s, reserve, k) && Sound(s, reserve, m)
    requires InFile(s, dst, list, k, x) && InFile(s, dst, list, m, y)
    ensures x < y
  {
    assert InodeMoved(s, reserve, dst, k, list[k], starts[k], starts[k + 1]);
    assert InodeMoved(s, reserve, dst, m, list[m], starts[m], starts[m + 1]);
    Ascending(s, reserve, dst, list, starts, k + 1, m);
  }

  lemma {:induction false} Ascending(s: Source, reserve: bool, dst: Blocks, list: seq<Inode>, starts: seq<int>,
                                    k: nat, m: nat)
    requires DiskMoved(s, reserve, dst, list, starts, |s.inodes|) && k <= m <= |s.inodes|
    ensures starts[k] <= starts[m]
    decreases m - k
  {
    if k < m {
      assert InodeMoved(s, reserve, dst, k, list[k], starts[k], starts[k + 1]);
      Ascending(s, reserve, dst, list, starts, k + 1, m);
    }
  }

  // ---- byte positions ----

  const INODE_SIZE := 100

  function InodePosition(sb: Superblock, k: int): int { 1024 + sb.inodeOffset * sb.size + k * INODE_SIZE }

  function DataPosition(sb: Superblock, b: int): int { 1024 + sb.dataOffset * sb.size + b * sb.size }

  function MaxInodes(sb: Superblock): int { (sb.dataOffset * sb.size - sb.inodeOffset * sb.size) / INODE_SIZE }

  /** Boot block and superblock, the inodes below max_inodes and the data blocks occupy
      pairwise disjoint byte ranges, so writes to one never reach another. */
  lemma RegionsDisjoint(sb: Superblock, k: int, k': int, b: int, b': int)
    requires sb.size > 0 && 0 <= sb.inodeOffset <= sb.dataOffset
    requires 0 <= k < k' < MaxInodes(sb) && 0 <= b < b'
    ensures 1024 <= InodePosition(sb, k) && InodePosition(sb, k) + INODE_SIZE <= InodePosition(sb, k')
    ensures InodePosition(sb, k') + INODE_SIZE <= DataPosition(sb, b)
    ensures DataPosition(sb, b) + sb.size <= DataPosition(sb, b')
  {
    NonNegative(sb.inodeOffset, sb.size);
    NonNegative(b, sb.size);
    NonNegative(b' - b - 1, sb.size);
    InodesFit(sb.inodeOffset * sb.size, sb.dataOffset * sb.size, k');
  }

  lemma InodesFit(i: int, d: int, k: int)
    requires k < (d - i) / INODE_SIZE
    ensures i + k * INODE_SIZE + INODE_SIZE <= d
  {}
}
