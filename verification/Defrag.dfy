/** The defragmenter: copying the block trees of a source image to consecutive numbers of a
    destination image. */
module Defrag {
  import opened Basics
  import opened DiskImage

  datatype Superblock = Superblock(size: int, inodeOffset: int, dataOffset: int, swapOffset: int,
                                   freeInode: int, freeBlock: int)

  datatype Source = Source(sb: Superblock, inodes: seq<Inode>, data: Blocks)

  /** A pointer block whose first u entries are renumbered from `base` on. */
  ghost function Renumber(words: Words, u: nat, base: int): (r: Words)
    requires u <= |words|
    ensures |r| == |words|
  {
    seq(|words|, j requires 0 <= j < |words| => if j < u then base + j else words[j])
  }

  /** The first u blocks named by `words` copied to base, base + 1, ... */
  ghost function CopyChildren(src: Blocks, dst: Blocks, words: Words, u: nat, base: int): Blocks
    requires u <= |words| && forall j :: 0 <= j < u ==> words[j] in src
  {
    if u == 0 then dst else CopyChildren(src, dst, words, u - 1, base)[base + u - 1 := src[words[u - 1]]]
  }

  ghost function Numbers(base: int, u: nat): (r: seq<int>)
    ensures |r| == u && forall j :: 0 <= j < u ==> r[j] == base + j
  {
    seq(u, j => base + j)
  }

  /** The destination blocks after one call for a pointer block with contents `words`, at `c`. */
  ghost function Indirected(src: Blocks, dst: Blocks, words: Words, c: int, reserve: bool): Blocks
    requires LeavesExist(src, words)
  {
    var (u, base) := (Used(words), if reserve then c + 1 else c);
    CopyChildren(src, dst, words, u, base)[c := Renumber(words, u, base)]
  }

  /** The numbers that call records: the children's, then the pointer block's. */
  ghost function CallNumbers(u: nat, c: int, reserve: bool): (r: seq<int>)
    ensures |r| == u + 1
    ensures reserve ==> Fills(r, c, c + 1 + u)
  {
    Numbers(if reserve then c + 1 else c, u) + [c]
  }

  /** Nothing is written from here on while the frontier is `current`: as written, an empty
      pointer block lies on the frontier itself. */
  ghost function Limit(current: int, reserve: bool): int { if reserve then current else current + 1 }

  ghost predicate Consecutive(list: seq<int>, n: nat, start: int) {
    n <= |list| && forall i :: 0 <= i < n ==> list[i] == start + i
  }

  /** Every number is followed by the next one. */
  ghost predicate InOrder(numbers: seq<int>) {
    forall i :: 0 <= i < |numbers| - 1 ==> numbers[i] + 1 == numbers[i + 1]
  }

  /** How often moving a file calls handle_indirect_blocks. */
  ghost function Calls(src: Blocks, node: Inode): nat {
    Used(node.iblocks) + DoublyCalls(src, node.i2block) + DoublyCalls(src, node.i3block)
  }

  ghost function DoublyCalls(src: Blocks, b: int): nat {
    if b == 0 then 0 else UsedIn(src, b)
  }

  // ---- where the trees land as written, and when they survive that ----

  /** `words'` names c, c + 1, ... in its first u entries and is `words` in the others. */
  ghost predicate NamesFrom(words: Words, words': Words, u: nat, c: int) {
    && |words'| == |words|
    && forall j :: 0 <= j < |words| ==> words'[j] == if j < u then c + j else words[j]
  }

  /** The non-empty tree of pointer block b as written to number c: renumbered from c on, and
      with every child but the first, whose number c it shares. */
  ghost predicate LandedAt(src: Blocks, dst: Blocks, b: int, c: int) {
    UsedIn(src, b) > 0 ==>
      && c in dst && NamesFrom(At(src, b), dst[c], UsedIn(src, b), c)
      && forall j :: 0 < j < UsedIn(src, b) ==> ChildLanded(src, dst, b, c, j)
  }

  ghost predicate ChildLanded(src: Blocks, dst: Blocks, b: int, c: int, j: int)
    requires 0 < j < UsedIn(src, b)
  {
    At(src, b)[j] in src && c + j in dst && dst[c + j] == src[At(src, b)[j]]
  }

  /** The first child of b already holds the words that overwrite it at number c. */
  ghost predicate Intact(src: Blocks, b: int, c: int) {
    UsedIn(src, b) > 0 ==> NamesFrom(At(src, b), At(src, At(src, b)[0]), UsedIn(src, b), c)
  }

  ghost function LeafCount(src: Blocks, list: seq<int>, n: nat): nat {
    if n == 0 then 0 else LeafCount(src, list, n - 1) + if n <= |list| then UsedIn(src, list[n - 1]) else 0
  }

  ghost predicate IndirectsLanded(src: Blocks, dst: Blocks, list: seq<int>, list': seq<int>, n: nat,
                                  start: int, end: int) {
    && n <= |list| == |list'| && end == start + LeafCount(src, list, n)
    && (forall i :: 0 <= i < n ==> EntryLanded(src, dst, list, list', i, start, end))
    && (forall i :: n <= i < |list| ==> list'[i] == list[i])
  }

  ghost predicate EntryLanded(src: Blocks, dst: Blocks, list: seq<int>, list': seq<int>, i: nat, start: int, end: int)
    requires i < |list| == |list'|
  {
    && list'[i] == start + LeafCount(src, list, i) && list'[i] + UsedIn(src, list[i]) <= end
    && LandedAt(src, dst, list[i], list'[i])
  }

  ghost predicate IndirectsIntact(src: Blocks, list: seq<int>, n: nat, start: int) {
    forall i :: 0 <= i < n && i < |list| ==> EntryIntact(src, list, i, start)
  }

  ghost predicate EntryIntact(src: Blocks, list: seq<int>, i: nat, start: int)
    requires i < |list|
  {
    Intact(src, list[i], start + LeafCount(src, list, i))
  }

  ghost predicate DoublyLanded(src: Blocks, dst: Blocks, b: int, b': int, start: int, end: int) {
    if b == 0 then b' == 0 && end == start
    else b' in dst && end == b' + 1 && IndirectsLanded(src, dst, At(src, b), dst[b'], UsedIn(src, b), start, b')
  }

  ghost predicate DoublyIntact(src: Blocks, b: int, start: int) {
    b != 0 ==> IndirectsIntact(src, At(src, b), UsedIn(src, b), start)
  }

  ghost function DoublyLeaves(src: Blocks, b: int): nat {
    if b == 0 then 0 else LeafCount(src, At(src, b), UsedIn(src, b)) + 1
  }

  /** Every pointer block of the file survives when the file is written from `start` on. */
  ghost predicate FileIntact(src: Blocks, node: Inode, start: int) {
    && IndirectsIntact(src, node.iblocks, Used(node.iblocks), IndirectsStart(node, start))
    && DoublyIntact(src, node.i2block, DoublyStart(src, node, start))
    && DoublyIntact(src, node.i3block, TriplyStart(src, node, start))
  }

  /** Where the blocks under `iblocks`, `i2block` and `i3block` start as written. */
  ghost function IndirectsStart(node: Inode, start: int): int { start + Used(node.dblocks) }

  ghost function DoublyStart(src: Blocks, node: Inode, start: int): int {
    IndirectsStart(node, start) + LeafCount(src, node.iblocks, Used(node.iblocks))
  }

  ghost function TriplyStart(src: Blocks, node: Inode, start: int): int {
    DoublyStart(src, node, start) + DoublyLeaves(src, node.i2block)
  }

  /** Where the code as written leaves the blocks of a file that starts at `start`: every pointer
      block at its number, and every child but the overwritten first one after it. */
  ghost predicate PartsLanded(src: Blocks, dst: Blocks, node: Inode, node': Inode, start: int, end: int) {
    && IndirectsLanded(src, dst, node.iblocks, node'.iblocks, Used(node.iblocks),
                       IndirectsStart(node, start), DoublyStart(src, node, start))
    && DoublyLanded(src, dst, node.i2block, node'.i2block,
                    DoublyStart(src, node, start), TriplyStart(src, node, start))
    && DoublyLanded(src, dst, node.i3block, node'.i3block, TriplyStart(src, node, start), end)
  }

  /** What holds of every file that is moved, lost children or not: the inode fields are copied,
      the direct blocks read the same, and as written the other blocks lie where PartsLanded says. */
  ghost predicate FileParts(src: Blocks, reserve: bool, dst: Blocks, node: Inode, node': Inode, start: int, end: int) {
    && node'.meta == node.meta && node'.nlink == node.nlink
    && SameLeaves(src, dst, node.dblocks, node'.dblocks, Used(node.dblocks), start, end)
    && (!reserve ==> PartsLanded(src, dst, node, node', start, end))
  }

  /** How many numbers one file takes in either mode. */
  ghost function Span(src: Blocks, reserve: bool, node: Inode): nat {
    if reserve then FileCount(src, node)
    else
      Used(node.dblocks) + LeafCount(src, node.iblocks, Used(node.iblocks))
      + DoublyLeaves(src, node.i2block) + DoublyLeaves(src, node.i3block)
  }

  ghost predicate NoneEmpty(src: Blocks, list: seq<int>, n: nat) {
    forall i :: 0 <= i < n && i < |list| ==> UsedIn(src, list[i]) > 0
  }

  /** No pointer block of the file is empty. */
  ghost predicate NoEmptyPointers(src: Blocks, node: Inode) {
    && NoneEmpty(src, node.iblocks, Used(node.iblocks))
    && (node.i2block != 0 ==> NoneEmpty(src, At(src, node.i2block), UsedIn(src, node.i2block)))
    && (node.i3block != 0 ==> NoneEmpty(src, At(src, node.i3block), UsedIn(src, node.i3block)))
  }

  // What the copying of a tree has achieved when the destination went from `d` to `d'` and the
  // frontier from `start` to `end`, in either mode: nothing below `start` was touched, and the
  // tree has one number more than the frontier moved for every pointer block handled as written.

  ghost predicate IndirectWritten(src: Blocks, reserve: bool, d: Blocks, d': Blocks, b: int, b': int,
                                  start: int, end: int) {
    && b' == start && end == start + UsedIn(src, b) + (if reserve then 1 else 0)
    && SameBelow(d, d', start)
    && |IndirectNumbers(src, d', b, b')| == UsedIn(src, b) + 1
    && (reserve ==>
      SameIndirect(src, d', b, b', start, end) && Fills(IndirectNumbers(src, d', b, b'), start, end))
  }

  /** The same for the first n trees of `list`. */
  ghost predicate IndirectsWritten(src: Blocks, reserve: bool, d: Blocks, d': Blocks, list: seq<int>, list': seq<int>,
                                   n: nat, start: int, end: int) {
    && start <= end && |list'| == |list|
    && (forall j :: n <= j < |list| ==> list'[j] == list[j])
    && SameBelow(d, d', start)
    && IndirectsBelow(src, list, list', n, end)
    && |IndirectsNumbers(src, d', list, list', n)| == end - start + (if reserve then 0 else n)
    && (reserve || n == 0 ==> Moved(src, d', list, list', n, start, end))
  }

  ghost predicate DoublyWritten(src: Blocks, reserve: bool, d: Blocks, d': Blocks, b: int, b': int,
                                start: int, end: int) {
    && start <= end && SameBelow(d, d', start)
    && DoublyBelow(src, d', b, b', end)
    && |DoublyNumbers(src, d', b, b')| == end - start + (if reserve then 0 else DoublyCalls(src, b))
    && (reserve || DoublyCalls(src, b) == 0 ==> DoublyMoved(src, d', b, b', start, end))
  }

  /** The direct blocks lie at consecutive numbers from `start` on.  The numbers of the whole
      file are distinct and fill [start, end) exactly when the mode is repaired or no pointer
      block is handled, and then the file reads the same. */
  ghost predicate FileWritten(src: Blocks, reserve: bool, d: Blocks, d': Blocks, node: Inode, node': Inode,
                              start: int, end: int) {
    && start <= end && SameBelow(d, d', start)
    && Consecutive(node'.dblocks, Used(node.dblocks), start)
    && FileBelow(src, d', node, node', end)
    && (Fills(FileNumbers(src, d', node, node'), start, end) <==> reserve || Calls(src, node) == 0)
    && (reserve || Calls(src, node) == 0 ==> FileMoved(src, d', node, node', start, end))
  }

  /** A file without empty pointer blocks reads the same exactly when the mode is repaired or all
      its pointer blocks are intact. */
  ghost predicate FileExactly(src: Blocks, reserve: bool, dst: Blocks, node: Inode, node': Inode,
                              start: int, end: int) {
    NoEmptyPointers(src, node) ==>
      (SameFile(src, dst, node, node', start, end) <==> reserve || FileIntact(src, node, start))
  }

  /** The first n trees of `list` are in `dst` under the first n numbers of `list'`, and their
      numbers there are distinct and exactly those in [start, end). */
  ghost predicate Moved(src: Blocks, dst: Blocks, list: seq<int>, list': seq<int>, n: nat, start: int, end: int) {
    && SameIndirects(src, dst, list, list', n, start, end)
    && Fills(IndirectsNumbers(src, dst, list, list', n), start, end)
    && end == start + IndirectsCount(src, list, n)
  }

  ghost predicate DoublyMoved(src: Blocks, dst: Blocks, b: int, b': int, start: int, end: int) {
    && SameDoubly(src, dst, b, b', start, end)
    && Fills(DoublyNumbers(src, dst, b, b'), start, end)
    && end == start + DoublyCount(src, b)
  }

  ghost predicate FileMoved(src: Blocks, dst: Blocks, node: Inode, node': Inode, start: int, end: int) {
    && SameFile(src, dst, node, node', start, end)
    && Fills(FileNumbers(src, dst, node, node'), start, end)
    && end == start + FileCount(src, node)
  }

  /** The destination as it is being written. */
  class Defragmenter {
    const source: Source
    // the one-line repair of handle_indirect_blocks: reserve the number of the pointer block
    // (line 78: new_block_num = (*current_block)++). False is the code as written.
    const reserve: bool
    var data: Blocks
    var inodes: seq<Inode>
    var sb: Superblock
    var current: int
    var allBlocks: seq<int>

    constructor (source: Source, reserve: bool)
      ensures this.source == source && this.reserve == reserve
      ensures data == map[] && inodes == [] && current == 0
    {
      this.source, this.reserve := source, reserve;
      data, inodes, sb, current, allBlocks := map[], [], source.sb, 0, [];
    }

    method CopyBlock(sourceBlock: int, destBlock: int)
      requires sourceBlock in source.data
      modifies this`data
      ensures data == old(data)[destBlock := source.data[sourceBlock]]
    {
      var block := source.data[sourceBlock];
      data := data[destBlock := block];
    }

    /** The pointer block's number is `current` in either mode; its children start there too
        as written, and one later when it is reserved. */
    method HandleIndirectBlocks(blockNum: int) returns (newBlockNum: int)
      requires IndirectExists(source.data, blockNum)
      modifies this`data, this`current, this`allBlocks
      ensures var (c, words, u) := (old(current), source.data[blockNum], Used(source.data[blockNum]));
        && newBlockNum == c && current == c + u + (if reserve then 1 else 0)
        && data == Indirected(source.data, old(data), words, c, reserve)
        && allBlocks == old(allBlocks) + CallNumbers(u, c, reserve)
    {
      var indirectBlocks := source.data[blockNum];
      ghost var words := indirectBlocks;
      newBlockNum := current;
      if reserve {
        current := current + 1;
      }
      ghost var base := current;
      var i := 0;
      while i < |indirectBlocks|
        invariant i <= Used(words) && |indirectBlocks| == |words| && current == base + i
        invariant forall j :: 0 <= j < |words| ==> indirectBlocks[j] == if j < i then base + j else words[j]
        invariant data == CopyChildren(source.data, old(data), words, i, base)
        invariant allBlocks == old(allBlocks) + Numbers(base, i)
      {
        if indirectBlocks[i] == 0 {
          break;
        }
        CopyBlock(indirectBlocks[i], current);
        allBlocks := allBlocks + [current];
        indirectBlocks := indirectBlocks[i := current];
        current := current + 1;
        i := i + 1;
        assert Numbers(base, i) == Numbers(base, i - 1) + [base + i - 1];
      }
      assert indirectBlocks == Renumber(words, i, base);
      data := data[newBlockNum := indirectBlocks];
      allBlocks := allBlocks + [newBlockNum];
    }

    /** The loop over the direct blocks. */
    method MoveDirect(list: seq<int>) returns (list': seq<int>)
      requires LeavesExist(source.data, list)
      modifies this`data, this`current, this`allBlocks
      ensures current == old(current) + Used(list)
      ensures SameBelow(old(data), data, old(current)) && SameAbove(old(data), data, current)
      ensures SameLeaves(source.data, data, list, list', Used(list), old(current), current)
      ensures Consecutive(list', Used(list), old(current))
      ensures allBlocks == old(allBlocks) + Take(list', Used(list))
    {
      list' := list;
      var i := 0;
      while i < |list'| && list'[i] != 0
        invariant i <= Used(list) && |list'| == |list|
        invariant current == old(current) + i && allBlocks == old(allBlocks) + list'[..i]
        invariant SameBelow(old(data), data, old(current)) && SameAbove(old(data), data, current)
        invariant SameLeaves(source.data, data, list, list', i, old(current), current)
        invariant Consecutive(list', i, old(current))
      {
        CopyBlock(list'[i], current);
        allBlocks := allBlocks + [current];
        list' := list'[i := current];
        current := current + 1;
        i := i + 1;
        assert list'[..i] == list'[..i - 1] + [list'[i - 1]];
      }
    }

    /** What one call means for the trees already moved, and which numbers the new tree has. */
    method MoveIndirect(blockNum: int) returns (newBlockNum: int)
      requires IndirectExists(source.data, blockNum)
      modifies this`data, this`current, this`allBlocks
      ensures IndirectWritten(source.data, reserve, old(data), data, blockNum, newBlockNum, old(current), current)
      ensures !reserve ==> LandedAt(source.data, data, blockNum, newBlockNum)
      ensures SameAbove(old(data), data, Limit(current, reserve))
      ensures allBlocks == old(allBlocks) + IndirectNumbers(source.data, data, blockNum, newBlockNum)
    {
      IndirectMoved(source.data, data, blockNum, current, reserve);
      IndirectAbove(source.data, data, blockNum, current, reserve);
      IndirectSame(source.data, data, blockNum, current);
      AsWrittenLands(source.data, data, blockNum, current);
      newBlockNum := HandleIndirectBlocks(blockNum);
    }

    /** The loop over a list of pointer blocks: the inode's own, or those in a doubly indirect
        block.  The recorded numbers are those of the trees in the destination. */
    method MoveIndirects(list: seq<int>) returns (list': seq<int>)
      requires IndirectsExist(source.data, list)
      modifies this`data, this`current, this`allBlocks
      ensures IndirectsWritten(source.data, reserve, old(data), data, list, list', Used(list), old(current), current)
      ensures !reserve ==> IndirectsLanded(source.data, data, list, list', Used(list), old(current), current)
      ensures SameAbove(old(data), data, Limit(current, reserve))
      ensures allBlocks == old(allBlocks) + IndirectsNumbers(source.data, data, list, list', Used(list))
    {
      list' := list;
      var i := 0;
      LoopStart(source.data, reserve, data, list, current, allBlocks);
      while i < |list'| && list'[i] != 0
        invariant Progress(source.data, reserve, old(data), data, list, list', i, old(current), current,
                           old(allBlocks), allBlocks)
        invariant SameAbove(old(data), data, Limit(current, reserve))
      {
        ghost var (d, c, l, b, log) := (data, current, list', list'[i], allBlocks);
        NextUsed(source.data, reserve, old(data), d, list, l, i, old(current), c, old(allBlocks), log);
        var newBlock := MoveIndirect(list'[i]);
        list' := list'[i := newBlock];
        i := i + 1;
        LoopStep(source.data, reserve, old(data), d, data, list, l, i - 1, old(current), c, current, b, newBlock,
                 old(allBlocks), log, allBlocks);
        AboveJoin(old(data), d, data, Limit(c, reserve), Limit(current, reserve));
      }
      LoopEnd(source.data, reserve, old(data), data, list, list', i, old(current), current, old(allBlocks), allBlocks);
    }

    /** The branch for `i2block`, and the same code again for `i3block`: the pointer blocks
        named by block b are moved, then b itself is written after them. */
    method MoveDoubly(b: int) returns (b': int)
      requires DoublyExists(source.data, b)
      modifies this`data, this`current, this`allBlocks
      ensures DoublyWritten(source.data, reserve, old(data), data, b, b', old(current), current)
      ensures !reserve ==> DoublyLanded(source.data, data, b, b', old(current), current)
      ensures SameAbove(old(data), data, Limit(current, reserve))
      ensures allBlocks == old(allBlocks) + DoublyNumbers(source.data, data, b, b')
    {
      b' := b;
      if b != 0 {
        var doublyIndirectBlocks := source.data[b];
        doublyIndirectBlocks := MoveIndirects(doublyIndirectBlocks);
        ghost var d := data;
        Associative(old(allBlocks), IndirectsNumbers(source.data, d, source.data[b], doublyIndirectBlocks,
                                                     Used(source.data[b])), [current]);
        b' := current;
        data := data[b' := doublyIndirectBlocks];
        allBlocks := allBlocks + [b'];
        current := current + 1;
        DoublyStep(source.data, reserve, old(data), d, data, b, doublyIndirectBlocks, old(current), b', current);
        if !reserve {
          DoublyLandedStep(source.data, d, data, b, doublyIndirectBlocks, old(current), b', current);
        }
      } else {
        NoDoubly(source.data, reserve, data, b, current);
      }
    }

    method IsContiguous(blocks: seq<int>) returns (r: bool)
      ensures r <==> InOrder(blocks)
    {
      var i := 0;
      while i < |blocks| - 1
        invariant 0 <= i && forall j :: 0 <= j < i && j < |blocks| - 1 ==> blocks[j] + 1 == blocks[j + 1]
      {
        if blocks[i] + 1 != blocks[i + 1] {
          return false;
        }
        i := i + 1;
      }
      return true;
    }

    /** Moves one file, and returns whether the numbers were handed out in consecutive order,
        which only decides about a debug message. */
    method MoveBlocksContiguous(node: Inode) returns (node': Inode, contiguous: bool)
      requires FileExists(source.data, node)
      modifies this`data, this`current, this`allBlocks
      ensures FileWritten(source.data, reserve, old(data), data, node, node', old(current), current)
      ensures FileExactly(source.data, reserve, data, node, node', old(current), current)
      ensures FileParts(source.data, reserve, data, node, node', old(current), current)
      ensures SameAbove(old(data), data, Limit(current, reserve))
      ensures current == old(current) + Span(source.data, reserve, node)
      ensures allBlocks == FileNumbers(source.data, data, node, node')
      ensures contiguous <==> InOrder(allBlocks)
    {
      ghost var src := source.data;
      ghost var start := current;
      allBlocks := [];
      var dblocks := MoveDirect(node.dblocks);
      assert allBlocks == Take(dblocks, Used(node.dblocks));
      ghost var (d1, c1) := (data, current);
      var iblocks := MoveIndirects(node.iblocks);
      ghost var (d2, c2) := (data, current);
      var i2block := MoveDoubly(node.i2block);
      ghost var (d3, c3) := (data, current);
      var i3block := MoveDoubly(node.i3block);
      node' := node.(dblocks := dblocks, iblocks := iblocks, i2block := i2block, i3block := i3block);
      contiguous := IsContiguous(allBlocks);
      AboveJoin(old(data), d1, d2, Limit(c1, reserve), Limit(c2, reserve));
      AboveJoin(old(data), d2, d3, Limit(c2, reserve), Limit(c3, reserve));
      AboveJoin(old(data), d3, data, Limit(c3, reserve), Limit(current, reserve));
      FilePut(src, reserve, node, node', old(data), start, d1, c1, d2, c2, d3, c3, data, current);
    }

    /** The whole copy.  File k gets the numbers from starts[k] up to starts[k + 1], and no block
        is written below 0 or beyond the frontier. */
    method DefragmentDisk() returns (ghost starts: seq<int>)
      requires FilesExist(source)
      modifies this
      ensures starts != [] && starts[0] == 0 && current == starts[|starts| - 1]
      ensures DiskMoved(source, reserve, data, inodes, starts, |source.inodes|)
      ensures SameBelow(old(data), data, 0) && SameAbove(old(data), data, Limit(current, reserve))
      ensures sb == if exists k :: 0 <= k < |source.inodes| && source.inodes[k].nlink != 0
                    then source.sb.(freeBlock := current) else source.sb
    {
      current := 0;
      sb := source.sb;
      inodes, starts := [], [0];
      var isEmpty := true;
      for inodeIndex := 0 to |source.inodes|
        invariant |starts| == inodeIndex + 1 && starts[0] == 0 && current == starts[inodeIndex] && sb == source.sb
        invariant DiskMoved(source, reserve, data, inodes, starts, inodeIndex) && current >= 0
        invariant SameBelow(old(data), data, 0) && SameAbove(old(data), data, Limit(current, reserve))
        invariant isEmpty <==> forall k :: 0 <= k < inodeIndex ==> source.inodes[k].nlink == 0
      {
        ghost var (d, list, s, c) := (data, inodes, starts, current);
        var node := source.inodes[inodeIndex];
        if node.nlink == 0 {
          node := ZERO_INODE;
        } else {
          isEmpty := false;
          var contiguous;
          node, contiguous := MoveBlocksContiguous(node);
        }
        inodes := inodes + [node];
        starts := starts + [current];
        DiskStep(source, reserve, d, data, list, node, s, current);
        AboveJoin(old(data), d, data, Limit(c, reserve), Limit(current, reserve));
      }
      if isEmpty {
        return;
      }
      sb := sb.(freeBlock := current);
    }
  }

  ghost predicate FilesExist(s: Source) {
    forall k :: 0 <= k < |s.inodes| && s.inodes[k].nlink != 0 ==> FileExists(s.data, s.inodes[k])
  }

  /** Inode k is in use and moving it never goes wrong. */
  ghost predicate Sound(s: Source, reserve: bool, k: nat)
    requires k < |s.inodes|
  {
    s.inodes[k].nlink != 0 && (reserve || Calls(s.data, s.inodes[k]) == 0)
  }

  /** Inode k became `node'`: cleared if it is free; otherwise its fields are copied, its direct
      blocks read the same at consecutive numbers from lo on, its numbers are distinct and fill
      [lo, hi) exactly when moving it is sound, and then the file reads the same; without empty
      pointer blocks it reads the same exactly when the mode is repaired or its pointer blocks
      are intact. */
  ghost predicate InodeMoved(s: Source, reserve: bool, dst: Blocks, k: nat, node': Inode, lo: int, hi: int)
    requires k < |s.inodes|
  {
    && lo <= hi
    && (s.inodes[k].nlink == 0 ==> node' == ZERO_INODE && lo == hi)
    && (s.inodes[k].nlink != 0 ==>
      && hi == lo + Span(s.data, reserve, s.inodes[k])
      && Consecutive(node'.dblocks, Used(s.inodes[k].dblocks), lo)
      && FileBelow(s.data, dst, s.inodes[k], node', hi)
      && FileParts(s.data, reserve, dst, s.inodes[k], node', lo, hi)
      && FileExactly(s.data, reserve, dst, s.inodes[k], node', lo, hi)
      && (Fills(FileNumbers(s.data, dst, s.inodes[k], node'), lo, hi) <==> Sound(s, reserve, k)))
    && (Sound(s, reserve, k) ==>
      SameFile(s.data, dst, s.inodes[k], node', lo, hi) && hi == lo + FileCount(s.data, s.inodes[k]))
  }

  /** The first n inodes are written, end to end in inode order. */
  ghost predicate DiskMoved(s: Source, reserve: bool, dst: Blocks, list: seq<Inode>, starts: seq<int>, n: nat) {
    && n <= |s.inodes| && |list| == n && |starts| == n + 1
    && forall k :: 0 <= k < n ==> InodeMoved(s, reserve, dst, k, list[k], starts[k], starts[k + 1])
  }

  lemma {:induction false} StartsAscend(s: Source, reserve: bool, dst: Blocks, list: seq<Inode>, starts: seq<int>,
                                       n: nat, k: nat)
    requires DiskMoved(s, reserve, dst, list, starts, n) && k <= n
    ensures starts[k] <= starts[n]
    decreases n - k
  {
    if k < n {
      assert InodeMoved(s, reserve, dst, k, list[k], starts[k], starts[k + 1]);
      StartsAscend(s, reserve, dst, list, starts, n, k + 1);
    }
  }

  lemma InodeKept(s: Source, reserve: bool, d: Blocks, d': Blocks, k: nat, node': Inode,
                  lo: int, hi: int, from: int)
    requires k < |s.inodes| && InodeMoved(s, reserve, d, k, node', lo, hi) && hi <= from && SameBelow(d, d', from)
    ensures InodeMoved(s, reserve, d', k, node', lo, hi)
  {
    if s.inodes[k].nlink != 0 {
      FileNumbersKept(s.data, d, d', s.inodes[k], node', hi);
      FileSameKept(s.data, d, d', s.inodes[k], node', lo, hi);
      FilePartsKept(s.data, reserve, d, d', s.inodes[k], node', lo, hi);
    }
  }

  lemma FilePartsKept(src: Blocks, reserve: bool, d: Blocks, d': Blocks, node: Inode, node': Inode, lo: int, hi: int)
    requires FileParts(src, reserve, d, node, node', lo, hi) && SameBelow(d, d', hi)
    ensures FileParts(src, reserve, d', node, node', lo, hi)
  {
    LeavesMonotone(src, d, d', node.dblocks, node'.dblocks, Used(node.dblocks), lo, hi, hi);
    if !reserve {
      PartsLandedKept(src, d, d', node, node', lo, hi);
    }
  }

  lemma PartsLandedKept(src: Blocks, d: Blocks, d': Blocks, node: Inode, node': Inode, lo: int, hi: int)
    requires PartsLanded(src, d, node, node', lo, hi) && SameBelow(d, d', hi)
    ensures PartsLanded(src, d', node, node', lo, hi)
  {
    var (c2, c3) := (DoublyStart(src, node, lo), TriplyStart(src, node, lo));
    assert c2 <= c3 <= hi;
    IndirectsLandedKept(src, d, d', node.iblocks, node'.iblocks, Used(node.iblocks), IndirectsStart(node, lo), c2);
    DoublyLandedKept(src, d, d', node.i2block, node'.i2block, c2, c3);
    DoublyLandedKept(src, d, d', node.i3block, node'.i3block, c3, hi);
  }

  lemma FileSameKept(src: Blocks, d: Blocks, d': Blocks, node: Inode, node': Inode, lo: int, hi: int)
    requires SameBelow(d, d', hi)
    ensures SameFile(src, d', node, node', lo, hi) <==> SameFile(src, d, node, node', lo, hi)
  {
    if SameFile(src, d, node, node', lo, hi) {
      FileMonotone(src, d, d', node, node', lo, hi);
    }
    if SameFile(src, d', node, node', lo, hi) {
      FileMonotone(src, d', d, node, node', lo, hi);
    }
  }

  lemma DiskStep(s: Source, reserve: bool, d: Blocks, d': Blocks, list: seq<Inode>, node': Inode, starts: seq<int>,
                 current: int)
    requires |list| < |s.inodes| && DiskMoved(s, reserve, d, list, starts, |list|)
    requires SameBelow(d, d', starts[|list|])
    requires InodeMoved(s, reserve, d', |list|, node', starts[|list|], current)
    ensures DiskMoved(s, reserve, d', list + [node'], starts + [current], |list| + 1)
  {
    forall k | 0 <= k < |list| ensures InodeMoved(s, reserve, d', k, list[k], starts[k], starts[k + 1])
    {
      assert InodeMoved(s, reserve, d, k, list[k], starts[k], starts[k + 1]);
      StartsAscend(s, reserve, d, list, starts, |list|, k + 1);
      InodeKept(s, reserve, d, d', k, list[k], starts[k], starts[k + 1], starts[|list|]);
    }
  }

  lemma NoDoubly(src: Blocks, reserve: bool, d: Blocks, b: int, c: int)
    requires b == 0
    ensures DoublyWritten(src, reserve, d, d, b, b, c, c) && DoublyNumbers(src, d, b, b) == []
  {}

  lemma DoublyStep(src: Blocks, reserve: bool, d: Blocks, d': Blocks, d'': Blocks, b: int, words: Words,
                   start: int, c: int, e: int)
    requires b != 0 && b in src && d'' == d'[c := words] && e == c + 1
    requires IndirectsWritten(src, reserve, d, d', src[b], words, Used(src[b]), start, c)
    ensures DoublyWritten(src, reserve, d, d'', b, c, start, e)
    ensures DoublyNumbers(src, d'', b, c) == IndirectsNumbers(src, d', src[b], words, Used(src[b])) + [c]
  {
    DoublyNumbersStep(src, d', d'', b, words, c);
    if reserve || UsedIn(src, b) == 0 {
      DoublyMovedStep(src, d', d'', b, words, start, c);
    }
  }

  lemma DoublyNumbersStep(src: Blocks, d: Blocks, d': Blocks, b: int, words: Words, c: int)
    requires b != 0 && b in src && d' == d[c := words] && IndirectsBelow(src, src[b], words, Used(src[b]), c)
    ensures DoublyNumbers(src, d', b, c) == IndirectsNumbers(src, d, src[b], words, Used(src[b])) + [c]
    ensures DoublyBelow(src, d', b, c, c + 1)
  {
    IndirectsNumbersKept(src, d, d', src[b], words, Used(src[b]), c);
  }

  lemma DoublyMovedStep(src: Blocks, d: Blocks, d': Blocks, b: int, words: Words, start: int, c: int)
    requires b != 0 && b in src && d' == d[c := words] && Moved(src, d, src[b], words, Used(src[b]), start, c)
    requires IndirectsBelow(src, src[b], words, Used(src[b]), c)
    ensures DoublyMoved(src, d', b, c, start, c + 1)
  {
    IndirectsMonotone(src, d, d', src[b], words, Used(src[b]), start, c, c + 1);
    IndirectsNumbersKept(src, d, d', src[b], words, Used(src[b]), c);
    assert Fills([c], c, c + 1);
    FillsJoin(IndirectsNumbers(src, d, src[b], words, Used(src[b])), [c], start, c, c + 1);
  }

  /** The numbers of a file's parts stay as they are while the later parts are written. */
  lemma NumbersDone(src: Blocks, node: Inode, node': Inode, d2: Blocks, c2: int, d3: Blocks, c3: int,
                    d4: Blocks, c4: int)
    requires c2 <= c3 <= c4 && SameBelow(d2, d3, c2) && SameBelow(d3, d4, c3)
    requires IndirectsBelow(src, node.iblocks, node'.iblocks, Used(node.iblocks), c2)
    requires DoublyBelow(src, d3, node.i2block, node'.i2block, c3)
    requires DoublyBelow(src, d4, node.i3block, node'.i3block, c4)
    ensures FileBelow(src, d4, node, node', c4)
    ensures FileNumbers(src, d4, node, node')
         == Take(node'.dblocks, Used(node.dblocks))
            + IndirectsNumbers(src, d2, node.iblocks, node'.iblocks, Used(node.iblocks))
            + DoublyNumbers(src, d3, node.i2block, node'.i2block)
            + DoublyNumbers(src, d4, node.i3block, node'.i3block)
  {
    IndirectsNumbersKept(src, d2, d4, node.iblocks, node'.iblocks, Used(node.iblocks), c2);
    DoublyNumbersKept(src, d3, d4, node.i2block, node'.i2block, c3);
  }

  lemma FileDone(src: Blocks, reserve: bool, node: Inode, node': Inode, d: Blocks, start: int,
                 d1: Blocks, c1: int, d2: Blocks, c2: int, d3: Blocks, c3: int, d4: Blocks, c4: int)
    requires node'.meta == node.meta && node'.nlink == node.nlink && SameBelow(d, d1, start)
    requires SameLeaves(src, d1, node.dblocks, node'.dblocks, Used(node.dblocks), start, c1)
    requires Consecutive(node'.dblocks, Used(node.dblocks), start) && c1 == start + Used(node.dblocks)
    requires IndirectsWritten(src, reserve, d1, d2, node.iblocks, node'.iblocks, Used(node.iblocks), c1, c2)
    requires DoublyWritten(src, reserve, d2, d3, node.i2block, node'.i2block, c2, c3)
    requires DoublyWritten(src, reserve, d3, d4, node.i3block, node'.i3block, c3, c4)
    ensures FileWritten(src, reserve, d, d4, node, node', start, c4)
    ensures FileNumbers(src, d4, node, node')
         == Take(node'.dblocks, Used(node.dblocks))
            + IndirectsNumbers(src, d2, node.iblocks, node'.iblocks, Used(node.iblocks))
            + DoublyNumbers(src, d3, node.i2block, node'.i2block)
            + DoublyNumbers(src, d4, node.i3block, node'.i3block)
  {
    BelowChain(d, d1, d2, d3, d4, start, c1, c2, c3);
    NumbersDone(src, node, node', d2, c2, d3, c3, d4, c4);
    var l0 := Take(node'.dblocks, Used(node.dblocks));
    var l1 := IndirectsNumbers(src, d2, node.iblocks, node'.iblocks, Used(node.iblocks));
    var l2 := DoublyNumbers(src, d3, node.i2block, node'.i2block);
    var l3 := DoublyNumbers(src, d4, node.i3block, node'.i3block);
    if reserve || Calls(src, node) == 0 {
      FourFill(l0, l1, l2, l3, start, c1, c2, c3, c4);
      FileSame(src, node, node', start, d1, c1, d2, c2, d3, c3, d4, c4);
    } else {
      TooLong(l0, l1, l2, l3, start, c4);
    }
  }

  lemma BelowChain(d: Blocks, d1: Blocks, d2: Blocks, d3: Blocks, d4: Blocks, c: int, c1: int, c2: int, c3: int)
    requires c <= c1 <= c2 <= c3
    requires SameBelow(d, d1, c) && SameBelow(d1, d2, c1) && SameBelow(d2, d3, c2) && SameBelow(d3, d4, c3)
    ensures SameBelow(d, d4, c)
  {}

  lemma TooLong(l0: seq<int>, l1: seq<int>, l2: seq<int>, l3: seq<int>, a: int, e: int)
    requires |l0| + |l1| + |l2| + |l3| != e - a
    ensures !Fills(l0 + l1 + l2 + l3, a, e)
  {}

  lemma FourFill(l0: seq<int>, l1: seq<int>, l2: seq<int>, l3: seq<int>, a: int, b: int, c: int, d: int, e: int)
    requires Fills(l0, a, b) && Fills(l1, b, c) && Fills(l2, c, d) && Fills(l3, d, e)
    ensures Fills(l0 + l1 + l2 + l3, a, e)
  {
    FillsJoin(l0, l1, a, b, c);
    FillsJoin(l0 + l1, l2, a, c, d);
    FillsJoin(l0 + l1 + l2, l3, a, d, e);
  }

  lemma FileSame(src: Blocks, node: Inode, node': Inode, start: int,
                 d1: Blocks, c1: int, d2: Blocks, c2: int, d3: Blocks, c3: int, d4: Blocks, c4: int)
    requires node'.meta == node.meta && node'.nlink == node.nlink && start <= c1 <= c2 <= c3 <= c4
    requires SameBelow(d1, d2, c1) && SameBelow(d2, d3, c2) && SameBelow(d3, d4, c3)
    requires SameLeaves(src, d1, node.dblocks, node'.dblocks, Used(node.dblocks), start, c1)
    requires SameIndirects(src, d2, node.iblocks, node'.iblocks, Used(node.iblocks), c1, c2)
    requires SameDoubly(src, d3, node.i2block, node'.i2block, c2, c3)
    requires SameDoubly(src, d4, node.i3block, node'.i3block, c3, c4)
    ensures SameFile(src, d4, node, node', start, c4)
  {
    LeavesMonotone(src, d1, d4, node.dblocks, node'.dblocks, Used(node.dblocks), start, c1, c4);
    IndirectsMonotone(src, d2, d4, node.iblocks, node'.iblocks, Used(node.iblocks), c1, c2, c4);
    IndirectsWider(src, d4, node.iblocks, node'.iblocks, Used(node.iblocks), c1, start, c4);
    DoublyMonotone(src, d3, d4, node.i2block, node'.i2block, c2, c3, c4);
    DoublyWider(src, d4, node.i2block, node'.i2block, c2, start, c4);
    DoublyWider(src, d4, node.i3block, node'.i3block, c3, start, c4);
  }

  lemma LeavesMonotone(src: Blocks, dst: Blocks, dst': Blocks, list: seq<int>, list': seq<int>, n: nat,
                       lo: int, hi: int, hi': int)
    requires SameLeaves(src, dst, list, list', n, lo, hi) && Agree(dst, dst', lo, hi) && hi <= hi'
    ensures SameLeaves(src, dst', list, list', n, lo, hi')
  {}

  lemma IndirectsWider(src: Blocks, dst: Blocks, list: seq<int>, list': seq<int>, n: nat, lo: int, lo': int, hi: int)
    requires SameIndirects(src, dst, list, list', n, lo, hi) && lo' <= lo
    ensures SameIndirects(src, dst, list, list', n, lo', hi)
  {
    forall i | 0 <= i < n ensures SameEntry(src, dst, list, list', i, lo', hi)
    {
      assert SameEntry(src, dst, list, list', i, lo, hi);
    }
  }

  lemma DoublyWider(src: Blocks, dst: Blocks, b: int, b': int, lo: int, lo': int, hi: int)
    requires SameDoubly(src, dst, b, b', lo, hi) && lo' <= lo
    ensures SameDoubly(src, dst, b, b', lo', hi)
  {
    if b != 0 { IndirectsWider(src, dst, src[b], dst[b'], Used(src[b]), lo, lo', hi); }
  }

  /** Copying children writes exactly the numbers base, ..., base + u - 1. */
  lemma {:induction false} Copied(src: Blocks, dst: Blocks, words: Words, u: nat, base: int)
    requires u <= |words| && forall j :: 0 <= j < u ==> words[j] in src
    ensures var d := CopyChildren(src, dst, words, u, base);
      && (forall b :: base <= b < base + u ==> b in d && d[b] == src[words[b - base]])
      && (forall b :: b < base || base + u <= b ==> (b in d <==> b in dst) && (b in dst ==> d[b] == dst[b]))
  {
    if u > 0 {
      Copied(src, dst, words, u - 1, base);
      var d := CopyChildren(src, dst, words, u, base);
      assert d == CopyChildren(src, dst, words, u - 1, base)[base + u - 1 := src[words[u - 1]]];
    }
  }

  lemma IndirectAbove(src: Blocks, dst: Blocks, b: int, c: int, reserve: bool)
    requires IndirectExists(src, b)
    ensures SameAbove(dst, Indirected(src, dst, src[b], c, reserve), c + 1 + Used(src[b]))
  {
    Copied(src, dst, src[b], Used(src[b]), if reserve then c + 1 else c);
  }

  /** In either mode nothing below c changes, and the tree found at c has the recorded numbers. */
  lemma IndirectMoved(src: Blocks, dst: Blocks, b: int, c: int, reserve: bool)
    requires IndirectExists(src, b)
    ensures var (u, dst') := (Used(src[b]), Indirected(src, dst, src[b], c, reserve));
      SameBelow(dst, dst', c) && IndirectNumbers(src, dst', b, c) == CallNumbers(u, c, reserve)
  {
    var (u, base) := (Used(src[b]), if reserve then c + 1 else c);
    Copied(src, dst, src[b], u, base);
    assert Renumber(src[b], u, base)[..u] == Numbers(base, u);
  }

  /** Repaired: the pointer block and its children come out right, on fresh numbers. */
  lemma IndirectSame(src: Blocks, dst: Blocks, b: int, c: int)
    requires IndirectExists(src, b)
    ensures SameIndirect(src, Indirected(src, dst, src[b], c, true), b, c, c, c + 1 + Used(src[b]))
  {
    var (words, u, dst') := (src[b], Used(src[b]), Indirected(src, dst, src[b], c, true));
    Copied(src, dst, words, u, c + 1);
    forall i | 0 <= i < u
      ensures dst'[c][i] == c + 1 + i && dst'[c][i] in dst' && dst'[dst'[c][i]] == src[words[i]]
    {
      var n := c + 1 + i;
      assert n in CopyChildren(src, dst, words, u, c + 1);
    }
  }

  // ---- proofs about the trees as written ----

  lemma AsWrittenLands(src: Blocks, dst: Blocks, b: int, c: int)
    requires IndirectExists(src, b)
    ensures LandedAt(src, Indirected(src, dst, src[b], c, false), b, c)
  {
    var (words, u, dst') := (src[b], Used(src[b]), Indirected(src, dst, src[b], c, false));
    Copied(src, dst, words, u, c);
    forall j | 0 < j < u ensures ChildLanded(src, dst', b, c, j)
    {
      assert c + j in CopyChildren(src, dst, words, u, c);
    }
  }

  /** Writes from `hi` on leave a landed tree below `hi` as it is. */
  lemma LandedKept(src: Blocks, d: Blocks, d': Blocks, b: int, c: int, hi: int)
    requires LandedAt(src, d, b, c) && SameBelow(d, d', hi) && c + UsedIn(src, b) <= hi
    ensures LandedAt(src, d', b, c)
  {
    if UsedIn(src, b) > 0 {
      forall j | 0 < j < UsedIn(src, b) ensures ChildLanded(src, d', b, c, j)
      {
        assert ChildLanded(src, d, b, c, j);
      }
    }
  }

  lemma IndirectsLandedKept(src: Blocks, d: Blocks, d': Blocks, list: seq<int>, list': seq<int>, n: nat,
                            start: int, end: int)
    requires IndirectsLanded(src, d, list, list', n, start, end) && SameBelow(d, d', end)
    ensures IndirectsLanded(src, d', list, list', n, start, end)
  {
    forall i | 0 <= i < n ensures EntryLanded(src, d', list, list', i, start, end)
    {
      assert EntryLanded(src, d, list, list', i, start, end);
      LandedKept(src, d, d', list[i], list'[i], end);
    }
  }

  lemma LandedStep(src: Blocks, d: Blocks, d': Blocks, list: seq<int>, list': seq<int>, i: nat,
                   start: int, c: int, e: int, b: int, b': int)
    requires i < |list| && IndirectsLanded(src, d, list, list', i, start, c) && start <= c
    requires b == list[i] && IndirectWritten(src, false, d, d', b, b', c, e) && LandedAt(src, d', b, b')
    ensures IndirectsLanded(src, d', list, list'[i := b'], i + 1, start, e)
  {
    IndirectsLandedKept(src, d, d', list, list', i, start, c);
    var after := list'[i := b'];
    forall j | 0 <= j <= i ensures EntryLanded(src, d', list, after, j, start, e)
    {
      if j < i { assert EntryLanded(src, d', list, list', j, start, c); }
    }
  }

  lemma DoublyLandedStep(src: Blocks, d: Blocks, d': Blocks, b: int, words: Words, start: int, c: int, e: int)
    requires b != 0 && b in src && d' == d[c := words] && e == c + 1
    requires IndirectsLanded(src, d, src[b], words, Used(src[b]), start, c)
    ensures DoublyLanded(src, d', b, c, start, e)
  {
    IndirectsLandedKept(src, d, d', src[b], words, Used(src[b]), start, c);
  }

  /** As written, a non-empty tree survives exactly when its pointer block is intact. */
  lemma LandedExactly(src: Blocks, dst: Blocks, b: int, c: int, lo: int, hi: int)
    requires IndirectExists(src, b) && UsedIn(src, b) > 0 && LandedAt(src, dst, b, c)
    requires lo <= c && c + UsedIn(src, b) <= hi
    ensures SameIndirect(src, dst, b, c, lo, hi) <==> Intact(src, b, c)
  {
    var (words, u) := (src[b], Used(src[b]));
    forall j | 0 < j < u
      ensures dst[c][j] == c + j && words[j] in src && dst[c][j] in dst && dst[dst[c][j]] == src[words[j]]
    {
      assert ChildLanded(src, dst, b, c, j);
    }
    assert dst[c][0] == c && words[0] in src;
  }

  lemma FilePut(src: Blocks, reserve: bool, node: Inode, node': Inode, d: Blocks, start: int,
                d1: Blocks, c1: int, d2: Blocks, c2: int, d3: Blocks, c3: int, d4: Blocks, c4: int)
    requires FileExists(src, node) && node'.meta == node.meta && node'.nlink == node.nlink && SameBelow(d, d1, start)
    requires SameLeaves(src, d1, node.dblocks, node'.dblocks, Used(node.dblocks), start, c1)
    requires Consecutive(node'.dblocks, Used(node.dblocks), start) && c1 == start + Used(node.dblocks)
    requires IndirectsWritten(src, reserve, d1, d2, node.iblocks, node'.iblocks, Used(node.iblocks), c1, c2)
    requires DoublyWritten(src, reserve, d2, d3, node.i2block, node'.i2block, c2, c3)
    requires DoublyWritten(src, reserve, d3, d4, node.i3block, node'.i3block, c3, c4)
    requires !reserve ==> IndirectsLanded(src, d2, node.iblocks, node'.iblocks, Used(node.iblocks), c1, c2)
    requires !reserve ==> DoublyLanded(src, d3, node.i2block, node'.i2block, c2, c3)
    requires !reserve ==> DoublyLanded(src, d4, node.i3block, node'.i3block, c3, c4)
    ensures FileWritten(src, reserve, d, d4, node, node', start, c4)
    ensures FileExactly(src, reserve, d4, node, node', start, c4)
    ensures FileParts(src, reserve, d4, node, node', start, c4)
    ensures c4 == start + Span(src, reserve, node)
    ensures FileNumbers(src, d4, node, node')
         == Take(node'.dblocks, Used(node.dblocks))
            + IndirectsNumbers(src, d2, node.iblocks, node'.iblocks, Used(node.iblocks))
            + DoublyNumbers(src, d3, node.i2block, node'.i2block)
            + DoublyNumbers(src, d4, node.i3block, node'.i3block)
  {
    FileDone(src, reserve, node, node', d, start, d1, c1, d2, c2, d3, c3, d4, c4);
    DirectKept(src, node, node', start, d1, c1, d2, c2, d3, c3, d4, c4);
    if !reserve {
      FileLanded(src, node, node', start, d1, c1, d2, c2, d3, c3, d4, c4);
    }
  }

  lemma DirectKept(src: Blocks, node: Inode, node': Inode, start: int,
                   d1: Blocks, c1: int, d2: Blocks, c2: int, d3: Blocks, c3: int, d4: Blocks, c4: int)
    requires start <= c1 <= c2 <= c3 <= c4
    requires SameBelow(d1, d2, c1) && SameBelow(d2, d3, c2) && SameBelow(d3, d4, c3)
    requires SameLeaves(src, d1, node.dblocks, node'.dblocks, Used(node.dblocks), start, c1)
    ensures SameLeaves(src, d4, node.dblocks, node'.dblocks, Used(node.dblocks), start, c4)
  {
    LeavesMonotone(src, d1, d4, node.dblocks, node'.dblocks, Used(node.dblocks), start, c1, c4);
  }

  /** What the loop over pointer blocks has achieved after i turns. */
  ghost predicate Progress(src: Blocks, reserve: bool, d0: Blocks, d: Blocks, list: seq<int>, list': seq<int>,
                           i: nat, start: int, c: int, log0: seq<int>, log: seq<int>) {
    && i <= Used(list)
    && IndirectsWritten(src, reserve, d0, d, list, list', i, start, c)
    && (!reserve ==> IndirectsLanded(src, d, list, list', i, start, c))
    && log == log0 + IndirectsNumbers(src, d, list, list', i)
  }

  lemma LoopStart(src: Blocks, reserve: bool, d: Blocks, list: seq<int>, c: int, log: seq<int>)
    ensures Progress(src, reserve, d, d, list, list, 0, c, c, log, log)
  {}

  lemma LoopEnd(src: Blocks, reserve: bool, d0: Blocks, d: Blocks, list: seq<int>, list': seq<int>,
                i: nat, start: int, c: int, log0: seq<int>, log: seq<int>)
    requires Progress(src, reserve, d0, d, list, list', i, start, c, log0, log) && (i == |list'| || list'[i] == 0)
    ensures i == Used(list)
  {}

  /** One turn of the loop over pointer blocks, in either mode. */
  lemma LoopStep(src: Blocks, reserve: bool, d0: Blocks, d: Blocks, d': Blocks, list: seq<int>, list': seq<int>,
                 i: nat, start: int, c: int, e: int, b: int, b': int, log0: seq<int>, log: seq<int>, log': seq<int>)
    requires i < Used(list) && b == list[i]
    requires Progress(src, reserve, d0, d, list, list', i, start, c, log0, log)
    requires IndirectWritten(src, reserve, d, d', b, b', c, e)
    requires !reserve ==> LandedAt(src, d', b, b')
    requires log' == log + IndirectNumbers(src, d', b, b')
    ensures Progress(src, reserve, d0, d', list, list'[i := b'], i + 1, start, e, log0, log')
  {
    IndirectsStep(src, reserve, d0, d, d', list, list', i, start, c, e, b, b');
    Associative(log0, IndirectsNumbers(src, d, list, list', i), IndirectNumbers(src, d', b, b'));
    if !reserve {
      LandedStep(src, d, d', list, list', i, start, c, e, b, b');
    }
  }

  lemma IndirectsExactly(src: Blocks, dst: Blocks, list: seq<int>, list': seq<int>, start: int, end: int,
                         lo: int, hi: int)
    requires IndirectsExist(src, list) && IndirectsLanded(src, dst, list, list', Used(list), start, end)
    requires NoneEmpty(src, list, Used(list)) && lo <= start && end <= hi
    ensures SameIndirects(src, dst, list, list', Used(list), lo, hi) <==> IndirectsIntact(src, list, Used(list), start)
  {
    if SameIndirects(src, dst, list, list', Used(list), lo, hi) {
      forall i | 0 <= i < Used(list) ensures EntryIntact(src, list, i, start)
      {
        assert SameEntry(src, dst, list, list', i, lo, hi);
        EntryExactly(src, dst, list, list', i, start, end, lo, hi);
      }
    }
    if IndirectsIntact(src, list, Used(list), start) {
      forall i | 0 <= i < Used(list) ensures SameEntry(src, dst, list, list', i, lo, hi)
      {
        assert EntryIntact(src, list, i, start);
        EntryExactly(src, dst, list, list', i, start, end, lo, hi);
      }
    }
  }

  lemma EntryExactly(src: Blocks, dst: Blocks, list: seq<int>, list': seq<int>, i: nat, start: int, end: int,
                     lo: int, hi: int)
    requires i < |list| == |list'| && EntryLanded(src, dst, list, list', i, start, end)
    requires IndirectExists(src, list[i]) && UsedIn(src, list[i]) > 0 && lo <= start && end <= hi
    ensures SameEntry(src, dst, list, list', i, lo, hi) <==> EntryIntact(src, list, i, start)
  {
    LandedExactly(src, dst, list[i], list'[i], lo, hi);
  }

  lemma DoublyExactly(src: Blocks, dst: Blocks, b: int, b': int, start: int, end: int, lo: int, hi: int)
    requires DoublyExists(src, b) && DoublyLanded(src, dst, b, b', start, end) && lo <= start && end <= hi
    requires b != 0 ==> NoneEmpty(src, At(src, b), UsedIn(src, b))
    ensures SameDoubly(src, dst, b, b', lo, hi) <==> DoublyIntact(src, b, start)
  {
    if b != 0 {
      IndirectsExactly(src, dst, src[b], dst[b'], start, b', lo, hi);
    }
  }

  lemma DoublyLandedKept(src: Blocks, d: Blocks, d': Blocks, b: int, b': int, start: int, end: int)
    requires DoublyLanded(src, d, b, b', start, end) && SameBelow(d, d', end)
    ensures DoublyLanded(src, d', b, b', start, end)
  {
    if b != 0 {
      IndirectsLandedKept(src, d, d', At(src, b), d[b'], UsedIn(src, b), start, b');
    }
  }

  lemma FileLanded(src: Blocks, node: Inode, node': Inode, start: int,
                   d1: Blocks, c1: int, d2: Blocks, c2: int, d3: Blocks, c3: int, d4: Blocks, c4: int)
    requires FileExists(src, node) && node'.meta == node.meta && node'.nlink == node.nlink
    requires start <= c1 <= c2 <= c3 <= c4 && c1 == start + Used(node.dblocks)
    requires SameBelow(d1, d2, c1) && SameBelow(d2, d3, c2) && SameBelow(d3, d4, c3)
    requires SameLeaves(src, d1, node.dblocks, node'.dblocks, Used(node.dblocks), start, c1)
    requires IndirectsLanded(src, d2, node.iblocks, node'.iblocks, Used(node.iblocks), c1, c2)
    requires DoublyLanded(src, d3, node.i2block, node'.i2block, c2, c3)
    requires DoublyLanded(src, d4, node.i3block, node'.i3block, c3, c4)
    ensures FileExactly(src, false, d4, node, node', start, c4)
    ensures PartsLanded(src, d4, node, node', start, c4)
  {
    DirectKept(src, node, node', start, d1, c1, d2, c2, d3, c3, d4, c4);
    IndirectsLandedKept(src, d2, d4, node.iblocks, node'.iblocks, Used(node.iblocks), c1, c2);
    DoublyLandedKept(src, d3, d4, node.i2block, node'.i2block, c2, c3);
    FileExact(src, d4, node, node', start, c1, c2, c3, c4);
  }

  lemma FileExact(src: Blocks, dst: Blocks, node: Inode, node': Inode, start: int, c1: int, c2: int, c3: int, c4: int)
    requires FileExists(src, node) && node'.meta == node.meta && node'.nlink == node.nlink
    requires start <= c1 <= c2 <= c3 <= c4 && c1 == start + Used(node.dblocks)
    requires SameLeaves(src, dst, node.dblocks, node'.dblocks, Used(node.dblocks), start, c4)
    requires IndirectsLanded(src, dst, node.iblocks, node'.iblocks, Used(node.iblocks), c1, c2)
    requires DoublyLanded(src, dst, node.i2block, node'.i2block, c2, c3)
    requires DoublyLanded(src, dst, node.i3block, node'.i3block, c3, c4)
    ensures FileExactly(src, false, dst, node, node', start, c4)
    ensures PartsLanded(src, dst, node, node', start, c4)
  {
    assert c1 == IndirectsStart(node, start);
    assert c2 == DoublyStart(src, node, start);
    assert c3 == TriplyStart(src, node, start);
    if NoEmptyPointers(src, node) {
      IndirectsExactly(src, dst, node.iblocks, node'.iblocks, c1, c2, start, c4);
      DoublyExactly(src, dst, node.i2block, node'.i2block, c2, c3, start, c4);
      DoublyExactly(src, dst, node.i3block, node'.i3block, c3, c4, start, c4);
    }
  }

  lemma NextUsed(src: Blocks, reserve: bool, d0: Blocks, d: Blocks, list: seq<int>, list': seq<int>,
                 i: nat, start: int, c: int, log0: seq<int>, log: seq<int>)
    requires Progress(src, reserve, d0, d, list, list', i, start, c, log0, log)
    requires IndirectsExist(src, list) && i < |list'| && list'[i] != 0
    ensures i < Used(list) && list'[i] == list[i] && IndirectExists(src, list'[i])
  {}

  lemma NumbersStep(src: Blocks, d: Blocks, d': Blocks, list: seq<int>, list': seq<int>, i: nat, c: int, b': int)
    requires i < |list| == |list'| && IndirectsBelow(src, list, list', i, c) && SameBelow(d, d', c)
    ensures IndirectsNumbers(src, d', list, list'[i := b'], i + 1)
         == IndirectsNumbers(src, d, list, list', i) + IndirectNumbers(src, d', list[i], b')
  {
    IndirectsNumbersKept(src, d, d', list, list', i, c);
    IndirectsNumbersPrefix(src, d', list, list', list'[i := b'], i);
  }

  lemma MovedStep(src: Blocks, d: Blocks, d': Blocks, list: seq<int>, list': seq<int>, i: nat,
                  start: int, c: int, e: int)
    requires i < |list| && Moved(src, d, list, list', i, start, c) && IndirectsBelow(src, list, list', i, c)
    requires SameBelow(d, d', c) && e == c + 1 + UsedIn(src, list[i])
    requires Fills(IndirectNumbers(src, d', list[i], c), c, e) && SameIndirect(src, d', list[i], c, c, e)
    ensures Moved(src, d', list, list'[i := c], i + 1, start, e)
  {
    SameStep(src, d, d', list, list', i, start, c, e);
    NumbersStep(src, d, d', list, list', i, c, c);
    FillsJoin(IndirectsNumbers(src, d, list, list', i), IndirectNumbers(src, d', list[i], c), start, c, e);
  }

  lemma IndirectsStep(src: Blocks, reserve: bool, d0: Blocks, d: Blocks, d': Blocks, list: seq<int>, list': seq<int>,
                      i: nat, start: int, c: int, e: int, b: int, b': int)
    requires i < |list| && IndirectsWritten(src, reserve, d0, d, list, list', i, start, c)
    requires b == list[i] && IndirectWritten(src, reserve, d, d', b, b', c, e)
    ensures IndirectsWritten(src, reserve, d0, d', list, list'[i := b'], i + 1, start, e)
    ensures IndirectsNumbers(src, d', list, list'[i := b'], i + 1)
         == IndirectsNumbers(src, d, list, list', i) + IndirectNumbers(src, d', b, b')
  {
    NumbersStep(src, d, d', list, list', i, c, b');
    if reserve {
      MovedStep(src, d, d', list, list', i, start, c, e);
    }
  }

  lemma SameStep(src: Blocks, d: Blocks, d': Blocks, list: seq<int>, list': seq<int>, i: nat,
                 start: int, c: int, e: int)
    requires i < |list| && SameIndirects(src, d, list, list', i, start, c) && SameBelow(d, d', c)
    requires start <= c <= e && SameIndirect(src, d', list[i], c, c, e)
    ensures SameIndirects(src, d', list, list'[i := c], i + 1, start, e)
  {
    var after := list'[i := c];
    forall j | 0 <= j <= i ensures SameEntry(src, d', list, after, j, start, e)
    {
      if j < i {
        assert SameEntry(src, d, list, list', j, start, c);
        IndirectMonotone(src, d, d', list[j], list'[j], start, c, e);
      }
    }
  }
}
