/** Chains, geometry and block-wise reading of FAT-16 images in general. */
module FatLaws {
  import opened Basics
  import opened Bytes
  import opened ShortNames
  import opened FatImage
  import opened FatVolume

  // ---- families of chains ----

  /** The lists are chains of the image, and no two of them share a cluster. */
  ghost predicate Family(img: seq<byte>, lists: seq<seq<int>>) {
    && (forall i :: 0 <= i < |lists| ==> lists[i] != [] && Chain(img, lists[i][0], lists[i]))
    && (forall i, j :: 0 <= i < j < |lists| ==> Disjoint(lists[i], lists[j]))
  }

  ghost predicate Disjoint(a: seq<int>, b: seq<int>) {
    forall i :: 0 <= i < |a| ==> a[i] !in b
  }

  lemma {:induction false} ChainUsed(img: seq<byte>, c: int, list: seq<int>, i: nat)
    requires Chain(img, c, list) && i < |list|
    ensures FatAt(img, list[i]) >= 2 && 2 <= list[i] < END_OF_CHAIN
    decreases |list|
  {
    if i > 0 { ChainUsed(img, FatAt(img, c), list[1..], i - 1); }
    else if list[1..] != [] { assert FatAt(img, c) == list[1..][0]; }
  }

  /** The cluster that allocation picks belongs to no chain, and becomes a chain of its own
      beside all the others. */
  lemma AllocateKeeps(img: seq<byte>, lists: seq<seq<int>>, c: int)
    requires Mounted(img) && Family(img, lists) && FreeEntry(img, c) && c < END_OF_CHAIN
    ensures forall i :: 0 <= i < |lists| ==> c !in lists[i]
    ensures Mounted(EndChain(img, c)) && Family(EndChain(img, c), lists + [[c]])
    ensures FatAt(EndChain(img, c), c) == 0xFFF8
  {
    var img' := EndChain(img, c);
    EntryWritten(img, c, END_OF_CHAIN);
    forall i | 0 <= i < |lists| ensures c !in lists[i] && Chain(img', lists[i][0], lists[i])
    {
      if c in lists[i] {
        var k :| 0 <= k < |lists[i]| && lists[i][k] == c;
        ChainUsed(img, lists[i][0], lists[i], k);
      }
      ChainKept(img, img', lists[i][0], lists[i], [c]);
    }
    assert [c][1..] == [];
    assert Chain(img', c, [c]);
    var all := lists + [[c]];
    forall i, j | 0 <= i < j < |all| ensures Disjoint(all[i], all[j])
    {
      if j == |lists| { assert forall k :: 0 <= k < |lists[i]| ==> lists[i][k] in lists[i]; }
    }
  }

  /** Freeing one chain zeroes exactly its entries and leaves every other chain intact. */
  lemma FreeKeeps(img: seq<byte>, img': seq<byte>, lists: seq<seq<int>>, m: nat)
    requires Family(img, lists) && m < |lists| && TableChanged(img, img', lists[m])
    ensures Family(img', lists[..m] + lists[m + 1..])
  {
    var rest := lists[..m] + lists[m + 1..];
    forall i | 0 <= i < |lists| && i != m ensures Chain(img', lists[i][0], lists[i])
    {
      forall k | 0 <= k < |lists[i]| ensures lists[i][k] !in lists[m]
      {
        if i < m { assert Disjoint(lists[i], lists[m]); } else { assert Disjoint(lists[m], lists[i]); }
      }
      ChainKept(img, img', lists[i][0], lists[i], lists[m]);
    }
    forall i, j | 0 <= i < j < |rest| ensures Disjoint(rest[i], rest[j])
    {
      assert rest[i] == lists[if i < m then i else i + 1] && rest[j] == lists[if j < m then j else j + 1];
    }
    forall i | 0 <= i < |rest| ensures rest[i] != [] && Chain(img', rest[i][0], rest[i])
    {
      assert rest[i] == lists[if i < m then i else i + 1];
    }
  }

  /** Freed clusters can be allocated again: the lowest of them, unless a lower one was free before. */
  lemma FreedReusable(img: seq<byte>, img': seq<byte>, list: seq<int>, c: int)
    requires Mounted(img) && Mounted(img') && TableChanged(img, img', list) && |img| >= BOOT_SIZE
    requires forall i :: 0 <= i < |list| ==> FatAt(img', list[i]) == 0
    requires c in list && 2 <= c < ParseBoot(img).ClusterCount() && HasFatEntry(img, c)
    requires forall j :: 2 <= j < c ==> HasFatEntry(img, j) && FatAt(img, j) != 0 && j !in list
    ensures FreeEntry(img', c)
  {
    assert forall j :: 2 <= j < c ==> FatAt(img', j) == FatAt(img, j);
  }

  // ---- searching the root directory ----

  // the first byte of slot k decides: 0 ends the directory, 0xE5 marks a deleted entry

  ghost function MarkAt(img: seq<byte>, k: int): byte { ByteAt(img, ParseBoot(img).RootOffset() + 32 * k) }

  /** find_file stops at slot k exactly when no slot up to k starts with 0 and k is the first
      that matches: it looks at nothing behind the end mark, and passes over no deleted entry. */
  lemma FirstMatch(img: seq<byte>, name: Name, k: int)
    ensures Hit(img, name, k) <==>
      && HasSlot(img, k) && (forall j :: 0 <= j <= k ==> MarkAt(img, j) != 0)
      && NameMatches(img, k, name) && forall j :: 0 <= j < k ==> !NameMatches(img, j, name)
  {
    if HasSlot(img, k) {
      forall j | 0 <= j <= k ensures HasSlot(img, j) && FirstOf(img, j) == MarkAt(img, j)
      {
        assert ParseBoot(img).Slot(j) <= ParseBoot(img).Slot(k);
      }
    }
  }

  /** A new entry goes to the first slot that is deleted or was never used. */
  lemma DeletedIsReused(img: seq<byte>, k: int)
    ensures Vacant(img, k) <==>
      && HasSlot(img, k) && (MarkAt(img, k) == 0 || MarkAt(img, k) == 0xE5)
      && forall j :: 0 <= j < k ==> MarkAt(img, j) != 0 && MarkAt(img, j) != 0xE5
  {
    if HasSlot(img, k) {
      forall j | 0 <= j <= k ensures HasSlot(img, j) && FirstOf(img, j) == MarkAt(img, j)
      {
        assert ParseBoot(img).Slot(j) <= ParseBoot(img).Slot(k);
      }
    }
  }

  /** What allocation takes, read off the boot sector: the lowest entry from 2 up that is 0, below
      the sector count (the 16-bit one unless it is 0) divided by the sectors of a cluster. */
  lemma LowestFree(img: seq<byte>, c: int)
    requires Mounted(img)
    ensures FreeEntry(img, c) <==>
      && |img| >= 62 && 2 <= c < Clusters(img) && HasWord(img, c) && FatWord(img, c) == 0
      && forall j :: 2 <= j < c ==> HasWord(img, j) && FatWord(img, j) != 0
  {
    forall j ensures FatWord(img, j) == FatAt(img, j)
    {}
    if |img| >= 62 {
      forall j | j >= 0 ensures HasWord(img, j) <==> HasFatEntry(img, j)
      {}
    }
  }

  ghost function Clusters(img: seq<byte>): int {
    if ByteAt(img, 13) == 0 then 0
    else (if U16(img, 19) != 0 then U16(img, 19) else U32(img, 32)) / ByteAt(img, 13) as int
  }

  ghost predicate HasWord(img: seq<byte>, i: int) { ParseBoot(img).FatOffset() + 2 * i + 2 <= |img| }

  ghost function FatWord(img: seq<byte>, i: int): int { U16(img, ParseBoot(img).FatOffset() + 2 * i) }

  /** The successor of a cluster: what the table says below 0xFFF8, 0xFFFF otherwise. */
  lemma NextMeans(img: seq<byte>, c: int)
    requires |img| >= BOOT_SIZE && c >= 0
    ensures var off := ParseBoot(img).FatOffset() + 2 * c;
      NextOf(img, c) == if off + 2 <= |img| && U16(img, off) < 0xFFF8 then U16(img, off) else 0xFFFF
  {}

  // ---- reading whole blocks ----

  /** What reading a chain yields: the bytes of its i-th cluster come right after the contents of
      the clusters before it. */
  lemma ContentOrder(img: seq<byte>, list: seq<int>, i: nat)
    requires i < |list|
    ensures Content(img, list[..i]) + ClusterData(img, list[i]) <= Content(img, list)
  {
    ContentSnoc(img, list[..i], list[i]);
    assert list[..i] + [list[i]] == list[..i + 1];
    ContentPrefix(img, list, i + 1);
  }

  lemma ContentSnoc(img: seq<byte>, front: seq<int>, c: int)
    ensures Content(img, front + [c]) == Content(img, front) + ClusterData(img, c)
  {
    assert (front + [c])[..|front + [c]| - 1] == front;
  }

  /** And byte q of a cluster is the byte of the image at the cluster's offset plus q. */
  lemma ClusterByte(img: seq<byte>, c: int, q: nat)
    requires ParseBoot(img).Usable() && c >= 2 && q < |ClusterData(img, c)|
    ensures q < 512
    ensures ClusterData(img, c)[q]
         == ByteAt(img, ParseBoot(img).DataOffset() + (c - 2) * ParseBoot(img).ClusterSize() + q)
  {
    var off := ParseBoot(img).ClusterOffset(c);
    assert ClusterData(img, c)[q] == ByteAt(img, off + q);
  }

  lemma {:induction false} FullPrefix(img: seq<byte>, list: seq<int>, k: nat)
    requires FullButLast(img, list) && k < |list|
    ensures |Content(img, list[..k])| == k * BLOCK_SIZE
  {
    if k > 0 {
      assert list[..k][..k - 1] == list[..k - 1];
      FullPrefix(img, list, k - 1);
    } else {
      assert list[..0] == [];
    }
  }

  /** A read of k blocks uses up k clusters, or the whole chain if it is shorter. */
  lemma BlocksUsed(img: seq<byte>, list: seq<int>, k: nat, j: nat)
    requires FullButLast(img, list) && NonEmpty(img, list, |list|) && j <= |list|
    requires j > 0 ==> |Content(img, list[..j - 1])| < k * BLOCK_SIZE
    requires |Content(img, list[..j])| >= k * BLOCK_SIZE || j == |list|
    ensures j == if k < |list| then k else |list|
  {
    if j < |list| { FullPrefix(img, list, j); }
    if j > 0 { FullPrefix(img, list, j - 1); }
  }

  lemma LastSize(img: seq<byte>, list: seq<int>)
    requires list != []
    ensures |Content(img, list)| <= |Content(img, list[..|list| - 1])| + BLOCK_SIZE
  {}

  /** Reading k blocks and then m blocks gives what reading k + m blocks gives. */
  lemma BlocksCompose(img: seq<byte>, list: seq<int>, k: nat, m: nat)
    requires FullButLast(img, list)
    ensures var j := if k < |list| then k else |list|;
      Take(Content(img, list), k * BLOCK_SIZE) + Take(Content(img, list[j..]), m * BLOCK_SIZE)
      == Take(Content(img, list), (k + m) * BLOCK_SIZE)
  {
    var j := if k < |list| then k else |list|;
    assert list == list[..j] + list[j..];
    ContentJoin(img, list[..j], list[j..]);
    var (a, b) := (Content(img, list[..j]), Content(img, list[j..]));
    if k < |list| {
      FullPrefix(img, list, k);
      TakeSplit(a, b, k * BLOCK_SIZE, m * BLOCK_SIZE);
    } else {
      assert list[..j] == list && list[j..] == [];
      WholeSize(img, list, k);
    }
  }

  lemma TakeSplit(a: seq<byte>, b: seq<byte>, n: nat, m: nat)
    requires |a| == n
    ensures Take(a + b, n) + Take(b, m) == Take(a + b, n + m)
  {}

  lemma WholeSize(img: seq<byte>, list: seq<int>, k: nat)
    requires FullButLast(img, list) && |list| <= k
    ensures |Content(img, list)| <= k * BLOCK_SIZE
  {
    if list != [] {
      FullPrefix(img, list, |list| - 1);
      LastSize(img, list);
    }
  }

  /** The loop of cat_command: reading 512 bytes at a time terminates and yields the chain. */
  method Cat(vn: Vnode, ghost list: seq<int>) returns (out: seq<byte>)
    requires Mounted(vn.image) && |vn.image| >= BOOT_SIZE && Chain(vn.image, vn.fatPtr, list)
    requires FullButLast(vn.image, list) && NonEmpty(vn.image, list, |list|)
    modifies vn`pos, vn`fatPtr
    ensures out == Content(vn.image, list)
  {
    out := [];
    ghost var i: nat := 0;
    assert list[0..] == list;
    var buffer, j := vn.ReadFile(BLOCK_SIZE, list);
    while |buffer| > 0
      invariant i + j <= |list| && Chain(vn.image, vn.fatPtr, list[i + j..])
      invariant out == Content(vn.image, list[..i])
      invariant CatRead(vn.image, list, i, buffer, j)
      decreases |list| - i
    {
      CatStep(vn.image, list, i, buffer, j);
      out := out + buffer;
      i := i + j;
      RestReadable(vn.image, list, i);
      buffer, j := vn.ReadFile(BLOCK_SIZE, list[i..]);
      assert list[i..][j..] == list[i + j..];
    }
    CatDone(vn.image, list, i, buffer, j);
  }

  /** `buffer` is one block read at cluster i of the list, using up j clusters. */
  ghost predicate CatRead(img: seq<byte>, list: seq<int>, i: nat, buffer: seq<byte>, j: nat) {
    && i + j <= |list| && FullButLast(img, list) && NonEmpty(img, list, |list|)
    && buffer == Take(Content(img, list[i..]), BLOCK_SIZE)
    && (j > 0 ==> |Content(img, list[i..][..j - 1])| < BLOCK_SIZE)
    && (|Content(img, list[i..][..j])| >= BLOCK_SIZE || i + j == |list|)
  }

  lemma RestReadable(img: seq<byte>, list: seq<int>, i: nat)
    requires i <= |list| && FullButLast(img, list) && NonEmpty(img, list, |list|)
    ensures FullButLast(img, list[i..]) && NonEmpty(img, list[i..], |list| - i)
  {}

  /** A read of one block uses up exactly the first cluster. */
  lemma OneCluster(img: seq<byte>, rest: seq<int>, j: nat)
    requires rest != [] && FullButLast(img, rest) && j <= |rest|
    requires j > 0 ==> |Content(img, rest[..j - 1])| < BLOCK_SIZE
    requires |Content(img, rest[..j])| >= BLOCK_SIZE || j == |rest|
    ensures j == 1
  {
    if j > 0 { FullPrefix(img, rest, j - 1); }
  }

  lemma ContentHead(img: seq<byte>, rest: seq<int>)
    requires rest != []
    ensures Content(img, rest) == ClusterData(img, rest[0]) + Content(img, rest[1..])
  {
    assert rest == [rest[0]] + rest[1..];
    assert [rest[0]][..0] == [];
    ContentJoin(img, [rest[0]], rest[1..]);
  }

  lemma FirstBlock(img: seq<byte>, rest: seq<int>)
    requires rest != [] && FullButLast(img, rest)
    ensures Take(Content(img, rest), BLOCK_SIZE) == ClusterData(img, rest[0])
  {
    ContentHead(img, rest);
    if |rest| == 1 { assert rest[1..] == []; }
  }

  lemma CatStep(img: seq<byte>, list: seq<int>, i: nat, buffer: seq<byte>, j: nat)
    requires CatRead(img, list, i, buffer, j) && buffer != []
    ensures j == 1 && i < |list| && Content(img, list[..i]) + buffer == Content(img, list[..i + 1])
  {
    assert Content(img, list[i..]) != [];
    RestReadable(img, list, i);
    OneCluster(img, list[i..], j);
    FirstBlock(img, list[i..]);
    assert list[..i + 1][..i] == list[..i];
  }

  lemma EmptyContent(img: seq<byte>, rest: seq<int>)
    requires Content(img, rest) == [] && NonEmpty(img, rest, |rest|)
    ensures rest == []
  {
    if rest != [] { ContentHead(img, rest); }
  }

  lemma CatDone(img: seq<byte>, list: seq<int>, i: nat, buffer: seq<byte>, j: nat)
    requires CatRead(img, list, i, buffer, j) && buffer == []
    ensures Content(img, list[..i]) == Content(img, list)
  {
    RestReadable(img, list, i);
    EmptyContent(img, list[i..]);
    assert list[..i] == list;
  }

  // ---- geometry ----

  /** Where things lie, from the bytes of the boot sector. */
  lemma Geometry(img: seq<byte>)
    requires U16(img, 11) > 0
    ensures var (b, sector) := (ParseBoot(img), U16(img, 11));
      var fats := U16(img, 14) + ByteAt(img, 16) as int * U16(img, 22);
      && b.FatOffset() == U16(img, 14) * sector
      && b.RootOffset() == fats * sector
      && b.DataOffset() == (fats + U16(img, 17) * 32 / sector) * sector
      && b.ClusterSize() == ByteAt(img, 13) as int * sector
  {}

  /** The complete entries of the root directory. */
  lemma SlotMeans(img: seq<byte>, k: int)
    ensures HasSlot(img, k) <==>
      |img| >= 62 && 0 <= k < U16(img, 17) && ParseBoot(img).RootOffset() + 32 * k + 32 <= |img|
  {}

  /** Boot sector, tables and root directory follow each other. */
  lemma SystemArea(b: Boot)
    requires b.Usable()
    ensures BOOT_SIZE <= b.FatOffset() && b.FatOffset() + b.numFats * b.fatSize * b.bytesPerSector == b.RootOffset()
  {
    Distribute(b.reserved, b.numFats * b.fatSize, b.bytesPerSector);
  }

  /** The root directory ends before the data exactly when its size is a multiple of the sector size. */
  lemma RootBeforeData(b: Boot)
    requires b.Usable()
    ensures b.Slot(b.rootEntries) <= b.DataOffset() <==> b.rootEntries * ENTRY_SIZE % b.bytesPerSector == 0
  {
    var (n, s) := (b.rootEntries * ENTRY_SIZE, b.bytesPerSector);
    Distribute(b.reserved + b.numFats * b.fatSize, n / s, s);
    Divide(n, s);
  }

  lemma Divide(n: int, s: int)
    requires s > 0
    ensures n == n / s * s + n % s && 0 <= n % s
  {}

  /** Clusters from 2 up lie behind the root directory and do not overlap. */
  lemma ClustersDisjoint(b: Boot, c: int, c': int)
    requires b.Usable() && 2 <= c < c'
    ensures b.DataOffset() <= b.ClusterOffset(c) && b.ClusterOffset(c) + b.ClusterSize() <= b.ClusterOffset(c')
  {
    Ordered(c - 2, c' - 2, b.ClusterSize());
  }

  lemma Ordered(x: int, y: int, size: int)
    requires x < y && size > 0
    ensures x * size + size <= y * size
  {
    NonNegative(y - x - 1, size);
    Distribute(y - x - 1, x + 1, size);
    Distribute(x, 1, size);
  }
}
