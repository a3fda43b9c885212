/** A FAT-16 disk image as bytes: boot sector, file allocation table, root directory, data
    clusters and cluster chains. */
module FatImage {
  import opened Basics
  import opened Bytes
  import opened ShortNames

  const BOOT_SIZE := 62    // sizeof(struct fat16_boot_sector), packed
  const ENTRY_SIZE := 32   // sizeof(struct fat16_entry)
  const BLOCK_SIZE := 512
  const END_OF_CHAIN := 0xFFF8

  /** The boot sector fields the layer uses. */
  datatype Boot = Boot(bytesPerSector: int, sectorsPerCluster: int, reserved: int, numFats: int, rootEntries: int,
                       totalShort: int, fatSize: int, totalLong: int)
  {
    function FatOffset(): int { reserved * bytesPerSector }

    function FatEntry(i: int): int { FatOffset() + 2 * i }

    function RootOffset(): (off: int)
      ensures Usable() ==> off >= FatOffset()
    {
      assert Usable() ==> (numFats * fatSize) * bytesPerSector >= 0;
      (reserved + numFats * fatSize) * bytesPerSector
    }

    function Slot(k: int): int { RootOffset() + ENTRY_SIZE * k }

    function DataOffset(): (off: int)
      requires bytesPerSector > 0
      ensures Usable() ==> off >= RootOffset()
    {
      assert Usable() ==> (rootEntries * ENTRY_SIZE / bytesPerSector) * bytesPerSector >= 0;
      (reserved + numFats * fatSize + rootEntries * ENTRY_SIZE / bytesPerSector) * bytesPerSector
    }

    function ClusterOffset(c: int): (off: int)
      requires bytesPerSector > 0
      ensures Usable() && c >= 2 ==> off >= DataOffset()
    {
      assert Usable() && c >= 2 ==> (c - 2) * ClusterSize() >= 0;
      DataOffset() + (c - 2) * ClusterSize()
    }

    function ClusterSize(): int { sectorsPerCluster * bytesPerSector }

    function ClusterCount(): int
      requires sectorsPerCluster > 0
    {
      (if totalShort != 0 then totalShort else totalLong) / sectorsPerCluster
    }

    /** What the code divides by is not 0, the boot sector itself is reserved, and cluster
        numbers fit 16 bits. */
    predicate Usable() {
      && bytesPerSector > 0 && sectorsPerCluster > 0 && reserved * bytesPerSector >= BOOT_SIZE
      && numFats >= 0 && fatSize >= 0 && rootEntries >= 0 && ClusterCount() <= 65536
    }
  }

  function ParseBoot(img: seq<byte>): Boot {
    Boot(U16(img, 11), ByteAt(img, 13), U16(img, 14), ByteAt(img, 16), U16(img, 17), U16(img, 19), U16(img, 22),
         U32(img, 32))
  }

  ghost predicate Mounted(img: seq<byte>) {
    |img| >= BOOT_SIZE ==> ParseBoot(img).Usable()
  }

  // ---- directory entries ----

  // byte positions inside an entry; the struct has no word for the high half of the cluster,
  // so the cluster lies at 24 and the size, aligned to 4, at 28
  const CLUSTER_FIELD := 24
  const SIZE_FIELD := 28

  /** A complete root directory entry number k is in the image. */
  ghost predicate HasSlot(img: seq<byte>, k: int) {
    |img| >= BOOT_SIZE && 0 <= k < ParseBoot(img).rootEntries && ParseBoot(img).Slot(k) + ENTRY_SIZE <= |img|
  }

  ghost predicate NameMatches(img: seq<byte>, k: int, name: Name) {
    var e := ReadAt(img, if ParseBoot(img).Slot(k) >= 0 then ParseBoot(img).Slot(k) else 0, ENTRY_SIZE);
    |e| >= 11 && Fold(Decode(e)) == Fold(name)
  }

  ghost function FirstOf(img: seq<byte>, k: int): byte { ByteAt(img, ParseBoot(img).Slot(k)) }

  /** find_file stops at slot k: the first match, with no end mark before it. */
  ghost predicate Hit(img: seq<byte>, name: Name, k: int) {
    && HasSlot(img, k) && FirstOf(img, k) != 0 && NameMatches(img, k, name)
    && forall j :: 0 <= j < k ==> HasSlot(img, j) && FirstOf(img, j) != 0 && !NameMatches(img, j, name)
  }

  /** Slots below i are passed over without a match, and the search cannot get past slot i. */
  lemma NoHit(img: seq<byte>, name: Name, i: int)
    requires i >= 0 && !(HasSlot(img, i) && FirstOf(img, i) != 0)
    requires forall j :: 0 <= j < i ==> !NameMatches(img, j, name)
    ensures forall j :: !Hit(img, name, j)
  {
    forall j ensures !Hit(img, name, j)
    {
      if j > i { assert Hit(img, name, j) ==> HasSlot(img, i) && FirstOf(img, i) != 0; }
    }
  }

  ghost predicate Unused(img: seq<byte>, k: int) { FirstOf(img, k) == 0 || FirstOf(img, k) == 0xE5 }

  /** find_free_root_entry stops at slot k. */
  ghost predicate Vacant(img: seq<byte>, k: int) {
    && HasSlot(img, k) && Unused(img, k)
    && forall j :: 0 <= j < k ==> HasSlot(img, j) && !Unused(img, j)
  }

  /** The entry that fat16_write stores, given the entry `e` it read. */
  ghost function NewEntry(e: seq<byte>, name: Name, cluster: int, size: int): (r: seq<byte>)
    requires |e| == ENTRY_SIZE && 0 <= cluster < 65536 && 0 <= size < 0x1_0000_0000
    ensures |r| == ENTRY_SIZE
  {
    Encode(name) + [0x20] + e[12..CLUSTER_FIELD] + U16Bytes(cluster) + e[26..SIZE_FIELD] + U32Bytes(size)
  }

  // ---- the file allocation table ----

  ghost function FatAt(img: seq<byte>, i: int): int { U16(img, ParseBoot(img).FatEntry(i)) }

  ghost predicate HasFatEntry(img: seq<byte>, i: int) {
    |img| >= BOOT_SIZE && 0 <= i && ParseBoot(img).FatEntry(i) + 2 <= |img|
  }

  /** allocate_cluster stops at entry i: the lowest free one. */
  ghost predicate FreeEntry(img: seq<byte>, i: int)
    requires Mounted(img)
  {
    && HasFatEntry(img, i) && 2 <= i < ParseBoot(img).ClusterCount() && FatAt(img, i) == 0
    && forall j :: 2 <= j < i ==> HasFatEntry(img, j) && FatAt(img, j) != 0
  }

  ghost function StoredCluster(img: seq<byte>, deo: int): int { U16(img, deo + CLUSTER_FIELD) }

  /** The cluster that a write through the entry at `deo` uses. */
  ghost predicate Allocates(img: seq<byte>, deo: int, c: int)
    requires Mounted(img)
  {
    if StoredCluster(img, deo) == 0 then FreeEntry(img, c) else c == StoredCluster(img, deo)
  }

  ghost function EndChain(img: seq<byte>, c: int): seq<byte>
    requires Mounted(img) && |img| >= BOOT_SIZE && c >= 0
  {
    WriteAt(img, ParseBoot(img).FatEntry(c), U16Bytes(END_OF_CHAIN))
  }

  /** The image once the cluster is claimed. */
  ghost function Claimed(img: seq<byte>, deo: int, c: int): (r: seq<byte>)
    requires Mounted(img) && |img| >= BOOT_SIZE && c >= 0
    ensures Mounted(r) && |r| >= BOOT_SIZE && ParseBoot(r) == ParseBoot(img)
  {
    BootKept(img, ParseBoot(img).FatEntry(c), U16Bytes(END_OF_CHAIN));
    if StoredCluster(img, deo) == 0 then EndChain(img, c) else img
  }

  /** Data at `co`, the end mark at `fo`, the directory entry at `deo`, in this order. */
  ghost function Stored(img: seq<byte>, co: int, data: seq<byte>, fo: int, deo: int, e: seq<byte>): seq<byte>
    requires co >= 0 && fo >= 0 && deo >= 0
  {
    WriteAt(WriteAt(WriteAt(img, co, data), fo, U16Bytes(END_OF_CHAIN)), deo, e)
  }

  /** The image after a successful write through the entry at `deo`, with cluster `c`. */
  ghost function Written(img: seq<byte>, deo: int, c: int, data: seq<byte>, name: Name): seq<byte>
    requires Mounted(img) && |img| >= BOOT_SIZE && deo >= 0 && deo + ENTRY_SIZE <= |img|
    requires 2 <= c < 65536 && |data| < 0x1_0000_0000
  {
    var bs := ParseBoot(img);
    Stored(Claimed(img, deo, c), bs.ClusterOffset(c), data, bs.FatEntry(c), deo,
           NewEntry(ReadAt(img, deo, ENTRY_SIZE), name, c, |data|))
  }

  lemma EntryFields(e: seq<byte>, name: Name, c: int, size: int)
    requires |e| == ENTRY_SIZE && 0 <= c < 65536 && 0 <= size < 0x1_0000_0000
    ensures var r := NewEntry(e, name, c, size);
      && (forall q :: 0 <= q < 11 ==> r[q] == Encode(name)[q])
      && r[11] == 0x20
      && (forall q :: 12 <= q < 24 || 26 <= q < 28 ==> r[q] == e[q])
      && U16(r, CLUSTER_FIELD) == c && U32(r, SIZE_FIELD) == size
  {
    var r := NewEntry(e, name, c, size);
    assert r[CLUSTER_FIELD..CLUSTER_FIELD + 2] == U16Bytes(c);
    assert r[SIZE_FIELD..] == U32Bytes(size);
  }

  /** The entry at `deo` after a write: name, plain-file attribute, cluster and size; the other
      14 bytes are those the image had there before. */
  ghost predicate EntryStored(img: seq<byte>, img': seq<byte>, deo: int, c: int, size: int, name: Name) {
    && deo + 32 <= |img'|
    && (forall q :: 0 <= q < 11 ==> ByteAt(img', deo + q) == Encode(name)[q])
    && ByteAt(img', deo + 11) == 0x20
    && (forall p :: deo + 12 <= p < deo + 24 || deo + 26 <= p < deo + 28 ==> ByteAt(img', p) == ByteAt(img, p))
    && U16(img', deo + 24) == c && U32(img', deo + 28) == size
  }

  /** Every successful write stores such an entry, wherever its data went. */
  lemma WrittenEntry(img: seq<byte>, deo: int, c: int, data: seq<byte>, name: Name)
    requires Mounted(img) && |img| >= BOOT_SIZE && deo >= 0 && deo + ENTRY_SIZE <= |img|
    requires 2 <= c < 65536 && |data| < 0x1_0000_0000
    ensures EntryStored(img, Written(img, deo, c, data, name), deo, c, |data|, name)
  {
    var was := ReadAt(img, deo, ENTRY_SIZE);
    EntryFields(was, name, c, |data|);
    EntryLast(img, Written(img, deo, c, data, name), WrittenBefore(img, deo, c, data), deo, was,
              NewEntry(was, name, c, |data|), c, |data|, name);
  }

  lemma EntryLast(img: seq<byte>, img': seq<byte>, img1: seq<byte>, deo: int, was: seq<byte>, e: seq<byte>,
                  c: int, size: int, name: Name)
    requires deo >= 0 && |e| == ENTRY_SIZE && |was| == ENTRY_SIZE && img' == WriteAt(img1, deo, e)
    requires forall q :: 0 <= q < ENTRY_SIZE ==> was[q] == ByteAt(img, deo + q)
    requires (forall q :: 0 <= q < 11 ==> e[q] == Encode(name)[q]) && e[11] == 0x20
    requires forall q :: 12 <= q < 24 || 26 <= q < 28 ==> e[q] == was[q]
    requires U16(e, CLUSTER_FIELD) == c && U32(e, SIZE_FIELD) == size
    ensures EntryStored(img, img', deo, c, size, name)
  {
    StoredLast(img', img1, deo, e);
    forall p | deo + 12 <= p < deo + 24 || deo + 26 <= p < deo + 28 ensures ByteAt(img', p) == ByteAt(img, p)
    {
      var q := p - deo;
      assert e[q] == was[q] && ByteAt(img', deo + q) == e[q] && was[q] == ByteAt(img, deo + q);
    }
  }

  /** The image before the entry itself is written. */
  ghost function WrittenBefore(img: seq<byte>, deo: int, c: int, data: seq<byte>): seq<byte>
    requires Mounted(img) && |img| >= BOOT_SIZE && 2 <= c
  {
    var bs := ParseBoot(img);
    WriteAt(WriteAt(Claimed(img, deo, c), bs.ClusterOffset(c), data), bs.FatEntry(c), U16Bytes(END_OF_CHAIN))
  }

  lemma StoredLast(img': seq<byte>, img: seq<byte>, deo: int, e: seq<byte>)
    requires deo >= 0 && |e| == ENTRY_SIZE && img' == WriteAt(img, deo, e)
    ensures deo + ENTRY_SIZE <= |img'| && forall q :: 0 <= q < ENTRY_SIZE ==> ByteAt(img', deo + q) == e[q]
    ensures U16(img', deo + CLUSTER_FIELD) == U16(e, CLUSTER_FIELD)
    ensures U32(img', deo + SIZE_FIELD) == U32(e, SIZE_FIELD)
  {}

  lemma BootKept(img: seq<byte>, off: int, data: seq<byte>)
    requires off >= BOOT_SIZE && |img| >= BOOT_SIZE
    ensures |WriteAt(img, off, data)| >= BOOT_SIZE && ParseBoot(WriteAt(img, off, data)) == ParseBoot(img)
  {}

  /** Marking a cluster again changes nothing. */
  lemma MarkedTwice(img: seq<byte>, c: int)
    requires Mounted(img) && |img| >= BOOT_SIZE && c >= 0
    ensures var img' := EndChain(img, c);
      Mounted(img') && |img'| >= BOOT_SIZE && ParseBoot(img') == ParseBoot(img) && EndChain(img', c) == img'
  {
    BootKept(img, ParseBoot(img).FatEntry(c), U16Bytes(END_OF_CHAIN));
    WriteTwice(img, ParseBoot(img).FatEntry(c), U16Bytes(END_OF_CHAIN));
  }

  lemma WriteTwice(img: seq<byte>, off: int, data: seq<byte>)
    requires off >= 0
    ensures WriteAt(WriteAt(img, off, data), off, data) == WriteAt(img, off, data)
  {
    var (a, b) := (WriteAt(img, off, data), WriteAt(WriteAt(img, off, data), off, data));
    assert forall k :: 0 <= k < |a| ==> b[k] == ByteAt(b, k) == ByteAt(a, k) == a[k];
  }

  /** Writing back what was read changes nothing. */
  lemma WriteBack(img: seq<byte>, off: int, n: nat)
    requires 0 <= off && off + n <= |img|
    ensures WriteAt(img, off, ReadAt(img, off, n)) == img
  {
    var r := WriteAt(img, off, ReadAt(img, off, n));
    assert forall k :: 0 <= k < |img| ==> r[k] == ByteAt(r, k) == ByteAt(img, k) == img[k];
  }

  // ---- cluster chains ----

  /** Following the table from `c` visits exactly the clusters in `list` and then an end mark. */
  ghost predicate Chain(img: seq<byte>, c: int, list: seq<int>)
    decreases |list|
  {
    if list == [] then END_OF_CHAIN <= c < 65536
    else c == list[0] && 2 <= c < END_OF_CHAIN && HasFatEntry(img, c) && Chain(img, FatAt(img, c), list[1..])
  }

  /** What one read(2) of a cluster yields. */
  ghost function ClusterData(img: seq<byte>, c: int): seq<byte> {
    if c >= 2 && ParseBoot(img).Usable() then ReadAt(img, ParseBoot(img).ClusterOffset(c), BLOCK_SIZE) else []
  }

  ghost function Content(img: seq<byte>, list: seq<int>): seq<byte> {
    if list == [] then [] else Content(img, list[..|list| - 1]) + ClusterData(img, list[|list| - 1])
  }

  /** The first m clusters have at least one byte in the image. */
  ghost predicate NonEmpty(img: seq<byte>, list: seq<int>, m: int) {
    forall i :: 0 <= i < m && i < |list| ==> ClusterData(img, list[i]) != []
  }

  /** Every cluster but the last is wholly inside the image. */
  ghost predicate FullButLast(img: seq<byte>, list: seq<int>) {
    forall i :: 0 <= i < |list| - 1 ==> |ClusterData(img, list[i])| == BLOCK_SIZE
  }

  lemma {:induction false} ContentPrefix(img: seq<byte>, list: seq<int>, j: nat)
    requires j <= |list|
    ensures Content(img, list[..j]) <= Content(img, list)
  {
    if j == |list| { assert list[..j] == list; }
    else {
      var front := list[..|list| - 1];
      assert front[..j] == list[..j];
      ContentPrefix(img, front, j);
    }
  }

  lemma {:induction false} ContentJoin(img: seq<byte>, a: seq<int>, b: seq<int>)
    ensures Content(img, a + b) == Content(img, a) + Content(img, b)
  {
    if b == [] { assert a + b == a; }
    else {
      var (front, last) := (b[..|b| - 1], b[|b| - 1]);
      assert (a + b)[..|a + b| - 1] == a + front;
      ContentJoin(img, a, front);
      Associative(Content(img, a), Content(img, front), ClusterData(img, last));
    }
  }

  /** A chain that ends cannot revisit a cluster. */
  lemma {:induction false} ChainDistinct(img: seq<byte>, c: int, list: seq<int>)
    requires Chain(img, c, list)
    ensures forall i, j :: 0 <= i < j < |list| ==> list[i] != list[j]
    decreases |list|
  {
    if list != [] {
      ChainDistinct(img, FatAt(img, c), list[1..]);
      forall j | 0 < j < |list| ensures list[j] != c
      {
        ChainSuffix(img, c, list, j);
        if list[j] == c { ChainUnique(img, c, list, list[j..]); }
      }
    }
  }

  lemma {:induction false} ChainSuffix(img: seq<byte>, c: int, list: seq<int>, j: nat)
    requires Chain(img, c, list) && j < |list|
    ensures Chain(img, list[j], list[j..])
    decreases |list|
  {
    if j > 0 {
      assert list[1..][j - 1..] == list[j..];
      ChainSuffix(img, FatAt(img, c), list[1..], j - 1);
    } else {
      assert list[0..] == list;
    }
  }

  lemma {:induction false} ChainUnique(img: seq<byte>, c: int, a: seq<int>, b: seq<int>)
    requires Chain(img, c, a) && Chain(img, c, b)
    ensures a == b
    decreases |a|
  {
    if a != [] && b != [] {
      ChainUnique(img, FatAt(img, c), a[1..], b[1..]);
      assert a == [c] + a[1..] && b == [c] + b[1..];
    }
  }

  /** `img'` has the same boot sector and size, and the same table except at `list`. */
  ghost predicate TableChanged(img: seq<byte>, img': seq<byte>, list: seq<int>) {
    && |img'| == |img| && ParseBoot(img') == ParseBoot(img)
    && forall i :: 0 <= i && i !in list ==> FatAt(img', i) == FatAt(img, i)
  }

  /** Byte p belongs to table entry i. */
  ghost predicate InEntry(b: Boot, i: int, p: int) { b.FatEntry(i) <= p < b.FatEntry(i) + 2 }

  /** No byte of the image changed but those of the table entries in `list`. */
  ghost predicate OnlyEntries(img: seq<byte>, img': seq<byte>, list: seq<int>) {
    && |img'| == |img|
    && forall p :: 0 <= p < |img| && img'[p] != img[p] ==> exists i :: i in list && InEntry(ParseBoot(img), i, p)
  }

  lemma OnlyEntriesStep(img0: seq<byte>, img: seq<byte>, img': seq<byte>, list: seq<int>, c: int)
    requires OnlyEntries(img0, img, list) && OnlyEntries(img, img', [c]) && c in list
    requires ParseBoot(img) == ParseBoot(img0)
    ensures OnlyEntries(img0, img', list)
  {
    forall p | 0 <= p < |img0| && img'[p] != img0[p] ensures exists i :: i in list && InEntry(ParseBoot(img0), i, p)
    {
      if img'[p] != img[p] { assert InEntry(ParseBoot(img0), c, p); }
    }
  }

  /** A change of the table elsewhere leaves a chain intact. */
  lemma {:induction false} ChainKept(img: seq<byte>, img': seq<byte>, c: int, chain: seq<int>, list: seq<int>)
    requires Chain(img, c, chain) && TableChanged(img, img', list)
    requires forall i :: 0 <= i < |chain| ==> chain[i] !in list
    ensures Chain(img', c, chain)
    decreases |chain|
  {
    if chain != [] {
      assert chain[0] !in list;
      ChainKept(img, img', FatAt(img, c), chain[1..], list);
    }
  }

  /** Setting one table entry. */
  lemma EntryWritten(img: seq<byte>, c: int, v: int)
    requires Mounted(img) && HasFatEntry(img, c) && 0 <= v < 65536
    ensures var img' := WriteAt(img, ParseBoot(img).FatEntry(c), U16Bytes(v));
      TableChanged(img, img', [c]) && OnlyEntries(img, img', [c]) && FatAt(img', c) == v && Mounted(img')
  {
    BootKept(img, ParseBoot(img).FatEntry(c), U16Bytes(v));
    var img' := WriteAt(img, ParseBoot(img).FatEntry(c), U16Bytes(v));
    forall p | 0 <= p < |img| && img'[p] != img[p] ensures exists i :: i in [c] && InEntry(ParseBoot(img), i, p)
    {
      assert img'[p] == ByteAt(img', p) && img[p] == ByteAt(img, p);
      assert c in [c] && InEntry(ParseBoot(img), c, p);
    }
  }

  /** What get_next_cluster returns. */
  ghost function NextOf(img: seq<byte>, c: int): int {
    if HasFatEntry(img, c) && FatAt(img, c) < END_OF_CHAIN then FatAt(img, c) else 0xFFFF
  }

  lemma ChainNext(img: seq<byte>, img': seq<byte>, c: int, rest: seq<int>)
    requires HasFatEntry(img, c) && Chain(img', FatAt(img, c), rest)
    ensures Chain(img', NextOf(img, c), rest)
  {}

  /** The state of the freeing loop once j clusters of the chain are free. */
  ghost predicate Unlinked(img0: seq<byte>, img: seq<byte>, c: int, list: seq<int>, j: nat) {
    && Mounted(img) && j <= |list| && Chain(img, c, list[j..]) && TableChanged(img0, img, list)
    && OnlyEntries(img0, img, list)
    && (forall i, k :: 0 <= i < k < |list| ==> list[i] != list[k])
    && forall i :: 0 <= i < j ==> 0 <= list[i] && FatAt(img, list[i]) == 0
  }

  lemma UnlinkStep(img0: seq<byte>, img: seq<byte>, c: int, list: seq<int>, j: nat)
    requires Unlinked(img0, img, c, list, j) && c < END_OF_CHAIN
    ensures HasFatEntry(img, c) && 0 <= c && j < |list|
    ensures Unlinked(img0, WriteAt(img, ParseBoot(img).FatEntry(c), U16Bytes(0)), NextOf(img, c), list, j + 1)
  {
    assert list[j..][1..] == list[j + 1..];
    assert c == list[j];
    EntryWritten(img, c, 0);
    var img' := WriteAt(img, ParseBoot(img).FatEntry(c), U16Bytes(0));
    OnlyEntriesStep(img0, img, img', list, c);
    ChainKept(img, img', FatAt(img, c), list[j + 1..], [c]);
    ChainNext(img, img', c, list[j + 1..]);
  }

  /** The state of the reading loop once j clusters are used up. */
  ghost predicate Reading(img: seq<byte>, c: int, list: seq<int>, n: nat, data: seq<byte>, j: nat) {
    && j <= |list| && Chain(img, c, list[j..])
    && data == Take(Content(img, list[..j]), n)
    && (j > 0 ==> |Content(img, list[..j - 1])| < n)
  }

  lemma ReadStep(img: seq<byte>, c: int, list: seq<int>, n: nat, data: seq<byte>, j: nat)
    requires Mounted(img) && Reading(img, c, list, n, data, j) && c < END_OF_CHAIN && |data| < n
    ensures HasFatEntry(img, c) && 2 <= c && j < |list| && c == list[j]
    ensures var b := ClusterData(img, c);
      && Reading(img, NextOf(img, c), list, n, data + Take(b, n - |data|), j + 1)
      && (Take(b, n - |data|) == [] <==> b == [])
    ensures 0 < NextOf(img, c) && (NextOf(img, c) < END_OF_CHAIN || NextOf(img, c) == 0xFFFF)
  {
    assert list[j..][1..] == list[j + 1..];
    assert c == list[j];
    ChainNext(img, img, c, list[j + 1..]);
    assert list[..j + 1][..j] == list[..j] && list[..j + 1][j] == c;
    TakeMore(Content(img, list[..j]), ClusterData(img, c), n);
  }

  /** The loop has all it wants, is at the end of the chain, or found its last cluster empty. */
  lemma ReadDone(img: seq<byte>, c: int, list: seq<int>, n: nat, data: seq<byte>, j: nat)
    requires Reading(img, c, list, n, data, j)
    requires c >= END_OF_CHAIN || |data| >= n || (j == |list| - 1 && ClusterData(img, list[j]) == [])
    ensures data == Take(Content(img, list), n)
    ensures |Content(img, list[..j])| >= n || j == |list| || ClusterData(img, list[j]) == []
  {
    assert list[..|list|] == list;
    ContentPrefix(img, list, j);
    TakeEnough(Content(img, list[..j]), Content(img, list), n);
  }

  lemma TakeMore(a: seq<byte>, b: seq<byte>, n: nat)
    requires |a| < n
    ensures Take(a, n) + Take(b, n - |a|) == Take(a + b, n)
  {}

  lemma TakeEnough(a: seq<byte>, whole: seq<byte>, n: nat)
    requires a <= whole && (|a| >= n || a == whole)
    ensures Take(a, n) == Take(whole, n)
  {
    if |a| >= n { assert Take(whole, n) == whole[..n] == a[..n] == Take(a, n); }
  }
}
