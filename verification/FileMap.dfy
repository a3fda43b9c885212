/** A formatted disk as a map from file names to bytes: opening for writing and writing
    updates the map at one name, opening and reading looks it up. */
module FileMap {
  import opened Bytes
  import opened ShortNames
  import opened FatImage

  // the slots of the root directory, ROOT_ENTRIES of the formatter
  const MAX_FILES := 512

  /** The geometry that initialize_fat16 writes. */
  ghost predicate Formatted(b: Boot) {
    && b.bytesPerSector == 512 && b.sectorsPerCluster == 1 && b.reserved == 1 && b.numFats == 2
    && b.rootEntries == MAX_FILES
    && 2048 <= b.totalShort < 65536 && b.totalShort <= 256 * b.fatSize
  }

  lemma Offsets(b: Boot)
    requires Formatted(b)
    ensures b.Usable() && b.ClusterCount() == b.totalShort
    ensures b.FatOffset() == 512 && b.RootOffset() == 512 + 1024 * b.fatSize
    ensures b.DataOffset() == b.RootOffset() + ENTRY_SIZE * MAX_FILES
    ensures forall c :: b.ClusterOffset(c) == b.DataOffset() + (c - 2) * BLOCK_SIZE
  {}

  /** A root directory entry in use: the name as last written, and the bytes written. */
  datatype File = File(name: Name, bytes: seq<byte>)

  /** An 8.3 name that does not start with the mark of a deleted entry. */
  ghost predicate Valid(name: Name) { IsCString(name) && IsShort(name) && name[0] != 0xE5 }

  /** Slot k stores `f` as a plain file, in cluster k + 2. */
  ghost predicate SlotHolds(img: seq<byte>, b: Boot, k: int, f: File) {
    && Valid(f.name) && |f.bytes| <= BLOCK_SIZE
    && (forall q :: 0 <= q < 11 ==> ByteAt(img, b.Slot(k) + q) == Encode(f.name)[q])
    && ByteAt(img, b.Slot(k) + 11) == 0x20
    && U16(img, b.Slot(k) + CLUSTER_FIELD) == k + 2 && U32(img, b.Slot(k) + SIZE_FIELD) == |f.bytes|
    && DataHolds(img, 512 + 1024 * b.fatSize + ENTRY_SIZE * MAX_FILES + k * BLOCK_SIZE, f.bytes)
  }

  ghost predicate DataHolds(img: seq<byte>, off: int, bytes: seq<byte>) {
    && (bytes != [] ==> off + |bytes| <= |img|)
    && forall q :: 0 <= q < |bytes| ==> ByteAt(img, off + q) == bytes[q]
  }

  ghost predicate SlotEmpty(img: seq<byte>, b: Boot, k: int) {
    ByteAt(img, b.Slot(k)) == 0 && U16(img, b.Slot(k) + CLUSTER_FIELD) == 0
  }

  lemma UsedNotEmpty(img: seq<byte>, b: Boot, k: int, f: File)
    requires SlotHolds(img, b, k, f)
    ensures ByteAt(img, b.Slot(k)) != 0 && ByteAt(img, b.Slot(k)) != 0xE5
  {
    FirstByte(f.name);
    assert ByteAt(img, b.Slot(k) + 0) == Encode(f.name)[0];
  }

  /** The entries of the table that allocate_cluster looks at. */
  ghost predicate TableHolds(img: seq<byte>, b: Boot, used: int) {
    forall i :: 2 <= i < b.totalShort ==> U16(img, b.FatEntry(i)) == if i < used + 2 then END_OF_CHAIN else 0
  }

  ghost predicate Unique(files: seq<File>) {
    forall i, j :: 0 <= i < j < |files| ==> Fold(files[i].name) != Fold(files[j].name)
  }

  /** The disk holds exactly `files`. */
  ghost predicate Holds(img: seq<byte>, files: seq<File>) {
    var b := ParseBoot(img);
    && Formatted(b) && |img| >= 512 + 1024 * b.fatSize + ENTRY_SIZE * MAX_FILES
    && |files| <= MAX_FILES && Unique(files)
    && TableHolds(img, b, |files|)
    && SlotsHold(img, b, files) && SlotsEmpty(img, b, |files|)
  }

  ghost predicate SlotsHold(img: seq<byte>, b: Boot, files: seq<File>) {
    forall k :: 0 <= k < |files| ==> SlotHolds(img, b, k, files[k])
  }

  ghost predicate SlotsEmpty(img: seq<byte>, b: Boot, n: nat) {
    forall k :: n <= k < MAX_FILES ==> SlotEmpty(img, b, k)
  }

  /** The bytes a write to slot k may change: its table entry, its cluster, its entry. */
  ghost predicate InWritten(b: Boot, k: int, size: int, p: int) {
    || 512 + 2 * (k + 2) <= p < 512 + 2 * (k + 2) + 2
    || 512 + 1024 * b.fatSize + ENTRY_SIZE * MAX_FILES + k * BLOCK_SIZE
       <= p < 512 + 1024 * b.fatSize + ENTRY_SIZE * MAX_FILES + k * BLOCK_SIZE + size
    || 512 + 1024 * b.fatSize + ENTRY_SIZE * k <= p < 512 + 1024 * b.fatSize + ENTRY_SIZE * k + ENTRY_SIZE
  }

  ghost predicate Inside(p: int, off: int, bytes: seq<byte>) { off <= p < off + |bytes| }

  /** `img'` is `img` with `mark`, `e` and `data` in three places. */
  ghost predicate Patched(img: seq<byte>, img': seq<byte>, fo: int, mark: seq<byte>, deo: int, e: seq<byte>,
                          co: int, data: seq<byte>) {
    && |img'| >= |img| && (data != [] ==> |img'| >= co + |data|)
    && (forall p :: Inside(p, fo, mark) ==> ByteAt(img', p) == mark[p - fo])
    && (forall p :: Inside(p, deo, e) ==> ByteAt(img', p) == e[p - deo])
    && (forall p :: Inside(p, co, data) ==> ByteAt(img', p) == data[p - co])
    && (forall p :: !Inside(p, fo, mark) && !Inside(p, deo, e) && !Inside(p, co, data) ==>
      ByteAt(img', p) == ByteAt(img, p))
  }

  /** Three writes to disjoint places, the data first. */
  lemma ThreeWrites(img: seq<byte>, co: int, data: seq<byte>, fo: int, deo: int, e: seq<byte>)
    requires 0 <= fo && fo + 2 <= deo && deo + |e| <= co
    ensures Patched(img, Stored(img, co, data, fo, deo, e), fo, U16Bytes(END_OF_CHAIN), deo, e, co, data)
  {}

  /** The mark may already have been there before. */
  lemma MarkedBefore(img: seq<byte>, img1: seq<byte>, img': seq<byte>, fo: int, mark: seq<byte>, deo: int,
                     e: seq<byte>, co: int, data: seq<byte>)
    requires fo >= 0 && (img1 == img || (img1 == WriteAt(img, fo, mark) && fo + |mark| <= |img|))
    requires Patched(img1, img', fo, mark, deo, e, co, data)
    ensures Patched(img, img', fo, mark, deo, e, co, data)
  {}

  lemma StoredPatched(img: seq<byte>, img1: seq<byte>, co: int, data: seq<byte>, fo: int, deo: int, e: seq<byte>)
    requires 0 <= fo && fo + 2 <= deo && deo + |e| <= co && deo <= |img|
    requires img1 == img || img1 == WriteAt(img, fo, U16Bytes(END_OF_CHAIN))
    ensures Patched(img, Stored(img1, co, data, fo, deo, e), fo, U16Bytes(END_OF_CHAIN), deo, e, co, data)
  {
    ThreeWrites(img1, co, data, fo, deo, e);
    MarkedBefore(img, img1, Stored(img1, co, data, fo, deo, e), fo, U16Bytes(END_OF_CHAIN), deo, e, co, data);
  }

  /** `Written` with the offsets of slot k put in. */
  lemma WrittenSteps(img: seq<byte>, b: Boot, k: int, data: seq<byte>, name: Name, fo: int, co: int, deo: int)
    returns (img1: seq<byte>, e: seq<byte>)
    requires b == ParseBoot(img) && Mounted(img) && |img| >= BOOT_SIZE && 0 <= k < MAX_FILES && |data| <= BLOCK_SIZE
    requires fo == b.FatEntry(k + 2) && b.bytesPerSector > 0 && co == b.ClusterOffset(k + 2)
    requires 0 <= deo && deo + ENTRY_SIZE <= |img|
    ensures co >= 0 && fo >= 0 && Written(img, deo, k + 2, data, name) == Stored(img1, co, data, fo, deo, e)
    ensures img1 == img || img1 == WriteAt(img, fo, U16Bytes(END_OF_CHAIN))
    ensures |e| == ENTRY_SIZE && e == NewEntry(ReadAt(img, deo, ENTRY_SIZE), name, k + 2, |data|)
  {
    img1 := Claimed(img, deo, k + 2);
    e := NewEntry(ReadAt(img, deo, ENTRY_SIZE), name, k + 2, |data|);
  }

  // ---- what a write to slot k leaves alone ----

  ghost predicate WroteSlot(img: seq<byte>, img': seq<byte>, k: int, size: int) {
    && |img'| >= |img| && ParseBoot(img') == ParseBoot(img)
    && forall p :: !InWritten(ParseBoot(img), k, size, p) ==> ByteAt(img', p) == ByteAt(img, p)
  }

  lemma OtherSlot(img: seq<byte>, img': seq<byte>, k: int, size: int, j: int, f: File)
    requires var b := ParseBoot(img); Formatted(b) && WroteSlot(img, img', k, size)
    requires 0 <= k < MAX_FILES && 0 <= size <= BLOCK_SIZE && 0 <= j < MAX_FILES && j != k
    requires SlotHolds(img, ParseBoot(img), j, f)
    ensures SlotHolds(img', ParseBoot(img), j, f)
  {
    SlotApart(img, img', k, size, j);
    var b := ParseBoot(img);
    var off := 512 + 1024 * b.fatSize + ENTRY_SIZE * MAX_FILES + j * BLOCK_SIZE;
    forall q | 0 <= q < |f.bytes| ensures ByteAt(img', off + q) == f.bytes[q]
    {
      assert !InWritten(b, k, size, off + q);
    }
  }

  /** No byte of another slot's entry is written. */
  lemma SlotApart(img: seq<byte>, img': seq<byte>, k: int, size: int, j: int)
    requires var b := ParseBoot(img); Formatted(b) && WroteSlot(img, img', k, size)
    requires 0 <= k < MAX_FILES && 0 <= size <= BLOCK_SIZE && 0 <= j < MAX_FILES && j != k
    ensures Agree(img, img', ParseBoot(img).Slot(j), ParseBoot(img).Slot(j) + ENTRY_SIZE)
  {
    var b := ParseBoot(img);
    Offsets(b);
    forall p | b.Slot(j) <= p < b.Slot(j) + ENTRY_SIZE ensures ByteAt(img', p) == ByteAt(img, p)
    {
      assert !InWritten(b, k, size, p);
    }
  }

  lemma TableKept(img: seq<byte>, img': seq<byte>, k: int, size: int, used: int)
    requires var b := ParseBoot(img); Formatted(b) && WroteSlot(img, img', k, size) && TableHolds(img, b, used)
    requires 0 <= k <= used && k < MAX_FILES && 0 <= size <= BLOCK_SIZE
    requires U16(img', ParseBoot(img).FatEntry(k + 2)) == END_OF_CHAIN
    ensures TableHolds(img', ParseBoot(img), if k == used then used + 1 else used)
  {
    var b := ParseBoot(img);
    Offsets(b);
    forall i | 2 <= i < b.totalShort && i != k + 2 ensures U16(img', b.FatEntry(i)) == U16(img, b.FatEntry(i))
    {
      assert !InWritten(b, k, size, b.FatEntry(i)) && !InWritten(b, k, size, b.FatEntry(i) + 1);
    }
  }

  // ---- the map operations ----

  /** Index of the file with that name, case ignored, or |files|. */
  ghost function IndexOf(files: seq<File>, name: Name): (i: nat)
    ensures i <= |files|
    ensures i < |files| ==> Fold(files[i].name) == Fold(name)
    ensures forall j :: 0 <= j < i ==> Fold(files[j].name) != Fold(name)
  {
    if files == [] || Fold(files[0].name) == Fold(name) then 0 else IndexOf(files[1..], name) + 1
  }

  ghost function Put(files: seq<File>, name: Name, data: seq<byte>): seq<File> {
    var i := IndexOf(files, name);
    if i < |files| then files[i := File(name, data)]
    else if |files| < MAX_FILES then files + [File(name, data)]
    else files
  }

  lemma PutUnique(files: seq<File>, name: Name, data: seq<byte>)
    requires Unique(files)
    ensures Unique(Put(files, name, data))
  {}

  lemma PutSlots(img: seq<byte>, img': seq<byte>, files: seq<File>, files': seq<File>, k: int, f: File)
    requires Formatted(ParseBoot(img)) && WroteSlot(img, img', k, |f.bytes|) && |f.bytes| <= BLOCK_SIZE
    requires SlotsHold(img, ParseBoot(img), files) && SlotHolds(img', ParseBoot(img), k, f)
    requires 0 <= k <= |files| <= MAX_FILES && k < MAX_FILES
    requires files' == if k < |files| then files[k := f] else files + [f]
    ensures SlotsHold(img', ParseBoot(img), files')
  {
    forall j | 0 <= j < |files'| ensures SlotHolds(img', ParseBoot(img), j, files'[j])
    {
      if j != k { OtherSlot(img, img', k, |f.bytes|, j, files[j]); }
    }
  }

  lemma PutEmpty(img: seq<byte>, img': seq<byte>, n: nat, k: int, size: int)
    requires Formatted(ParseBoot(img)) && WroteSlot(img, img', k, size) && 0 <= k < MAX_FILES && 0 <= size <= BLOCK_SIZE
    requires SlotsEmpty(img, ParseBoot(img), n)
    ensures SlotsEmpty(img', ParseBoot(img), if k == n then n + 1 else if k < n then n else MAX_FILES)
  {
    var b := ParseBoot(img);
    forall j | 0 <= j < MAX_FILES && j != k && SlotEmpty(img, b, j) ensures SlotEmpty(img', b, j)
    {
      SlotApart(img, img', k, size, j);
    }
  }

  /** What a write of `data` to slot k makes of the image. */
  ghost predicate Wrote(img: seq<byte>, img': seq<byte>, k: int, f: File) {
    && WroteSlot(img, img', k, |f.bytes|) && SlotHolds(img', ParseBoot(img), k, f)
    && U16(img', ParseBoot(img).FatEntry(k + 2)) == END_OF_CHAIN
  }

  /** An image in which only the slot of `name` was written, with `data`, holds the updated map. */
  lemma PutHolds(img: seq<byte>, files: seq<File>, name: Name, data: seq<byte>, img': seq<byte>, k: int)
    requires Holds(img, files) && k == IndexOf(files, name) < MAX_FILES && |data| <= BLOCK_SIZE
    requires Wrote(img, img', k, File(name, data))
    ensures Holds(img', Put(files, name, data))
  {
    PutUnique(files, name, data);
    TableKept(img, img', k, |data|, |files|);
    PutSlots(img, img', files, Put(files, name, data), k, File(name, data));
    PutEmpty(img, img', |files|, k, |data|);
  }

  /** Read off what the three places mean. */
  lemma PatchedWrote(img: seq<byte>, img': seq<byte>, b: Boot, k: int, e: seq<byte>, f: File)
    requires b == ParseBoot(img) && Formatted(b) && Valid(f.name) && 0 <= k < MAX_FILES && |f.bytes| <= BLOCK_SIZE
    requires |e| == ENTRY_SIZE && (forall q :: 0 <= q < 11 ==> e[q] == Encode(f.name)[q]) && e[11] == 0x20
    requires U16(e, CLUSTER_FIELD) == k + 2 && U32(e, SIZE_FIELD) == |f.bytes|
    requires Patched(img, img', 512 + 2 * (k + 2), U16Bytes(END_OF_CHAIN), b.Slot(k), e,
                     512 + 1024 * b.fatSize + ENTRY_SIZE * MAX_FILES + k * BLOCK_SIZE, f.bytes)
    ensures WroteSlot(img, img', k, |f.bytes|)
    ensures SlotHolds(img', b, k, f)
    ensures U16(img', b.FatEntry(k + 2)) == END_OF_CHAIN
  {
    Offsets(b);
    PatchedBoot(img, img', b, k, e, f.bytes);
    assert forall q :: 0 <= q < ENTRY_SIZE ==> ByteAt(img', b.Slot(k) + q) == e[q];
    var co := 512 + 1024 * b.fatSize + ENTRY_SIZE * MAX_FILES + k * BLOCK_SIZE;
    assert forall q :: 0 <= q < |f.bytes| ==> ByteAt(img', co + q) == f.bytes[q];
    assert Inside(512 + 2 * (k + 2), 512 + 2 * (k + 2), U16Bytes(END_OF_CHAIN));
    assert Inside(512 + 2 * (k + 2) + 1, 512 + 2 * (k + 2), U16Bytes(END_OF_CHAIN));
  }

  lemma PatchedBoot(img: seq<byte>, img': seq<byte>, b: Boot, k: int, e: seq<byte>, data: seq<byte>)
    requires b == ParseBoot(img) && Formatted(b) && 0 <= k < MAX_FILES && |e| == ENTRY_SIZE
    requires Patched(img, img', 512 + 2 * (k + 2), U16Bytes(END_OF_CHAIN), b.Slot(k), e,
                     512 + 1024 * b.fatSize + ENTRY_SIZE * MAX_FILES + k * BLOCK_SIZE, data)
    ensures ParseBoot(img') == b
  {
    Offsets(b);
    forall p | 0 <= p < 512 ensures ByteAt(img', p) == ByteAt(img, p) {}
  }

  lemma SlotOffsets(b: Boot, k: int) returns (fo: int, co: int, deo: int)
    requires Formatted(b) && 0 <= k < MAX_FILES
    ensures fo == b.FatEntry(k + 2) == 512 + 2 * (k + 2)
    ensures co == b.ClusterOffset(k + 2) == 512 + 1024 * b.fatSize + ENTRY_SIZE * MAX_FILES + k * BLOCK_SIZE
    ensures deo == b.Slot(k) == 512 + 1024 * b.fatSize + ENTRY_SIZE * k
    ensures b.DataOffset() == 512 + 1024 * b.fatSize + ENTRY_SIZE * MAX_FILES && b.fatSize >= 8
  {
    Offsets(b);
    fo, co, deo := b.FatEntry(k + 2), b.ClusterOffset(k + 2), b.Slot(k);
  }

  lemma WrittenWrote(img: seq<byte>, b: Boot, name: Name, data: seq<byte>, k: int, fo: int, co: int, deo: int)
    requires b == ParseBoot(img) && Formatted(b) && Mounted(img)
    requires Valid(name) && 0 <= k < MAX_FILES && |data| <= BLOCK_SIZE
    requires fo == b.FatEntry(k + 2) && co == b.ClusterOffset(k + 2) && deo == b.Slot(k)
    requires fo == 512 + 2 * (k + 2) && deo == 512 + 1024 * b.fatSize + ENTRY_SIZE * k && b.fatSize >= 8
    requires co == 512 + 1024 * b.fatSize + ENTRY_SIZE * MAX_FILES + k * BLOCK_SIZE
    requires 512 + 1024 * b.fatSize + ENTRY_SIZE * MAX_FILES <= |img|
    ensures Wrote(img, Written(img, deo, k + 2, data, name), k, File(name, data))
  {
    var img1, e := WrittenSteps(img, b, k, data, name, fo, co, deo);
    EntryFields(ReadAt(img, deo, ENTRY_SIZE), name, k + 2, |data|);
    WrotePatched(img, img1, b, k, e, File(name, data), fo, co, deo);
  }

  lemma WrotePatched(img: seq<byte>, img1: seq<byte>, b: Boot, k: int, e: seq<byte>, f: File,
                     fo: int, co: int, deo: int)
    requires b == ParseBoot(img) && Formatted(b) && Valid(f.name) && 0 <= k < MAX_FILES && |f.bytes| <= BLOCK_SIZE
    requires |e| == ENTRY_SIZE && (forall q :: 0 <= q < 11 ==> e[q] == Encode(f.name)[q]) && e[11] == 0x20
    requires U16(e, CLUSTER_FIELD) == k + 2 && U32(e, SIZE_FIELD) == |f.bytes|
    requires fo == 512 + 2 * (k + 2) && deo == b.Slot(k) == 512 + 1024 * b.fatSize + ENTRY_SIZE * k
    requires co == 512 + 1024 * b.fatSize + ENTRY_SIZE * MAX_FILES + k * BLOCK_SIZE && |img| >= co - k * BLOCK_SIZE
    requires img1 == img || img1 == WriteAt(img, fo, U16Bytes(END_OF_CHAIN))
    ensures Wrote(img, Stored(img1, co, f.bytes, fo, deo, e), k, f)
  {
    StoredPatched(img, img1, co, f.bytes, fo, deo, e);
    PatchedWrote(img, Stored(img1, co, f.bytes, fo, deo, e), b, k, e, f);
  }

  /** A single write of more than one cluster is not confined: its 513th byte lands on the
      first byte of the next cluster, where another file may be. */
  lemma LongWriteSpills(img: seq<byte>, b: Boot, name: Name, data: seq<byte>, c: int, deo: int)
    requires b == ParseBoot(img) && Mounted(img) && |img| >= BOOT_SIZE && 2 <= c < 65535 && b.bytesPerSector > 0
    requires b.ClusterSize() == BLOCK_SIZE < |data| < 0x1_0000_0000
    requires 0 <= b.FatEntry(c) && b.FatEntry(c) + 2 <= deo
    requires deo + ENTRY_SIZE <= |img| && deo + ENTRY_SIZE <= b.ClusterOffset(c)
    ensures ByteAt(Written(img, deo, c, data, name), b.ClusterOffset(c + 1)) == data[BLOCK_SIZE]
  {
    var (co, next) := (b.ClusterOffset(c), b.ClusterOffset(c + 1));
    assert next == co + BLOCK_SIZE;
    StoredSpills(Claimed(img, deo, c), co, data, b.FatEntry(c), deo,
                 NewEntry(ReadAt(img, deo, ENTRY_SIZE), name, c, |data|), next);
  }

  lemma StoredSpills(img: seq<byte>, co: int, data: seq<byte>, fo: int, deo: int, e: seq<byte>, p: int)
    requires 0 <= fo && fo + 2 <= deo && deo + |e| <= co && Inside(p, co, data)
    ensures ByteAt(Stored(img, co, data, fo, deo, e), p) == data[p - co]
  {
    ThreeWrites(img, co, data, fo, deo, e);
  }
}
