/** Writing and reading whole files by name, as the shell and the test programs do, on a disk
    that holds a known list of files. */
module FileStore {
  import opened Basics
  import opened Bytes
  import opened ShortNames
  import opened FatImage
  import opened FatVolume
  import opened FileMap
  import opened FileRuns

  lemma HoldsGeometry(img: seq<byte>, files: seq<File>)
    requires Holds(img, files)
    ensures Mounted(img) && |img| >= BOOT_SIZE
    ensures forall k :: HasSlot(img, k) <==> 0 <= k < MAX_FILES
    ensures forall i :: 2 <= i < ParseBoot(img).totalShort ==> HasFatEntry(img, i)
    ensures ParseBoot(img).ClusterCount() == ParseBoot(img).totalShort >= 2048
  {
    Offsets(ParseBoot(img));
  }

  lemma HoldsMounted(img: seq<byte>, files: seq<File>)
    requires Holds(img, files)
    ensures Mounted(img) && |img| >= BOOT_SIZE
  {
    HoldsGeometry(img, files);
  }

  /** What a search sees of a slot in use. */
  lemma SlotSeen(img: seq<byte>, b: Boot, k: int, f: File, name: Name)
    requires b == ParseBoot(img) && SlotHolds(img, b, k, f) && HasSlot(img, k) && b.Slot(k) >= 0
    ensures !Unused(img, k)
    ensures NameMatches(img, k, name) <==> Fold(f.name) == Fold(name)
  {
    SlotName(img, b.Slot(k), f.name);
    UsedNotEmpty(img, b, k, f);
  }

  lemma SlotName(img: seq<byte>, deo: int, name: Name)
    requires deo >= 0 && deo + ENTRY_SIZE <= |img| && Valid(name)
    requires forall q :: 0 <= q < 11 ==> ByteAt(img, deo + q) == Encode(name)[q]
    ensures Decode(ReadAt(img, deo, ENTRY_SIZE)) == name
  {
    var e := ReadAt(img, deo, ENTRY_SIZE);
    forall q | 0 <= q < 11 ensures e[q] == Encode(name)[q]
    {
      assert e[q] == ByteAt(img, deo + q);
    }
    DecodesSame(e, name);
  }

  lemma DecodesSame(e: seq<byte>, name: Name)
    requires |e| >= 11 && Valid(name) && forall q :: 0 <= q < 11 ==> e[q] == Encode(name)[q]
    ensures Decode(e) == name
  {
    assert e[..8] == Encode(name)[..8] && e[8..11] == Encode(name)[8..11];
    RoundTrip(name);
  }

  lemma Searched(img: seq<byte>, files: seq<File>, name: Name)
    requires Holds(img, files)
    ensures forall k :: 0 <= k < |files| ==>
      !Unused(img, k) && (NameMatches(img, k, name) <==> Fold(files[k].name) == Fold(name))
    ensures forall k :: |files| <= k < MAX_FILES ==> FirstOf(img, k) == 0
  {
    HoldsGeometry(img, files);
    Offsets(ParseBoot(img));
    forall k | 0 <= k < |files|
      ensures !Unused(img, k) && (NameMatches(img, k, name) <==> Fold(files[k].name) == Fold(name))
    {
      SlotSeen(img, ParseBoot(img), k, files[k], name);
    }
    forall k | |files| <= k < MAX_FILES ensures FirstOf(img, k) == 0
    {
      assert SlotEmpty(img, ParseBoot(img), k);
    }
  }

  /** What the searches see of the directory. */
  ghost predicate Directory(img: seq<byte>, files: seq<File>, name: Name) {
    && |files| <= MAX_FILES
    && (forall k :: HasSlot(img, k) <==> 0 <= k < MAX_FILES)
    && (forall k :: 0 <= k < |files| ==>
      !Unused(img, k) && (NameMatches(img, k, name) <==> Fold(files[k].name) == Fold(name)))
    && (forall k :: |files| <= k < MAX_FILES ==> FirstOf(img, k) == 0)
  }

  lemma SeesDirectory(img: seq<byte>, files: seq<File>, name: Name)
    requires Holds(img, files)
    ensures Directory(img, files, name)
  {
    HoldsGeometry(img, files);
    Searched(img, files, name);
  }

  /** find_file finds exactly the slot of the file with that name. */
  lemma HitIsIndex(img: seq<byte>, files: seq<File>, name: Name, k: int)
    requires Directory(img, files, name)
    ensures Hit(img, name, k) <==> k == IndexOf(files, name) < |files|
  {
    var i := IndexOf(files, name);
    if Hit(img, name, k) {
      assert 0 <= k < |files| && k >= i;
      assert i < k ==> !NameMatches(img, i, name);
    }
    if k == i < |files| {
      forall j | 0 <= j < k ensures HasSlot(img, j) && FirstOf(img, j) != 0 && !NameMatches(img, j, name)
      {
        assert !Unused(img, j);
      }
    }
  }

  /** A free slot is found exactly when the directory is not full: the first one after the files. */
  lemma VacantIsEnd(img: seq<byte>, files: seq<File>, k: int)
    requires Holds(img, files)
    ensures Vacant(img, k) <==> k == |files| < MAX_FILES
  {
    SeesDirectory(img, files, []);
    if Vacant(img, k) && |files| < k { assert Unused(img, |files|); }
  }

  /** allocate_cluster takes the cluster after those of the files. */
  lemma FreeIsNext(img: seq<byte>, files: seq<File>, c: int)
    requires Holds(img, files)
    ensures Mounted(img)
    ensures FreeEntry(img, c) <==> c == |files| + 2
  {
    HoldsGeometry(img, files);
    var b := ParseBoot(img);
    assert forall i :: 2 <= i < b.totalShort ==> FatAt(img, i) == if i < |files| + 2 then END_OF_CHAIN else 0;
    assert FatAt(img, |files| + 2) == 0;
  }

  /** Slot k as found by open: where its parts are, and the cluster field. */
  lemma SlotAt(img: seq<byte>, files: seq<File>, k: int)
    requires Holds(img, files) && 0 <= k <= |files| && k < MAX_FILES
    ensures Mounted(img)
    ensures ParseBoot(img).Slot(k) >= BOOT_SIZE && ParseBoot(img).Slot(k) + ENTRY_SIZE <= |img|
    ensures StoredCluster(img, ParseBoot(img).Slot(k)) == if k < |files| then k + 2 else 0
  {
    var b := ParseBoot(img);
    Offsets(b);
    if k < |files| { assert SlotHolds(img, b, k, files[k]); } else { assert SlotEmpty(img, b, k); }
  }

  /** A write of at most one cluster through the slot that open found. */
  lemma WroteFile(img: seq<byte>, files: seq<File>, name: Name, data: seq<byte>, k: int, c: int)
    requires Holds(img, files) && Mounted(img) && Valid(name) && |data| <= BLOCK_SIZE
    requires k == IndexOf(files, name) < MAX_FILES
    requires Allocates(img, ParseBoot(img).Slot(k), c)
    ensures c == k + 2 && |img| >= BOOT_SIZE
    ensures ParseBoot(img).Slot(k) >= 0 && ParseBoot(img).Slot(k) + ENTRY_SIZE <= |img|
    ensures Holds(Written(img, ParseBoot(img).Slot(k), c, data, name), Put(files, name, data))
  {
    SlotAt(img, files, k);
    FreeIsNext(img, files, c);
    var b := ParseBoot(img);
    var fo, co, deo := SlotOffsets(b, k);
    WrittenWrote(img, b, name, data, k, fo, co, deo);
    PutHolds(img, files, name, data, Written(img, deo, c, data, name), k);
  }

  /** Opens `name` for writing, creating it if need be: it fails exactly when the name is new and
      the directory is full, and settles on the slot of the name. */
  method OpenToWrite(vn: Vnode, name: Name, ghost files: seq<File>) returns (ok: bool)
    requires Holds(vn.image, files)
    modifies vn
    ensures vn.image == old(vn.image)
    ensures ok <==> IndexOf(files, name) < MAX_FILES
    ensures ok ==> vn.dirEntryOffset == ParseBoot(vn.image).Slot(IndexOf(files, name))
  {
    HoldsMounted(vn.image, files);
    ghost var k;
    ok, k := vn.Open(name, true);
    OpenedToCreate(vn.image, files, name, ok, k);
  }

  lemma OpenedToCreate(img: seq<byte>, files: seq<File>, name: Name, ok: bool, k: int)
    requires Holds(img, files)
    requires ok ==> Hit(img, name, k) || (Vacant(img, k) && forall j :: !Hit(img, name, j))
    requires !ok ==> (forall j :: !Hit(img, name, j)) && forall j :: !Vacant(img, j)
    ensures ok <==> IndexOf(files, name) < MAX_FILES
    ensures ok ==> k == IndexOf(files, name)
  {
    OpenFor(img, files, name);
    if ok { OpenedAt(img, files, name, k); }
  }

  /** The write through the slot that open has settled on. */
  method WriteOpened(vn: Vnode, name: Name, data: seq<byte>, ghost files: seq<File>) returns (n: int)
    requires Holds(vn.image, files) && Valid(name) && |data| <= BLOCK_SIZE && IndexOf(files, name) < MAX_FILES
    requires vn.dirEntryOffset == ParseBoot(vn.image).Slot(IndexOf(files, name))
    modifies vn
    ensures n == |data| && Holds(vn.image, Put(files, name, data))
  {
    ReadyToWrite(vn.image, files, IndexOf(files, name));
    ghost var cluster;
    n, cluster := vn.WriteFile(data, name);
    FileWritten(old(vn.image), files, name, data, IndexOf(files, name), n, cluster, vn.image);
  }

  /** Opens `name` for writing and writes `data` in one call.  It fails exactly when the name is
      new and the directory is full, and then changes nothing. */
  method WriteNamed(vn: Vnode, name: Name, data: seq<byte>, ghost files: seq<File>) returns (n: int)
    requires Holds(vn.image, files) && Valid(name) && |data| <= BLOCK_SIZE
    modifies vn
    ensures Holds(vn.image, Put(files, name, data))
    ensures n == if IndexOf(files, name) < MAX_FILES then |data| else -1
    ensures n == -1 ==> vn.image == old(vn.image)
    ensures Step(old(vn.image), Write(name, data, n), vn.image)
  {
    n := -1;
    var ok := OpenToWrite(vn, name, files);
    if ok {
      n := WriteOpened(vn, name, data, files);
    }
    PromiseIsStep(old(vn.image), files, Write(name, data, n), vn.image);
  }

  /** What WriteFile needs to know about slot k, and why it cannot fail. */
  lemma ReadyToWrite(img: seq<byte>, files: seq<File>, k: int)
    requires Holds(img, files) && 0 <= k <= |files| && k < MAX_FILES
    ensures Mounted(img) && |img| >= BOOT_SIZE && FreeEntry(img, |files| + 2)
    ensures ParseBoot(img).Slot(k) >= BOOT_SIZE && ParseBoot(img).Slot(k) + ENTRY_SIZE <= |img|
    ensures StoredCluster(img, ParseBoot(img).Slot(k)) != 1
  {
    SlotAt(img, files, k);
    FreeIsNext(img, files, |files| + 2);
  }

  lemma FileWritten(img: seq<byte>, files: seq<File>, name: Name, data: seq<byte>, k: int, n: int, c: int,
                    img': seq<byte>)
    requires Holds(img, files) && Mounted(img) && |img| >= BOOT_SIZE && Valid(name) && |data| <= BLOCK_SIZE
    requires k == IndexOf(files, name) < MAX_FILES && (n == -1 || n == |data|)
    requires n == -1 ==>
      || ParseBoot(img).Slot(k) + ENTRY_SIZE > |img|
      || (StoredCluster(img, ParseBoot(img).Slot(k)) == 0 && forall i :: !FreeEntry(img, i))
    requires n != -1 ==>
      && ParseBoot(img).Slot(k) >= 0 && ParseBoot(img).Slot(k) + ENTRY_SIZE <= |img|
      && 2 <= c < 65536 && Allocates(img, ParseBoot(img).Slot(k), c)
      && img' == Written(img, ParseBoot(img).Slot(k), c, data, name)
    ensures n == |data| && Holds(img', Put(files, name, data))
  {
    ReadyToWrite(img, files, k);
    if n != -1 { WroteFile(img, files, name, data, k, c); }
  }

  /** Whether open succeeds with O_CREAT. */
  lemma OpenFor(img: seq<byte>, files: seq<File>, name: Name)
    requires Holds(img, files)
    ensures IndexOf(files, name) < |files| ==> Hit(img, name, IndexOf(files, name))
    ensures |files| < MAX_FILES ==> Vacant(img, |files|)
  {
    SeesDirectory(img, files, name);
    HitIsIndex(img, files, name, IndexOf(files, name));
    VacantIsEnd(img, files, |files|);
  }

  /** The slot that open settles on is the index of the name. */
  lemma OpenedAt(img: seq<byte>, files: seq<File>, name: Name, k: int)
    requires Holds(img, files)
    requires Hit(img, name, k) || (Vacant(img, k) && forall j :: !Hit(img, name, j))
    ensures k == IndexOf(files, name) < MAX_FILES && 0 <= k <= |files|
  {
    SeesDirectory(img, files, name);
    HitIsIndex(img, files, name, k);
    HitIsIndex(img, files, name, IndexOf(files, name));
    VacantIsEnd(img, files, k);
  }

  /** The chain of a file is its one cluster, which starts with the bytes last written. */
  lemma FileChain(img: seq<byte>, files: seq<File>, k: int)
    requires Holds(img, files) && 0 <= k < |files|
    ensures Mounted(img) && Chain(img, k + 2, [k + 2])
    ensures Content(img, [k + 2]) == ClusterData(img, k + 2) && files[k].bytes <= ClusterData(img, k + 2)
  {
    HoldsGeometry(img, files);
    var b := ParseBoot(img);
    assert FatAt(img, k + 2) == END_OF_CHAIN;
    assert [k + 2][1..] == [] && [k + 2][..0] == [];
    assert SlotHolds(img, b, k, files[k]);
    var fo, co, deo := SlotOffsets(b, k);
    assert ClusterData(img, k + 2) == ReadAt(img, co, BLOCK_SIZE);
    StartsWith(img, co, files[k].bytes);
  }

  lemma StartsWith(img: seq<byte>, off: int, bytes: seq<byte>)
    requires off >= 0 && |bytes| <= BLOCK_SIZE && DataHolds(img, off, bytes)
    ensures bytes <= ReadAt(img, off, BLOCK_SIZE)
  {
    var d := ReadAt(img, off, BLOCK_SIZE);
    forall q | 0 <= q < |bytes| ensures q < |d| && d[q] == bytes[q]
    {
      assert ByteAt(img, off + q) == bytes[q];
    }
  }

  /** Opens `name` if there is such a file, and leaves the file pointer on its cluster. */
  method OpenToRead(vn: Vnode, name: Name, ghost files: seq<File>) returns (ok: bool)
    requires Holds(vn.image, files)
    modifies vn
    ensures vn.image == old(vn.image)
    ensures ok <==> IndexOf(files, name) < |files|
    ensures ok ==> vn.fatPtr == IndexOf(files, name) + 2
  {
    HoldsMounted(vn.image, files);
    ghost var k;
    ok, k := vn.Open(name, false);
    Opened(vn.image, files, name, ok, k, vn.fatPtr);
  }

  /** What a search that ended with `ok` at slot k, and p in its cluster field, has found. */
  lemma Opened(img: seq<byte>, files: seq<File>, name: Name, ok: bool, k: int, p: int)
    requires Holds(img, files)
    requires ok ==> Hit(img, name, k) && p == U16(img, ParseBoot(img).Slot(k) + CLUSTER_FIELD)
    requires !ok ==> forall j :: !Hit(img, name, j)
    ensures ok <==> IndexOf(files, name) < |files|
    ensures ok ==> p == IndexOf(files, name) + 2
  {
    if ok {
      SeesDirectory(img, files, name);
      HitIsIndex(img, files, name, k);
      SlotAt(img, files, k);
    } else {
      OpenFor(img, files, name);
    }
  }

  lemma OpenedToRead(img: seq<byte>, files: seq<File>, k: int, n: nat)
    requires Holds(img, files) && 0 <= k < |files|
    ensures Mounted(img) && |img| >= BOOT_SIZE && Chain(img, k + 2, [k + 2])
    ensures var data := Take(Content(img, [k + 2]), n);
      Take(files[k].bytes, n) <= data && |data| <= n
  {
    HoldsMounted(img, files);
    FileChain(img, files, k);
    TakePrefix(files[k].bytes, Content(img, [k + 2]), n);
  }

  lemma TakePrefix(a: seq<byte>, b: seq<byte>, n: nat)
    requires a <= b
    ensures Take(a, n) <= Take(b, n) && |Take(b, n)| <= n
  {}

  /** Reads n bytes of an opened file of one cluster. */
  method ReadOpened(vn: Vnode, n: nat, ghost c: int) returns (data: seq<byte>)
    requires Mounted(vn.image) && |vn.image| >= BOOT_SIZE && Chain(vn.image, vn.fatPtr, [c])
    modifies vn
    ensures vn.image == old(vn.image) && data == Take(Content(vn.image, [c]), n)
  {
    ghost var j;
    data, j := vn.ReadFile(n, [c]);
  }

  /** Opens `name` for reading and reads n bytes.  It fails exactly when there is no such file;
      a read of up to the length last written returns the bytes last written. */
  method ReadNamed(vn: Vnode, name: Name, n: nat, ghost files: seq<File>) returns (ok: bool, data: seq<byte>)
    requires Holds(vn.image, files)
    modifies vn
    ensures vn.image == old(vn.image)
    ensures ok <==> IndexOf(files, name) < |files|
    ensures ok ==> Take(files[IndexOf(files, name)].bytes, n) <= data && |data| <= n
    ensures Step(old(vn.image), Read(name, n, ok, data), vn.image)
  {
    data := [];
    ok := OpenToRead(vn, name, files);
    if ok {
      ghost var k := IndexOf(files, name);
      OpenedToRead(vn.image, files, k, n);
      data := ReadOpened(vn, n, k + 2);
    }
    PromiseIsStep(old(vn.image), files, Read(name, n, ok, data), vn.image);
  }
}
