/** The FAT-16 layer over one open disk image. */
module FatVolume {
  import opened Basics
  import opened Bytes
  import opened ShortNames
  import opened FatImage

  class Vnode {
    // the file behind `fd`, with its read/write position
    var image: seq<byte>
    var pos: int
    var fatPtr: int
    var dirEntryOffset: int

    constructor (image: seq<byte>)
      ensures this.image == image && pos == 0
    {
      this.image, pos, fatPtr, dirEntryOffset := image, 0, 0, 0;
    }

    // ---- lseek, read, write ----

    method Lseek(off: int)
      requires off >= 0
      modifies this`pos
      ensures pos == off
    {
      pos := off;
    }

    method Read(n: nat) returns (b: seq<byte>)
      requires pos >= 0
      modifies this`pos
      ensures b == ReadAt(image, old(pos), n) && pos == old(pos) + |b|
    {
      b := ReadAt(image, pos, n);
      pos := pos + |b|;
    }

    method Write(data: seq<byte>)
      requires pos >= 0
      modifies this`pos, this`image
      ensures image == WriteAt(old(image), old(pos), data) && pos == old(pos) + |data|
    {
      image := WriteAt(image, pos, data);
      pos := pos + |data|;
    }

    method ReadBoot() returns (ok: bool, bs: Boot)
      modifies this`pos
      ensures ok <==> |image| >= BOOT_SIZE
      ensures ok ==> bs == ParseBoot(image)
    {
      Lseek(0);
      var b := Read(BOOT_SIZE);
      ok := |b| == BOOT_SIZE;
      bs := ParseBoot(b);
    }

    // ---- the file allocation table ----

    method GetNextCluster(cluster: int) returns (next: int)
      requires Mounted(image) && 0 <= cluster < 65536
      modifies this`pos
      ensures next == NextOf(image, cluster)
    {
      var ok, bs := ReadBoot();
      if !ok { return 0xFFFF; }
      Lseek(bs.FatEntry(cluster));
      var b := Read(2);
      if |b| != 2 { return 0xFFFF; }
      next := U16(b, 0);
      if next >= END_OF_CHAIN { return 0xFFFF; }
    }

    method SetNextCluster(cluster: int, next: int)
      requires Mounted(image) && 0 <= cluster < 65536 && 0 <= next < 65536
      modifies this`pos, this`image
      ensures image == if |old(image)| >= BOOT_SIZE
                       then WriteAt(old(image), ParseBoot(old(image)).FatEntry(cluster), U16Bytes(next)) else old(image)
    {
      var ok, bs := ReadBoot();
      if !ok { return; }
      Lseek(bs.FatEntry(cluster));
      Write(U16Bytes(next));
    }

    method AllocateCluster() returns (cluster: int)
      requires Mounted(image)
      modifies this`pos, this`image
      ensures cluster == -1 ==> image == old(image) && forall i :: !FreeEntry(image, i)
      ensures cluster != -1 ==>
        FreeEntry(old(image), cluster)
        && image == WriteAt(old(image), ParseBoot(old(image)).FatEntry(cluster), U16Bytes(END_OF_CHAIN))
    {
      var ok, bs := ReadBoot();
      if !ok { return -1; }
      var i := 2;
      while i < bs.ClusterCount()
        invariant 2 <= i && image == old(image)
        invariant forall j :: 2 <= j < i ==> HasFatEntry(image, j) && FatAt(image, j) != 0
      {
        Lseek(bs.FatEntry(i));
        var b := Read(2);
        if |b| != 2 {
          return -1;
        }
        if U16(b, 0) == 0 {
          Lseek(bs.FatEntry(i));
          Write(U16Bytes(END_OF_CHAIN));
          return i;
        }
        i := i + 1;
      }
      return -1;
    }

    // ---- the root directory ----

    /** strncpy into a cleared buffer, then every space becomes NUL; printed up to the first NUL. */
    method StemField(field: seq<byte>) returns (name: Name)
      ensures name == Stem(field)
    {
      var i := 0;
      while i < |field| && field[i] != 0 && field[i] != SPACE
        invariant i <= |field| && forall k :: 0 <= k < i ==> field[k] != 0 && field[k] != SPACE
      {
        i := i + 1;
      }
      name := field[..i];
    }

    method FindFile(filename: Name) returns (found: bool, entry: seq<byte>, ghost k: int)
      requires Mounted(image)
      modifies this`pos
      ensures found ==>
        Hit(image, filename, k) && pos == ParseBoot(image).Slot(k) + ENTRY_SIZE
        && entry == ReadAt(image, ParseBoot(image).Slot(k), ENTRY_SIZE)
      ensures !found ==> forall j :: !Hit(image, filename, j)
    {
      found, entry, k := false, [], 0;
      var ok, bs := ReadBoot();
      if !ok {
        NoHit(image, filename, 0);
        return;
      }
      Lseek(bs.RootOffset());
      var i := 0;
      while i < bs.rootEntries
        invariant i >= 0 && pos == bs.Slot(i)
        invariant forall j :: 0 <= j < i ==>
          HasSlot(image, j) && FirstOf(image, j) != 0 && !NameMatches(image, j, filename)
      {
        k := i;
        entry := Read(ENTRY_SIZE);
        if |entry| != ENTRY_SIZE {
          NoHit(image, filename, i);
          return;
        }
        if entry[0] == 0 {
          NoHit(image, filename, i);
          return;
        }
        var name := StemField(entry[..8]);
        var ext := StemField(entry[8..11]);
        assert Decode(entry) == name + [DOT] + ext;
        if Fold(name + [DOT] + ext) == Fold(filename) {
          found := true;
          return;
        }
        i := i + 1;
      }
      NoHit(image, filename, i);
    }

    /** The entry read replaces whatever the caller had prepared. */
    method FindFreeRootEntry() returns (offset: int, entry: seq<byte>, ghost k: int)
      requires Mounted(image)
      modifies this`pos
      ensures offset >= 0 ==>
        Vacant(image, k) && offset == ParseBoot(image).Slot(k) && entry == ReadAt(image, offset, ENTRY_SIZE)
      ensures offset < 0 ==> offset == -1 && forall j :: !Vacant(image, j)
    {
      entry, k := [], 0;
      var ok, bs := ReadBoot();
      if !ok { return -1, entry, k; }
      Lseek(bs.RootOffset());
      var i := 0;
      while i < bs.rootEntries
        invariant i >= 0 && pos == bs.Slot(i)
        invariant forall j :: 0 <= j < i ==> HasSlot(image, j) && !Unused(image, j)
      {
        entry := Read(ENTRY_SIZE);
        if |entry| != ENTRY_SIZE {
          return -1, entry, k;
        }
        if entry[0] == 0 || entry[0] == 0xE5 {
          Lseek(pos - ENTRY_SIZE);
          return pos, entry, i;
        }
        i := i + 1;
      }
      return -1, entry, k;
    }

    method ClusterToOffset(cluster: int) returns (offset: int)
      requires Mounted(image)
      modifies this`pos
      ensures offset == if |image| >= BOOT_SIZE then ParseBoot(image).ClusterOffset(cluster) else -1
    {
      var ok, bs := ReadBoot();
      if !ok { return -1; }
      offset := bs.ClusterOffset(cluster);
    }

    // ---- open, write, read ----

    /** Copies at most n bytes and fills up with spaces. */
    method PadField(s: Name, n: nat) returns (field: seq<byte>)
      ensures field == Pad(s, n)
    {
      field := if |s| > n then s[..n] else s;
      var i := |field|;
      while i < n
        invariant |field| <= i <= n && |field| == i
        invariant forall k :: 0 <= k < i ==> field[k] == if k < |s| then s[k] else SPACE
      {
        field := field + [SPACE];
        i := i + 1;
      }
    }

    method EncodeName(filename: Name) returns (field: seq<byte>)
      ensures field == Encode(filename)
    {
      var name := PadField(Base(filename), 8);
      var ext := PadField(Ext(filename), 3);
      field := name + ext;
    }

    /** fat16_open without O_TRUNC.  The entry prepared for a new file is lost: the search for
        a free slot reads over it, and what it read is written back, so nothing changes on disk. */
    method Open(filename: Name, create: bool) returns (ok: bool, ghost k: int)
      requires Mounted(image)
      modifies this`pos, this`image, this`fatPtr, this`dirEntryOffset
      ensures image == old(image)
      ensures if ok then dirEntryOffset == ParseBoot(image).Slot(k)
              else fatPtr == old(fatPtr) && dirEntryOffset == old(dirEntryOffset)
      ensures ok ==>
        || (Hit(image, filename, k) && fatPtr == U16(image, ParseBoot(image).Slot(k) + CLUSTER_FIELD))
        || (create && Vacant(image, k) && fatPtr == 0 && forall j :: !Hit(image, filename, j))
      ensures !ok ==> (forall j :: !Hit(image, filename, j)) && (create ==> forall j :: !Vacant(image, j))
    {
      var found, entry;
      found, entry, k := FindFile(filename);
      if found {
        fatPtr := U16(entry, CLUSTER_FIELD);
        dirEntryOffset := pos - ENTRY_SIZE;
        return true, k;
      }
      if create {
        var name := EncodeName(filename);
        entry := name + [0x20] + seq(20, _ => 0);
        var dirOffset;
        dirOffset, entry, k := FindFreeRootEntry();
        if dirOffset < 0 {
          return false, k;
        }
        Lseek(dirOffset);
        WriteBack(image, dirOffset, ENTRY_SIZE);
        Write(entry);
        fatPtr := 0;
        dirEntryOffset := dirOffset;
        return true, k;
      }
      return false, k;
    }

    /** The first part of fat16_write: the entry's cluster, allocated and marked if it has none. */
    method ClaimCluster(entry: seq<byte>) returns (firstCluster: int)
      requires Mounted(image) && |image| >= BOOT_SIZE && dirEntryOffset >= 0
      requires entry == ReadAt(image, dirEntryOffset, ENTRY_SIZE) && |entry| == ENTRY_SIZE
      modifies this`pos, this`image
      ensures firstCluster == -1 ==>
        image == old(image) && StoredCluster(image, dirEntryOffset) == 0 && forall i :: !FreeEntry(image, i)
      ensures firstCluster != -1 ==>
        0 <= firstCluster < 65536 && Allocates(old(image), dirEntryOffset, firstCluster)
        && image == Claimed(old(image), dirEntryOffset, firstCluster)
    {
      firstCluster := U16(entry, CLUSTER_FIELD);
      assert firstCluster == StoredCluster(image, dirEntryOffset);
      if firstCluster == 0 {
        firstCluster := AllocateCluster();
        if firstCluster == -1 {
          return;
        }
        MarkedTwice(old(image), firstCluster);
        SetNextCluster(firstCluster, END_OF_CHAIN);
      }
    }

    /** fat16_write; -1 if the entry cannot be read or no cluster is free. */
    method WriteFile(data: seq<byte>, filename: Name) returns (n: int, ghost cluster: int)
      requires Mounted(image) && |image| >= BOOT_SIZE && dirEntryOffset >= BOOT_SIZE && |data| < 0x1_0000_0000
      requires StoredCluster(image, dirEntryOffset) != 1
      modifies this`pos, this`image
      ensures n == -1 || n == |data|
      ensures n == -1 ==> image == old(image)
      ensures n == -1 ==>
        || dirEntryOffset + ENTRY_SIZE > |image|
        || (StoredCluster(image, dirEntryOffset) == 0 && forall i :: !FreeEntry(image, i))
      ensures n != -1 ==>
        && dirEntryOffset + ENTRY_SIZE <= |old(image)|
        && 2 <= cluster < 65536 && Allocates(old(image), dirEntryOffset, cluster)
        && image == Written(old(image), dirEntryOffset, cluster, data, filename)
      ensures n != -1 ==> EntryStored(old(image), image, dirEntryOffset, cluster, |data|, filename)
    {
      cluster := 0;
      Lseek(dirEntryOffset);
      var entry := Read(ENTRY_SIZE);
      if |entry| != ENTRY_SIZE {
        return -1, cluster;
      }
      var firstCluster := ClaimCluster(entry);
      if firstCluster == -1 {
        return -1, cluster;
      }
      cluster := firstCluster;
      var clusterOffset := ClusterToOffset(firstCluster);
      Lseek(clusterOffset);
      BootKept(image, clusterOffset, data);
      Write(data);
      SetNextCluster(firstCluster, END_OF_CHAIN);
      var name := EncodeName(filename);
      var bytes := name + [0x20] + entry[12..CLUSTER_FIELD] + U16Bytes(firstCluster) + entry[26..SIZE_FIELD]
                   + U32Bytes(|data|);
      Lseek(dirEntryOffset);
      Write(bytes);
      WrittenEntry(old(image), dirEntryOffset, cluster, data, filename);
      return |data|, cluster;
    }

    /** One turn of the loop of fat16_read: at most `want` bytes of the current cluster, and the
        step to the next one. */
    method ReadCluster(want: nat) returns (chunk: seq<byte>)
      requires Mounted(image) && |image| >= BOOT_SIZE && 2 <= fatPtr < END_OF_CHAIN
      modifies this`pos, this`fatPtr
      ensures chunk == Take(ClusterData(image, old(fatPtr)), want)
      ensures ClusterData(image, old(fatPtr)) != [] && NextOf(image, old(fatPtr)) > 0 ==>
        fatPtr == NextOf(image, old(fatPtr))
      ensures ClusterData(image, old(fatPtr)) != [] && NextOf(image, old(fatPtr)) == 0 ==> fatPtr == 0xFFFF
      ensures ClusterData(image, old(fatPtr)) == [] ==> fatPtr == old(fatPtr)
    {
      var clusterOffset := ClusterToOffset(fatPtr);
      Lseek(clusterOffset);
      var buffer := Read(BLOCK_SIZE);
      if |buffer| <= 0 {
        return [];
      }
      var bytesToCopy := if want > |buffer| then |buffer| else want;
      chunk := buffer[..bytesToCopy];
      var nextCluster := GetNextCluster(fatPtr);
      if nextCluster >= END_OF_CHAIN || nextCluster <= 0 {
        fatPtr := 0xFFFF;
        return;
      }
      fatPtr := nextCluster;
    }

    /** fat16_read of n bytes from a chain: the first n bytes of its clusters, taken together.
        j clusters are used up, no more than needed; fatPtr moves on to the rest.  A last
        cluster beyond the end of the image ends the read early and fatPtr stays on it. */
    method ReadFile(n: nat, ghost list: seq<int>) returns (data: seq<byte>, ghost j: nat)
      requires Mounted(image) && |image| >= BOOT_SIZE
      requires Chain(image, fatPtr, list) && NonEmpty(image, list, |list| - 1)
      modifies this`pos, this`fatPtr
      ensures data == Take(Content(image, list), n)
      ensures Reading(image, fatPtr, list, n, data, j)
      ensures |Content(image, list[..j])| >= n || j == |list| || ClusterData(image, list[j]) == []
    {
      data, j := [], 0;
      assert list[0..] == list;
      while fatPtr < END_OF_CHAIN && |data| < n
        invariant Reading(image, fatPtr, list, n, data, j)
        decreases |list| - j
      {
        ReadStep(image, fatPtr, list, n, data, j);
        var chunk := ReadCluster(n - |data|);
        if chunk == [] {
          break;
        }
        data := data + chunk;
        j := j + 1;
      }
      ReadDone(image, fatPtr, list, n, data, j);
    }

    /** The loop of fat16_remove over the clusters of a file. */
    method FreeChain(start: int, ghost list: seq<int>)
      requires Mounted(image) && Chain(image, start, list)
      modifies this`pos, this`image
      ensures Mounted(image) && TableChanged(old(image), image, list) && OnlyEntries(old(image), image, list)
      ensures forall i :: 0 <= i < |list| ==> FatAt(image, list[i]) == 0
    {
      var cluster := start;
      ghost var j: nat := 0;
      ChainDistinct(image, start, list);
      assert list[0..] == list;
      while cluster < END_OF_CHAIN
        invariant Unlinked(old(image), image, cluster, list, j)
        decreases |list| - j
      {
        UnlinkStep(old(image), image, cluster, list, j);
        var nextCluster := GetNextCluster(cluster);
        SetNextCluster(cluster, 0x0000);
        j := j + 1;
        cluster := nextCluster;
      }
    }
  }
}
