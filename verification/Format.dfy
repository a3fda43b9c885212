/** Formatting: what create_disk_image and initialize_fat16 leave in the image. */
module Format {
  import opened Bytes
  import opened ShortNames
  import opened FatImage
  import opened FatVolume
  import opened FileMap

  const MAX_MB := 2047   // one more megabyte overflows size_mb * 1024 * 1024

  /** The 62 bytes of the boot sector fields, little-endian, for a disk of `sizeMb` megabytes. */
  function BootFields(sizeMb: int): (b: seq<byte>)
    requires 0 <= sizeMb <= MAX_MB
    ensures |b| == BOOT_SIZE
  {
    [0xEB, 0x3C, 0x90] + [77, 83, 68, 79, 83, 53, 46, 48]        // jump, "MSDOS5.0"
    + [0x00, 0x02, 1] + U16Bytes(1) + [2] + U16Bytes(MAX_FILES)
    + U16Bytes(sizeMb * 2048 % 65536) + [0xF8] + U16Bytes(sizeMb * 8)
    + U16Bytes(63) + U16Bytes(255) + U32Bytes(0) + U32Bytes(0)
    + [0x80, 0, 0x29] + U32Bytes(0x12345678)
    + [78, 79, 32, 78, 65, 77, 69, 32, 32, 32, 32] + [70, 65, 84, 49, 54, 32, 32, 32]   // "NO NAME    ", "FAT16   "
  }

  function Zeros(n: nat): (z: seq<byte>)
    ensures |z| == n && forall k :: 0 <= k < n ==> z[k] == 0
  {
    seq(n, _ => 0)
  }

  lemma BootParsed(sizeMb: int, img: seq<byte>)
    requires 0 <= sizeMb <= MAX_MB && forall k :: 0 <= k < BOOT_SIZE ==> ByteAt(img, k) == BootFields(sizeMb)[k]
    ensures ParseBoot(img) == Boot(512, 1, 1, 2, MAX_FILES, sizeMb * 2048 % 65536, sizeMb * 8, 0)
  {
    var b := BootFields(sizeMb);
    assert b[14..16] == U16Bytes(1) && b[17..19] == U16Bytes(MAX_FILES);
    assert b[19..21] == U16Bytes(sizeMb * 2048 % 65536) && b[22..24] == U16Bytes(sizeMb * 8);
    assert b[32..36] == U32Bytes(0);
  }

  /** The image while it is being formatted: boot sector, the first table's mark once it is
      written, zeros everywhere else. */
  ghost predicate Blank(img: seq<byte>, sizeMb: int, marked: bool)
    requires 0 <= sizeMb <= MAX_MB
  {
    |img| == sizeMb * 0x10_0000 && forall p :: ByteAt(img, p) == BlankByte(sizeMb, marked, p)
  }

  ghost function BlankByte(sizeMb: int, marked: bool, p: int): byte
    requires 0 <= sizeMb <= MAX_MB
  {
    if 0 <= p < BOOT_SIZE then BootFields(sizeMb)[p]
    else if marked && 512 <= p < 515 then MARK[p - 512] else 0
  }

  const MARK: seq<byte> := [0xF8, 0xFF, 0xFF]

  /** Writing zeros where there are zeros, inside the image, changes nothing. */
  lemma BlankKept(img: seq<byte>, sizeMb: int, off: int, n: nat)
    requires 0 <= sizeMb <= MAX_MB && Blank(img, sizeMb, true) && 515 <= off && off + n <= |img|
    ensures Blank(WriteAt(img, off, Zeros(n)), sizeMb, true)
  {}

  /** One copy of the file allocation table: three bytes, then zeros one at a time. */
  method WriteTable(vn: Vnode, sizeMb: int, fatEntry: seq<byte>, ghost first: bool)
    requires 1 <= sizeMb <= MAX_MB && Blank(vn.image, sizeMb, !first) && fatEntry == if first then MARK else Zeros(3)
    requires if first then vn.pos == 512 else vn.pos >= 515 && vn.pos + sizeMb * 4096 <= |vn.image|
    modifies vn
    ensures Blank(vn.image, sizeMb, true) && vn.pos == old(vn.pos) + sizeMb * 4096
  {
    if !first { BlankKept(vn.image, sizeMb, vn.pos, 3); }
    vn.Write(fatEntry);
    var j := 3;
    while j < sizeMb * 8 * BLOCK_SIZE
      invariant 3 <= j <= sizeMb * 4096 && vn.pos == old(vn.pos) + j && Blank(vn.image, sizeMb, true)
    {
      BlankKept(vn.image, sizeMb, vn.pos, 1);
      vn.Write(Zeros(1));
      j := j + 1;
    }
  }

  /** initialize_fat16, on an image of zeros. Only the first table gets the two reserved entries. */
  method InitializeFat16(vn: Vnode, sizeMb: int)
    requires 1 <= sizeMb <= MAX_MB && vn.image == Zeros(sizeMb * 0x10_0000)
    modifies vn
    ensures Blank(vn.image, sizeMb, true)
  {
    var buffer := BootFields(sizeMb) + Zeros(BLOCK_SIZE - BOOT_SIZE);
    vn.Lseek(0);
    vn.Write(buffer);
    vn.Lseek(BLOCK_SIZE);
    WriteTable(vn, sizeMb, MARK, true);
    WriteTable(vn, sizeMb, Zeros(3), false);
    vn.Lseek(BLOCK_SIZE * (1 + 2 * (sizeMb * 8)));
    for i := 0 to MAX_FILES
      invariant vn.pos == BLOCK_SIZE * (1 + 2 * (sizeMb * 8)) + ENTRY_SIZE * i && Blank(vn.image, sizeMb, true)
    {
      BlankKept(vn.image, sizeMb, vn.pos, ENTRY_SIZE);
      vn.Write(Zeros(ENTRY_SIZE));
    }
  }

  /** create_disk_image: blocks of zeros, then the file system structures. */
  method CreateDiskImage(sizeMb: int) returns (vn: Vnode)
    requires 1 <= sizeMb <= MAX_MB
    ensures fresh(vn) && Blank(vn.image, sizeMb, true)
  {
    vn := new Vnode([]);
    var totalBlocks := sizeMb * 1024 * 1024 / BLOCK_SIZE;
    for i := 0 to totalBlocks
      invariant vn.image == Zeros(i * BLOCK_SIZE) && vn.pos == i * BLOCK_SIZE
      invariant fresh(vn)
    {
      vn.Write(Zeros(BLOCK_SIZE));
      assert vn.image == Zeros((i + 1) * BLOCK_SIZE);
    }
    InitializeFat16(vn, sizeMb);
  }

  /** Every byte of a formatted image, spelled out: the boot sector field by field at its offset,
      the three bytes of the first table's reserved entries, and zeros everywhere else, the last
      two bytes of the boot sector and the second table included. */
  lemma FormattedBytes(img: seq<byte>, sizeMb: int)
    requires 1 <= sizeMb <= MAX_MB && Blank(img, sizeMb, true)
    ensures |img| == sizeMb * 1024 * 1024
    ensures img[..11] == [0xEB, 0x3C, 0x90] + [77, 83, 68, 79, 83, 53, 46, 48]
    ensures U16(img, 11) == 512 && img[13] == 1 && U16(img, 14) == 1 && img[16] == 2 && U16(img, 17) == 512
    ensures U16(img, 19) == sizeMb * 2048 % 65536 && img[21] == 0xF8 && U16(img, 22) == sizeMb * 8
    ensures U16(img, 24) == 63 && U16(img, 26) == 255 && U32(img, 28) == 0 && U32(img, 32) == 0
    ensures img[36] == 0x80 && img[37] == 0 && img[38] == 0x29 && U32(img, 39) == 0x12345678
    ensures img[43..62] == [78, 79, 32, 78, 65, 77, 69, 32, 32, 32, 32] + [70, 65, 84, 49, 54, 32, 32, 32]
    ensures img[512] == 0xF8 && img[513] == 0xFF && img[514] == 0xFF
    ensures forall p :: 62 <= p < 512 || 515 <= p < |img| ==> img[p] == 0
  {
    BootPrefix(img, sizeMb);
    BootNumbers(img, sizeMb);
    forall p | 62 <= p < 512 || 515 <= p < |img| ensures img[p] == 0
    {
      assert img[p] == ByteAt(img, p);
    }
    assert img[512] == ByteAt(img, 512) && img[513] == ByteAt(img, 513) && img[514] == ByteAt(img, 514);
  }

  lemma BootPrefix(img: seq<byte>, sizeMb: int)
    requires 1 <= sizeMb <= MAX_MB && Blank(img, sizeMb, true)
    ensures |img| >= 62 && img[..62] == BootFields(sizeMb)
  {
    forall p | 0 <= p < 62 ensures img[p] == BootFields(sizeMb)[p]
    {
      assert img[p] == ByteAt(img, p);
    }
  }

  lemma BootNumbers(img: seq<byte>, sizeMb: int)
    requires 0 <= sizeMb <= MAX_MB && |img| >= 62 && img[..62] == BootFields(sizeMb)
    ensures img[..11] == [0xEB, 0x3C, 0x90] + [77, 83, 68, 79, 83, 53, 46, 48]
    ensures U16(img, 11) == 512 && img[13] == 1 && U16(img, 14) == 1 && img[16] == 2 && U16(img, 17) == 512
    ensures U16(img, 19) == sizeMb * 2048 % 65536 && img[21] == 0xF8 && U16(img, 22) == sizeMb * 8
    ensures U16(img, 24) == 63 && U16(img, 26) == 255 && U32(img, 28) == 0 && U32(img, 32) == 0
    ensures img[36] == 0x80 && img[37] == 0 && img[38] == 0x29 && U32(img, 39) == 0x12345678
    ensures img[43..62] == [78, 79, 32, 78, 65, 77, 69, 32, 32, 32, 32] + [70, 65, 84, 49, 54, 32, 32, 32]
  {
    var b := BootFields(sizeMb);
    assert forall p :: 0 <= p < 62 ==> ByteAt(img, p) == b[p];
    BootParsed(sizeMb, img);
    assert b[24..26] == U16Bytes(63) && b[26..28] == U16Bytes(255) && b[28..32] == U32Bytes(0);
    assert b[39..43] == U32Bytes(0x12345678);
    assert img[..11] == b[..11] && img[43..62] == b[43..62];
  }

  lemma SectorsModulo(sizeMb: int)
    ensures sizeMb * 2048 % 65536 == sizeMb % 32 * 2048
  {
    assert sizeMb == sizeMb / 32 * 32 + sizeMb % 32;
    assert sizeMb * 2048 == sizeMb / 32 * 65536 + sizeMb % 32 * 2048;
  }

  /** A freshly formatted disk holds no files, for every size that is not a multiple of 32 MB. */
  lemma FormattedIsEmpty(img: seq<byte>, sizeMb: int)
    requires 1 <= sizeMb <= MAX_MB && Blank(img, sizeMb, true) && sizeMb % 32 != 0
    ensures Holds(img, [])
  {
    SectorsModulo(sizeMb);
    BootParsed(sizeMb, img);
    var b := ParseBoot(img);
    assert Formatted(b);
    Offsets(b);
    assert SlotsEmpty(img, b, 0);
    assert TableHolds(img, b, 0);
  }

  /** The sector count is stored in 16 bits and its 32-bit companion as 0: a cluster can be
      allocated on a new disk exactly when its size is not a multiple of 32 MB, and every table
      entry that allocation may look at lies in the first table. */
  lemma UsableSizes(img: seq<byte>, sizeMb: int)
    requires 1 <= sizeMb <= MAX_MB && Blank(img, sizeMb, true)
    ensures Mounted(img) && ((exists c :: FreeEntry(img, c)) <==> sizeMb % 32 != 0)
    ensures var b := ParseBoot(img);
      && b.Usable()
      && forall i :: 2 <= i < b.ClusterCount() ==>
        b.FatEntry(i) + 2 <= b.FatOffset() + b.fatSize * b.bytesPerSector
  {
    SectorsModulo(sizeMb);
    BootParsed(sizeMb, img);
    if sizeMb % 32 != 0 {
      FormattedIsEmpty(img, sizeMb);
      assert U16(img, ParseBoot(img).FatEntry(2)) == 0;
      assert FreeEntry(img, 2);
    }
  }
}
