/** A disk image as a growable file of bytes, and little-endian fields inside it. */
module Bytes {

  type byte = n: int | 0 <= n < 256

  /** The byte at position k; positions outside the image read as 0. */
  function ByteAt(img: seq<byte>, k: int): byte {
    if 0 <= k < |img| then img[k] else 0
  }

  function U16(img: seq<byte>, off: int): int { ByteAt(img, off) as int + 256 * ByteAt(img, off + 1) as int }

  function U32(img: seq<byte>, off: int): int { U16(img, off) + 65536 * U16(img, off + 2) }

  function U16Bytes(v: int): (b: seq<byte>)
    requires 0 <= v < 65536
    ensures |b| == 2 && b[0] as int + 256 * b[1] as int == v
  {
    [v % 256, v / 256]
  }

  function U32Bytes(v: int): (b: seq<byte>)
    requires 0 <= v < 0x1_0000_0000
    ensures |b| == 4 && b[0] as int + 256 * b[1] as int + 65536 * (b[2] as int + 256 * b[3] as int) == v
  {
    U16Bytes(v % 65536) + U16Bytes(v / 65536)
  }

  /** read(2) at offset `off`: short, or empty, at the end of the file. */
  function ReadAt(img: seq<byte>, off: int, n: nat): (r: seq<byte>)
    requires off >= 0
    ensures |r| == if off >= |img| then 0 else if off + n <= |img| then n else |img| - off
    ensures forall k :: 0 <= k < |r| ==> r[k] == ByteAt(img, off + k)
  {
    if off >= |img| then [] else img[off .. if off + n <= |img| then off + n else |img|]
  }

  /** write(2) at offset `off`: grows the file, filling any hole with zeros. */
  function WriteAt(img: seq<byte>, off: int, data: seq<byte>): (r: seq<byte>)
    requires off >= 0
    ensures |r| == if data == [] || off + |data| <= |img| then |img| else off + |data|
    ensures forall k :: ByteAt(r, k) == if off <= k < off + |data| then data[k - off] else ByteAt(img, k)
  {
    if data == [] then img
    else
      var size := if off + |data| <= |img| then |img| else off + |data|;
      seq(size, k requires 0 <= k < size => if off <= k < off + |data| then data[k - off] else ByteAt(img, k))
  }

  /** The images agree on the positions in [a, e). */
  ghost predicate Agree(img: seq<byte>, img': seq<byte>, a: int, e: int) {
    forall k :: a <= k < e ==> ByteAt(img', k) == ByteAt(img, k)
  }
}
