/** 8.3 file names: how fat16_open and fat16_write store a name in a directory entry, and how
    find_file and fat16_readdir read it back.  Names are C strings: bytes without a NUL. */
module ShortNames {
  import opened Bytes

  type Name = seq<byte>

  const DOT: byte := 46
  const SPACE: byte := 32

  ghost predicate IsCString(s: Name) { 0 !in s }

  /** strrchr: the position of the last dot, or -1. */
  function LastDot(s: Name): (d: int)
    ensures -1 <= d < |s|
    ensures d >= 0 ==> s[d] == DOT
    ensures forall k :: d < k < |s| ==> s[k] != DOT
  {
    if s == [] then -1 else if s[|s| - 1] == DOT then |s| - 1 else LastDot(s[..|s| - 1])
  }

  function Base(s: Name): Name { if LastDot(s) >= 0 then s[..LastDot(s)] else s }

  function Ext(s: Name): Name { if LastDot(s) >= 0 then s[LastDot(s) + 1..] else [] }

  /** The first n bytes of s, padded with spaces. */
  function Pad(s: Name, n: nat): (r: seq<byte>)
    ensures |r| == n
    ensures forall k :: 0 <= k < n ==> r[k] == if k < |s| then s[k] else SPACE
  {
    seq(n, k requires 0 <= k < n => if k < |s| then s[k] else SPACE)
  }

  ghost function Encode(s: Name): seq<byte> { Pad(Base(s), 8) + Pad(Ext(s), 3) }

  /** The longest prefix without NUL and without space. */
  ghost function Stem(field: seq<byte>): (r: Name)
    ensures |r| <= |field| && r == field[..|r|]
    ensures forall k :: 0 <= k < |r| ==> r[k] != 0 && r[k] != SPACE
    ensures |r| < |field| ==> field[|r|] == 0 || field[|r|] == SPACE
  {
    if field == [] || field[0] == 0 || field[0] == SPACE then [] else [field[0]] + Stem(field[1..])
  }

  /** What find_file compares with. */
  ghost function Decode(e: seq<byte>): Name
    requires |e| >= 11
  {
    Stem(e[..8]) + [DOT] + Stem(e[8..11])
  }

  /** `field` without the spaces at its end. */
  ghost function Trim(field: seq<byte>): (r: seq<byte>)
    ensures |r| <= |field| && r == field[..|r|]
    ensures forall k :: |r| <= k < |field| ==> field[k] == SPACE
    ensures r != [] ==> r[|r| - 1] != SPACE
  {
    if field == [] || field[|field| - 1] != SPACE then field else Trim(field[..|field| - 1])
  }

  ghost function CString(field: seq<byte>): (r: Name)
    ensures |r| <= |field| && r == field[..|r|] && IsCString(r)
    ensures |r| < |field| ==> field[|r|] == 0
  {
    if field == [] || field[0] == 0 then [] else [field[0]] + CString(field[1..])
  }

  /** What readdir keeps of a field: the loop goes back from the last byte of a buffer that
      ends in NULs after the first NUL of the field, so spaces are removed only from a field
      without NUL. */
  ghost function Trimmed(field: seq<byte>): Name {
    if |CString(field)| < |field| then CString(field) else Trim(field)
  }

  /** What fat16_readdir lists: the two fields, and no dot before an empty extension. */
  ghost function Listed(e: seq<byte>): Name
    requires |e| >= 11
  {
    var (name, ext) := (Trimmed(e[..8]), Trimmed(e[8..11]));
    if ext != [] then name + [DOT] + ext else name
  }

  /** strcasecmp compares names folded to lower case. */
  function Lower(c: byte): byte { if 65 <= c <= 90 then c + 32 else c }

  function Fold(s: Name): (r: Name)
    ensures |r| == |s| && forall k :: 0 <= k < |s| ==> r[k] == Lower(s[k])
  {
    seq(|s|, k requires 0 <= k < |s| => Lower(s[k]))
  }

  /** Two names fold to the same exactly when they have the same length and differ at most in
      the case of the letters A to Z. */
  lemma FoldMeans(s: Name, t: Name)
    ensures Fold(s) == Fold(t)
       <==> |s| == |t| && forall k :: 0 <= k < |s| ==> SameLetter(s[k], t[k])
  {
    if Fold(s) == Fold(t) {
      forall k | 0 <= k < |s| ensures SameLetter(s[k], t[k])
      {
        assert Fold(s)[k] == Fold(t)[k];
      }
    }
  }

  ghost predicate SameLetter(c: byte, d: byte) {
    c == d || (65 <= c <= 90 && d == c + 32) || (65 <= d <= 90 && c == d + 32)
  }

  /** The 11 bytes stored for a name, long or short: what stands before its last dot, cut or
      padded with spaces to 8 bytes, then what stands after it, to 3. */
  lemma EncodedBytes(s: Name, base: Name, ext: Name)
    requires DOT !in ext && (s == base + [46] + ext || (s == base && ext == [] && DOT !in base))
    ensures |Encode(s)| == 11
    ensures forall k :: 0 <= k < 8 ==> Encode(s)[k] == if k < |base| then base[k] else 32
    ensures forall k :: 0 <= k < 3 ==> Encode(s)[8 + k] == if k < |ext| then ext[k] else 32
  {
    if s == base + [46] + ext {
      LastDotAt(base, ext);
      assert s[..|base|] == base && s[|base| + 1..] == ext;
    } else {
      assert forall k :: 0 <= k < |s| ==> s[k] in base;
    }
  }

  /** A dot, at most 8 bytes before the last one and at most 3 after it, and no space. */
  ghost predicate IsShort(s: Name) {
    LastDot(s) >= 0 && |Base(s)| <= 8 && |Ext(s)| <= 3 && SPACE !in s
  }

  lemma StemOfPad(s: Name, n: nat)
    requires |s| <= n && IsCString(s) && SPACE !in s
    ensures Stem(Pad(s, n)) == s
  {
    var (p, r) := (Pad(s, n), Stem(Pad(s, n)));
    assert forall k :: 0 <= k < |s| ==> p[k] == s[k] && s[k] in s;
    assert |s| < n ==> p[|s|] == SPACE;
  }

  lemma {:induction false} LastDotAt(a: Name, b: Name)
    requires DOT !in b
    ensures LastDot(a + [DOT] + b) == |a|
  {
    var s := a + [DOT] + b;
    if b != [] {
      var front := b[..|b| - 1];
      assert s[..|s| - 1] == a + [DOT] + front && s[|s| - 1] == b[|b| - 1];
      assert b[|b| - 1] in b && DOT !in front;
      LastDotAt(a, front);
    } else {
      assert s[|s| - 1] == DOT;
    }
  }

  lemma ShortDecodes(s: Name)
    requires IsCString(s) && IsShort(s)
    ensures Decode(Encode(s)) == s
  {
    var (e, base, ext) := (Encode(s), Base(s), Ext(s));
    assert e[..8] == Pad(base, 8) && e[8..11] == Pad(ext, 3);
    StemOfPad(base, 8);
    StemOfPad(ext, 3);
    assert s == base + [DOT] + ext;
  }

  lemma OnlyShortDecode(s: Name)
    requires Decode(Encode(s)) == s
    ensures IsShort(s)
  {
    var e := Encode(s);
    var (a, b) := (Stem(e[..8]), Stem(e[8..11]));
    assert e[8..11] == Pad(Ext(s), 3);
    forall k | 0 <= k < |b| ensures b[k] != DOT
    {
      assert b[k] == Pad(Ext(s), 3)[k];
    }
    LastDotAt(a, b);
    assert Base(s) == a && Ext(s) == b;
  }

  /** A stored name is found again under exactly itself if and only if it is an 8.3 name. */
  lemma RoundTrip(s: Name)
    requires IsCString(s)
    ensures Decode(Encode(s)) == s <==> IsShort(s)
  {
    if IsShort(s) { ShortDecodes(s); }
    if Decode(Encode(s)) == s { OnlyShortDecode(s); }
  }

  /** So different 8.3 names never share an entry. */
  lemma EncodeInjective(s: Name, t: Name)
    requires IsCString(s) && IsCString(t) && IsShort(s) && IsShort(t) && Encode(s) == Encode(t)
    ensures s == t
  {
    RoundTrip(s);
    RoundTrip(t);
  }

  /** The listing shows the same name, without the dot when the extension is empty. */
  lemma ListedName(s: Name)
    requires IsCString(s) && IsShort(s)
    ensures Listed(Encode(s)) == if Ext(s) != [] then s else Base(s)
  {
    var (e, base, ext) := (Encode(s), Base(s), Ext(s));
    assert e[..8] == Pad(base, 8) && e[8..11] == Pad(ext, 3);
    assert s == base + [DOT] + ext;
    TrimOfPad(base, 8);
    TrimOfPad(ext, 3);
  }

  lemma TrimOfPad(s: Name, n: nat)
    requires |s| <= n && IsCString(s) && SPACE !in s
    ensures Trimmed(Pad(s, n)) == s
  {
    var p := Pad(s, n);
    var c := CString(p);
    assert |c| == n && c == p;
    var r := Trim(c);
    assert forall k :: 0 <= k < |s| ==> c[k] == s[k] && s[k] in s;
    assert forall k :: |s| <= k < n ==> c[k] == SPACE;
    TrimLength(c, |s|);
    assert r == s;
  }

  lemma {:induction false} TrimLength(c: seq<byte>, m: nat)
    requires m <= |c| && (m > 0 ==> c[m - 1] != SPACE) && forall k :: m <= k < |c| ==> c[k] == SPACE
    ensures |Trim(c)| == m
  {
    if m < |c| { TrimLength(c[..|c| - 1], m); }
  }

  /** The first byte of a stored 8.3 name is not 0, which would end the directory, and is the
      "deleted" mark 0xE5 exactly when the name itself starts with that byte. */
  lemma FirstByte(s: Name)
    requires IsCString(s) && IsShort(s)
    ensures Encode(s)[0] != 0 && (Encode(s)[0] == 0xE5 <==> s[0] == 0xE5)
  {
    assert Encode(s)[0] == Pad(Base(s), 8)[0];
    if Base(s) != [] { assert s[0] in s; }
  }
}
