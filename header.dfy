/** The fixed-offset header fields of a Windows BMP file (BITMAPFILEHEADER
    followed by BITMAPINFOHEADER), read the way the viewer reads them: each
    field is an unsigned little-endian integer taken from a Python slice of
    the buffer, so a short buffer yields a short slice rather than an error. */
module Header {
  import opened RasterTypes

  /** `bytes[lo:hi]`: both ends are clamped to the buffer length. */
  function Slice(bytes: seq<byte>, lo: nat, hi: nat): (s: seq<byte>)
    requires lo <= hi
    ensures |s| == if hi <= |bytes| then hi - lo else if lo <= |bytes| then |bytes| - lo else 0
    ensures forall k :: 0 <= k < |s| ==> s[k] == bytes[lo + k]
  {
    if hi <= |bytes| then bytes[lo..hi] else if lo <= |bytes| then bytes[lo..] else []
  }

  /** `int.from_bytes(s, "little")`: least significant byte first; empty is 0. */
  function LittleEndian(s: seq<byte>): nat
  {
    if s == [] then 0 else s[0] + 256 * LittleEndian(s[1..])
  }

  /** The inverse of `LittleEndian` for a fixed number of bytes. */
  function LittleEndianBytes(n: nat, len: nat): (s: seq<byte>)
    ensures |s| == len
  {
    if len == 0 then [] else [n % 256] + LittleEndianBytes(n / 256, len - 1)
  }

  lemma {:induction false} LittleEndianBound(s: seq<byte>)
    ensures LittleEndian(s) < Pow2(8 * |s|)
  {
    if s != [] {
      LittleEndianBound(s[1..]);
      Pow2Add8(8 * |s[1..]|);
    }
  }

  lemma {:induction false} Pow2Add8(n: nat)
    ensures Pow2(n + 8) == 256 * Pow2(n)
  {
    calc {
      Pow2(n + 8);
      2 * Pow2(n + 7);
      4 * Pow2(n + 6);
      8 * Pow2(n + 5);
      16 * Pow2(n + 4);
      32 * Pow2(n + 3);
      64 * Pow2(n + 2);
      128 * Pow2(n + 1);
      256 * Pow2(n);
    }
  }

  /** Encoding a value that fits in `len` bytes and reading it back gives the value. */
  lemma {:induction false} LittleEndianRoundTrip(n: nat, len: nat)
    requires n < Pow2(8 * len)
    ensures LittleEndian(LittleEndianBytes(n, len)) == n
  {
    if len > 0 {
      Pow2Add8(8 * (len - 1));
      LittleEndianRoundTrip(n / 256, len - 1);
      var s := LittleEndianBytes(n, len);
      assert s[1..] == LittleEndianBytes(n / 256, len - 1);
    }
  }

  /** Reading a byte string and encoding the value back at the same length gives the bytes. */
  lemma {:induction false} LittleEndianBytesRoundTrip(s: seq<byte>)
    ensures LittleEndianBytes(LittleEndian(s), |s|) == s
  {
    if s != [] {
      var n := LittleEndian(s);
      assert n % 256 == s[0] && n / 256 == LittleEndian(s[1..]);
      LittleEndianBytesRoundTrip(s[1..]);
    }
  }

  /** `int.from_bytes(bytes[lo:hi], "little")`. */
  function ReadField(bytes: seq<byte>, lo: nat, hi: nat): nat
    requires lo <= hi
  {
    LittleEndian(Slice(bytes, lo, hi))
  }

  /** The first two bytes are "BM": `bytes[:2] == b'BM'`, false for shorter buffers. */
  predicate HasSignature(bytes: seq<byte>) {
    |bytes| >= 2 && bytes[0] == 0x42 && bytes[1] == 0x4D
  }

  /** The five fields the viewer uses. */
  datatype BmpHeader = BmpHeader(fileSize: nat, dataOffset: nat, width: nat, height: nat, bitsPerPixel: nat)

  /** File size from [2,6), pixel-data offset from [10,14), width from
      [18,22), height from [22,26), bits per pixel from [28,30). */
  function ParseHeader(bytes: seq<byte>): BmpHeader {
    BmpHeader(
      ReadField(bytes, 2, 6),
      ReadField(bytes, 10, 14),
      ReadField(bytes, 18, 22),
      ReadField(bytes, 22, 26),
      ReadField(bytes, 28, 30))
  }

  /** The positions `ParseHeader` reads. */
  predicate IsFieldByte(k: nat) {
    (2 <= k < 6) || (10 <= k < 14) || (18 <= k < 26) || (28 <= k < 30)
  }

  lemma SliceAgree(a: seq<byte>, b: seq<byte>, lo: nat, hi: nat)
    requires lo <= hi && |a| == |b|
    requires forall k :: lo <= k < hi && k < |a| ==> a[k] == b[k]
    ensures Slice(a, lo, hi) == Slice(b, lo, hi)
  {
  }

  /** No header byte other than the field bytes influences the parsed header. */
  lemma HeaderReadsOnlyFieldBytes(a: seq<byte>, b: seq<byte>)
    requires |a| == |b|
    requires forall k: nat :: k < |a| && IsFieldByte(k) ==> a[k] == b[k]
    ensures ParseHeader(a) == ParseHeader(b)
  {
    SliceAgree(a, b, 2, 6);
    SliceAgree(a, b, 10, 14);
    SliceAgree(a, b, 18, 22);
    SliceAgree(a, b, 22, 26);
    SliceAgree(a, b, 28, 30);
  }

  /** The width, height and offset are below 2^32 and the depth below 2^16. */
  lemma HeaderFieldBounds(bytes: seq<byte>)
    ensures ParseHeader(bytes).fileSize < Pow2(32)
    ensures ParseHeader(bytes).dataOffset < Pow2(32)
    ensures ParseHeader(bytes).width < Pow2(32)
    ensures ParseHeader(bytes).height < Pow2(32)
    ensures ParseHeader(bytes).bitsPerPixel < Pow2(16)
  {
    forall lo: nat, hi: nat | lo <= hi && hi - lo <= 4
      ensures ReadField(bytes, lo, hi) < Pow2(8 * (hi - lo))
    {
      var s := Slice(bytes, lo, hi);
      LittleEndianBound(s);
      Pow2Monotone(8 * |s|, 8 * (hi - lo));
    }
  }

  lemma {:induction false} Pow2Monotone(m: nat, n: nat)
    requires m <= n
    ensures Pow2(m) <= Pow2(n)
  {
    if m < n {
      Pow2Monotone(m, n - 1);
    }
  }

  /** A field of four bytes that lie inside the buffer is the four bytes
      weighted least significant first. */
  lemma FourByteField(bytes: seq<byte>, lo: nat)
    requires lo + 4 <= |bytes|
    ensures ReadField(bytes, lo, lo + 4)
         == bytes[lo] as int + 256 * bytes[lo + 1] as int
          + 65536 * bytes[lo + 2] as int + 16777216 * bytes[lo + 3] as int
  {
    var s := bytes[lo..lo + 4];
    assert s[1..][1..] == s[2..] && s[2..][1..] == s[3..] && s[3..][1..] == [];
    assert LittleEndian(s[3..]) == s[3];
    assert LittleEndian(s[2..]) == s[2] as int + 256 * s[3] as int;
    assert LittleEndian(s[1..]) == s[1] + 256 * LittleEndian(s[2..]);
  }

  /** A buffer shorter than 30 bytes still parses: missing field bytes read as
      absent high bytes, and a field past the end reads as 0. */
  lemma ShortBufferReadsZero(bytes: seq<byte>)
    requires |bytes| <= 28
    ensures ParseHeader(bytes).bitsPerPixel == 0
  {
  }
}
