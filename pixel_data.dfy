/** The pixel array of an uncompressed BMP: rows padded to a multiple of four
    bytes and stored bottom row first. 24-bit rows hold (blue, green, red)
    triples; rows of 1 to 8 bits per pixel hold palette indices packed most
    significant bits first. Decoding prepends each row, so the raster comes out
    top row first. */
module PixelData {
  import opened RasterTypes

  /** Bytes per stored row: `((bpp * width + 31) // 32) * 4`. */
  function RowSize(bpp: nat, width: nat): nat {
    ((bpp * width + 31) / 32) * 4
  }

  /** Bytes that hold the pixels of a row, ceil(bpp * width / 8); the rest of
      the row is padding. */
  function RowDataBytes(bpp: nat, width: nat): nat {
    (bpp * width + 7) / 8
  }

  /** Start of stored row `y` (counted from the bottom of the picture). */
  function RowOffset(dataOffset: nat, bpp: nat, width: nat, y: nat): nat {
    dataOffset + y * RowSize(bpp, width)
  }

  /** The depths with a decoding branch: 24 bits, or 8 bits and below. */
  predicate Decodable(bpp: nat) {
    bpp == 24 || 1 <= bpp <= 8
  }

  /** First byte of pixel `x` within its row: `3x` for 24 bits, else `x * bpp // 8`. */
  function PixelByteOffset(bpp: nat, x: nat): nat
    requires Decodable(bpp)
  {
    if bpp == 24 then 3 * x else x * bpp / 8
  }

  /** Last byte of the row read for pixel `x`. */
  function LastByteRead(bpp: nat, x: nat): nat
    requires Decodable(bpp)
  {
    if bpp == 24 then 3 * x + 2 else x * bpp / 8
  }

  /** Python's `v >> s` on a non-negative integer. */
  function ShiftRight(v: nat, s: nat): nat {
    var d := Pow2(s);
    DivisionOfNat(v, d);
    v / d
  }

  lemma DivisionOfNat(v: nat, d: nat)
    requires d >= 1
    ensures 0 <= v / d <= v
  {
  }

  /** Python's `v & ((1 << k) - 1)` on a non-negative integer: the low `k` bits. */
  function MaskLow(v: nat, k: nat): (r: nat)
    ensures r < Pow2(k)
  {
    v % Pow2(k)
  }

  /** `8 - ((x % (8 // bpp)) + 1) * bpp`: how far pixel `x`'s bits sit above
      the least significant end of its byte. The field always fits in the byte. */
  function BitShift(x: nat, bpp: nat): (s: nat)
    requires 1 <= bpp <= 8
    ensures s + bpp <= 8
  {
    var k := 8 / bpp;
    assert k * bpp <= 8 by {
      assert bpp in {1, 2, 3, 4, 5, 6, 7, 8};
    }
    assert (x % k + 1) * bpp <= k * bpp by {
      MulMonotone(x % k + 1, k, bpp);
    }
    8 - (x % k + 1) * bpp
  }

  /** The palette index of pixel `x` whose containing byte is `v`: the raw
      byte at 8 bits, otherwise the shifted and masked bit field. */
  function PaletteIndex(v: byte, x: nat, bpp: nat): (i: nat)
    requires 1 <= bpp <= 8
    ensures i < Pow2(bpp)
  {
    if bpp < 8 then MaskLow(ShiftRight(v, BitShift(x, bpp)), bpp)
    else
      assert Pow2(8) == 256;
      v
  }

  /** Every byte read for the row starting at `rowOffset` is in the buffer. */
  predicate RowFits(len: nat, rowOffset: nat, bpp: nat, width: nat)
    requires Decodable(bpp)
  {
    width == 0 || rowOffset + LastByteRead(bpp, width - 1) < len
  }

  /** Decoding the row starting at `rowOffset` raises nothing: it has no
      pixel, or the depth is not 0 and (for a depth with a decoding branch)
      the last byte the row reads is in the buffer. */
  predicate RowSucceeds(len: nat, rowOffset: nat, bpp: nat, width: nat) {
    width == 0 || (bpp != 0 && (Decodable(bpp) ==> RowFits(len, rowOffset, bpp, width)))
  }

  /** The whole decode raises nothing: there is no row, or the topmost stored
      row (the one read last, furthest into the buffer) succeeds. */
  predicate DecodeSucceeds(len: nat, dataOffset: nat, bpp: nat, width: nat, height: nat) {
    height == 0 || RowSucceeds(len, RowOffset(dataOffset, bpp, width, height - 1), bpp, width)
  }

  /** The exception a failed decode raises, given where its failing row
      starts: a zero depth reads the row's first byte and then divides by
      zero in `8 // bpp`; every other failure is a read past the end. */
  function DecodeFailure(len: nat, rowOffset: nat, bpp: nat): (e: DecodeError)
    ensures e != NotBmp
    ensures e == ZeroDivision <==> bpp == 0 && rowOffset < len
  {
    if bpp == 0 && rowOffset < len then ZeroDivision else IndexOutOfRange
  }

  /** Pixel `x` of the row starting at `rowOffset`. */
  function DecodePixel(bytes: seq<byte>, palette: seq<Pixel>, bpp: nat, rowOffset: nat, x: nat): Pixel
    requires Decodable(bpp) && rowOffset + LastByteRead(bpp, x) < |bytes|
    requires bpp <= 8 ==> |palette| == Pow2(bpp)
  {
    var o := rowOffset + PixelByteOffset(bpp, x);
    if bpp == 24 then
      Pixel(bytes[o + 2], bytes[o + 1], bytes[o])
    else
      palette[PaletteIndex(bytes[o], x, bpp)]
  }

  /** The row starting at `rowOffset`: `width` pixels for a depth with a
      decoding branch, and no pixel for any other depth. */
  function DecodedRow(bytes: seq<byte>, palette: seq<Pixel>, bpp: nat, width: nat, rowOffset: nat): seq<Pixel>
    requires bpp <= 8 ==> |palette| == Pow2(bpp)
    requires Decodable(bpp) ==> RowFits(|bytes|, rowOffset, bpp, width)
  {
    if Decodable(bpp) then
      assert forall x :: 0 <= x < width ==> rowOffset + LastByteRead(bpp, x) < |bytes| by {
        forall x | 0 <= x < width
          ensures rowOffset + LastByteRead(bpp, x) < |bytes|
        {
          LastByteReadMonotone(bpp, x, width - 1);
        }
      }
      seq(width, x requires 0 <= x < width => DecodePixel(bytes, palette, bpp, rowOffset, x))
    else
      []
  }

  /** The raster, top row first: output row `i` is stored row `height - 1 - i`. */
  function DecodedRaster(bytes: seq<byte>, palette: seq<Pixel>, dataOffset: nat, bpp: nat, width: nat, height: nat): Raster
    requires bpp <= 8 ==> |palette| == Pow2(bpp)
    requires DecodeSucceeds(|bytes|, dataOffset, bpp, width, height)
  {
    RowsFit(|bytes|, dataOffset, bpp, width, height);
    seq(height, i requires 0 <= i < height =>
      DecodedRow(bytes, palette, bpp, width, RowOffset(dataOffset, bpp, width, height - 1 - i)))
  }

  /** `_read_pixel_data`: decodes stored rows y = 0 .. height-1 and prepends
      each one, so that output row `i` is stored row `height - 1 - i`. */
  method ReadPixelData(bytes: seq<byte>, dataOffset: nat, bpp: nat, width: nat, height: nat, palette: seq<Pixel>)
    returns (r: Result<Raster>)
    requires bpp <= 8 ==> |palette| == Pow2(bpp)
    ensures r.Ok? <==> DecodeSucceeds(|bytes|, dataOffset, bpp, width, height)
    ensures r.Ok? ==> r.value == DecodedRaster(bytes, palette, dataOffset, bpp, width, height)
    ensures r.Err? ==> r.error == DecodeFailure(|bytes|, dataOffset, bpp)
  {
    var pixels: Raster := [];
    var rowSize := ((bpp * width + 31) / 32) * 4;
    for y := 0 to height
      invariant |pixels| == y
      invariant y > 0 ==> RowSucceeds(|bytes|, RowOffset(dataOffset, bpp, width, y - 1), bpp, width)
      invariant forall i :: 0 <= i < y ==> StoredRowIs(bytes, palette, dataOffset, bpp, width, y - 1 - i, pixels[i])
    {
      var rowOffset := dataOffset + y * rowSize;
      assert rowOffset == RowOffset(dataOffset, bpp, width, y);
      var row := ReadRow(bytes, palette, bpp, width, rowOffset);
      if row.Err? {
        if bpp == 0 {
          assert rowSize == 0;
        }
        if Decodable(bpp) && width > 0 {
          ReadMonotone(dataOffset, bpp, width, height, y, width - 1);
        }
        return Err(row.error);
      }
      assert StoredRowIs(bytes, palette, dataOffset, bpp, width, y, row.value);
      pixels := [row.value] + pixels;
    }
    assert DecodeSucceeds(|bytes|, dataOffset, bpp, width, height);
    RowsFit(|bytes|, dataOffset, bpp, width, height);
    ghost var expected := DecodedRaster(bytes, palette, dataOffset, bpp, width, height);
    assert forall i :: 0 <= i < height ==> pixels[i] == expected[i];
    return Ok(pixels);
  }

  /** `row` is stored row `y` decoded, and every byte that row reads is in the buffer. */
  ghost predicate StoredRowIs(bytes: seq<byte>, palette: seq<Pixel>, dataOffset: nat, bpp: nat, width: nat, y: nat, row: seq<Pixel>)
    requires bpp <= 8 ==> |palette| == Pow2(bpp)
  {
    (Decodable(bpp) ==> RowFits(|bytes|, RowOffset(dataOffset, bpp, width, y), bpp, width)) &&
    row == DecodedRow(bytes, palette, bpp, width, RowOffset(dataOffset, bpp, width, y))
  }

  /** One iteration of the row loop of `_read_pixel_data`: the 24-bit branch
      reads (blue, green, red) triples, the branch for 8 bits and below looks
      the shifted and masked index up in the palette, and any other depth
      leaves the row empty. A read past the end of the buffer raises
      IndexError; a zero depth raises ZeroDivisionError at `8 // bpp` once its
      first byte has been read. */
  method ReadRow(bytes: seq<byte>, palette: seq<Pixel>, bpp: nat, width: nat, rowOffset: nat)
    returns (r: Result<seq<Pixel>>)
    requires bpp <= 8 ==> |palette| == Pow2(bpp)
    ensures r.Ok? <==> RowSucceeds(|bytes|, rowOffset, bpp, width)
    ensures r.Ok? ==> Decodable(bpp) ==> RowFits(|bytes|, rowOffset, bpp, width)
    ensures r.Ok? ==> r.value == DecodedRow(bytes, palette, bpp, width, rowOffset)
    ensures r.Err? ==> r.error == DecodeFailure(|bytes|, rowOffset, bpp)
  {
    if bpp == 24 {
      r := ReadTrueColourRow(bytes, width, rowOffset);
    } else if bpp <= 8 {
      r := ReadIndexedRow(bytes, palette, bpp, width, rowOffset);
    } else {
      r := Ok([]);
    }
  }

  /** The 24-bit branch: pixel `x` is the triple at `rowOffset + 3x`, stored
      (blue, green, red). */
  method ReadTrueColourRow(bytes: seq<byte>, width: nat, rowOffset: nat) returns (r: Result<seq<Pixel>>)
    ensures r.Ok? <==> RowFits(|bytes|, rowOffset, 24, width)
    ensures r.Ok? ==> r.value == DecodedRow(bytes, [], 24, width, rowOffset)
    ensures r.Err? ==> r.error == IndexOutOfRange
  {
    var row: seq<Pixel> := [];
    for x := 0 to width
      invariant |row| == x
      invariant forall k :: 0 <= k < x ==>
        rowOffset + LastByteRead(24, k) < |bytes| && row[k] == DecodePixel(bytes, [], 24, rowOffset, k)
    {
      var pixelOffset := rowOffset + x * 3;
      assert pixelOffset == rowOffset + PixelByteOffset(24, x);
      if pixelOffset + 2 >= |bytes| {
        LastByteReadMonotone(24, x, width - 1);
        return Err(IndexOutOfRange);
      }
      var b := bytes[pixelOffset];
      var g := bytes[pixelOffset + 1];
      var red := bytes[pixelOffset + 2];
      row := row + [Pixel(red, g, b)];
    }
    return Ok(row);
  }

  /** The branch for 8 bits and below: pixel `x` is the palette entry at the
      bit field of byte `rowOffset + x * bpp // 8`; a zero depth fails at its
      first pixel. */
  method ReadIndexedRow(bytes: seq<byte>, palette: seq<Pixel>, bpp: nat, width: nat, rowOffset: nat)
    returns (r: Result<seq<Pixel>>)
    requires bpp <= 8 && |palette| == Pow2(bpp)
    ensures r.Ok? <==> width == 0 || (bpp != 0 && RowFits(|bytes|, rowOffset, bpp, width))
    ensures r.Ok? ==> bpp != 0 ==> r.value == DecodedRow(bytes, palette, bpp, width, rowOffset)
    ensures r.Ok? ==> bpp == 0 ==> r.value == []
    ensures r.Err? ==> r.error == DecodeFailure(|bytes|, rowOffset, bpp)
  {
    var row: seq<Pixel> := [];
    for x := 0 to width
      invariant |row| == x
      invariant bpp == 0 ==> x == 0
      invariant forall k :: 0 <= k < x ==>
        rowOffset + LastByteRead(bpp, k) < |bytes| && row[k] == DecodePixel(bytes, palette, bpp, rowOffset, k)
    {
      var byteOffset := rowOffset + x * bpp / 8;
      if byteOffset >= |bytes| {
        if bpp != 0 {
          LastByteReadMonotone(bpp, x, width - 1);
        } else {
          assert byteOffset == rowOffset;
        }
        return Err(IndexOutOfRange);
      }
      var pixelValue: nat := bytes[byteOffset];
      if bpp == 0 {
        return Err(ZeroDivision);
      }
      if bpp < 8 {
        var bitsToShift := BitShift(x, bpp);
        pixelValue := MaskLow(ShiftRight(pixelValue, bitsToShift), bpp);
      }
      assert pixelValue == PaletteIndex(bytes[byteOffset], x, bpp);
      assert rowOffset + LastByteRead(bpp, x) == byteOffset;
      assert palette[pixelValue] == DecodePixel(bytes, palette, bpp, rowOffset, x);
      row := row + [palette[pixelValue]];
    }
    return Ok(row);
  }

  // ---------------------------------------------------------------------
  // Arithmetic about rows

  lemma {:induction false} LastByteReadMonotone(bpp: nat, x: nat, x': nat)
    requires Decodable(bpp) && x <= x'
    ensures LastByteRead(bpp, x) <= LastByteRead(bpp, x')
  {
    if bpp != 24 {
      MulMonotone(x, x', bpp);
    }
  }

  /** Every byte read for pixel (x, y) lies at or before the last byte read
      for the last pixel of the topmost stored row. */
  lemma {:induction false} ReadMonotone(dataOffset: nat, bpp: nat, width: nat, height: nat, y: nat, x: nat)
    requires Decodable(bpp) && y < height && x < width
    ensures RowOffset(dataOffset, bpp, width, y) + LastByteRead(bpp, x)
         <= RowOffset(dataOffset, bpp, width, height - 1) + LastByteRead(bpp, width - 1)
  {
    MulMonotone(y, height - 1, RowSize(bpp, width));
    LastByteReadMonotone(bpp, x, width - 1);
  }

  /** When the topmost stored row fits, every stored row fits. */
  lemma {:induction false} RowsFit(len: nat, dataOffset: nat, bpp: nat, width: nat, height: nat)
    requires DecodeSucceeds(len, dataOffset, bpp, width, height)
    ensures Decodable(bpp) ==>
      forall y :: 0 <= y < height ==> RowFits(len, RowOffset(dataOffset, bpp, width, y), bpp, width)
  {
    if Decodable(bpp) && width > 0 {
      forall y | 0 <= y < height
        ensures RowFits(len, RowOffset(dataOffset, bpp, width, y), bpp, width)
      {
        ReadMonotone(dataOffset, bpp, width, height, y, width - 1);
      }
    }
  }

  /** The stride is a multiple of four, holds all of the row's pixel bytes, and
      adds fewer than four bytes of padding. */
  lemma RowSizeBounds(bpp: nat, width: nat)
    ensures RowSize(bpp, width) % 4 == 0
    ensures RowDataBytes(bpp, width) <= RowSize(bpp, width) < RowDataBytes(bpp, width) + 4
  {
    var n := bpp * width;
    var q := (n + 31) / 32;
    var d := (n + 7) / 8;
    assert 32 * q <= n + 31 < 32 * q + 32;
    assert 8 * d <= n + 7 < 8 * d + 8;
  }

  /** Padding is never read: every byte read for pixel `x` of a stored row lies
      in the row's pixel bytes, which end no later than the next row begins. */
  lemma {:induction false} DecoderNeverReadsPadding(dataOffset: nat, bpp: nat, width: nat, y: nat, x: nat)
    requires Decodable(bpp) && x < width
    ensures PixelByteOffset(bpp, x) <= LastByteRead(bpp, x) < RowDataBytes(bpp, width)
    ensures RowOffset(dataOffset, bpp, width, y) + RowDataBytes(bpp, width)
         <= RowOffset(dataOffset, bpp, width, y + 1)
  {
    RowSizeBounds(bpp, width);
    if bpp == 24 {
      assert RowDataBytes(bpp, width) == 3 * width;
    } else {
      MulMonotone(x, width - 1, bpp);
      var n := bpp * width;
      assert x * bpp <= n - 1;
      assert (x * bpp) / 8 <= (n - 1) / 8;
    }
  }

  /** For the depths that divide a byte evenly, pixels are packed `8 // bpp`
      per byte, most significant bits first: pixel `x` lies in byte
      `x // (8 // bpp)` of its row; the first pixel of a byte occupies its top
      `bpp` bits; each following pixel of the same byte sits `bpp` bits lower;
      and the last pixel of a byte occupies its bottom bits. */
  lemma PackingConsistent(bpp: nat, x: nat)
    requires bpp in {1, 2, 4, 8}
    ensures x * bpp / 8 == x / (8 / bpp)
    ensures x % (8 / bpp) == 0 ==> BitShift(x, bpp) == 8 - bpp
    ensures (x + 1) % (8 / bpp) != 0 ==>
      (x + 1) * bpp / 8 == x * bpp / 8 && BitShift(x + 1, bpp) + bpp == BitShift(x, bpp)
    ensures (x + 1) % (8 / bpp) == 0 ==> BitShift(x, bpp) == 0
  {
    assert 8 / bpp * bpp == 8 by {
      assert bpp == 1 || bpp == 2 || bpp == 4 || bpp == 8;
    }
    PackedGroups(x, bpp, 8 / bpp);
  }

  /** `PackingConsistent` for `k` fields of `bpp` bits per byte. */
  lemma PackedGroups(x: nat, bpp: nat, k: nat)
    requires 1 <= bpp <= 8 && k == 8 / bpp && k * bpp == 8
    ensures x * bpp / 8 == x / k
    ensures x % k == 0 ==> BitShift(x, bpp) == 8 - bpp
    ensures (x + 1) % k != 0 ==>
      (x + 1) * bpp / 8 == x * bpp / 8 && BitShift(x + 1, bpp) + bpp == BitShift(x, bpp)
    ensures (x + 1) % k == 0 ==> BitShift(x, bpp) == 0
  {
    PackedByte(x, bpp, k);
    PackedByte(x + 1, bpp, k);
    NextInGroup(x, k);
    var r := x % k;
    if (x + 1) % k != 0 {
      assert (r + 2) * bpp == (r + 1) * bpp + bpp;
    } else {
      assert (r + 1) * bpp == k * bpp;
    }
  }

  /** With `k` fields of `bpp` bits per byte, pixel `x` is field `x % k` of
      byte `x / k`, counted from the most significant end. */
  lemma PackedByte(x: nat, bpp: nat, k: nat)
    requires 1 <= bpp <= 8 && k == 8 / bpp && k * bpp == 8
    ensures x * bpp / 8 == x / k
    ensures BitShift(x, bpp) == 8 - (x % k + 1) * bpp
  {
    var q, r := x / k, x % k;
    assert x == k * q + r;
    assert x * bpp == 8 * q + r * bpp by {
      assert x * bpp == (k * q) * bpp + r * bpp;
      assert (k * q) * bpp == (k * bpp) * q;
    }
    MulMonotone(r, k - 1, bpp);
    assert (k - 1) * bpp == 8 - bpp;
    DivModUnique(x * bpp, 8, q, r * bpp);
  }

  /** Stepping from `x` to `x + 1` either stays in the same group of `k`,
      one position further, or starts the next group after the last position. */
  lemma NextInGroup(x: nat, k: nat)
    requires k >= 1
    ensures (x + 1) % k != 0 ==> (x + 1) % k == x % k + 1 && (x + 1) / k == x / k
    ensures (x + 1) % k == 0 ==> x % k == k - 1
  {
    var q, r := x / k, x % k;
    if r + 1 < k {
      DivModUnique(x + 1, k, q, r + 1);
    } else {
      DivModUnique(x + 1, k, q + 1, 0);
    }
  }

  /** Euclidean division is unique: a quotient and an in-range remainder
      that rebuild `n` are `n / k` and `n % k`. */
  lemma DivModUnique(n: int, k: int, q: int, r: int)
    requires k >= 1 && n == k * q + r && 0 <= r < k
    ensures n / k == q && n % k == r
  {
    var q', r' := n / k, n % k;
    assert n == k * q' + r' && 0 <= r' < k;
    if q' < q {
      ScaleStep(k, q', q);
    } else if q < q' {
      ScaleStep(k, q, q');
    }
  }

  lemma ScaleStep(k: int, a: int, b: int)
    requires k >= 1 && a < b
    ensures k * a + k <= k * b
  {
    var d := b - a;
    MulMonotone(1, d, k);
    assert k * b == k * a + k * d;
  }

  // ---------------------------------------------------------------------
  // What the decoded raster looks like

  /** Pixel x of output row i is pixel x of stored row height-1-i, and the
      bytes it is read from are in the buffer. */
  lemma {:induction false} DecodedRasterAt(bytes: seq<byte>, palette: seq<Pixel>, dataOffset: nat, bpp: nat, width: nat, height: nat, i: nat, x: nat)
    requires Decodable(bpp) && (bpp <= 8 ==> |palette| == Pow2(bpp))
    requires DecodeSucceeds(|bytes|, dataOffset, bpp, width, height)
    requires i < height && x < width
    ensures RowOffset(dataOffset, bpp, width, height - 1 - i) + LastByteRead(bpp, x) < |bytes|
    ensures |DecodedRaster(bytes, palette, dataOffset, bpp, width, height)| == height
    ensures |DecodedRaster(bytes, palette, dataOffset, bpp, width, height)[i]| == width
    ensures DecodedRaster(bytes, palette, dataOffset, bpp, width, height)[i][x]
         == DecodePixel(bytes, palette, bpp, RowOffset(dataOffset, bpp, width, height - 1 - i), x)
  {
    var o := RowOffset(dataOffset, bpp, width, height - 1 - i);
    RowsFit(|bytes|, dataOffset, bpp, width, height);
    assert RowFits(|bytes|, o, bpp, width);
    LastByteReadMonotone(bpp, x, width - 1);
    var r := DecodedRaster(bytes, palette, dataOffset, bpp, width, height);
    assert r[i] == DecodedRow(bytes, palette, bpp, width, o);
  }

  /** `height` rows, each of `width` pixels for a depth with a decoding
      branch and empty for any other depth; every pixel displayable when the
      palette is. */
  lemma DecodedRasterShape(bytes: seq<byte>, palette: seq<Pixel>, dataOffset: nat, bpp: nat, width: nat, height: nat)
    requires bpp <= 8 ==> |palette| == Pow2(bpp)
    requires DecodeSucceeds(|bytes|, dataOffset, bpp, width, height)
    requires forall c :: 0 <= c < |palette| ==> InRange(palette[c])
    ensures |DecodedRaster(bytes, palette, dataOffset, bpp, width, height)| == height
    ensures forall i :: 0 <= i < height ==>
      |DecodedRaster(bytes, palette, dataOffset, bpp, width, height)[i]| == (if Decodable(bpp) then width else 0)
    ensures WellFormed(DecodedRaster(bytes, palette, dataOffset, bpp, width, height))
  {
    var r := DecodedRaster(bytes, palette, dataOffset, bpp, width, height);
    RowsFit(|bytes|, dataOffset, bpp, width, height);
    forall i | 0 <= i < height
      ensures |r[i]| == if Decodable(bpp) then width else 0
    {
      assert r[i] == DecodedRow(bytes, palette, bpp, width, RowOffset(dataOffset, bpp, width, height - 1 - i));
    }
    forall i, j | 0 <= i < |r| && 0 <= j < |r[i]|
      ensures InRange(r[i][j])
    {
      DecodedRasterAt(bytes, palette, dataOffset, bpp, width, height, i, j);
    }
  }

  /** At 24 bits, pixel x of output row i is (b[o+2], b[o+1], b[o]) where
      o = dataOffset + (height-1-i) * rowSize + 3x: the top output row comes
      from the last stored row. */
  lemma TrueColourLayout(bytes: seq<byte>, palette: seq<Pixel>, dataOffset: nat, width: nat, height: nat, i: nat, x: nat)
    requires DecodeSucceeds(|bytes|, dataOffset, 24, width, height)
    requires i < height && x < width
    ensures var o := RowOffset(dataOffset, 24, width, height - 1 - i) + 3 * x;
      o + 2 < |bytes| &&
      |DecodedRaster(bytes, palette, dataOffset, 24, width, height)[i]| == width &&
      DecodedRaster(bytes, palette, dataOffset, 24, width, height)[i][x] == Pixel(bytes[o + 2], bytes[o + 1], bytes[o])
  {
    DecodedRasterAt(bytes, palette, dataOffset, 24, width, height, i, x);
  }

  /** At 1 to 8 bits, pixel x of output row i is the palette entry whose index
      is the bit field of byte dataOffset + (height-1-i) * rowSize + x*bpp/8
      (the whole byte at 8 bits); the index is always inside the palette. */
  lemma IndexedLayout(bytes: seq<byte>, palette: seq<Pixel>, dataOffset: nat, bpp: nat, width: nat, height: nat, i: nat, x: nat)
    requires 1 <= bpp <= 8 && |palette| == Pow2(bpp)
    requires DecodeSucceeds(|bytes|, dataOffset, bpp, width, height)
    requires i < height && x < width
    ensures var o := RowOffset(dataOffset, bpp, width, height - 1 - i) + x * bpp / 8;
      o < |bytes| &&
      var v := bytes[o];
      var index := if bpp < 8 then (v / Pow2(BitShift(x, bpp))) % Pow2(bpp) else v;
      index < |palette| &&
      |DecodedRaster(bytes, palette, dataOffset, bpp, width, height)[i]| == width &&
      DecodedRaster(bytes, palette, dataOffset, bpp, width, height)[i][x] == palette[index]
  {
    DecodedRasterAt(bytes, palette, dataOffset, bpp, width, height, i, x);
    var o := RowOffset(dataOffset, bpp, width, height - 1 - i) + x * bpp / 8;
    assert PaletteIndex(bytes[o], x, bpp) < |palette|;
  }

  /** A one-bit row holding the byte 0b10110010 gives the indices 1,0,1,1,0,0,1,0. */
  lemma OneBitExample()
    ensures seq(8, x requires 0 <= x < 8 => PaletteIndex(0xB2, x, 1)) == [1, 0, 1, 1, 0, 0, 1, 0]
  {
    assert Pow2(1) == 2 && Pow2(2) == 4 && Pow2(3) == 8 && Pow2(4) == 16;
    assert Pow2(5) == 32 && Pow2(6) == 64 && Pow2(7) == 128;
    forall x | 0 <= x < 8
      ensures BitShift(x, 1) == 7 - x
    {
    }
    assert ShiftRight(0xB2, 7) == 1 && ShiftRight(0xB2, 6) == 2 && ShiftRight(0xB2, 5) == 5;
    assert ShiftRight(0xB2, 4) == 11 && ShiftRight(0xB2, 3) == 22 && ShiftRight(0xB2, 2) == 44;
    assert ShiftRight(0xB2, 1) == 89 && ShiftRight(0xB2, 0) == 178;
  }
}
