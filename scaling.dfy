/** Nearest-neighbour scaling of a raster by a percentage. The viewer passes
    `percent / 100` as a float; here the factor is the integer percentage and
    the arithmetic is exact: `int(n * scale)` is `n * percent / 100` and
    `int(i / scale)` is `i * 100 / percent`. */
module Scaling {
  import opened RasterTypes

  function Min(a: int, b: int): int {
    if a <= b then a else b
  }

  /** `int(n * scale)`: the length of a dimension after scaling. */
  function ScaledLength(n: nat, percent: nat): nat {
    n * percent / 100
  }

  /** `min(int(i / scale), n - 1)`: the source coordinate of output
      coordinate `i`, clamped to the last row or column. */
  function SourceIndex(i: nat, percent: nat, n: nat): (s: nat)
    requires percent > 0 && n > 0
    ensures s < n
  {
    Min(i * 100 / percent, n - 1)
  }

  /** The general branch of `scale_image`: every output pixel copies the
      source pixel at the clamped source coordinates. */
  function Resample(pixels: Raster, percent: nat): Raster
    requires Rectangular(pixels) && |pixels| > 0
  {
    var h, w := |pixels|, |pixels[0]|;
    seq(ScaledLength(h, percent), y requires 0 <= y < ScaledLength(h, percent) =>
      seq(ScaledLength(w, percent), x requires 0 <= x < ScaledLength(w, percent) =>
        pixels[SourceIndex(y, percent, h)][SourceIndex(x, percent, w)]))
  }

  /** `scale_image`: the identity at 100 percent; an empty raster makes
      `pixels[0]` raise IndexError, which the method catches, returning its
      input; otherwise the resampled raster. */
  function Scaled(pixels: Raster, percent: nat): Raster
    requires Rectangular(pixels)
  {
    if percent == 100 then pixels
    else if |pixels| == 0 then pixels
    else Resample(pixels, percent)
  }

  /** `scale_image`, building each output row with an append loop (the rows
      are mapped in order). */
  method ScaleImage(pixels: Raster, percent: nat) returns (scaled: Raster)
    requires Rectangular(pixels)
    ensures scaled == Scaled(pixels, percent)
  {
    if percent == 100 {
      return pixels;
    }
    if |pixels| == 0 {
      return pixels;
    }
    var newHeight := |pixels| * percent / 100;
    var newWidth := |pixels[0]| * percent / 100;
    ghost var expected := Resample(pixels, percent);
    scaled := [];
    for y := 0 to newHeight
      invariant |scaled| == y
      invariant forall k :: 0 <= k < y ==> scaled[k] == expected[k]
    {
      ScaledLengthPositive(|pixels|, percent);
      var row: seq<Pixel> := [];
      var origY := Min(y * 100 / percent, |pixels| - 1);
      assert origY == SourceIndex(y, percent, |pixels|);
      for x := 0 to newWidth
        invariant |row| == x
        invariant forall k :: 0 <= k < x ==> row[k] == pixels[origY][SourceIndex(k, percent, |pixels[0]|)]
      {
        ScaledLengthPositive(|pixels[0]|, percent);
        var origX := Min(x * 100 / percent, |pixels[0]| - 1);
        row := row + [pixels[origY][origX]];
      }
      assert row == expected[y];
      scaled := scaled + [row];
    }
  }

  // ---------------------------------------------------------------------
  // Properties of the scaled raster

  /** Away from the identity shortcut the result has int(h*s) rows of
      int(w*s) pixels, and pixel (x, y) is the input pixel at the clamped
      source coordinates (which `SourceIndex` keeps inside the input). */
  lemma ScaledShape(pixels: Raster, percent: nat)
    requires Rectangular(pixels) && |pixels| > 0 && percent != 100
    ensures |Scaled(pixels, percent)| == |pixels| * percent / 100
    ensures forall y :: 0 <= y < |Scaled(pixels, percent)| ==>
      |Scaled(pixels, percent)[y]| == |pixels[0]| * percent / 100
    ensures forall y, x :: 0 <= y < |Scaled(pixels, percent)| && 0 <= x < |Scaled(pixels, percent)[y]| ==>
      percent > 0 &&
      Scaled(pixels, percent)[y][x] == pixels[SourceIndex(y, percent, |pixels|)][SourceIndex(x, percent, |pixels[0]|)]
  {
    var r := Scaled(pixels, percent);
    forall y, x | 0 <= y < |r| && 0 <= x < |r[y]|
      ensures percent > 0 && r[y][x] == pixels[SourceIndex(y, percent, |pixels|)][SourceIndex(x, percent, |pixels[0]|)]
    {
      ScaledLengthPositive(|pixels|, percent);
    }
  }

  /** Scaling keeps a raster rectangular and every pixel displayable. */
  lemma ScalePreservesWellFormed(pixels: Raster, percent: nat)
    requires WellFormed(pixels)
    ensures WellFormed(Scaled(pixels, percent))
  {
    if percent != 100 && |pixels| > 0 {
      var r := Resample(pixels, percent);
      forall i, j | 0 <= i < |r| && 0 <= j < |r[i]|
        ensures InRange(r[i][j])
      {
        var sy, sx := SourceIndex(i, percent, |pixels|), SourceIndex(j, percent, |pixels[0]|);
        assert r[i][j] == pixels[sy][sx];
      }
    }
  }

  /** At 100 percent the general resampling formula is the identity too, so
      the shortcut returns what the general branch would. */
  lemma FullScaleResampleIsIdentity(pixels: Raster)
    requires Rectangular(pixels) && |pixels| > 0
    ensures Resample(pixels, 100) == pixels
  {
    var r := Resample(pixels, 100);
    assert |r| == |pixels|;
    forall y | 0 <= y < |r|
      ensures r[y] == pixels[y]
    {
      assert |r[y]| == |pixels[y]|;
      forall x | 0 <= x < |r[y]|
        ensures r[y][x] == pixels[y][x]
      {
        assert SourceIndex(y, 100, |pixels|) == y;
        assert SourceIndex(x, 100, |pixels[0]|) == x;
      }
    }
  }

  /** A factor of at most 100 percent never enlarges a dimension. */
  lemma ScaledLengthShrinks(n: nat, percent: nat)
    requires percent <= 100
    ensures ScaledLength(n, percent) <= n
  {
    assert n * percent <= n * 100;
  }

  /** In exact arithmetic the clamp to the last row or column never takes
      effect: every output coordinate below int(n*s) maps below n. */
  lemma ClampNeverBinds(i: nat, percent: nat, n: nat)
    requires percent > 0 && i < ScaledLength(n, percent)
    ensures i * 100 / percent < n
  {
    assert (i + 1) * 100 <= n * percent;
    var q := i * 100 / percent;
    assert q * percent <= i * 100;
    if q >= n {
      MulMonotone(n, q, percent);
    }
  }

  /** A dimension that scales to a positive length has a positive source
      length and a positive percentage. */
  lemma ScaledLengthPositive(n: nat, percent: nat)
    requires ScaledLength(n, percent) > 0
    ensures n > 0 && percent > 0
  {
  }

  /** Nearest neighbour: output coordinate i (at i * 100 / percent in source
      units) falls inside the source pixel it copies. */
  lemma NearestNeighbour(i: nat, percent: nat, n: nat)
    requires percent > 0 && i < ScaledLength(n, percent)
    ensures var s := SourceIndex(i, percent, n);
      s * percent <= i * 100 < (s + 1) * percent
  {
    ClampNeverBinds(i, percent, n);
  }
}
