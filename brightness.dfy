/** The brightness pass. Its per-pixel arithmetic (RGB to YUV, luma scaled
    by level / 50 and clamped, back to RGB with `round`) is floating point and
    is supplied by the caller as `step`; what is modelled is the pass itself:
    every pixel of every row goes through `step` and then each channel is
    clamped to 0..255. */
module Brightness {
  import opened RasterTypes

  /** The floating-point colour-space round trip for one pixel at a level. */
  type YuvStep = (Pixel, int) -> Pixel

  /** `max(0, min(255, c))`. */
  function Clamp(c: int): (r: int)
    ensures ChannelInRange(r)
    ensures ChannelInRange(c) ==> r == c
    ensures c < 0 ==> r == 0
    ensures c > 255 ==> r == 255
  {
    var m := if c < 255 then c else 255;
    if 0 < m then m else 0
  }

  function ClampPixel(p: Pixel): Pixel {
    Pixel(Clamp(p.r), Clamp(p.g), Clamp(p.b))
  }

  /** The raster `_adjust_brightness_single_pass` returns. */
  function Brightened(pixels: Raster, level: int, step: YuvStep): Raster {
    seq(|pixels|, i requires 0 <= i < |pixels| =>
      seq(|pixels[i]|, j requires 0 <= j < |pixels[i]| => ClampPixel(step(pixels[i][j], level))))
  }

  /** `_adjust_brightness_single_pass`: `adjust_row` appends one adjusted
      pixel at a time; the rows are mapped in order. */
  method AdjustBrightness(pixels: Raster, level: int, step: YuvStep) returns (adjusted: Raster)
    ensures adjusted == Brightened(pixels, level, step)
  {
    adjusted := [];
    for i := 0 to |pixels|
      invariant |adjusted| == i
      invariant forall k :: 0 <= k < i ==> adjusted[k] == Brightened(pixels, level, step)[k]
    {
      var newRow: seq<Pixel> := [];
      for j := 0 to |pixels[i]|
        invariant |newRow| == j
        invariant forall k :: 0 <= k < j ==> newRow[k] == ClampPixel(step(pixels[i][k], level))
      {
        var p := step(pixels[i][j], level);
        newRow := newRow + [Pixel(Clamp(p.r), Clamp(p.g), Clamp(p.b))];
      }
      adjusted := adjusted + [newRow];
    }
  }

  /** The pass keeps the shape of the raster and leaves every channel in
      0..255, whatever the colour-space step produces. */
  lemma BrightenedWellFormed(pixels: Raster, level: int, step: YuvStep)
    ensures |Brightened(pixels, level, step)| == |pixels|
    ensures forall i :: 0 <= i < |pixels| ==> |Brightened(pixels, level, step)[i]| == |pixels[i]|
    ensures AllInRange(Brightened(pixels, level, step))
    ensures Rectangular(pixels) ==> WellFormed(Brightened(pixels, level, step))
  {
    var r := Brightened(pixels, level, step);
    forall i, j | 0 <= i < |r| && 0 <= j < |r[i]|
      ensures InRange(r[i][j])
    {
      assert r[i][j] == ClampPixel(step(pixels[i][j], level));
    }
  }

  /** When the colour-space step already yields displayable pixels (as the
      viewer's does, since it clamps after rounding), the second clamp changes
      nothing: each output pixel is exactly the step's result. */
  lemma SecondClampIsRedundant(pixels: Raster, level: int, step: YuvStep)
    requires forall p: Pixel :: InRange(step(p, level))
    ensures forall i, j :: 0 <= i < |pixels| && 0 <= j < |pixels[i]| ==>
      Brightened(pixels, level, step)[i][j] == step(pixels[i][j], level)
  {
  }
}
