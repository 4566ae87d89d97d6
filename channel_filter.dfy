/** The RGB channel toggles: each disabled channel of every pixel is forced
    to 0 and the enabled channels pass through. */
module ChannelFilter {
  import opened RasterTypes

  /** The three check boxes. */
  datatype Channels = Channels(red: bool, green: bool, blue: bool)

  const AllChannels := Channels(true, true, true)

  function FilterPixel(p: Pixel, enabled: Channels): Pixel {
    Pixel(if enabled.red then p.r else 0,
          if enabled.green then p.g else 0,
          if enabled.blue then p.b else 0)
  }

  /** `_apply_rgb_channels`: a comprehension over each row. */
  function ApplyRgbChannels(pixels: Raster, enabled: Channels): (r: Raster)
    ensures |r| == |pixels|
    ensures forall i :: 0 <= i < |r| ==> |r[i]| == |pixels[i]|
    ensures forall i, j :: 0 <= i < |r| && 0 <= j < |r[i]| ==>
      (r[i][j].r == if enabled.red then pixels[i][j].r else 0) &&
      (r[i][j].g == if enabled.green then pixels[i][j].g else 0) &&
      (r[i][j].b == if enabled.blue then pixels[i][j].b else 0)
  {
    seq(|pixels|, i requires 0 <= i < |pixels| =>
      seq(|pixels[i]|, j requires 0 <= j < |pixels[i]| => FilterPixel(pixels[i][j], enabled)))
  }

  /** With every channel enabled the filter is the identity. */
  lemma AllEnabledIsIdentity(pixels: Raster)
    ensures ApplyRgbChannels(pixels, AllChannels) == pixels
  {
    var r := ApplyRgbChannels(pixels, AllChannels);
    forall i | 0 <= i < |pixels|
      ensures r[i] == pixels[i]
    {
      assert |r[i]| == |pixels[i]|;
    }
  }

  /** Filtering twice with two settings is filtering once with the channels
      enabled in both; in particular the filter is idempotent. */
  lemma FilterComposes(pixels: Raster, first: Channels, second: Channels)
    ensures ApplyRgbChannels(ApplyRgbChannels(pixels, first), second)
         == ApplyRgbChannels(pixels, Channels(first.red && second.red, first.green && second.green, first.blue && second.blue))
  {
    var once := ApplyRgbChannels(pixels, first);
    var twice := ApplyRgbChannels(once, second);
    var both := ApplyRgbChannels(pixels, Channels(first.red && second.red, first.green && second.green, first.blue && second.blue));
    forall i | 0 <= i < |pixels|
      ensures twice[i] == both[i]
    {
      assert |twice[i]| == |both[i]|;
    }
  }

  /** The filter keeps a raster rectangular and every pixel displayable. */
  lemma FilterPreservesWellFormed(pixels: Raster, enabled: Channels)
    requires WellFormed(pixels)
    ensures WellFormed(ApplyRgbChannels(pixels, enabled))
  {
  }
}
