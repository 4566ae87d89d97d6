/** The viewer's state and its render pipeline: the header fields, colour
    table and rasters that the window object keeps, the loading steps that
    fill them from a file's bytes, and the display update that rebuilds the
    shown raster from the original one by scaling, brightness and channel
    filtering, in that order. */
module Viewer {
  import opened RasterTypes
  import opened Header
  import opened ColorTable
  import opened PixelData
  import opened Scaling
  import opened Brightness
  import opened ChannelFilter

  /** The slider and check-box values a display update reads. */
  datatype Params = Params(scalePercent: nat, brightness: int, channels: Channels)

  /** What the window shows on start-up: full scale, neutral brightness, all channels. */
  const DefaultParams := Params(100, 50, AllChannels)

  /** The raster `_update_display` produces from the original raster. */
  function Render(original: Raster, params: Params, step: YuvStep): Raster
    requires Rectangular(original)
  {
    ApplyRgbChannels(Brightened(Scaled(original, params.scalePercent), params.brightness, step), params.channels)
  }

  /** At the start-up settings the scale and channel steps change nothing:
      the rendered raster is the brightness pass over the original. */
  lemma DefaultRenderIsBrightnessOnly(original: Raster, step: YuvStep)
    requires Rectangular(original)
    ensures Render(original, DefaultParams, step) == Brightened(original, 50, step)
  {
    AllEnabledIsIdentity(Brightened(original, 50, step));
  }

  /** The rendered raster is well formed, has the scaled dimensions, and
      every disabled channel is 0 in every pixel. */
  lemma RenderShape(original: Raster, params: Params, step: YuvStep)
    requires WellFormed(original) && |original| > 0
    ensures var r := Render(original, params, step);
      WellFormed(r) &&
      |r| == (if params.scalePercent == 100 then |original| else ScaledLength(|original|, params.scalePercent)) &&
      (forall i :: 0 <= i < |r| ==>
        |r[i]| == if params.scalePercent == 100 then |original[0]| else ScaledLength(|original[0]|, params.scalePercent)) &&
      (forall i, j :: 0 <= i < |r| && 0 <= j < |r[i]| ==>
        (!params.channels.red ==> r[i][j].r == 0) &&
        (!params.channels.green ==> r[i][j].g == 0) &&
        (!params.channels.blue ==> r[i][j].b == 0))
  {
    var scaled := Scaled(original, params.scalePercent);
    ScalePreservesWellFormed(original, params.scalePercent);
    if params.scalePercent != 100 {
      ScaledShape(original, params.scalePercent);
    }
    var bright := Brightened(scaled, params.brightness, step);
    BrightenedWellFormed(scaled, params.brightness, step);
    FilterPreservesWellFormed(bright, params.channels);
  }

  /** What `display_image` draws as written: the shown raster scaled again
      by the slider's factor. */
  function DrawnAsWritten(shown: Raster, percent: nat): Raster
    requires Rectangular(shown)
  {
    Scaled(shown, percent)
  }

  /** What the display evidently means to draw after an update: the raster
      the pipeline produced, scaled once. */
  function Drawn(shown: Raster): Raster {
    shown
  }

  /** A 4 by 4 image at 50 percent: the pipeline produces 2 rows, and the
      drawing step as written halves them again to 1. */
  lemma DrawnAsWrittenScalesTwice(step: YuvStep)
    ensures var original := seq(4, _ => seq(4, _ => Pixel(0, 0, 0)));
      var shown := Render(original, Params(50, 50, AllChannels), step);
      |shown| == 2 && Rectangular(shown) && |DrawnAsWritten(shown, 50)| == 1
  {
    var original := seq(4, _ => seq(4, _ => Pixel(0, 0, 0)));
    var params := Params(50, 50, AllChannels);
    RenderShape(original, params, step);
    var shown := Render(original, params, step);
    ScaledShape(shown, 50);
  }

  /** With the corrected drawing step the drawn raster after an update has
      exactly the dimensions the slider asks for: int(h * s) rows of
      int(w * s) pixels. */
  lemma DrawnScalesOnce(original: Raster, params: Params, step: YuvStep)
    requires WellFormed(original) && |original| > 0 && params.scalePercent != 100
    ensures var d := Drawn(Render(original, params, step));
      |d| == ScaledLength(|original|, params.scalePercent) &&
      forall i :: 0 <= i < |d| ==> |d[i]| == ScaledLength(|original[0]|, params.scalePercent)
  {
    RenderShape(original, params, step);
  }

  /** The palette handed to the pixel decoder: the table just read for depths
      of 8 bits and below, and none otherwise (it is never consulted then). */
  function PaletteFor(bytes: seq<byte>, bpp: nat): (p: seq<Pixel>)
    requires bpp <= 8 ==> TableFits(|bytes|, bpp)
    ensures bpp <= 8 ==> |p| == Pow2(bpp)
  {
    if bpp <= 8 then Palette(bytes, bpp) else []
  }

  class ImageViewer {
    var width: nat
    var height: nat
    var bitsPerPixel: nat
    var colorTable: Option<seq<Pixel>>
    var originalImageData: Option<Raster>
    var imageData: Option<Raster>

    /** Every raster the viewer holds is rectangular with displayable pixels. */
    ghost predicate Valid()
      reads this
    {
      (originalImageData.Some? ==> WellFormed(originalImageData.value)) &&
      (imageData.Some? ==> WellFormed(imageData.value))
    }

    constructor ()
      ensures Valid()
      ensures width == 0 && height == 0 && bitsPerPixel == 0
      ensures colorTable == None && originalImageData == None && imageData == None
    {
      width, height, bitsPerPixel := 0, 0, 0;
      colorTable, originalImageData, imageData := None, None, None;
    }

    /** `parse_metadata`: stores width, height and depth; the file size is
        only shown, so it is returned. */
    method ParseMetadata(bytes: seq<byte>) returns (fileSize: nat)
      modifies this`width, this`height, this`bitsPerPixel
      ensures fileSize == ParseHeader(bytes).fileSize
      ensures width == ParseHeader(bytes).width
      ensures height == ParseHeader(bytes).height
      ensures bitsPerPixel == ParseHeader(bytes).bitsPerPixel
    {
      fileSize := LittleEndian(Slice(bytes, 2, 6));
      width := LittleEndian(Slice(bytes, 18, 22));
      height := LittleEndian(Slice(bytes, 22, 26));
      bitsPerPixel := LittleEndian(Slice(bytes, 28, 30));
    }

    /** The state `load_image_data` leaves behind, given the colour table and
        rasters held before it ran: a colour table that does not fit fails
        before anything is stored; otherwise the table (8 bits and below) is
        stored, and the decoded raster becomes both the original and the
        shown raster unless decoding fails. */
    ghost predicate LoadEffect(bytes: seq<byte>, outcome: Outcome,
                               table0: Option<seq<Pixel>>, original0: Option<Raster>, image0: Option<Raster>)
      reads this
    {
      var offset := ParseHeader(bytes).dataOffset;
      if bitsPerPixel <= 8 && !TableFits(|bytes|, bitsPerPixel) then
        outcome == Failed(IndexOutOfRange) &&
        colorTable == table0 && originalImageData == original0 && imageData == image0
      else
        colorTable == (if bitsPerPixel <= 8 then Some(Palette(bytes, bitsPerPixel)) else table0) &&
        if DecodeSucceeds(|bytes|, offset, bitsPerPixel, width, height) then
          outcome == Done &&
          originalImageData == Some(DecodedRaster(bytes, PaletteFor(bytes, bitsPerPixel), offset, bitsPerPixel, width, height)) &&
          imageData == originalImageData
        else
          outcome == Failed(DecodeFailure(|bytes|, offset, bitsPerPixel)) &&
          originalImageData == original0 && imageData == image0
    }

    /** `load_image_data`: reads the pixel-data offset, the colour table for
        8 bits and below, then the pixel array. An exception leaves the
        rasters as they were (the message box is not modelled). */
    method LoadImageData(bytes: seq<byte>) returns (outcome: Outcome)
      requires Valid()
      modifies this`colorTable, this`originalImageData, this`imageData
      ensures Valid()
      ensures LoadEffect(bytes, outcome, old(colorTable), old(originalImageData), old(imageData))
    {
      var dataOffset := LittleEndian(Slice(bytes, 10, 14));
      if bitsPerPixel <= 8 {
        var table := ReadColorTable(bytes, bitsPerPixel);
        if table.Err? {
          return Failed(table.error);
        }
        colorTable := Some(table.value);
      }
      var palette := if bitsPerPixel <= 8 then colorTable.value else [];
      assert palette == PaletteFor(bytes, bitsPerPixel);
      var pixels := ReadPixelData(bytes, dataOffset, bitsPerPixel, width, height, palette);
      if pixels.Err? {
        return Failed(pixels.error);
      }
      if bitsPerPixel <= 8 {
        PaletteLayout(bytes, bitsPerPixel);
      }
      DecodedRasterShape(bytes, palette, dataOffset, bitsPerPixel, width, height);
      originalImageData := Some(pixels.value);
      imageData := originalImageData;
      return Done;
    }

    /** `browse_bmpfile` once the file's bytes are in hand: a buffer that
        does not start with "BM" is refused with nothing changed; otherwise
        the header is parsed and the image data loaded. */
    method Open(bytes: seq<byte>) returns (outcome: Outcome)
      requires Valid()
      modifies this
      ensures Valid()
      ensures !HasSignature(bytes) ==> outcome == Failed(NotBmp) && unchanged(this)
      ensures HasSignature(bytes) ==>
        width == ParseHeader(bytes).width &&
        height == ParseHeader(bytes).height &&
        bitsPerPixel == ParseHeader(bytes).bitsPerPixel &&
        LoadEffect(bytes, outcome, old(colorTable), old(originalImageData), old(imageData))
    {
      if !(|bytes| >= 2 && bytes[..2] == [0x42, 0x4D]) {
        return Failed(NotBmp);
      }
      var _ := ParseMetadata(bytes);
      outcome := LoadImageData(bytes);
    }

    /** `_update_display`: nothing happens before an image is loaded;
        otherwise the shown raster is rebuilt from the original raster,
        never from the previously shown one. */
    method UpdateDisplay(params: Params, step: YuvStep)
      requires Valid()
      modifies this`imageData
      ensures Valid()
      ensures originalImageData.None? ==> imageData == old(imageData)
      ensures originalImageData.Some? ==> imageData == Some(Render(originalImageData.value, params, step))
    {
      if originalImageData.None? {
        return;
      }
      var pixels := originalImageData.value;
      pixels := ScaleImage(pixels, params.scalePercent);
      pixels := AdjustBrightness(pixels, params.brightness, step);
      pixels := ApplyRgbChannels(pixels, params.channels);
      ScalePreservesWellFormed(originalImageData.value, params.scalePercent);
      BrightenedWellFormed(Scaled(originalImageData.value, params.scalePercent), params.brightness, step);
      imageData := Some(pixels);
    }
  }

  /** Two display updates in a row with the same settings show what one
      update shows: the second starts again from the original raster instead
      of adjusting the brightness of the first one's output a second time. */
  method UpdateTwice(viewer: ImageViewer, params: Params, step: YuvStep)
    requires viewer.Valid() && viewer.originalImageData.Some?
    modifies viewer
    ensures viewer.originalImageData == old(viewer.originalImageData)
    ensures viewer.imageData == Some(Render(viewer.originalImageData.value, params, step))
  {
    viewer.UpdateDisplay(params, step);
    viewer.UpdateDisplay(params, step);
  }
}
