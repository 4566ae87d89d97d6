# BMP viewer core in Dafny

This project models the decoding and rendering core of `BMPParser.py`, a Tk viewer for Windows BMP files. The model covers:

- **Header**: the "BM" signature test and the fixed-offset little-endian header fields (file size, pixel-data offset, width, height, bits per pixel), read through Python slices. A short buffer therefore gives short fields, not an error.
- **ColorTable**: the colour table of images of 8 bits per pixel and below. It has 2^bpp four-byte (blue, green, red, reserved) entries starting at byte 54.
- **PixelData**: the pixel array. Rows are padded to four bytes and stored bottom row first. 24-bit rows hold BGR triples; rows of 1 to 8 bits hold palette indices packed most significant bits first. Each IndexError and the `8 // 0` of a zero depth is a typed error (`Result`).
- **Scaling**: nearest-neighbour scaling by the slider's percentage.
- **Brightness**: the brightness pass. Its floating-point YUV arithmetic is a parameter; the pass's own per-channel clamps are modelled.
- **ChannelFilter**: the red, green and blue toggles.
- **Viewer**: the window object's state as a class (header fields, colour table, original and shown rasters). It models how a file's bytes fill that state, and how a display update rebuilds the shown raster as scale, then brightness, then channels, always starting from the original raster.

Each method that loops or updates fields is proved against a specification function. Lemmas then state what the source promises about that function:

- byte layout and row order;
- padding is never read;
- palette bounds;
- scaled dimensions and the nearest-neighbour property;
- clamping;
- channel-filter identity and composition;
- the pipeline's output shape;
- updates do not compound.

## Model

| member | source | states |
|---|---|---|
| Header.Slice | BMPParser.py:156-159 | `bytes[lo:hi]` has length clamped to the buffer and element k is `bytes[lo+k]` |
| Header.LittleEndianBound | BMPParser.py:156-159 | a field read from n bytes is below 2^(8n) |
| Header.LittleEndianRoundTrip | BMPParser.py:156-159 | encoding a value in len little-endian bytes and reading it back gives the value |
| Header.LittleEndianBytesRoundTrip | BMPParser.py:156-159 | reading a byte string and re-encoding the value at the same length gives the bytes back |
| Header.HeaderReadsOnlyFieldBytes | BMPParser.py:154-159 | two buffers of equal length that agree on bytes 2-5, 10-13, 18-25 and 28-29 parse to the same header |
| Header.HeaderFieldBounds | BMPParser.py:154-159 | file size, data offset, width and height are below 2^32; bits per pixel is below 2^16 |
| Header.FourByteField | BMPParser.py:157 | a four-byte field inside the buffer is b0 + 256 b1 + 65536 b2 + 16777216 b3 |
| Header.ShortBufferReadsZero | BMPParser.py:159 | a buffer of at most 28 bytes reads as 0 bits per pixel instead of failing |
| ColorTable.ReadColorTable | BMPParser.py:169-182 | succeeds exactly when the red byte of entry 2^bpp-1 is in the buffer, then returns the palette; otherwise fails with IndexError |
| ColorTable.PaletteLayout | BMPParser.py:172-180 | the palette has 2^bpp entries; entry i is (b[54+4i+2], b[54+4i+1], b[54+4i]); every entry is displayable |
| ColorTable.PaletteReadsOnlyColourBytes | BMPParser.py:176-179 | the palette depends only on the first three bytes of each entry, never the reserved byte |
| PixelData.PaletteIndex | BMPParser.py:202-208 | the index extracted for a pixel is below 2^bpp, so it always selects a palette entry |
| PixelData.DecodeFailure | BMPParser.py:202-205 | a failed decode is never a signature error; it is ZeroDivisionError exactly when the depth is 0 and the failing row's first byte is in the buffer, and IndexError otherwise |
| PixelData.ReadRow | BMPParser.py:193-208 | a row decodes exactly when it has no pixel, or the depth is not 0 and its last byte read is in the buffer; the result is the specified row (empty for depths without a branch); a failure is ZeroDivisionError for depth 0 with the row's first byte present, IndexError otherwise |
| PixelData.ReadTrueColourRow | BMPParser.py:193-199 | a 24-bit row decodes exactly when the red byte of its last pixel is in the buffer, then holds the specified (r, g, b) pixels; otherwise IndexError |
| PixelData.ReadIndexedRow | BMPParser.py:200-208 | a row of at most 8 bits decodes exactly when it has no pixel, or the depth is not 0 and the byte of its last pixel is in the buffer; the result is the palette lookups of the specified row; failures are ZeroDivisionError or IndexError as the source raises them |
| PixelData.ReadPixelData | BMPParser.py:184-212 | the decode succeeds exactly when the topmost stored row does; the result is the specified raster; a failure is ZeroDivisionError when the depth is 0 and the byte at the data offset exists, and IndexError otherwise |
| PixelData.RowsFit | BMPParser.py:189-191 | when the last stored row's bytes are in the buffer, every earlier row's bytes are too |
| PixelData.RowSizeBounds | BMPParser.py:187 | the stride is a multiple of 4, covers the row's ceil(bpp*w/8) pixel bytes, and adds at most 3 padding bytes |
| PixelData.DecoderNeverReadsPadding | BMPParser.py:187-203 | every byte read for a pixel lies in its row's pixel bytes, which end before the next row starts |
| PixelData.PackingConsistent | BMPParser.py:202-207 | for 1, 2, 4 and 8 bits pixel x lies in byte x div (8/bpp); the first pixel of a byte takes its top bpp bits, each next pixel of the same byte sits bpp bits lower, and the last one takes the bottom bits |
| PixelData.DecodedRasterAt | BMPParser.py:189-210 | output row i, pixel x is pixel x of stored row height-1-i (rows are prepended) |
| PixelData.DecodedRasterShape | BMPParser.py:189-210 | the raster has `height` rows of `width` pixels (or empty rows for depths without a branch); it is well formed when the palette is displayable |
| PixelData.TrueColourLayout | BMPParser.py:193-199 | at 24 bits, output pixel (x, i) is (b[o+2], b[o+1], b[o]) with o the stored row offset plus 3x |
| PixelData.IndexedLayout | BMPParser.py:200-208 | at 1 to 8 bits, output pixel (x, i) is the palette entry selected by the shifted and masked bit field of byte o + x*bpp/8 |
| PixelData.OneBitExample | BMPParser.py:205-207 | at one bit per pixel, the byte 0b10110010 yields indices 1,0,1,1,0,0,1,0 |
| Scaling.SourceIndex | BMPParser.py:376-378 | the clamped source coordinate is always inside the source dimension |
| Scaling.ScaleImage | BMPParser.py:360-389 | the result is the input at 100 percent or for an empty raster, and otherwise the nearest-neighbour resampling |
| Scaling.ScaledShape | BMPParser.py:371-383 | away from 100 percent the result has int(h*s) rows of int(w*s) pixels, and pixel (x, y) is the source pixel at the clamped source coordinates |
| Scaling.ScalePreservesWellFormed | BMPParser.py:374-380 | scaling keeps a raster rectangular with displayable pixels |
| Scaling.FullScaleResampleIsIdentity | BMPParser.py:368-369 | at 100 percent the general formula also returns the input, so the shortcut agrees with it |
| Scaling.ScaledLengthShrinks | BMPParser.py:371-372 | a factor of at most 100 percent never enlarges a dimension |
| Scaling.ClampNeverBinds | BMPParser.py:376-378 | in exact arithmetic, every output coordinate maps below the source dimension without the clamp |
| Scaling.NearestNeighbour | BMPParser.py:376-378 | output coordinate i maps to the source pixel s with s*p <= 100 i < (s+1)*p |
| Brightness.Clamp | BMPParser.py:270-272 | `max(0, min(255, c))` is in 0..255, is the identity on 0..255, and saturates below and above |
| Brightness.AdjustBrightness | BMPParser.py:260-279 | each output pixel is the colour-space step's result with every channel clamped, rows and pixels kept in order |
| Brightness.BrightenedWellFormed | BMPParser.py:263-277 | the pass keeps the raster's shape and leaves every channel in 0..255 whatever the step yields |
| Brightness.SecondClampIsRedundant | BMPParser.py:268-272 | when the step already yields displayable pixels, the pass's clamps change nothing |
| ChannelFilter.ApplyRgbChannels | BMPParser.py:281-297 | same shape as the input; a disabled channel is 0 in every pixel and an enabled one is unchanged |
| ChannelFilter.AllEnabledIsIdentity | BMPParser.py:286-292 | with all three channels enabled the filter returns its input |
| ChannelFilter.FilterComposes | BMPParser.py:286-292 | filtering twice equals filtering once with the channels enabled in both; hence the filter is idempotent |
| ChannelFilter.FilterPreservesWellFormed | BMPParser.py:286-292 | the filter keeps a raster rectangular with displayable pixels |
| Viewer.DefaultRenderIsBrightnessOnly | BMPParser.py:238-258 | at the start-up settings (scale 100, brightness 50, all channels, lines 106-127) the pipeline output is the brightness pass over the original alone |
| Viewer.RenderShape | BMPParser.py:238-258 | the rendered raster is well formed, has the scaled dimensions, and every disabled channel is 0 |
| Viewer.PaletteFor | BMPParser.py:399-403 | the palette passed to the decoder has 2^bpp entries whenever it is consulted |
| Viewer.ImageViewer.constructor | BMPParser.py:19-26 | a new viewer has zero dimensions, no colour table and no image |
| Viewer.ImageViewer.ParseMetadata | BMPParser.py:154-167 | width, height and bits per pixel become the parsed header fields; the file size is returned |
| Viewer.ImageViewer.LoadImageData | BMPParser.py:392-410 | a colour table that does not fit changes nothing; otherwise the table is stored, and on a successful decode both the original and the shown raster become the decoded raster; a failed decode reports ZeroDivisionError or IndexError as the decoder raises it and leaves the rasters as they were |
| Viewer.ImageViewer.Open | BMPParser.py:139-151 | a buffer not starting with "BM" is refused with nothing changed; otherwise the header is parsed and the image loaded |
| Viewer.ImageViewer.UpdateDisplay | BMPParser.py:238-257 | with no image nothing changes; otherwise the shown raster becomes scale, then brightness, then channels applied to the original raster |
| Viewer.UpdateTwice | BMPParser.py:238-258 | two updates with the same settings leave the shown raster equal to one render of the original, not a render of a render |
| Viewer.DrawnAsWrittenScalesTwice | BMPParser.py:229 | a 4 by 4 image at 50 percent is rendered as 2 rows and then drawn as 1 row |
| Viewer.DrawnScalesOnce | BMPParser.py:247-257 | with the corrected drawing step, the raster drawn after an update has int(h*s) rows of int(w*s) pixels |

## Left out

- Tk widgets, the file dialog, message boxes, the canvas, `_create_photo_image` (PPM text) and `_update_canvas`: presentation only. An exception that the viewer turns into a message box is a `Failed` outcome, and the message text is not modelled.
- File reading: `Open` takes the file's bytes as a parameter.
- The update thread (`_monitor_updates`) and the thread pools: each pool maps rows in order and the model processes them sequentially, which yields the same list.
- Brightness.AdjustBrightness: the RGB to YUV conversion, the luma scaling by level/50, the luma clamp and the rounding back to RGB are floating point, so they form the `step` parameter. Only the pass structure and the final clamps at lines 270-272 are proved.
- Scaling.ScaleImage: the factor is the exact integer percentage rather than the float `percent / 100`, so float rounding in `int(n * scale)` and `int(i / scale)` is not modelled. The method also requires a rectangular raster; every raster the viewer produces is rectangular.
- Viewer.ImageViewer.LoadImageData: the `display_image` call at line 407 is not modelled. An exception raised while drawing is caught after the rasters are stored; the model returns `Done` in that case, and the stored state is as stated.
- The commented-out earlier versions of brightness, scaling and channel handling (lines 299-345 and 412-418), and the `original_width`/`original_height` fields, which nothing reads.
- Differences from the format's usual description, where the model follows the code:
  - no minimum buffer length is checked;
  - every depth from 1 to 8 is decoded with the generic bit-field formula, not just 1, 4 and 8;
  - a depth of 0 fails with ZeroDivisionError;
  - depths other than 24 and 1-8 give empty rows rather than an error;
  - the last colour-table entry needs only its three colour bytes.

## Findings

| source | as written | input that shows it | evidently intended | confidence | as-written member | corrected member |
|---|---|---|---|---|---|---|
| BMPParser.py:229 | `display_image` scales `image_data` by the slider factor again, after `_update_display` (lines 247, 257) already stored the scaled raster there | a 4 by 4 image with the scale slider at 50: the update stores a 2 by 2 raster, and the canvas shows 1 by 1 | the canvas shows the rendered raster, scaled once | not executed | Viewer.DrawnAsWrittenScalesTwice | Viewer.DrawnScalesOnce |
