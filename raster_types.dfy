/** Values shared by the decoder and the transforms of the BMP viewer:
    bytes, RGB pixels, rasters (lists of rows) and the failure type that
    stands for the exceptions the viewer catches and reports. */
module RasterTypes {

  /** One element of the file buffer (a Python `bytes` item is an int in 0..255). */
  type byte = x: int | 0 <= x < 256

  /** An (r, g, b) tuple. Channels are unbounded integers; `InRange` says when
      a pixel is displayable. */
  datatype Pixel = Pixel(r: int, g: int, b: int)

  /** A list of rows, top row first once decoded. */
  type Raster = seq<seq<Pixel>>

  /** The exceptions that end a decode: a failed signature test, an index past
      the end of the buffer (IndexError), and `8 // 0` for a zero bit depth. */
  datatype DecodeError = NotBmp | IndexOutOfRange | ZeroDivision

  datatype Result<T> = Ok(value: T) | Err(error: DecodeError)

  /** The outcome of a step that yields nothing but may fail. */
  datatype Outcome = Done | Failed(error: DecodeError)

  /** A field that may still hold Python's `None`. */
  datatype Option<T> = None | Some(value: T)

  /** 2 ** n, also `1 << n`. */
  function Pow2(n: nat): (r: nat)
    ensures r >= 1
    ensures n >= 1 ==> r % 2 == 0
  {
    if n == 0 then 1 else 2 * Pow2(n - 1)
  }

  lemma MulMonotone(a: nat, b: nat, c: nat)
    requires a <= b
    ensures a * c <= b * c
  {
  }

  predicate ChannelInRange(c: int) {
    0 <= c <= 255
  }

  predicate InRange(p: Pixel) {
    ChannelInRange(p.r) && ChannelInRange(p.g) && ChannelInRange(p.b)
  }

  /** Every row as long as the first one. */
  predicate Rectangular(pixels: Raster) {
    forall i :: 0 <= i < |pixels| ==> |pixels[i]| == |pixels[0]|
  }

  predicate AllInRange(pixels: Raster) {
    forall i, j :: 0 <= i < |pixels| && 0 <= j < |pixels[i]| ==> InRange(pixels[i][j])
  }

  /** What every raster the viewer holds satisfies. */
  predicate WellFormed(pixels: Raster) {
    Rectangular(pixels) && AllInRange(pixels)
  }

  /** Width of a rectangular raster (0 for the empty raster). */
  function Width(pixels: Raster): nat {
    if |pixels| == 0 then 0 else |pixels[0]|
  }
}
