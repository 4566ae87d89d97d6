/** The colour table of an indexed BMP: 2^bpp four-byte entries stored as
    (blue, green, red, reserved) right after the 54-byte standard header. */
module ColorTable {
  import opened RasterTypes

  /** Size of BITMAPFILEHEADER plus BITMAPINFOHEADER; the table starts here. */
  const TableOffset: nat := 54

  /** Position of the first byte (blue) of entry `i`. */
  function EntryOffset(i: nat): nat {
    TableOffset + 4 * i
  }

  /** Entry `i` reordered to (r, g, b); its fourth, reserved byte is not read. */
  function PaletteEntry(bytes: seq<byte>, i: nat): Pixel
    requires EntryOffset(i) + 2 < |bytes|
  {
    var o := EntryOffset(i);
    Pixel(bytes[o + 2], bytes[o + 1], bytes[o])
  }

  /** Every entry can be read: the red byte of the last entry is in the buffer. */
  predicate TableFits(len: nat, bpp: nat) {
    EntryOffset(Pow2(bpp) - 1) + 2 < len
  }

  /** The table read from a buffer long enough to hold it. */
  function Palette(bytes: seq<byte>, bpp: nat): seq<Pixel>
    requires TableFits(|bytes|, bpp)
  {
    seq(Pow2(bpp), i requires 0 <= i < Pow2(bpp) => PaletteEntry(bytes, i))
  }

  /** `_read_color_table`: one entry per loop iteration; an entry whose bytes
      run past the end of the buffer raises IndexError. */
  method ReadColorTable(bytes: seq<byte>, bpp: nat) returns (r: Result<seq<Pixel>>)
    ensures r.Ok? <==> TableFits(|bytes|, bpp)
    ensures r.Ok? ==> r.value == Palette(bytes, bpp)
    ensures r.Err? ==> r.error == IndexOutOfRange
  {
    var colors: seq<Pixel> := [];
    var entries := Pow2(bpp);
    for i := 0 to entries
      invariant |colors| == i
      invariant forall k :: 0 <= k < i ==> EntryOffset(k) + 2 < |bytes| && colors[k] == PaletteEntry(bytes, k)
    {
      var offset := TableOffset + i * 4;
      if offset + 2 >= |bytes| {
        return Err(IndexOutOfRange);
      }
      var b := bytes[offset];
      var g := bytes[offset + 1];
      var red := bytes[offset + 2];
      colors := colors + [Pixel(red, g, b)];
    }
    return Ok(colors);
  }

  /** The table has exactly 2^bpp entries, entry `i` is (bytes[54+4i+2],
      bytes[54+4i+1], bytes[54+4i]), and every entry is a displayable colour. */
  lemma PaletteLayout(bytes: seq<byte>, bpp: nat)
    requires TableFits(|bytes|, bpp)
    ensures |Palette(bytes, bpp)| == Pow2(bpp)
    ensures forall i :: 0 <= i < Pow2(bpp) ==>
      54 + 4 * i + 2 < |bytes| &&
      Palette(bytes, bpp)[i] == Pixel(bytes[54 + 4 * i + 2], bytes[54 + 4 * i + 1], bytes[54 + 4 * i])
    ensures forall i :: 0 <= i < Pow2(bpp) ==> InRange(Palette(bytes, bpp)[i])
  {
  }

  /** The table depends on the first three bytes of each entry and on nothing
      else of the buffer: in particular never on the reserved fourth byte. */
  lemma PaletteReadsOnlyColourBytes(a: seq<byte>, b: seq<byte>, bpp: nat)
    requires TableFits(|a|, bpp) && TableFits(|b|, bpp)
    requires forall i :: 0 <= i < Pow2(bpp) ==>
      a[EntryOffset(i)..EntryOffset(i) + 3] == b[EntryOffset(i)..EntryOffset(i) + 3]
    ensures Palette(a, bpp) == Palette(b, bpp)
  {
    forall i | 0 <= i < Pow2(bpp)
      ensures Palette(a, bpp)[i] == Palette(b, bpp)[i]
    {
      var o := EntryOffset(i);
      assert a[o..o + 3][0] == a[o] && a[o..o + 3][1] == a[o + 1] && a[o..o + 3][2] == a[o + 2];
      assert b[o..o + 3][0] == b[o] && b[o..o + 3][1] == b[o + 1] && b[o..o + 3][2] == b[o + 2];
    }
  }
}
