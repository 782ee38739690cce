/**
 * The two post-processing steps of a 4-bit palettized image (ColorQuantization.cpp):
 * moving the darkest palette entry to index 0 as pure black, and painting the palette
 * colours back into a 32-bit pixel buffer.
 */
module ColorOutput {
  import opened ColorQuantization

  // ---------------------------------------------------------------------------
  // setDarkestColorToBlackAndIndex0
  // ---------------------------------------------------------------------------

  /** Colour index `i` with 0 and `d` exchanged. */
  function SwapIndex(d: nat, i: nat): nat {
    if i == 0 then d else if i == d then 0 else i
  }

  /** Both colour indices packed in `b` are 0 or `d`. */
  predicate BothInPair(d: nat, b: Byte) {
    (b / 16 == 0 || b / 16 == d) && (b % 16 == 0 || b % 16 == d)
  }

  /**
   * What the lookup table of lines 436-444 does to one byte: a byte whose two nibbles
   * are both 0 or `d` gets 0 and `d` exchanged in each nibble; every other byte is kept.
   */
  function RemapByte(d: nat, b: Byte): Byte
    requires d < 16
  {
    if BothInPair(d, b) then SwapIndex(d, b / 16) * 16 + SwapIndex(d, b % 16) else b
  }

  /** The palette after lines 422-433: entry `d` blackened and exchanged with entry 0. */
  function SwappedPalette(p: seq<PaletteValue>, d: nat): (q: seq<PaletteValue>)
    requires d < |p|
    ensures |q| == |p| && q[0] == Black
    ensures d != 0 ==> q[d] == p[0]
    ensures forall k | 0 < k < |p| && k != d :: q[k] == p[k]
  {
    if d == 0 then p[0 := Black] else p[0 := Black][d := p[0]]
  }

  /** The four table entries written at lines 441-444 are distinct cells, so none overwrites another. */
  lemma TableCellsDistinct(d: nat)
    requires 0 < d < 16
    ensures 0 != d && 0 != 16 * d && 0 != 17 * d && d != 16 * d && d != 17 * d && 16 * d != 17 * d
    ensures 17 * d < 256
  {
  }

  /** The remap changes a byte exactly when both of its nibbles are 0 or `d` (for `d != 0`). */
  lemma RemapChangesExactlyPairs(d: nat, b: Byte)
    requires 0 < d < 16
    ensures RemapByte(d, b) != b <==> BothInPair(d, b)
  {
  }

  /** Remapping twice gives the byte back. */
  lemma RemapInvolution(d: nat, b: Byte)
    requires d < 16
    ensures RemapByte(d, RemapByte(d, b)) == b
  {
    if BothInPair(d, b) {
      var r := RemapByte(d, b);
      assert r / 16 == SwapIndex(d, b / 16) && r % 16 == SwapIndex(d, b % 16);
    }
  }

  /**
   * Within a remapped byte each pixel's index becomes the exchanged one, so each such
   * pixel keeps its colour under the exchanged palette (entry `d` being the black one).
   */
  lemma RemappedPixelKeepsColor(p: seq<PaletteValue>, d: nat, packed: seq<Byte>, n: nat)
    requires d < |p| && d < 16 && n / 2 < |packed|
    requires BothInPair(d, packed[n / 2])
    ensures n / 2 < |packed[n / 2 := RemapByte(d, packed[n / 2])]|
    ensures var q := SwappedPalette(p, d);
      var before := Nibble(packed, n);
      var after := Nibble(packed[n / 2 := RemapByte(d, packed[n / 2])], n);
      before < |p| && after < |q| && after == SwapIndex(d, before) && q[after] == p[d := Black][before]
  {
    var b := packed[n / 2];
    var r := RemapByte(d, b);
    assert r / 16 == SwapIndex(d, b / 16) && r % 16 == SwapIndex(d, b % 16);
  }

  /**
   * The remap misses a pixel that shares its byte with an index other than 0 and d: with
   * d = 1 and the byte 0x02, the first pixel's index stays 0, so after the exchange it is
   * painted black instead of the colour that entry 0 held.
   */
  lemma MixedByteChangesColor()
    ensures var p := [PaletteValue(200, 200, 200), PaletteValue(10, 10, 10), PaletteValue(90, 0, 0)];
      var q := SwappedPalette(p, 1);
      var packed: seq<Byte> := [0x02];
      RemapByte(1, 0x02) == 0x02 && Nibble(packed, 0) == 0 && q[Nibble(packed, 0)] == Black && p[0] != Black
  {
  }

  /**
   * `setDarkestColorToBlackAndIndex0` (lines 404-451) for a given darkest index `darkest`:
   * palette entry 0 becomes black and entry `darkest` takes over the old entry 0; when
   * `darkest` is 0 the image is untouched, otherwise every byte is passed through the table.
   */
  method SetDarkestColorToBlackAndIndex0(palette: array<PaletteValue>, pixels: array<Byte>, darkest: nat, bitDepth: nat)
    requires bitDepth == 4 && darkest < palette.Length && darkest < 16
    modifies palette, pixels
    ensures palette[..] == SwappedPalette(old(palette[..]), darkest)
    ensures darkest == 0 ==> pixels[..] == old(pixels[..])
    ensures darkest != 0 ==> forall i | 0 <= i < pixels.Length :: pixels[i] == RemapByte(darkest, old(pixels[i]))
  {
    palette[darkest] := Black;
    if darkest == 0 {
      return;
    }
    var tmp := palette[0];
    palette[0] := palette[darkest];
    palette[darkest] := tmp;

    TableCellsDistinct(darkest);
    var lut := new Byte[256];
    for i := 0 to 256
      modifies lut
      invariant forall j | 0 <= j < i :: lut[j] == j
    {
      lut[i] := i;
    }
    lut[0] := 17 * darkest;
    lut[darkest] := 16 * darkest;
    lut[16 * darkest] := darkest;
    lut[17 * darkest] := 0;
    forall b: Byte ensures lut[b] == RemapByte(darkest, b) {
      LutEntry(darkest, b);
    }

    for i := 0 to pixels.Length
      modifies pixels
      invariant forall j | 0 <= j < i :: pixels[j] == RemapByte(darkest, old(pixels[j]))
      invariant forall j | i <= j < pixels.Length :: pixels[j] == old(pixels[j])
    {
      pixels[i] := lut[pixels[i]];
    }
  }

  /** The four special bytes are exactly the bytes whose nibbles are both 0 or `d`. */
  lemma LutEntry(d: nat, b: Byte)
    requires 0 < d < 16
    ensures RemapByte(d, b) ==
      if b == 0 then 17 * d else if b == d then 16 * d else if b == 16 * d then d else if b == 17 * d then 0 else b
  {
    if BothInPair(d, b) {
      assert b == b / 16 * 16 + b % 16;
    }
  }

  // ---------------------------------------------------------------------------
  // applyColorsToPixelBuffer
  // ---------------------------------------------------------------------------

  /** Raster position of (x, y) lies inside a frame of width·height pixels. */
  lemma IndexInFrame(x: nat, y: nat, width: nat, height: nat)
    requires x < width && y < height
    ensures y * width + x < width * height
  {
    MulSuccessor(y, width);
    MulMonotone(y + 1, height, width);
  }

  /**
   * The guards of lines 470-480 pass and the painting loops stay in bounds: the format is
   * ABGR or ARGB, the 4-bit image holds as many pixels as the frame, the buffer holds
   * every row, and each pixel's colour index names a palette entry.
   */
  ghost predicate Paintable(layout: Layout, length: nat, palette: seq<PaletteValue>, pixels: seq<Byte>) {
    && layout.format.Supported()
    && layout.PixelCount() == 2 * |pixels|
    && layout.Fits(length)
    && forall n | 0 <= n < layout.PixelCount() :: Nibble(pixels, n) < |palette|
  }

  /** The palette colour of pixel (x, y), looked up as at lines 489-493. */
  function ColorAt(layout: Layout, length: nat, palette: seq<PaletteValue>, pixels: seq<Byte>, x: nat, y: nat): PaletteValue
    requires Paintable(layout, length, palette, pixels)
    requires x < layout.width && y < layout.height
  {
    IndexInFrame(x, y, layout.width, layout.height);
    palette[Nibble(pixels, y * layout.width + x)]
  }

  /** Byte `c` of a painted pixel: alpha 0xff at 0, green at 2, red and blue at the format's offsets. */
  function PaintedByte(c: nat, color: PaletteValue, format: PixelFormat): Byte
    requires format.Supported()
  {
    if c == 0 then 0xff else if c == format.RedOffset() then color.r else if c == 2 then color.g else color.b
  }

  /** The four stores of lines 494-497 (ABGR) or 511-514 (ARGB) for pixel (x, y). */
  function PaintPixel(bytes: seq<Byte>, layout: Layout, color: PaletteValue, x: nat, y: nat): (r: seq<Byte>)
    requires layout.format.Supported() && PixelOffset(x, y, layout.stride) + 3 < |bytes|
    ensures |r| == |bytes|
  {
    var o := PixelOffset(x, y, layout.stride);
    bytes[o := 0xff][o + layout.format.RedOffset() := color.r][o + 2 := color.g][o + layout.format.BlueOffset() := color.b]
  }

  /** The first `n` pixels of row `y` painted, left to right. */
  function PaintRow(bytes: seq<Byte>, layout: Layout, palette: seq<PaletteValue>, pixels: seq<Byte>, y: nat, n: nat): (r: seq<Byte>)
    requires Paintable(layout, |bytes|, palette, pixels)
    requires y < layout.height && n <= layout.width
    ensures |r| == |bytes|
  {
    if n == 0 then bytes
    else
      var done := PaintRow(bytes, layout, palette, pixels, y, n - 1);
      PixelInBuffer(layout, |bytes|, n - 1, y);
      PaintPixel(done, layout, ColorAt(layout, |bytes|, palette, pixels, n - 1, y), n - 1, y)
  }

  /** The first `m` rows painted, top to bottom. */
  function PaintRows(bytes: seq<Byte>, layout: Layout, palette: seq<PaletteValue>, pixels: seq<Byte>, m: nat): (r: seq<Byte>)
    requires Paintable(layout, |bytes|, palette, pixels)
    requires m <= layout.height
    ensures |r| == |bytes|
  {
    if m == 0 then bytes
    else PaintRow(PaintRows(bytes, layout, palette, pixels, m - 1), layout, palette, pixels, m - 1, layout.width)
  }

  /** Byte `c` of the slot of pixel (x, y). */
  function SlotByte(layout: Layout, x: nat, y: nat, c: nat): nat {
    PixelOffset(x, y, layout.stride) + c
  }

  /** Byte `i` lies in the four bytes of pixel (x, y). */
  predicate InSlot(i: nat, layout: Layout, x: nat, y: nat) {
    PixelOffset(x, y, layout.stride) <= i < PixelOffset(x, y, layout.stride) + 4
  }

  /** Painting one pixel sets the four bytes of its slot and no other byte. */
  lemma PaintPixelEffect(bytes: seq<Byte>, layout: Layout, color: PaletteValue, x: nat, y: nat)
    requires layout.format.Supported() && PixelOffset(x, y, layout.stride) + 3 < |bytes|
    ensures forall c | 0 <= c < 4 ::
      PaintPixel(bytes, layout, color, x, y)[SlotByte(layout, x, y, c)] == PaintedByte(c, color, layout.format)
    ensures forall i | 0 <= i < |bytes| && !InSlot(i, layout, x, y) :: PaintPixel(bytes, layout, color, x, y)[i] == bytes[i]
  {
  }

  /** Painting the first `n` pixels of a row sets their bytes and no other byte. */
  lemma {:induction false} PaintRowEffect(bytes: seq<Byte>, layout: Layout, palette: seq<PaletteValue>, pixels: seq<Byte>, y: nat, n: nat)
    requires Paintable(layout, |bytes|, palette, pixels)
    requires y < layout.height && n <= layout.width
    ensures forall x, c | 0 <= x < n && 0 <= c < 4 ::
      SlotByte(layout, x, y, c) < |bytes| &&
      PaintRow(bytes, layout, palette, pixels, y, n)[SlotByte(layout, x, y, c)] ==
        PaintedByte(c, ColorAt(layout, |bytes|, palette, pixels, x, y), layout.format)
    ensures forall i | 0 <= i < |bytes| && (forall x | 0 <= x < n :: !InSlot(i, layout, x, y)) ::
      PaintRow(bytes, layout, palette, pixels, y, n)[i] == bytes[i]
  {
    if n > 0 {
      var last := n - 1;
      var done := PaintRow(bytes, layout, palette, pixels, y, last);
      PaintRowEffect(bytes, layout, palette, pixels, y, last);
      PixelInBuffer(layout, |bytes|, last, y);
      var color := ColorAt(layout, |bytes|, palette, pixels, last, y);
      assert PaintRow(bytes, layout, palette, pixels, y, n) == PaintPixel(done, layout, color, last, y);
      PaintPixelEffect(done, layout, color, last, y);
      forall x, c | 0 <= x < last && 0 <= c < 4
        ensures !InSlot(SlotByte(layout, x, y, c), layout, last, y)
      {
      }
    }
  }

  /**
   * A painted buffer: every pixel of the frame carries alpha 0xff and its palette colour
   * at the format's offsets, and every byte outside the pixels' four-byte slots (row
   * padding, bytes past the frame) keeps its value.
   */
  lemma {:induction false} PaintRowsEffect(bytes: seq<Byte>, layout: Layout, palette: seq<PaletteValue>, pixels: seq<Byte>, m: nat)
    requires Paintable(layout, |bytes|, palette, pixels)
    requires m <= layout.height
    ensures forall x, y, c | 0 <= x < layout.width && 0 <= y < m && 0 <= c < 4 ::
      SlotByte(layout, x, y, c) < |bytes| &&
      PaintRows(bytes, layout, palette, pixels, m)[SlotByte(layout, x, y, c)] ==
        PaintedByte(c, ColorAt(layout, |bytes|, palette, pixels, x, y), layout.format)
    ensures forall i | 0 <= i < |bytes| && (forall x, y | 0 <= x < layout.width && 0 <= y < m :: !InSlot(i, layout, x, y)) ::
      PaintRows(bytes, layout, palette, pixels, m)[i] == bytes[i]
  {
    if m > 0 {
      var row := m - 1;
      var before := PaintRows(bytes, layout, palette, pixels, row);
      PaintRowsEffect(bytes, layout, palette, pixels, row);
      PaintRowEffect(before, layout, palette, pixels, row, layout.width);
      forall x, y, c | 0 <= x < layout.width && 0 <= y < row && 0 <= c < 4
        ensures forall x' | 0 <= x' < layout.width :: !InSlot(SlotByte(layout, x, y, c), layout, x', row)
      {
        RowsApart(layout, y, row);
      }
    }
  }

  /** Every byte of a pixel slot in row `y` comes before the slots of a later row. */
  lemma RowsApart(layout: Layout, y: nat, later: nat)
    requires 4 * layout.width <= layout.stride && y < later
    ensures y * layout.stride + 4 * layout.width <= later * layout.stride
  {
    MulSuccessor(y, layout.stride);
    MulMonotone(y + 1, later, layout.stride);
  }

  /** The image `applyColorsToPixelBuffer` produces from `bytes` once the guards pass. */
  function PaintImage(bytes: seq<Byte>, layout: Layout, palette: seq<PaletteValue>, pixels: seq<Byte>): seq<Byte>
    requires Paintable(layout, |bytes|, palette, pixels)
  {
    PaintRows(bytes, layout, palette, pixels, layout.height)
  }

  /**
   * Reading the painted buffer back with the `Pixel` constructor gives each pixel its
   * palette colour, behind an opaque alpha byte.
   */
  lemma PaintedPixelReadsBack(bytes: seq<Byte>, layout: Layout, palette: seq<PaletteValue>, pixels: seq<Byte>, x: nat, y: nat)
    requires Paintable(layout, |bytes|, palette, pixels)
    requires x < layout.width && y < layout.height
    ensures PixelOffset(x, y, layout.stride) + 3 < |bytes|
    ensures var painted := PaintImage(bytes, layout, palette, pixels);
      var color := ColorAt(layout, |bytes|, palette, pixels, x, y);
      && painted[PixelOffset(x, y, layout.stride)] == 0xff
      && ReadPixel(painted, x, y, layout) == Pixel(x, y, color.r, color.g, color.b)
  {
    PaintRowsEffect(bytes, layout, palette, pixels, layout.height);
    var o := PixelOffset(x, y, layout.stride);
    var painted := PaintImage(bytes, layout, palette, pixels);
    var color := ColorAt(layout, |bytes|, palette, pixels, x, y);
    assert painted[SlotByte(layout, x, y, 0)] == PaintedByte(0, color, layout.format);
    assert painted[SlotByte(layout, x, y, 2)] == PaintedByte(2, color, layout.format);
    assert painted[SlotByte(layout, x, y, layout.format.RedOffset())] == PaintedByte(layout.format.RedOffset(), color, layout.format);
    assert painted[SlotByte(layout, x, y, layout.format.BlueOffset())] == PaintedByte(layout.format.BlueOffset(), color, layout.format);
  }

  /** The four stores of one pixel, lines 494-497 (ABGR) or 511-514 (ARGB). */
  method StorePixel(bytes: array<Byte>, layout: Layout, color: PaletteValue, x: nat, y: nat)
    requires layout.format.Supported() && PixelOffset(x, y, layout.stride) + 3 < bytes.Length
    modifies bytes
    ensures bytes[..] == PaintPixel(old(bytes[..]), layout, color, x, y)
  {
    var o := y * layout.stride + x * 4;
    bytes[o] := 0xff;
    bytes[o + layout.format.RedOffset()] := color.r;
    bytes[o + 2] := color.g;
    bytes[o + layout.format.BlueOffset()] := color.b;
  }

  /**
   * `applyColorsToPixelBuffer` (lines 453-523): when the format is ABGR or ARGB and the
   * 4-bit image has as many pixels as the frame, the buffer becomes the painted image;
   * otherwise it is left as it was.
   */
  method ApplyColorsToPixelBuffer(layout: Layout, bytes: array<Byte>, palette: seq<PaletteValue>, pixels: seq<Byte>, bitDepth: nat)
    requires bitDepth == 4
    requires layout.format.Supported() && layout.PixelCount() == 2 * |pixels| ==>
      Paintable(layout, bytes.Length, palette, pixels)
    modifies bytes
    ensures !layout.format.Supported() || layout.PixelCount() != 2 * |pixels| ==> bytes[..] == old(bytes[..])
    ensures layout.format.Supported() && layout.PixelCount() == 2 * |pixels| ==>
      bytes[..] == PaintImage(old(bytes[..]), layout, palette, pixels)
  {
    if !layout.format.Supported() || layout.width * layout.height != 2 * |pixels| {
      return;
    }
    ghost var original := bytes[..];
    var width := layout.width;
    for y := 0 to layout.height
      invariant bytes[..] == PaintRows(original, layout, palette, pixels, y)
    {
      for x := 0 to width
        invariant bytes[..] == PaintRow(PaintRows(original, layout, palette, pixels, y), layout, palette, pixels, y, x)
      {
        PixelInBuffer(layout, bytes.Length, x, y);
        var color := ColorAt(layout, bytes.Length, palette, pixels, x, y);
        StorePixel(bytes, layout, color, x, y);
      }
    }
  }
}
