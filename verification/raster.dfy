/**
 * The raster data of the GS v 0 command: a 1-bit image (0 black, 255 white)
 * packed row by row, eight pixels per byte, most significant bit first, each
 * row padded to whole bytes.
 */
module Raster {
  import opened Grid
  import opened Bytes

  /** Bytes per raster row, `Math.ceil(width / 8)`. */
  function WidthBytes(width: nat): (wb: nat)
    ensures width <= 8 * wb < width + 8
  {
    (width + 7) / 8
  }

  /**
   * Pixel i burns a dot when it reads as 0; an index past the end of the
   * buffer reads as `undefined`, which is not 0.
   */
  predicate Inked(pixels: seq<int>, i: nat)
  {
    i < |pixels| && pixels[i] == 0
  }

  /** Pixel k of byte b in row y lies inside an image `width` pixels wide and is black. */
  predicate PixelInked(pixels: seq<int>, width: nat, y: nat, b: nat, k: nat)
  {
    8 * b + k < width && Inked(pixels, RowStart(y, width) + 8 * b + k)
  }

  /** The contribution of pixel k to byte b of row y. */
  function PixelBit(pixels: seq<int>, width: nat, y: nat, b: nat, k: nat): Byte
    requires k < 8
  {
    if PixelInked(pixels, width, y, b, k) then BitMask(k) else 0
  }

  /** Byte b of row y with its first n pixels ORed in, as the packing loop leaves it. */
  function PartialByte(pixels: seq<int>, width: nat, y: nat, b: nat, n: nat): Byte
    requires n <= 8
  {
    if n == 0 then 0
    else PartialByte(pixels, width, y, b, n - 1) | PixelBit(pixels, width, y, b, n - 1)
  }

  /** Byte b of row y: pixels 8b to 8b+7 of that row. */
  function RasterByte(pixels: seq<int>, width: nat, y: nat, b: nat): Byte
  {
    PartialByte(pixels, width, y, b, 8)
  }

  /** After n pixels of a byte are packed, its bits are set exactly for the inked pixels among them. */
  lemma {:induction false} PartialByteBits(pixels: seq<int>, width: nat, y: nat, b: nat, n: nat, k: nat)
    requires n <= 8 && k < 8
    ensures HasBit(PartialByte(pixels, width, y, b, n), k)
      <==> k < n && PixelInked(pixels, width, y, b, k)
  {
    if n == 0 {
      NoBitInZero(k);
    } else {
      PartialByteBits(pixels, width, y, b, n - 1, k);
      HasBitOr(PartialByte(pixels, width, y, b, n - 1), PixelBit(pixels, width, y, b, n - 1), k);
      if PixelInked(pixels, width, y, b, n - 1) {
        HasBitMask(n - 1, k);
      } else {
        NoBitInZero(k);
      }
    }
  }

  /**
   * Bit 7 - k of byte b in row y is set exactly when pixel 8b + k of that row
   * lies inside the image and is black; the padding bits past the last
   * column are clear.
   */
  lemma RasterByteBits(pixels: seq<int>, width: nat, y: nat, b: nat, k: nat)
    requires k < 8
    ensures HasBit(RasterByte(pixels, width, y, b), k)
      <==> 8 * b + k < width && Inked(pixels, RowStart(y, width) + 8 * b + k)
  {
    PartialByteBits(pixels, width, y, b, 8, k);
  }

  /** The raster data: row after row, WidthBytes(width) bytes per row. */
  function RasterBody(pixels: seq<int>, width: nat, height: nat): (body: seq<Byte>)
    ensures |body| == WidthBytes(width) * height
  {
    var wb := WidthBytes(width);
    seq(wb * height, i requires 0 <= i < wb * height => RasterByte(pixels, width, i / wb, i % wb))
  }

  /** Byte (b, y) of the raster data lives at y * WidthBytes(width) + b. */
  lemma RasterBodyAt(pixels: seq<int>, width: nat, height: nat, b: nat, y: nat)
    requires b < WidthBytes(width) && y < height
    ensures RasterBody(pixels, width, height)[Idx(b, y, WidthBytes(width), height)]
      == RasterByte(pixels, width, y, b)
  {
    var wb := WidthBytes(width);
    var i := Idx(b, y, wb, height);
    CellOf(i, wb, height);
    IdxInjective(i % wb, i / wb, b, y, wb, height);
  }

  /** The pixel a printer prints at (x, y) of a raster: 0 where the bit is set, 255 elsewhere. */
  function UnpackedPixel(data: seq<Byte>, width: nat, height: nat, x: nat, y: nat): int
    requires x < width && y < height && |data| == WidthBytes(width) * height
  {
    if HasBit(data[Idx(x / 8, y, WidthBytes(width), height)], x % 8) then 0 else 255
  }

  /** The image a printer prints from raster data, row-major. */
  function Unpack(data: seq<Byte>, width: nat, height: nat): (pixels: seq<int>)
    requires |data| == WidthBytes(width) * height
    ensures |pixels| == width * height
  {
    seq(width * height, i requires 0 <= i < width * height =>
      CellOf(i, width, height);
      UnpackedPixel(data, width, height, i % width, i / width))
  }

  /** The bit of pixel (x, y) in the raster data is set exactly when the pixel is 0. */
  lemma RasterPixelBit(pixels: seq<int>, width: nat, height: nat, x: nat, y: nat)
    requires |pixels| == width * height && x < width && y < height
    ensures HasBit(RasterBody(pixels, width, height)[Idx(x / 8, y, WidthBytes(width), height)], x % 8)
      <==> pixels[Idx(x, y, width, height)] == 0
  {
    RasterBodyAt(pixels, width, height, x / 8, y);
    RasterByteBits(pixels, width, y, x / 8, x % 8);
  }

  /** An image of only 0 and 255 is recovered exactly from its raster data. */
  lemma UnpackRasterBody(pixels: seq<int>, width: nat, height: nat)
    requires |pixels| == width * height
    requires forall i :: 0 <= i < |pixels| ==> pixels[i] == 0 || pixels[i] == 255
    ensures Unpack(RasterBody(pixels, width, height), width, height) == pixels
  {
    var out := Unpack(RasterBody(pixels, width, height), width, height);
    forall i | 0 <= i < |pixels|
      ensures out[i] == pixels[i]
    {
      CellOf(i, width, height);
      RasterPixelBit(pixels, width, height, i % width, i / width);
    }
  }

  // ---------------------------------------------------------------------
  // The packing loop, pixel by pixel
  // ---------------------------------------------------------------------

  /**
   * How many pixels of byte b in row r the row-major packing loop has ORed in
   * once it has reached pixel (px, py).
   */
  function PackedCount(b: nat, r: nat, px: nat, py: nat): (n: nat)
    ensures n <= 8
  {
    if r < py then 8
    else if r > py || px <= 8 * b then 0
    else if px - 8 * b >= 8 then 8
    else px - 8 * b
  }

  /** The raster buffer once the packing loop has reached pixel (px, py). */
  ghost predicate PackedUpTo(raster: seq<Byte>, pixels: seq<int>, width: nat, height: nat, px: nat, py: nat)
    requires |raster| == WidthBytes(width) * height
  {
    forall b: nat, r: nat | b < WidthBytes(width) && r < height ::
      raster[Idx(b, r, WidthBytes(width), height)]
        == PartialByte(pixels, width, r, b, PackedCount(b, r, px, py))
  }

  /**
   * Byte v after the packing loop visits pixel (x, y): when the pixel is
   * black, bit 7 - x % 8 is ORed in.
   */
  function PackBit(v: Byte, pixels: seq<int>, width: nat, x: nat, y: nat): Byte
  {
    if Inked(pixels, RowStart(y, width) + x) then v | BitMask(x % 8) else v
  }

  /** One pass of the packing loop at pixel (x, y): byte y * widthBytes + x / 8 gains the pixel. */
  function PackPixel(raster: seq<Byte>, pixels: seq<int>, width: nat, height: nat, x: nat, y: nat): (r: seq<Byte>)
    requires x < width && y < height && |raster| == WidthBytes(width) * height
    ensures |r| == |raster|
  {
    var i := Idx(x / 8, y, WidthBytes(width), height);
    raster[i := PackBit(raster[i], pixels, width, x, y)]
  }

  /** A zero-filled buffer is the raster before the first pixel. */
  lemma PackedUpToStart(raster: seq<Byte>, pixels: seq<int>, width: nat, height: nat)
    requires |raster| == WidthBytes(width) * height
    requires forall i | 0 <= i < |raster| :: raster[i] == 0
    ensures PackedUpTo(raster, pixels, width, height, 0, 0)
  {
  }

  /** Packing pixel (x, y) completes one more pixel of its byte and touches no other byte. */
  lemma PackPixelStep(raster: seq<Byte>, pixels: seq<int>, width: nat, height: nat, x: nat, y: nat)
    requires x < width && y < height && |raster| == WidthBytes(width) * height
    requires PackedUpTo(raster, pixels, width, height, x, y)
    ensures PackedUpTo(PackPixel(raster, pixels, width, height, x, y), pixels, width, height, x + 1, y)
  {
    var wb := WidthBytes(width);
    var next := PackPixel(raster, pixels, width, height, x, y);
    var x1 := x + 1;
    var i0 := Idx(x / 8, y, wb, height);
    forall b: nat, r: nat | b < wb && r < height
      ensures next[Idx(b, r, wb, height)] == PartialByte(pixels, width, r, b, PackedCount(b, r, x1, y))
    {
      var i := Idx(b, r, wb, height);
      if b == x / 8 && r == y {
        PackedCountAt(x, y);
        PackBitPartial(pixels, width, x, y);
      } else {
        if i == i0 {
          IdxInjective(b, r, x / 8, y, wb, height);
        }
        assert next[i] == raster[i];
        assert PackedCount(b, r, x1, y) == PackedCount(b, r, x, y);
      }
    }
  }

  /** The byte that pixel (x, y) belongs to gains exactly that pixel. */
  lemma PackBitPartial(pixels: seq<int>, width: nat, x: nat, y: nat)
    requires x < width
    ensures PackBit(PartialByte(pixels, width, y, x / 8, x % 8), pixels, width, x, y)
      == PartialByte(pixels, width, y, x / 8, x % 8 + 1)
  {
    var b, k := x / 8, x % 8;
    PartialByteNext(pixels, width, y, b, k);
    PixelInkedAt(pixels, width, x, y);
    if !Inked(pixels, RowStart(y, width) + x) {
      OrNothing(PartialByte(pixels, width, y, b, k));
    }
  }

  lemma OrNothing(v: Byte)
    ensures v | 0 == v
  {
  }

  lemma PartialByteNext(pixels: seq<int>, width: nat, y: nat, b: nat, k: nat)
    requires k < 8
    ensures PartialByte(pixels, width, y, b, k + 1)
      == PartialByte(pixels, width, y, b, k) | PixelBit(pixels, width, y, b, k)
  {
  }

  lemma PackedCountAt(x: nat, y: nat)
    ensures PackedCount(x / 8, y, x, y) == x % 8 && PackedCount(x / 8, y, x + 1, y) == x % 8 + 1
  {
    assert 8 * (x / 8) + x % 8 == x;
  }

  lemma PixelInkedAt(pixels: seq<int>, width: nat, x: nat, y: nat)
    requires x < width
    ensures PixelInked(pixels, width, y, x / 8, x % 8) == Inked(pixels, RowStart(y, width) + x)
  {
    assert 8 * (x / 8) + x % 8 == x;
  }

  /** Finishing row y and starting row y + 1 are the same point of the loop. */
  lemma PackedUpToNextRow(raster: seq<Byte>, pixels: seq<int>, width: nat, height: nat, y: nat)
    requires |raster| == WidthBytes(width) * height
    requires PackedUpTo(raster, pixels, width, height, width, y)
    ensures PackedUpTo(raster, pixels, width, height, 0, y + 1)
  {
    var y1 := y + 1;
    forall b: nat, r: nat | b < WidthBytes(width) && r < height
      ensures raster[Idx(b, r, WidthBytes(width), height)]
        == PartialByte(pixels, width, r, b, PackedCount(b, r, 0, y1))
    {
      if r == y && PackedCount(b, r, width, y) < 8 {
        // the last byte of the row: its pixels past the width are never inked
        PartialBytePadding(pixels, width, r, b, PackedCount(b, r, width, y));
      }
    }
  }

  /** Pixels past the right edge add nothing: a byte is complete once the row's last pixel is in. */
  lemma {:induction false} PartialBytePadding(pixels: seq<int>, width: nat, y: nat, b: nat, n: nat)
    requires n <= 8 && 8 * b + n >= width
    ensures PartialByte(pixels, width, y, b, n) == PartialByte(pixels, width, y, b, 8)
    decreases 8 - n
  {
    if n < 8 {
      PartialBytePadding(pixels, width, y, b, n + 1);
      assert PixelBit(pixels, width, y, b, n) == 0;
    }
  }

  /** Once every row is packed the buffer is the raster data. */
  lemma PackedUpToEnd(raster: seq<Byte>, pixels: seq<int>, width: nat, height: nat)
    requires |raster| == WidthBytes(width) * height
    requires PackedUpTo(raster, pixels, width, height, 0, height)
    ensures raster == RasterBody(pixels, width, height)
  {
    var wb := WidthBytes(width);
    var body := RasterBody(pixels, width, height);
    forall i | 0 <= i < |raster| ensures raster[i] == body[i] {
      CellOf(i, wb, height);
    }
  }
}
