/**
 * src/utils/printer.ts: the server-side dither and the raster encoder, as
 * the loops that compute them.
 */
module Printer {
  import opened Grid
  import opened Halftone
  import opened Bytes
  import opened Raster
  import opened EscPos

  /**
   * The body of the scan at pixel (x, y), at index idx = y * width + x of the
   * Int16 working buffer: the pixel is replaced by its 1-bit value, which is
   * returned, and the error is added to the right, below-left, below and
   * below-right neighbours that lie inside the grid, each share
   * `(error * w) >> 4`.
   */
  method QuantizeAndDiffuse(pixels: array<int>, idx: nat, x: nat, y: nat, width: nat, height: nat)
      returns (newVal: Luma)
    requires x < width && y < height && width * height <= pixels.Length
    requires idx == Idx(x, y, width, height)
    modifies pixels
    ensures newVal == Quantize(old(pixels[idx]))
    ensures pixels[..] == InPlaceStep(old(pixels[..]), x, y, width, height)
  {
    ghost var work := pixels[..];
    NeighbourOffsets(x, y, width, height);
    var oldVal := pixels[idx];
    newVal := if oldVal < 128 then 0 else 255;
    pixels[idx] := newVal;
    var error := oldVal - newVal;
    assert newVal == Quantize(work[idx]) && error == work[idx] - newVal;
    assert pixels[..] == work[idx := newVal];
    AddShareAt(pixels, x + 1 < width, idx + 1, error, 7);
    AddShareAt(pixels, y + 1 < height && x - 1 >= 0, idx + width - 1, error, 3);
    AddShareAt(pixels, y + 1 < height, idx + width, error, 5);
    AddShareAt(pixels, y + 1 < height && x + 1 < width, idx + width + 1, error, 1);
  }

  /** `if (guard) pixels[i] += (error * weight) >> 4` on an Int16Array. */
  method AddShareAt(pixels: array<int>, guard: bool, i: int, error: int, weight: int)
    requires guard ==> 0 <= i < pixels.Length
    modifies pixels
    ensures pixels[..] == AddShare(old(pixels[..]), guard, i, error, weight)
  {
    if guard {
      pixels[i] := ToInt16(pixels[i] + (error * weight) / 16);
    }
  }

  /**
   * `applyFloydSteinberg`: quantizes a grayscale buffer to 0/255 by
   * Floyd-Steinberg error diffusion on an Int16 working copy, and returns the
   * width * height pixels of the grid. The input is not changed (it is a
   * value here; the source copies it into a fresh Int16Array).
   */
  method ApplyFloydSteinberg(input: seq<int>, width: nat, height: nat) returns (output: array<Luma>)
    requires width * height <= |input| && IsSamples(input)
    ensures fresh(output)
    ensures output[..] == FloydSteinberg(input, width, height)[..width * height]
  {
    var pixels := new int[|input|](i requires 0 <= i < |input| => input[i]);
    output := new Luma[width * height](_ => 0);
    OutputMatchesStart(output[..], pixels[..], width, height);
    var y := 0;
    while y < height
      invariant y <= height
      invariant pixels[..] == ScanRows(input, y, width, height)
      invariant OutputMatches(output[..], pixels[..], 0, y, width, height)
    {
      DitherRow(input, pixels, output, y, width, height);
      y := y + 1;
    }
    OutputMatchesEnd(output[..], pixels[..], width, height);
  }

  /**
   * The inner loop of the scan, row y from left to right, shared by
   * `applyFloydSteinberg` and `ditherGrayscale`, whose loop bodies are the
   * same. Output entries past the grid are left alone.
   */
  method DitherRow(ghost input: seq<int>, pixels: array<int>, output: array<Luma>, y: nat, width: nat, height: nat)
    requires y < height && width * height <= |input| && IsSamples(input)
    requires pixels.Length == |input| && width * height <= output.Length
    requires pixels[..] == ScanRows(input, y, width, height)
    requires OutputMatches(output[..], pixels[..], 0, y, width, height)
    modifies pixels, output
    ensures pixels[..] == ScanRows(input, y + 1, width, height)
    ensures OutputMatches(output[..], pixels[..], 0, y + 1, width, height)
    ensures output[width * height..] == old(output[width * height..])
  {
    var x := 0;
    while x < width
      invariant x <= width
      invariant pixels[..] == StateAt(input, x, y, width, height)
      invariant OutputMatches(output[..], pixels[..], x, y, width, height)
      invariant output[width * height..] == old(output[width * height..])
    {
      ghost var work := pixels[..];
      ghost var out := output[..];
      RowStartIsProduct(y, width);
      var idx := y * width + x;
      assert idx == Idx(x, y, width, height);
      var newVal := QuantizeAndDiffuse(pixels, idx, x, y, width, height);
      output[idx] := newVal;
      ScanAdvances(input, out, work, x, y, width, height);
      x := x + 1;
    }
    OutputMatchesNextRow(output[..], pixels[..], y, width, height);
  }

  /**
   * `createEscPosRaster`: the GS v 0 command for a 1-bit image, its header
   * followed by a zero-filled buffer into which every black pixel's bit is
   * ORed, row by row.
   */
  method CreateEscPosRaster(pixels: seq<int>, width: nat, height: nat) returns (bytes: seq<Byte>)
    ensures bytes == EscPosRaster(pixels, width, height)
  {
    var widthBytes := (width + 7) / 8;
    var header := [GS, RasterCode, RasterFn, 0x00, Lo(widthBytes), Hi(widthBytes), Lo(height), Hi(height)];
    MulMonotone(0, widthBytes, height);
    var raster := new Byte[widthBytes * height](_ => 0);
    PackedUpToStart(raster[..], pixels, width, height);
    var y := 0;
    while y < height
      invariant y <= height
      invariant PackedUpTo(raster[..], pixels, width, height, 0, y)
    {
      PackRow(pixels, raster, y, width, height);
      y := y + 1;
    }
    PackedUpToEnd(raster[..], pixels, width, height);
    bytes := header + raster[..];
  }

  /** The inner loop of the packing: row y, left to right. */
  method PackRow(pixels: seq<int>, raster: array<Byte>, y: nat, width: nat, height: nat)
    requires y < height && raster.Length == WidthBytes(width) * height
    requires PackedUpTo(raster[..], pixels, width, height, 0, y)
    modifies raster
    ensures PackedUpTo(raster[..], pixels, width, height, 0, y + 1)
  {
    var widthBytes := (width + 7) / 8;
    var x := 0;
    while x < width
      invariant x <= width
      invariant PackedUpTo(raster[..], pixels, width, height, x, y)
    {
      ghost var before := raster[..];
      PackPixelAt(pixels, raster, x, y, width, height);
      PackPixelStep(before, pixels, width, height, x, y);
      x := x + 1;
    }
    PackedUpToNextRow(raster[..], pixels, width, height, y);
  }

  /**
   * The body of the packing loop at pixel (x, y): when the pixel is 0 (black),
   * bit 7 - x % 8 of byte y * widthBytes + x / 8 is set. A read past the end
   * of the pixels is `undefined` in JavaScript, which is not 0. The mask
   * `1 << bitIndex` is written as BitMask(x % 8), which ShiftIsBitMask shows
   * to be the same byte.
   */
  method PackPixelAt(pixels: seq<int>, raster: array<Byte>, x: nat, y: nat, width: nat, height: nat)
    requires x < width && y < height && raster.Length == WidthBytes(width) * height
    modifies raster
    ensures raster[..] == PackPixel(old(raster[..]), pixels, width, height, x, y)
  {
    var widthBytes := (width + 7) / 8;
    RowStartIsProduct(y, width);
    RowStartIsProduct(y, widthBytes);
    assert x / 8 < widthBytes;
    ghost var i := Idx(x / 8, y, widthBytes, height);
    if y * width + x < |pixels| && pixels[y * width + x] == 0 {
      var byteIndex := y * widthBytes + x / 8;
      assert byteIndex == i;
      raster[byteIndex] := raster[byteIndex] | BitMask(x % 8);
    }
  }
}
