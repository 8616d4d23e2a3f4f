/**
 * src/utils/ditheringCore.ts: the second copy of the integer dither, which
 * copies its input element by element into an Int16 scratch buffer and
 * returns an output as long as the input.
 */
module DitheringCore {
  import opened Grid
  import opened Halftone
  import opened Printer

  /**
   * What `ditherGrayscale` returns: the dithered grid, followed by the zeros a
   * fresh Uint8Array holds wherever the input is longer than the grid.
   */
  function DitheredBuffer(input: seq<int>, width: nat, height: nat): (r: seq<int>)
    requires width * height <= |input|
    ensures |r| == |input|
  {
    FloydSteinberg(input, width, height)[..width * height] + seq(|input| - width * height, _ => 0)
  }

  /**
   * What the contracts of `ditherGrayscale` and `applyFloydSteinberg` promise
   * agrees on the grid: the first width * height entries are the same pixels,
   * every later entry of `ditherGrayscale`'s output is 0, and when the input is
   * exactly the grid the two outputs are equal.
   */
  lemma CopiesAgree(input: seq<int>, width: nat, height: nat)
    requires width * height <= |input|
    ensures DitheredBuffer(input, width, height)[..width * height] == FloydSteinberg(input, width, height)[..width * height]
    ensures forall j | width * height <= j < |input| :: DitheredBuffer(input, width, height)[j] == 0
    ensures |input| == width * height ==>
      DitheredBuffer(input, width, height) == FloydSteinberg(input, width, height)[..width * height]
  {
    var grid := FloydSteinberg(input, width, height)[..width * height];
    var zeros := seq(|input| - width * height, _ => 0);
    assert DitheredBuffer(input, width, height) == grid + zeros;
    assert (grid + zeros)[..width * height] == grid;
    forall j | width * height <= j < |input|
      ensures DitheredBuffer(input, width, height)[j] == 0
    {
      assert (grid + zeros)[j] == zeros[j - width * height];
    }
    if |input| == width * height {
      assert zeros == [];
    }
  }

  /**
   * `ditherGrayscale`: the same Floyd-Steinberg scan as `applyFloydSteinberg`,
   * on a scratch copy of `pixels`, which is left unchanged.
   */
  method DitherGrayscale(pixels: array<int>, width: nat, height: nat) returns (output: array<Luma>)
    requires width * height <= pixels.Length && IsSamples(pixels[..])
    ensures fresh(output)
    ensures output[..] == DitheredBuffer(pixels[..], width, height)
  {
    var scratch := CopyToScratch(pixels);
    ghost var input := pixels[..];
    output := new Luma[pixels.Length](_ => 0);
    OutputMatchesStart(output[..], scratch[..], width, height);
    var y := 0;
    while y < height
      invariant y <= height
      invariant scratch[..] == ScanRows(input, y, width, height)
      invariant OutputMatches(output[..], scratch[..], 0, y, width, height)
      invariant output[width * height..] == seq(pixels.Length - width * height, _ => 0)
    {
      DitherRow(input, scratch, output, y, width, height);
      y := y + 1;
    }
    OutputMatchesEnd(output[..], scratch[..], width, height);
    assert output[..] == output[..width * height] + output[width * height..];
  }

  /** The copy loop: a fresh Int16 scratch buffer filled element by element from `pixels`. */
  method CopyToScratch(pixels: array<int>) returns (scratch: array<int>)
    ensures fresh(scratch)
    ensures scratch[..] == pixels[..]
  {
    scratch := new int[pixels.Length];
    var i := 0;
    while i < pixels.Length
      invariant i <= pixels.Length
      invariant scratch[..i] == pixels[..i]
    {
      scratch[i] := pixels[i];
      i := i + 1;
    }
    assert scratch[..] == scratch[..pixels.Length];
  }
}
