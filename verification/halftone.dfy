/**
 * Floyd-Steinberg error diffusion as used by the print server (the shared
 * specification of `applyFloydSteinberg` in src/utils/printer.ts and of
 * `ditherGrayscale` in src/utils/ditheringCore.ts).
 *
 * The working buffer is a sequence of unbounded integers. The source keeps it
 * in an Int16Array; `WorkingValuesFitInt16` shows that no value ever leaves
 * [-128, 383], so the 16-bit store never wraps and the two agree.
 */
module Halftone {
  import opened Grid

  /** An 8-bit sample, as held in a Node Buffer or a Uint8Array. */
  type Luma = v: int | 0 <= v < 256

  const Threshold: int := 128
  const Black: int := 0
  const White: int := 255

  /** The 1-bit value a working sample is rounded to. */
  function Quantize(v: int): (q: Luma)
    ensures q == Black || q == White
  {
    if v < Threshold then Black else White
  }

  /** `(error * weight) >> 4`: the arithmetic shift is floor division by 16. */
  function Share(error: int, weight: int): int
  {
    (error * weight) / 16
  }

  /**
   * The weight (out of 16) of the error that the pixel at offset (dx, dy) from
   * the pixel being quantized receives: 7 right, 3 below-left, 5 below,
   * 1 below-right, 0 anywhere else.
   */
  function Weight(dx: int, dy: int): nat
  {
    if dx == 1 && dy == 0 then 7
    else if dx == -1 && dy == 1 then 3
    else if dx == 0 && dy == 1 then 5
    else if dx == 1 && dy == 1 then 1
    else 0
  }

  /**
   * The share of `error` that index j receives when pixel (x, y), at index
   * idx, is quantized: only its right, below-left, below and below-right
   * neighbours receive anything, and only those that lie inside the grid.
   */
  function Received(j: int, idx: int, x: nat, y: nat, width: nat, height: nat, error: int): int
  {
    if x + 1 < width && j == idx + 1 then Share(error, 7)
    else if y + 1 < height && 1 <= x && j == idx + width - 1 then Share(error, 3)
    else if y + 1 < height && j == idx + width then Share(error, 5)
    else if y + 1 < height && x + 1 < width && j == idx + width + 1 then Share(error, 1)
    else 0
  }

  /**
   * The working buffer after pixel (x, y) has been quantized and its error
   * handed to the neighbours that lie inside the grid.
   */
  function Step(work: seq<int>, x: nat, y: nat, width: nat, height: nat): (r: seq<int>)
    requires x < width && y < height && width * height <= |work|
    ensures |r| == |work|
  {
    var idx := Idx(x, y, width, height);
    var newVal := Quantize(work[idx]);
    var error := work[idx] - newVal;
    seq(|work|, j requires 0 <= j < |work| =>
      if j == idx then newVal else work[j] + Received(j, idx, x, y, width, height, error))
  }

  /** The working buffer once row y has been scanned up to, not including, column x. */
  function ScanRow(work: seq<int>, y: nat, x: nat, width: nat, height: nat): (r: seq<int>)
    requires y < height && x <= width && width * height <= |work|
    ensures |r| == |work|
    decreases x
  {
    if x == 0 then work
    else Step(ScanRow(work, y, x - 1, width, height), x - 1, y, width, height)
  }

  /** The working buffer once rows 0 .. y-1 have been scanned. */
  function ScanRows(work: seq<int>, y: nat, width: nat, height: nat): (r: seq<int>)
    requires y <= height && width * height <= |work|
    ensures |r| == |work|
    decreases y
  {
    if y == 0 then work
    else ScanRow(ScanRows(work, y - 1, width, height), y - 1, width, width, height)
  }

  /** The working buffer when the scan reaches pixel (x, y). */
  function StateAt(input: seq<int>, x: nat, y: nat, width: nat, height: nat): (r: seq<int>)
    requires x <= width && y < height && width * height <= |input|
    ensures |r| == |input|
  {
    ScanRow(ScanRows(input, y, width, height), y, x, width, height)
  }

  /** The dithered image: the working buffer after the whole grid has been scanned. */
  function FloydSteinberg(input: seq<int>, width: nat, height: nat): (r: seq<int>)
    requires width * height <= |input|
    ensures |r| == |input|
  {
    ScanRows(input, height, width, height)
  }

  // ---------------------------------------------------------------------
  // What one step does
  // ---------------------------------------------------------------------

  /**
   * Quantizing pixel (x, y) sets it to its 1-bit value and adds to every other
   * pixel of the grid the share of the error its offset is weighted with; a
   * neighbour position outside the grid gets nothing (no wrap to another row).
   */
  lemma StepEffect(work: seq<int>, x: nat, y: nat, width: nat, height: nat, x2: nat, y2: nat)
    requires x < width && y < height && width * height <= |work|
    requires x2 < width && y2 < height
    ensures var v := work[Idx(x, y, width, height)];
            var q := Quantize(v);
            Step(work, x, y, width, height)[Idx(x2, y2, width, height)] ==
              if x2 == x && y2 == y then q
              else work[Idx(x2, y2, width, height)] + Share(v - q, Weight(x2 - x, y2 - y))
  {
    NeighbourOffsets(x, y, width, height);
    var t := Idx(x2, y2, width, height);
    var idx := Idx(x, y, width, height);
    if t == idx { IdxInjective(x2, y2, x, y, width, height); }
    if x + 1 < width && t == idx + 1 { IdxInjective(x2, y2, x + 1, y, width, height); }
    if y + 1 < height && 1 <= x && t == idx + width - 1 {
      IdxInjective(x2, y2, x - 1, y + 1, width, height);
    }
    if y + 1 < height && t == idx + width { IdxInjective(x2, y2, x, y + 1, width, height); }
    if y + 1 < height && x + 1 < width && t == idx + width + 1 {
      IdxInjective(x2, y2, x + 1, y + 1, width, height);
    }
    var v := work[idx];
    var q := Quantize(v);
    if Weight(x2 - x, y2 - y) == 0 {
      assert Share(v - q, 0) == 0;
    }
  }

  /** Pixel (x2, y2) has been quantized once the row-major scan has reached (px, py). */
  predicate Processed(x2: int, y2: int, px: nat, py: nat)
  {
    y2 < py || (y2 == py && x2 < px)
  }

  /** Quantizing pixel (x, y) leaves every index past the grid alone. */
  lemma StepKeepsOutside(work: seq<int>, x: nat, y: nat, width: nat, height: nat, j: nat)
    requires x < width && y < height && width * height <= |work|
    requires width * height <= j < |work|
    ensures Step(work, x, y, width, height)[j] == work[j]
  {
    NeighbourOffsets(x, y, width, height);
  }

  /** Quantizing pixel (x, y) leaves every pixel the scan has already passed alone. */
  lemma StepKeepsProcessed(work: seq<int>, x: nat, y: nat, width: nat, height: nat, px: nat, py: nat)
    requires x < width && y < height && width * height <= |work|
    requires px < width && py < height && Processed(px, py, x, y)
    ensures Step(work, x, y, width, height)[Idx(px, py, width, height)] == work[Idx(px, py, width, height)]
  {
    StepEffect(work, x, y, width, height, px, py);
    var v := work[Idx(x, y, width, height)];
    assert Share(v - Quantize(v), 0) == 0;
  }

  /** The rest of row y, from column x1 on, leaves every pixel the scan passed before (x1, y) alone. */
  lemma {:induction false} ScanRowKeeps(work: seq<int>, y: nat, x1: nat, x2: nat, width: nat, height: nat, px: nat, py: nat)
    requires y < height && x1 <= x2 <= width && width * height <= |work|
    requires px < width && py < height && Processed(px, py, x1, y)
    ensures ScanRow(work, y, x2, width, height)[Idx(px, py, width, height)]
            == ScanRow(work, y, x1, width, height)[Idx(px, py, width, height)]
    decreases x2
  {
    if x2 > x1 {
      ScanRowKeeps(work, y, x1, x2 - 1, width, height, px, py);
      StepKeepsProcessed(ScanRow(work, y, x2 - 1, width, height), x2 - 1, y, width, height, px, py);
    }
  }

  /** Scanning rows y1 .. y2-1 leaves every pixel of rows 0 .. y1-1 alone. */
  lemma {:induction false} ScanRowsKeeps(work: seq<int>, y1: nat, y2: nat, width: nat, height: nat, px: nat, py: nat)
    requires y1 <= y2 <= height && width * height <= |work|
    requires px < width && py < y1
    ensures ScanRows(work, y2, width, height)[Idx(px, py, width, height)]
            == ScanRows(work, y1, width, height)[Idx(px, py, width, height)]
    decreases y2
  {
    if y2 > y1 {
      ScanRowsKeeps(work, y1, y2 - 1, width, height, px, py);
      ScanRowKeeps(ScanRows(work, y2 - 1, width, height), y2 - 1, 0, width, width, height, px, py);
    }
  }

  /**
   * A pixel of the dithered image is black exactly when its working value was
   * below 128 at the moment the row-major scan reached it, and white otherwise;
   * no later step changes it again.
   */
  lemma OutputIsThresholdOfAccumulated(input: seq<int>, x: nat, y: nat, width: nat, height: nat)
    requires x < width && y < height && width * height <= |input|
    ensures var acc := StateAt(input, x, y, width, height)[Idx(x, y, width, height)];
            var out := FloydSteinberg(input, width, height)[Idx(x, y, width, height)];
            (out == Black <==> acc < Threshold) && (out == White <==> acc >= Threshold)
  {
    StepEffect(StateAt(input, x, y, width, height), x, y, width, height, x, y);
    ScanRowKeeps(ScanRows(input, y, width, height), y, x + 1, width, width, height, x, y);
    ScanRowsKeeps(input, y + 1, height, width, height, x, y);
  }

  // ---------------------------------------------------------------------
  // Already 1-bit images
  // ---------------------------------------------------------------------

  ghost predicate AllBinary(s: seq<int>)
  {
    forall j | 0 <= j < |s| :: s[j] == Black || s[j] == White
  }

  lemma StepOnBinary(work: seq<int>, x: nat, y: nat, width: nat, height: nat)
    requires x < width && y < height && width * height <= |work|
    requires AllBinary(work)
    ensures Step(work, x, y, width, height) == work
  {
    var idx := Idx(x, y, width, height);
    assert work[idx] - Quantize(work[idx]) == 0;
  }

  lemma {:induction false} ScanRowOnBinary(work: seq<int>, y: nat, x: nat, width: nat, height: nat)
    requires y < height && x <= width && width * height <= |work|
    requires AllBinary(work)
    ensures ScanRow(work, y, x, width, height) == work
    decreases x
  {
    if x > 0 {
      ScanRowOnBinary(work, y, x - 1, width, height);
      StepOnBinary(work, x - 1, y, width, height);
    }
  }

  lemma {:induction false} ScanRowsOnBinary(work: seq<int>, y: nat, width: nat, height: nat)
    requires y <= height && width * height <= |work|
    requires AllBinary(work)
    ensures ScanRows(work, y, width, height) == work
    decreases y
  {
    if y > 0 {
      ScanRowsOnBinary(work, y - 1, width, height);
      ScanRowOnBinary(work, y - 1, width, width, height);
    }
  }

  /**
   * An image made only of 0 and 255 (all white, all black, or already dithered)
   * comes back unchanged: every quantization error is 0.
   */
  lemma BinaryImageIsFixedPoint(input: seq<int>, width: nat, height: nat)
    requires width * height <= |input|
    requires forall j | 0 <= j < |input| :: input[j] == Black || input[j] == White
    ensures FloydSteinberg(input, width, height) == input
  {
    ScanRowsOnBinary(input, height, width, height);
  }

  /** Dithering twice is dithering once. */
  lemma DitherIsIdempotent(input: seq<int>, width: nat, height: nat)
    requires |input| == width * height
    ensures FloydSteinberg(FloydSteinberg(input, width, height), width, height)
            == FloydSteinberg(input, width, height)
  {
    var out := FloydSteinberg(input, width, height);
    forall j | 0 <= j < |out| ensures out[j] == Black || out[j] == White {
      CellOf(j, width, height);
      OutputIsThresholdOfAccumulated(input, j % width, j / width, width, height);
    }
    BinaryImageIsFixedPoint(out, width, height);
  }

  // ---------------------------------------------------------------------
  // Bounds of the working buffer
  // ---------------------------------------------------------------------

  /**
   * The total weight pixel (x2, y2) has received from the neighbours that
   * diffuse into it (left 7, above-right 3, above 5, above-left 1) and that
   * the scan has already processed; never more than 16.
   */
  function ReceivedWeight(x2: nat, y2: nat, px: nat, py: nat, width: nat): (w: nat)
    ensures w <= 16
  {
    (if 1 <= x2 && Processed(x2 - 1, y2, px, py) then 7 else 0)
    + (if 1 <= y2 && x2 + 1 < width && Processed(x2 + 1, y2 - 1, px, py) then 3 else 0)
    + (if 1 <= y2 && Processed(x2, y2 - 1, px, py) then 5 else 0)
    + (if 1 <= x2 && 1 <= y2 && Processed(x2 - 1, y2 - 1, px, py) then 1 else 0)
  }

  /**
   * Invariant of the scan at (px, py): quantized pixels hold 0 or 255; every
   * pixel still to come differs from its input sample by at most 8 per unit
   * of weight received; indices past the grid hold their input.
   */
  ghost predicate DiffusionBounded(input: seq<int>, work: seq<int>, px: nat, py: nat, width: nat, height: nat)
    requires |work| == |input| && width * height <= |input|
  {
    && (forall x2: nat, y2: nat | x2 < width && y2 < height ::
          PixelBounded(input, work, x2, y2, px, py, width, height))
    && (forall j | width * height <= j < |work| :: work[j] == input[j])
  }

  /** The part of `DiffusionBounded` about pixel (x2, y2). */
  ghost predicate PixelBounded(input: seq<int>, work: seq<int>, x2: nat, y2: nat, px: nat, py: nat, width: nat, height: nat)
    requires x2 < width && y2 < height
    requires |work| == |input| && width * height <= |input|
  {
    var i := Idx(x2, y2, width, height);
    if Processed(x2, y2, px, py) then work[i] == Black || work[i] == White
    else input[i] - 8 * ReceivedWeight(x2, y2, px, py, width) <= work[i]
         <= input[i] + 8 * ReceivedWeight(x2, y2, px, py, width)
  }

  ghost predicate IsSamples(s: seq<int>)
  {
    forall j | 0 <= j < |s| :: 0 <= s[j] <= 255
  }

  lemma ShareBound(e: int, w: nat)
    requires -128 <= e <= 128
    requires w == 0 || w == 1 || w == 3 || w == 5 || w == 7
    ensures -8 * w <= Share(e, w) <= 8 * w
  {
    if w == 7 { assert Share(e, w) == (e * 7) / 16; }
    else if w == 5 { assert Share(e, w) == (e * 5) / 16; }
    else if w == 3 { assert Share(e, w) == (e * 3) / 16; }
    else if w == 1 { assert Share(e, w) == e / 16; }
    else { assert Share(e, w) == 0; }
  }

  lemma ReceivedWeightStep(x: nat, y: nat, x2: nat, y2: nat, width: nat)
    requires x < width && x2 < width
    requires !Processed(x2, y2, x, y) && !(x2 == x && y2 == y)
    ensures ReceivedWeight(x2, y2, x + 1, y, width)
            == ReceivedWeight(x2, y2, x, y, width) + Weight(x2 - x, y2 - y)
  {
  }

  lemma StepKeepsBounded(input: seq<int>, work: seq<int>, x: nat, y: nat, width: nat, height: nat)
    requires x < width && y < height
    requires |work| == |input| && width * height <= |input| && IsSamples(input)
    requires DiffusionBounded(input, work, x, y, width, height)
    ensures DiffusionBounded(input, Step(work, x, y, width, height), x + 1, y, width, height)
  {
    var idx := Idx(x, y, width, height);
    var v := work[idx];
    var q := Quantize(v);
    assert PixelBounded(input, work, x, y, x, y, width, height);
    assert -128 <= v <= 383;
    var next := Step(work, x, y, width, height);
    var x1 := x + 1;
    forall x2: nat, y2: nat | x2 < width && y2 < height
      ensures PixelBounded(input, next, x2, y2, x1, y, width, height)
    {
      assert PixelBounded(input, work, x2, y2, x, y, width, height);
      StepEffect(work, x, y, width, height, x2, y2);
      if !(x2 == x && y2 == y) {
        var w := Weight(x2 - x, y2 - y);
        ShareBound(v - q, w);
        if !Processed(x2, y2, x + 1, y) {
          ReceivedWeightStep(x, y, x2, y2, width);
        } else {
          assert w == 0;
        }
      }
    }
    forall j | width * height <= j < |next| ensures next[j] == input[j] {
      StepKeepsOutside(work, x, y, width, height, j);
    }
  }

  lemma {:induction false} ScanRowBounded(input: seq<int>, y: nat, x: nat, width: nat, height: nat)
    requires y < height && x <= width && width * height <= |input| && IsSamples(input)
    requires DiffusionBounded(input, ScanRows(input, y, width, height), 0, y, width, height)
    ensures DiffusionBounded(input, StateAt(input, x, y, width, height), x, y, width, height)
    decreases x
  {
    if x > 0 {
      var prev := StateAt(input, x - 1, y, width, height);
      assert StateAt(input, x, y, width, height) == Step(prev, x - 1, y, width, height);
      assert DiffusionBounded(input, prev, x - 1, y, width, height) by {
        ScanRowBounded(input, y, x - 1, width, height);
      }
      StepKeepsBounded(input, prev, x - 1, y, width, height);
    }
  }

  /** Finishing row y and starting row y + 1 are the same point of the scan. */
  lemma RowBoundary(input: seq<int>, work: seq<int>, y: nat, width: nat, height: nat)
    requires |work| == |input| && width * height <= |input|
    requires DiffusionBounded(input, work, width, y, width, height)
    ensures DiffusionBounded(input, work, 0, y + 1, width, height)
  {
    var y1 := y + 1;
    forall x2: nat, y2: nat | x2 < width && y2 < height
      ensures PixelBounded(input, work, x2, y2, 0, y1, width, height)
    {
      assert PixelBounded(input, work, x2, y2, width, y, width, height);
      assert Processed(x2, y2, width, y) == Processed(x2, y2, 0, y + 1);
      assert ReceivedWeight(x2, y2, width, y, width) == ReceivedWeight(x2, y2, 0, y + 1, width);
    }
  }

  lemma {:induction false} ScanRowsBounded(input: seq<int>, y: nat, width: nat, height: nat)
    requires y <= height && width * height <= |input| && IsSamples(input)
    ensures DiffusionBounded(input, ScanRows(input, y, width, height), 0, y, width, height)
    decreases y
  {
    if y > 0 {
      ScanRowsBounded(input, y - 1, width, height);
      NextRowBounded(input, y - 1, width, height);
    }
  }

  /** Scanning row y carries the invariant from the start of row y to the start of row y + 1. */
  lemma NextRowBounded(input: seq<int>, y: nat, width: nat, height: nat)
    requires y < height && width * height <= |input| && IsSamples(input)
    requires DiffusionBounded(input, ScanRows(input, y, width, height), 0, y, width, height)
    ensures DiffusionBounded(input, ScanRows(input, y + 1, width, height), 0, y + 1, width, height)
  {
    ScanRowBounded(input, y, width, width, height);
    RowBoundary(input, StateAt(input, width, y, width, height), y, width, height);
  }

  /**
   * At every point of the scan each value of the working buffer lies in
   * [-128, 383], well inside the Int16 range, so the Int16Array never wraps.
   */
  lemma WorkingValuesFitInt16(input: seq<int>, x: nat, y: nat, width: nat, height: nat)
    requires x <= width && y < height && width * height <= |input| && IsSamples(input)
    ensures forall j | 0 <= j < |input| ::
      -128 <= StateAt(input, x, y, width, height)[j] <= 383
    ensures forall j | 0 <= j < |input| ::
      -32768 <= StateAt(input, x, y, width, height)[j] <= 32767
  {
    ScanRowsBounded(input, y, width, height);
    ScanRowBounded(input, y, x, width, height);
    BoundedValues(input, StateAt(input, x, y, width, height), x, y, width, height);
  }

  /** Under the scan invariant every working value lies in [-128, 383]. */
  lemma BoundedValues(input: seq<int>, work: seq<int>, x: nat, y: nat, width: nat, height: nat)
    requires |work| == |input| && width * height <= |input| && IsSamples(input)
    requires DiffusionBounded(input, work, x, y, width, height)
    ensures forall j | 0 <= j < |work| :: -128 <= work[j] <= 383
  {
    forall j | 0 <= j < |work| ensures -128 <= work[j] <= 383 {
      if j < width * height {
        CellOf(j, width, height);
        assert PixelBounded(input, work, j % width, j / width, x, y, width, height);
      }
    }
  }

  /** The dithered image has one entry per input sample, and the grid's entries are 0 or 255. */
  lemma DitheredIsBinary(input: seq<int>, width: nat, height: nat)
    requires width * height <= |input| && IsSamples(input)
    ensures |FloydSteinberg(input, width, height)| == |input|
    ensures forall j | 0 <= j < width * height ::
      FloydSteinberg(input, width, height)[j] == Black || FloydSteinberg(input, width, height)[j] == White
    ensures forall j | width * height <= j < |input| :: FloydSteinberg(input, width, height)[j] == input[j]
  {
    ScanRowsBounded(input, height, width, height);
    var out := FloydSteinberg(input, width, height);
    forall j | 0 <= j < width * height ensures out[j] == Black || out[j] == White {
      CellOf(j, width, height);
      assert PixelBounded(input, out, j % width, j / width, 0, height, width, height);
    }
  }

  // ---------------------------------------------------------------------
  // The loop body as the source writes it, on an Int16Array
  // ---------------------------------------------------------------------

  /** The value an Int16Array holds after `v` is stored into it: the low 16 bits, read as signed. */
  function ToInt16(v: int): (r: int)
    ensures -32768 <= r <= 32767
    ensures -32768 <= v <= 32767 ==> r == v
  {
    (v + 32768) % 65536 - 32768
  }

  /** `work[i] += share` on an Int16Array, when `guard` holds. */
  function AddShare(work: seq<int>, guard: bool, i: int, error: int, weight: int): (r: seq<int>)
    requires guard ==> 0 <= i < |work|
    ensures |r| == |work|
  {
    if guard then work[i := ToInt16(work[i] + Share(error, weight))] else work
  }

  /**
   * One pass of the loop body at pixel (x, y), written the way the source
   * writes it: store the 1-bit value, then `+=` each share into an Int16 cell,
   * in the order right, below-left, below, below-right.
   */
  function InPlaceStep(work: seq<int>, x: nat, y: nat, width: nat, height: nat): (r: seq<int>)
    requires x < width && y < height && width * height <= |work|
  {
    NeighbourOffsets(x, y, width, height);
    var idx := Idx(x, y, width, height);
    var newVal := Quantize(work[idx]);
    var error := work[idx] - newVal;
    var w1 := AddShare(work[idx := newVal], x + 1 < width, idx + 1, error, 7);
    var w2 := AddShare(w1, y + 1 < height && x - 1 >= 0, idx + width - 1, error, 3);
    var w3 := AddShare(w2, y + 1 < height, idx + width, error, 5);
    AddShare(w3, y + 1 < height && x + 1 < width, idx + width + 1, error, 1)
  }

  /**
   * When no value of the next working buffer leaves the Int16 range, the
   * in-place loop body computes exactly `Step`: the four neighbours are
   * distinct cells, none of them the pixel itself.
   */
  lemma InPlaceStepIsStep(work: seq<int>, x: nat, y: nat, width: nat, height: nat)
    requires x < width && y < height && width * height <= |work|
    requires forall j | 0 <= j < |work| :: -32768 <= Step(work, x, y, width, height)[j] <= 32767
    ensures InPlaceStep(work, x, y, width, height) == Step(work, x, y, width, height)
  {
    var r := InPlaceStep(work, x, y, width, height);
    var s := Step(work, x, y, width, height);
    NeighbourOffsets(x, y, width, height);
    forall j | 0 <= j < |work| ensures r[j] == s[j] {
      assert -32768 <= s[j] <= 32767;
    }
  }

  /** The step of the scan at (x, y) keeps the working buffer in the Int16 range. */
  lemma StepFitsInt16(input: seq<int>, x: nat, y: nat, width: nat, height: nat)
    requires x < width && y < height && width * height <= |input| && IsSamples(input)
    ensures forall j | 0 <= j < |input| ::
      -32768 <= Step(StateAt(input, x, y, width, height), x, y, width, height)[j] <= 32767
  {
    assert Step(StateAt(input, x, y, width, height), x, y, width, height)
      == StateAt(input, x + 1, y, width, height);
    WorkingValuesFitInt16(input, x + 1, y, width, height);
  }

  // ---------------------------------------------------------------------
  // The output buffer
  // ---------------------------------------------------------------------

  /**
   * The output buffer when the scan has reached (px, py): every pixel already
   * quantized holds its value in the working buffer; every other pixel still
   * holds the 0 a fresh Uint8Array starts with.
   */
  ghost predicate OutputMatches(output: seq<int>, work: seq<int>, px: nat, py: nat, width: nat, height: nat)
    requires width * height <= |output| && width * height <= |work|
  {
    forall x2: nat, y2: nat | x2 < width && y2 < height ::
      output[Idx(x2, y2, width, height)]
        == if Processed(x2, y2, px, py) then work[Idx(x2, y2, width, height)] else 0
  }

  /** A fresh output buffer matches the scan before its first pixel. */
  lemma OutputMatchesStart(output: seq<int>, work: seq<int>, width: nat, height: nat)
    requires width * height <= |output| && width * height <= |work|
    requires forall j | 0 <= j < |output| :: output[j] == 0
    ensures OutputMatches(output, work, 0, 0, width, height)
  {
  }

  /** Writing the quantized value of (x, y) to the output keeps it in step with the working buffer. */
  lemma OutputMatchesStep(output: seq<int>, work: seq<int>, x: nat, y: nat, width: nat, height: nat)
    requires x < width && y < height
    requires width * height <= |output| && width * height <= |work|
    requires OutputMatches(output, work, x, y, width, height)
    ensures OutputMatches(output[Idx(x, y, width, height) := Quantize(work[Idx(x, y, width, height)])],
                          Step(work, x, y, width, height), x + 1, y, width, height)
  {
    var idx := Idx(x, y, width, height);
    var out := output[idx := Quantize(work[idx])];
    var next := Step(work, x, y, width, height);
    var x1 := x + 1;
    forall x2: nat, y2: nat | x2 < width && y2 < height
      ensures out[Idx(x2, y2, width, height)]
        == if Processed(x2, y2, x1, y) then next[Idx(x2, y2, width, height)] else 0
    {
      var i := Idx(x2, y2, width, height);
      if x2 == x && y2 == y {
        StepEffect(work, x, y, width, height, x2, y2);
      } else {
        if i == idx {
          IdxInjective(x2, y2, x, y, width, height);
        }
        if Processed(x2, y2, x, y) {
          StepKeepsProcessed(work, x, y, width, height, x2, y2);
        }
      }
    }
  }

  /** Finishing row y and starting row y + 1 are the same point of the scan. */
  lemma OutputMatchesNextRow(output: seq<int>, work: seq<int>, y: nat, width: nat, height: nat)
    requires width * height <= |output| && width * height <= |work|
    requires OutputMatches(output, work, width, y, width, height)
    ensures OutputMatches(output, work, 0, y + 1, width, height)
  {
    var y1 := y + 1;
    forall x2: nat, y2: nat | x2 < width && y2 < height
      ensures output[Idx(x2, y2, width, height)]
        == if Processed(x2, y2, 0, y1) then work[Idx(x2, y2, width, height)] else 0
    {
      assert Processed(x2, y2, width, y) == Processed(x2, y2, 0, y1);
    }
  }

  /** Once every row is scanned the output's grid is the working buffer's grid. */
  lemma OutputMatchesEnd(output: seq<int>, work: seq<int>, width: nat, height: nat)
    requires width * height <= |output| && width * height <= |work|
    requires OutputMatches(output, work, 0, height, width, height)
    ensures output[..width * height] == work[..width * height]
  {
    forall j | 0 <= j < width * height ensures output[j] == work[j] {
      CellOf(j, width, height);
    }
  }

  /**
   * One pixel of the scan as the in-place loop performs it: from the state at
   * (x, y), the loop body reaches the state at the next pixel, and writing the
   * pixel's 1-bit value to the output keeps the output in step.
   */
  lemma ScanAdvances(input: seq<int>, output: seq<int>, work: seq<int>, x: nat, y: nat, width: nat, height: nat)
    requires x < width && y < height && width * height <= |input| && IsSamples(input)
    requires width * height <= |output|
    requires work == StateAt(input, x, y, width, height)
    requires OutputMatches(output, work, x, y, width, height)
    ensures InPlaceStep(work, x, y, width, height) == StateAt(input, x + 1, y, width, height)
    ensures OutputMatches(output[Idx(x, y, width, height) := Quantize(work[Idx(x, y, width, height)])],
                          StateAt(input, x + 1, y, width, height), x + 1, y, width, height)
  {
    StepFitsInt16(input, x, y, width, height);
    InPlaceStepIsStep(work, x, y, width, height);
    OutputMatchesStep(output, work, x, y, width, height);
  }
}
