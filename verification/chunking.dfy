/**
 * src/actions/index.ts, `printImage`: how a dithered image is cut into bands
 * of at most 200 rows, each sent as a raster command of its own and followed
 * by a pause, with a feed-and-cut trailer last; and what the spooler ends up
 * with when one of the submissions fails.
 */
module Chunking {
  import opened Wrappers
  import opened Grid
  import opened Bytes
  import opened EscPos
  import opened PrintCommands

  /** Rows per band. */
  const ChunkHeight: nat := 200
  /** Milliseconds to wait after each band, so the printer's buffer can drain. */
  const DelayMs: nat := 500

  function Min(a: int, b: int): int
  {
    if a <= b then a else b
  }

  // ---------------------------------------------------------------------
  // Bands
  // ---------------------------------------------------------------------

  /** `rows` rows of the image starting at row `top`. */
  datatype Band = Band(top: nat, rows: nat)

  /**
   * The bands of the loop `for (y = start; y < height; y += 200)`: one per
   * value of y, `Math.min(200, height - y)` rows high.
   */
  function BandsFrom(start: nat, height: nat): seq<Band>
    decreases height - start
  {
    if start >= height then []
    else [Band(start, Min(ChunkHeight, height - start))] + BandsFrom(start + ChunkHeight, height)
  }

  /** The bands of an image `height` rows high. */
  function Bands(height: nat): seq<Band>
  {
    BandsFrom(0, height)
  }

  /** Band i starts 200 * i rows further down, and is 200 rows high or the rest of the image. */
  lemma {:induction false} BandsFromShape(start: nat, height: nat)
    ensures |BandsFrom(start, height)| == if start >= height then 0 else (height - start + ChunkHeight - 1) / ChunkHeight
    ensures forall i | 0 <= i < |BandsFrom(start, height)| ::
      BandsFrom(start, height)[i] == Band(start + ChunkHeight * i, Min(ChunkHeight, height - start - ChunkHeight * i))
    decreases height - start
  {
    if start < height {
      var rest := BandsFrom(start + ChunkHeight, height);
      BandsFromShape(start + ChunkHeight, height);
      forall i | 1 <= i < |BandsFrom(start, height)|
        ensures BandsFrom(start, height)[i]
          == Band(start + ChunkHeight * i, Min(ChunkHeight, height - start - ChunkHeight * i))
      {
        assert BandsFrom(start, height)[i] == rest[i - 1];
      }
    }
  }

  /**
   * The image is sent in ceil(height / 200) bands: band i covers rows
   * [200 i, 200 i + rows), every band but the last is 200 rows high, and the
   * last holds the remaining 1 to 200 rows.
   */
  lemma BandsShape(height: nat)
    ensures |Bands(height)| == (height + ChunkHeight - 1) / ChunkHeight
    ensures forall i | 0 <= i < |Bands(height)| ::
      Bands(height)[i] == Band(ChunkHeight * i, Min(ChunkHeight, height - ChunkHeight * i))
    ensures forall i | 0 <= i < |Bands(height)| - 1 :: Bands(height)[i].rows == ChunkHeight
    ensures |Bands(height)| > 0 ==> 0 < Bands(height)[|Bands(height)| - 1].rows <= ChunkHeight
  {
    BandsFromShape(0, height);
  }

  /** Each row of the image lies in exactly one band, band row / 200. */
  lemma RowInOneBand(height: nat, row: nat)
    requires row < height
    ensures row / ChunkHeight < |Bands(height)|
    ensures var b := Bands(height)[row / ChunkHeight]; b.top <= row < b.top + b.rows
    ensures forall i | 0 <= i < |Bands(height)| && i != row / ChunkHeight ::
      !(Bands(height)[i].top <= row < Bands(height)[i].top + Bands(height)[i].rows)
  {
    BandsShape(height);
  }

  /** An image of 1000 rows goes out as five bands of 200 rows. */
  lemma ThousandRows()
    ensures Bands(1000) == [Band(0, 200), Band(200, 200), Band(400, 200), Band(600, 200), Band(800, 200)]
  {
    BandsShape(1000);
  }

  /** `buffer.slice(start, end)`: indices out of range are clamped to the buffer. */
  function Slice(s: seq<int>, start: nat, end: nat): (r: seq<int>)
    ensures start <= end <= |s| ==> r == s[start..end]
    ensures |r| <= |s|
  {
    var lo := Min(start, |s|);
    var hi := Min(end, |s|);
    if lo <= hi then s[lo..hi] else []
  }

  /** The pixels of a band: rows top to top + rows - 1 of an image `width` pixels wide. */
  function BandPixels(pixels: seq<int>, width: nat, b: Band): seq<int>
  {
    Slice(pixels, b.top * width, (b.top + b.rows) * width)
  }

  function ConcatBands(pixels: seq<int>, width: nat, bands: seq<Band>): seq<int>
  {
    if bands == [] then [] else BandPixels(pixels, width, bands[0]) + ConcatBands(pixels, width, bands[1..])
  }

  /** The bands' pixels, in order, make up the image from row `start` down. */
  lemma {:induction false} ConcatBandsFrom(pixels: seq<int>, width: nat, height: nat, start: nat)
    requires |pixels| == width * height && start <= height
    ensures ConcatBands(pixels, width, BandsFrom(start, height)) == pixels[start * width..]
    decreases height - start
  {
    if start < height {
      var rows := Min(ChunkHeight, height - start);
      var next := start + ChunkHeight;
      var bands := BandsFrom(start, height);
      var lo := start * width;
      var mid := (start + rows) * width;
      MulMonotone(start, start + rows, width);
      MulMonotone(start + rows, height, width);
      assert bands[0] == Band(start, rows) && bands[1..] == BandsFrom(next, height);
      assert BandPixels(pixels, width, bands[0]) == pixels[lo..mid];
      assert ConcatBands(pixels, width, BandsFrom(next, height)) == pixels[mid..] by {
        if next < height {
          ConcatBandsFrom(pixels, width, height, next);
          assert next == start + rows;
        } else {
          assert start + rows == height;
        }
      }
      assert pixels[lo..mid] + pixels[mid..] == pixels[lo..];
    }
  }

  /** Concatenating the band slices in order gives the whole image back. */
  lemma BandsCoverImage(pixels: seq<int>, width: nat, height: nat)
    requires |pixels| == width * height
    ensures ConcatBands(pixels, width, Bands(height)) == pixels
  {
    ConcatBandsFrom(pixels, width, height, 0);
  }

  // ---------------------------------------------------------------------
  // The job and the spooler
  // ---------------------------------------------------------------------

  /** One step of a print job: submit a buffer to the spooler, or wait. */
  datatype Action = Send(data: seq<Byte>) | Pause(ms: nat)

  /** What the spooler and the clock saw: a buffer accepted for printing, or a pause. */
  datatype Event = Submitted(data: seq<Byte>) | Waited(ms: nat)

  /** The raster command of one band. */
  function BandRaster(pixels: seq<int>, width: nat, b: Band): seq<Byte>
  {
    EscPosRaster(BandPixels(pixels, width, b), width, b.rows)
  }

  /** Each band: its raster, then a pause. */
  function BandSteps(pixels: seq<int>, width: nat, bands: seq<Band>): (plan: seq<Action>)
    ensures |plan| == 2 * |bands|
  {
    if bands == [] then []
    else [Send(BandRaster(pixels, width, bands[0])), Pause(DelayMs)] + BandSteps(pixels, width, bands[1..])
  }

  /** Step 2k of the band steps submits band k's raster, and step 2k + 1 is the pause after it. */
  lemma {:induction false} BandStepsAt(pixels: seq<int>, width: nat, bands: seq<Band>, k: nat)
    requires k < |bands|
    ensures BandSteps(pixels, width, bands)[2 * k] == Send(BandRaster(pixels, width, bands[k]))
    ensures BandSteps(pixels, width, bands)[2 * k + 1] == Pause(DelayMs)
    decreases k
  {
    if k > 0 {
      BandStepsAt(pixels, width, bands[1..], k - 1);
    }
  }

  /** The steps of `printImage` once the image is dithered: the bands top to bottom, then the trailer. */
  function ImageJob(pixels: seq<int>, width: nat, height: nat): seq<Action>
  {
    BandSteps(pixels, width, Bands(height)) + [Send(GetCutCommand())]
  }

  /** The buffers a job submits, in order. */
  function Sends(plan: seq<Action>): seq<seq<Byte>>
  {
    if plan == [] then []
    else if plan[0].Send? then [plan[0].data] + Sends(plan[1..])
    else Sends(plan[1..])
  }

  /** The buffers the spooler accepted, in order. */
  function Delivered(events: seq<Event>): seq<seq<Byte>>
  {
    if events == [] then []
    else if events[0].Submitted? then [events[0].data] + Delivered(events[1..])
    else Delivered(events[1..])
  }

  /** The events of a job that runs to the end. */
  function EventsOf(plan: seq<Action>): (events: seq<Event>)
    ensures |events| == |plan|
  {
    if plan == [] then []
    else [match plan[0] case Send(d) => Submitted(d) case Pause(ms) => Waited(ms)] + EventsOf(plan[1..])
  }

  lemma {:induction false} SendsAppend(a: seq<Action>, b: seq<Action>)
    ensures Sends(a + b) == Sends(a) + Sends(b)
  {
    if a == [] {
      assert a + b == b;
    } else {
      assert (a + b)[0] == a[0] && (a + b)[1..] == a[1..] + b;
      SendsAppend(a[1..], b);
    }
  }

  lemma {:induction false} BandSends(pixels: seq<int>, width: nat, bands: seq<Band>)
    ensures |Sends(BandSteps(pixels, width, bands))| == |bands|
    ensures forall i | 0 <= i < |bands| ::
      Sends(BandSteps(pixels, width, bands))[i] == BandRaster(pixels, width, bands[i])
  {
    if bands != [] {
      var head := [Send(BandRaster(pixels, width, bands[0])), Pause(DelayMs)];
      BandSends(pixels, width, bands[1..]);
      SendsAppend(head, BandSteps(pixels, width, bands[1..]));
      assert Sends(head) == [BandRaster(pixels, width, bands[0])] by {
        assert head[1..][1..] == [];
      }
    }
  }

  /**
   * `printImage` submits one raster per band, in increasing y, built from
   * that band's rows, and then exactly one feed-and-cut trailer, last.
   */
  lemma ImageJobSubmissions(pixels: seq<int>, width: nat, height: nat)
    ensures var sends := Sends(ImageJob(pixels, width, height));
      && |sends| == |Bands(height)| + 1
      && (forall i | 0 <= i < |Bands(height)| :: sends[i] == BandRaster(pixels, width, Bands(height)[i]))
      && sends[|sends| - 1] == GetCutCommand()
  {
    BandSends(pixels, width, Bands(height));
    SendsAppend(BandSteps(pixels, width, Bands(height)), [Send(GetCutCommand())]);
    assert Sends([Send(GetCutCommand())]) == [GetCutCommand()] by {
      assert [Send(GetCutCommand())][1..] == [];
    }
  }

  /** What running a job leaves: the events, the error that stopped it if any, and the submissions attempted. */
  datatype Outcome = Outcome(events: seq<Event>, failure: Option<string>, attempts: nat)

  /**
   * Running a job's steps against a spooler whose submission number k fails
   * with message faults[k] (when k is a key of faults); submissions are
   * numbered from `attempt` on. The first failure ends the job.
   */
  function Perform(plan: seq<Action>, faults: map<nat, string>, attempt: nat): Outcome
  {
    if plan == [] then Outcome([], None, 0)
    else match plan[0]
      case Pause(ms) =>
        var o := Perform(plan[1..], faults, attempt);
        Outcome([Waited(ms)] + o.events, o.failure, o.attempts)
      case Send(d) =>
        if attempt in faults then Outcome([], Some(faults[attempt]), 1)
        else
          var o := Perform(plan[1..], faults, attempt + 1);
          Outcome([Submitted(d)] + o.events, o.failure, 1 + o.attempts)
  }

  /**
   * A job succeeds exactly when none of its submissions fails, and then every
   * step happened, in order. When submission k of the job fails, the
   * spooler has accepted exactly the buffers before it, and no later one:
   * the error is the one submission k raised.
   */
  lemma {:induction false} PerformSpec(plan: seq<Action>, faults: map<nat, string>, attempt: nat)
    ensures var o := Perform(plan, faults, attempt);
      && (o.failure.None? <==> forall k | attempt <= k < attempt + |Sends(plan)| :: k !in faults)
      && (o.failure.None? ==> o.events == EventsOf(plan) && o.attempts == |Sends(plan)|)
      && (o.failure.None? ==> Delivered(o.events) == Sends(plan))
      && (o.failure.Some? ==>
            var n := |Delivered(o.events)|;
            && n < |Sends(plan)| && Delivered(o.events) == Sends(plan)[..n]
            && o.attempts == n + 1
            && attempt + n in faults && o.failure.value == faults[attempt + n]
            && forall k | attempt <= k < attempt + n :: k !in faults)
  {
    if plan != [] {
      match plan[0]
      case Pause(ms) =>
        PerformSpec(plan[1..], faults, attempt);
      case Send(d) =>
        if attempt !in faults {
          PerformSpec(plan[1..], faults, attempt + 1);
        }
    }
  }

  /**
   * Consequently for an image: on success the spooler accepted every band's
   * raster and then the trailer; on failure the trailer was never accepted.
   */
  lemma ImageJobOutcome(pixels: seq<int>, width: nat, height: nat, faults: map<nat, string>, attempt: nat)
    ensures var o := Perform(ImageJob(pixels, width, height), faults, attempt);
      var sends := Sends(ImageJob(pixels, width, height));
      && (o.failure.None? ==> Delivered(o.events) == sends && Delivered(o.events)[|sends| - 1] == GetCutCommand())
      && (o.failure.Some? ==> |Delivered(o.events)| < |sends| && Delivered(o.events) == sends[..|Delivered(o.events)|])
  {
    PerformSpec(ImageJob(pixels, width, height), faults, attempt);
    ImageJobSubmissions(pixels, width, height);
  }

  /** A buffer and a pause at the front of a job: how running it begins. */
  lemma PerformSendPause(data: seq<Byte>, ms: nat, rest: seq<Action>, faults: map<nat, string>, attempt: nat)
    ensures var o := Perform([Send(data), Pause(ms)] + rest, faults, attempt);
      var r := Perform(rest, faults, attempt + 1);
      && (attempt in faults ==> o == Outcome([], Some(faults[attempt]), 1))
      && (attempt !in faults ==>
            o == Outcome([Submitted(data), Waited(ms)] + r.events, r.failure, 1 + r.attempts))
  {
    var plan := [Send(data), Pause(ms)] + rest;
    assert plan[0] == Send(data) && plan[1..][0] == Pause(ms) && plan[1..][1..] == rest;
  }

  /** Running the trailer alone. */
  lemma PerformLastSend(data: seq<Byte>, faults: map<nat, string>, attempt: nat)
    ensures Perform([Send(data)], faults, attempt)
      == if attempt in faults then Outcome([], Some(faults[attempt]), 1) else Outcome([Submitted(data)], None, 1)
  {
    assert [Send(data)][1..] == [];
  }

  /** The raster command of each band, in order. */
  function BandRasters(pixels: seq<int>, width: nat, bands: seq<Band>): (rasters: seq<seq<Byte>>)
    ensures |rasters| == |bands|
  {
    if bands == [] then [] else [BandRaster(pixels, width, bands[0])] + BandRasters(pixels, width, bands[1..])
  }

  /** Entry i of the rasters is band i's raster. */
  lemma {:induction false} BandRasterAt(pixels: seq<int>, width: nat, bands: seq<Band>, i: nat)
    requires i < |bands|
    ensures BandRasters(pixels, width, bands)[i] == BandRaster(pixels, width, bands[i])
  {
    if i > 0 {
      BandRasterAt(pixels, width, bands[1..], i - 1);
    }
  }

  /** `rasters` holds the raster command of each band of the image, in order. */
  ghost predicate RastersOf(rasters: seq<seq<Byte>>, pixels: seq<int>, width: nat, height: nat)
  {
    && |rasters| == |Bands(height)|
    && forall i | 0 <= i < |rasters| :: rasters[i] == BandRaster(pixels, width, Bands(height)[i])
  }

  /** The band rasters are the image's rasters. */
  lemma BandRastersOf(pixels: seq<int>, width: nat, height: nat)
    ensures RastersOf(BandRasters(pixels, width, Bands(height)), pixels, width, height)
  {
    forall i | 0 <= i < |Bands(height)|
      ensures BandRasters(pixels, width, Bands(height))[i] == BandRaster(pixels, width, Bands(height)[i])
    {
      BandRasterAt(pixels, width, Bands(height), i);
    }
  }

  /**
   * The chunk loop from raster i on, run from submission `attempt` on: each
   * raster and a pause, then the trailer; the first failed submission ends
   * it.
   */
  function Remaining(rasters: seq<seq<Byte>>, i: nat, faults: map<nat, string>, attempt: nat): Outcome
    decreases |rasters| - i
  {
    if attempt in faults then Outcome([], Some(faults[attempt]), 1)
    else if i >= |rasters| then Outcome([Submitted(GetCutCommand())], None, 1)
    else
      var r := Remaining(rasters, i + 1, faults, attempt + 1);
      Outcome([Submitted(rasters[i]), Waited(DelayMs)] + r.events, r.failure, 1 + r.attempts)
  }

  /** The chunk loop from band i on is the job's steps for the bands from i on. */
  lemma {:induction false} RemainingIsPerform(pixels: seq<int>, width: nat, bands: seq<Band>, i: nat,
                                              faults: map<nat, string>, attempt: nat)
    requires i <= |bands|
    ensures Remaining(BandRasters(pixels, width, bands), i, faults, attempt)
      == Perform(BandSteps(pixels, width, bands[i..]) + [Send(GetCutCommand())], faults, attempt)
    decreases |bands| - i
  {
    var tail := [Send(GetCutCommand())];
    if i == |bands| {
      assert BandSteps(pixels, width, bands[i..]) + tail == tail;
      PerformLastSend(GetCutCommand(), faults, attempt);
    } else {
      var raster := BandRaster(pixels, width, bands[i]);
      BandRasterAt(pixels, width, bands, i);
      assert bands[i..][0] == bands[i] && bands[i..][1..] == bands[i + 1..];
      assert BandSteps(pixels, width, bands[i..]) + tail
        == [Send(raster), Pause(DelayMs)] + (BandSteps(pixels, width, bands[i + 1..]) + tail);
      PerformSendPause(raster, DelayMs, BandSteps(pixels, width, bands[i + 1..]) + tail, faults, attempt);
      RemainingIsPerform(pixels, width, bands, i + 1, faults, attempt + 1);
    }
  }

  /** The whole job is the chunk loop over all the bands' rasters. */
  lemma ImageJobIsRemaining(pixels: seq<int>, width: nat, height: nat, faults: map<nat, string>, attempt: nat)
    ensures Perform(ImageJob(pixels, width, height), faults, attempt)
      == Remaining(BandRasters(pixels, width, Bands(height)), 0, faults, attempt)
  {
    RemainingIsPerform(pixels, width, Bands(height), 0, faults, attempt);
    assert Bands(height)[0..] == Bands(height);
  }

  /** There is a raster for row y = 200 i exactly when the row is inside the image. */
  lemma RasterCount(rasters: seq<seq<Byte>>, pixels: seq<int>, width: nat, height: nat, i: nat)
    requires RastersOf(rasters, pixels, width, height)
    ensures ChunkHeight * i < height <==> i < |rasters|
  {
    BandIndex(height, i);
  }

  /** Row y = 200 i is inside the image exactly when there is a band i; that band starts at row y. */
  lemma BandIndex(height: nat, i: nat)
    ensures ChunkHeight * i < height <==> i < |Bands(height)|
    ensures i < |Bands(height)| ==> Bands(height)[i] == Band(ChunkHeight * i, Min(ChunkHeight, height - ChunkHeight * i))
  {
    BandsShape(height);
  }

  /** The band at row y of a full image lies inside the buffer: `slice` takes exactly its rows. */
  lemma BandSlice(pixels: seq<int>, width: nat, height: nat, y: nat)
    requires y < height && |pixels| == width * height
    ensures var rows := Min(ChunkHeight, height - y);
      && 0 <= y * width <= (y + rows) * width <= |pixels|
      && pixels[y * width..(y + rows) * width] == BandPixels(pixels, width, Band(y, rows))
  {
    var rows := Min(ChunkHeight, height - y);
    MulMonotone(y, y + rows, width);
    MulMonotone(y + rows, height, width);
  }
}
