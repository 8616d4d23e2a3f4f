/**
 * src/actions/index.ts: the server actions that print. The module-level
 * `isPrinting` flag and the print spooler are the state of a `PrintServer`.
 * Writing a buffer to a temporary file and queueing it with `lp -o raw` is
 * one submission to the spooler: it either appends the buffer to the
 * spooler's log or fails with an error message, as scripted by `faults`.
 */
module Actions {
  import opened Wrappers
  import opened Bytes
  import opened Halftone
  import opened EscPos
  import opened Printer
  import opened PrintCommands
  import opened PrinterStatus
  import opened Chunking

  /** The `{ success, message }` object an action returns. */
  datatype Reply = Reply(success: bool, message: string)

  const BusyMessage: string := "Printer is busy. Please wait."
  const TextSentMessage: string := "Text sent to printer (RAW)"
  const ImageSentMessage: string := "Image sent to printer (Chunked)"
  const CutSentMessage: string := "Cut command sent"

  /** An image as the decoder hands it over: `width * height` grayscale samples, row by row. */
  datatype Decoded = Decoded(data: seq<int>, width: nat, height: nat)

  /** The trailer each action writes out inline: four line feeds, then GS V 66 0. */
  const InlineCut: seq<Byte> := [0x0A, 0x0A, 0x0A, 0x0A, 0x1D, 0x56, 0x42, 0x00]

  /** The inline trailer is the one `getCutCommand` returns, and a printer reads it as four feeds and a cut. */
  lemma InlineCutIsCutCommand()
    ensures InlineCut == GetCutCommand()
    ensures Parse(InlineCut) == Some(CutTrailer())
  {
    CutCommandIsTrailer();
  }

  class PrintServer {
    /** `isPrinting`: an image job is in progress. */
    var isPrinting: bool
    /** What the spooler has accepted and the pauses taken, oldest first. */
    ghost var log: seq<Event>
    /** The number of submissions made so far, failed ones included. */
    var attempts: nat
    /** Submission number k fails with message faults[k]. */
    const faults: map<nat, string>
    /** The Shift_JIS encoder (`iconv.encode(s, 'Shift_JIS')`). */
    const encode: string -> seq<Byte>

    constructor (faults: map<nat, string>, encode: string -> seq<Byte>)
      ensures !isPrinting && log == [] && attempts == 0
      ensures this.faults == faults && this.encode == encode
    {
      isPrinting := false;
      log := [];
      attempts := 0;
      this.faults := faults;
      this.encode := encode;
    }

    /** Write a buffer to a temporary file and queue it with `lp -o raw`. */
    method Submit(data: seq<Byte>) returns (error: Option<string>)
      modifies this
      ensures attempts == old(attempts) + 1 && isPrinting == old(isPrinting)
      ensures old(attempts) in faults ==> error == Some(faults[old(attempts)]) && log == old(log)
      ensures old(attempts) !in faults ==> error == None && log == old(log) + [Submitted(data)]
    {
      if attempts in faults {
        error := Some(faults[attempts]);
      } else {
        error := None;
        log := log + [Submitted(data)];
      }
      attempts := attempts + 1;
    }

    /** `await wait(ms)`. */
    method Wait(ms: nat)
      modifies this
      ensures log == old(log) + [Waited(ms)]
      ensures attempts == old(attempts) && isPrinting == old(isPrinting)
    {
      log := log + [Waited(ms)];
    }

    /**
     * `printText`: the text and a line feed in Shift_JIS, followed by the
     * feed-and-cut trailer, as one submission. It leaves `isPrinting` alone.
     */
    method PrintText(text: string) returns (reply: Reply)
      modifies this
      ensures isPrinting == old(isPrinting) && attempts == old(attempts) + 1
      ensures var data := encode(text + "\n") + GetCutCommand();
        if old(attempts) in faults then reply == Reply(false, faults[old(attempts)]) && log == old(log)
        else reply == Reply(true, TextSentMessage) && log == old(log) + [Submitted(data)]
    {
      var textBuffer := encode(text + "\n");
      var cutBuffer := InlineCut;
      var finalBuffer := textBuffer + cutBuffer;
      var error := Submit(finalBuffer);
      if error.Some? {
        reply := Reply(false, error.value);
      } else {
        reply := Reply(true, TextSentMessage);
      }
    }

    /** `forceCut`: the feed-and-cut trailer alone, as one submission. */
    method ForceCut() returns (reply: Reply)
      modifies this
      ensures isPrinting == old(isPrinting) && attempts == old(attempts) + 1
      ensures if old(attempts) in faults then reply == Reply(false, faults[old(attempts)]) && log == old(log)
        else reply == Reply(true, CutSentMessage) && log == old(log) + [Submitted(GetCutCommand())]
    {
      var cutBuffer := InlineCut;
      var error := Submit(cutBuffer);
      if error.Some? {
        reply := Reply(false, error.value);
      } else {
        reply := Reply(true, CutSentMessage);
      }
    }

    /**
     * `printImage`. A second image job while one is in progress is turned
     * away and submits nothing. Otherwise `isPrinting` is held while the
     * decoded image is dithered and sent band by band with the trailer last,
     * and released on every way out; the reply reports the first failure.
     */
    method PrintImage(decoded: Result<Decoded>) returns (reply: Reply)
      requires decoded.Success? ==>
        decoded.value.width * decoded.value.height <= |decoded.value.data| && IsSamples(decoded.value.data)
      modifies this
      ensures old(isPrinting) ==>
        reply == Reply(false, BusyMessage) && isPrinting && log == old(log) && attempts == old(attempts)
      ensures !old(isPrinting) ==> !isPrinting
      ensures !old(isPrinting) && decoded.Failure? ==>
        reply == Reply(false, decoded.error) && log == old(log) && attempts == old(attempts)
      ensures !old(isPrinting) && decoded.Success? ==>
        var img := decoded.value;
        var o := Perform(ImageJob(Dithered(img), img.width, img.height), faults, old(attempts));
        && log == old(log) + o.events && attempts == old(attempts) + o.attempts
        && reply == if o.failure.None? then Reply(true, ImageSentMessage) else Reply(false, o.failure.value)
    {
      if isPrinting {
        return Reply(false, BusyMessage);
      }
      isPrinting := true;
      match decoded {
        case Failure(e) =>
          reply := Reply(false, e);
        case Success(img) =>
          var dithered := ApplyFloydSteinberg(img.data, img.width, img.height);
          ImageJobIsRemaining(dithered[..], img.width, img.height, faults, attempts);
          BandRastersOf(dithered[..], img.width, img.height);
          var error := SendChunked(dithered[..], img.width, img.height, BandRasters(dithered[..], img.width, Bands(img.height)));
          if error.Some? {
            reply := Reply(false, error.value);
          } else {
            reply := Reply(true, ImageSentMessage);
          }
      }
      isPrinting := false;
    }

    /**
     * The chunk loop of `printImage` and the trailer after it: for y = 0,
     * 200, 400, ... below the height, the rows [y, y + min(200, height - y))
     * as a raster command, then a pause; then the trailer. The first failed
     * submission ends it.
     */
    method SendChunked(pixels: seq<int>, width: nat, height: nat, ghost rasters: seq<seq<Byte>>)
        returns (error: Option<string>)
      requires |pixels| == width * height && RastersOf(rasters, pixels, width, height)
      modifies this
      ensures isPrinting == old(isPrinting)
      ensures var o := Remaining(rasters, 0, faults, old(attempts));
        log == old(log) + o.events && attempts == old(attempts) + o.attempts && error == o.failure
    {
      ghost var done;
      error, done := SendBands(pixels, width, height, rasters);
      if error.None? {
        error := SendTrailer();
      }
    }

    /**
     * The `for` loop of `printImage`: for y = 0, 200, 400, ... below the
     * height, band y / 200 and a pause. Either every band went through, and
     * the trailer is what remains of the job, or the first failure ended it.
     */
    method SendBands(pixels: seq<int>, width: nat, height: nat, ghost rasters: seq<seq<Byte>>)
        returns (error: Option<string>, ghost done: seq<Event>)
      requires |pixels| == width * height && RastersOf(rasters, pixels, width, height)
      modifies this
      ensures isPrinting == old(isPrinting) && old(attempts) <= attempts && log == old(log) + done
      ensures var whole := Remaining(rasters, 0, faults, old(attempts));
        && (error.None? ==> Pending(whole, done, Remaining(rasters, |rasters|, faults, attempts), attempts - old(attempts)))
        && (error.Some? ==> done == whole.events && attempts == old(attempts) + whole.attempts && error == whole.failure)
    {
      ghost var whole := Remaining(rasters, 0, faults, attempts);
      ghost var log0 := log;
      ghost var a0 := attempts;
      ghost var i: nat := 0;
      done := [];
      error := None;
      var y: nat := 0;
      RasterCount(rasters, pixels, width, height, 0);
      while y < height
        invariant y == ChunkHeight * i && i <= |rasters|
        invariant y < height <==> i < |rasters|
        invariant log == log0 + done
        invariant isPrinting == old(isPrinting) && a0 <= attempts
        invariant Pending(whole, done, Remaining(rasters, i, faults, attempts), attempts - a0)
        invariant error.None?
        decreases height - y
      {
        error, done := SendTrackedBand(pixels, width, height, y, rasters, i, whole, log0, a0, done);
        if error.Some? {
          return;
        }
        y := y + ChunkHeight;
        i := i + 1;
        RasterCount(rasters, pixels, width, height, i);
      }
    }

    /**
     * SendBand, with the loop's bookkeeping: when band i goes through, what
     * remains of the job starts at band i + 1; when it fails, the job ends
     * with this failure.
     */
    method SendTrackedBand(pixels: seq<int>, width: nat, height: nat, y: nat, ghost rasters: seq<seq<Byte>>, ghost i: nat,
                           ghost whole: Outcome, ghost log0: seq<Event>, ghost a0: nat, ghost done: seq<Event>)
        returns (error: Option<string>, ghost done': seq<Event>)
      requires |pixels| == width * height && RastersOf(rasters, pixels, width, height)
      requires i < |rasters| && y == ChunkHeight * i
      requires log == log0 + done && a0 <= attempts
      requires Pending(whole, done, Remaining(rasters, i, faults, attempts), attempts - a0)
      modifies this
      ensures isPrinting == old(isPrinting) && a0 <= attempts
      ensures error.None? ==>
        log == log0 + done' && Pending(whole, done', Remaining(rasters, i + 1, faults, attempts), attempts - a0)
      ensures error.Some? ==> done' == whole.events && log == log0 + done' && attempts == a0 + whole.attempts && error == whole.failure
    {
      ghost var before := attempts;
      ghost var rest := Remaining(rasters, i, faults, before);
      ghost var sent := [Submitted(rasters[i]), Waited(DelayMs)];
      ghost var next := Remaining(rasters, i + 1, faults, before + 1);
      error := SendBand(pixels, width, height, y, rasters, i);
      if error.None? {
        MoveToDone(whole, done, sent, rest, next, before - a0);
        done' := done + sent;
      } else {
        done' := done;
      }
    }

    /**
     * One pass of the chunk loop, band i at row y: rows [y, y + min(200,
     * height - y)) are sliced out, encoded as a raster command and
     * submitted; when the submission succeeds, the loop pauses.
     */
    method SendBand(pixels: seq<int>, width: nat, height: nat, y: nat, ghost rasters: seq<seq<Byte>>, ghost i: nat)
        returns (error: Option<string>)
      requires |pixels| == width * height && RastersOf(rasters, pixels, width, height)
      requires i < |rasters| && y == ChunkHeight * i
      modifies this
      ensures isPrinting == old(isPrinting) && attempts == old(attempts) + 1
      ensures old(attempts) in faults ==> error == Some(faults[old(attempts)]) && log == old(log)
      ensures old(attempts) !in faults ==> error == None && log == old(log) + [Submitted(rasters[i]), Waited(DelayMs)]
    {
      BandIndex(height, i);
      var currentHeight := Min(ChunkHeight, height - y);
      BandSlice(pixels, width, height, y);
      var chunkPixels := pixels[y * width..(y + currentHeight) * width];
      var rasterData := CreateEscPosRaster(chunkPixels, width, currentHeight);
      error := Submit(rasterData);
      if error.None? {
        Wait(DelayMs);
      }
    }

    /** The trailer after the last band: four feeds and a partial cut, as one submission. */
    method SendTrailer() returns (error: Option<string>)
      modifies this
      ensures isPrinting == old(isPrinting) && attempts == old(attempts) + 1
      ensures old(attempts) in faults ==> error == Some(faults[old(attempts)]) && log == old(log)
      ensures old(attempts) !in faults ==> error == None && log == old(log) + [Submitted(GetCutCommand())]
    {
      var footer := InlineCut;
      InlineCutIsCutCommand();
      error := Submit(footer);
    }
  }

  /**
   * The chunk loop's bookkeeping: the job's outcome is the events done so
   * far, `k` submissions in, followed by the outcome of what remains.
   */
  ghost predicate Pending(whole: Outcome, done: seq<Event>, rest: Outcome, k: nat)
  {
    whole == Outcome(done + rest.events, rest.failure, k + rest.attempts)
  }

  /** The events of a band that went through move from what remains to what is done. */
  lemma MoveToDone(whole: Outcome, done: seq<Event>, sent: seq<Event>, rest: Outcome, next: Outcome, k: nat)
    requires Pending(whole, done, rest, k)
    requires rest == Outcome(sent + next.events, next.failure, 1 + next.attempts)
    ensures Pending(whole, done + sent, next, k + 1)
  {
    assert done + (sent + next.events) == (done + sent) + next.events;
  }

  /** The dithered image `printImage` sends: the grid's width * height pixels after Floyd-Steinberg. */
  function Dithered(img: Decoded): (pixels: seq<int>)
    requires img.width * img.height <= |img.data|
    ensures |pixels| == img.width * img.height
  {
    FloydSteinberg(img.data, img.width, img.height)[..img.width * img.height]
  }

  /** The reply of `getPrinterStatus`: the jobs and the status line, or the error's message. */
  datatype StatusReply = StatusOk(jobs: seq<PrintJob>, status: string) | StatusError(message: string)

  /**
   * `getPrinterStatus`, the second copy of the status parse: the same status
   * line and jobs as `getPrinterStatusFromOS`, without the paused flag, and
   * the bare message on failure.
   */
  function GetPrinterStatus(statusOut: Result<string>, queueOut: Result<string>): (r: StatusReply)
    ensures var os := GetPrinterStatusFromOS(statusOut, queueOut);
      && (r.StatusOk? <==> statusOut.Success? && queueOut.Success?)
      && (r.StatusOk? ==> r.status == os.status && r.jobs == os.jobs)
      && (r.StatusError? ==> os == PrinterStatus("Error: " + r.message, [], false))
  {
    match statusOut
    case Failure(e) => StatusError(e)
    case Success(out) =>
      var status := StatusLine(out);
      match queueOut
      case Failure(e) => StatusError(e)
      case Success(queue) => StatusOk(ParseJobs(queue), status)
  }
}
