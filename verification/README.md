# Thermal receipt printer server, modelled in Dafny

The print server drives a USB thermal printer that speaks ESC/POS. It works
in four parts:

- **Images.** An image is dithered to black and white with Floyd-Steinberg
  error diffusion. The server uses integer weights 7/3/5/1 out of 16 and an
  `Int16Array` working buffer. The result is packed into "GS v 0" raster
  commands of at most 200 rows each. Every band goes to the CUPS spooler
  (`lp -o raw`) as its own job, followed by a 500 ms pause. A
  feed-and-cut trailer goes last: four line feeds, then GS V 66 0.
- **Text.** Text is sent as Shift_JIS, with the same trailer appended.
- **Status.** The printer's status and its queue are read from `lpstat -p`
  and `lpstat -o`.
- **Menu.** A static table holds a month's school lunch menu, looked up by
  day of the month.

## What the model covers

Some modules model one source file each: `Printer`, `DitheringCore`,
`PrintCommands`, `Actions`, `PrinterStatus` and `MenuData`. The others are
shared by several of them:

- `Wrappers`: the `Option` and `Result` types.
- `Grid`: row-major index arithmetic.
- `Bytes`: the bits of a byte.
- `Halftone`: the dither both dithering files are proved against.
- `Raster`, `EscPos`: the raster layout and the ESC/POS byte stream, used by
  `Printer`, `PrintCommands` and `Actions`.

| module | source | form |
|---|---|---|
| `Halftone` | shared specification of the two dithers | functions and lemmas |
| `Printer` | `applyFloydSteinberg`, `createEscPosRaster` | methods over arrays, proved against `Halftone` and `EscPos` |
| `DitheringCore` | `ditherGrayscale` | method over arrays |
| `Raster`, `EscPos` | the raster bit layout and the ESC/POS byte stream | functions, with a parser as the encoder's inverse |
| `PrintCommands` | `getCutCommand` | function |
| `Chunking` | the band structure of `printImage`, and what a job leaves behind when a submission fails | functions and lemmas |
| `Actions` | `printText`, `printImage`, `forceCut`, `getPrinterStatus` | `PrintServer` class |
| `PrinterStatus` | `getPrinterStatusFromOS` and the JavaScript string operations it uses | functions |
| `MenuData` | the menu table and `getMenuForDate` | constant and functions |

### The `PrintServer` class (`Actions`)

The class holds three fields:

- `isPrinting`: the module-level lock.
- `log`: a ghost log of the buffers the spooler accepted and the pauses taken.
- `attempts`: a submission counter.

Writing a buffer to a temporary file and calling `lp` is one *submission*.
Submission number k fails with message `faults[k]` when k is a key of the
constant `faults` map. This map stands in for every I/O error the source can
meet.

`PrintImage` is proved against `Chunking.Perform(ImageJob(...))`:

- `ImageJob` is the list of steps the job takes.
- `Perform` runs those steps against the fault map.
- `Chunking.PerformSpec` proves what that means. The spooler gets exactly the
  buffers before the first failure, and a job that succeeds has delivered
  every band and then the trailer.

### Dithering (`Halftone`)

The dither is specified by `Halftone.FloydSteinberg`, the row-major scan of
`Step`. The methods in `Printer` and `DitheringCore` keep the source's
in-place loops and `Int16Array` store and are proved equal to it.
`Halftone.WorkingValuesFitInt16` shows that the 16-bit store never wraps.

### Arithmetic the code fixes

- **Diffusion share.** The share a neighbour receives is `(error * w) >> 4`,
  an arithmetic shift, which floors for negative errors. `Halftone.Share` is
  floor division by 16.
- **Raster header.** The width in bytes and the height are written as
  `v & 0xff` and `(v >> 8) & 0xff`, so a dimension of 65536 or more wraps
  silently. `EscPos.FieldRoundTrip` and `EscPos.EscPosRasterHeader` state the
  wrap-around.

## Model

| member | source | states |
|---|---|---|
| Grid.Idx | src/utils/printer.ts:18 | the index y * width + x of a pixel inside the grid is below width * height |
| Grid.IdxInjective | src/utils/printer.ts:18 | two pixels of the grid never share an index |
| Grid.CellOf | src/utils/printer.ts:16-18 | every index below width * height is the index of exactly the pixel (i % width, i / width) |
| Grid.NeighbourOffsets | src/utils/printer.ts:35-38 | idx + 1, idx + width - 1, idx + width and idx + width + 1 are the right, below-left, below and below-right pixels whenever the guard of that line holds |
| Halftone.Quantize | src/utils/printer.ts:23 | the value a sample is rounded to is 0 or 255 |
| Halftone.StepEffect | src/utils/printer.ts:18-38 | quantizing (x, y) sets that pixel to its 1-bit value and adds to every other grid pixel the share of the error that its offset is weighted with (7 right, 3 below-left, 5 below, 1 below-right, nothing elsewhere, nothing that would wrap to another row) |
| Halftone.StepKeepsOutside | src/utils/printer.ts:35-38 | a step never touches an index past width * height |
| Halftone.StepKeepsProcessed | src/utils/printer.ts:35-38 | a step never changes a pixel the row-major scan has already passed |
| Halftone.ScanRowKeeps | src/utils/printer.ts:17-39 | the rest of a row's scan leaves every earlier pixel alone |
| Halftone.ScanRowsKeeps | src/utils/printer.ts:16-40 | scanning later rows leaves every pixel of earlier rows alone |
| Halftone.OutputIsThresholdOfAccumulated | src/utils/printer.ts:19-29 | a pixel of the result is black exactly when its accumulated working value was below 128 when the scan reached it, and white exactly when it was at least 128 |
| Halftone.BinaryImageIsFixedPoint | src/utils/printer.ts:10-42 | an image of only 0 and 255 is returned unchanged |
| Halftone.DitherIsIdempotent | src/utils/printer.ts:10-42 | dithering an already dithered image changes nothing |
| Halftone.ReceivedWeight | src/utils/printer.ts:35-38 | the weights a pixel receives from its already scanned neighbours total at most 16 |
| Halftone.StepKeepsBounded | src/utils/printer.ts:28-38 | one step keeps the scan invariant: quantized pixels are 0 or 255, and every pending pixel is within 8 per unit of received weight of its input |
| Halftone.ScanRowsBounded | src/utils/printer.ts:16-40 | the scan invariant holds at the start of every row |
| Halftone.WorkingValuesFitInt16 | src/utils/printer.ts:13 | at every point of the scan each working value lies in [-128, 383], so the Int16Array never wraps |
| Halftone.DitheredIsBinary | src/utils/printer.ts:14-29 | the result has one entry per input sample, its grid entries are 0 or 255, and entries past the grid keep their input value |
| Halftone.ToInt16 | src/utils/printer.ts:13 | a value stored in an Int16Array reads back in the 16-bit range, and unchanged when it already fits |
| Halftone.InPlaceStepIsStep | src/utils/printer.ts:28-38 | the loop body's in-place `=` and four guarded `+=` on the Int16 buffer compute exactly the step when nothing overflows |
| Halftone.StepFitsInt16 | src/utils/printer.ts:35-38 | every step of the scan stays inside the Int16 range |
| Halftone.OutputMatchesStep | src/utils/printer.ts:29 | writing a pixel's 1-bit value to the output keeps the output equal to the working buffer on every scanned pixel and 0 elsewhere |
| Halftone.OutputMatchesEnd | src/utils/printer.ts:14-41 | once the scan is over, the output's grid is the working buffer's grid |
| Halftone.ScanAdvances | src/utils/printer.ts:17-39 | one iteration of the inner loop moves the working buffer and the output from pixel (x, y) to the next pixel of the scan |
| Printer.QuantizeAndDiffuse | src/utils/printer.ts:18-38 | returns the pixel's 1-bit value and leaves the working buffer as the in-place loop body does |
| Printer.AddShareAt | src/utils/printer.ts:35-38 | a guarded `+= (error * w) >> 4` on an Int16 cell, and nothing else changes |
| Printer.DitherRow | src/utils/printer.ts:17-39 | scanning row y moves the working buffer from the state before row y to the state before row y + 1, and the output stays equal to it on every scanned pixel |
| Printer.ApplyFloydSteinberg | src/utils/printer.ts:10-42 | returns a fresh buffer holding the width * height pixels of the Floyd-Steinberg scan of the input |
| Printer.PackPixelAt | src/utils/printer.ts:69-73 | when the pixel is 0, bit 7 - x % 8 of byte y * widthBytes + x / 8 is set and nothing else changes; otherwise nothing changes |
| Printer.PackRow | src/utils/printer.ts:66-75 | packing row y extends the packed prefix from rows 0..y-1 to rows 0..y |
| Printer.CreateEscPosRaster | src/utils/printer.ts:52-78 | returns exactly the GS v 0 command for the image: the header, then the packed raster data |
| DitheringCore.CopyToScratch | src/utils/ditheringCore.ts:15-18 | the scratch buffer is fresh and holds the input element by element |
| DitheringCore.DitheredBuffer | src/utils/ditheringCore.ts:20 | the output is as long as the input |
| DitheringCore.DitherGrayscale | src/utils/ditheringCore.ts:10-57 | returns a fresh buffer holding the dithered grid followed by zeros, and leaves the input unchanged |
| DitheringCore.CopiesAgree | src/utils/ditheringCore.ts:10-57 | the outputs promised by the contracts of ditherGrayscale and applyFloydSteinberg hold the same pixels on the grid; ditherGrayscale's entries past the grid are 0; on an input that is exactly the grid the two outputs are equal |
| Bytes.ShiftIsBitMask | src/utils/printer.ts:71-72 | `1 << bitIndex` is the mask of pixel 7 - bitIndex, leftmost pixel in the most significant bit |
| Bytes.HasBitOr | src/utils/printer.ts:72 | a bit is set in `a \| b` exactly when it is set in a or in b |
| Bytes.HasBitMask | src/utils/printer.ts:71-72 | the mask of pixel j sets bit j and no other |
| Raster.WidthBytes | src/utils/printer.ts:54 | bytes per row is ceil(width / 8): 8 times it covers the width, with less than 8 to spare |
| Raster.RasterBodyAt | src/utils/printer.ts:70 | byte b of row y lives at y * widthBytes + b |
| Raster.RasterPixelBit | src/utils/printer.ts:69-72 | the bit of pixel (x, y) in the raster data is set exactly when the pixel is 0 |
| Raster.UnpackRasterBody | src/utils/printer.ts:61-75 | a 0/255 image is recovered exactly from its raster data |
| Raster.PartialBytePadding | src/utils/printer.ts:62-66 | the padding bits past the right edge of a row stay 0 |
| Raster.PackPixelStep | src/utils/printer.ts:69-73 | packing pixel (x, y) extends the packed prefix by one pixel |
| Raster.PackedUpToEnd | src/utils/printer.ts:65-75 | once every row is packed, the buffer is the raster data |
| EscPos.Field | src/utils/printer.ts:57-58 | a 16-bit field reads below 65536 |
| EscPos.FieldRoundTrip | src/utils/printer.ts:57-58 | `v & 0xff`, `(v >> 8) & 0xff` read back as v modulo 65536: large dimensions wrap silently |
| EscPos.FieldFits | src/utils/printer.ts:57-58 | a dimension below 65536 reads back unchanged |
| EscPos.FieldBytes | src/utils/printer.ts:57-58 | the two bytes of a field are recovered from the value they read as |
| EscPos.Encode | src/utils/printer.ts:55-59 | a line feed is 1 byte, GS V is 4, and a raster command is 8 header bytes plus its data |
| EscPos.ParseOne | src/utils/printer.ts:55-59 | what the parser reads is well-formed and occupies a non-empty prefix of the bytes |
| EscPos.ParseOneEncode | src/utils/printer.ts:55-59 | a well-formed command is read back from its bytes, whatever follows them |
| EscPos.ParseEncodeAll | src/utils/printer.ts:77 | every sequence of well-formed commands is read back from its bytes |
| EscPos.EncodeParse | src/utils/printer.ts:77 | whatever the parser reads is exactly what encoding its result writes back |
| EscPos.EscPosRaster | src/utils/printer.ts:52-78 | the command is 8 + ceil(width / 8) * height bytes long |
| EscPos.EscPosRasterHeader | src/utils/printer.ts:55-59 | the command starts GS v 0 with mode 0, then ceil(width / 8) and the height as little-endian fields, each modulo 65536 |
| EscPos.EscPosRasterParses | src/utils/printer.ts:52-78 | when the dimensions fit 16 bits, a printer reads exactly the image's raster command, and nothing more |
| PrintCommands.CutTrailer | src/utils/printCommands.ts:6-10 | the trailer is five well-formed commands |
| PrintCommands.GetCutCommand | src/utils/printCommands.ts:5-11 | eight bytes: four LF, then 1D 56 42 00 |
| PrintCommands.CutCommandIsTrailer | src/utils/printCommands.ts:5-11 | the bytes encode four line feeds and a partial cut, and a printer reads them back as exactly those |
| Chunking.BandsShape | src/actions/index.ts:101-102 | an image is sent in ceil(height / 200) bands; band i starts at row 200 i; every band but the last has 200 rows and the last has 1 to 200 |
| Chunking.BandsFromShape | src/actions/index.ts:101-102 | the loop from row `start` produces ceil((height - start) / 200) bands, band i at start + 200 i, min(200, rest) rows high |
| Chunking.RowInOneBand | src/actions/index.ts:101-108 | every row lies in exactly one band, band row / 200 |
| Chunking.ThousandRows | src/actions/index.ts:96-102 | a 1000-row image goes out as five bands of 200 rows |
| Chunking.Slice | src/actions/index.ts:108 | `slice` takes exactly the range when it is inside the buffer, and never more than the buffer |
| Chunking.ConcatBandsFrom | src/actions/index.ts:101-108 | the bands' pixels from row `start` on, concatenated, are the image from row `start` on |
| Chunking.BandsCoverImage | src/actions/index.ts:101-108 | concatenating the band slices in order gives the whole image back: no row lost, none repeated |
| Chunking.BandSteps | src/actions/index.ts:101-122 | the plan has two steps per band |
| Chunking.BandStepsAt | src/actions/index.ts:111-121 | step 2k submits band k's raster command and step 2k + 1 is the 500 ms pause after it |
| Chunking.EventsOf | src/actions/index.ts:117-121 | a job that runs to the end leaves one event per step |
| Chunking.SendsAppend | src/actions/index.ts:101-132 | the submissions of two job parts run one after the other are those of the first, then those of the second |
| Chunking.BandSends | src/actions/index.ts:106-118 | the band steps submit one buffer per band, band i's raster command in place i |
| Chunking.ImageJobSubmissions | src/actions/index.ts:101-132 | printImage submits one raster per band, top to bottom, then exactly one feed-and-cut trailer, last |
| Chunking.PerformSpec | src/actions/index.ts:117-137 | a job succeeds exactly when none of its submissions fails, and then every step happened in order; when one fails, the spooler holds exactly the buffers before it, and the error is that submission's |
| Chunking.ImageJobOutcome | src/actions/index.ts:101-137 | after a successful image job the spooler holds every band and the trailer last; after a failure it holds a proper prefix, so the trailer never went out |
| Chunking.PerformSendPause | src/actions/index.ts:117-121 | how a job that starts with a submission and a pause begins, for a failing and for a succeeding submission |
| Chunking.PerformLastSend | src/actions/index.ts:130-132 | the trailer alone is one submission that fails or is accepted |
| Chunking.BandRasters | src/actions/index.ts:111 | there is one raster command per band |
| Chunking.BandRasterAt | src/actions/index.ts:111 | entry i of the raster list is band i's raster command |
| Chunking.BandRastersOf | src/actions/index.ts:101-111 | the raster list holds each band's raster command, in order |
| Chunking.RemainingIsPerform | src/actions/index.ts:101-132 | the chunk loop from band i on, followed by the trailer, runs exactly the job's steps for the bands from i on |
| Chunking.ImageJobIsRemaining | src/actions/index.ts:101-132 | the whole image job is the chunk loop over every band's raster |
| Chunking.BandIndex | src/actions/index.ts:101-102 | y = 200 i is below the height exactly when there is a band i, and that band starts at row y with min(200, height - y) rows |
| Chunking.RasterCount | src/actions/index.ts:101 | the loop condition y < height holds exactly while a raster is left |
| Chunking.BandSlice | src/actions/index.ts:106-108 | the slice from y * width to (y + currentHeight) * width lies inside the image and is exactly the band's pixels |
| Actions.InlineCutIsCutCommand | src/actions/index.ts:125-128 | the trailer written inline by printText, printImage and forceCut is the buffer getCutCommand returns, and a printer reads it as four feeds and a cut |
| Actions.PrintServer.constructor | src/actions/index.ts:12 | the server starts not printing, with an empty spooler log and no submissions |
| Actions.PrintServer.Submit | src/actions/index.ts:117-118 | a submission either fails with its scripted error and leaves the log alone, or appends the buffer to the log; the counter goes up by one |
| Actions.PrintServer.Wait | src/actions/index.ts:14 | a pause is logged and nothing else changes |
| Actions.PrintServer.PrintText | src/actions/index.ts:22-54 | one submission of the Shift_JIS text plus a line feed followed by the trailer; success reply on acceptance, the error's message otherwise; the lock is untouched |
| Actions.PrintServer.ForceCut | src/actions/index.ts:217-239 | one submission of the trailer alone, with the matching reply |
| Actions.PrintServer.PrintImage | src/actions/index.ts:59-142 | a busy server replies busy and submits nothing; a decode failure replies with its message and submits nothing; otherwise the log and counter grow by exactly the outcome of the image job on the dithered pixels, the reply is success or the first failure, and the lock is released on every path |
| Actions.PrintServer.SendChunked | src/actions/index.ts:101-132 | the chunk loop and the trailer together produce exactly the outcome of the job over the band rasters |
| Actions.PrintServer.SendBands | src/actions/index.ts:101-122 | either every band went through and only the trailer remains, or the first failure ended the job with that failure's outcome |
| Actions.PrintServer.SendTrackedBand | src/actions/index.ts:102-121 | after band i, what remains of the job starts at band i + 1, or the job has ended with this band's failure |
| Actions.PrintServer.SendBand | src/actions/index.ts:102-121 | band i's raster is submitted, and the loop pauses 500 ms only when the submission succeeded |
| Actions.PrintServer.SendTrailer | src/actions/index.ts:124-132 | the trailer is one submission after the last band |
| Actions.MoveToDone | src/actions/index.ts:101-122 | a band that went through moves from what remains of the job to what is done, keeping the loop's bookkeeping |
| Actions.Dithered | src/actions/index.ts:93 | the dithered pixels are exactly width * height |
| Actions.GetPrinterStatus | src/actions/index.ts:145-176 | the second copy of the status parse succeeds exactly when both lpstat calls do, and returns the same status line and jobs as getPrinterStatusFromOS; on failure it returns the message that function prefixes with "Error: " |
| PrinterStatus.JoinNonEmpty | src/utils/printerStatus.ts:43 | a join whose first part is non-empty is non-empty |
| PrinterStatus.Split | src/utils/printerStatus.ts:25 | `split('\n')` yields at least one piece, and no piece contains the separator |
| PrinterStatus.JoinSplit | src/utils/printerStatus.ts:32 | joining the pieces of a split with the separator gives the string back |
| PrinterStatus.SkipSpaces | src/utils/printerStatus.ts:35 | removes exactly the leading whitespace run |
| PrinterStatus.SplitSpaces | src/utils/printerStatus.ts:35 | `split(/\s+/)` yields at least one token, no token holds whitespace, and only the first and last can be empty |
| PrinterStatus.JoinSplitSpaces | src/utils/printerStatus.ts:35-43 | the tokens joined by single spaces are the line with each whitespace run collapsed to one space |
| PrinterStatus.Trim | src/utils/printerStatus.ts:33 | the trimmed line is non-empty exactly when the line holds a non-whitespace character |
| PrinterStatus.ToLower | src/utils/printerStatus.ts:28 | the result is as long as the input, holds no upper-case ASCII letter, and keeps every other character |
| PrinterStatus.Includes | src/utils/printerStatus.ts:28 | `includes` holds exactly when the text occurs at some index |
| PrinterStatus.StatusLine | src/utils/printerStatus.ts:25 | the status is "Unknown" when the first line is empty, and otherwise is exactly the text before the first line feed |
| PrinterStatus.FirstPiece | src/utils/printerStatus.ts:25 | the first piece of a split is the text up to the first separator |
| PrinterStatus.ParseJob | src/utils/printerStatus.ts:34-45 | id and name are the first token, file and size are fixed, the user is the second token when there is one, and the time is the tokens from the fourth on joined by spaces, or "Just now" when that is empty |
| PrinterStatus.LeadingSpaceGivesEmptyId | src/utils/printerStatus.ts:35-40 | a line starting with whitespace gives an empty job id and name |
| PrinterStatus.SplitSpacesOfWord | src/utils/printerStatus.ts:35 | a word without whitespace is one token |
| PrinterStatus.SplitSpacesOfWordSpace | src/utils/printerStatus.ts:35 | a word, one space and more text give the word as first token, followed by the text's tokens |
| PrinterStatus.TypicalJobLine | src/utils/printerStatus.ts:36-45 | a line "id user size day date" reads as that id, that user and the time "day date" |
| PrinterStatus.ShortJobLines | src/utils/printerStatus.ts:43-44 | a three-token line has the time "Just now", and a one-token line has no user |
| PrinterStatus.NonBlank | src/utils/printerStatus.ts:33 | the filter keeps exactly the lines that are not blank after trimming, and adds none |
| PrinterStatus.NonBlankAppend | src/utils/printerStatus.ts:32-33 | the filter keeps the lines' order: it distributes over concatenation |
| PrinterStatus.ParseJobs | src/utils/printerStatus.ts:32-46 | one job per non-blank line of `lpstat -o`, in line order |
| PrinterStatus.GetPrinterStatusFromOS | src/utils/printerStatus.ts:21-57 | either lpstat failing gives "Error: " and the message, no jobs and not paused; otherwise the status line, the paused heuristic on it, and the parsed jobs |
| MenuData.FindDay | src/data/menu-data.ts:42 | `find` returns an entry for the day exactly when the table has one, and then the first such entry in table order |
| MenuData.GetMenuForDate | src/data/menu-data.ts:40-43 | a found menu is a table entry for the date's day of the month |
| MenuData.AdjacentDaysFirstHalf | src/data/menu-data.ts:9-21 | the table has 23 entries, and in the first half each entry's day is below the next one's |
| MenuData.AdjacentDaysSecondHalf | src/data/menu-data.ts:21-34 | in the second half each entry's day is below the next one's |
| MenuData.EveryEntryListed | src/data/menu-data.ts:9-34 | every entry's day is one of the listed school days |
| MenuData.EarlyMenuDaysHaveEntries | src/data/menu-data.ts:9-22 | every listed day up to the 14th has an entry |
| MenuData.LateMenuDaysHaveEntries | src/data/menu-data.ts:22-34 | every listed day after the 14th has an entry |
| MenuData.DaysIncreasing | src/data/menu-data.ts:9-34 | the table's days strictly increase in table order |
| MenuData.DaysUnique | src/data/menu-data.ts:9-34 | no two entries share a day, so at most one entry matches a date |
| MenuData.TableDays | src/data/menu-data.ts:9-34 | the table has an entry for exactly the listed days |
| MenuData.DaysWithoutEntry | src/data/menu-data.ts:9-34 | the days of the month without an entry are the 1st, 8th, 11th, 15th, 22nd, 23rd, 30th and 31st |
| MenuData.MenuFoundOnListedDays | src/data/menu-data.ts:40-43 | getMenuForDate finds a menu exactly on the listed days, and returns undefined on the eight days without an entry |
| MenuData.MonthAndYearIgnored | src/data/menu-data.ts:41 | only the day of the month is consulted: dates with the same day get the same answer |

## Left out

- The browser dither in src/utils/ditheringClient.ts is not part of this model. It uses floating point and browser canvas APIs.
- Image decoding is not modelled: sharp's decode, the data-URL and base64 stripping, resizing to the printer width, and grayscale conversion. `PrintImage` receives either a decoded grayscale image of `width * height` samples or the decoder's error message.
- Shift_JIS encoding is the `encode` parameter of the server. iconv-lite is not modelled.
- Temporary files and `lp` are one submission each, with failures scripted by the `faults` map. Not modelled: the file names and paths, `Date.now()`, `os.tmpdir()`, stdout and stderr, and the `path` field of printText's reply.
- Console logging and the `toFixed` chunk count in the log message are left out.
- Concurrency is not modelled. Each action runs to completion before the next starts. The source reads and sets `isPrinting` without an await in between, so two image requests cannot both pass the check.
- Not part of this model: cancelJob, clearQueue and enablePrinter. They only call `cancel` and `cupsenable` and return their output.
- Not part of this model: src/actions/printer.ts, src/actions/queue.ts, scripts/, the pages and the React components.
- Printer.ApplyFloydSteinberg: requires `width * height <= |input|` and 8-bit samples. The caller always passes a decoded buffer of exactly that size. JavaScript reads and writes past the end of a typed array are not modelled.
- DitheringCore.DitherGrayscale: requires `width * height <= pixels.length` and 8-bit samples. Nothing in the repository calls `ditherGrayscale`, so no caller guarantees this. A shorter buffer is excluded, not modelled. In JavaScript it would give back the dithered prefix: out-of-range reads are `undefined`, the resulting NaN errors become 0 through `>>`, and out-of-range writes are dropped.
- Actions.PrintServer.PrintImage: requires a successfully decoded image to hold `width * height` 8-bit samples. The decoder guarantees this for a grayscale raw buffer.
- PrinterStatus.ToLower: maps only A to Z. Unicode case mapping is not modelled. The only use is the search for "paused" and "disabled", and only ASCII letters can lower-case to those.
- `1 << bitIndex` in the packing loop is written as the table `Bytes.BitMask(x % 8)`. `Bytes.ShiftIsBitMask` proves it is the same byte.
- Both dithers keep the source's loops and statements, but the model splits each into smaller methods:
  - the row loop: `Printer.DitherRow`;
  - the pixel body: `Printer.QuantizeAndDiffuse`;
  - the guarded `+=`: `Printer.AddShareAt`.
- The packing loop is split the same way, into `Printer.PackRow` and `Printer.PackPixelAt`.
- The chunk loop of printImage is split into `SendBands`, `SendTrackedBand` and `SendBand`, and the trailer into `SendTrailer`. They run the same statements in the same order.
- The working buffer and the output are separate arrays. Aliasing between the caller's buffer and them is not modelled, and the source never creates any.
