/** The raster job: scanlines in, a page buffer, and the page printed copy by copy. */
module Jobs {
  import opened Wrappers
  import opened Bytes
  import opened Halftone
  import opened Dithering
  import opened Bitmap
  import opened Buffers
  import Compress
  import Protocol
  import Printing
  import Transports
  import opened PagePipeline

  /** Speed from the mean compressed size of a print buffer. */
  function CalcSpeed(avg: nat): U16 {
    if avg > 3000 then 10 else if avg > 2800 then 15 else if avg > 2500 then 20 else if avg > 2000 then 25
    else if avg > 1500 then 40 else if avg > 1000 then 45 else if avg > 500 then 55 else 60
  }

  /** The larger the buffers, the slower. */
  lemma SpeedFalls(a: nat, b: nat)
    requires a <= b
    ensures 10 <= CalcSpeed(b) <= CalcSpeed(a) <= 60
  {
  }

  /** Where each step ends and the next begins. */
  lemma SpeedSteps()
    ensures CalcSpeed(500) == 60 && CalcSpeed(501) == CalcSpeed(1000) == 55 && CalcSpeed(1001) == CalcSpeed(1500) == 45
    ensures CalcSpeed(1501) == CalcSpeed(2000) == 40 && CalcSpeed(2001) == CalcSpeed(2500) == 25
    ensures CalcSpeed(2501) == CalcSpeed(2800) == 20 && CalcSpeed(2801) == CalcSpeed(3000) == 15 && CalcSpeed(3001) == 10
  {
  }

  // ---- Flattening a scanline to grey -----------------------------------------------------------

  /** Rec. 709 weights, truncated: the grey is the whole part of the weighted mean. */
  function Grey(r: Byte, g: Byte, b: Byte): (grey: Byte)
    ensures 10000 * grey <= 2126 * r + 7152 * g + 722 * b < 10000 * (grey + 1)
  {
    (r * 2126 + g * 7152 + b * 722) / 10000
  }

  /** A contone scanline as exactly `width` grey bytes, a short line padded white; none for other depths. */
  function ToGrayLine(bitsPerPixel: nat, line: seq<Byte>, width: nat): (r: Option<seq<Byte>>)
    ensures r.Some? <==> bitsPerPixel == 8 || bitsPerPixel == 24
    ensures r.Some? ==> |r.value| == width
    ensures r.Some? ==> forall x :: 0 <= x < width ==> IsGreyOf(bitsPerPixel / 8, line, x, r.value[x])
  {
    if bitsPerPixel == 8 then
      Some(if |line| >= width then line[..width] else line + seq(width - |line|, _ => 255))
    else if bitsPerPixel == 24 then
      Some(seq(width, x requires 0 <= x < width =>
        if 3 * x + 3 <= |line| then Grey(line[3 * x], line[3 * x + 1], line[3 * x + 2]) else 255))
    else None
  }

  /** `grey` is pixel `x` of a line of `step` bytes per pixel, white if the line does not reach that far. */
  predicate IsGreyOf(step: nat, line: seq<Byte>, x: nat, grey: Byte) {
    if step * x + step > |line| then grey == 255
    else if step == 1 then grey == line[x]
    else step == 3 && 10000 * grey <= 2126 * line[3 * x] + 7152 * line[3 * x + 1] + 722 * line[3 * x + 2] < 10000 * (grey + 1)
  }

  /** Paper stays paper: white pixels, and pixels a truncated scanline lacks, come out white; black comes out black. */
  lemma GrayKeepsExtremes(bitsPerPixel: nat, line: seq<Byte>, width: nat, x: nat)
    requires (bitsPerPixel == 8 || bitsPerPixel == 24) && x < width
    ensures var step := bitsPerPixel / 8;
            var grey := ToGrayLine(bitsPerPixel, line, width).value[x];
            && (step * x + step > |line| ==> grey == 255)
            && (step * x + step <= |line| && (forall i :: step * x <= i < step * x + step ==> line[i] == 255) ==> grey == 255)
            && (step * x + step <= |line| && (forall i :: step * x <= i < step * x + step ==> line[i] == 0) ==> grey == 0)
  {
  }

  // ---- The page buffer -----------------------------------------------------------------------

  datatype LineError = OutOfBounds | UnsupportedDepth

  datatype JobError = CompressionFailed | PrintFailed(cause: Printing.Error)

  /** Only row `y` may differ between two page buffers. */
  ghost predicate SameBut(before: seq<Byte>, after: seq<Byte>, stride: nat, y: nat) {
    && |after| == |before|
    && forall r: nat, x: nat :: r != y ==> (RowDot(after, stride, r, x) <==> RowDot(before, stride, r, x))
  }

  /** A page as it stands: its dots, its size, the head it goes under and its density. */
  datatype Page = Page(raster: seq<Byte>, width: nat, height: nat, head: nat, density: Byte) {
    predicate Printable() {
      height < 65536 && 0 < head / 8 < 256
    }
  }

  /** What the firmware decodes from `blocks` is the page. */
  ghost predicate Prints(codec: Compress.Codec, blocks: seq<seq<Byte>>, p: Page) {
    PrintsPage(codec, blocks, p.raster, p.width, p.height, p.head, Density(p.density, p.density))
  }

  /** The speed a page's blocks print at: 20 when there are several, else set by their bytes per buffer. */
  function JobSpeed(blocks: seq<seq<Byte>>, p: Page): U16
    requires p.Printable()
  {
    if |blocks| >= 2 then 20 else CalcSpeed(MeanSize(blocks, p.height, p.head / 8))
  }

  /** A safe run that prints the page from `blocks`. */
  ghost predicate CopyRun(codec: Compress.Codec, run: seq<Protocol.Event>, blocks: seq<seq<Byte>>, p: Page)
    requires p.Printable()
  {
    && Protocol.Safe(run, blocks, JobSpeed(blocks, p))
    && (forall i :: 0 <= i < |run| && run[i].op.BufFull? ==> run[i].op.speed == JobSpeed(blocks, p))
    && (Compress.Lossless(codec) ==> Prints(codec, blocks, p))
    && (Compress.Compact(codec) ==> Short(blocks))
  }

  /** One copy: a completed run. */
  ghost predicate CopyPrinted(codec: Compress.Codec, run: seq<Protocol.Event>, p: Page)
    requires p.Printable()
  {
    Protocol.Completed(run, Protocol.Sent(run)) && CopyRun(codec, run, Protocol.Sent(run), p)
  }

  /** A run for the page that failed, with its cause on the wire. */
  ghost predicate CopyFailed(codec: Compress.Codec, cause: Printing.Error, run: seq<Protocol.Event>, p: Page)
    requires p.Printable()
  {
    exists blocks :: CopyRun(codec, run, blocks, p) && Printing.Failed(cause, run, blocks) && Protocol.Sent(run) <= blocks
  }

  /** A refusal is followed by one more status poll; nothing else is. */
  predicate Aftermath(cause: Printing.Error, after: seq<Protocol.Event>) {
    if cause.InvalidResponse? then |after| == 1 && after[0].op.InquirySta? else after == []
  }

  /** `log` has grown by one printed copy after the other. */
  ghost predicate CopiesPrinted(codec: Compress.Codec, before: seq<Protocol.Event>, runs: seq<seq<Protocol.Event>>,
      log: seq<Protocol.Event>, p: Page)
    requires p.Printable()
  {
    && log == before + Join(runs)
    && forall i :: 0 <= i < |runs| ==> CopyPrinted(codec, runs[i], p)
  }

  lemma OneMoreCopy(codec: Compress.Codec, before: seq<Protocol.Event>, runs: seq<seq<Protocol.Event>>, run: seq<Protocol.Event>,
      log: seq<Protocol.Event>, p: Page)
    requires p.Printable() && CopiesPrinted(codec, before, runs, log, p) && CopyPrinted(codec, run, p)
    ensures CopiesPrinted(codec, before, runs + [run], log + run, p)
  {
    JoinNext(before, runs, run);
  }

  lemma JoinNext<T>(before: seq<T>, runs: seq<seq<T>>, run: seq<T>)
    ensures before + Join(runs + [run]) == before + Join(runs) + run
  {
    assert (runs + [run])[..|runs|] == runs;
    assert before + Join(runs) + run == before + (Join(runs) + run);
  }

  /**
   From the wire to paper: what the device puts together from the commands and the frames or reports
   of a printed copy, cut to the lengths it was told, decodes to exactly the page.
   */
  lemma CopyReachesPaper(codec: Compress.Codec, run: seq<Protocol.Event>, p: Page, transfers: seq<Transports.Transfer>)
    requires p.Printable() && CopyPrinted(codec, run, p) && Compress.Lossless(codec) && Compress.Compact(codec)
    requires Transports.TransfersOf(run, JobSpeed(Protocol.Sent(run), p), transfers)
    ensures forall k :: 0 <= k < |transfers| ==> transfers[k].WellFormed()
    ensures Prints(codec, Transports.HeardBlocks(transfers), p)
  {
    PageFromTheWire(codec, run, JobSpeed(Protocol.Sent(run), p), transfers,
                    p.raster, p.width, p.height, p.head, Density(p.density, p.density));
  }

  class KsJob {
    const width: nat
    const height: nat
    const bytesPerLine: nat
    const rasterData: array<Byte>
    const density: Byte
    const head: nat
    const ditherer: Ditherer
    var linesReceived: nat

    ghost predicate Valid()
      reads this, rasterData, ditherer, ditherer.err
    {
      && bytesPerLine == BytesFor(width) && rasterData.Length == height * bytesPerLine
      && ditherer.Valid() && ditherer.width == width
    }

    ghost function ThePage(): Page
      reads rasterData
    {
      Page(rasterData[..], width, height, head, density)
    }

    /** Allocate a blank page, tightly packed at 1 bpp whatever the source depth. */
    constructor (w: nat, h: nat, density: Byte, head: nat, mode: DitherMode)
      ensures Valid() && fresh(rasterData) && fresh(ditherer) && fresh(ditherer.err)
      ensures width == w && height == h && this.density == density && this.head == head
      ensures linesReceived == 0 && ditherer.mode == mode && ditherer.fed == []
      ensures forall i :: 0 <= i < rasterData.Length ==> rasterData[i] == 0
    {
      width, height, bytesPerLine := w, h, BytesFor(w);
      rasterData := new Byte[h * BytesFor(w)](_ => 0);
      this.density, this.head, linesReceived := density, head, 0;
      ditherer := new Ditherer(mode, w);
    }

    /** Overwrite the first `n` bytes of row `y`. */
    method PasteRow(y: nat, line: seq<Byte>, n: nat)
      requires Valid() && y < height && n <= |line| && n <= bytesPerLine
      modifies rasterData
      ensures y * bytesPerLine + bytesPerLine <= rasterData.Length
      ensures forall i :: 0 <= i < rasterData.Length ==>
                rasterData[i] == if y * bytesPerLine <= i < y * bytesPerLine + n then line[i - y * bytesPerLine] else old(rasterData[i])
    {
      var offset := y * bytesPerLine;
      MulMono(y + 1, height, bytesPerLine);
      assert (y + 1) * bytesPerLine == offset + bytesPerLine;
      forall i | 0 <= i < n { rasterData[offset + i] := line[i]; }
    }

    /** Copy one packed line into row `y`, dropping whatever the source padded it with. */
    method AppendLine(y: nat, line: seq<Byte>) returns (ok: bool)
      requires Valid()
      modifies this`linesReceived, rasterData
      ensures Valid()
      ensures ok <==> y < height
      ensures !ok ==> rasterData[..] == old(rasterData[..]) && linesReceived == old(linesReceived)
      ensures ok ==> linesReceived == old(linesReceived) + 1 && SameBut(old(rasterData[..]), rasterData[..], bytesPerLine, y)
      ensures ok ==> forall x: nat :: x < bytesPerLine * 8 ==>
                (RowDot(rasterData[..], bytesPerLine, y, x) <==>
                 if x / 8 < |line| then MsbDot(line, x) else RowDot(old(rasterData[..]), bytesPerLine, y, x))
    {
      if y >= height {
        return false;
      }
      var n := if |line| < bytesPerLine then |line| else bytesPerLine;
      PasteRow(y, line, n);
      linesReceived := linesReceived + 1;
      RowPasted(old(rasterData[..]), rasterData[..], bytesPerLine, y, line, n);
      return true;
    }

    /** Halftone one grey line and store it. */
    method StoreContone(y: nat, grey: seq<Byte>) returns (ok: bool)
      requires Valid() && |grey| == width
      modifies this`linesReceived, rasterData, ditherer, ditherer.err
      ensures Valid()
      ensures ditherer.fed == if ditherer.mode.Bayer? then old(ditherer.fed) else old(ditherer.fed) + [grey]
      ensures ok <==> y < height
      ensures !ok ==> rasterData[..] == old(rasterData[..])
      ensures ok ==> SameBut(old(rasterData[..]), rasterData[..], bytesPerLine, y)
      ensures ok ==> forall x: nat :: x < width ==>
                (RowDot(rasterData[..], bytesPerLine, y, x) <==>
                 if ditherer.mode.Bayer? then BayerInk(grey[width - 1 - x], y, x)
                 else Inked(ditherer.Page(), old(ditherer.fed) + [grey], |old(ditherer.fed)|, width - 1 - x))
    {
      var mono: array<Byte> := new Byte[bytesPerLine](_ => 0);
      forall d: nat ensures !MsbDot(mono[..], d) { ZeroBits(7 - d % 8); }
      ditherer.Line(grey, y, mono);
      ok := AppendLine(y, mono[..]);
    }

    /** Take one scanline of the page: contone is halftoned first, 1 bpp is stored as it is. */
    method WriteLine(bitsPerPixel: nat, y: nat, line: seq<Byte>) returns (error: Option<LineError>)
      requires Valid()
      modifies this`linesReceived, rasterData, ditherer, ditherer.err
      ensures Valid()
      ensures error == Some(UnsupportedDepth) <==> bitsPerPixel !in {1, 8, 24}
      ensures error == Some(OutOfBounds) <==> bitsPerPixel in {1, 8, 24} && y >= height
      ensures error.Some? ==> rasterData[..] == old(rasterData[..])
      ensures bitsPerPixel !in {8, 24} || ditherer.mode.Bayer? ==> ditherer.fed == old(ditherer.fed)
      ensures bitsPerPixel in {8, 24} && !ditherer.mode.Bayer? ==>
                ditherer.fed == old(ditherer.fed) + [ToGrayLine(bitsPerPixel, line, width).value]
      ensures error.None? ==> SameBut(old(rasterData[..]), rasterData[..], bytesPerLine, y)
      ensures error.None? && bitsPerPixel == 1 ==> forall x: nat :: x < width ==>
                (RowDot(rasterData[..], bytesPerLine, y, x) <==>
                 if x / 8 < |line| then MsbDot(line, x) else RowDot(old(rasterData[..]), bytesPerLine, y, x))
      ensures error.None? && bitsPerPixel != 1 ==>
                var grey := ToGrayLine(bitsPerPixel, line, width).value;
                forall x: nat :: x < width ==>
                  (RowDot(rasterData[..], bytesPerLine, y, x) <==>
                   if ditherer.mode.Bayer? then BayerInk(grey[width - 1 - x], y, x)
                   else Inked(ditherer.Page(), old(ditherer.fed) + [grey], |old(ditherer.fed)|, width - 1 - x))
    {
      var ok;
      var input := ToGrayLine(bitsPerPixel, line, width);
      if input.Some? {
        ok := StoreContone(y, input.value);
      } else if bitsPerPixel != 1 {
        return Some(UnsupportedDepth);
      } else {
        ok := AppendLine(y, line);
      }
      return if ok then None else Some(OutOfBounds);
    }

    /** Build the page's blocks and print them; after a refused print ask the printer once more why. */
    method TransferPage(codec: Compress.Codec, printer: Printing.Printer)
        returns (error: Option<JobError>, ghost run: seq<Protocol.Event>, ghost after: seq<Protocol.Event>)
      requires Valid() && printer.Valid() && ThePage().Printable()
      modifies printer
      ensures printer.Valid() && printer.log == old(printer.log) + run + after
      ensures error.None? ==> after == [] && CopyPrinted(codec, run, ThePage())
      ensures error == Some(CompressionFailed) ==> run == after == [] && (height == 0 || Compress.CanFail(codec))
      ensures height == 0 ==> error == Some(CompressionFailed)
      ensures error.Some? && error.value.PrintFailed? ==>
                CopyFailed(codec, error.value.cause, run, ThePage()) && Aftermath(error.value.cause, after)
    {
      run, after := [], [];
      var built := BuildPage(codec, rasterData[..], width, height, head, density);
      if built.Err? {
        assert built == Err(built.error);
        return Some(CompressionFailed), run, after;
      }
      var blocks, speed := built.value.0, CalcSpeed(built.value.1);
      var r := printer.PrintCompressed(blocks, speed);
      run := printer.run;
      assert CopyRun(codec, run, blocks, ThePage());
      if r.Ok? {
        return None, run, after;
      }
      Protocol.BlocksGoInOrder(run, blocks, JobSpeed(blocks, ThePage()));
      if r.error.InvalidResponse? {
        ghost var e;
        var why;
        why, e := printer.QueryStatus();
        after := [e];
      }
      return Some(PrintFailed(r.error)), run, after;
    }

    method ClearPage()
      requires Valid()
      modifies this`linesReceived, rasterData
      ensures Valid() && linesReceived == 0 && forall i :: 0 <= i < rasterData.Length ==> rasterData[i] == 0
    {
      forall i | 0 <= i < rasterData.Length { rasterData[i] := 0; }
      linesReceived := 0;
    }

    /**
     Print every copy of the page, then blank it. Each copy is a completed run that prints the page as
     it stood; if one fails the rest are not tried and the page is kept.
     */
    method EndPage(copies: nat, codec: Compress.Codec, printer: Printing.Printer)
        returns (error: Option<JobError>, ghost runs: seq<seq<Protocol.Event>>,
                 ghost failed: seq<Protocol.Event>, ghost after: seq<Protocol.Event>)
      requires Valid() && printer.Valid() && ThePage().Printable()
      modifies this`linesReceived, rasterData, printer
      ensures Valid() && printer.Valid()
      ensures error.None? ==> |runs| == copies && failed == after == []
      ensures error.None? ==> linesReceived == 0 && forall i :: 0 <= i < rasterData.Length ==> rasterData[i] == 0
      ensures error.Some? ==> |runs| < copies && rasterData[..] == old(rasterData[..]) && linesReceived == old(linesReceived)
      ensures printer.log == old(printer.log) + Join(runs) + failed + after
      ensures forall i :: 0 <= i < |runs| ==> CopyPrinted(codec, runs[i], old(ThePage()))
      ensures error == Some(CompressionFailed) ==> failed == after == [] && (height == 0 || Compress.CanFail(codec))
      ensures error.Some? && error.value.PrintFailed? ==>
                CopyFailed(codec, error.value.cause, failed, old(ThePage())) && Aftermath(error.value.cause, after)
    {
      runs, failed, after := [], [], [];
      ghost var before, page := printer.log, ThePage();
      for copy := 0 to copies
        invariant Valid() && printer.Valid() && |runs| == copy
        invariant ThePage() == page && linesReceived == old(linesReceived)
        invariant CopiesPrinted(codec, before, runs, printer.log, page)
      {
        ghost var run, rest;
        ghost var log := printer.log;
        error, run, rest := TransferPage(codec, printer);
        if error.Some? {
          return error, runs, run, rest;
        }
        OneMoreCopy(codec, before, runs, run, log, page);
        runs := runs + [run];
      }
      ClearPage();
      error := None;
    }
  }

  // ---- A whole page of a fresh job -------------------------------------------------------------

  datatype RasterError = BadLine(y: nat, line: LineError) | NotPrinted(job: JobError)

  /** The grey image of a contone page. */
  function GreyImage(bitsPerPixel: nat, lines: seq<seq<Byte>>, width: nat): (h: Image)
    requires bitsPerPixel == 8 || bitsPerPixel == 24
    ensures |h| == |lines|
  {
    seq(|lines|, y requires 0 <= y < |lines| => ToGrayLine(bitsPerPixel, lines[y], width).value)
  }

  /** Dot `x` of row `y` of the page: 1 bpp as it comes, contone as the halftone of the whole page. */
  ghost predicate RasterDot(bitsPerPixel: nat, mode: DitherMode, lines: seq<seq<Byte>>, width: nat, y: nat, x: nat) {
    y < |lines|
    && if bitsPerPixel == 8 || bitsPerPixel == 24 then DotInk(mode, width, GreyImage(bitsPerPixel, lines, width), y, x)
       else MsbDot(lines[y], x)
  }

  /** `raster` is the page of `lines`; rows they do not reach are blank. */
  ghost predicate RasterOf(bitsPerPixel: nat, mode: DitherMode, lines: seq<seq<Byte>>, width: nat, raster: seq<Byte>) {
    forall y: nat, x: nat :: x < width ==>
      (RowDot(raster, BytesFor(width), y, x) <==> RasterDot(bitsPerPixel, mode, lines, width, y, x))
  }

  lemma RasterDotKept(bitsPerPixel: nat, mode: DitherMode, lines: seq<seq<Byte>>, line: seq<Byte>, width: nat, y: nat, x: nat)
    requires y != |lines|
    ensures RasterDot(bitsPerPixel, mode, lines + [line], width, y, x) <==> RasterDot(bitsPerPixel, mode, lines, width, y, x)
  {
    if y < |lines| && (bitsPerPixel == 8 || bitsPerPixel == 24) {
      var grey := ToGrayLine(bitsPerPixel, line, width).value;
      assert GreyImage(bitsPerPixel, lines + [line], width) == GreyImage(bitsPerPixel, lines, width) + [grey];
      LaterRowsChangeNothing(mode, width, GreyImage(bitsPerPixel, lines, width), grey, y, x);
    }
  }

  lemma RasterNext(bitsPerPixel: nat, mode: DitherMode, lines: seq<seq<Byte>>, line: seq<Byte>, width: nat,
      before: seq<Byte>, after: seq<Byte>)
    requires RasterOf(bitsPerPixel, mode, lines, width, before) && SameBut(before, after, BytesFor(width), |lines|)
    requires forall x: nat :: x < width ==>
               (RowDot(after, BytesFor(width), |lines|, x) <==> RasterDot(bitsPerPixel, mode, lines + [line], width, |lines|, x))
    ensures RasterOf(bitsPerPixel, mode, lines + [line], width, after)
  {
    forall y: nat, x: nat | x < width
      ensures RowDot(after, BytesFor(width), y, x) <==> RasterDot(bitsPerPixel, mode, lines + [line], width, y, x)
    {
      if y != |lines| { RasterDotKept(bitsPerPixel, mode, lines, line, width, y, x); }
    }
  }

  /** Write the next line of a page of which `lines` have been written. */
  method WriteNext(job: KsJob, bitsPerPixel: nat, line: seq<Byte>, y: nat, ghost lines: seq<seq<Byte>>) returns (error: Option<LineError>)
    requires job.Valid() && y == |lines| < job.height
    requires RasterOf(bitsPerPixel, job.ditherer.mode, lines, job.width, job.rasterData[..])
    requires bitsPerPixel in {8, 24} && !job.ditherer.mode.Bayer? ==>
               job.ditherer.fed == GreyImage(bitsPerPixel, lines, job.width)
    modifies job`linesReceived, job.rasterData, job.ditherer, job.ditherer.err
    ensures job.Valid() && error == if bitsPerPixel in {1, 8, 24} then None else Some(UnsupportedDepth)
    ensures error.None? ==> RasterOf(bitsPerPixel, job.ditherer.mode, lines + [line], job.width, job.rasterData[..])
    ensures bitsPerPixel in {8, 24} && !job.ditherer.mode.Bayer? ==>
              job.ditherer.fed == GreyImage(bitsPerPixel, lines + [line], job.width)
  {
    ghost var before := job.rasterData[..];
    if bitsPerPixel == 8 || bitsPerPixel == 24 {
      assert GreyImage(bitsPerPixel, lines + [line], job.width) ==
             GreyImage(bitsPerPixel, lines, job.width) + [ToGrayLine(bitsPerPixel, line, job.width).value];
    }
    error := job.WriteLine(bitsPerPixel, y, line);
    assert error.Some? ==> error == Some(error.value) && (error.value.OutOfBounds? || error.value.UnsupportedDepth?);
    if error.None? {
      RasterNext(bitsPerPixel, job.ditherer.mode, lines, line, job.width, before, job.rasterData[..]);
    }
  }

  /**
   A fresh job, its rows written in order, its copies printed: every copy is a completed run that prints
   the rows, contone as the halftone of the whole page.
   */
  method PrintRaster(bitsPerPixel: nat, lines: seq<seq<Byte>>, width: nat, density: Byte, head: nat, mode: DitherMode,
      copies: nat, codec: Compress.Codec, printer: Printing.Printer)
      returns (error: Option<RasterError>, ghost page: Page, ghost runs: seq<seq<Protocol.Event>>,
               ghost failed: seq<Protocol.Event>, ghost after: seq<Protocol.Event>)
    requires printer.Valid() && |lines| < 65536 && 0 < head / 8 < 256
    modifies printer
    ensures printer.Valid() && printer.log == old(printer.log) + Join(runs) + failed + after
    ensures page.width == width && page.height == |lines| && page.head == head && page.density == density
    ensures error == Some(BadLine(0, UnsupportedDepth)) <==> bitsPerPixel !in {1, 8, 24} && lines != []
    ensures error.Some? && error.value.BadLine? ==> error == Some(BadLine(0, UnsupportedDepth)) && runs == [] && failed == after == []
    ensures error.None? ==> |runs| == copies && failed == after == []
    ensures error.None? || error.value.NotPrinted? ==> RasterOf(bitsPerPixel, mode, lines, width, page.raster)
    ensures forall i :: 0 <= i < |runs| ==> CopyPrinted(codec, runs[i], page)
    ensures error == Some(NotPrinted(CompressionFailed)) ==> failed == after == [] && (lines == [] || Compress.CanFail(codec))
    ensures error.Some? && error.value.NotPrinted? && error.value.job.PrintFailed? ==>
              CopyFailed(codec, error.value.job.cause, failed, page) && Aftermath(error.value.job.cause, after)
  {
    runs, failed, after := [], [], [];
    var job := new KsJob(width, |lines|, density, head, mode);
    forall y: nat, x: nat ensures !RowDot(job.rasterData[..], BytesFor(width), y, x) { ZeroBits(7 - x % 8); }
    for y := 0 to |lines|
      invariant unchanged(printer) && fresh(job) && fresh(job.rasterData) && fresh(job.ditherer) && fresh(job.ditherer.err)
      invariant job.Valid() && job.width == width && job.height == |lines| && job.head == head && job.density == density
      invariant job.ditherer.mode == mode && RasterOf(bitsPerPixel, mode, lines[..y], width, job.rasterData[..])
      invariant y > 0 ==> bitsPerPixel in {1, 8, 24}
      invariant bitsPerPixel in {8, 24} && !mode.Bayer? ==> job.ditherer.fed == GreyImage(bitsPerPixel, lines[..y], width)
    {
      assert lines[..y] + [lines[y]] == lines[..y + 1];
      var bad := WriteNext(job, bitsPerPixel, lines[y], y, lines[..y]);
      if bad.Some? {
        page := job.ThePage();
        return Some(BadLine(y, bad.value)), page, runs, failed, after;
      }
    }
    assert lines[..|lines|] == lines;
    page := job.ThePage();
    var refused;
    refused, runs, failed, after := job.EndPage(copies, codec, printer);
    error := if refused.Some? then Some(NotPrinted(refused.value)) else None;
  }

  function Join<T>(parts: seq<seq<T>>): seq<T> {
    if |parts| == 0 then [] else Join(parts[..|parts| - 1]) + parts[|parts| - 1]
  }

  lemma RowPasted(before: seq<Byte>, after: seq<Byte>, stride: nat, y: nat, line: seq<Byte>, n: nat)
    requires |before| == |after| && n <= stride && n <= |line| && (n == stride || n == |line|)
    requires y * stride + stride <= |before|
    requires forall i :: 0 <= i < |after| ==>
               after[i] == if y * stride <= i < y * stride + n then line[i - y * stride] else before[i]
    ensures SameBut(before, after, stride, y)
    ensures forall x: nat :: x < stride * 8 ==>
              (RowDot(after, stride, y, x) <==> if x / 8 < |line| then MsbDot(line, x) else RowDot(before, stride, y, x))
  {
    forall r: nat, x: nat | r != y ensures RowDot(after, stride, r, x) <==> RowDot(before, stride, r, x) {
      var at := r * stride + x / 8;
      if x / 8 < stride && at < |after| && y * stride <= at < y * stride + n {
        SameCell(stride, r, x / 8, y, at - y * stride);
      }
    }
  }
}
