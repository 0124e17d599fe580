/** Printing a grey image in one go: halftone, repack, centre, tile between the default margins, compress. */
module Grayscale {
  import opened Wrappers
  import opened Bytes
  import opened Halftone
  import opened Dithering
  import opened Bitmap
  import opened Buffers
  import opened Tiling
  import opened Grouping
  import Compress
  import opened PagePipeline

  // ---- The halftoned page ----------------------------------------------------------------------

  /** The first `n` rows of a row-major grey image. */
  function GreyLines(grey: seq<Byte>, width: nat, n: nat): (h: Image)
    ensures |h| == n && forall y :: 0 <= y < n ==> |h[y]| == width
  {
    if n == 0 then [] else GreyLines(grey, width, n - 1) + [Window(grey, (n - 1) * width, width)]
  }

  /** `mono` holds the halftone of all of `h`. */
  ghost predicate Dithered(mode: DitherMode, width: nat, h: Image, mono: seq<Byte>) {
    && |mono| == |h| * BytesFor(width)
    && forall y: nat, x: nat :: y < |h| && x < width ==> (RowDot(mono, BytesFor(width), y, x) <==> DotInk(mode, width, h, y, x))
  }

  lemma RowAppended(mono: seq<Byte>, row: seq<Byte>, stride: nat, rows: nat, y: nat, x: nat)
    requires |mono| == rows * stride && |row| == stride && y <= rows && x / 8 < stride
    ensures RowDot(mono + row, stride, y, x) <==> if y < rows then RowDot(mono, stride, y, x) else MsbDot(row, x)
  {
    if y < rows { CellInside(stride, rows, y, x / 8); }
  }

  lemma DitheredNext(mode: DitherMode, width: nat, h: Image, line: seq<Byte>, mono: seq<Byte>, row: seq<Byte>)
    requires Dithered(mode, width, h, mono) && |row| == BytesFor(width)
    requires forall x: nat :: x < width ==> (MsbDot(row, x) <==> DotInk(mode, width, h + [line], |h|, x))
    ensures Dithered(mode, width, h + [line], mono + row)
  {
    forall y: nat, x: nat | y < |h| + 1 && x < width
      ensures RowDot(mono + row, BytesFor(width), y, x) <==> DotInk(mode, width, h + [line], y, x)
    {
      RowAppended(mono, row, BytesFor(width), |h|, y, x);
      if y < |h| { LaterRowsChangeNothing(mode, width, h, line, y, x); }
    }
  }

  lemma RowIsSlice(grey: seq<Byte>, width: nat, height: nat, y: nat)
    requires y < height && width * height <= |grey|
    ensures 0 <= y * width <= (y + 1) * width <= |grey|
    ensures grey[y * width..(y + 1) * width] == Window(grey, y * width, width)
  {
    MulMono(0, y, width);
    MulMono(y + 1, height, width);
    assert (y + 1) * width == y * width + width;
  }

  /** One row through the ditherer, into a blank line. */
  method DitherRow(ditherer: Ditherer, line: seq<Byte>, y: nat, ghost h: Image) returns (row: seq<Byte>)
    requires ditherer.Valid() && |line| == ditherer.width && y == |h| && (!ditherer.mode.Bayer? ==> ditherer.fed == h)
    modifies ditherer, ditherer.err
    ensures ditherer.Valid() && (!ditherer.mode.Bayer? ==> ditherer.fed == h + [line])
    ensures |row| == BytesFor(ditherer.width)
    ensures forall x: nat :: x < ditherer.width ==>
              (MsbDot(row, x) <==> DotInk(ditherer.mode, ditherer.width, h + [line], |h|, x))
  {
    var mono: array<Byte> := new Byte[BytesFor(ditherer.width)](_ => 0);
    forall d: nat ensures !MsbDot(mono[..], d) { ZeroBits(7 - d % 8); }
    ditherer.Line(line, y, mono);
    row := mono[..];
  }

  /** Halftone a whole image through a fresh ditherer. */
  method DitherImage(grey: seq<Byte>, width: nat, height: nat, mode: DitherMode) returns (mono: seq<Byte>)
    requires width * height <= |grey|
    ensures Dithered(mode, width, GreyLines(grey, width, height), mono)
  {
    var ditherer := new Ditherer(mode, width);
    mono := [];
    for y := 0 to height
      invariant fresh(ditherer) && fresh(ditherer.err) && ditherer.Valid()
      invariant ditherer.mode == mode && ditherer.width == width
      invariant !mode.Bayer? ==> ditherer.fed == GreyLines(grey, width, y)
      invariant Dithered(mode, width, GreyLines(grey, width, y), mono)
    {
      RowIsSlice(grey, width, height, y);
      ghost var h := GreyLines(grey, width, y);
      var line := grey[y * width..(y + 1) * width];
      var row := DitherRow(ditherer, line, y, h);
      DitheredNext(mode, width, h, line, mono, row);
      mono := mono + row;
    }
  }

  // ---- From grey image to blocks ---------------------------------------------------------------

  datatype GreyError = ShortData | NotPacked(cause: PackError)

  /**
   Line `c` of the print is image row `c + 8`, centred under the head (or its middle window), with ink
   exactly where halftoning the whole image puts it, burned at `density`.
   */
  ghost predicate PrintsGrey(codec: Compress.Codec, blocks: seq<seq<Byte>>, mode: DitherMode, width: nat, h: Image, density: Density)
  {
    var n := |h| - 2 * DEFAULT_MARGIN_DOTS;
    && n >= 0 && |PrintedLines(codec, blocks)| == n * PRINTHEAD_BYTES_PER_LINE
    && DecodeTrims(PrintedBuffers(codec, blocks), 1) == Repeat(TrimOf(density), n)
    && forall c: nat, d: nat :: GreyDot(codec, blocks, mode, width, h, c, d)
  }

  ghost predicate GreyDot(codec: Compress.Codec, blocks: seq<seq<Byte>>, mode: DitherMode, width: nat, h: Image, c: nat, d: nat) {
    var x := d - Offset(width, PRINTHEAD_WIDTH_DOTS);
    PrintedDot(codec, blocks, PRINTHEAD_BYTES_PER_LINE, c, d) <==>
      && c + 2 * DEFAULT_MARGIN_DOTS < |h| && d < PRINTHEAD_WIDTH_DOTS && 0 <= x < width
      && DotInk(mode, width, h, c + DEFAULT_MARGIN_DOTS, x)
  }

  /** What the tiled canvas of a halftoned image shows between the margins. */
  lemma CanvasDot(mode: DitherMode, width: nat, h: Image, mono: seq<Byte>, columns: seq<Byte>, canvas: seq<Byte>, c: nat, d: nat)
    requires |h| >= 2 * DEFAULT_MARGIN_DOTS && Dithered(mode, width, h, mono)
    requires IsColumnMajor(mono, width, |h|, columns) && IsCentred(columns, |h|, width, PRINTHEAD_WIDTH_DOTS, canvas)
    ensures var x := d - Offset(width, PRINTHEAD_WIDTH_DOTS);
            ColDot(Columns(canvas, PRINTHEAD_BYTES_PER_LINE, DEFAULT_MARGIN_DOTS, |h| - 2 * DEFAULT_MARGIN_DOTS),
                   PRINTHEAD_BYTES_PER_LINE, c, d) <==>
            c + 2 * DEFAULT_MARGIN_DOTS < |h| && d < PRINTHEAD_WIDTH_DOTS && 0 <= x < width
            && DotInk(mode, width, h, c + DEFAULT_MARGIN_DOTS, x)
  {
    ColumnsDots(canvas, PRINTHEAD_BYTES_PER_LINE, DEFAULT_MARGIN_DOTS, |h| - 2 * DEFAULT_MARGIN_DOTS, c, d);
    CentredPageDot(mono, width, |h|, PRINTHEAD_WIDTH_DOTS, columns, canvas, c + DEFAULT_MARGIN_DOTS, d);
  }

  /** End to end: the blocks of a grey image print its halftone, dot for dot, between the margins. */
  lemma GreySurvives(codec: Compress.Codec, mode: DitherMode, width: nat, h: Image, density: Density, mono: seq<Byte>,
      columns: seq<Byte>, canvas: seq<Byte>, buffers: seq<Buffer>, groups: seq<nat>, blocks: seq<seq<Byte>>)
    requires 2 * DEFAULT_MARGIN_DOTS <= |h| < 65536 && Dithered(mode, width, h, mono) && Compress.Lossless(codec)
    requires IsColumnMajor(mono, width, |h|, columns) && IsCentred(columns, |h|, width, PRINTHEAD_WIDTH_DOTS, canvas)
    requires Tiles(buffers, canvas, PRINTHEAD_BYTES_PER_LINE, [Band(|h| - 2 * DEFAULT_MARGIN_DOTS, density)],
                   DEFAULT_MARGIN_DOTS, DEFAULT_MARGIN_DOTS, PageOptions(Mono, false))
    requires Compress.BlocksOf(codec, buffers, groups, blocks) && Sum(groups) == |buffers|
    ensures PrintsGrey(codec, blocks, mode, width, h, density)
  {
    BlocksCarryBuffers(codec, buffers, groups, blocks);
    OneBand(Band(|h| - 2 * DEFAULT_MARGIN_DOTS, density));
    forall c: nat, d: nat ensures GreyDot(codec, blocks, mode, width, h, c, d) {
      CanvasDot(mode, width, h, mono, columns, canvas, c, d);
    }
  }

  /** The blocks of a halftoned image, and their mean size per buffer. */
  method PackHalftone(codec: Compress.Codec, mono: seq<Byte>, width: nat, height: U16, density: Density,
      ghost mode: DitherMode, ghost h: Image) returns (r: Result<(seq<seq<Byte>>, nat), PackError>)
    requires |h| == height && Dithered(mode, width, h, mono)
    ensures r == Err(MarginsOverflow) <==> height < 2 * DEFAULT_MARGIN_DOTS
    ensures r == Err(NotCompressed(Compress.Empty)) <==> height == 2 * DEFAULT_MARGIN_DOTS
    ensures r == Err(NotCompressed(Compress.Compression)) ==> Compress.CanFail(codec)
    ensures r.Ok? ==> height > 2 * DEFAULT_MARGIN_DOTS
                      && r.value.1 == MeanSize(r.value.0, height - 2 * DEFAULT_MARGIN_DOTS, PRINTHEAD_BYTES_PER_LINE)
    ensures r.Ok? && Compress.Compact(codec) ==> Short(r.value.0)
    ensures r.Ok? && Compress.Lossless(codec) ==> PrintsGrey(codec, r.value.0, mode, width, h, density)
  {
    var columns, cols, _ := RasterToColumnMajor(mono, width, height);
    var canvas, perLine := CenterInPrinthead(columns, cols, width, PRINTHEAD_WIDTH_DOTS);
    ghost var buffers, groups;
    r, buffers, groups := PackCanvas(codec, canvas, perLine, cols, DEFAULT_MARGIN_DOTS, density);
    if r.Ok? && Compress.Lossless(codec) {
      GreySurvives(codec, mode, width, h, density, mono, columns, canvas, buffers, groups, r.value.0);
    }
  }

  /** The blocks of a grey image, and their mean size per buffer. */
  method BuildGrayscale(codec: Compress.Codec, grey: seq<Byte>, width: nat, height: U16, density: Density, mode: DitherMode)
      returns (r: Result<(seq<seq<Byte>>, nat), GreyError>)
    ensures r == Err(ShortData) <==> |grey| < width * height
    ensures r == Err(NotPacked(MarginsOverflow)) <==> |grey| >= width * height && height < 2 * DEFAULT_MARGIN_DOTS
    ensures r == Err(NotPacked(NotCompressed(Compress.Empty))) <==> |grey| >= width * height && height == 2 * DEFAULT_MARGIN_DOTS
    ensures r == Err(NotPacked(NotCompressed(Compress.Compression))) ==> Compress.CanFail(codec)
    ensures r.Ok? ==> height > 2 * DEFAULT_MARGIN_DOTS
                      && r.value.1 == MeanSize(r.value.0, height - 2 * DEFAULT_MARGIN_DOTS, PRINTHEAD_BYTES_PER_LINE)
    ensures r.Ok? && Compress.Compact(codec) ==> Short(r.value.0)
    ensures r.Ok? && Compress.Lossless(codec) ==>
              PrintsGrey(codec, r.value.0, mode, width, GreyLines(grey, width, height), density)
  {
    if |grey| < width * height {
      return Err(ShortData);
    }
    var mono := DitherImage(grey, width, height, mode);
    var packed := PackHalftone(codec, mono, width, height, density, mode, GreyLines(grey, width, height));
    return if packed.Ok? then Ok(packed.value) else Err(NotPacked(packed.error));
  }
}
