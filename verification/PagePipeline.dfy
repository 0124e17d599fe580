/** From a 1 bpp page to compressed blocks, and what the firmware reads back out of them. */
module PagePipeline {
  import opened Wrappers
  import opened Bytes
  import opened Bitmap
  import opened Buffers
  import opened Tiling
  import opened Grouping
  import opened Compress
  import opened Protocol
  import opened Transports

  // ---- The firmware's reading of a print run ---------------------------------------------------

  /** The decompressed stream cut into whole print buffers. */
  function Split(data: seq<Byte>): seq<Buffer> {
    if |data| < PRINT_BUF_SIZE then [] else
      Split(data[..|data| - PRINT_BUF_SIZE]) + [data[|data| - PRINT_BUF_SIZE..]]
  }

  lemma {:induction false} SplitConcat(buffers: seq<Buffer>)
    ensures Split(Concat(buffers)) == buffers
    decreases |buffers|
  {
    if |buffers| > 0 {
      var rest, last := buffers[..|buffers| - 1], buffers[|buffers| - 1];
      SplitConcat(rest);
      var data := Concat(buffers);
      assert data[..|data| - PRINT_BUF_SIZE] == Concat(rest);
      assert data[|data| - PRINT_BUF_SIZE..] == last;
      assert buffers == rest + [last];
    }
  }

  /** The buffers the firmware gets from a run of blocks. */
  function PrintedBuffers(codec: Codec, blocks: seq<seq<Byte>>): seq<Buffer> {
    match DecompressAll(codec, blocks)
    case None => []
    case Some(data) => Split(data)
  }

  /** Their lines, one after the other. */
  function PrintedLines(codec: Codec, blocks: seq<seq<Byte>>): seq<Byte> {
    DecodeImage(PrintedBuffers(codec, blocks))
  }

  /** Dot `d` of printhead line `y`. */
  predicate PrintedDot(codec: Codec, blocks: seq<seq<Byte>>, perLine: nat, y: nat, d: nat) {
    ColDot(PrintedLines(codec, blocks), perLine, y, d)
  }

  /**
   The blocks print exactly the page: dot `d` of line `y` is lit just when the page has a pixel there,
   shifted to centre it under the head, and that pixel is set; and every line is burned at `density`.
   */
  ghost predicate PrintsPage(codec: Codec, blocks: seq<seq<Byte>>, raster: seq<Byte>, width: nat, height: nat, head: nat,
      density: Density)
  {
    && |PrintedLines(codec, blocks)| == height * (head / 8)
    && DecodeTrims(PrintedBuffers(codec, blocks), 1) == Repeat(TrimOf(density), height)
    && forall y: nat, d: nat :: PrintedDot(codec, blocks, head / 8, y, d) <==>
         y < height && d < Usable(head) && 0 <= d - Offset(width, head) < width
         && RowDot(raster, BytesFor(width), y, d - Offset(width, head))
  }

  lemma CentredPageDot(raster: seq<Byte>, width: nat, height: nat, head: nat, columns: seq<Byte>, canvas: seq<Byte>, y: nat, d: nat)
    requires IsColumnMajor(raster, width, height, columns) && IsCentred(columns, height, width, head, canvas)
    ensures ColDot(canvas, head / 8, y, d) <==>
            y < height && d < Usable(head) && 0 <= d - Offset(width, head) < width
            && RowDot(raster, BytesFor(width), y, d - Offset(width, head))
  {
    var x := d - Offset(width, head);
    if 0 <= x < width {
      assert ColDot(columns, BytesFor(width), y, x) <==> y < height && x < width && RowDot(raster, BytesFor(width), y, x);
    }
  }

  /** A page tiled without margins carries the whole canvas. */
  lemma WholeCanvas(canvas: seq<Byte>, perLine: Byte, height: U16, density: Density, buffers: seq<Buffer>)
    requires 0 < perLine && |canvas| == height * perLine
    requires Tiles(buffers, canvas, perLine, [Band(height, density)], 0, 0, PageOptions(Mono, false))
    ensures DecodeImage(buffers) == canvas
  {
    OneBand(Band(height, density));
    assert perLine * PageOptions(Mono, false).colour.Planes() == perLine;
    AllColumns(canvas, perLine, height);
  }

  lemma WholeTrims(canvas: seq<Byte>, perLine: Byte, height: U16, density: Density, buffers: seq<Buffer>)
    requires 0 < perLine && Tiles(buffers, canvas, perLine, [Band(height, density)], 0, 0, PageOptions(Mono, false))
    ensures DecodeTrims(buffers, 1) == Repeat(TrimOf(density), height)
  {
    OneBand(Band(height, density));
  }

  lemma AllColumns(canvas: seq<Byte>, stride: nat, cols: nat)
    requires |canvas| == cols * stride
    ensures Columns(canvas, stride, 0, cols) == canvas
  {
  }

  lemma BlocksCarryBuffers(codec: Codec, buffers: seq<Buffer>, groups: seq<nat>, blocks: seq<seq<Byte>>)
    requires Lossless(codec) && BlocksOf(codec, buffers, groups, blocks) && Sum(groups) == |buffers|
    ensures PrintedBuffers(codec, blocks) == buffers
  {
    PackingIsLossless(codec, buffers, groups, blocks);
    assert buffers[..|buffers|] == buffers;
    SplitConcat(buffers);
  }

  /**
   End to end: repacked, centred, tiled without margins, packed and compressed, a page reaches the
   firmware dot for dot; a page wider than the head reaches it as its middle window.
   */
  lemma PageSurvives(codec: Codec, raster: seq<Byte>, width: nat, height: U16, head: nat, density: Density,
      columns: seq<Byte>, canvas: seq<Byte>, buffers: seq<Buffer>, groups: seq<nat>, blocks: seq<seq<Byte>>)
    requires 0 < head / 8 < 256 && Lossless(codec)
    requires IsColumnMajor(raster, width, height, columns) && IsCentred(columns, height, width, head, canvas)
    requires Tiles(buffers, canvas, head / 8, [Band(height, density)], 0, 0, PageOptions(Mono, false))
    requires BlocksOf(codec, buffers, groups, blocks) && Sum(groups) == |buffers|
    ensures PrintsPage(codec, blocks, raster, width, height, head, density)
  {
    WholeCanvas(canvas, head / 8, height, density, buffers);
    WholeTrims(canvas, head / 8, height, density, buffers);
    BlocksCarryBuffers(codec, buffers, groups, blocks);
    assert PrintedLines(codec, blocks) == canvas;
    forall y: nat, d: nat ensures PrintedDot(codec, blocks, head / 8, y, d) <==>
      y < height && d < Usable(head) && 0 <= d - Offset(width, head) < width
      && RowDot(raster, BytesFor(width), y, d - Offset(width, head))
    {
      CentredPageDot(raster, width, height, head, columns, canvas, y, d);
    }
  }

  // ---- From the wire to paper ------------------------------------------------------------------

  ghost predicate Short(blocks: seq<seq<Byte>>) {
    forall k :: 0 <= k < |blocks| ==> |blocks[k]| < 65536
  }

  /**
   From commands and frames or reports to dots: when a run's blocks print a page and are shorter than
   65536 bytes, so do the blocks put together from what the device was sent, cut to the lengths it was told.
   */
  lemma PageFromTheWire(codec: Codec, run: seq<Event>, speed: U16, transfers: seq<Transfer>,
      raster: seq<Byte>, width: nat, height: nat, head: nat, density: Density)
    requires TransfersOf(run, speed, transfers) && Short(Sent(run))
    requires PrintsPage(codec, Sent(run), raster, width, height, head, density)
    ensures forall k :: 0 <= k < |transfers| ==> transfers[k].WellFormed()
    ensures PrintsPage(codec, HeardBlocks(transfers), raster, width, height, head, density)
  {
    RunIsHeard(run, speed, transfers);
  }

  /** How many buffers a page of `height` lines takes. */
  function BufferCount(height: nat, perLine: nat): nat
    requires 0 < perLine < 256
  {
    |CutsOf(height, MAX_BUF_DATA / perLine)|
  }

  /** Just as many as its lines need, at the capacity of one. */
  lemma {:induction false} CutsNeeded(cols: nat, maxCols: nat)
    requires maxCols > 0
    ensures var n := |CutsOf(cols, maxCols)|; (n - 1) * maxCols < cols <= n * maxCols
    decreases cols
  {
    if cols > maxCols {
      CutsNeeded(cols - maxCols, maxCols);
    }
  }

  lemma BuffersNeeded(height: nat, perLine: nat)
    requires 0 < perLine < 256
    ensures var n, capacity := BufferCount(height, perLine), 4074 / perLine;
            (n - 1) * capacity < height <= n * capacity
  {
    CutsNeeded(height, MAX_BUF_DATA / perLine);
  }

  /** Compressed bytes per print buffer, on average. */
  function MeanSize(blocks: seq<seq<Byte>>, height: nat, perLine: nat): nat
    requires 0 < perLine < 256
  {
    var n := BufferCount(height, perLine);
    if n == 0 then 0 else |Flat(blocks)| / n
  }

  /** `MarginsOverflow` is the unchecked subtraction of the margins from a shorter page. */
  datatype PackError = MarginsOverflow | NotCompressed(cause: Compress.Error)

  /** Tile a canvas between equal margins and compress the buffers. */
  method PackCanvas(codec: Codec, canvas: seq<Byte>, perLine: Byte, cols: U16, margin: U16, density: Density)
      returns (r: Result<(seq<seq<Byte>>, nat), PackError>, ghost buffers: seq<Buffer>, ghost groups: seq<nat>)
    requires 0 < perLine
    ensures r == Err(MarginsOverflow) <==> cols < 2 * margin
    ensures r == Err(NotCompressed(Empty)) <==> cols == 2 * margin
    ensures r == Err(NotCompressed(Compression)) ==> CanFail(codec)
    ensures r.Ok? ==> cols > 2 * margin
                      && Tiles(buffers, canvas, perLine, [Band(cols - 2 * margin, density)], margin, margin, PageOptions(Mono, false))
    ensures r.Ok? ==> BlocksOf(codec, buffers, groups, r.value.0) && Sum(groups) == |buffers|
                      && r.value.1 == MeanSize(r.value.0, cols - 2 * margin, perLine)
    ensures r.Ok? && Compact(codec) ==> Short(r.value.0)
  {
    buffers, groups := [], [];
    var tiled := SplitIntoBuffers(canvas, perLine, cols, margin, margin, density, PageOptions(Mono, false));
    if tiled.None? {
      return Err(MarginsOverflow), buffers, groups;
    }
    buffers := tiled.value;
    BuffersOfPage(buffers, canvas, perLine, cols - 2 * margin, margin, density);
    var packed;
    packed, groups := CompressBuffers(codec, tiled.value);
    if packed.Err? {
      return Err(NotCompressed(packed.error)), buffers, groups;
    }
    MeanIsQuotient(packed.value.1, |Flat(packed.value.0)|, |buffers|);
    if Compact(codec) {
      PackedIsShort(codec, buffers, groups, packed.value.0);
    }
    return Ok(packed.value), buffers, groups;
  }

  /** Repack, centre, tile without margins and compress a page. */
  method BuildPage(codec: Codec, raster: seq<Byte>, width: nat, height: U16, head: nat, density: Byte)
      returns (r: Result<(seq<seq<Byte>>, nat), PackError>)
    requires 0 < head / 8 < 256
    ensures r.Ok? && Lossless(codec) ==> PrintsPage(codec, r.value.0, raster, width, height, head, Density(density, density))
    ensures r.Ok? ==> r.value.1 == MeanSize(r.value.0, height, head / 8)
    ensures r.Ok? && Compact(codec) ==> Short(r.value.0)
    ensures r == Err(NotCompressed(Empty)) <==> height == 0
    ensures r.Err? && height > 0 ==> CanFail(codec)
  {
    var columns, cols, _ := RasterToColumnMajor(raster, width, height);
    var canvas, perLine := CenterInPrinthead(columns, cols, width, head);
    ghost var buffers, groups;
    r, buffers, groups := PackCanvas(codec, canvas, perLine, cols, 0, Density(density, density));
    if r.Ok? && Lossless(codec) {
      PageSurvives(codec, raster, width, height, head, Density(density, density), columns, canvas, buffers, groups, r.value.0);
    }
    if r.Err? {
      assert r == Err(r.error) && (r.error.NotCompressed? ==> r.error.cause == Empty || r.error.cause == Compression);
    }
  }

  lemma BuffersOfPage(buffers: seq<Buffer>, canvas: seq<Byte>, perLine: Byte, cols: U16, margin: U16, density: Density)
    requires 0 < perLine && Tiles(buffers, canvas, perLine, [Band(cols, density)], margin, margin, PageOptions(Mono, false))
    ensures |buffers| == BufferCount(cols, perLine) && (|buffers| == 0 <==> cols == 0)
  {
    ColsOfPage(buffers, canvas, perLine, cols, margin, density);
    DecodedCols(buffers, 1);
  }

  lemma ColsOfPage(buffers: seq<Buffer>, canvas: seq<Byte>, perLine: Byte, cols: U16, margin: U16, density: Density)
    requires 0 < perLine && Tiles(buffers, canvas, perLine, [Band(cols, density)], margin, margin, PageOptions(Mono, false))
    ensures DecodeCols(buffers, 1) == CutsOf(cols, MAX_BUF_DATA / perLine)
  {
    OneBand(Band(cols, density));
    MonoCols(perLine);
  }

  lemma MonoCols(perLine: Byte)
    requires 0 < perLine
    ensures MaxCols(perLine, PageOptions(Mono, false)) == MAX_BUF_DATA / perLine
  {
    assert perLine * PageOptions(Mono, false).colour.Planes() == perLine;
  }
}
