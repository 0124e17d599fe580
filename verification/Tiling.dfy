/** Banded tiling of a page into print buffers. */
module Tiling {
  import opened Wrappers
  import opened Bytes
  import opened Buffers

  datatype Chunk = Chunk(start: U16, cols: U16, density: Density)

  /** The pair of trims one printed column is burned at. */
  datatype Trim = Trim(black: nat, red: nat)

  function TrimOf(d: Density): Trim {
    Trim(d.black % 16, if d.red < 15 then d.red else 15)
  }

  function Repeat<T>(v: T, n: nat): (r: seq<T>)
    ensures |r| == n && forall i :: 0 <= i < n ==> r[i] == v
  {
    seq(n, _ => v)
  }

  /** Columns of a band list. */
  function Total(bands: seq<Band>): nat {
    if |bands| == 0 then 0 else Total(bands[..|bands| - 1]) + bands[|bands| - 1].cols
  }

  /** The trims each column of a band list asks for, in feed order. */
  function BandTrims(bands: seq<Band>): (r: seq<Trim>)
    ensures |r| == Total(bands)
  {
    if |bands| == 0 then [] else
      BandTrims(bands[..|bands| - 1]) + Repeat(TrimOf(bands[|bands| - 1].density), bands[|bands| - 1].cols)
  }

  /** How `cols` columns fill buffers of `maxCols`: full ones first. */
  function CutsOf(cols: nat, maxCols: nat): seq<nat>
    requires maxCols > 0
  {
    if cols == 0 then []
    else if cols <= maxCols then [cols]
    else [maxCols] + CutsOf(cols - maxCols, maxCols)
  }

  /** How a band list fills buffers; no buffer is shared between bands. */
  function Cuts(bands: seq<Band>, maxCols: nat): seq<nat>
    requires maxCols > 0
  {
    if |bands| == 0 then [] else Cuts(bands[..|bands| - 1], maxCols) + CutsOf(bands[|bands| - 1].cols, maxCols)
  }

  /** `n` columns of `stride` bytes from column `from`, blank past the end of the image. */
  function Columns(image: seq<Byte>, stride: nat, from: nat, n: nat): (r: seq<Byte>)
    ensures |r| == n * stride
  {
    MulMono(0, from, stride);
    MulMono(0, n, stride);
    Window(image, from * stride, n * stride)
  }

  lemma ColumnsJoin(image: seq<Byte>, stride: nat, from: nat, n: nat, m: nat)
    ensures Columns(image, stride, from, n) + Columns(image, stride, from + n, m) == Columns(image, stride, from, n + m)
  {
    var a, b, c := from * stride, n * stride, m * stride;
    assert (from + n) * stride == a + b && (n + m) * stride == b + c;
  }

  // ---- The firmware's reading of a page ------------------------------------------------------

  /** All lines of a page, in order. */
  function DecodeImage(buffers: seq<Buffer>): seq<Byte> {
    if |buffers| == 0 then [] else DecodeImage(buffers[..|buffers| - 1]) + Payload(buffers[|buffers| - 1])
  }

  /** The trims each column of a page is burned at. */
  function DecodeTrims(buffers: seq<Buffer>, planes: nat): seq<Trim>
    requires planes > 0
  {
    if |buffers| == 0 then [] else
      var b := buffers[|buffers| - 1];
      DecodeTrims(buffers[..|buffers| - 1], planes) + Repeat(Trim(BlackTrim(b), RedTrim(b)), LineCount(b) / planes)
  }

  /** The columns each buffer of a page carries. */
  function DecodeCols(buffers: seq<Buffer>, planes: nat): seq<nat>
    requires planes > 0
  {
    if |buffers| == 0 then [] else
      DecodeCols(buffers[..|buffers| - 1], planes) + [LineCount(buffers[|buffers| - 1]) / planes]
  }

  ghost predicate BufferOfPage(b: Buffer, perLine: Byte, marginTop: U16, marginBottom: U16, page: PageOptions) {
    && PerLine(b) == perLine && FirstCut(b) == (if page.colour.TwoColour? then 2 else 0) && CutMode(b) == 0 && b[2] % 2 == 0 && (SavesPaper(b) <==> page.savePaper)
    && LineCount(b) > 0 && LineCount(b) % page.colour.Planes() == 0
    && LineCount(b) * PerLine(b) <= 4074
    && Word(b, 8) == Clamp(marginTop, 1, 900) && Word(b, 10) == Clamp(marginBottom, 1, 900)
    && ChecksumHolds(b)
  }

  ghost predicate PageOf(buffers: seq<Buffer>, perLine: Byte, marginTop: U16, marginBottom: U16, page: PageOptions) {
    forall i :: 0 <= i < |buffers| ==> BufferOfPage(buffers[i], perLine, marginTop, marginBottom, page)
  }

  /** Only the first buffer starts the page and only buffer `last` ends it. */
  ghost predicate Flagged(buffers: seq<Buffer>, last: int) {
    forall i :: 0 <= i < |buffers| ==>
      && (PageStart(buffers[i]) <==> i == 0)
      && (PageEnd(buffers[i]) <==> i == last)
      && (PrintEnd(buffers[i]) <==> i == last)
  }

  /** The buffers carry exactly the banded columns of the image, each at its own band's trims. */
  ghost predicate Tiles(buffers: seq<Buffer>, image: seq<Byte>, perLine: Byte, bands: seq<Band>,
      marginTop: U16, marginBottom: U16, page: PageOptions)
    requires 0 < perLine
  {
    && PageOf(buffers, perLine, marginTop, marginBottom, page)
    && Flagged(buffers, |buffers| - 1)
    && DecodeImage(buffers) == Columns(image, perLine * page.colour.Planes(), marginTop, Total(bands))
    && DecodeTrims(buffers, page.colour.Planes()) == BandTrims(bands)
    && DecodeCols(buffers, page.colour.Planes()) == Cuts(bands, MaxCols(perLine, page))
  }

  /** How many columns a buffer holds. */
  function MaxCols(perLine: Byte, page: PageOptions): nat
    requires 0 < perLine
    ensures 7 <= MaxCols(perLine, page) <= 4074 && MaxCols(perLine, page) == 4074 / (perLine * page.colour.Planes())
  {
    Capacity(perLine, page.colour.Planes());
    MAX_BUF_DATA / (perLine * page.colour.Planes())
  }

  // ---- Cutting bands into chunks -------------------------------------------------------------

  /** The chunks lie end to end from column 0 to `total`, each within one buffer's capacity. */
  ghost predicate EndToEnd(chunks: seq<Chunk>, total: nat, maxCols: nat) {
    if |chunks| == 0 then total == 0 else
      var c := chunks[|chunks| - 1];
      && 0 < c.cols <= maxCols && c.start + c.cols == total
      && EndToEnd(chunks[..|chunks| - 1], c.start, maxCols)
  }

  ghost function ChunkTrims(chunks: seq<Chunk>): seq<Trim> {
    if |chunks| == 0 then [] else
      ChunkTrims(chunks[..|chunks| - 1]) + Repeat(TrimOf(chunks[|chunks| - 1].density), chunks[|chunks| - 1].cols)
  }

  ghost function ChunkCols(chunks: seq<Chunk>): seq<nat> {
    if |chunks| == 0 then [] else ChunkCols(chunks[..|chunks| - 1]) + [chunks[|chunks| - 1].cols]
  }

  lemma {:induction false} TotalPrefix(bands: seq<Band>, i: nat)
    requires i <= |bands|
    ensures Total(bands[..i]) <= Total(bands)
    decreases |bands|
  {
    if i < |bands| {
      TotalPrefix(bands[..|bands| - 1], i);
      assert bands[..|bands| - 1][..i] == bands[..i];
    } else {
      assert bands[..i] == bands;
    }
  }

  /** Every buffer holds at least seven columns, so the cut always advances. */
  lemma Capacity(perLine: Byte, planes: nat)
    requires 0 < perLine && 1 <= planes <= 2
    ensures 7 <= MAX_BUF_DATA / (perLine * planes) <= MAX_BUF_DATA
  {
  }

  lemma RepeatMore<T>(prefix: seq<T>, v: T, a: nat, b: nat)
    ensures prefix + Repeat(v, a) + Repeat(v, b) == prefix + Repeat(v, a + b)
  {
  }

  /** The chunks cut so far from a band, after `before` chunks of the bands ahead of it. */
  ghost predicate CutUpTo(before: seq<Chunk>, chunks: seq<Chunk>, band: Band, currentCol: nat, remaining: nat, maxCols: nat)
    requires remaining <= band.cols && maxCols > 0
  {
    && EndToEnd(chunks, currentCol, maxCols)
    && ChunkTrims(chunks) == ChunkTrims(before) + Repeat(TrimOf(band.density), band.cols - remaining)
    && ChunkCols(chunks) + CutsOf(remaining, maxCols) == ChunkCols(before) + CutsOf(band.cols, maxCols)
  }

  lemma CutNext(before: seq<Chunk>, chunks: seq<Chunk>, band: Band, currentCol: nat, remaining: nat, maxCols: nat, c: Chunk)
    requires 0 < remaining <= band.cols && maxCols > 0
    requires CutUpTo(before, chunks, band, currentCol, remaining, maxCols)
    requires c.start == currentCol && c.cols == (if remaining < maxCols then remaining else maxCols) && c.density == band.density
    ensures CutUpTo(before, chunks + [c], band, currentCol + c.cols, remaining - c.cols, maxCols)
  {
    assert (chunks + [c])[..|chunks|] == chunks;
    RepeatMore(ChunkTrims(before), TrimOf(band.density), band.cols - remaining, c.cols);
    assert CutsOf(remaining, maxCols) == [c.cols as nat] + CutsOf(remaining - c.cols, maxCols);
    assert ChunkCols(chunks) + CutsOf(remaining, maxCols) ==
           ChunkCols(chunks) + [c.cols as nat] + CutsOf(remaining - c.cols, maxCols);
  }

  /** Cut one band, appending its chunks. */
  method CutBand(before: seq<Chunk>, startCol: U16, band: Band, maxCols: U16) returns (chunks: seq<Chunk>, currentCol: U16)
    requires maxCols > 0 && startCol + band.cols < 65536 && EndToEnd(before, startCol, maxCols)
    ensures currentCol == startCol + band.cols && EndToEnd(chunks, currentCol, maxCols)
    ensures ChunkTrims(chunks) == ChunkTrims(before) + Repeat(TrimOf(band.density), band.cols)
    ensures ChunkCols(chunks) == ChunkCols(before) + CutsOf(band.cols, maxCols)
  {
    chunks, currentCol := before, startCol;
    var remaining := band.cols;
    while remaining > 0
      invariant 0 <= remaining <= band.cols && currentCol == startCol + band.cols - remaining
      invariant CutUpTo(before, chunks, band, currentCol, remaining, maxCols)
    {
      var cols := if remaining < maxCols then remaining else maxCols;
      CutNext(before, chunks, band, currentCol, remaining, maxCols, Chunk(currentCol, cols, band.density));
      chunks := chunks + [Chunk(currentCol, cols, band.density)];
      currentCol := currentCol + cols;
      remaining := remaining - cols;
    }
  }

  /** Resolve the whole chunk list up front: the last buffer must be known before any is built. */
  method CutBands(bands: seq<Band>, maxCols: U16) returns (chunks: seq<Chunk>)
    requires maxCols > 0 && Total(bands) < 65536
    ensures EndToEnd(chunks, Total(bands), maxCols) && ChunkTrims(chunks) == BandTrims(bands)
    ensures ChunkCols(chunks) == Cuts(bands, maxCols)
  {
    chunks := [];
    var currentCol: U16 := 0;
    for i := 0 to |bands|
      invariant currentCol == Total(bands[..i]) && EndToEnd(chunks, currentCol, maxCols)
      invariant ChunkTrims(chunks) == BandTrims(bands[..i]) && ChunkCols(chunks) == Cuts(bands[..i], maxCols)
    {
      assert bands[..i + 1][..i] == bands[..i];
      TotalPrefix(bands, i + 1);
      chunks, currentCol := CutBand(chunks, currentCol, bands[i], maxCols);
    }
    assert bands[..|bands|] == bands;
  }

  // ---- Filling the buffers -------------------------------------------------------------------

  /** `image.get(from..to.min(len)).unwrap_or(&[])` */
  function Slice(image: seq<Byte>, from: nat, to: nat): (r: seq<Byte>)
    requires from <= to
    ensures Window(r, 0, to - from) == Window(image, from, to - from) && |r| <= to - from
  {
    var end := if to < |image| then to else |image|;
    if from <= end then image[from..end] else []
  }

  /** A chunk within capacity fits a buffer, in bytes and in the header's 16-bit line count. */
  lemma ChunkFits(cols: nat, perLine: nat, planes: nat)
    requires 0 < perLine && 1 <= planes <= 2 && 0 < cols <= MAX_BUF_DATA / (perLine * planes)
    ensures 0 < cols * planes && 0 < cols * planes * perLine <= MAX_BUF_DATA && cols * planes <= MAX_BUF_DATA
    ensures cols * planes * perLine == cols * (perLine * planes)
    ensures cols * planes / planes == cols && cols * planes % planes == 0
  {
    var stride := perLine * planes;
    var q := MAX_BUF_DATA / stride;
    MulMono(cols, q, stride);
    assert q * stride <= MAX_BUF_DATA;
    assert planes == 1 || planes == 2;
    MulMono(1, perLine, cols * planes);
  }

  /** The payload of an encoded buffer is the image it was given, padded with blank dots. */
  lemma PayloadOf(p: BufferParams, b: Buffer)
    requires Encodes(p, b) && p.cols * p.perLine <= MAX_BUF_DATA
    ensures Payload(b) == Window(p.image, 0, p.cols * p.perLine)
  {
    var n := p.cols * p.perLine;
    assert Payload(b) == b[PRINT_BUF_HEADER..][..n];
    assert Window(p.image, 0, PRINT_BUF_SIZE - PRINT_BUF_HEADER)[..n] == Window(p.image, 0, n);
  }

  /** `b` is buffer number `i` of the page and carries chunk `c`. */
  ghost predicate Carries(b: Buffer, i: nat, last: int, c: Chunk, image: seq<Byte>, perLine: Byte,
      marginTop: U16, marginBottom: U16, page: PageOptions)
  {
    && BufferOfPage(b, perLine, marginTop, marginBottom, page)
    && (PageStart(b) <==> i == 0) && (PageEnd(b) <==> i == last) && (PrintEnd(b) <==> i == last)
    && LineCount(b) / page.colour.Planes() == c.cols && Trim(BlackTrim(b), RedTrim(b)) == TrimOf(c.density)
    && Payload(b) == Columns(image, perLine * page.colour.Planes(), marginTop + c.start, c.cols)
  }

  /** The buffers built so far carry the chunks before them. */
  ghost predicate Filled(buffers: seq<Buffer>, image: seq<Byte>, perLine: Byte,
      marginTop: U16, marginBottom: U16, page: PageOptions, chunks: seq<Chunk>, total: nat, last: int)
  {
    && |buffers| == |chunks|
    && PageOf(buffers, perLine, marginTop, marginBottom, page) && Flagged(buffers, last)
    && DecodeImage(buffers) == Columns(image, perLine * page.colour.Planes(), marginTop, total)
    && DecodeTrims(buffers, page.colour.Planes()) == ChunkTrims(chunks)
    && DecodeCols(buffers, page.colour.Planes()) == ChunkCols(chunks)
  }

  function ChunkParams(image: seq<Byte>, perLine: Byte, chunk: Chunk, i: nat, last: int,
      marginTop: U16, marginBottom: U16, page: PageOptions): (p: BufferParams)
    requires 0 < perLine && 0 < chunk.cols <= MaxCols(perLine, page)
    requires marginTop + chunk.start < 65536
  {
    ChunkFits(chunk.cols, perLine, page.colour.Planes());
    var imgStart := (marginTop + chunk.start) * (perLine * page.colour.Planes());
    var imgEnd := imgStart + chunk.cols * (perLine * page.colour.Planes());
    BufferParams(Slice(image, imgStart, imgEnd), perLine, chunk.cols * page.colour.Planes(), i == 0, i == last, i == last,
                 marginTop, marginBottom, chunk.density, page)
  }

  lemma ChunkCarried(image: seq<Byte>, perLine: Byte, chunk: Chunk, i: nat, last: int,
      marginTop: U16, marginBottom: U16, page: PageOptions, p: BufferParams, b: Buffer)
    requires 0 < perLine && 0 < chunk.cols <= MaxCols(perLine, page)
    requires marginTop + chunk.start < 65536
    requires p == ChunkParams(image, perLine, chunk, i, last, marginTop, marginBottom, page)
    requires Encodes(p, b) && ChecksumHolds(b)
    ensures Carries(b, i, last, chunk, image, perLine, marginTop, marginBottom, page)
  {
    ChunkFits(chunk.cols, perLine, page.colour.Planes());
    PayloadOf(p, b);
  }

  /** Build buffer number `i` of the page from chunk `chunk`. */
  method BuildChunk(image: seq<Byte>, perLine: Byte, chunk: Chunk, i: nat, last: int,
      marginTop: U16, marginBottom: U16, page: PageOptions) returns (b: Buffer)
    requires 0 < perLine && 0 < chunk.cols <= MaxCols(perLine, page)
    requires marginTop + chunk.start < 65536
    ensures Carries(b, i, last, chunk, image, perLine, marginTop, marginBottom, page)
  {
    var p := ChunkParams(image, perLine, chunk, i, last, marginTop, marginBottom, page);
    b := BuildPrintBuffer(p);
    ChunkCarried(image, perLine, chunk, i, last, marginTop, marginBottom, page, p, b);
  }

  lemma FillNext(buffers: seq<Buffer>, b: Buffer, image: seq<Byte>, perLine: Byte,
      marginTop: U16, marginBottom: U16, page: PageOptions, chunks: seq<Chunk>, c: Chunk, last: int)
    requires Filled(buffers, image, perLine, marginTop, marginBottom, page, chunks, c.start, last)
    requires Carries(b, |buffers|, last, c, image, perLine, marginTop, marginBottom, page)
    ensures Filled(buffers + [b], image, perLine, marginTop, marginBottom, page, chunks + [c], c.start + c.cols, last)
  {
    ColumnsJoin(image, perLine * page.colour.Planes(), marginTop, c.start, c.cols);
    assert (buffers + [b])[..|buffers|] == buffers;
    assert (chunks + [c])[..|chunks|] == chunks;
  }

  lemma {:induction false} EndToEndAt(chunks: seq<Chunk>, total: nat, maxCols: nat, i: nat)
    requires EndToEnd(chunks, total, maxCols) && i < |chunks|
    ensures 0 < chunks[i].cols <= maxCols && chunks[i].start + chunks[i].cols <= total
    ensures EndToEnd(chunks[..i], chunks[i].start, maxCols)
    ensures i == |chunks| - 1 ==> chunks[i].start + chunks[i].cols == total
    ensures i + 1 < |chunks| ==> chunks[i].start + chunks[i].cols == chunks[i + 1].start
  {
    if i < |chunks| - 1 {
      var shorter := chunks[..|chunks| - 1];
      EndToEndAt(shorter, chunks[|chunks| - 1].start, maxCols, i);
      assert shorter[..i] == chunks[..i];
    }
  }

  lemma FillAt(buffers: seq<Buffer>, b: Buffer, image: seq<Byte>, perLine: Byte,
      marginTop: U16, marginBottom: U16, page: PageOptions, chunks: seq<Chunk>, total: nat, maxCols: nat, i: nat, last: int)
    requires i == |buffers| < |chunks| && EndToEnd(chunks, total, maxCols)
    requires Filled(buffers, image, perLine, marginTop, marginBottom, page, chunks[..i], Reached(chunks, total, i), last)
    requires Carries(b, i, last, chunks[i], image, perLine, marginTop, marginBottom, page)
    ensures Filled(buffers + [b], image, perLine, marginTop, marginBottom, page, chunks[..i + 1],
                   Reached(chunks, total, i + 1), last)
  {
    EndToEndAt(chunks, total, maxCols, i);
    FillNext(buffers, b, image, perLine, marginTop, marginBottom, page, chunks[..i], chunks[i], last);
    assert chunks[..i] + [chunks[i]] == chunks[..i + 1];
    assert Reached(chunks, total, i + 1) == chunks[i].start + chunks[i].cols;
  }

  /** The column the first `i` chunks reach. */
  ghost function Reached(chunks: seq<Chunk>, total: nat, i: nat): nat
    requires i <= |chunks|
  {
    if i < |chunks| then chunks[i].start else total
  }

  method FillChunks(image: seq<Byte>, perLine: Byte, chunks: seq<Chunk>, ghost total: nat,
      marginTop: U16, marginBottom: U16, page: PageOptions) returns (buffers: seq<Buffer>)
    requires 0 < perLine && marginTop + total < 65536
    requires EndToEnd(chunks, total, MaxCols(perLine, page))
    ensures Filled(buffers, image, perLine, marginTop, marginBottom, page, chunks, total, |chunks| - 1)
  {
    ghost var maxCols := MaxCols(perLine, page);
    var last := |chunks| - 1;
    buffers := [];
    if |chunks| > 0 {
      EndToEndAt(chunks, total, maxCols, 0);
    }
    for i := 0 to |chunks|
      invariant |buffers| == i
      invariant Filled(buffers, image, perLine, marginTop, marginBottom, page, chunks[..i], Reached(chunks, total, i), last)
    {
      EndToEndAt(chunks, total, maxCols, i);
      var b := BuildChunk(image, perLine, chunks[i], i, last, marginTop, marginBottom, page);
      FillAt(buffers, b, image, perLine, marginTop, marginBottom, page, chunks, total, maxCols, i, last);
      buffers := buffers + [b];
    }
    assert chunks[..|chunks|] == chunks;
  }

  /**
   Split column-major image data into print buffers, giving each band its own trims. The margins are
   leading and trailing columns of the image itself, skipped by the tiling.
   */
  method SplitIntoBandedBuffers(image: seq<Byte>, perLine: Byte, bands: seq<Band>,
      marginTop: U16, marginBottom: U16, page: PageOptions) returns (buffers: seq<Buffer>)
    requires 0 < perLine && marginTop + Total(bands) < 65536
    ensures Tiles(buffers, image, perLine, bands, marginTop, marginBottom, page)
  {
    var chunks := CutBands(bands, MaxCols(perLine, page));
    buffers := FillChunks(image, perLine, chunks, Total(bands), marginTop, marginBottom, page);
  }

  lemma OneBand(band: Band)
    ensures Total([band]) == band.cols && BandTrims([band]) == Repeat(TrimOf(band.density), band.cols)
    ensures forall maxCols: nat :: maxCols > 0 ==> Cuts([band], maxCols) == CutsOf(band.cols, maxCols)
  {
    assert [band][..0] == [];
    forall maxCols: nat | maxCols > 0 ensures Cuts([band], maxCols) == CutsOf(band.cols, maxCols) {
      assert Cuts([band], maxCols) == Cuts([band][..0], maxCols) + CutsOf(band.cols, maxCols);
    }
  }

  /** One density throughout; `None` is the unchecked subtraction of margins larger than the page overflowing. */
  method SplitIntoBuffers(image: seq<Byte>, perLine: Byte, totalCols: U16,
      marginTop: U16, marginBottom: U16, density: Density, page: PageOptions) returns (r: Option<seq<Buffer>>)
    requires 0 < perLine
    ensures r.None? <==> totalCols < marginTop + marginBottom
    ensures r.Some? ==>
              Tiles(r.value, image, perLine, [Band(totalCols - marginTop - marginBottom, density)], marginTop, marginBottom, page)
  {
    if totalCols < marginTop + marginBottom {
      return None;
    }
    var cols := totalCols - marginTop - marginBottom;
    OneBand(Band(cols, density));
    var buffers := SplitIntoBandedBuffers(image, perLine, [Band(cols, density)], marginTop, marginBottom, page);
    return Some(buffers);
  }

  // ---- Where each buffer's columns lie --------------------------------------------------------

  /** The first `i` of a list of column counts. */
  function SumOf(cols: seq<nat>, i: nat): nat
    requires i <= |cols|
  {
    if i == 0 then 0 else SumOf(cols, i - 1) + cols[i - 1]
  }

  /** Each part is its number of columns of `stride` bytes. */
  ghost predicate WholeColumns(parts: seq<seq<Byte>>, cols: seq<nat>, stride: nat) {
    |parts| == |cols| && forall i :: 0 <= i < |parts| ==> |parts[i]| == cols[i] * stride
  }

  lemma {:induction false} SameSum(cols: seq<nat>, more: seq<nat>, i: nat)
    requires i <= |cols| && cols <= more
    ensures SumOf(cols, i) == SumOf(more, i)
  {
    if i > 0 { SameSum(cols, more, i - 1); }
  }

  lemma Distribute(n: nat, m: nat, a: nat, b: nat, c: nat)
    requires n == a * c && m == b * c
    ensures n + m == (a + b) * c
  {
  }

  lemma {:induction false} FlatLength(parts: seq<seq<Byte>>, cols: seq<nat>, stride: nat)
    requires WholeColumns(parts, cols, stride)
    ensures |Flat(parts)| == SumOf(cols, |cols|) * stride
    decreases |parts|
  {
    if |parts| > 0 {
      var n := |parts| - 1;
      FlatLength(parts[..n], cols[..n], stride);
      SameSum(cols[..n], cols, n);
      Distribute(|Flat(parts[..n])|, |parts[n]|, SumOf(cols, n), cols[n], stride);
    }
  }

  lemma SplitColumns(image: seq<Byte>, stride: nat, from: nat, n: nat, m: nat, a: seq<Byte>, b: seq<Byte>)
    requires a + b == Columns(image, stride, from, n + m) && |a| == n * stride
    ensures a == Columns(image, stride, from, n) && b == Columns(image, stride, from + n, m)
  {
    ColumnsJoin(image, stride, from, n, m);
    var c, d := Columns(image, stride, from, n), Columns(image, stride, from + n, m);
    assert a == (a + b)[..|a|] && c == (c + d)[..|c|];
    assert b == (a + b)[|a|..] && d == (c + d)[|c|..];
  }

  /** The lines are `n` columns of the image from column `at`. */
  ghost predicate IsRange(lines: seq<Byte>, image: seq<Byte>, stride: nat, at: nat, n: nat) {
    lines == Columns(image, stride, at, n)
  }

  /** Parts that make up a run of columns carry them in order. */
  lemma {:induction false} PartCarries(parts: seq<seq<Byte>>, cols: seq<nat>, image: seq<Byte>, stride: nat, from: nat, i: nat)
    requires WholeColumns(parts, cols, stride) && i < |parts|
    requires Flat(parts) == Columns(image, stride, from, SumOf(cols, |cols|))
    ensures IsRange(parts[i], image, stride, from + SumOf(cols, i), cols[i])
    decreases |parts|
  {
    var n := |parts| - 1;
    FlatLength(parts[..n], cols[..n], stride);
    SameSum(cols[..n], cols, n);
    SplitColumns(image, stride, from, SumOf(cols, n), cols[n], Flat(parts[..n]), parts[n]);
    if i < n {
      PartCarries(parts[..n], cols[..n], image, stride, from, i);
      SameSum(cols[..n], cols, i);
    }
  }

  lemma LinesInColumns(lines: nat, planes: nat, perLine: nat)
    requires 1 <= planes <= 2 && lines % planes == 0
    ensures lines * perLine == lines / planes * (perLine * planes)
  {
    var cols := lines / planes;
    assert lines == cols * planes;
    assert cols * planes * perLine == cols * (perLine * planes);
  }

  lemma PayloadLength(b: Buffer)
    requires LineCount(b) * PerLine(b) <= MAX_BUF_DATA
    ensures |Payload(b)| == LineCount(b) * PerLine(b)
  {
    MulMono(0, LineCount(b), PerLine(b));
    var n: nat := LineCount(b) * PerLine(b);
    assert Payload(b) == b[PRINT_BUF_HEADER..PRINT_BUF_HEADER + n];
  }

  lemma PayloadColumns(b: Buffer, perLine: Byte, marginTop: U16, marginBottom: U16, page: PageOptions)
    requires BufferOfPage(b, perLine, marginTop, marginBottom, page)
    ensures var planes := page.colour.Planes(); |Payload(b)| == LineCount(b) / planes * (perLine * planes)
  {
    PayloadLength(b);
    LinesInColumns(LineCount(b), page.colour.Planes(), perLine);
  }

  function Payloads(buffers: seq<Buffer>): (r: seq<seq<Byte>>)
    ensures |r| == |buffers| && forall i :: 0 <= i < |r| ==> r[i] == Payload(buffers[i])
  {
    seq(|buffers|, i requires 0 <= i < |buffers| => Payload(buffers[i]))
  }

  lemma {:induction false} PayloadsAreImage(buffers: seq<Buffer>)
    ensures Flat(Payloads(buffers)) == DecodeImage(buffers)
    decreases |buffers|
  {
    if |buffers| > 0 {
      var n := |buffers| - 1;
      PayloadsAreImage(buffers[..n]);
      assert Payloads(buffers)[..n] == Payloads(buffers[..n]);
    }
  }

  lemma PageIsWholeColumns(buffers: seq<Buffer>, perLine: Byte, marginTop: U16, marginBottom: U16, page: PageOptions)
    requires PageOf(buffers, perLine, marginTop, marginBottom, page)
    ensures WholeColumns(Payloads(buffers), DecodeCols(buffers, page.colour.Planes()), perLine * page.colour.Planes())
  {
    DecodedCols(buffers, page.colour.Planes());
    forall i | 0 <= i < |buffers|
      ensures |Payloads(buffers)[i]| == DecodeCols(buffers, page.colour.Planes())[i] * (perLine * page.colour.Planes())
    {
      PayloadColumns(buffers[i], perLine, marginTop, marginBottom, page);
    }
  }

  lemma {:induction false} CutsSum(cols: nat, maxCols: nat)
    requires maxCols > 0
    ensures SumOf(CutsOf(cols, maxCols), |CutsOf(cols, maxCols)|) == cols
    decreases cols
  {
    if cols > maxCols {
      CutsSum(cols - maxCols, maxCols);
      SumOfMore(maxCols, CutsOf(cols - maxCols, maxCols), |CutsOf(cols - maxCols, maxCols)|);
    } else if cols > 0 {
      assert SumOf([cols], 1) == SumOf([cols], 0) + cols;
    }
  }

  lemma {:induction false} SumOfMore(first: nat, rest: seq<nat>, i: nat)
    requires i <= |rest|
    ensures SumOf([first] + rest, i + 1) == first + SumOf(rest, i)
  {
    if i > 0 { SumOfMore(first, rest, i - 1); }
  }

  lemma {:induction false} DecodedCols(buffers: seq<Buffer>, planes: nat)
    requires planes > 0
    ensures |DecodeCols(buffers, planes)| == |buffers|
    ensures forall i :: 0 <= i < |buffers| ==> DecodeCols(buffers, planes)[i] == LineCount(buffers[i]) / planes
    decreases |buffers|
  {
    if |buffers| > 0 { DecodedCols(buffers[..|buffers| - 1], planes); }
  }

  // ---- What tiling promises ------------------------------------------------------------------

  /** How a page is banded changes the trims of its columns and nothing of its image. */
  lemma BandsOnlyChangeTrims(image: seq<Byte>, perLine: Byte, marginTop: U16, marginBottom: U16, page: PageOptions,
      bands: seq<Band>, buffers: seq<Buffer>, bands': seq<Band>, buffers': seq<Buffer>)
    requires 0 < perLine
    requires Tiles(buffers, image, perLine, bands, marginTop, marginBottom, page)
    requires Tiles(buffers', image, perLine, bands', marginTop, marginBottom, page)
    requires Total(bands) == Total(bands')
    ensures DecodeImage(buffers) == DecodeImage(buffers')
  {
  }

  /** With bands of equal width, column `r` of band `q` gets band `q`'s trims. */
  lemma {:induction false} EvenBandTrims(bands: seq<Band>, cols: nat, q: nat, r: nat)
    requires (forall i :: 0 <= i < |bands| ==> bands[i].cols == cols) && q < |bands| && r < cols
    ensures 0 <= q * cols + r < Total(bands) && BandTrims(bands)[q * cols + r] == TrimOf(bands[q].density)
  {
    var n := |bands| - 1;
    EvenTotal(bands[..n], cols);
    if q < n { EvenBandTrims(bands[..n], cols, q, r); }
  }

  lemma {:induction false} EvenTotal(bands: seq<Band>, cols: nat)
    requires forall i :: 0 <= i < |bands| ==> bands[i].cols == cols
    ensures Total(bands) == |bands| * cols
  {
    if |bands| > 0 { EvenTotal(bands[..|bands| - 1], cols); }
  }

  /** The dots of a run of columns are those of the image, `from` columns on. */
  lemma ColumnsDots(image: seq<Byte>, stride: nat, from: nat, n: nat, c: nat, d: nat)
    ensures ColDot(Columns(image, stride, from, n), stride, c, d) <==> c < n && ColDot(image, stride, from + c, d)
  {
    var i := d / 8;
    if i < stride {
      assert (from + c) * stride == from * stride + c * stride;
      if c < n {
        CellInside(stride, n, c, i);
        ZeroBits(d % 8);
      } else {
        MulMono(n, c, stride);
      }
    }
  }
}
