/** Calibration patterns and how they line up with the buffers that carry them. */
module Patterns {
  import opened Wrappers
  import opened Bytes
  import opened Bitmap
  import opened Buffers
  import opened Tiling

  const SWATCH_SEPARATOR_DOTS := 4

  function Min(a: nat, b: nat): (r: nat)
    ensures r <= a && r <= b && (r == a || r == b)
  {
    if a < b then a else b
  }

  function LessOrZero(a: nat, b: nat): (r: nat)
    ensures if a >= b then r + b == a else r == 0
  {
    if a < b then 0 else a - b
  }

  // ---- The swatch ladder ---------------------------------------------------------------------

  /** Geometry of a ladder: its height in dots, its band width, and the dots it inks across the head. */
  datatype Ladder = Ladder(height: nat, steps: nat, bandCols: nat, inkCols: nat, left: nat, width: nat)

  function LadderOf(labelWidthMm: nat, heightMm: nat, steps: nat): (l: Ladder)
    ensures l.left + l.width <= PRINTHEAD_WIDTH_DOTS && l.inkCols <= l.bandCols && l.steps == steps
    ensures l.height == 8 * heightMm && l.width == Min(8 * labelWidthMm, 384)
    ensures var right := 384 - l.left - l.width; l.left <= right <= l.left + 1
    ensures if l.bandCols > 4 then l.inkCols + 4 == l.bandCols else l.inkCols == 0
    ensures steps > 0 ==> var printable := LessOrZero(l.height, 16); steps * l.bandCols <= printable < steps * (l.bandCols + 1)
    ensures l.inkCols > 0 ==> DEFAULT_MARGIN_DOTS + l.steps * l.bandCols + DEFAULT_MARGIN_DOTS <= l.height
  {
    var height := heightMm * DOTS_PER_MM;
    var width := Min(labelWidthMm * DOTS_PER_MM, PRINTHEAD_WIDTH_DOTS);
    var printable := LessOrZero(height, 2 * DEFAULT_MARGIN_DOTS);
    var bandCols := printable / (if steps < 1 then 1 else steps);
    BandsFit(printable, steps);
    Ladder(height, steps, bandCols, LessOrZero(bandCols, SWATCH_SEPARATOR_DOTS), (PRINTHEAD_WIDTH_DOTS - width) / 2, width)
  }

  lemma BandsFit(printable: nat, steps: nat)
    ensures steps * (printable / (if steps < 1 then 1 else steps)) <= printable
    ensures steps > 0 ==> printable < steps * (printable / steps + 1)
  {
  }

  /** Dot `dot` of column `col` belongs to the ink of one of the first `steps` bands. */
  ghost predicate InBands(l: Ladder, steps: nat, col: nat, dot: nat) {
    exists q: nat :: q < steps && InBand(l, q, col, dot, l.inkCols)
  }

  predicate InBand(l: Ladder, q: nat, col: nat, dot: nat, cols: nat) {
    var start := DEFAULT_MARGIN_DOTS + q * l.bandCols;
    start <= col < start + cols && l.left <= dot < l.left + l.width
  }

  /** The ladder drawn so far: `steps` whole bands, then `cols` columns and `dots` dots of the next. */
  ghost predicate Drawn(l: Ladder, data: seq<Byte>, steps: nat, cols: nat, dots: nat) {
    forall col: nat, dot: nat :: ColDot(data, PRINTHEAD_BYTES_PER_LINE, col, dot) <==>
      || InBands(l, steps, col, dot)
      || InBand(l, steps, col, dot, cols)
      || (col == DEFAULT_MARGIN_DOTS + steps * l.bandCols + cols && l.left <= dot < l.left + dots)
  }

  method DrawDot(l: Ladder, buf: array<Byte>, step: nat, cols: nat, dots: nat)
    requires buf.Length == l.height * PRINTHEAD_BYTES_PER_LINE && l.left + l.width <= PRINTHEAD_WIDTH_DOTS
    requires dots < l.width && DEFAULT_MARGIN_DOTS + step * l.bandCols + cols < l.height
    requires Drawn(l, buf[..], step, cols, dots)
    modifies buf
    ensures Drawn(l, buf[..], step, cols, dots + 1)
  {
    var col := DEFAULT_MARGIN_DOTS + step * l.bandCols + cols;
    CellInside(PRINTHEAD_BYTES_PER_LINE, l.height, col, (l.left + dots) / 8);
    OrDot(buf, PRINTHEAD_BYTES_PER_LINE, col, l.left + dots);
  }

  lemma ColumnDrawn(l: Ladder, data: seq<Byte>, step: nat, cols: nat)
    requires Drawn(l, data, step, cols, l.width)
    ensures Drawn(l, data, step, cols + 1, 0)
  {
    forall col: nat, dot: nat ensures InBand(l, step, col, dot, cols + 1) <==>
      || InBand(l, step, col, dot, cols)
      || (col == DEFAULT_MARGIN_DOTS + step * l.bandCols + cols && l.left <= dot < l.left + l.width)
    {
    }
  }

  lemma BandDrawn(l: Ladder, data: seq<Byte>, step: nat)
    requires Drawn(l, data, step, l.inkCols, 0)
    ensures Drawn(l, data, step + 1, 0, 0)
  {
    forall col: nat, dot: nat
      ensures InBands(l, step + 1, col, dot) <==> InBands(l, step, col, dot) || InBand(l, step, col, dot, l.inkCols)
    {
    }
  }

  lemma StepInside(l: Ladder, step: nat)
    requires l.inkCols <= l.bandCols && step < l.steps
    requires DEFAULT_MARGIN_DOTS + l.steps * l.bandCols + DEFAULT_MARGIN_DOTS <= l.height
    ensures DEFAULT_MARGIN_DOTS + step * l.bandCols + l.inkCols <= l.height
  {
    MulMono(step + 1, l.steps, l.bandCols);
    assert (step + 1) * l.bandCols == step * l.bandCols + l.bandCols;
  }

  method CreateSwatchLadder(labelWidthMm: nat, heightMm: nat, steps: nat)
      returns (image: seq<Byte>, heightDots: nat, perLine: nat, bandCols: nat)
    ensures var l := LadderOf(labelWidthMm, heightMm, steps);
            && heightDots == l.height && perLine == PRINTHEAD_BYTES_PER_LINE && bandCols == l.bandCols
            && |image| == heightDots * perLine
            && forall col: nat, dot: nat :: ColDot(image, perLine, col, dot) <==> InBands(l, steps, col, dot)
  {
    var l := LadderOf(labelWidthMm, heightMm, steps);
    var buf: array<Byte> := new Byte[l.height * PRINTHEAD_BYTES_PER_LINE](_ => 0);
    forall c: nat, d: nat ensures !ColDot(buf[..], PRINTHEAD_BYTES_PER_LINE, c, d) {
      BlankDots(buf[..], PRINTHEAD_BYTES_PER_LINE, c, d);
    }
    for step := 0 to steps
      invariant Drawn(l, buf[..], step, 0, 0)
    {
      for cols := 0 to l.inkCols
        invariant Drawn(l, buf[..], step, cols, 0)
      {
        StepInside(l, step);
        for dots := 0 to l.width
          invariant Drawn(l, buf[..], step, cols, dots)
        {
          DrawDot(l, buf, step, cols, dots);
        }
        ColumnDrawn(l, buf[..], step, cols);
      }
      BandDrawn(l, buf[..], step);
    }
    return buf[..], l.height, PRINTHEAD_BYTES_PER_LINE, l.bandCols;
  }

  datatype LadderError = NoDensities | TooShort

  /** Each step of the ladder is burned at its own trims, and no inked column of it is lost. */
  ghost predicate BurnsLadder(l: Ladder, densities: seq<Density>, buffers: seq<Buffer>)
    requires |densities| == l.steps
  {
    && |DecodeTrims(buffers, 1)| == l.steps * l.bandCols
    && (forall q: nat, r: nat, dot: nat :: q < l.steps && r < l.bandCols && dot < PRINTHEAD_WIDTH_DOTS ==>
          StepBurns(l, densities, buffers, q, r, dot))
  }

  /** Column `r` of step `q`. */
  ghost predicate StepBurns(l: Ladder, densities: seq<Density>, buffers: seq<Buffer>, q: nat, r: nat, dot: nat)
    requires |densities| == l.steps && q < l.steps && r < l.bandCols
  {
    var at := q * l.bandCols + r;
    && at < |DecodeTrims(buffers, 1)| && DecodeTrims(buffers, 1)[at] == TrimOf(densities[q])
    && (ColDot(DecodeImage(buffers), PRINTHEAD_BYTES_PER_LINE, at, dot) <==>
        r < l.inkCols && l.left <= dot < l.left + l.width)
  }

  /** The glue of the calibration print, up to the buffers. */
  method BuildSwatchLadder(labelWidthMm: nat, heightMm: nat, densities: seq<Density>) returns (r: Result<seq<Buffer>, LadderError>)
    requires heightMm * DOTS_PER_MM < 65536
    ensures var l := LadderOf(labelWidthMm, heightMm, |densities|);
            && (r == Err(NoDensities) <==> densities == [])
            && (r == Err(TooShort) <==> densities != [] && l.bandCols == 0)
            && (r.Ok? ==> BurnsLadder(l, densities, r.value))
  {
    if densities == [] {
      return Err(NoDensities);
    }
    ghost var l := LadderOf(labelWidthMm, heightMm, |densities|);
    var image, _, bpl, bandCols := CreateSwatchLadder(labelWidthMm, heightMm, |densities|);
    if bandCols == 0 {
      return Err(TooShort);
    }
    BandsFit(LessOrZero(l.height, 2 * DEFAULT_MARGIN_DOTS), |densities|);
    MulMono(1, |densities|, bandCols);
    var bands := seq(|densities|, i requires 0 <= i < |densities| => Band(bandCols, densities[i]));
    EvenTotal(bands, bandCols);
    var page := PageOptions(Mono, false);
    var buffers := SplitIntoBandedBuffers(image, bpl, bands, DEFAULT_MARGIN_DOTS, DEFAULT_MARGIN_DOTS, page);
    forall q: nat, c: nat, dot: nat | q < l.steps && c < l.bandCols && dot < PRINTHEAD_WIDTH_DOTS
      ensures StepBurns(l, densities, buffers, q, c, dot)
    {
      LadderStep(l, densities, image, bands, buffers, q, c, dot);
    }
    return Ok(buffers);
  }

  lemma LadderStep(l: Ladder, densities: seq<Density>, image: seq<Byte>, bands: seq<Band>, buffers: seq<Buffer>, q: nat, r: nat, dot: nat)
    requires |densities| == l.steps == |bands| && q < l.steps && r < l.bandCols < 65536 && l.inkCols <= l.bandCols
    requires forall i :: 0 <= i < |bands| ==> bands[i] == Band(l.bandCols, densities[i])
    requires forall col: nat, d: nat :: ColDot(image, PRINTHEAD_BYTES_PER_LINE, col, d) <==> InBands(l, l.steps, col, d)
    requires Tiles(buffers, image, PRINTHEAD_BYTES_PER_LINE, bands, DEFAULT_MARGIN_DOTS, DEFAULT_MARGIN_DOTS, PageOptions(Mono, false))
    ensures StepBurns(l, densities, buffers, q, r, dot)
  {
    var at := q * l.bandCols + r;
    EvenTotal(bands, l.bandCols);
    EvenBandTrims(bands, l.bandCols, q, r);
    ColumnsDots(image, PRINTHEAD_BYTES_PER_LINE, DEFAULT_MARGIN_DOTS, Total(bands), at, dot);
    OneStep(l, q, r, dot);
  }

  lemma OneBandOnly(l: Ladder, p: nat, q: nat, r: nat, dot: nat)
    requires r < l.bandCols && l.inkCols <= l.bandCols
    requires InBand(l, p, DEFAULT_MARGIN_DOTS + q * l.bandCols + r, dot, l.inkCols)
    ensures r < l.inkCols && l.left <= dot < l.left + l.width
  {
    SameCell(l.bandCols, p, q * l.bandCols + r - p * l.bandCols, q, r);
  }

  /** Bands do not overlap, so a column is inked only by the step it belongs to. */
  lemma OneStep(l: Ladder, q: nat, r: nat, dot: nat)
    requires q < l.steps && r < l.bandCols && l.inkCols <= l.bandCols
    ensures InBands(l, l.steps, DEFAULT_MARGIN_DOTS + q * l.bandCols + r, dot) <==>
            r < l.inkCols && l.left <= dot < l.left + l.width
  {
    var col := DEFAULT_MARGIN_DOTS + q * l.bandCols + r;
    if InBands(l, l.steps, col, dot) {
      var p: nat :| p < l.steps && InBand(l, p, col, dot, l.inkCols);
      OneBandOnly(l, p, q, r, dot);
    }
    if r < l.inkCols && l.left <= dot < l.left + l.width {
      assert InBand(l, q, col, dot, l.inkCols);
    }
  }

  // ---- The test pattern's buffer regions -------------------------------------------------------

  datatype Region = Region(from: nat, to: nat)

  function Widths(regions: seq<Region>): seq<int> {
    seq(|regions|, i requires 0 <= i < |regions| => regions[i].to - regions[i].from)
  }

  function EndOf(regions: seq<Region>, from: nat): nat {
    if |regions| == 0 then from else regions[|regions| - 1].to
  }

  /** The regions lie end to end from `from` to `to`. */
  ghost predicate Abut(regions: seq<Region>, from: nat, to: nat) {
    && (forall i :: 0 <= i < |regions| ==> regions[i].from == EndOf(regions[..i], from))
    && to == EndOf(regions, from)
  }

  lemma AbutNext(regions: seq<Region>, from: nat, col: nat, next: nat)
    requires Abut(regions, from, col)
    ensures Abut(regions + [Region(col, next)], from, next)
    ensures Widths(regions + [Region(col, next)]) == Widths(regions) + [next as int - col as int]
  {
    var r := regions + [Region(col, next)];
    forall i | 0 <= i < |r| ensures r[i].from == EndOf(r[..i], from) {
      assert r[..i] == regions[..i];
      if i == |regions| { assert regions[..i] == regions; }
    }
  }

  /** The regions so far, and what is still to be cut, make up the whole cut. */
  ghost predicate CutUpTo(regions: seq<Region>, col: nat, end: nat, maxCols: nat)
    requires DEFAULT_MARGIN_DOTS <= col <= end && maxCols > 0
  {
    && Abut(regions, DEFAULT_MARGIN_DOTS, col)
    && Widths(regions) + CutsOf(end - col, maxCols) == CutsOf(end - DEFAULT_MARGIN_DOTS, maxCols)
  }

  lemma CutNext(regions: seq<Region>, col: nat, end: nat, maxCols: nat)
    requires DEFAULT_MARGIN_DOTS <= col < end && maxCols > 0 && CutUpTo(regions, col, end, maxCols)
    ensures var next := Min(col + maxCols, end); CutUpTo(regions + [Region(col, next)], next, end, maxCols)
  {
    var next := Min(col + maxCols, end);
    AbutNext(regions, DEFAULT_MARGIN_DOTS, col, next);
    WidthsNext(Widths(regions), end - col, next - col, end - DEFAULT_MARGIN_DOTS, maxCols);
  }

  lemma WidthsNext(widths: seq<int>, left: nat, cut: nat, all: nat, maxCols: nat)
    requires maxCols > 0 && left > 0 && cut == Min(maxCols, left)
    requires widths + CutsOf(left, maxCols) == CutsOf(all, maxCols)
    ensures widths + [cut as int] + CutsOf(left - cut, maxCols) == CutsOf(all, maxCols)
  {
    assert CutsOf(left, maxCols) == [cut] + CutsOf(left - cut, maxCols);
    assert widths + ([cut as int] + CutsOf(left - cut, maxCols)) == widths + [cut as int] + CutsOf(left - cut, maxCols);
  }

  /**
   The column ranges the pattern numbers, worked out without the tiler; `None` is the unchecked
   subtraction of the bottom margin overflowing.
   */
  method TestPatternRegions(heightDots: nat) returns (r: Option<seq<Region>>)
    ensures r.None? <==> heightDots < DEFAULT_MARGIN_DOTS
    ensures r.Some? ==>
              var printable := LessOrZero(heightDots, 2 * DEFAULT_MARGIN_DOTS);
              && Abut(r.value, DEFAULT_MARGIN_DOTS, DEFAULT_MARGIN_DOTS + printable)
              && Widths(r.value) == CutsOf(printable, MAX_BUF_DATA / PRINTHEAD_BYTES_PER_LINE)
  {
    if heightDots < DEFAULT_MARGIN_DOTS {
      return None;
    }
    var maxCols := MAX_BUF_DATA / PRINTHEAD_BYTES_PER_LINE;
    var end := heightDots - DEFAULT_MARGIN_DOTS;
    ghost var last := DEFAULT_MARGIN_DOTS + LessOrZero(heightDots, 2 * DEFAULT_MARGIN_DOTS);
    var regions := [];
    var col := DEFAULT_MARGIN_DOTS;
    while col < end
      invariant DEFAULT_MARGIN_DOTS <= col <= last && CutUpTo(regions, col, last, maxCols)
    {
      var next := Min(col + maxCols, end);
      CutNext(regions, col, last, maxCols);
      regions := regions + [Region(col, next)];
      col := next;
    }
    return Some(regions);
  }

  lemma TiledCols(image: seq<Byte>, cols: U16, density: Density, buffers: seq<Buffer>)
    requires Tiles(buffers, image, PRINTHEAD_BYTES_PER_LINE, [Band(cols, density)], DEFAULT_MARGIN_DOTS, DEFAULT_MARGIN_DOTS,
                   PageOptions(Mono, false))
    ensures DecodeCols(buffers, 1) == CutsOf(cols, MAX_BUF_DATA / PRINTHEAD_BYTES_PER_LINE)
    ensures DecodeImage(buffers) == Columns(image, PRINTHEAD_BYTES_PER_LINE, DEFAULT_MARGIN_DOTS, cols)
    ensures WholeColumns(Payloads(buffers), DecodeCols(buffers, 1), PRINTHEAD_BYTES_PER_LINE)
  {
    PageIsWholeColumns(buffers, PRINTHEAD_BYTES_PER_LINE, DEFAULT_MARGIN_DOTS, DEFAULT_MARGIN_DOTS, PageOptions(Mono, false));
    OneBand(Band(cols, density));
    assert MaxCols(PRINTHEAD_BYTES_PER_LINE, PageOptions(Mono, false)) == MAX_BUF_DATA / PRINTHEAD_BYTES_PER_LINE;
  }

  /** Regions that abut start where the widths ahead of them end. */
  lemma {:induction false} Starts(regions: seq<Region>, from: nat, end: nat, cols: seq<nat>, i: nat)
    requires Abut(regions, from, end) && Widths(regions) == cols && i <= |regions|
    ensures EndOf(regions[..i], from) == from + SumOf(cols, i)
  {
    if i > 0 {
      Starts(regions, from, end, cols, i - 1);
      assert regions[i - 1].from == EndOf(regions[..i - 1], from);
      assert cols[i - 1] == Widths(regions)[i - 1];
    }
  }

  /** The buffer carries the columns of the region, all of them and no others. */
  ghost predicate RegionCarried(image: seq<Byte>, region: Region, b: Buffer) {
    region.from <= region.to && RangeCarried(image, region, LineCount(b), Payload(b))
  }

  ghost predicate RangeCarried(image: seq<Byte>, region: Region, count: nat, lines: seq<Byte>)
    requires region.from <= region.to
  {
    count == region.to - region.from
    && IsRange(lines, image, PRINTHEAD_BYTES_PER_LINE, region.from, region.to - region.from)
  }

  /** Region `i` is part `i` of the columns. */
  lemma OneRegion(image: seq<Byte>, n: nat, regions: seq<Region>, parts: seq<seq<Byte>>, cols: seq<nat>, i: nat)
    requires Abut(regions, DEFAULT_MARGIN_DOTS, DEFAULT_MARGIN_DOTS + n) && Widths(regions) == cols && i < |regions|
    requires WholeColumns(parts, cols, PRINTHEAD_BYTES_PER_LINE) && n == SumOf(cols, |cols|)
    requires Flat(parts) == Columns(image, PRINTHEAD_BYTES_PER_LINE, DEFAULT_MARGIN_DOTS, n)
    ensures regions[i].from <= regions[i].to && RangeCarried(image, regions[i], cols[i], parts[i])
  {
    assert cols[i] == Widths(regions)[i];
    PartCarries(parts, cols, image, PRINTHEAD_BYTES_PER_LINE, DEFAULT_MARGIN_DOTS, i);
    Starts(regions, DEFAULT_MARGIN_DOTS, DEFAULT_MARGIN_DOTS + n, cols, i);
    assert regions[i].from == EndOf(regions[..i], DEFAULT_MARGIN_DOTS);
  }

  lemma AllRegions(image: seq<Byte>, n: nat, regions: seq<Region>, buffers: seq<Buffer>)
    requires Abut(regions, DEFAULT_MARGIN_DOTS, DEFAULT_MARGIN_DOTS + n)
    requires Widths(regions) == DecodeCols(buffers, 1) == CutsOf(n, MAX_BUF_DATA / PRINTHEAD_BYTES_PER_LINE)
    requires DecodeImage(buffers) == Columns(image, PRINTHEAD_BYTES_PER_LINE, DEFAULT_MARGIN_DOTS, n)
    requires WholeColumns(Payloads(buffers), DecodeCols(buffers, 1), PRINTHEAD_BYTES_PER_LINE)
    ensures |regions| == |buffers|
    ensures forall i :: 0 <= i < |buffers| ==> RegionCarried(image, regions[i], buffers[i])
  {
    DecodedCols(buffers, 1);
    assert |Widths(regions)| == |regions|;
    CutsSum(n, MAX_BUF_DATA / PRINTHEAD_BYTES_PER_LINE);
    PayloadsAreImage(buffers);
    forall i | 0 <= i < |buffers| ensures RegionCarried(image, regions[i], buffers[i]) {
      OneRegion(image, n, regions, Payloads(buffers), DecodeCols(buffers, 1), i);
    }
  }

  /** Pattern and tiler agree: region `i` is exactly the range of columns that buffer `i` carries. */
  lemma RegionsAreBuffers(image: seq<Byte>, heightDots: U16, density: Density, regions: seq<Region>, buffers: seq<Buffer>)
    requires 2 * DEFAULT_MARGIN_DOTS <= heightDots
    requires Abut(regions, DEFAULT_MARGIN_DOTS, heightDots - DEFAULT_MARGIN_DOTS)
    requires Widths(regions) == CutsOf(heightDots - 2 * DEFAULT_MARGIN_DOTS, MAX_BUF_DATA / PRINTHEAD_BYTES_PER_LINE)
    requires Tiles(buffers, image, PRINTHEAD_BYTES_PER_LINE, [Band(heightDots - 2 * DEFAULT_MARGIN_DOTS, density)],
                   DEFAULT_MARGIN_DOTS, DEFAULT_MARGIN_DOTS, PageOptions(Mono, false))
    ensures |regions| == |buffers|
    ensures forall i :: 0 <= i < |buffers| ==> RegionCarried(image, regions[i], buffers[i])
  {
    TiledCols(image, heightDots - 2 * DEFAULT_MARGIN_DOTS, density, buffers);
    AllRegions(image, heightDots - 2 * DEFAULT_MARGIN_DOTS, regions, buffers);
  }
}
