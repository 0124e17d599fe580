/** Red and black bitplanes from an RGB image, interleaved for the wire. */
module TwoColour {
  import opened Wrappers
  import opened Bytes
  import opened Bitmap
  import opened Buffers
  import opened Tiling

  const BLANK_THRESHOLD: Byte := 125
  const BLACK_THRESHOLD: Byte := 48

  datatype Plane = Red | Black

  /** The vendor's luminance; its floating-point rounding is not modelled. */
  type Luma = (Byte, Byte, Byte) -> Byte

  function Classify(luma: Byte): Option<Plane> {
    if luma >= BLANK_THRESHOLD then None
    else if luma > BLACK_THRESHOLD then Some(Red)
    else Some(Black)
  }

  /** Which plane's dot a luminance lights: red from 49 to 124, black up to 48. */
  predicate InPlane(plane: Plane, l: Byte) {
    match plane
    case Red => 48 < l < 125
    case Black => l <= 48
  }

  /** Pixel (x, y) of an RGB image lights the dot of `plane`; pixels past the end of the data light none. */
  predicate PixelIn(plane: Plane, luma: Luma, rgb: seq<Byte>, width: nat, y: nat, x: nat) {
    var px := (y * width + x) * 3;
    px + 3 <= |rgb| && InPlane(plane, luma(rgb[px], rgb[px + 1], rgb[px + 2]))
  }

  /** `data` holds exactly the pixels of one plane, one column per image row. */
  ghost predicate IsPlane(plane: Plane, luma: Luma, rgb: seq<Byte>, width: nat, height: nat, data: seq<Byte>) {
    && |data| == height * BytesFor(width)
    && PlaneSoFar(plane, luma, rgb, width, data, height, 0)
  }

  ghost predicate PlaneSoFar(plane: Plane, luma: Luma, rgb: seq<Byte>, width: nat, data: seq<Byte>, y: nat, x: nat) {
    forall r: nat, c: nat :: ColDot(data, BytesFor(width), r, c) <==>
      (r < y || (r == y && c < x)) && c < width && PixelIn(plane, luma, rgb, width, r, c)
  }

  /** Classify one pixel and light its dot in the plane it belongs to. */
  method SplitPixel(luma: Luma, rgb: seq<Byte>, width: nat, height: nat, red: array<Byte>, black: array<Byte>, y: nat, x: nat)
    requires red != black && red.Length == black.Length == height * BytesFor(width) && y < height && x < width
    requires PlaneSoFar(Red, luma, rgb, width, red[..], y, x) && PlaneSoFar(Black, luma, rgb, width, black[..], y, x)
    modifies red, black
    ensures PlaneSoFar(Red, luma, rgb, width, red[..], y, x + 1) && PlaneSoFar(Black, luma, rgb, width, black[..], y, x + 1)
  {
    var px := (y * width + x) * 3;
    var plane := if px + 3 <= |rgb| then Classify(luma(rgb[px], rgb[px + 1], rgb[px + 2])) else None;
    CellInside(BytesFor(width), height, y, x / 8);
    if plane == Some(Red) {
      OrDot(red, BytesFor(width), y, x);
    } else if plane == Some(Black) {
      OrDot(black, BytesFor(width), y, x);
    }
  }

  lemma PlaneRow(plane: Plane, luma: Luma, rgb: seq<Byte>, width: nat, data: seq<Byte>, y: nat)
    requires PlaneSoFar(plane, luma, rgb, width, data, y, width)
    ensures PlaneSoFar(plane, luma, rgb, width, data, y + 1, 0)
  {
  }

  lemma BlankPlane(plane: Plane, luma: Luma, rgb: seq<Byte>, width: nat, data: seq<Byte>)
    requires forall i :: 0 <= i < |data| ==> data[i] == 0
    ensures PlaneSoFar(plane, luma, rgb, width, data, 0, 0)
  {
    forall r: nat, c: nat ensures !ColDot(data, BytesFor(width), r, c) { BlankDots(data, BytesFor(width), r, c); }
  }

  method RgbToPlanes(luma: Luma, rgb: seq<Byte>, width: nat, height: nat)
      returns (red: seq<Byte>, black: seq<Byte>, cols: nat, perLine: nat)
    ensures IsPlane(Red, luma, rgb, width, height, red) && IsPlane(Black, luma, rgb, width, height, black)
    ensures cols == height && perLine == BytesFor(width)
  {
    var stride := BytesFor(width);
    var r: array<Byte> := new Byte[height * stride](_ => 0);
    var b: array<Byte> := new Byte[height * stride](_ => 0);
    BlankPlane(Red, luma, rgb, width, r[..]);
    BlankPlane(Black, luma, rgb, width, b[..]);
    for y := 0 to height
      invariant PlaneSoFar(Red, luma, rgb, width, r[..], y, 0) && PlaneSoFar(Black, luma, rgb, width, b[..], y, 0)
    {
      for x := 0 to width
        invariant PlaneSoFar(Red, luma, rgb, width, r[..], y, x) && PlaneSoFar(Black, luma, rgb, width, b[..], y, x)
      {
        SplitPixel(luma, rgb, width, height, r, b, y, x);
      }
      PlaneRow(Red, luma, rgb, width, r[..], y);
      PlaneRow(Black, luma, rgb, width, b[..], y);
    }
    return r[..], b[..], height, stride;
  }

  /**
   Plane by plane: a dot is red exactly where its pixel's luminance is from 49 to 124 and black exactly where
   it is at most 48. So no dot is in both planes, and together they are the pixels dark enough to ink.
   */
  lemma PlanesPartitionInk(luma: Luma, rgb: seq<Byte>, width: nat, height: nat, red: seq<Byte>, black: seq<Byte>, y: nat, x: nat)
    requires IsPlane(Red, luma, rgb, width, height, red) && IsPlane(Black, luma, rgb, width, height, black)
    ensures var stride, px := BytesFor(width), (y * width + x) * 3;
            && (ColDot(red, stride, y, x) <==>
                y < height && x < width && px + 3 <= |rgb| && 48 < luma(rgb[px], rgb[px + 1], rgb[px + 2]) < 125)
            && (ColDot(black, stride, y, x) <==>
                y < height && x < width && px + 3 <= |rgb| && luma(rgb[px], rgb[px + 1], rgb[px + 2]) <= 48)
            && !(ColDot(red, stride, y, x) && ColDot(black, stride, y, x))
            && (ColDot(red, stride, y, x) || ColDot(black, stride, y, x) <==>
                y < height && x < width && px + 3 <= |rgb|
                && luma(rgb[px], rgb[px + 1], rgb[px + 2]) < 125)
  {
  }

  // ---- Interleaving --------------------------------------------------------------------------

  /** One line of a packed plane. */
  function Line(data: seq<Byte>, perLine: nat, c: nat): (r: seq<Byte>)
    ensures |r| == perLine
  {
    Columns(data, perLine, c, 1)
  }

  /** The first `cols` columns, each a red line followed by its black line. */
  function Interleaved(red: seq<Byte>, black: seq<Byte>, perLine: nat, cols: nat): (r: seq<Byte>)
    ensures |r| == cols * (2 * perLine)
  {
    if cols == 0 then [] else
      Interleaved(red, black, perLine, cols - 1) + Line(red, perLine, cols - 1) + Line(black, perLine, cols - 1)
  }

  lemma LineIsSlice(data: seq<Byte>, perLine: nat, cols: nat, c: nat)
    requires |data| == cols * perLine && c < cols
    ensures 0 <= c * perLine <= (c + 1) * perLine <= |data|
    ensures data[c * perLine..(c + 1) * perLine] == Line(data, perLine, c)
  {
    MulMono(0, c, perLine);
    MulMono(c + 1, cols, perLine);
    assert (c + 1) * perLine == c * perLine + perLine;
  }

  method InterleavePlanes(red: seq<Byte>, black: seq<Byte>, perLine: nat, cols: nat) returns (r: Option<seq<Byte>>)
    ensures r.Some? <==> |red| == |black| == cols * perLine
    ensures r.Some? ==> r.value == Interleaved(red, black, perLine, cols)
  {
    if |red| != cols * perLine || |black| != cols * perLine {
      return None;
    }
    var out: seq<Byte> := [];
    for col := 0 to cols
      invariant out == Interleaved(red, black, perLine, col)
    {
      LineIsSlice(red, perLine, cols, col);
      LineIsSlice(black, perLine, cols, col);
      out := out + red[col * perLine..(col + 1) * perLine] + black[col * perLine..(col + 1) * perLine];
    }
    return Some(out);
  }

  // ---- The firmware's reading of the planes -----------------------------------------------------

  /** The `n` lines of one plane of interleaved data. */
  function PlaneLines(plane: Plane, data: seq<Byte>, perLine: nat, n: nat): seq<Byte> {
    if n == 0 then [] else
      var pair := Line(data, 2 * perLine, n - 1);
      PlaneLines(plane, data, perLine, n - 1) + (if plane.Red? then pair[..perLine] else pair[perLine..])
  }

  lemma WindowLeft(a: seq<Byte>, b: seq<Byte>, start: nat, n: nat)
    requires start + n <= |a|
    ensures Window(a + b, start, n) == Window(a, start, n)
  {
  }

  lemma {:induction false} InterleavedLine(red: seq<Byte>, black: seq<Byte>, perLine: nat, cols: nat, c: nat)
    requires c < cols
    ensures Line(Interleaved(red, black, perLine, cols), 2 * perLine, c) == Line(red, perLine, c) + Line(black, perLine, c)
    decreases cols
  {
    var last := Line(red, perLine, cols - 1) + Line(black, perLine, cols - 1);
    var rest := Interleaved(red, black, perLine, cols - 1);
    assert Interleaved(red, black, perLine, cols) == rest + last;
    MulMono(0, c, 2 * perLine);
    if c < cols - 1 {
      InterleavedLine(red, black, perLine, cols - 1, c);
      MulMono(c + 1, cols - 1, 2 * perLine);
      assert (c + 1) * (2 * perLine) == c * (2 * perLine) + 2 * perLine;
      WindowLeft(rest, last, c * (2 * perLine), 2 * perLine);
    } else {
      assert Window(rest + last, |rest|, 2 * perLine) == last;
    }
  }

  lemma LineOfColumns(image: seq<Byte>, stride: nat, from: nat, n: nat, c: nat)
    requires c < n
    ensures Line(Columns(image, stride, from, n), stride, c) == Line(image, stride, from + c)
  {
    MulMono(0, c, stride);
    MulMono(0, from, stride);
    MulMono(c + 1, n, stride);
    assert (from + c) * stride == from * stride + c * stride;
    assert (c + 1) * stride == c * stride + stride;
  }

  /** Reading the planes back out of any run of interleaved columns gives both planes, unchanged. */
  lemma {:induction false} PlanesComeBack(plane: Plane, red: seq<Byte>, black: seq<Byte>, perLine: nat, cols: nat,
      from: nat, total: nat, n: nat)
    requires n <= total && from + total <= cols
    ensures PlaneLines(plane, Columns(Interleaved(red, black, perLine, cols), 2 * perLine, from, total), perLine, n) ==
            Columns(if plane.Red? then red else black, perLine, from, n)
    decreases n
  {
    var inter := Interleaved(red, black, perLine, cols);
    var data := if plane.Red? then red else black;
    if n > 0 {
      PlanesComeBack(plane, red, black, perLine, cols, from, total, n - 1);
      LineOfColumns(inter, 2 * perLine, from, total, n - 1);
      InterleavedLine(red, black, perLine, cols, from + n - 1);
      ColumnsJoin(data, perLine, from, n - 1, 1);
    }
  }

  /** `ZeroStride` is the division by a line width that is zero once cut to 8 bits. */
  datatype PrintError = ShortData | NothingAfterMargins | ZeroStride

  /** What the firmware will burn in one plane: `n` columns of it, `from` image rows down. */
  ghost predicate BurnsPlane(plane: Plane, luma: Luma, rgb: seq<Byte>, width: nat, from: nat, n: nat, lines: seq<Byte>) {
    && |lines| == n * BytesFor(width)
    && forall c: nat, x: nat :: c < n && x < width ==>
         (ColDot(lines, BytesFor(width), c, x) <==> PixelIn(plane, luma, rgb, width, from + c, x))
  }

  lemma PlaneBurns(plane: Plane, luma: Luma, rgb: seq<Byte>, width: nat, height: nat, data: seq<Byte>, from: nat, n: nat)
    requires IsPlane(plane, luma, rgb, width, height, data) && from + n <= height
    ensures BurnsPlane(plane, luma, rgb, width, from, n, Columns(data, BytesFor(width), from, n))
  {
    forall c: nat, x: nat | c < n && x < width
      ensures ColDot(Columns(data, BytesFor(width), from, n), BytesFor(width), c, x) <==>
              PixelIn(plane, luma, rgb, width, from + c, x)
    {
      ColumnsDots(data, BytesFor(width), from, n, c, x);
      assert ColDot(data, BytesFor(width), from + c, x) <==> PixelIn(plane, luma, rgb, width, from + c, x);
    }
  }

  /**
   Read back plane by plane, the buffers burn every image row between the margins: red exactly where
   a pixel classifies red, black exactly where it classifies black, each at its own trim. Every
   buffer holds whole red/black pairs.
   */
  ghost predicate BurnsPage(luma: Luma, rgb: seq<Byte>, width: nat, height: nat, density: Density, buffers: seq<Buffer>)
  {
    var bpl, n := BytesFor(width), height - 2 * DEFAULT_MARGIN_DOTS;
    && n > 0 && |DecodeImage(buffers)| == n * (2 * bpl)
    && BurnsPlane(Red, luma, rgb, width, DEFAULT_MARGIN_DOTS, n, PlaneLines(Red, DecodeImage(buffers), bpl, n))
    && BurnsPlane(Black, luma, rgb, width, DEFAULT_MARGIN_DOTS, n, PlaneLines(Black, DecodeImage(buffers), bpl, n))
    && DecodeTrims(buffers, 2) == Repeat(TrimOf(density), n)
    && forall i :: 0 <= i < |buffers| ==> LineCount(buffers[i]) % 2 == 0 && FirstCut(buffers[i]) == 2
  }

  /** What tiling says of a two-colour page. */
  ghost predicate TiledPairs(image: seq<Byte>, perLine: nat, printable: nat, density: Density, buffers: seq<Buffer>) {
    && DecodeImage(buffers) == Columns(image, 2 * perLine, DEFAULT_MARGIN_DOTS, printable)
    && DecodeTrims(buffers, 2) == Repeat(TrimOf(density), printable)
    && forall i :: 0 <= i < |buffers| ==> LineCount(buffers[i]) % 2 == 0 && FirstCut(buffers[i]) == 2
  }

  lemma TwoLinesPerColumn(perLine: nat, page: PageOptions)
    requires page.colour.TwoColour?
    ensures perLine * page.colour.Planes() == 2 * perLine
  {
  }

  lemma TilesArePairs(image: seq<Byte>, perLine: Byte, printable: U16, density: Density, buffers: seq<Buffer>)
    requires 0 < perLine
    requires Tiles(buffers, image, perLine, [Band(printable, density)], DEFAULT_MARGIN_DOTS, DEFAULT_MARGIN_DOTS,
                   PageOptions(TwoColour, false))
    ensures TiledPairs(image, perLine, printable, density, buffers)
  {
    OneBand(Band(printable, density));
    TwoLinesPerColumn(perLine, PageOptions(TwoColour, false));
    forall i | 0 <= i < |buffers| ensures LineCount(buffers[i]) % 2 == 0 && FirstCut(buffers[i]) == 2 {
      assert BufferOfPage(buffers[i], perLine, DEFAULT_MARGIN_DOTS, DEFAULT_MARGIN_DOTS, PageOptions(TwoColour, false));
    }
  }

  lemma PairsBurn(luma: Luma, rgb: seq<Byte>, width: nat, height: nat, density: Density, perLine: nat, printable: nat,
      red: seq<Byte>, black: seq<Byte>, image: seq<Byte>, buffers: seq<Buffer>)
    requires perLine == BytesFor(width) && 0 < printable == height - 2 * DEFAULT_MARGIN_DOTS
    requires IsPlane(Red, luma, rgb, width, height, red) && IsPlane(Black, luma, rgb, width, height, black)
    requires image == Interleaved(red, black, perLine, height) && TiledPairs(image, perLine, printable, density, buffers)
    ensures BurnsPage(luma, rgb, width, height, density, buffers)
  {
    PlanesBurn(luma, rgb, width, height, red, black, printable);
  }

  /** The columns between the margins, read plane by plane, are the page's planes. */
  lemma PlanesBurn(luma: Luma, rgb: seq<Byte>, width: nat, height: nat, red: seq<Byte>, black: seq<Byte>, n: nat)
    requires height == n + 2 * DEFAULT_MARGIN_DOTS
    requires IsPlane(Red, luma, rgb, width, height, red) && IsPlane(Black, luma, rgb, width, height, black)
    ensures var bpl := BytesFor(width);
            var lines := Columns(Interleaved(red, black, bpl, height), 2 * bpl, DEFAULT_MARGIN_DOTS, n);
            && BurnsPlane(Red, luma, rgb, width, DEFAULT_MARGIN_DOTS, n, PlaneLines(Red, lines, bpl, n))
            && BurnsPlane(Black, luma, rgb, width, DEFAULT_MARGIN_DOTS, n, PlaneLines(Black, lines, bpl, n))
  {
    var bpl := BytesFor(width);
    PlaneBurns(Red, luma, rgb, width, height, red, DEFAULT_MARGIN_DOTS, n);
    PlaneBurns(Black, luma, rgb, width, height, black, DEFAULT_MARGIN_DOTS, n);
    PlanesComeBack(Red, red, black, bpl, height, DEFAULT_MARGIN_DOTS, n, n);
    PlanesComeBack(Black, red, black, bpl, height, DEFAULT_MARGIN_DOTS, n, n);
  }

  /** A page tiled with its line width or its length cut short decodes to too little. */
  lemma CutPageDoesNotBurn(luma: Luma, rgb: seq<Byte>, width: nat, height: nat, density: Density, perLine: Byte, printable: U16,
      buffers: seq<Buffer>)
    requires 0 < perLine == BytesFor(width) % 256 && 0 < printable == height % 65536 - 2 * DEFAULT_MARGIN_DOTS
    requires BytesFor(width) >= 256 || height >= 65536
    requires |DecodeImage(buffers)| == printable * (2 * perLine)
    ensures !BurnsPage(luma, rgb, width, height, density, buffers)
  {
    FewerBytes(printable, perLine, height - 2 * DEFAULT_MARGIN_DOTS, BytesFor(width));
  }

  lemma FewerBytes(cols: nat, perLine: nat, n: nat, bpl: nat)
    requires 0 < cols <= n && 0 < perLine <= bpl && (cols < n || perLine < bpl)
    ensures cols * (2 * perLine) < n * (2 * bpl)
  {
    if cols < n {
      MulMono(cols + 1, n, perLine * 2);
      MulMono(perLine * 2, bpl * 2, n);
    } else {
      MulMono(perLine * 2 + 2, bpl * 2, n);
    }
  }

  /** The buffers burn the page exactly when neither its line width nor its length was cut short. */
  lemma BurnsWhenUncut(luma: Luma, rgb: seq<Byte>, width: nat, height: nat, density: Density, perLine: nat, printable: nat,
      red: seq<Byte>, black: seq<Byte>, image: seq<Byte>, buffers: seq<Buffer>)
    requires 0 < perLine == BytesFor(width) % 256 && 0 < printable == height % 65536 - 2 * DEFAULT_MARGIN_DOTS
    requires IsPlane(Red, luma, rgb, width, height, red) && IsPlane(Black, luma, rgb, width, height, black)
    requires image == Interleaved(red, black, BytesFor(width), height) && TiledPairs(image, perLine, printable, density, buffers)
    ensures BurnsPage(luma, rgb, width, height, density, buffers) <==> BytesFor(width) < 256 && height < 65536
  {
    if perLine == BytesFor(width) && printable == height - 2 * DEFAULT_MARGIN_DOTS {
      PairsBurn(luma, rgb, width, height, density, perLine, printable, red, black, image, buffers);
    } else {
      CutPageDoesNotBurn(luma, rgb, width, height, density, perLine, printable, buffers);
    }
  }

  /** Tile interleaved lines, their width cut to 8 bits and their number to 16. */
  method TilePairs(image: seq<Byte>, cols: nat, bpl: nat, density: Density) returns (error: Option<PrintError>, buffers: seq<Buffer>)
    ensures error == Some(NothingAfterMargins) <==> cols % 65536 <= 2 * DEFAULT_MARGIN_DOTS
    ensures error == Some(ZeroStride) <==> cols % 65536 > 2 * DEFAULT_MARGIN_DOTS && bpl % 256 == 0
    ensures error != Some(ShortData)
    ensures error.None? ==> TiledPairs(image, bpl % 256, cols % 65536 - 2 * DEFAULT_MARGIN_DOTS, density, buffers)
  {
    var cut := cols % 65536;
    var printable := if cut < 2 * DEFAULT_MARGIN_DOTS then 0 else cut - 2 * DEFAULT_MARGIN_DOTS;
    if printable == 0 {
      return Some(NothingAfterMargins), [];
    }
    var perLine := bpl % 256;
    if perLine == 0 {
      return Some(ZeroStride), [];
    }
    OneBand(Band(printable, density));
    buffers := SplitIntoBandedBuffers(image, perLine, [Band(printable, density)],
                                      DEFAULT_MARGIN_DOTS, DEFAULT_MARGIN_DOTS, PageOptions(TwoColour, false));
    TilesArePairs(image, perLine, printable, density, buffers);
    error := None;
  }

  /**
   The buffers of a two-colour page. The line width is cut to 8 bits and the number of lines to 16: the
   buffers burn the page exactly when neither cut loses anything.
   */
  method BuildTwoColour(luma: Luma, rgb: seq<Byte>, width: nat, height: nat, density: Density)
      returns (error: Option<PrintError>, buffers: seq<Buffer>)
    ensures error == Some(ShortData) <==> |rgb| < width * height * 3
    ensures error == Some(NothingAfterMargins) <==>
              |rgb| >= width * height * 3 && height % 65536 <= 2 * DEFAULT_MARGIN_DOTS
    ensures error == Some(ZeroStride) <==>
              |rgb| >= width * height * 3 && height % 65536 > 2 * DEFAULT_MARGIN_DOTS && BytesFor(width) % 256 == 0
    ensures error.None? ==>
              (BurnsPage(luma, rgb, width, height, density, buffers) <==> BytesFor(width) < 256 && height < 65536)
  {
    if |rgb| < width * height * 3 {
      return Some(ShortData), [];
    }
    var red, black, cols, bpl := RgbToPlanes(luma, rgb, width, height);
    var interleaved := InterleavePlanes(red, black, bpl, cols);
    error, buffers := TilePairs(interleaved.value, cols, bpl, density);
    if error.None? {
      BurnsWhenUncut(luma, rgb, width, height, density, bpl % 256, cols % 65536 - 2 * DEFAULT_MARGIN_DOTS,
                     red, black, interleaved.value, buffers);
    }
  }
}
