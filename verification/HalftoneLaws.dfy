/** What the tables, thresholds and kernels amount to, said without them. */
module HalftoneLaws {
  import opened Bytes
  import opened Halftone
  import opened ErrorCarry
  import opened Stability

  // ---- The tone table --------------------------------------------------------------------------

  /** How far the table may rise from one grey to the next: steeply out of black, then ever more slowly. */
  function StepAfter(v: nat): nat {
    if v == 0 then 50 else if v == 1 then 8 else if v == 2 then 5 else if v == 3 then 4 else if v == 4 then 3
    else if v < 34 then 2 else 1
  }

  /** The table never falls and never jumps. */
  lemma TableRises(v: Byte)
    requires v < 255
    ensures SrgbToLinear(v) <= SrgbToLinear(v + 1) <= SrgbToLinear(v) + StepAfter(v)
  {
    var row, c := v / 16, v % 16;
    if c < 15 {
      assert (v + 1) / 16 == row && (v + 1) % 16 == c + 1;
      if row < 4 { RisesInDarks(v); } else if row < 10 { RisesInMids(v); } else { RisesInLights(v); }
    }
  }

  lemma RisesInDarks(v: Byte)
    requires v / 16 < 4 && v % 16 < 15
    ensures SrgbToLinear(v) <= SrgbToLinear(v + 1) <= SrgbToLinear(v) + StepAfter(v)
  {
  }

  lemma RisesInMids(v: Byte)
    requires 4 <= v / 16 < 10 && v % 16 < 15
    ensures SrgbToLinear(v) <= SrgbToLinear(v + 1) <= SrgbToLinear(v) + 1
  {
  }

  lemma RisesInLights(v: Byte)
    requires 10 <= v / 16 && v % 16 < 15
    ensures SrgbToLinear(v) <= SrgbToLinear(v + 1) <= SrgbToLinear(v) + 1
  {
  }

  lemma {:induction false} TableIsMonotone(a: Byte, b: Byte)
    requires a <= b
    ensures SrgbToLinear(a) <= SrgbToLinear(b)
    decreases b - a
  {
    if a < b {
      TableIsMonotone(a, b - 1);
      TableRises(b - 1);
    }
  }

  /** Of 255 parts of light: none in black, half left at 48, three quarters at 128, seven eighths at 192, all in white. */
  lemma TableKeyMappings()
    ensures SrgbToLinear(0) == 0 && SrgbToLinear(255) == 255
    ensures SrgbToLinear(48) == 126 && SrgbToLinear(128) == 188 && SrgbToLinear(192) == 224
  {
  }

  // ---- The ordered dither ------------------------------------------------------------------------

  /** The 2x2 pattern the matrix is built from. */
  function Quad(row: nat, col: nat): nat
    requires row < 2 && col < 2
  {
    if row == 0 then 2 * col else 3 - 2 * col
  }

  /** Rank of a position in its 4x4 tile: the pattern within the pattern. */
  function Rank(y: nat, mx: nat): (r: nat)
    ensures r < 16
  {
    4 * Quad(y % 2, mx % 2) + Quad(y / 2 % 2, mx / 2 % 2)
  }

  /** Which threshold applies where: dot (y, mx) is inked below 8 and 16 more for each rank. */
  lemma OrderedThreshold(v: Byte, y: nat, mx: nat)
    ensures BayerInk(v, y, mx) <==> SrgbToLinear(v) < 8 + 16 * Rank(y, mx)
  {
    PatternInPattern(y % 4, mx % 4);
    Halves(y);
    Halves(mx);
  }

  lemma Halves(n: nat)
    ensures n % 2 == n % 4 % 2 && n / 2 % 2 == n % 4 / 2
  {
  }

  lemma PatternInPattern(row: nat, col: nat)
    requires row < 4 && col < 4
    ensures Bayer4(row, col) == 8 + 16 * (4 * Quad(row % 2, col % 2) + Quad(row / 2, col / 2))
  {
  }

  /** Which dots a screen inks. */
  type Inks = (nat, nat) -> bool

  function Blank(inks: Inks, y: nat, mx: nat): nat {
    if inks(y, mx) then 0 else 1
  }

  function BlankInRow(inks: Inks, y: nat, mx: nat): nat {
    Blank(inks, y, mx) + Blank(inks, y, mx + 1) + Blank(inks, y, mx + 2) + Blank(inks, y, mx + 3)
  }

  /** How many of the sixteen dots of the tile at (y, mx) a screen leaves blank. */
  function BlankInTile(inks: Inks, y: nat, mx: nat): nat {
    BlankInRow(inks, y, mx) + BlankInRow(inks, y + 1, mx) + BlankInRow(inks, y + 2, mx) + BlankInRow(inks, y + 3, mx)
  }

  function Over(t: nat, threshold: nat): nat {
    if t < threshold then 0 else 1
  }

  /** The dot `j` down and `i` across in the tile at (y, mx) has the threshold of the matrix. */
  ghost predicate DotThreshold(inks: Inks, t: nat, y: nat, mx: nat, j: nat, i: nat)
    requires j < 4 && i < 4
  {
    Blank(inks, y + j, mx + i) == Over(t, Bayer4(j, i))
  }

  ghost predicate TileThresholds(inks: Inks, t: nat, y: nat, mx: nat) {
    forall j: nat, i: nat :: j < 4 && i < 4 ==> DotThreshold(inks, t, y, mx, j, i)
  }

  lemma RowShare(inks: Inks, t: nat, y: nat, mx: nat, j: nat, row: nat)
    requires TileThresholds(inks, t, y, mx) && j < 4 && row == y + j
    ensures BlankInRow(inks, row, mx) == Over(t, Bayer4(j, 0)) + Over(t, Bayer4(j, 1)) + Over(t, Bayer4(j, 2)) + Over(t, Bayer4(j, 3))
  {
    assert DotThreshold(inks, t, y, mx, j, 0) && DotThreshold(inks, t, y, mx, j, 1);
    assert DotThreshold(inks, t, y, mx, j, 2) && DotThreshold(inks, t, y, mx, j, 3);
  }

  /** A tile under the sixteen thresholds: each is 16 above the one of the rank below. */
  lemma TileShare(inks: Inks, t: nat, y: nat, mx: nat)
    requires t < 256 && TileThresholds(inks, t, y, mx)
    ensures BlankInTile(inks, y, mx) == (t + 8) / 16
  {
    RowShare(inks, t, y, mx, 0, y);
    RowShare(inks, t, y, mx, 1, y + 1);
    RowShare(inks, t, y, mx, 2, y + 2);
    RowShare(inks, t, y, mx, 3, y + 3);
    EveryRankOnce(t);
  }

  lemma EveryRankOnce(t: nat)
    requires t < 256
    ensures Over(t, 8) + Over(t, 136) + Over(t, 40) + Over(t, 168) + Over(t, 200) + Over(t, 72) + Over(t, 232) + Over(t, 104)
            + Over(t, 56) + Over(t, 184) + Over(t, 24) + Over(t, 152) + Over(t, 248) + Over(t, 120) + Over(t, 216) + Over(t, 88)
            == (t + 8) / 16
  {
  }

  lemma InTile(n: nat, i: nat)
    requires n % 4 == 0 && i < 4
    ensures (n + i) % 4 == i
  {
  }

  lemma InkOf(v: Byte, y: nat, mx: nat, row: nat, col: nat)
    requires row == y % 4 && col == mx % 4
    ensures BayerInk(v, y, mx) <==> SrgbToLinear(v) < Bayer4(row, col)
  {
  }

  function Ordered(v: Byte): Inks {
    (y: nat, mx: nat) => BayerInk(v, y, mx)
  }

  lemma DotInTile(v: Byte, y: nat, mx: nat, j: nat, i: nat)
    requires y % 4 == 0 && mx % 4 == 0 && j < 4 && i < 4
    ensures DotThreshold(Ordered(v), SrgbToLinear(v), y, mx, j, i)
  {
    InTile(y, j);
    InTile(mx, i);
    InkOf(v, y + j, mx + i, j, i);
  }

  /** The ordered dither keeps tone: an aligned tile of one grey leaves its share of sixteen dots blank. */
  lemma TileKeepsTone(v: Byte, y: nat, mx: nat)
    requires y % 4 == 0 && mx % 4 == 0
    ensures BlankInTile(Ordered(v), y, mx) == (SrgbToLinear(v) + 8) / 16
  {
    forall j: nat, i: nat | j < 4 && i < 4 ensures DotThreshold(Ordered(v), SrgbToLinear(v), y, mx, j, i) {
      DotInTile(v, y, mx, j, i);
    }
    TileShare(Ordered(v), SrgbToLinear(v), y, mx);
  }

  // ---- Where the error of a pixel comes from -----------------------------------------------------

  lemma {:induction false} SumOfNeighbours(s: Screen, h: Image, y: int, x: int, n: nat)
    requires Causal(s.kernel) && IsPixel(s, h, y, x) && n <= |s.kernel|
    ensures WeightedSum(s.kernel, Neighbours(s, h, y, x, |s.kernel|), n) == Gathered(s.kernel, Errors(s, h), y, x, n)
  {
    if n > 0 {
      SumOfNeighbours(s, h, y, x, n - 1);
      NeighbourAt(s, h, y, x, |s.kernel|, n - 1);
    }
  }

  ghost function Gathered(kernel: seq<Tap>, e: Plane, y: int, x: int, n: nat): real
    requires n <= |kernel|
  {
    if n == 0 then 0.0 else
      Gathered(kernel, e, y, x, n - 1) + kernel[n - 1].weight * e(y - kernel[n - 1].dy, x - kernel[n - 1].dx)
  }

  lemma GatheredFour(k: seq<Tap>, e: Plane, y: int, x: int)
    requires |k| >= 4
    ensures Gathered(k, e, y, x, 4) ==
            k[0].weight * e(y - k[0].dy, x - k[0].dx) + k[1].weight * e(y - k[1].dy, x - k[1].dx)
            + k[2].weight * e(y - k[2].dy, x - k[2].dx) + k[3].weight * e(y - k[3].dy, x - k[3].dx)
  {
    assert Gathered(k, e, y, x, 1) == k[0].weight * e(y - k[0].dy, x - k[0].dx);
    assert Gathered(k, e, y, x, 2) == Gathered(k, e, y, x, 1) + k[1].weight * e(y - k[1].dy, x - k[1].dx);
    assert Gathered(k, e, y, x, 3) == Gathered(k, e, y, x, 2) + k[2].weight * e(y - k[2].dy, x - k[2].dx);
  }

  /** Left 7/16, above right 3/16, above 5/16, above left 1/16. */
  lemma FloydSteinbergIncoming(width: nat, h: Image, y: int, x: int)
    requires IsPixel(ScreenFor(FloydSteinberg, width), h, y, x)
    ensures var s := ScreenFor(FloydSteinberg, width); var e := Errors(s, h);
            Incoming(s, h, y, x) ==
            7.0 / 16.0 * e(y, x - 1) + 3.0 / 16.0 * e(y - 1, x + 1) + 5.0 / 16.0 * e(y - 1, x) + 1.0 / 16.0 * e(y - 1, x - 1)
  {
    var s := ScreenFor(FloydSteinberg, width);
    SumOfNeighbours(s, h, y, x, 4);
    GatheredFour(s.kernel, Errors(s, h), y, x);
  }

  /** Left 5/16, above right 3/16, above 6/16, above left 1/16. */
  lemma VendorIncoming(width: nat, h: Image, y: int, x: int)
    requires IsPixel(ScreenFor(Vendor16, width), h, y, x)
    ensures var s := ScreenFor(Vendor16, width); var e := Errors(s, h);
            Incoming(s, h, y, x) ==
            5.0 / 16.0 * e(y, x - 1) + 3.0 / 16.0 * e(y - 1, x + 1) + 6.0 / 16.0 * e(y - 1, x) + 1.0 / 16.0 * e(y - 1, x - 1)
  {
    var s := ScreenFor(Vendor16, width);
    SumOfNeighbours(s, h, y, x, 4);
    GatheredFour(s.kernel, Errors(s, h), y, x);
  }

  /** An eighth each from the two on the left, the three above and the one two above. */
  lemma AtkinsonIncoming(width: nat, h: Image, y: int, x: int)
    requires IsPixel(ScreenFor(Atkinson, width), h, y, x)
    ensures var s := ScreenFor(Atkinson, width); var e := Errors(s, h);
            Incoming(s, h, y, x) ==
            (e(y, x - 1) + e(y, x - 2) + e(y - 1, x + 1) + e(y - 1, x) + e(y - 1, x - 1) + e(y - 2, x)) / 8.0
  {
    var s := ScreenFor(Atkinson, width);
    var k, e := s.kernel, Errors(s, h);
    SumOfNeighbours(s, h, y, x, 6);
    GatheredFour(k, e, y, x);
    assert Gathered(k, e, y, x, 5) == Gathered(k, e, y, x, 4) + 0.125 * e(y - 1, x - 1);
    assert Gathered(k, e, y, x, 6) == Gathered(k, e, y, x, 5) + 0.125 * e(y - 2, x);
  }

  // ---- What a pixel does with it -----------------------------------------------------------------

  /** Floyd-Steinberg and Atkinson: linear tone plus incoming error is inked below 128 and taken for 0, else for 255. */
  lemma BlackOrWhite(mode: DitherMode, width: nat, h: Image, y: int, x: int)
    requires (mode.FloydSteinberg? || mode.Atkinson?) && IsPixel(ScreenFor(mode, width), h, y, x)
    ensures var s := ScreenFor(mode, width);
            var value := SrgbToLinear(h[y][x]) as real + Incoming(s, h, y, x);
            (Inked(s, h, y, x) <==> value < 128.0) && Errors(s, h)(y, x) == value - if value < 128.0 then 0.0 else 255.0
  {
  }

  /**
   The vendor's: the grey itself plus incoming error is taken for the nearest of sixteen greys 17 apart,
   leaving at most half a step of error, and inked when that grey is one of the darker eight.
   */
  lemma NearestOfSixteen(width: nat, h: Image, y: int, x: int) returns (level: nat)
    requires IsPixel(ScreenFor(Vendor16, width), h, y, x)
    ensures var s := ScreenFor(Vendor16, width);
            var error := Errors(s, h)(y, x);
            && level <= 15 && h[y][x] as real + Incoming(s, h, y, x) == 17.0 * level as real + error
            && -8.5 <= error < 8.5 && (Inked(s, h, y, x) <==> level <= 7)
  {
    var s := ScreenFor(Vendor16, width);
    CarriedErrorIsStable(Vendor16, width, h, y, x);
    VendorNearest(ValueAt(s, h, y, x));
    level := VendorLevel(ValueAt(s, h, y, x));
  }
}
