/**
 Tone conservation. What an image asked for and what was printed differ by exactly the error lost
 over the kernel's dropped weights, the page's side edges and the cells that short lines leave unread,
 plus the error still in the ring.
 */
module ToneBalance {
  import opened Bytes
  import opened Halftone
  import opened ErrorCarry
  import opened Stability

  // ---- Sums over a row and over a page ------------------------------------------------------

  /** How many pixels row `y` gives a tone: a line may be shorter than the page is wide. */
  function Scanned(s: Screen, h: Image, y: nat): nat
    requires y < |h|
  {
    if |h[y]| < s.width then |h[y]| else s.width
  }

  /** Tone asked for by the first `n` pixels of row `y`. */
  ghost function RowTone(s: Screen, h: Image, y: nat, n: nat): real
    requires Causal(s.kernel) && y < |h| && n <= Scanned(s, h, y)
  {
    if n == 0 then 0.0 else RowTone(s, h, y, n - 1) + s.source(h[y][n - 1])
  }

  /** Tone printed by them: the grey each was quantised to. */
  ghost function RowPrinted(s: Screen, h: Image, y: nat, n: nat): real
    requires Causal(s.kernel) && y < |h| && n <= Scanned(s, h, y)
  {
    if n == 0 then 0.0 else RowPrinted(s, h, y, n - 1) + s.quantise(ValueAt(s, h, y, n - 1))
  }

  /** The error of a pixel at column `x` that its first `n` neighbours on the page receive. */
  ghost function Delivered(kernel: seq<Tap>, width: nat, x: int, error: real, n: nat): real
    requires n <= |kernel|
  {
    if n == 0 then 0.0 else
      Delivered(kernel, width, x, error, n - 1)
      + (if 0 <= x + kernel[n - 1].dx < width then kernel[n - 1].weight * error else 0.0)
  }

  /** The error of one pixel that no neighbour receives. */
  ghost function Dropped(s: Screen, h: Image, y: nat, x: nat): real
    requires Causal(s.kernel) && IsPixel(s, h, y, x)
  {
    var error := ErrorAt(s, h, y, x);
    error - Delivered(s.kernel, s.width, x, error, |s.kernel|)
  }

  ghost function RowDropped(s: Screen, h: Image, y: nat, n: nat): real
    requires Causal(s.kernel) && y < |h| && n <= Scanned(s, h, y)
  {
    if n == 0 then 0.0 else RowDropped(s, h, y, n - 1) + Dropped(s, h, y, n - 1)
  }

  ghost function PageTone(s: Screen, h: Image, rows: nat): real
    requires Causal(s.kernel) && rows <= |h|
  {
    if rows == 0 then 0.0 else PageTone(s, h, rows - 1) + RowTone(s, h, rows - 1, Scanned(s, h, rows - 1))
  }

  ghost function PagePrinted(s: Screen, h: Image, rows: nat): real
    requires Causal(s.kernel) && rows <= |h|
  {
    if rows == 0 then 0.0 else PagePrinted(s, h, rows - 1) + RowPrinted(s, h, rows - 1, Scanned(s, h, rows - 1))
  }

  ghost function PageDropped(s: Screen, h: Image, rows: nat): real
    requires Causal(s.kernel) && rows <= |h|
  {
    if rows == 0 then 0.0 else PageDropped(s, h, rows - 1) + RowDropped(s, h, rows - 1, Scanned(s, h, rows - 1))
  }

  /** The error waiting in those of the first `n` cells of row `y` that its line is too short to read. */
  ghost function RowStranded(s: Screen, h: Image, y: nat, n: nat): real
    requires Causal(s.kernel) && y < |h|
  {
    if n <= Scanned(s, h, y) then 0.0 else
      RowStranded(s, h, y, n - 1) + Pending(Errors(s, h), s.kernel, y, Scanned(s, h, y), 0, 0, n - 1)
  }

  ghost function PageStranded(s: Screen, h: Image, rows: nat): real
    requires Causal(s.kernel) && rows <= |h|
  {
    if rows == 0 then 0.0 else PageStranded(s, h, rows - 1) + RowStranded(s, h, rows - 1, s.width)
  }

  /** The error pending in the first `n` cells of the row `d` below the scan line. */
  ghost function RowInFlight(e: Plane, kernel: seq<Tap>, cy: int, cx: int, ck: int, d: nat, n: nat): real {
    if n == 0 then 0.0 else
      RowInFlight(e, kernel, cy, cx, ck, d, n - 1) + Pending(e, kernel, cy, cx, ck, d, n - 1)
  }

  ghost function InFlight(e: Plane, kernel: seq<Tap>, width: nat, cy: int, cx: int, ck: int): real {
    RowInFlight(e, kernel, cy, cx, ck, 0, width)
    + RowInFlight(e, kernel, cy, cx, ck, 1, width)
    + RowInFlight(e, kernel, cy, cx, ck, 2, width)
  }

  /** The error the first `n` pixels of a row received. */
  ghost function RowIncoming(s: Screen, h: Image, y: nat, n: nat): real
    requires Causal(s.kernel) && y < |h| && n <= Scanned(s, h, y)
  {
    if n == 0 then 0.0 else RowIncoming(s, h, y, n - 1) + Incoming(s, h, y, n - 1)
  }

  // ---- What one step of the scan does to the error in flight ---------------------------------

  lemma {:induction false} RowServe(e: Plane, kernel: seq<Tap>, cy: int, cx: int, k: nat, d: nat, n: nat)
    requires k < |kernel|
    ensures RowInFlight(e, kernel, cy, cx, k + 1, d, n) ==
            RowInFlight(e, kernel, cy, cx, k, d, n)
            + (if d == kernel[k].dy && 0 <= cx + kernel[k].dx < n then kernel[k].weight * e(cy, cx) else 0.0)
  {
    if n > 0 {
      RowServe(e, kernel, cy, cx, k, d, n - 1);
      ServeTap(e, kernel, cy, cx, k, cy + d, n - 1, |kernel|);
    }
  }

  lemma ServeOne(e: Plane, kernel: seq<Tap>, width: nat, cy: int, cx: int, k: nat)
    requires k < |kernel| && kernel[k].dy <= 2
    ensures InFlight(e, kernel, width, cy, cx, k + 1) ==
            InFlight(e, kernel, width, cy, cx, k)
            + (if 0 <= cx + kernel[k].dx < width then kernel[k].weight * e(cy, cx) else 0.0)
  {
    RowServe(e, kernel, cy, cx, k, 0, width);
    RowServe(e, kernel, cy, cx, k, 1, width);
    RowServe(e, kernel, cy, cx, k, 2, width);
  }

  lemma {:induction false} ServePixel(e: Plane, kernel: seq<Tap>, width: nat, cy: int, cx: int, k: nat)
    requires k <= |kernel| && Causal(kernel)
    ensures InFlight(e, kernel, width, cy, cx, k) ==
            InFlight(e, kernel, width, cy, cx, 0) + Delivered(kernel, width, cx, e(cy, cx), k)
  {
    if k > 0 {
      ServePixel(e, kernel, width, cy, cx, k - 1);
      ServeOne(e, kernel, width, cy, cx, k - 1);
    }
  }

  lemma {:induction false} RowNextPixel(e: Plane, kernel: seq<Tap>, cy: int, cx: int, d: nat, n: nat)
    ensures RowInFlight(e, kernel, cy, cx, |kernel|, d, n) == RowInFlight(e, kernel, cy, cx + 1, 0, d, n)
  {
    if n > 0 {
      RowNextPixel(e, kernel, cy, cx, d, n - 1);
      NextPixel(e, kernel, cy, cx, d, n - 1);
    }
  }

  lemma {:induction false} RowNextLine(e: Plane, kernel: seq<Tap>, cy: int, cx: int, d: nat, n: nat)
    requires cx >= 0 && OnPage(e) && forall x :: x >= cx ==> e(cy, x) == 0.0
    ensures RowInFlight(e, kernel, cy, cx, 0, d + 1, n) == RowInFlight(e, kernel, cy + 1, 0, 0, d, n)
  {
    if n > 0 {
      RowNextLine(e, kernel, cy, cx, d, n - 1);
      NextRow(e, kernel, cy, cx, d, n - 1);
    }
  }

  lemma {:induction false} RowOutOfReach(e: Plane, kernel: seq<Tap>, cy: int, n: nat)
    requires Causal(kernel) && OnPage(e)
    ensures RowInFlight(e, kernel, cy, 0, 0, 2, n) == 0.0
  {
    if n > 0 {
      RowOutOfReach(e, kernel, cy, n - 1);
      OutOfReach(e, kernel, cy, cy + 2, n - 1, |kernel|);
    }
  }

  lemma {:induction false} RowArrived(s: Screen, h: Image, y: nat, n: nat)
    requires Causal(s.kernel) && y < |h| && n <= Scanned(s, h, y)
    ensures RowInFlight(Errors(s, h), s.kernel, y, Scanned(s, h, y), 0, 0, n) == RowIncoming(s, h, y, n)
  {
    if n > 0 {
      RowArrived(s, h, y, n - 1);
      AllArrived(s, h, y, Scanned(s, h, y), n - 1);
    }
  }

  /** At the end of a row its cells hold what its pixels used up and what is stranded. */
  lemma {:induction false} RowLeft(s: Screen, h: Image, y: nat, n: nat)
    requires Causal(s.kernel) && y < |h| && n >= Scanned(s, h, y)
    ensures RowInFlight(Errors(s, h), s.kernel, y, Scanned(s, h, y), 0, 0, n) ==
            RowIncoming(s, h, y, Scanned(s, h, y)) + RowStranded(s, h, y, n)
  {
    if n > Scanned(s, h, y) {
      RowLeft(s, h, y, n - 1);
    } else {
      RowArrived(s, h, y, n);
    }
  }

  // ---- The balance ------------------------------------------------------------------------

  /** Part of a row scanned: tone - printed - dropped is what went in flight less what was used up. */
  lemma {:induction false} RowBalance(s: Screen, h: Image, y: nat, n: nat)
    requires Causal(s.kernel) && y < |h| && n <= Scanned(s, h, y)
    ensures RowTone(s, h, y, n) - RowPrinted(s, h, y, n) - RowDropped(s, h, y, n) ==
            InFlight(Errors(s, h), s.kernel, s.width, y, n, 0)
            - InFlight(Errors(s, h), s.kernel, s.width, y, 0, 0) - RowIncoming(s, h, y, n)
  {
    if n > 0 {
      var e, k, x := Errors(s, h), s.kernel, n - 1;
      RowBalance(s, h, y, x);
      ServePixel(e, k, s.width, y, x, |k|);
      RowNextPixel(e, k, y, x, 0, s.width);
      RowNextPixel(e, k, y, x, 1, s.width);
      RowNextPixel(e, k, y, x, 2, s.width);
      assert e(y, x) == ErrorAt(s, h, y, x);
      assert ErrorAt(s, h, y, x) ==
             s.source(h[y][x]) + Incoming(s, h, y, x) - s.quantise(ValueAt(s, h, y, x));
    }
  }

  /** Crossing to the next row discards the scan row: what was used up, and what is stranded. */
  lemma CrossRow(s: Screen, h: Image, y: nat)
    requires Causal(s.kernel) && y < |h|
    ensures InFlight(Errors(s, h), s.kernel, s.width, y + 1, 0, 0) ==
            InFlight(Errors(s, h), s.kernel, s.width, y, Scanned(s, h, y), 0)
            - RowIncoming(s, h, y, Scanned(s, h, y)) - RowStranded(s, h, y, s.width)
  {
    var e, k, n := Errors(s, h), s.kernel, Scanned(s, h, y);
    LineEnds(s, h, y, n);
    RowLeft(s, h, y, s.width);
    RowNextLine(e, k, y, n, 0, s.width);
    RowNextLine(e, k, y, n, 1, s.width);
    RowOutOfReach(e, k, y + 1, s.width);
  }

  lemma {:induction false} RowNothing(e: Plane, kernel: seq<Tap>, d: nat, n: nat)
    requires OnPage(e) && forall y, x :: y < 0 ==> e(y, x) == 0.0
    ensures RowInFlight(e, kernel, 0, 0, 0, d, n) == 0.0
  {
    if n > 0 {
      RowNothing(e, kernel, d, n - 1);
      SamePlane(e, (y: int, x: int) => 0.0, kernel, 0, d, n - 1, |kernel|);
      NothingCarried((y: int, x: int) => 0.0, kernel, d, n - 1, |kernel|);
    }
  }

  /**
   Tone is conserved: after any number of rows of any image, the tone asked for less the tone
   printed is exactly the error dropped, the error stranded and the error still in flight.
   */
  lemma {:induction false} ToneIsConserved(s: Screen, h: Image, rows: nat)
    requires Causal(s.kernel) && rows <= |h|
    ensures PageTone(s, h, rows) - PagePrinted(s, h, rows) ==
            PageDropped(s, h, rows) + PageStranded(s, h, rows)
            + InFlight(Errors(s, h), s.kernel, s.width, rows, 0, 0)
  {
    if rows == 0 {
      var e := Errors(s, h);
      RowNothing(e, s.kernel, 0, s.width);
      RowNothing(e, s.kernel, 1, s.width);
      RowNothing(e, s.kernel, 2, s.width);
    } else {
      ToneIsConserved(s, h, rows - 1);
      RowBalance(s, h, rows - 1, Scanned(s, h, rows - 1));
      CrossRow(s, h, rows - 1);
    }
  }

  // ---- Floyd-Steinberg: the imbalance is bounded by the perimeter -----------------------------

  ghost function RowBlank(s: Screen, h: Image, y: nat, n: nat): nat
    requires Causal(s.kernel) && y < |h| && n <= Scanned(s, h, y)
  {
    if n == 0 then 0 else RowBlank(s, h, y, n - 1) + (if Inked(s, h, y, n - 1) then 0 else 1)
  }

  /** Pixels of the first `rows` rows left without ink. */
  ghost function PageBlank(s: Screen, h: Image, rows: nat): nat
    requires Causal(s.kernel) && rows <= |h|
  {
    if rows == 0 then 0 else PageBlank(s, h, rows - 1) + RowBlank(s, h, rows - 1, Scanned(s, h, rows - 1))
  }

  /** Cells of the first `rows` rows that their lines are too short to give a tone. */
  function PageMissing(s: Screen, h: Image, rows: nat): nat
    requires rows <= |h|
  {
    if rows == 0 then 0 else PageMissing(s, h, rows - 1) + (s.width - Scanned(s, h, rows - 1))
  }

  lemma {:induction false} RowPrintedIsBlank(width: nat, h: Image, y: nat, n: nat)
    requires y < |h| && n <= Scanned(ScreenFor(FloydSteinberg, width), h, y)
    ensures var s := ScreenFor(FloydSteinberg, width); RowPrinted(s, h, y, n) == 255.0 * RowBlank(s, h, y, n) as real
  {
    if n > 0 { RowPrintedIsBlank(width, h, y, n - 1); }
  }

  lemma {:induction false} PagePrintedIsBlank(width: nat, h: Image, rows: nat)
    requires rows <= |h|
    ensures var s := ScreenFor(FloydSteinberg, width); PagePrinted(s, h, rows) == 255.0 * PageBlank(s, h, rows) as real
  {
    if rows > 0 {
      PagePrintedIsBlank(width, h, rows - 1);
      RowPrintedIsBlank(width, h, rows - 1, Scanned(ScreenFor(FloydSteinberg, width), h, rows - 1));
    }
  }

  /** Only the side edges drop error: 3/16 of it on the left, 8/16 on the right. */
  lemma FloydSteinbergDrops(width: nat, x: nat, error: real)
    requires x < width
    ensures error - Delivered(Kernel(FloydSteinberg), width, x, error, 4) ==
            (if x == 0 then 3.0 / 16.0 * error else 0.0) + (if x == width - 1 then 8.0 / 16.0 * error else 0.0)
  {
    var k := Kernel(FloydSteinberg);
    var right := if x == width - 1 then 0.0 else error;
    var left := if x == 0 then 0.0 else error;
    assert Delivered(k, width, x, error, 1) == 7.0 / 16.0 * right;
    assert Delivered(k, width, x, error, 2) == 7.0 / 16.0 * right + 3.0 / 16.0 * left;
    assert Delivered(k, width, x, error, 3) == 7.0 / 16.0 * right + 3.0 / 16.0 * left + 5.0 / 16.0 * error;
  }

  lemma {:induction false} RowDroppedBound(width: nat, h: Image, y: nat, n: nat)
    requires y < |h| && n <= Scanned(ScreenFor(FloydSteinberg, width), h, y)
    ensures var dropped := RowDropped(ScreenFor(FloydSteinberg, width), h, y, n);
            var bound := (if n > 0 then 24.0 else 0.0) + (if n > 0 && n == width then 64.0 else 0.0);
            -bound <= dropped <= bound
  {
    if n > 0 {
      var s := ScreenFor(FloydSteinberg, width);
      RowDroppedBound(width, h, y, n - 1);
      ModeContained(FloydSteinberg, width);
      ErrorContained(s, -127.0, 128.0, h, y, n - 1);
      FloydSteinbergDrops(width, n - 1, ErrorAt(s, h, y, n - 1));
    }
  }

  lemma {:induction false} PageDroppedBound(width: nat, h: Image, rows: nat)
    requires rows <= |h|
    ensures -88.0 * rows as real <= PageDropped(ScreenFor(FloydSteinberg, width), h, rows) <= 88.0 * rows as real
  {
    if rows > 0 {
      PageDroppedBound(width, h, rows - 1);
      RowDroppedBound(width, h, rows - 1, Scanned(ScreenFor(FloydSteinberg, width), h, rows - 1));
    }
  }

  ghost predicate Bounded(e: Plane) {
    OnPage(e) && forall y, x :: -128.0 <= e(y, x) <= 128.0
  }

  /** At the start of a row only the row itself holds error, at most 9/16 of a pixel's in a cell. */
  lemma FloydSteinbergPending(e: Plane, cy: int, d: nat, x: nat)
    requires Bounded(e) && d < 2
    ensures var p := Pending(e, Kernel(FloydSteinberg), cy, 0, 0, d, x);
            if d == 0 then -72.0 <= p <= 72.0 else p == 0.0
  {
    var k := Kernel(FloydSteinberg);
    assert Share(e, k[0], cy, 0, 0, cy + d, x, 0) == 0.0;
    assert Carried(e, k, cy, 0, 0, cy + d, x, 1) == 0.0;
    assert Carried(e, k, cy, 0, 0, cy + d, x, 2) == Share(e, k[1], cy, 0, 0, cy + d, x, 1);
    assert Carried(e, k, cy, 0, 0, cy + d, x, 3) ==
           Share(e, k[1], cy, 0, 0, cy + d, x, 1) + Share(e, k[2], cy, 0, 0, cy + d, x, 2);
  }

  lemma {:induction false} FloydSteinbergInFlight(e: Plane, cy: int, d: nat, n: nat)
    requires Bounded(e) && d < 2
    ensures var f := RowInFlight(e, Kernel(FloydSteinberg), cy, 0, 0, d, n);
            if d == 0 then -72.0 * n as real <= f <= 72.0 * n as real else f == 0.0
  {
    if n > 0 {
      FloydSteinbergInFlight(e, cy, d, n - 1);
      FloydSteinbergPending(e, cy, d, n - 1);
    }
  }

  lemma ErrorsBounded(width: nat, h: Image)
    ensures Bounded(Errors(ScreenFor(FloydSteinberg, width), h))
  {
    var s := ScreenFor(FloydSteinberg, width);
    ModeContained(FloydSteinberg, width);
    forall y, x ensures -128.0 <= Errors(s, h)(y, x) <= 128.0 {
      if IsPixel(s, h, y, x) { ErrorContained(s, -127.0, 128.0, h, y, x); }
    }
  }

  /** A cell carries at most what a full set of neighbours brings. */
  lemma {:induction false} CarriedBound(e: Plane, kernel: seq<Tap>, cy: int, cx: int, ck: int, ty: int, tx: int, n: nat)
    requires Bounded(e) && n <= |kernel| && forall j :: 0 <= j < |kernel| ==> kernel[j].weight > 0.0
    ensures -Reach(kernel, 128.0, n) <= Carried(e, kernel, cy, cx, ck, ty, tx, n) <= Reach(kernel, 128.0, n)
    decreases n
  {
    if n > 0 {
      var w, e0 := kernel[n - 1].weight, e(ty - kernel[n - 1].dy, tx - kernel[n - 1].dx);
      CarriedBound(e, kernel, cy, cx, ck, ty, tx, n - 1);
      Scale(w, -128.0, 129.0, e0);
      if e0 < 128.0 { Scale(w, -128.0, 128.0, e0); }
      assert -(w * 128.0) <= Share(e, kernel[n - 1], cy, cx, ck, ty, tx, n - 1) <= w * 128.0;
    }
  }

  lemma {:induction false} RowStrandedBound(width: nat, h: Image, y: nat, n: nat)
    requires y < |h|
    ensures var s := ScreenFor(FloydSteinberg, width);
            var cells := if n <= Scanned(s, h, y) then 0 else n - Scanned(s, h, y);
            -128.0 * cells as real <= RowStranded(s, h, y, n) <= 128.0 * cells as real
  {
    var s := ScreenFor(FloydSteinberg, width);
    if n > Scanned(s, h, y) {
      RowStrandedBound(width, h, y, n - 1);
      ErrorsBounded(width, h);
      CellBound(Errors(s, h), y, Scanned(s, h, y), n - 1);
    }
  }

  lemma CellBound(e: Plane, cy: int, cx: int, x: int)
    requires Bounded(e)
    ensures -128.0 <= Pending(e, Kernel(FloydSteinberg), cy, cx, 0, 0, x) <= 128.0
  {
    FloydSteinbergReach(128.0);
    CarriedBound(e, Kernel(FloydSteinberg), cy, cx, 0, cy, x, 4);
  }

  lemma {:induction false} PageStrandedBound(width: nat, h: Image, rows: nat)
    requires rows <= |h|
    ensures var s := ScreenFor(FloydSteinberg, width);
            var missing := 128.0 * PageMissing(s, h, rows) as real;
            -missing <= PageStranded(s, h, rows) <= missing
  {
    if rows > 0 {
      PageStrandedBound(width, h, rows - 1);
      RowStrandedBound(width, h, rows - 1, width);
    }
  }

  // ---- The tone of an image, from the table ---------------------------------------------------

  /** The first `n` table entries of row `y`. */
  function RowLinear(h: Image, y: nat, n: nat): nat
    requires y < |h| && n <= |h[y]|
  {
    if n == 0 then 0 else RowLinear(h, y, n - 1) + SrgbToLinear(h[y][n - 1])
  }

  /** The table entries of all pixels of the first `rows` rows of a page. */
  function PageLinear(width: nat, h: Image, rows: nat): nat
    requires rows <= |h|
  {
    if rows == 0 then 0 else
      PageLinear(width, h, rows - 1) + RowLinear(h, rows - 1, if |h[rows - 1]| < width then |h[rows - 1]| else width)
  }

  lemma {:induction false} RowToneIsLinear(width: nat, h: Image, y: nat, n: nat)
    requires y < |h| && n <= Scanned(ScreenFor(FloydSteinberg, width), h, y)
    ensures RowTone(ScreenFor(FloydSteinberg, width), h, y, n) == RowLinear(h, y, n) as real
  {
    if n > 0 { RowToneIsLinear(width, h, y, n - 1); }
  }

  lemma {:induction false} PageToneIsLinear(width: nat, h: Image, rows: nat)
    requires rows <= |h|
    ensures PageTone(ScreenFor(FloydSteinberg, width), h, rows) == PageLinear(width, h, rows) as real
  {
    if rows > 0 {
      PageToneIsLinear(width, h, rows - 1);
      RowToneIsLinear(width, h, rows - 1, Scanned(ScreenFor(FloydSteinberg, width), h, rows - 1));
    }
  }

  /**
   Floyd-Steinberg keeps the tone of a whole image: after `rows` rows of any image `width` wide,
   the tone asked for and 255 per blank pixel differ by at most 88 per row, 72 per column and 128 per
   pixel missing from a short line.
   */
  lemma ToneErrorIsPerimeterSized(width: nat, h: Image, rows: nat)
    requires rows <= |h|
    ensures var s := ScreenFor(FloydSteinberg, width);
            var imbalance := PageLinear(width, h, rows) as int - 255 * PageBlank(s, h, rows) as int;
            var bound := 88 * rows as int + 72 * width as int + 128 * PageMissing(s, h, rows) as int;
            -bound <= imbalance <= bound
  {
    var s := ScreenFor(FloydSteinberg, width);
    var e := Errors(s, h);
    ToneIsConserved(s, h, rows);
    PageToneIsLinear(width, h, rows);
    PagePrintedIsBlank(width, h, rows);
    PageDroppedBound(width, h, rows);
    PageStrandedBound(width, h, rows);
    ErrorsBounded(width, h);
    FloydSteinbergInFlight(e, rows, 0, width);
    FloydSteinbergInFlight(e, rows, 1, width);
    RowOutOfReach(e, s.kernel, rows, width);
  }

  /** With no line short nothing is missing, and the bound is the perimeter's. */
  lemma {:induction false} FullLinesMissNothing(s: Screen, h: Image, rows: nat)
    requires rows <= |h| && forall y :: 0 <= y < rows ==> |h[y]| >= s.width
    ensures PageMissing(s, h, rows) == 0
  {
    if rows > 0 { FullLinesMissNothing(s, h, rows - 1); }
  }
}
