/**
 Error in flight. The engine scatters each pixel's error forward as it scans; the plane of
 `Halftone` gathers it when a pixel is reached. `Carried` is the part of a cell's error that has
 been scattered once the scan stands at pixel (cy, cx) with `ck` neighbours of that pixel served.
 */
module ErrorCarry {
  import opened Bytes
  import opened Halftone

  type Plane = (int, int) -> real

  ghost predicate OnPage(e: Plane) {
    forall y, x :: x < 0 ==> e(y, x) == 0.0
  }

  /** Was neighbour `j` of pixel (sy, sx) served before the scan reached (cy, cx, ck)? */
  predicate Served(cy: int, cx: int, ck: int, sy: int, sx: int, j: int) {
    sy < cy || (sy == cy && (sx < cx || (sx == cx && j < ck)))
  }

  /** What a tap, served or not, has brought to cell (ty, tx). */
  ghost function Share(e: Plane, tap: Tap, cy: int, cx: int, ck: int, ty: int, tx: int, j: nat): real {
    if Served(cy, cx, ck, ty - tap.dy, tx - tap.dx, j) then tap.weight * e(ty - tap.dy, tx - tap.dx) else 0.0
  }

  ghost function Carried(e: Plane, kernel: seq<Tap>, cy: int, cx: int, ck: int, ty: int, tx: int, n: nat): real
    requires n <= |kernel|
    decreases n
  {
    if n == 0 then 0.0 else
      Carried(e, kernel, cy, cx, ck, ty, tx, n - 1) + Share(e, kernel[n - 1], cy, cx, ck, ty, tx, n - 1)
  }

  /** What has been carried to the cell `d` rows below the scan line. */
  ghost function Pending(e: Plane, kernel: seq<Tap>, cy: int, cx: int, ck: int, d: nat, tx: int): real {
    Carried(e, kernel, cy, cx, ck, cy + d, tx, |kernel|)
  }

  /** Serving one neighbour changes exactly the cell it points at, by its weight of the error. */
  lemma {:induction false} ServeTap(e: Plane, kernel: seq<Tap>, cy: int, cx: int, k: nat, ty: int, tx: int, n: nat)
    requires k < |kernel| && n <= |kernel|
    ensures Carried(e, kernel, cy, cx, k + 1, ty, tx, n) ==
            Carried(e, kernel, cy, cx, k, ty, tx, n)
            + (if k < n && ty == cy + kernel[k].dy && tx == cx + kernel[k].dx
               then kernel[k].weight * e(cy, cx) else 0.0)
    decreases n
  {
    if n > 0 {
      ServeTap(e, kernel, cy, cx, k, ty, tx, n - 1);
    }
  }

  /** Two scan positions that served the same neighbours carry the same error. */
  lemma {:induction false} SameServed(e: Plane, kernel: seq<Tap>,
      cy: int, cx: int, ck: int, cy': int, cx': int, ck': int, ty: int, tx: int, n: nat)
    requires n <= |kernel|
    requires forall sy, sx, j: nat :: j < |kernel| ==>
               Served(cy, cx, ck, sy, sx, j) == Served(cy', cx', ck', sy, sx, j) || e(sy, sx) == 0.0
    ensures Carried(e, kernel, cy, cx, ck, ty, tx, n) == Carried(e, kernel, cy', cx', ck', ty, tx, n)
    decreases n
  {
    if n > 0 {
      SameServed(e, kernel, cy, cx, ck, cy', cx', ck', ty, tx, n - 1);
      var sy, sx := ty - kernel[n - 1].dy, tx - kernel[n - 1].dx;
      assert Served(cy, cx, ck, sy, sx, n - 1) == Served(cy', cx', ck', sy, sx, n - 1) || e(sy, sx) == 0.0;
    }
  }

  /** The scan steps to the next pixel once every neighbour is served. */
  lemma NextPixel(e: Plane, kernel: seq<Tap>, cy: int, cx: int, d: nat, tx: int)
    ensures Pending(e, kernel, cy, cx, |kernel|, d, tx) == Pending(e, kernel, cy, cx + 1, 0, d, tx)
  {
    SameServed(e, kernel, cy, cx, |kernel|, cy, cx + 1, 0, cy + d, tx, |kernel|);
  }

  /** The scan steps to the next row: what was one row ahead is now on the scan line. */
  lemma NextRow(e: Plane, kernel: seq<Tap>, cy: int, cx: int, d: nat, tx: int)
    requires cx >= 0
    requires OnPage(e) && forall x :: x >= cx ==> e(cy, x) == 0.0
    ensures Pending(e, kernel, cy, cx, 0, d + 1, tx) == Pending(e, kernel, cy + 1, 0, 0, d, tx)
  {
    SameServed(e, kernel, cy, cx, 0, cy + 1, 0, 0, cy + d + 1, tx, |kernel|);
  }

  /** A row that is about to come into reach has received nothing yet. */
  lemma {:induction false} OutOfReach(e: Plane, kernel: seq<Tap>, cy: int, ty: int, tx: int, n: nat)
    requires Causal(kernel) && n <= |kernel| && cy + 2 <= ty
    requires OnPage(e)
    ensures Carried(e, kernel, cy, 0, 0, ty, tx, n) == 0.0
    decreases n
  {
    if n > 0 { OutOfReach(e, kernel, cy, ty, tx, n - 1); }
  }

  lemma {:induction false} NothingCarried(e: Plane, kernel: seq<Tap>, d: nat, tx: int, n: nat)
    requires n <= |kernel|
    requires forall y, x :: e(y, x) == 0.0
    ensures Carried(e, kernel, 0, 0, 0, d, tx, n) == 0.0
    decreases n
  {
    if n > 0 { NothingCarried(e, kernel, d, tx, n - 1); }
  }

  /** Planes that agree above the scan line carry the same error to it. */
  lemma {:induction false} SamePlane(e: Plane, e': Plane, kernel: seq<Tap>, cy: int, ty: int, tx: int, n: nat)
    requires n <= |kernel|
    requires forall y, x :: y < cy || (y == cy && x < 0) ==> e(y, x) == e'(y, x)
    ensures Carried(e, kernel, cy, 0, 0, ty, tx, n) == Carried(e', kernel, cy, 0, 0, ty, tx, n)
    decreases n
  {
    if n > 0 { SamePlane(e, e', kernel, cy, ty, tx, n - 1); }
  }

  /** No error lies left of the page or past the end of a line. */
  lemma LineEnds(s: Screen, h: Image, y: int, n: nat)
    requires Causal(s.kernel) && 0 <= y < |h| && n == (if s.width < |h[y]| then s.width else |h[y]|)
    ensures OnPage(Errors(s, h)) && forall x :: x >= n ==> Errors(s, h)(y, x) == 0.0
  {
  }

  /** Once all its neighbours are served, a cell carries the weighted sum of their errors. */
  lemma {:induction false} AllServed(e: Plane, kernel: seq<Tap>, errors: seq<real>, cy: int, cx: int, x: int, n: nat)
    requires Causal(kernel) && OnPage(e) && x <= cx && n <= |kernel| && n <= |errors|
    requires forall j :: 0 <= j < |kernel| && j < |errors| ==> errors[j] == e(cy - kernel[j].dy, x - kernel[j].dx)
    ensures Carried(e, kernel, cy, cx, 0, cy, x, n) == WeightedSum(kernel, errors, n)
    decreases n
  {
    if n > 0 { AllServed(e, kernel, errors, cy, cx, x, n - 1); }
  }

  /** When the scan reaches a pixel, everything its neighbours owe it has arrived. */
  lemma AllArrived(s: Screen, h: Image, y: int, cx: int, x: int)
    requires Causal(s.kernel) && IsPixel(s, h, y, x) && x <= cx
    ensures Pending(Errors(s, h), s.kernel, y, cx, 0, 0, x) == Incoming(s, h, y, x)
  {
    var k, errors := |s.kernel|, Neighbours(s, h, y, x, |s.kernel|);
    forall j | 0 <= j < k ensures errors[j] == Errors(s, h)(y - s.kernel[j].dy, x - s.kernel[j].dx) {
      NeighbourAt(s, h, y, x, k, j);
    }
    AllServed(Errors(s, h), s.kernel, errors, y, cx, x, k);
  }

  // ---- What is diffused does not depend on rows that have not been fed yet ------------------

  lemma {:induction false} PrefixNeighbours(s: Screen, h: Image, line: seq<Byte>, y: int, x: int, n: nat)
    requires Causal(s.kernel) && IsPixel(s, h, y, x) && n <= |s.kernel|
    ensures Neighbours(s, h + [line], y, x, n) == Neighbours(s, h, y, x, n)
    decreases y, x, 0, n
  {
    if n > 0 {
      PrefixNeighbours(s, h, line, y, x, n - 1);
      var sy, sx := y - s.kernel[n - 1].dy, x - s.kernel[n - 1].dx;
      assert IsPixel(s, h + [line], sy, sx) <==> IsPixel(s, h, sy, sx);
      if IsPixel(s, h, sy, sx) { PrefixError(s, h, line, sy, sx); }
    }
  }

  lemma {:induction false} PrefixError(s: Screen, h: Image, line: seq<Byte>, y: int, x: int)
    requires Causal(s.kernel) && IsPixel(s, h, y, x)
    ensures ErrorAt(s, h + [line], y, x) == ErrorAt(s, h, y, x)
    ensures Inked(s, h + [line], y, x) == Inked(s, h, y, x)
    decreases y, x, 1
  {
    PrefixNeighbours(s, h, line, y, x, |s.kernel|);
    assert (h + [line])[y] == h[y];
    assert Incoming(s, h + [line], y, x) == Incoming(s, h, y, x);
    assert ValueAt(s, h + [line], y, x) == ValueAt(s, h, y, x);
  }

  lemma PrefixCarried(s: Screen, h: Image, line: seq<Byte>, d: nat, x: int)
    requires Causal(s.kernel)
    ensures Pending(Errors(s, h + [line]), s.kernel, |h|, 0, 0, d, x) == Pending(Errors(s, h), s.kernel, |h|, 0, 0, d, x)
  {
    var e, e' := Errors(s, h), Errors(s, h + [line]);
    forall y, c | y < |h| || (y == |h| && c < 0) ensures e(y, c) == e'(y, c) {
      assert IsPixel(s, h + [line], y, c) <==> IsPixel(s, h, y, c);
      if IsPixel(s, h, y, c) { PrefixError(s, h, line, y, c); }
    }
    SamePlane(e, e', s.kernel, |h|, |h| + d, x, |s.kernel|);
  }
}
