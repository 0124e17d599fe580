/** The stateful halftone engine: a ring of three error rows, updated in place line by line. */
module Dithering {
  import opened Bytes
  import opened Halftone
  import opened ErrorCarry
  import opened ToneBalance

  /** `mono[mx / 8] |= 0x80 >> (mx & 7)` */
  method SetMsb(mono: array<Byte>, mx: nat)
    requires mx / 8 < mono.Length
    modifies mono
    ensures forall d: nat :: MsbDot(mono[..], d) <==> d == mx || MsbDot(old(mono[..]), d)
  {
    var b := OrBit(mono[mx / 8], 7 - mx % 8);
    mono[mx / 8] := b;
    forall d: nat ensures MsbDot(mono[..], d) <==> d == mx || MsbDot(old(mono[..]), d) {
      if d / 8 == mx / 8 {
        assert mono[..][d / 8] == b && old(mono[..])[d / 8] == old(mono[mx / 8]);
        assert 7 - d % 8 == 7 - mx % 8 <==> d == mx;
      } else if d / 8 < mono.Length {
        assert mono[..][d / 8] == old(mono[..])[d / 8];
      }
    }
  }

  /** `after` is `before` with the mirrored ink of the first `n` pixels of row `y` added. */
  ghost predicate Plotted(before: seq<Byte>, after: seq<Byte>, s: Screen, h: Image, y: nat, n: nat)
    requires Causal(s.kernel) && y < |h| && n <= s.width && n <= |h[y]|
  {
    forall d: nat :: MsbDot(after, d) <==>
      MsbDot(before, d) || (0 <= s.width - 1 - d < n && Inked(s, h, y, s.width - 1 - d))
  }

  lemma PlotNext(before: seq<Byte>, mid: seq<Byte>, after: seq<Byte>, s: Screen, h: Image, y: nat, n: nat)
    requires Causal(s.kernel) && IsPixel(s, h, y, n) && Plotted(before, mid, s, h, y, n)
    requires forall d: nat :: MsbDot(after, d) <==> MsbDot(mid, d) || (d == s.width - 1 - n && Inked(s, h, y, n))
    ensures Plotted(before, after, s, h, y, n + 1)
  {
    forall d: nat ensures MsbDot(after, d) <==>
      MsbDot(before, d) || (0 <= s.width - 1 - d < n + 1 && Inked(s, h, y, s.width - 1 - d))
    {
    }
  }

  /** Whether halftoning puts ink at dot `x` of row `y`, which shows the pixel mirrored in it. */
  ghost predicate DotInk(mode: DitherMode, width: nat, h: Image, y: nat, x: nat) {
    var s := ScreenFor(mode, width);
    && IsPixel(s, h, y, width - 1 - x)
    && if mode.Bayer? then BayerInk(h[y][width - 1 - x], y, x) else Inked(s, h, y, width - 1 - x)
  }

  lemma LaterRowsChangeNothing(mode: DitherMode, width: nat, h: Image, line: seq<Byte>, y: nat, x: nat)
    requires y < |h|
    ensures DotInk(mode, width, h + [line], y, x) <==> DotInk(mode, width, h, y, x)
  {
    var s := ScreenFor(mode, width);
    assert (h + [line])[y] == h[y];
    if IsPixel(s, h, y, width - 1 - x) { PrefixError(s, h, line, y, width - 1 - x); }
  }

  class Ditherer {
    const mode: DitherMode
    const width: nat
    /** Ring of error rows; row `row` is the one being consumed. */
    const err: array2<real>
    var row: nat
    /** The lines diffused so far. */
    ghost var fed: Image

    ghost function Page(): Screen {
      ScreenFor(mode, width)
    }

    ghost predicate Ring()
      reads this`row
    {
      err.Length0 == 3 && err.Length1 == width && row < 3
    }

    /** The error cell `d` rows below the one being consumed. */
    ghost function Cell(d: nat, x: nat): real
      requires Ring() && d < 3 && x < width
      reads this`row, err
    {
      err[(row + d) % 3, x]
    }

    /** The ring holds exactly the error of plane `e` in flight when the scan stands at (cy, cx, ck). */
    ghost predicate Carries(e: Plane, kernel: seq<Tap>, cy: nat, cx: nat, ck: nat)
      requires Ring()
      reads this`row, err
    {
      forall d: nat, x: nat :: d < 3 && x < width ==> Cell(d, x) == Pending(e, kernel, cy, cx, ck, d, x)
    }

    ghost predicate Valid()
      reads this, err
    {
      Ring() && Carries(Errors(Page(), fed), Kernel(mode), |fed|, 0, 0)
    }

    ghost function RowCells(d: nat, n: nat): real
      requires Ring() && d < 3 && n <= width
      reads this, err
    {
      if n == 0 then 0.0 else RowCells(d, n - 1) + Cell(d, n - 1)
    }

    lemma {:induction false} RowCellsInFlight(d: nat, n: nat)
      requires Valid() && d < 3 && n <= width
      ensures RowCells(d, n) == RowInFlight(Errors(Page(), fed), Page().kernel, |fed|, 0, 0, d, n)
    {
      if n > 0 { RowCellsInFlight(d, n - 1); }
    }

    /** Between lines, the cells of the ring are all that separates the tone fed from the tone printed and dropped. */
    lemma RingBalancesTone()
      requires Valid()
      ensures PageTone(Page(), fed, |fed|) - PagePrinted(Page(), fed, |fed|) ==
              PageDropped(Page(), fed, |fed|) + PageStranded(Page(), fed, |fed|) + RowCells(0, width) + RowCells(1, width) + RowCells(2, width)
    {
      ToneIsConserved(Page(), fed, |fed|);
      RowCellsInFlight(0, width);
      RowCellsInFlight(1, width);
      RowCellsInFlight(2, width);
    }

    constructor (mode: DitherMode, width: nat)
      ensures Valid() && fresh(err)
      ensures this.mode == mode && this.width == width && fed == []
    {
      this.mode := mode;
      this.width := width;
      err := new real[3, width]((i, j) => 0.0);
      row := 0;
      fed := [];
      new;
      forall d: nat, x: nat | d < 3 && x < width
        ensures Cell(d, x) == Pending(Errors(Page(), fed), Page().kernel, 0, 0, 0, d, x)
      {
        NothingCarried(Errors(Page(), []), Page().kernel, d, x, |Page().kernel|);
      }
    }

    /** `err[(row + dy) % 3][nx] += error * weight` for one neighbour, if it is on the page. */
    method Serve(tap: Tap, x: nat, error: real)
      requires Ring() && tap.dy < 3
      modifies err
      ensures forall d: nat, c: nat :: d < 3 && c < width ==>
                Cell(d, c) == old(Cell(d, c)) + (if d == tap.dy && c == x + tap.dx then tap.weight * error else 0.0)
    {
      var nx := x + tap.dx;
      if 0 <= nx < width {
        err[(row + tap.dy) % 3, nx] := err[(row + tap.dy) % 3, nx] + tap.weight * error;
        forall d: nat, c: nat | d < 3 && c < width
          ensures Cell(d, c) == old(Cell(d, c)) + (if d == tap.dy && c == nx then tap.weight * error else 0.0)
        {
          assert (row + d) % 3 == (row + tap.dy) % 3 <==> d == tap.dy;
        }
      }
    }

    /** Serve one neighbour of the scanned pixel. */
    method ServeNext(kernel: seq<Tap>, k: nat, x: nat, error: real, ghost e: Plane, ghost y: nat)
      requires Ring() && Causal(kernel) && k < |kernel| && Carries(e, kernel, y, x, k) && error == e(y, x)
      modifies err
      ensures Carries(e, kernel, y, x, k + 1)
    {
      Serve(kernel[k], x, error);
      forall d: nat, c: nat | d < 3 && c < width
        ensures Cell(d, c) == Pending(e, kernel, y, x, k + 1, d, c)
      {
        ServeTap(e, kernel, y, x, k, y + d, c, |kernel|);
        assert old(Cell(d, c)) == Pending(e, kernel, y, x, k, d, c);
      }
    }

    /** Pass the error of the pixel just quantised to its kernel neighbours. */
    method Spread(kernel: seq<Tap>, x: nat, error: real, ghost e: Plane, ghost y: nat)
      requires Ring() && Causal(kernel) && Carries(e, kernel, y, x, 0) && error == e(y, x)
      modifies err
      ensures Carries(e, kernel, y, x + 1, 0)
    {
      for k := 0 to |kernel|
        invariant Carries(e, kernel, y, x, k)
      {
        ServeNext(kernel, k, x, error, e, y);
      }
      forall d: nat, c: nat | d < 3 && c < width
        ensures Cell(d, c) == Pending(e, kernel, y, x + 1, 0, d, c)
      {
        NextPixel(e, kernel, y, x, d, c);
      }
    }

    /** The consumed row is cleared to serve as the far future row, and the ring turns by one. */
    method NextLine(kernel: seq<Tap>, ghost e: Plane, ghost y: nat, ghost x: nat)
      requires Ring() && Causal(kernel) && Carries(e, kernel, y, x, 0)
      requires OnPage(e) && forall c :: c >= x ==> e(y, c) == 0.0
      modifies err, this`row
      ensures Ring() && Carries(e, kernel, y + 1, 0, 0)
    {
      forall c | 0 <= c < width { err[row, c] := 0.0; }
      row := (row + 1) % 3;
      forall d: nat, c: nat | d < 3 && c < width
        ensures Cell(d, c) == Pending(e, kernel, y + 1, 0, 0, d, c)
      {
        if d < 2 {
          NextRow(e, kernel, y, x, d, c);
          assert Cell(d, c) == old(Cell(d + 1, c));
        } else {
          OutOfReach(e, kernel, y + 1, y + 3, c, |kernel|);
        }
      }
    }

    /** Quantise one pixel, ink its mirrored dot and pass its error on. */
    method DiffusePixel(kernel: seq<Tap>, x: nat, v: Byte, mono: array<Byte>, ghost page: Screen, ghost h: Image, ghost y: nat)
      requires Ring() && width <= 8 * mono.Length
      requires page == Page() && kernel == page.kernel && Causal(kernel)
      requires IsPixel(page, h, y, x) && h[y][x] == v
      requires Carries(Errors(page, h), kernel, y, x, 0)
      modifies err, mono
      ensures Carries(Errors(page, h), kernel, y, x + 1, 0)
      ensures forall d: nat :: MsbDot(mono[..], d) <==>
                MsbDot(old(mono[..]), d) || (d == width - 1 - x && Inked(page, h, y, x))
    {
      var value := Source(mode, v) + err[row, x];
      assert value == ValueAt(page, h, y, x) by {
        assert err[row, x] == Cell(0, x);
        AllArrived(page, h, y, x, x);
      }
      if IsInk(mode, value) {
        SetMsb(mono, width - 1 - x);
      }
      Spread(kernel, x, value - Quantise(mode, value), Errors(page, h), y);
    }

    /** Feeding a line does not change what the ring carries into it. */
    lemma StartLine(line: seq<Byte>, page: Screen)
      requires page == Page() && Causal(page.kernel)
      requires Ring() && Carries(Errors(page, fed), page.kernel, |fed|, 0, 0)
      ensures Carries(Errors(page, fed + [line]), page.kernel, |fed|, 0, 0)
    {
      var e, e' := Errors(page, fed), Errors(page, fed + [line]);
      forall d: nat, c: nat | d < 3 && c < width
        ensures Cell(d, c) == Pending(e', page.kernel, |fed|, 0, 0, d, c)
      {
        PrefixCarried(page, fed, line, d, c);
        assert Cell(d, c) == Pending(e, page.kernel, |fed|, 0, 0, d, c);
      }
    }

    /** The error-diffusion arm of `Line`. */
    method DiffuseLine(line: seq<Byte>, mono: array<Byte>, kernel: seq<Tap>, ghost page: Screen)
      requires page == Page() && kernel == page.kernel && Causal(kernel)
      requires Ring() && Carries(Errors(page, fed), kernel, |fed|, 0, 0) && width <= 8 * mono.Length
      modifies err, this`row, this`fed, mono
      ensures Ring() && Carries(Errors(page, fed), kernel, |fed|, 0, 0) && fed == old(fed) + [line]
      ensures Plotted(old(mono[..]), mono[..], page, old(fed) + [line], |old(fed)|,
                      if width < |line| then width else |line|)
    {
      ghost var h, y := fed + [line], |fed|;
      ghost var e := Errors(page, h);
      StartLine(line, page);
      var n := if width < |line| then width else |line|;
      for x := 0 to n
        invariant fed == old(fed) && Ring() && Carries(e, kernel, y, x, 0)
        invariant Plotted(old(mono[..]), mono[..], page, h, y, x)
      {
        ghost var mid := mono[..];
        DiffusePixel(kernel, x, line[x], mono, page, h, y);
        PlotNext(old(mono[..]), mid, mono[..], page, h, y, x);
      }
      LineEnds(page, h, y, n);
      NextLine(kernel, e, y, n);
      fed := fed + [line];
    }

    /** The ordered-dither arm of `Line`. */
    method BayerLine(line: seq<Byte>, y: nat, mono: array<Byte>)
      requires width <= 8 * mono.Length
      modifies mono
      ensures forall d: nat :: MsbDot(mono[..], d) <==>
                MsbDot(old(mono[..]), d)
                || (0 <= width - 1 - d < |line| && BayerInk(line[width - 1 - d], y, d))
    {
      var n := if width < |line| then width else |line|;
      for x := 0 to n
        invariant forall d: nat :: MsbDot(mono[..], d) <==>
                    MsbDot(old(mono[..]), d)
                    || (0 <= width - 1 - d < x && BayerInk(line[width - 1 - d], y, d))
      {
        var mx := width - 1 - x;
        if BayerInk(line[x], y, mx) {
          SetMsb(mono, mx);
        }
      }
    }

    /**
     Halftone one line to 1 bpp, mirrored. Dot `d` of `mono` gains ink exactly when source pixel
     `width - 1 - d` exists and is inked: by the ordered threshold, or by diffusion over the full
     plane of every line fed so far. `Bayer` keeps no state.
     */
    method Line(line: seq<Byte>, y: nat, mono: array<Byte>)
      requires Valid() && width <= 8 * mono.Length
      modifies err, this`row, this`fed, mono
      ensures Valid()
      ensures mode.Bayer? ==> fed == old(fed) && row == old(row)
      ensures !mode.Bayer? ==> fed == old(fed) + [line]
      ensures forall d: nat :: MsbDot(mono[..], d) <==>
                MsbDot(old(mono[..]), d)
                || (0 <= width - 1 - d < |line| &&
                    if mode.Bayer? then BayerInk(line[width - 1 - d], y, d)
                    else Inked(Page(), old(fed) + [line], |old(fed)|, width - 1 - d))
    {
      if mode.Bayer? {
        BayerLine(line, y, mono);
      } else {
        DiffuseLine(line, mono, Kernel(mode), Page());
      }
    }
  }
}
