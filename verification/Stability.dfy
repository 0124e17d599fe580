/** The carried error never runs away, so extremes of tone are exact in every image. */
module Stability {
  import opened Bytes
  import opened Halftone

  /** What the first `n` neighbours bring if each carries error `b`. */
  ghost function Reach(kernel: seq<Tap>, b: real, n: nat): real
    requires n <= |kernel|
  {
    if n == 0 then 0.0 else Reach(kernel, b, n - 1) + kernel[n - 1].weight * b
  }

  ghost function Residue(s: Screen, v: Byte, incoming: real): real {
    var value := s.source(v) + incoming;
    value - s.quantise(value)
  }

  /** Errors in [lo, hi) only ever produce errors in [lo, hi). */
  ghost predicate Contained(s: Screen, lo: real, hi: real) {
    && Causal(s.kernel) && |s.kernel| > 0 && lo <= 0.0 < hi
    && (forall j :: 0 <= j < |s.kernel| ==> s.kernel[j].weight > 0.0)
    && (forall v: Byte, incoming: real ::
          Reach(s.kernel, lo, |s.kernel|) <= incoming < Reach(s.kernel, hi, |s.kernel|)
          ==> lo <= Residue(s, v, incoming) < hi)
  }

  lemma {:induction false} SumContained(kernel: seq<Tap>, errors: seq<real>, lo: real, hi: real, n: nat)
    requires n <= |kernel| && n <= |errors| && forall j :: 0 <= j < |kernel| ==> kernel[j].weight > 0.0
    requires forall j :: 0 <= j < |errors| ==> lo <= errors[j] < hi
    ensures Reach(kernel, lo, n) <= WeightedSum(kernel, errors, n)
    ensures if n == 0 then WeightedSum(kernel, errors, n) == 0.0 else WeightedSum(kernel, errors, n) < Reach(kernel, hi, n)
    decreases n
  {
    if n > 0 {
      SumContained(kernel, errors, lo, hi, n - 1);
      Scale(kernel[n - 1].weight, lo, hi, errors[n - 1]);
    }
  }

  lemma {:induction false} ErrorContained(s: Screen, lo: real, hi: real, h: Image, y: int, x: int)
    requires Contained(s, lo, hi) && IsPixel(s, h, y, x)
    ensures lo <= ErrorAt(s, h, y, x) < hi
    decreases y, x, 1
  {
    IncomingContained(s, lo, hi, h, y, x);
    assert ErrorAt(s, h, y, x) == Residue(s, h[y][x], Incoming(s, h, y, x));
  }

  lemma {:induction false} IncomingContained(s: Screen, lo: real, hi: real, h: Image, y: int, x: int)
    requires Contained(s, lo, hi) && IsPixel(s, h, y, x)
    ensures Reach(s.kernel, lo, |s.kernel|) <= Incoming(s, h, y, x) < Reach(s.kernel, hi, |s.kernel|)
    decreases y, x, 0
  {
    var errors := Neighbours(s, h, y, x, |s.kernel|);
    forall j | 0 <= j < |errors| ensures lo <= errors[j] < hi {
      var sy, sx := y - s.kernel[j].dy, x - s.kernel[j].dx;
      NeighbourAt(s, h, y, x, |s.kernel|, j);
      if IsPixel(s, h, sy, sx) { ErrorContained(s, lo, hi, h, sy, sx); }
    }
    SumContained(s.kernel, errors, lo, hi, |s.kernel|);
  }

  lemma Scale(w: real, lo: real, hi: real, e: real)
    requires w > 0.0 && lo <= e < hi
    ensures w * lo <= w * e < w * hi
  {
  }

  // ---- The three kernels ------------------------------------------------------------------

  lemma FloydSteinbergReach(b: real)
    ensures Reach(Kernel(FloydSteinberg), b, 4) == b
  {
    var k := Kernel(FloydSteinberg);
    assert Reach(k, b, 1) == 7.0 / 16.0 * b;
    assert Reach(k, b, 2) == 10.0 / 16.0 * b;
    assert Reach(k, b, 3) == 15.0 / 16.0 * b;
  }

  lemma AtkinsonReach(b: real)
    ensures Reach(Kernel(Atkinson), b, 6) == 0.75 * b
  {
    var k := Kernel(Atkinson);
    assert Reach(k, b, 1) == 0.125 * b;
    assert Reach(k, b, 2) == 0.25 * b;
    assert Reach(k, b, 3) == 0.375 * b;
    assert Reach(k, b, 4) == 0.5 * b;
    assert Reach(k, b, 5) == 0.625 * b;
  }

  lemma VendorReach(b: real)
    ensures Reach(Kernel(Vendor16), b, 4) == 0.9375 * b
  {
    var k := Kernel(Vendor16);
    assert Reach(k, b, 1) == 0.3125 * b;
    assert Reach(k, b, 2) == 0.5 * b;
    assert Reach(k, b, 3) == 0.875 * b;
  }

  /** The vendor's levels are the nearest multiples of 17. */
  lemma VendorNearest(value: real)
    requires -8.5 < value < 263.5
    ensures -8.5 <= value - Quantise(Vendor16, value) < 8.5
  {
    var q := value / 17.0;
    assert q * 17.0 == value;
    var r := Round(q);
    assert value >= 0.0 ==> r as real <= q + 0.5 < r as real + 1.0;
    assert value < 0.0 ==> r == 0;
    assert 0 <= r <= 15;
  }

  /** The error range every pixel of a page stays in. */
  function Low(mode: DitherMode): real {
    if mode.Vendor16? then -8.5 else -127.0
  }

  function High(mode: DitherMode): real {
    if mode.Vendor16? then 8.5 else 128.0
  }

  lemma ModeContained(mode: DitherMode, width: nat)
    requires !mode.Bayer?
    ensures Contained(ScreenFor(mode, width), Low(mode), High(mode))
  {
    var s, lo, hi := ScreenFor(mode, width), Low(mode), High(mode);
    FloydSteinbergReach(lo); FloydSteinbergReach(hi);
    AtkinsonReach(lo); AtkinsonReach(hi);
    VendorReach(lo); VendorReach(hi);
    forall v: Byte, incoming: real | Reach(s.kernel, lo, |s.kernel|) <= incoming < Reach(s.kernel, hi, |s.kernel|)
      ensures lo <= Residue(s, v, incoming) < hi
    {
      ResidueContained(mode, width, v, incoming);
    }
  }

  lemma ResidueContained(mode: DitherMode, width: nat, v: Byte, incoming: real)
    requires !mode.Bayer?
    requires mode.Vendor16? ==> 0.9375 * -8.5 <= incoming < 0.9375 * 8.5
    requires !mode.Vendor16? ==> -127.0 <= incoming < 128.0
    ensures Low(mode) <= Residue(ScreenFor(mode, width), v, incoming) < High(mode)
  {
    var value := Source(mode, v) + incoming;
    if mode.Vendor16? { VendorNearest(value); }
  }

  /**
   Carried-error stability: in every image, the error arriving at any pixel stays in
   [-127, 128) for Floyd-Steinberg, [-95.25, 96) for Atkinson and within 8.5 * 15/16 for Vendor16.
   */
  lemma CarriedErrorIsStable(mode: DitherMode, width: nat, h: Image, y: int, x: int)
    requires !mode.Bayer? && IsPixel(ScreenFor(mode, width), h, y, x)
    ensures var incoming := Incoming(ScreenFor(mode, width), h, y, x);
            && (mode.FloydSteinberg? ==> -127.0 <= incoming < 128.0)
            && (mode.Atkinson? ==> -95.25 <= incoming < 96.0)
            && (mode.Vendor16? ==> -8.5 * 15.0 / 16.0 <= incoming < 8.5 * 15.0 / 16.0)
  {
    var lo, hi := Low(mode), High(mode);
    ModeContained(mode, width);
    IncomingContained(ScreenFor(mode, width), lo, hi, h, y, x);
    FloydSteinbergReach(lo); FloydSteinbergReach(hi);
    AtkinsonReach(lo); AtkinsonReach(hi);
    VendorReach(lo); VendorReach(hi);
  }

  /**
   No diffusion can speckle the extremes. Whatever surrounds it, a pixel of tone 0 is inked and a
   pixel of tone 255 is blank; Atkinson holds every linear tone up to 32 and from 224; Vendor16
   holds every source value up to 119 and from 136.
   */
  lemma ExtremesAreExact(mode: DitherMode, width: nat, h: Image, y: int, x: int)
    requires !mode.Bayer? && IsPixel(ScreenFor(mode, width), h, y, x)
    ensures var v, inked := h[y][x], Inked(ScreenFor(mode, width), h, y, x);
            && (v == 0 ==> inked) && (v == 255 ==> !inked)
            && (mode.Atkinson? ==> (SrgbToLinear(v) <= 32 ==> inked) && (SrgbToLinear(v) >= 224 ==> !inked))
            && (mode.Vendor16? ==> (v <= 119 ==> inked) && (v >= 136 ==> !inked))
  {
    CarriedErrorIsStable(mode, width, h, y, x);
    var value := ValueAt(ScreenFor(mode, width), h, y, x);
    if mode.Vendor16? { VendorInk(value); }
  }

  lemma VendorInk(value: real)
    requires -8.5 < value < 263.5
    ensures value < 127.5 <==> IsInk(Vendor16, value)
  {
    var q := value / 17.0;
    assert q * 17.0 == value;
    var r := Round(q);
    assert value >= 0.0 ==> r as real <= q + 0.5 < r as real + 1.0;
    assert value < 0.0 ==> r == 0;
    assert 0 <= r <= 15;
    assert r <= 7 <==> value < 127.5;
  }

  /** The ordered dither is exact at the extremes too, wherever the pixel lands. */
  lemma BayerExtremes(y: nat, mx: nat)
    ensures BayerInk(0, y, mx) && !BayerInk(255, y, mx)
  {
  }
}
