/** Bit repacking and placement under the printhead. */
module Bitmap {
  import opened Bytes

  const DOTS_PER_MM := 8
  const PRINTHEAD_WIDTH_DOTS := 384
  const PRINTHEAD_BYTES_PER_LINE := 48
  const DEFAULT_MARGIN_DOTS := 8

  function BytesFor(dots: nat): (n: nat)
    ensures dots <= 8 * n < dots + 8
  {
    (dots + 7) / 8
  }

  /** `out` is the row-major bitmap turned into one column per row. */
  ghost predicate IsColumnMajor(input: seq<Byte>, width: nat, height: nat, out: seq<Byte>) {
    && |out| == height * BytesFor(width)
    && forall y: nat, x: nat :: ColDot(out, BytesFor(width), y, x) <==>
         y < height && x < width && RowDot(input, BytesFor(width), y, x)
  }

  ghost predicate Repacked(input: seq<Byte>, width: nat, out: seq<Byte>, y: nat, x: nat) {
    forall r: nat, c: nat :: ColDot(out, BytesFor(width), r, c) <==>
      (r < y || (r == y && c < x)) && c < width && RowDot(input, BytesFor(width), r, c)
  }

  /** Copy one pixel. */
  method RepackPixel(input: seq<Byte>, width: nat, height: nat, out: array<Byte>, y: nat, x: nat)
    requires y < height && x < width && out.Length == height * BytesFor(width)
    requires Repacked(input, width, out[..], y, x)
    modifies out
    ensures Repacked(input, width, out[..], y, x + 1)
  {
    var stride := BytesFor(width);
    CellInside(stride, height, y, x / 8);
    var at := y * stride + x / 8;
    if at < |input| && Bit(input[at], 7 - x % 8) {
      OrDot(out, stride, y, x);
    }
  }

  lemma RepackedRow(input: seq<Byte>, width: nat, out: seq<Byte>, y: nat)
    requires Repacked(input, width, out, y, width)
    ensures Repacked(input, width, out, y + 1, 0)
  {
  }

  method RasterToColumnMajor(input: seq<Byte>, width: nat, height: nat)
      returns (output: seq<Byte>, cols: nat, perLine: nat)
    ensures IsColumnMajor(input, width, height, output) && cols == height && perLine == BytesFor(width)
  {
    var stride := BytesFor(width);
    var out := new Byte[height * stride](_ => 0);
    forall r: nat, c: nat ensures !ColDot(out[..], stride, r, c) { BlankDots(out[..], stride, r, c); }
    for y := 0 to height
      invariant Repacked(input, width, out[..], y, 0)
    {
      for x := 0 to width
        invariant Repacked(input, width, out[..], y, x)
      {
        RepackPixel(input, width, height, out, y, x);
      }
      RepackedRow(input, width, out[..], y);
    }
    return out[..], height, stride;
  }

  // ---- Placement under the head ------------------------------------------------------------

  function Usable(canvas: nat): nat {
    canvas / 8 * 8
  }

  /** Where source dot 0 lands under a head of `canvas` dots; negative when the page is cropped. */
  function Offset(width: nat, canvas: nat): int {
    if width >= Usable(canvas) then -((width - Usable(canvas)) / 2) else (Usable(canvas) - width) / 2
  }

  /** Column `col`, dot `dot` of the page placed centrally under the head. */
  predicate CentredDot(input: seq<Byte>, width: nat, canvas: nat, col: nat, dot: nat) {
    var src := dot - Offset(width, canvas);
    0 <= src < width && ColDot(input, BytesFor(width), col, src)
  }

  /** `out` is the page `input`, `width` dots wide, centred or cropped under the head. */
  ghost predicate IsCentred(input: seq<Byte>, cols: nat, width: nat, canvas: nat, out: seq<Byte>) {
    && |out| == cols * (canvas / 8)
    && forall col: nat, dot: nat :: ColDot(out, canvas / 8, col, dot) <==>
         col < cols && dot < Usable(canvas) && CentredDot(input, width, canvas, col, dot)
  }

  ghost predicate Placed(input: seq<Byte>, width: nat, canvas: nat, out: seq<Byte>, col: nat, n: int) {
    forall c: nat, d: nat :: ColDot(out, canvas / 8, c, d) <==>
      (c < col || (c == col && d < n)) && d < Usable(canvas) && CentredDot(input, width, canvas, c, d)
  }

  lemma PlacedNext(input: seq<Byte>, width: nat, canvas: nat, before: seq<Byte>, after: seq<Byte>, col: nat, n: nat)
    requires n < Usable(canvas) && Placed(input, width, canvas, before, col, n)
    requires forall c: nat, d: nat :: ColDot(after, canvas / 8, c, d) <==>
               (c == col && d == n && CentredDot(input, width, canvas, col, n)) || ColDot(before, canvas / 8, c, d)
    ensures Placed(input, width, canvas, after, col, n + 1)
  {
  }

  /** A dot under the head lies in its column's bytes. */
  lemma UnderHead(canvas: nat, cols: nat, col: nat, dot: nat)
    requires col < cols && dot < Usable(canvas)
    ensures dot / 8 < canvas / 8 && col * (canvas / 8) + dot / 8 < cols * (canvas / 8)
  {
    CellInside(canvas / 8, cols, col, dot / 8);
  }

  /** One dot of the crop branch. */
  method CropDot(input: seq<Byte>, cols: nat, width: nat, canvas: nat, out: array<Byte>, col: nat, dot: nat)
    requires width >= Usable(canvas) && col < cols && dot < Usable(canvas) && out.Length == cols * (canvas / 8)
    requires Placed(input, width, canvas, out[..], col, dot)
    modifies out
    ensures Placed(input, width, canvas, out[..], col, dot + 1)
  {
    ghost var before := out[..];
    var src := (width - Usable(canvas)) / 2 + dot;
    MulMono(0, col, BytesFor(width));
    var at := col * BytesFor(width) + src / 8;
    if at < |input| {
      if Bit(input[at], src % 8) {
        UnderHead(canvas, cols, col, dot);
        OrDot(out, canvas / 8, col, dot);
      }
    }
    assert dot - Offset(width, canvas) == src;
    PlacedNext(input, width, canvas, before, out[..], col, dot);
  }

  /** One dot of the padding branch. */
  method PadDot(input: seq<Byte>, cols: nat, width: nat, canvas: nat, out: array<Byte>, col: nat, dot: nat)
    requires width < Usable(canvas) && col < cols && dot < width && out.Length == cols * (canvas / 8)
    requires Placed(input, width, canvas, out[..], col, Offset(width, canvas) + dot)
    modifies out
    ensures Placed(input, width, canvas, out[..], col, Offset(width, canvas) + dot + 1)
  {
    ghost var before := out[..];
    var outDot := (Usable(canvas) - width) / 2 + dot;
    UnderHead(canvas, cols, col, outDot);
    MulMono(0, col, BytesFor(width));
    var at := col * BytesFor(width) + dot / 8;
    if at < |input| {
      if Bit(input[at], dot % 8) {
        if col * (canvas / 8) + outDot / 8 < out.Length {
          OrDot(out, canvas / 8, col, outDot);
        }
      }
    }
    assert outDot - Offset(width, canvas) == dot;
    PlacedNext(input, width, canvas, before, out[..], col, outDot);
  }

  method CenterInPrinthead(input: seq<Byte>, cols: nat, width: nat, canvas: nat)
      returns (output: seq<Byte>, perLine: nat)
    ensures IsCentred(input, cols, width, canvas, output) && perLine == canvas / 8
  {
    var stride := canvas / 8;
    var usable := stride * 8;
    var out := new Byte[cols * stride](_ => 0);
    forall c: nat, d: nat ensures !ColDot(out[..], stride, c, d) { BlankDots(out[..], stride, c, d); }
    if width >= usable {
      for col := 0 to cols
        invariant Placed(input, width, canvas, out[..], col, 0)
      {
        for dot := 0 to usable
          invariant Placed(input, width, canvas, out[..], col, dot)
        {
          CropDot(input, cols, width, canvas, out, col, dot);
        }
        ColumnPlaced(input, width, canvas, out[..], col, usable);
      }
    } else {
      for col := 0 to cols
        invariant Placed(input, width, canvas, out[..], col, 0)
      {
        ColumnStarted(input, width, canvas, out[..], col);
        for dot := 0 to width
          invariant Placed(input, width, canvas, out[..], col, Offset(width, canvas) + dot)
        {
          PadDot(input, cols, width, canvas, out, col, dot);
        }
        ColumnPlaced(input, width, canvas, out[..], col, Offset(width, canvas) + width);
      }
    }
    return out[..], stride;
  }

  lemma ColumnPlaced(input: seq<Byte>, width: nat, canvas: nat, out: seq<Byte>, col: nat, n: int)
    requires Placed(input, width, canvas, out, col, n)
    requires n >= Usable(canvas) || n >= Offset(width, canvas) + width
    ensures Placed(input, width, canvas, out, col + 1, 0)
  {
  }

  lemma ColumnStarted(input: seq<Byte>, width: nat, canvas: nat, out: seq<Byte>, col: nat)
    requires width < Usable(canvas) && Placed(input, width, canvas, out, col, 0)
    ensures Placed(input, width, canvas, out, col, Offset(width, canvas))
  {
  }

  // ---- What placement promises -------------------------------------------------------------

  /** Bitmaps of whole bytes with the same dots are the same bytes. */
  lemma SameDots(a: seq<Byte>, b: seq<Byte>, stride: nat, cols: nat)
    requires |a| == |b| == cols * stride
    requires forall c: nat, d: nat :: c < cols && d < stride * 8 ==> (ColDot(a, stride, c, d) <==> ColDot(b, stride, c, d))
    ensures a == b
  {
    forall i | 0 <= i < |a| ensures a[i] == b[i] {
      var c, j := i / stride, i % stride;
      assert c * stride + j == i;
      forall k: nat | k < 8 ensures Bit(a[i], k) <==> Bit(b[i], k) {
        assert (j * 8 + k) / 8 == j && (j * 8 + k) % 8 == k;
        assert c < cols by { if c >= cols { MulMono(cols, c, stride); } }
        assert ColDot(a, stride, c, j * 8 + k) <==> ColDot(b, stride, c, j * 8 + k);
      }
      assert Pow2(8) == 256 by { assert Pow2(4) == 16; }
      SameBits(a[i], b[i], 8);
    }
  }

  lemma WholeBytes(k: nat)
    ensures BytesFor(8 * k) == k && Usable(8 * k) == 8 * k
  {
  }

  /** Cropping reads the dot that padding wrote. */
  lemma CropReadsPad(page: seq<Byte>, padded: seq<Byte>, width: nat, canvas: nat, c: nat, d: nat)
    requires width % 8 == 0 && width <= Usable(canvas) && d < width
    ensures var left := (Usable(canvas) - width) / 2;
            && (CentredDot(padded, Usable(canvas), width, c, d) <==> ColDot(padded, canvas / 8, c, d + left))
            && (CentredDot(page, width, canvas, c, d + left) <==> ColDot(page, width / 8, c, d))
            && d + left < Usable(canvas)
  {
    WholeBytes(width / 8);
    WholeBytes(canvas / 8);
    var left := (Usable(canvas) - width) / 2;
    assert Offset(Usable(canvas), width) == -left;
    assert Offset(width, canvas) == left;
  }

  /**
   Crop undoes pad: a page a whole number of bytes wide, centred under any head at least as wide
   and then cropped back to its own width, is the same page.
   */
  lemma CropUndoesPad(page: seq<Byte>, cols: nat, width: nat, canvas: nat, padded: seq<Byte>, cropped: seq<Byte>)
    requires width % 8 == 0 && width <= Usable(canvas) && |page| == cols * (width / 8)
    requires IsCentred(page, cols, width, canvas, padded)
    requires IsCentred(padded, cols, Usable(canvas), width, cropped)
    ensures cropped == page
  {
    forall c: nat, d: nat | c < cols && d < width / 8 * 8
      ensures ColDot(cropped, width / 8, c, d) <==> ColDot(page, width / 8, c, d)
    {
      var left := (Usable(canvas) - width) / 2;
      CropReadsPad(page, padded, width, canvas, c, d);
      assert ColDot(cropped, width / 8, c, d) <==> CentredDot(padded, Usable(canvas), width, c, d);
      assert ColDot(padded, canvas / 8, c, d + left) <==> CentredDot(page, width, canvas, c, d + left);
    }
    SameDots(cropped, page, width / 8, cols);
  }

  /**
   The head carries whole bytes. Both sides of a page lose or gain the same number of dots, the right one more
   when that number is odd, and padding loses none.
   */
  lemma PlacementIsCentred(width: nat, canvas: nat)
    ensures var left := Offset(width, canvas); var right := Usable(canvas) - width - left;
            && Usable(canvas) % 8 == 0 && Usable(canvas) <= canvas < Usable(canvas) + 8
            && (width <= Usable(canvas) ==> 0 <= left <= right <= left + 1)
            && (width >= Usable(canvas) ==> 0 <= -left <= -right <= -left + 1)
  {
  }
}
