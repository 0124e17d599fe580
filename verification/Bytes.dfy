/** Bytes and the single bits of a byte. */
module Bytes {

  type Byte = b: int | 0 <= b < 256

  function Pow2(m: nat): (p: nat)
    ensures p > 0
  {
    if m == 0 then 1 else 2 * Pow2(m - 1)
  }

  /** `(n >> k) & 1 != 0` */
  predicate Bit(n: nat, k: nat) {
    if k == 0 then n % 2 == 1 else Bit(n / 2, k - 1)
  }

  /** `n | (1 << k)` */
  function WithBit(n: nat, k: nat): (r: nat) {
    if k == 0 then n / 2 * 2 + 1 else WithBit(n / 2, k - 1) * 2 + n % 2
  }

  lemma {:induction false} WithBitBits(n: nat, k: nat, j: nat)
    ensures Bit(WithBit(n, k), j) <==> j == k || Bit(n, j)
    decreases k
  {
    if k == 0 {
      if j > 0 { assert WithBit(n, k) / 2 == n / 2; }
    } else {
      assert WithBit(n, k) / 2 == WithBit(n / 2, k - 1);
      if j > 0 { WithBitBits(n / 2, k - 1, j - 1); }
    }
  }

  lemma {:induction false} WithBitBound(n: nat, k: nat, m: nat)
    requires n < Pow2(m) && k < m
    ensures WithBit(n, k) < Pow2(m)
    decreases k
  {
    if k > 0 { WithBitBound(n / 2, k - 1, m - 1); }
  }

  /** Setting one bit of a byte gives a byte and touches no other bit. */
  function OrBit(b: Byte, k: nat): (r: Byte)
    requires k < 8
    ensures forall j: nat :: Bit(r, j) <==> j == k || Bit(b, j)
  {
    assert Pow2(8) == 256 by { assert Pow2(4) == 16; }
    WithBitBound(b, k, 8);
    assert forall j: nat :: Bit(WithBit(b, k), j) <==> j == k || Bit(b, j) by {
      forall j: nat ensures Bit(WithBit(b, k), j) <==> j == k || Bit(b, j) { WithBitBits(b, k, j); }
    }
    WithBit(b, k)
  }

  /** A number below `2^m` is its `m` low bits. */
  lemma {:induction false} SameBits(a: nat, b: nat, m: nat)
    requires a < Pow2(m) && b < Pow2(m)
    requires forall k: nat :: k < m ==> (Bit(a, k) <==> Bit(b, k))
    ensures a == b
  {
    if m > 0 {
      forall k: nat | k < m - 1 ensures Bit(a / 2, k) <==> Bit(b / 2, k) {
        assert Bit(a, k + 1) <==> Bit(b, k + 1);
      }
      SameBits(a / 2, b / 2, m - 1);
      assert Bit(a, 0) <==> Bit(b, 0);
    }
  }

  lemma ZeroBits(k: nat)
    ensures !Bit(0, k)
  {
  }

  // ---- Packed dots -------------------------------------------------------------------------

  /** Dot `d` of an MSB-first packed line; dots past its end are clear. */
  predicate MsbDot(line: seq<Byte>, d: nat) {
    d / 8 < |line| && Bit(line[d / 8], 7 - d % 8)
  }

  /** Pixel (x, y) of a row-major MSB-first bitmap `stride` bytes wide; pixels past its end are clear. */
  predicate RowDot(data: seq<Byte>, stride: nat, y: nat, x: nat) {
    x / 8 < stride && y * stride + x / 8 < |data| && Bit(data[y * stride + x / 8], 7 - x % 8)
  }

  /** Dot `dot` of column `col` of a column-major LSB-first bitmap; dots past its end are clear. */
  predicate ColDot(data: seq<Byte>, stride: nat, col: nat, dot: nat) {
    dot / 8 < stride && col * stride + dot / 8 < |data| && Bit(data[col * stride + dot / 8], dot % 8)
  }

  lemma SameCell(stride: nat, r: nat, i: nat, r': nat, i': nat)
    requires i < stride && i' < stride && r * stride + i == r' * stride + i'
    ensures r == r' && i == i'
  {
    if r < r' {
      assert (r + 1) * stride <= r' * stride by { MulMono(r + 1, r', stride); }
    } else if r' < r {
      assert (r' + 1) * stride <= r * stride by { MulMono(r' + 1, r, stride); }
    }
  }

  lemma MulMono(a: nat, b: nat, c: nat)
    requires a <= b
    ensures a * c <= b * c
  {
  }

  /** Cell (r, i) of an `rows` x `stride` layout lies inside it. */
  lemma CellInside(stride: nat, rows: nat, r: nat, i: nat)
    requires r < rows && i < stride
    ensures r * stride + i < rows * stride
  {
    MulMono(r + 1, rows, stride);
  }

  lemma DotWritten(before: seq<Byte>, after: seq<Byte>, stride: nat, col: nat, dot: nat, c: nat, d: nat)
    requires dot / 8 < stride && col * stride + dot / 8 < |before|
    requires var at := col * stride + dot / 8; after == before[at := OrBit(before[at], dot % 8)]
    ensures ColDot(after, stride, c, d) <==> (c == col && d == dot) || ColDot(before, stride, c, d)
  {
    if d / 8 < stride && c * stride + d / 8 == col * stride + dot / 8 {
      SameCell(stride, c, d / 8, col, dot / 8);
    }
  }

  /** `out[col * stride + dot / 8] |= 1 << (dot % 8)` lights one dot and no other. */
  method OrDot(out: array<Byte>, stride: nat, col: nat, dot: nat)
    requires dot / 8 < stride && col * stride + dot / 8 < out.Length
    modifies out
    ensures forall c: nat, d: nat ::
              ColDot(out[..], stride, c, d) <==> (c == col && d == dot) || ColDot(old(out[..]), stride, c, d)
  {
    ghost var before := out[..];
    var at := col * stride + dot / 8;
    out[at] := OrBit(out[at], dot % 8);
    forall c: nat, d: nat ensures
      ColDot(out[..], stride, c, d) <==> (c == col && d == dot) || ColDot(before, stride, c, d)
    {
      DotWritten(before, out[..], stride, col, dot, c, d);
    }
  }

  lemma BlankDots(data: seq<Byte>, stride: nat, col: nat, dot: nat)
    requires forall i :: 0 <= i < |data| ==> data[i] == 0
    ensures !ColDot(data, stride, col, dot)
  {
    ZeroBits(dot % 8);
  }

  /** Byte strings laid end to end. */
  function Flat(parts: seq<seq<Byte>>): seq<Byte> {
    if |parts| == 0 then [] else Flat(parts[..|parts| - 1]) + parts[|parts| - 1]
  }

  lemma FlatNext(parts: seq<seq<Byte>>, part: seq<Byte>)
    ensures Flat(parts + [part]) == Flat(parts) + part
  {
    assert (parts + [part])[..|parts|] == parts;
  }
}
