/** Greedy grouping of print buffers into compressed blocks, around an abstract codec. */
module Compress {
  import opened Wrappers
  import opened Bytes
  import opened Buffers
  import opened Grouping

  const MAX_COMPRESSED_BLOCK := PRINT_BUF_SIZE
  const LZMA_HEADER := 13

  datatype Error = Empty | Compression

  /** The external LZMA1 encoder and decoder; `None` is the library reporting an error. */
  datatype Codec = Codec(encode: seq<Byte> -> Option<seq<Byte>>, decode: seq<Byte> -> Option<seq<Byte>>)

  // ---- The size field of the stream header ---------------------------------------------------

  /** `v.to_le_bytes()` for a value of `n` bytes. */
  function LittleEndian(v: nat, n: nat): (r: seq<Byte>)
    ensures |r| == n
  {
    if n == 0 then [] else [v % 256] + LittleEndian(v / 256, n - 1)
  }

  /** The number a reader makes of a little-endian field. */
  function ReadLittleEndian(s: seq<Byte>): nat {
    if |s| == 0 then 0 else s[0] + 256 * ReadLittleEndian(s[1..])
  }

  function Pow256(n: nat): nat {
    if n == 0 then 1 else 256 * Pow256(n - 1)
  }

  lemma {:induction false} LittleEndianReads(v: nat, n: nat)
    requires v < Pow256(n)
    ensures ReadLittleEndian(LittleEndian(v, n)) == v
  {
    if n > 0 {
      LittleEndianReads(v / 256, n - 1);
      assert LittleEndian(v, n)[1..] == LittleEndian(v / 256, n - 1);
    }
  }

  const UNKNOWN_SIZE: seq<Byte> := [255, 255, 255, 255, 255, 255, 255, 255]

  function PatchSize(z: seq<Byte>, size: seq<Byte>): (r: seq<Byte>)
    requires |z| >= LZMA_HEADER && |size| == 8
    ensures |r| == |z|
  {
    z[..5] + size + z[LZMA_HEADER..]
  }

  function CompressLzma(codec: Codec, data: seq<Byte>): Option<seq<Byte>> {
    match codec.encode(data)
    case None => None
    case Some(z) => Some(if |z| >= LZMA_HEADER then PatchSize(z, LittleEndian(|data|, 8)) else z)
  }

  function DecompressLzma(codec: Codec, data: seq<Byte>): Option<seq<Byte>> {
    if |data| < LZMA_HEADER then None else codec.decode(PatchSize(data, UNKNOWN_SIZE))
  }

  /**
   What is relied on from the library: a stream has a whole header whose size field is the
   unknown-size sentinel, and decoding a stream gives back what was encoded.
   */
  ghost predicate Lossless(codec: Codec) {
    forall data: seq<Byte> :: codec.encode(data).Some? ==>
      var z := codec.encode(data).value;
      |z| >= LZMA_HEADER && z[5..LZMA_HEADER] == UNKNOWN_SIZE && codec.decode(z) == Some(data)
  }

  /** A single print buffer never grows past what a 16-bit length can announce. */
  ghost predicate Compact(codec: Codec) {
    forall data: seq<Byte> :: |data| == PRINT_BUF_SIZE && CompressLzma(codec, data).Some? ==>
      |CompressLzma(codec, data).value| < 65536
  }

  /** The library reports an error on some input. */
  ghost predicate CanFail(codec: Codec) {
    exists data: seq<Byte> :: codec.encode(data).None?
  }

  /** Writing the definite size for the firmware and restoring the sentinel for the decoder loses nothing. */
  lemma RoundTrip(codec: Codec, data: seq<Byte>)
    requires Lossless(codec) && CompressLzma(codec, data).Some?
    ensures var z := CompressLzma(codec, data).value;
            && DecompressLzma(codec, z) == Some(data)
            && |z| >= 13 && (|data| < 0x1_0000_0000_0000_0000 ==> ReadLittleEndian(z[5..13]) == |data|)
  {
    if |data| < 0x1_0000_0000_0000_0000 { LittleEndianReads(|data|, 8); }
    var z := codec.encode(data).value;
    var size := LittleEndian(|data|, 8);
    assert PatchSize(PatchSize(z, size), UNKNOWN_SIZE) == z by {
      assert z == z[..5] + z[5..LZMA_HEADER] + z[LZMA_HEADER..];
    }
  }

  // ---- Grouping ----------------------------------------------------------------------------

  function Concat(buffers: seq<Buffer>): (r: seq<Byte>)
    ensures |r| == |buffers| * PRINT_BUF_SIZE
  {
    if |buffers| == 0 then [] else Concat(buffers[..|buffers| - 1]) + buffers[|buffers| - 1]
  }

  /** The stream for `take` buffers from `from`. */
  function Stream(codec: Codec, buffers: seq<Buffer>, from: nat, take: nat): Option<seq<Byte>>
    requires from + take <= |buffers|
  {
    CompressLzma(codec, Concat(buffers[from..from + take]))
  }

  predicate Fits(codec: Codec, buffers: seq<Buffer>, from: int, take: int) {
    0 <= from && 1 <= take && from + take <= |buffers|
    && var z := Stream(codec, buffers, from, take); z.Some? && |z.value| <= 4096
  }

  ghost function FitOf(codec: Codec, buffers: seq<Buffer>): Fit {
    (from: int, take: int) => Fits(codec, buffers, from, take)
  }

  /** The blocks are the streams of the groups. */
  ghost predicate BlocksOf(codec: Codec, buffers: seq<Buffer>, groups: seq<nat>, blocks: seq<seq<Byte>>) {
    && |blocks| == |groups| && Sum(groups) <= |buffers|
    && (|groups| > 0 ==>
          && BlocksOf(codec, buffers, groups[..|groups| - 1], blocks[..|blocks| - 1])
          && Stream(codec, buffers, Sum(groups[..|groups| - 1]), groups[|groups| - 1]) == Some(blocks[|blocks| - 1]))
  }

  /** The blocks are a greedy in-order cut of the first `Sum(groups)` buffers. */
  ghost predicate Packed(codec: Codec, buffers: seq<Buffer>, groups: seq<nat>, blocks: seq<seq<Byte>>) {
    && BlocksOf(codec, buffers, groups, blocks)
    && InOrder(FitOf(codec, buffers), |buffers|, groups)
    && Greedy(FitOf(codec, buffers), |buffers|, groups)
  }

  function Lengths(blocks: seq<seq<Byte>>): (n: nat)
    ensures n == |Flat(blocks)|
  {
    if |blocks| == 0 then 0 else Lengths(blocks[..|blocks| - 1]) + |blocks[|blocks| - 1]|
  }

  /** `m` is the whole part of `total` shared out over `count`. */
  predicate IsMean(m: nat, total: nat, count: nat) {
    m * count <= total < (m + 1) * count
  }

  function Mean(total: nat, count: nat): (m: nat)
    requires count > 0
    ensures IsMean(m, total, count)
  {
    total / count
  }

  lemma MeanIsQuotient(m: nat, total: nat, count: nat)
    requires IsMean(m, total, count)
    ensures count > 0 && m == total / count
  {
    var q := Mean(total, count);
    if m < q {
      MulMono(m + 1, q, count);
    } else if q < m {
      MulMono(q + 1, m, count);
    }
  }

  /** Pack up to four buffers and shrink the group until its stream fits. */
  method PackGroup(codec: Codec, buffers: seq<Buffer>, next: nat) returns (r: Result<seq<Byte>, Error>, take: nat)
    requires next < |buffers|
    ensures r.Ok? ==> Sendable(FitOf(codec, buffers), |buffers|, next, take)
                      && Longest(FitOf(codec, buffers), |buffers|, next, take)
                      && Stream(codec, buffers, next, take) == Some(r.value)
    ensures r.Err? ==> r.error == Compression
                       && exists t :: 1 <= t <= BUFFER_MAX_COUNT && next + t <= |buffers| && Stream(codec, buffers, next, t) == None
  {
    take := if BUFFER_MAX_COUNT < |buffers| - next then BUFFER_MAX_COUNT else |buffers| - next;
    while true
      invariant 1 <= take <= BUFFER_MAX_COUNT && next + take <= |buffers|
      invariant Longest(FitOf(codec, buffers), |buffers|, next, take)
      decreases take
    {
      var z := Stream(codec, buffers, next, take);
      if z.None? {
        return Err(Compression), take;
      }
      if |z.value| <= MAX_COMPRESSED_BLOCK || take == 1 {
        return Ok(z.value), take;
      }
      take := take - 1;
    }
  }

  /**
   Split print buffers into blocks. On success the blocks are a greedy in-order cut of all the
   buffers; it fails only for no buffers at all or when the codec fails on a group it tried.
   */
  method CompressBuffers(codec: Codec, buffers: seq<Buffer>)
      returns (r: Result<(seq<seq<Byte>>, nat), Error>, ghost groups: seq<nat>)
    ensures r.Ok? ==> Packed(codec, buffers, groups, r.value.0) && Sum(groups) == |buffers| > 0
                      && IsMean(r.value.1, |Flat(r.value.0)|, |buffers|)
    ensures r == Err(Empty) <==> |buffers| == 0
    ensures r == Err(Compression) ==> exists next, t :: 0 <= next && 1 <= t <= BUFFER_MAX_COUNT
                                        && next + t <= |buffers| && Stream(codec, buffers, next, t) == None
  {
    groups := [];
    if |buffers| == 0 {
      return Err(Empty), groups;
    }
    var blocks: seq<seq<Byte>> := [];
    var next := 0;
    while next < |buffers|
      invariant next == Sum(groups) <= |buffers|
      invariant Packed(codec, buffers, groups, blocks)
    {
      var block, take := PackGroup(codec, buffers, next);
      if block.Err? {
        return Err(block.error), groups;
      }
      Extend(codec, buffers, groups, take, blocks, block.value);
      blocks := blocks + [block.value];
      groups := groups + [take];
      next := next + take;
    }
    return Ok((blocks, Mean(Lengths(blocks), |buffers|))), groups;
  }

  lemma Extend(codec: Codec, buffers: seq<Buffer>, groups: seq<nat>, take: nat, blocks: seq<seq<Byte>>, block: seq<Byte>)
    requires Packed(codec, buffers, groups, blocks)
    requires Sendable(FitOf(codec, buffers), |buffers|, Sum(groups), take)
    requires Longest(FitOf(codec, buffers), |buffers|, Sum(groups), take)
    requires Stream(codec, buffers, Sum(groups), take) == Some(block)
    ensures Packed(codec, buffers, groups + [take], blocks + [block])
    ensures Sum(groups + [take]) == Sum(groups) + take
  {
    var g, b := groups + [take], blocks + [block];
    assert g[..|groups|] == groups && b[..|blocks|] == blocks;
  }

  // ---- What packing promises -----------------------------------------------------------------

  /** What the firmware makes of the blocks: each decompressed, in order. */
  function DecompressAll(codec: Codec, blocks: seq<seq<Byte>>): Option<seq<Byte>> {
    if |blocks| == 0 then Some([]) else
      match (DecompressAll(codec, blocks[..|blocks| - 1]), DecompressLzma(codec, blocks[|blocks| - 1]))
      case (Some(a), Some(b)) => Some(a + b)
      case _ => None
  }

  lemma {:induction false} ConcatSplit(a: seq<Buffer>, b: seq<Buffer>)
    ensures Concat(a + b) == Concat(a) + Concat(b)
    decreases |b|
  {
    if |b| == 0 {
      assert a + b == a;
    } else {
      var n := |b| - 1;
      ConcatSplit(a, b[..n]);
      assert (a + b)[..|a + b| - 1] == a + b[..n] && (a + b)[|a + b| - 1] == b[n];
      assert Concat(a + b) == Concat(a + b[..n]) + b[n];
      assert Concat(a) + Concat(b[..n]) + b[n] == Concat(a) + (Concat(b[..n]) + b[n]);
    }
  }

  lemma ConcatJoin(buffers: seq<Buffer>, from: nat, take: nat)
    requires from + take <= |buffers|
    ensures Concat(buffers[..from + take]) == Concat(buffers[..from]) + Concat(buffers[from..from + take])
  {
    ConcatSplit(buffers[..from], buffers[from..from + take]);
    assert buffers[..from] + buffers[from..from + take] == buffers[..from + take];
  }

  lemma StreamDecodes(codec: Codec, buffers: seq<Buffer>, from: nat, take: nat)
    requires Lossless(codec) && from + take <= |buffers| && Stream(codec, buffers, from, take).Some?
    ensures DecompressLzma(codec, Stream(codec, buffers, from, take).value) == Some(Concat(buffers[from..from + take]))
  {
    RoundTrip(codec, Concat(buffers[from..from + take]));
  }

  lemma OneMoreBlock(codec: Codec, blocks: seq<seq<Byte>>, a: seq<Byte>, b: seq<Byte>)
    requires |blocks| > 0 && DecompressAll(codec, blocks[..|blocks| - 1]) == Some(a)
    requires DecompressLzma(codec, blocks[|blocks| - 1]) == Some(b)
    ensures DecompressAll(codec, blocks) == Some(a + b)
  {
  }

  lemma LastBlock(codec: Codec, buffers: seq<Buffer>, groups: seq<nat>, blocks: seq<seq<Byte>>, from: nat, take: nat)
    requires Lossless(codec) && BlocksOf(codec, buffers, groups, blocks) && |groups| > 0
    requires from == Sum(groups[..|groups| - 1]) && take == groups[|groups| - 1]
    ensures DecompressLzma(codec, blocks[|blocks| - 1]) == Some(Concat(buffers[from..from + take]))
  {
    StreamDecodes(codec, buffers, from, take);
  }

  /** Packing loses nothing: the blocks decompress to the buffers they cover, in order. */
  lemma {:induction false} PackingIsLossless(codec: Codec, buffers: seq<Buffer>, groups: seq<nat>, blocks: seq<seq<Byte>>)
    requires Lossless(codec) && BlocksOf(codec, buffers, groups, blocks)
    ensures DecompressAll(codec, blocks) == Some(Concat(buffers[..Sum(groups)]))
    decreases |groups|
  {
    if |groups| > 0 {
      var n := |groups| - 1;
      PackingIsLossless(codec, buffers, groups[..n], blocks[..n]);
      LastBlock(codec, buffers, groups, blocks, Sum(groups[..n]), groups[n]);
      OneMoreGroup(codec, buffers, blocks, Sum(groups[..n]), groups[n]);
    } else {
      assert buffers[..0] == [];
    }
  }

  lemma OneMoreGroup(codec: Codec, buffers: seq<Buffer>, blocks: seq<seq<Byte>>, from: nat, take: nat)
    requires from + take <= |buffers| && |blocks| > 0
    requires DecompressAll(codec, blocks[..|blocks| - 1]) == Some(Concat(buffers[..from]))
    requires DecompressLzma(codec, blocks[|blocks| - 1]) == Some(Concat(buffers[from..from + take]))
    ensures DecompressAll(codec, blocks) == Some(Concat(buffers[..from + take]))
  {
    OneMoreBlock(codec, blocks, Concat(buffers[..from]), Concat(buffers[from..from + take]));
    ConcatJoin(buffers, from, take);
  }

  /**
   The packing is the shortest: when the rests of groups that fit fit too, no other in-order cut of all
   the buffers into groups of at most four that fit or are single has fewer blocks.
   */
  lemma PackingIsShortest(codec: Codec, buffers: seq<Buffer>, groups: seq<nat>, blocks: seq<seq<Byte>>, other: seq<nat>)
    requires Packed(codec, buffers, groups, blocks) && Sum(groups) == |buffers|
    requires SuffixClosed(FitOf(codec, buffers))
    requires InOrder(FitOf(codec, buffers), |buffers|, other) && Sum(other) == |buffers|
    ensures |blocks| <= |other|
  {
    GreedyIsOptimal(FitOf(codec, buffers), |buffers|, groups, other);
  }

  /** No block overruns the receive buffer unless it already holds a single print buffer. */
  lemma {:induction false} BlocksFit(codec: Codec, buffers: seq<Buffer>, groups: seq<nat>, blocks: seq<seq<Byte>>, i: nat)
    requires Packed(codec, buffers, groups, blocks) && i < |blocks|
    ensures 1 <= groups[i] <= BUFFER_MAX_COUNT
    ensures |blocks[i]| <= MAX_COMPRESSED_BLOCK || groups[i] == 1
    decreases |groups|
  {
    if i < |groups| - 1 {
      BlocksFit(codec, buffers, groups[..|groups| - 1], blocks[..|blocks| - 1], i);
    }
  }

  /** Groups of several buffers fit the receive buffer, so only single ones could outgrow 16 bits. */
  lemma {:induction false} PackedIsShort(codec: Codec, buffers: seq<Buffer>, groups: seq<nat>, blocks: seq<seq<Byte>>)
    requires Packed(codec, buffers, groups, blocks) && Compact(codec)
    ensures forall i :: 0 <= i < |blocks| ==> |blocks[i]| < 65536
    decreases |groups|
  {
    if |groups| > 0 {
      var n := |groups| - 1;
      PackedIsShort(codec, buffers, groups[..n], blocks[..n]);
      BlocksFit(codec, buffers, groups, blocks, n);
      if groups[n] == 1 {
        var from := Sum(groups[..n]);
        assert |Concat(buffers[from..from + 1])| == PRINT_BUF_SIZE;
      }
      forall i | 0 <= i < |blocks| ensures |blocks[i]| < 65536 {
        if i < n { assert blocks[i] == blocks[..n][i]; }
      }
    }
  }
}
