/** A codec and six buffers on which greedy packing is not the shortest. */
module GreedyLimits {
  import opened Wrappers
  import opened Bytes
  import opened Buffers
  import opened Grouping
  import opened Compress

  const PROPERTIES: seq<Byte> := [0x5D, 0x00, 0x20, 0x00, 0x00]

  /** `a` blank buffers and then `b` buffers of ones, end to end. */
  function Solid(a: nat, b: nat): (r: seq<Byte>)
    ensures |r| == (a + b) * PRINT_BUF_SIZE
  {
    seq((a + b) * PRINT_BUF_SIZE, i => if i < a * PRINT_BUF_SIZE then 0 else 1)
  }

  /** What the codec has a short code for: up to four blank and two black buffers, but not the two black ones alone. */
  predicate Known(data: seq<Byte>, a: nat, b: nat) {
    a <= 4 && b <= 2 && (a > 0 || b != 2) && data == Solid(a, b)
  }

  ghost function Encode(data: seq<Byte>): (z: seq<Byte>)
    ensures |z| >= 14 && z[..LZMA_HEADER] == PROPERTIES + UNKNOWN_SIZE
    ensures if exists a, b :: Known(data, a, b) then |z| == 15 else |z| == 14 + |data|
  {
    if exists a, b :: Known(data, a, b) then
      var a, b :| Known(data, a, b);
      PROPERTIES + UNKNOWN_SIZE + [a + 1, b]
    else
      PROPERTIES + UNKNOWN_SIZE + [0] + data
  }

  function Decode(z: seq<Byte>): Option<seq<Byte>> {
    if |z| < 14 then None
    else if z[13] == 0 then Some(z[14..])
    else if |z| == 15 then Some(Solid(z[13] - 1, z[14]))
    else None
  }

  ghost function TheCodec(): Codec {
    Codec(data => Some(Encode(data)), z => Decode(z))
  }

  lemma DecodesWhole(data: seq<Byte>)
    ensures Decode(Encode(data)) == Some(data)
  {
    var z := Encode(data);
    if exists a, b :: Known(data, a, b) {
      assert z[13] > 0 && data == Solid(z[13] - 1, z[14]);
    } else {
      assert z[13] == 0 && z[14..] == data;
    }
  }

  lemma CodecIsLossless()
    ensures Lossless(TheCodec())
  {
    forall data: seq<Byte> ensures var z := Encode(data); z[5..LZMA_HEADER] == UNKNOWN_SIZE && Decode(z) == Some(data) {
      DecodesWhole(data);
      assert Encode(data)[5..LZMA_HEADER] == Encode(data)[..LZMA_HEADER][5..];
    }
  }

  /** Four blank buffers and two black ones. */
  function Pages(): (r: seq<Buffer>)
    ensures |r| == 6
  {
    [Solid(1, 0), Solid(1, 0), Solid(1, 0), Solid(1, 0), Solid(0, 1), Solid(0, 1)]
  }

  function Blanks(i: nat): nat {
    if i < 4 then i else 4
  }

  lemma SolidGrows(a: nat, b: nat)
    ensures Solid(a, b) + Solid(0, 1) == Solid(a, b + 1)
    ensures Solid(a, 0) + Solid(1, 0) == Solid(a + 1, 0)
  {
  }

  lemma ConcatNext(buffers: seq<Buffer>, b: Buffer)
    ensures Concat(buffers + [b]) == Concat(buffers) + b
  {
    assert (buffers + [b])[..|buffers|] == buffers;
  }

  lemma {:induction false} PagesConcat(from: nat, end: nat)
    requires from <= end <= 6
    ensures Concat(Pages()[from..end]) == Solid(Blanks(end) - Blanks(from), (end - Blanks(end)) - (from - Blanks(from)))
    decreases end
  {
    if from != end {
      PagesConcat(from, end - 1);
      var p, last := Pages(), end - 1;
      assert p[from..end] == p[from..last] + [p[last]];
      ConcatNext(p[from..last], p[last]);
      var a, b := Blanks(last) - Blanks(from), (last - Blanks(last)) - (from - Blanks(from));
      SolidGrows(a, b);
      if last < 4 {
        assert b == 0 && p[last] == Solid(1, 0);
      } else {
        assert p[last] == Solid(0, 1);
      }
    }
  }

  /** Every group fits but the two black buffers by themselves. */
  lemma AllButOneFit(from: nat, take: nat)
    requires 1 <= take <= BUFFER_MAX_COUNT && from + take <= 6
    ensures Fits(TheCodec(), Pages(), from, take) <==> (from, take) != (4, 2)
  {
    PagesConcat(from, from + take);
    var data := Concat(Pages()[from..from + take]);
    var a, b := Blanks(from + take) - Blanks(from), (from + take - Blanks(from + take)) - (from - Blanks(from));
    assert data == Solid(a, b) && a + b == take;
    if (from, take) == (4, 2) {
      assert data[0] == 1;
      forall a', b' ensures !Known(data, a', b') {
        assert a' > 0 && a' + b' == 2 ==> Solid(a', b')[0] == 0;
      }
    } else {
      assert Known(data, a, b);
    }
  }

  lemma ThreeGroups(fits: Fit)
    requires fits(0, 4) && !fits(4, 2)
    ensures InOrder(fits, 6, [4, 1, 1]) && Greedy(fits, 6, [4, 1, 1]) && Sum([4, 1, 1]) == 6
  {
    var empty: seq<nat>, a: seq<nat>, b: seq<nat>, c: seq<nat> := [], [4], [4, 1], [4, 1, 1];
    assert a[..0] == empty && b[..1] == a && c[..2] == b;
    assert Sum(empty) == 0 && Sum(a) == 4 && Sum(b) == 5;
  }

  lemma TwoGroups(fits: Fit)
    requires fits(0, 3) && fits(3, 3)
    ensures InOrder(fits, 6, [3, 3]) && Sum([3, 3]) == 6
  {
    var empty: seq<nat>, a: seq<nat>, b: seq<nat> := [], [3], [3, 3];
    assert a[..0] == empty && b[..1] == a;
    assert Sum(empty) == 0 && Sum(a) == 3;
  }

  lemma TwoCuts()
    ensures var fits := FitOf(TheCodec(), Pages());
            && InOrder(fits, 6, [4, 1, 1]) && Greedy(fits, 6, [4, 1, 1]) && Sum([4, 1, 1]) == 6
            && InOrder(fits, 6, [3, 3]) && Sum([3, 3]) == 6
  {
    AllButOneFit(0, 4);
    AllButOneFit(0, 3);
    AllButOneFit(3, 3);
    AllButOneFit(4, 2);
    ThreeGroups(FitOf(TheCodec(), Pages()));
    TwoGroups(FitOf(TheCodec(), Pages()));
  }

  lemma BlocksCount(groups: seq<nat>, blocks: seq<seq<Byte>>)
    requires Packed(TheCodec(), Pages(), groups, blocks) && Sum(groups) == 6
    ensures |blocks| == 3
  {
    TwoCuts();
    if |groups| <= 3 {
      GreedyLength(FitOf(TheCodec(), Pages()), 6, groups, [4, 1, 1]);
    } else {
      GreedyLength(FitOf(TheCodec(), Pages()), 6, [4, 1, 1], groups);
    }
  }

  /**
   Without the property greed can lose, even with a lossless codec: here the packing has three blocks
   where two would do, because of a single group whose rest does not fit.
   */
  lemma GreedyCanLose()
    ensures Lossless(TheCodec()) && !SuffixClosed(FitOf(TheCodec(), Pages()))
    ensures forall groups, blocks :: Packed(TheCodec(), Pages(), groups, blocks) && Sum(groups) == 6 ==> |blocks| == 3
    ensures InOrder(FitOf(TheCodec(), Pages()), 6, [3, 3]) && Sum([3, 3]) == 6
  {
    CodecIsLossless();
    TwoCuts();
    AllButOneFit(3, 3);
    AllButOneFit(4, 2);
    assert FitOf(TheCodec(), Pages())(3, 3) && !FitOf(TheCodec(), Pages())(4, 2);
    forall groups, blocks | Packed(TheCodec(), Pages(), groups, blocks) && Sum(groups) == 6 ensures |blocks| == 3 {
      BlocksCount(groups, blocks);
    }
  }
}
