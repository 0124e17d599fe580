/** Print buffers: header, checksum and the banded tiling of a page, with the firmware's reading of them. */
module Buffers {
  import opened Bytes

  const MAX_BUF_DATA := 4074
  const PRINT_BUF_SIZE := 4096
  const PRINT_BUF_HEADER := 14
  const MARGIN_MAX_DOTS := 900
  const MAX_DENSITY := 15
  const CHECKSUM_STRIDE := 256

  type U16 = n: int | 0 <= n < 65536

  /** The two burn-energy trims of a buffer. */
  datatype Density = Density(black: Byte, red: Byte)

  datatype ColourMode = Mono | TwoColour {
    function FirstCut(): Byte {
      if Mono? then 0 else 2
    }

    function Planes(): nat {
      if Mono? then 1 else 2
    }
  }

  datatype PageOptions = PageOptions(colour: ColourMode, savePaper: bool)

  datatype PageRegBits = PageRegBits(
    pageSt: bool, pageEnd: bool, prtEnd: bool, cut: Byte, savePaper: bool, firstCut: Byte, nodu: Byte, mat: Byte)

  datatype BufferParams = BufferParams(
    image: seq<Byte>, perLine: Byte, cols: U16, pageSt: bool, pageEnd: bool, prtEnd: bool,
    marginTop: U16, marginBottom: U16, density: Density, page: PageOptions)

  /** A run of printed columns with its own trims. */
  datatype Band = Band(cols: U16, density: Density)

  // ---- The firmware's reading of a buffer --------------------------------------------------

  type Buffer = b: seq<Byte> | |b| == PRINT_BUF_SIZE witness seq(PRINT_BUF_SIZE, _ => 0)

  function Word(b: Buffer, at: nat): U16
    requires at + 1 < PRINT_BUF_SIZE
  {
    b[at] as int + 256 * b[at + 1] as int
  }

  predicate PageStart(b: Buffer) { b[2] / 2 % 2 == 1 }
  predicate PageEnd(b: Buffer) { b[2] / 4 % 2 == 1 }
  predicate PrintEnd(b: Buffer) { b[2] / 8 % 2 == 1 }
  predicate SavesPaper(b: Buffer) { b[2] / 128 == 1 }
  function CutMode(b: Buffer): nat { b[2] / 16 % 8 }
  function FirstCut(b: Buffer): nat { b[3] % 4 }
  function BlackTrim(b: Buffer): nat { b[3] / 4 % 16 }
  function Material(b: Buffer): nat { b[3] / 64 }
  function LineCount(b: Buffer): U16 { Word(b, 4) }
  function PerLine(b: Buffer): Byte { b[6] }
  function RedTrim(b: Buffer): nat { b[12] }

  /** The lines a buffer carries. */
  function Payload(b: Buffer): seq<Byte> {
    var n := LineCount(b) * PerLine(b);
    if n <= 4082 then b[14..14 + n] else b[14..]
  }

  /** `n` bytes of an image from `start`, blank past its end. */
  function Window(image: seq<Byte>, start: nat, n: nat): (r: seq<Byte>)
    ensures |r| == n && forall i :: 0 <= i < n ==> r[i] == if start + i < |image| then image[start + i] else 0
  {
    seq(n, i requires 0 <= i < n => if start + i < |image| then image[start + i] else 0)
  }

  function ByteSum(s: seq<Byte>): (sum: nat)
    ensures sum <= 255 * |s|
  {
    if |s| == 0 then 0 else ByteSum(s[..|s| - 1]) + s[|s| - 1] as int
  }

  /** How many stride boundaries the image data of a buffer reaches. */
  function Strides(cols: U16, perLine: Byte): (n: nat)
    ensures 256 * n <= cols * perLine + 14 < 256 * (n + 1)
  {
    MulMono(0, cols, perLine);
    (cols * perLine + PRINT_BUF_HEADER) / CHECKSUM_STRIDE
  }

  /** Sum of the bytes just before the first `n` stride boundaries. */
  ghost function StrideSum(b: seq<Byte>, n: nat): (sum: nat)
    ensures sum <= 255 * n
  {
    if n == 0 then 0 else
      StrideSum(b, n - 1) + (if n * 256 - 1 < |b| then b[n * 256 - 1] as int else 0)
  }

  /** The stored checksum is the plain sum the firmware recomputes; it never wraps. */
  ghost predicate ChecksumHolds(b: Buffer) {
    Word(b, 0) == ByteSum(b[2..PRINT_BUF_HEADER])
                  + StrideSum(b, Strides(LineCount(b), PerLine(b)))
  }

  // ---- Building one buffer -----------------------------------------------------------------

  function Flag(on: bool, weight: Byte): Byte {
    if on then weight else 0
  }

  function BuildPageRegBits(p: PageRegBits): (bits: (Byte, Byte)) {
    (Flag(p.pageSt, 0x02) + Flag(p.pageEnd, 0x04) + Flag(p.prtEnd, 0x08) + p.cut % 8 * 16 + Flag(p.savePaper, 0x80),
     p.firstCut % 4 + p.nodu % 16 * 4 + p.mat % 4 * 64)
  }

  function Clamp(v: int, lo: int, hi: int): (r: int)
    ensures lo <= hi ==> lo <= r <= hi && (lo <= v <= hi ==> r == v) && (v < lo ==> r == lo) && (v > hi ==> r == hi)
  {
    if v < lo then lo else if v > hi then hi else v
  }

  /** `b` says and carries what `p` asks for. */
  ghost predicate Encodes(p: BufferParams, b: Buffer) {
    && (PageStart(b) <==> p.pageSt) && (PageEnd(b) <==> p.pageEnd) && (PrintEnd(b) <==> p.prtEnd)
    && (SavesPaper(b) <==> p.page.savePaper)
    && CutMode(b) == 0 && b[2] % 2 == 0 && FirstCut(b) == (if p.page.colour.TwoColour? then 2 else 0) && Material(b) == 1
    && BlackTrim(b) == p.density.black % 16
    && RedTrim(b) == (if p.density.red < 15 then p.density.red else 15) && b[7] == 0 && b[13] == 0
    && LineCount(b) == p.cols && PerLine(b) == p.perLine
    && Word(b, 8) == Clamp(p.marginTop, 1, 900) && Word(b, 10) == Clamp(p.marginBottom, 1, 900)
    && b[PRINT_BUF_HEADER..] == Window(p.image, 0, PRINT_BUF_SIZE - PRINT_BUF_HEADER)
  }

  lemma {:induction false} StrideSumLocal(b: seq<Byte>, b': seq<Byte>, n: nat)
    requires |b| == |b'| && forall i :: 2 <= i < |b| ==> b[i] == b'[i]
    ensures StrideSum(b, n) == StrideSum(b', n)
  {
    if n > 0 { StrideSumLocal(b, b', n - 1); }
  }

  /** Boundaries past the end of the buffer add nothing, so sixteen bytes at most are folded in. */
  lemma {:induction false} StrideSumBound(b: seq<Byte>, n: nat)
    requires |b| == PRINT_BUF_SIZE
    ensures StrideSum(b, n) <= 255 * 16
  {
    if n > 16 { StrideSumBound(b, n - 1); }
  }

  function RegBits(p: BufferParams): (Byte, Byte) {
    BuildPageRegBits(
      PageRegBits(p.pageSt, p.pageEnd, p.prtEnd, 0, p.page.savePaper, p.page.colour.FirstCut(), p.density.black, 1))
  }

  /** Lay out the header fields; the checksum is still blank. */
  method FillHeader(p: BufferParams, buf: array<Byte>)
    requires buf.Length == PRINT_BUF_SIZE && forall i :: 0 <= i < PRINT_BUF_SIZE ==> buf[i] == 0
    modifies buf
    ensures buf[2] == RegBits(p).0 && buf[3] == RegBits(p).1
    ensures buf[4] == p.cols % 256 && buf[5] == p.cols / 256 && buf[6] == p.perLine && buf[7] == 0
    ensures var mt := Clamp(p.marginTop, 1, MARGIN_MAX_DOTS); buf[8] == mt % 256 && buf[9] == mt / 256
    ensures var mb := Clamp(p.marginBottom, 1, MARGIN_MAX_DOTS); buf[10] == mb % 256 && buf[11] == mb / 256
    ensures buf[12] == (if p.density.red < MAX_DENSITY then p.density.red else MAX_DENSITY) && buf[13] == 0
    ensures forall i :: PRINT_BUF_HEADER <= i < PRINT_BUF_SIZE ==> buf[i] == 0
  {
    var bits := RegBits(p);
    buf[2], buf[3] := bits.0, bits.1;
    buf[4], buf[5] := p.cols % 256, p.cols / 256;
    buf[6] := p.perLine;
    var mt := Clamp(p.marginTop, 1, MARGIN_MAX_DOTS);
    var mb := Clamp(p.marginBottom, 1, MARGIN_MAX_DOTS);
    buf[8], buf[9] := mt % 256, mt / 256;
    buf[10], buf[11] := mb % 256, mb / 256;
    buf[12] := if p.density.red < MAX_DENSITY then p.density.red else MAX_DENSITY;
  }

  lemma RegBitsDecode(p: BufferParams, b: Buffer)
    requires b[2] == RegBits(p).0 && b[3] == RegBits(p).1
    ensures (PageStart(b) <==> p.pageSt) && (PageEnd(b) <==> p.pageEnd) && (PrintEnd(b) <==> p.prtEnd)
    ensures SavesPaper(b) <==> p.page.savePaper
    ensures CutMode(b) == 0 && b[2] % 2 == 0
    ensures FirstCut(b) == (if p.page.colour.TwoColour? then 2 else 0) && Material(b) == 1 && BlackTrim(b) == p.density.black % 16
  {
  }

  /** Lay out a whole buffer, checksum still blank. */
  method FillBuffer(p: BufferParams, buf: array<Byte>)
    requires buf.Length == PRINT_BUF_SIZE && forall i :: 0 <= i < PRINT_BUF_SIZE ==> buf[i] == 0
    modifies buf
    ensures Encodes(p, buf[..])
  {
    FillHeader(p, buf);
    var dataLen := if |p.image| < PRINT_BUF_SIZE - PRINT_BUF_HEADER then |p.image| else PRINT_BUF_SIZE - PRINT_BUF_HEADER;
    forall i | 0 <= i < dataLen { buf[PRINT_BUF_HEADER + i] := p.image[i]; }
    RegBitsDecode(p, buf[..]);
    assert buf[PRINT_BUF_HEADER..] == Window(p.image, 0, PRINT_BUF_SIZE - PRINT_BUF_HEADER);
  }

  /** Sum the header and the byte before each of the first `strides` boundaries that lies in the buffer. */
  method ChecksumOf(buf: array<Byte>, strides: nat) returns (chk: nat)
    requires buf.Length == PRINT_BUF_SIZE
    ensures chk == ByteSum(buf[2..PRINT_BUF_HEADER]) + StrideSum(buf[..], strides)
    ensures chk < 65536
  {
    chk := ByteSum(buf[2..PRINT_BUF_HEADER]);
    for i := 1 to strides + 1
      invariant chk == ByteSum(buf[2..PRINT_BUF_HEADER]) + StrideSum(buf[..], i - 1)
    {
      var at := i * CHECKSUM_STRIDE - 1;
      if at < buf.Length {
        chk := chk + buf[at] as int;
      }
    }
    StrideSumBound(buf[..], strides);
  }

  method BuildPrintBuffer(p: BufferParams) returns (b: Buffer)
    ensures Encodes(p, b) && ChecksumHolds(b)
  {
    var buf: array<Byte> := new Byte[PRINT_BUF_SIZE](_ => 0);
    FillBuffer(p, buf);
    ghost var filled: Buffer := buf[..];
    var chk := ChecksumOf(buf, Strides(p.cols, p.perLine));
    buf[0], buf[1] := chk % 65536 % 256, chk % 65536 / 256;
    b := buf[..];
    Stamped(p, filled, b, chk);
  }

  /** The checksum bytes touch nothing else, and hold the sum. */
  lemma Stamped(p: BufferParams, filled: Buffer, b: Buffer, chk: nat)
    requires Encodes(p, filled) && forall i :: 2 <= i < PRINT_BUF_SIZE ==> b[i] == filled[i]
    requires chk < 65536 && b[0] == chk % 256 && b[1] == chk / 256
    requires chk == ByteSum(filled[2..PRINT_BUF_HEADER])
                    + StrideSum(filled, Strides(p.cols, p.perLine))
    ensures Encodes(p, b) && ChecksumHolds(b)
  {
    assert b[PRINT_BUF_HEADER..] == filled[PRINT_BUF_HEADER..];
    assert b[2..PRINT_BUF_HEADER] == filled[2..PRINT_BUF_HEADER];
    StrideSumLocal(b, filled, Strides(p.cols, p.perLine));
  }
}
