/** Data packets and transfer frames, and the receiver that puts a payload back together. */
module Framing {
  import opened Bytes
  import opened Buffers

  const MAGIC1: Byte := 0x7E
  const MAGIC2: Byte := 0x5A
  const PROTO_ID: Byte := 0x10
  const DATA_TYPE: Byte := 0x02
  const DATA_MAGIC1: Byte := 0xAA
  const DATA_MAGIC2: Byte := 0xBB
  const DATA_PAYLOAD_SIZE := 500
  const DATA_FRAME_PAYLOAD_LEN := 508

  type Packet = p: seq<Byte> | |p| == 506 witness seq(506, _ => 0)
  type Frame = f: seq<Byte> | |f| == 512 witness seq(512, _ => 0)

  /** The least number of `b`s that hold `a`. */
  function CeilDiv(a: nat, b: nat): (n: nat)
    requires b > 0
    ensures (n - 1) * b < a <= n * b
  {
    CeilDivBounds(a, b);
    (a + b - 1) / b
  }

  lemma CeilDivBounds(a: nat, b: nat)
    requires b > 0
    ensures var n: nat := (a + b - 1) / b; (n - 1) * b < a <= n * b
  {
  }

  // ---- The receiver ------------------------------------------------------------------------

  predicate FrameHeaderOk(f: Frame) {
    f[0] == 0x7E && f[1] == 0x5A && f[2] as int + 256 * f[3] as int == 508 && f[4] == 0x10 && f[5] == 0x02
  }

  function Unwrap(f: Frame): Packet {
    f[6..]
  }

  /** Magic bytes and the low 16 bits of the byte sum over index, count and payload. */
  predicate PacketOk(p: Packet) {
    p[0] == 0xAA && p[1] == 0xBB && p[2] as int + 256 * p[3] as int == ByteSum(p[4..]) % 65536
  }

  predicate FrameOk(f: Frame) {
    FrameHeaderOk(f) && PacketOk(Unwrap(f))
  }

  function Index(f: Frame): Byte { f[10] }
  function Count(f: Frame): Byte { f[11] }
  function Payload(f: Frame): seq<Byte> { f[12..] }

  /** The payload of the packet with index `k`, from whichever sound frame brought it. */
  function Slot(frames: seq<Frame>, k: nat): seq<Byte> {
    if |frames| == 0 then [] else
      var f := frames[|frames| - 1];
      if FrameOk(f) && Index(f) == k then Payload(f) else Slot(frames[..|frames| - 1], k)
  }

  function Assemble(frames: seq<Frame>, n: nat): seq<Byte> {
    if n == 0 then [] else Assemble(frames, n - 1) + Slot(frames, n - 1)
  }

  /** `packets` packets put together by index, whatever order their frames arrived in, cut to `len` bytes. */
  function Receive(frames: seq<Frame>, packets: nat, len: nat): seq<Byte> {
    Cut(Assemble(frames, packets), len)
  }

  function Cut(all: seq<Byte>, len: nat): (r: seq<Byte>)
    ensures |r| <= len
  {
    if len <= |all| then all[..len] else all
  }

  // ---- The sender --------------------------------------------------------------------------

  ghost predicate PacketCarries(p: Packet, chunk: seq<Byte>, idx: Byte, total: Byte) {
    PacketOk(p) && p[4] == idx && p[5] == total && p[6..] == Window(chunk, 0, DATA_PAYLOAD_SIZE)
  }

  method MakeDataPacket(chunk: seq<Byte>, idx: Byte, total: Byte) returns (p: Packet)
    ensures PacketCarries(p, chunk, idx, total)
  {
    var pkt: array<Byte> := new Byte[506](_ => 0);
    pkt[0], pkt[1] := DATA_MAGIC1, DATA_MAGIC2;
    pkt[4], pkt[5] := idx, total;
    var n := if |chunk| < DATA_PAYLOAD_SIZE then |chunk| else DATA_PAYLOAD_SIZE;
    forall i | 0 <= i < n { pkt[6 + i] := chunk[i]; }
    assert pkt[6..] == Window(chunk, 0, DATA_PAYLOAD_SIZE);
    ghost var covered := pkt[4..];
    var chk := ByteSum(pkt[4..]) % 65536;
    pkt[2], pkt[3] := chk % 256, chk / 256;
    assert pkt[4..] == covered;
    p := pkt[..];
    assert p[4..] == covered && p[6..] == covered[2..];
  }

  method WrapDataFrame(p: Packet) returns (f: Frame)
    ensures FrameHeaderOk(f) && Unwrap(f) == p
  {
    var frame: array<Byte> := new Byte[512](_ => 0);
    frame[0], frame[1] := MAGIC1, MAGIC2;
    frame[2], frame[3] := DATA_FRAME_PAYLOAD_LEN % 256, DATA_FRAME_PAYLOAD_LEN / 256;
    frame[4], frame[5] := PROTO_ID, DATA_TYPE;
    forall i | 0 <= i < 506 { frame[6 + i] := p[i]; }
    f := frame[..];
  }

  ghost predicate FrameCarries(f: Frame, chunk: seq<Byte>, idx: Byte, total: Byte) {
    FrameOk(f) && Index(f) == idx && Count(f) == total && Payload(f) == chunk
  }

  /** The frames are the payload in 500-byte chunks, numbered and counted modulo 256. */
  ghost predicate IsFraming(data: seq<Byte>, frames: seq<Frame>) {
    && |frames| == CeilDiv(|data|, DATA_PAYLOAD_SIZE) && (|frames| - 1) * 500 < |data| <= |frames| * 500
    && forall i :: 0 <= i < |frames| ==>
         FrameCarries(frames[i], Window(data, i * DATA_PAYLOAD_SIZE, DATA_PAYLOAD_SIZE), i % 256, |frames| % 256)
  }

  lemma WrappedCarries(p: Packet, f: Frame, data: seq<Byte>, offset: nat, end: nat, idx: Byte, total: Byte)
    requires offset <= end <= |data| && (end == offset + DATA_PAYLOAD_SIZE || end == |data| <= offset + DATA_PAYLOAD_SIZE)
    requires PacketCarries(p, data[offset..end], idx, total) && FrameHeaderOk(f) && Unwrap(f) == p
    ensures FrameCarries(f, Window(data, offset, DATA_PAYLOAD_SIZE), idx, total)
  {
    assert Payload(f) == p[6..];
    assert Window(data[offset..end], 0, DATA_PAYLOAD_SIZE) == Window(data, offset, DATA_PAYLOAD_SIZE);
    assert f[10] == Unwrap(f)[4] && f[11] == Unwrap(f)[5];
  }

  method BuildDataFrames(data: seq<Byte>) returns (frames: seq<Frame>)
    ensures IsFraming(data, frames)
  {
    var n := CeilDiv(|data|, DATA_PAYLOAD_SIZE);
    frames := [];
    for i := 0 to n
      invariant |frames| == i
      invariant forall j :: 0 <= j < i ==>
        FrameCarries(frames[j], Window(data, j * DATA_PAYLOAD_SIZE, DATA_PAYLOAD_SIZE), j % 256, n % 256)
    {
      var offset := i * DATA_PAYLOAD_SIZE;
      var end := if offset + DATA_PAYLOAD_SIZE < |data| then offset + DATA_PAYLOAD_SIZE else |data|;
      var p := MakeDataPacket(data[offset..end], i % 256, n % 256);
      var f := WrapDataFrame(p);
      WrappedCarries(p, f, data, offset, end, i % 256, n % 256);
      frames := frames + [f];
    }
  }

  // ---- What framing promises ---------------------------------------------------------------

  lemma {:induction false} ByteSumUpdate(s: seq<Byte>, i: nat, b: Byte)
    requires i < |s|
    ensures ByteSum(s[i := b]) == ByteSum(s) - s[i] as int + b as int
    decreases |s|
  {
    if i == |s| - 1 {
      assert s[i := b][..i] == s[..i];
    } else {
      ByteSumUpdate(s[..|s| - 1], i, b);
      assert s[i := b][..|s| - 1] == s[..|s| - 1][i := b];
    }
  }

  /** Any change of a single byte the checksum covers is noticed. */
  lemma SingleByteChangeIsDetected(p: Packet, i: nat, b: Byte)
    requires PacketOk(p) && 4 <= i < 506 && b != p[i]
    ensures !PacketOk(p[i := b])
  {
    ByteSumUpdate(p[4..], i - 4, b);
    assert p[i := b][4..] == p[4..][i - 4 := b];
    ModDiffers(ByteSum(p[4..]), b as int - p[i] as int);
  }

  lemma ModDiffers(a: int, d: int)
    requires d != 0 && -65536 < d < 65536
    ensures (a + d) % 65536 != a % 65536
  {
  }

  lemma {:induction false} SlotFound(frames: seq<Frame>, k: nat, payload: seq<Byte>)
    requires exists f :: f in frames && FrameOk(f) && Index(f) == k
    requires forall f :: f in frames && FrameOk(f) && Index(f) == k ==> Payload(f) == payload
    ensures Slot(frames, k) == payload
  {
    var g := frames[|frames| - 1];
    if !(FrameOk(g) && Index(g) == k) {
      var rest := frames[..|frames| - 1];
      var f :| f in frames && FrameOk(f) && Index(f) == k;
      assert f in rest;
      assert forall f' :: f' in rest ==> f' in frames;
      SlotFound(rest, k, payload);
    }
  }

  lemma Arrival(frames: seq<Frame>, arrived: seq<Frame>, f: Frame)
    requires multiset(arrived) == multiset(frames)
    ensures f in arrived <==> f in frames
  {
    assert f in multiset(arrived) <==> f in multiset(frames);
  }

  /** At most 256 packets have distinct indices, so the frame with index `k` is frame `k`. */
  lemma OnlyFrame(data: seq<Byte>, frames: seq<Frame>, f: Frame, k: nat)
    requires IsFraming(data, frames) && |frames| <= 256 && k < |frames| && f in frames && Index(f) == k
    ensures f == frames[k] && FrameOk(f) && Payload(f) == Window(data, k * DATA_PAYLOAD_SIZE, DATA_PAYLOAD_SIZE)
  {
    var j :| 0 <= j < |frames| && frames[j] == f;
    assert FrameCarries(frames[j], Window(data, j * DATA_PAYLOAD_SIZE, DATA_PAYLOAD_SIZE), j % 256, |frames| % 256);
  }

  lemma SlotOf(data: seq<Byte>, frames: seq<Frame>, arrived: seq<Frame>, k: nat)
    requires IsFraming(data, frames) && |frames| <= 256 && multiset(arrived) == multiset(frames) && k < |frames|
    ensures Slot(arrived, k) == Window(data, k * DATA_PAYLOAD_SIZE, DATA_PAYLOAD_SIZE)
  {
    var chunk := Window(data, k * DATA_PAYLOAD_SIZE, DATA_PAYLOAD_SIZE);
    assert FrameCarries(frames[k], chunk, k % 256, |frames| % 256);
    Arrival(frames, arrived, frames[k]);
    forall f | f in arrived && FrameOk(f) && Index(f) == k ensures Payload(f) == chunk {
      Arrival(frames, arrived, f);
      OnlyFrame(data, frames, f, k);
    }
    SlotFound(arrived, k, chunk);
  }

  lemma {:induction false} AssembleOf(data: seq<Byte>, frames: seq<Frame>, arrived: seq<Frame>, n: nat)
    requires IsFraming(data, frames) && |frames| <= 256 && multiset(arrived) == multiset(frames) && n <= |frames|
    ensures Assemble(arrived, n) == Window(data, 0, n * DATA_PAYLOAD_SIZE)
  {
    if n > 0 {
      AssembleOf(data, frames, arrived, n - 1);
      SlotOf(data, frames, arrived, n - 1);
    }
  }

  lemma CountIsTrue(data: seq<Byte>, frames: seq<Frame>, f: Frame)
    requires IsFraming(data, frames) && |frames| <= 255 && f in frames
    ensures FrameOk(f) && Count(f) == |frames|
  {
    var j :| 0 <= j < |frames| && frames[j] == f;
  }

  /**
   In whatever order the frames arrive, a receiver that is told `len` bytes gets the first `len` bytes
   of the payload, and every packet names the true count.
   */
  lemma FramesDeliver(data: seq<Byte>, frames: seq<Frame>, arrived: seq<Frame>, len: nat)
    requires IsFraming(data, frames) && |frames| <= 255 && multiset(arrived) == multiset(frames) && len <= |data|
    ensures Receive(arrived, |frames|, len) == data[..len]
    ensures forall f :: f in arrived ==> FrameOk(f) && Count(f) == |frames|
  {
    AssembleOf(data, frames, arrived, |frames|);
    assert Window(data, 0, |frames| * DATA_PAYLOAD_SIZE)[..len] == data[..len];
    forall f | f in arrived ensures FrameOk(f) && Count(f) == |frames| {
      Arrival(frames, arrived, f);
      CountIsTrue(data, frames, f);
    }
  }
}
