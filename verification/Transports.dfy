/** The two bulk senders: SPP frames and USB HID reports. */
module Transports {
  import opened Wrappers
  import opened Bytes
  import opened Buffers
  import opened Framing
  import opened Protocol

  const HID_REPORT_SIZE := 64
  const SPP_BLOCK_SIZE := 512

  /** A frame put on the pipe, and whether a reply to it was read before going on. */
  datatype SentFrame = SentFrame(frame: Frame, awaited: bool)

  /** `sent` is a run of the frames from the first on, each awaited as the link and the caller ask. */
  ghost predicate FramesSent(sent: seq<SentFrame>, frames: seq<Frame>, acked: bool, readFinal: bool) {
    && |sent| <= |frames|
    && forall i :: 0 <= i < |sent| ==>
         sent[i] == SentFrame(frames[i], acked && (i != |frames| - 1 || readFinal))
  }

  lemma OneMoreFrame(sent: seq<SentFrame>, frames: seq<Frame>, acked: bool, readFinal: bool, want: bool)
    requires FramesSent(sent, frames, acked, readFinal) && |sent| < |frames|
    requires want == (acked && (|sent| != |frames| - 1 || readFinal))
    ensures FramesSent(sent + [SentFrame(frames[|sent|], want)], frames, acked, readFinal)
  {
  }

  class SppCodec {
    /** Whether the link acknowledges data frames (BLE does not). */
    const acked: bool
    /** Which sends the link refuses. */
    const fails: nat -> bool
    var sent: seq<SentFrame>

    constructor (acked: bool, fails: nat -> bool)
      ensures this.acked == acked && this.fails == fails && sent == []
    {
      this.acked := acked;
      this.fails := fails;
      sent := [];
    }

    method SendDataFrame(frame: Frame, readResponse: bool) returns (ok: bool)
      modifies this
      ensures sent == old(sent) + [SentFrame(frame, readResponse)]
      ensures ok <==> !fails(|old(sent)|)
    {
      ok := !fails(|sent|);
      sent := sent + [SentFrame(frame, readResponse)];
    }

    /**
     Send a payload as numbered frames. Each frame's reply is drained before the next on links that
     acknowledge; the last is awaited only on request. A failed send stops the transfer there.
     */
    method SendBulkData(data: seq<Byte>, readFinal: bool)
        returns (ok: bool, ghost frames: seq<Frame>, ghost tail: seq<SentFrame>)
      modifies this
      ensures IsFraming(data, frames)
      ensures sent == old(sent) + tail && FramesSent(tail, frames, acked, readFinal)
      ensures ok ==> |tail| == |frames|
      ensures !ok ==> |tail| > 0 && fails(|sent| - 1)
    {
      var fs := BuildDataFrames(data);
      frames, tail := fs, [];
      for i := 0 to |fs|
        invariant |tail| == i && sent == old(sent) + tail && FramesSent(tail, fs, acked, readFinal)
      {
        var want := acked && (i != |fs| - 1 || readFinal);
        ok := SendDataFrame(fs[i], want);
        OneMoreFrame(tail, fs, acked, readFinal, want);
        tail := tail + [SentFrame(fs[i], want)];
        if !ok {
          return false, frames, tail;
        }
      }
      ok := true;
    }
  }

  // ---- USB ---------------------------------------------------------------------------------

  type Report = r: seq<Byte> | |r| == 64 witness seq(64, _ => 0)

  /** The reports are the payload in 64-byte chunks from the first on, the last zero-padded. */
  ghost predicate ReportsSent(reports: seq<Report>, data: seq<Byte>) {
    && |reports| <= CeilDiv(|data|, HID_REPORT_SIZE)
    && forall i :: 0 <= i < |reports| ==> reports[i] == Window(data, i * HID_REPORT_SIZE, HID_REPORT_SIZE)
  }

  class UsbHidTransport {
    /** Which writes the link refuses, which reads after a write fail, and what else is read then. */
    const fails: nat -> bool
    const unread: nat -> bool
    const answers: nat -> Option<Report>
    var reports: seq<Report>

    constructor (fails: nat -> bool, unread: nat -> bool, answers: nat -> Option<Report>)
      ensures this.fails == fails && this.unread == unread && this.answers == answers && reports == []
    {
      this.fails, this.unread, this.answers := fails, unread, answers;
      reports := [];
    }

    /** Write one output report: the data, then zeros up to 64 bytes. */
    method WriteReport(data: seq<Byte>) returns (ok: bool)
      modifies this
      ensures |reports| == |old(reports)| + 1 && reports[..|old(reports)|] == old(reports)
      ensures forall i :: 0 <= i < HID_REPORT_SIZE ==>
                reports[|old(reports)|][i] == if i < |data| then data[i] else 0
      ensures ok <==> !fails(|old(reports)|)
    {
      var report: array<Byte> := new Byte[HID_REPORT_SIZE](_ => 0);
      var copyLen := if |data| < HID_REPORT_SIZE then |data| else HID_REPORT_SIZE;
      forall i | 0 <= i < copyLen { report[i] := data[i]; }
      ok := !fails(|reports|);
      reports := reports + [report[..]];
    }

    /** Write a report and read the answer to it; a link that fails either way gives none. */
    method SendAndRecv(data: seq<Byte>) returns (ok: bool, response: Option<Report>)
      modifies this
      ensures |reports| == |old(reports)| + 1 && reports[..|old(reports)|] == old(reports)
      ensures reports[|old(reports)|] == Window(data, 0, HID_REPORT_SIZE)
      ensures ok <==> !fails(|old(reports)|) && !unread(|old(reports)|)
      ensures response == if ok then answers(|old(reports)|) else None
    {
      ok := WriteReport(data);
      assert reports[|old(reports)|] == Window(data, 0, HID_REPORT_SIZE);
      if !ok || unread(|reports| - 1) {
        return false, None;
      }
      response := answers(|reports| - 1);
    }

    /**
     Send a payload as consecutive 64-byte reports. Only the last can be asked for an answer, which is
     then the result; a write or read that fails ends the transfer there.
     */
    method SendBulkData(data: seq<Byte>, readFinal: bool)
        returns (ok: bool, response: Option<Report>, ghost tail: seq<Report>)
      modifies this
      ensures reports == old(reports) + tail && ReportsSent(tail, data)
      ensures |tail| > 0 ==> (|tail| - 1) * 64 < |data|
      ensures ok ==> |tail| == CeilDiv(|data|, HID_REPORT_SIZE) && |data| <= |tail| * 64
      ensures !ok ==> |tail| > 0 && response.None?
                      && (fails(|reports| - 1)
                          || (readFinal && |tail| == CeilDiv(|data|, HID_REPORT_SIZE) && unread(|reports| - 1)))
      ensures ok ==> response == if readFinal && data != [] then answers(|reports| - 1) else None
    {
      tail := [];
      var total := CeilDiv(|data|, HID_REPORT_SIZE);
      for i := 0 to total
        invariant |tail| == i && reports == old(reports) + tail && ReportsSent(tail, data)
        invariant readFinal && i == total ==> data == []
      {
        var from := i * HID_REPORT_SIZE;
        var to := if from + HID_REPORT_SIZE < |data| then from + HID_REPORT_SIZE else |data|;
        assert Window(data[from..to], 0, HID_REPORT_SIZE) == Window(data, from, HID_REPORT_SIZE);
        ghost var before := reports;
        tail := tail + [Window(data, from, HID_REPORT_SIZE)];
        if i == total - 1 && readFinal {
          ok, response := SendAndRecv(data[from..to]);
          assert reports == before + [Window(data, from, HID_REPORT_SIZE)];
          return ok, response, tail;
        }
        ok := WriteReport(data[from..to]);
        assert reports[|before|] == Window(data, from, HID_REPORT_SIZE);
        assert reports == before + [Window(data, from, HID_REPORT_SIZE)];
        if !ok {
          return false, None, tail;
        }
      }
      ok, response := true, None;
    }
  }

  // ---- What the device makes of a bulk transfer ------------------------------------------------

  function Join(reports: seq<Report>): seq<Byte> {
    if |reports| == 0 then [] else Join(reports[..|reports| - 1]) + reports[|reports| - 1]
  }

  /** NEXT_ZIPPEDBULK over SPP carries the frame size and the packet count, and no byte length. */
  function SppHeader(header: Op): (parameters: (U16, U16))
    requires header.BulkHeader?
    ensures parameters.0 == 512 && (header.packets < 65536 ==> parameters.1 == header.packets)
  {
    (SPP_BLOCK_SIZE, header.packets % 65536)
  }

  /** NEXT_ZIPPEDBULK over USB carries the byte length. */
  function UsbHeader(header: Op): U16
    requires header.BulkHeader?
  {
    header.len
  }

  /** One block transfer as the device sees it: the two commands and, between them, what its link brought. */
  datatype Transfer =
    | ViaSpp(header: Op, arrived: seq<Frame>, full: Op)
    | ViaUsb(header: Op, reports: seq<Report>, full: Op)
  {
    ghost predicate WellFormed() {
      header.BulkHeader? && full.BufFull?
    }
  }

  /** The block the device takes in: over SPP the byte length only comes with BUF_FULL. */
  ghost function Hears(t: Transfer): seq<Byte>
    requires t.WellFormed()
  {
    match t
    case ViaSpp(header, arrived, full) =>
      if SppHeader(header).0 == 512 then Receive(arrived, SppHeader(header).1, full.blockLen) else []
    case ViaUsb(header, reports, _) => Cut(Join(reports), UsbHeader(header))
  }

  /** The frames of `block`, in any order. */
  ghost predicate FramesArrive(arrived: seq<Frame>, block: seq<Byte>) {
    exists frames :: IsFraming(block, frames) && multiset(arrived) == multiset(frames)
  }

  /** The link brings all of `block`, over SPP in any order. */
  ghost predicate Brings(t: Transfer, block: seq<Byte>) {
    match t
    case ViaSpp(_, arrived, _) => FramesArrive(arrived, block)
    case ViaUsb(_, reports, _) => ReportsSent(reports, block) && |reports| == CeilDiv(|block|, HID_REPORT_SIZE)
  }

  /** `t` is the transfer of `block`: its two commands and its data. */
  ghost predicate Transfers(t: Transfer, block: seq<Byte>) {
    t.WellFormed() && t.header == HeaderFor(block) && t.full.blockLen == |block| % 65536 && Brings(t, block)
  }

  /** `t` is what the device sees of the operations around position `i` of a run. */
  ghost predicate Seen(run: seq<Event>, i: int, t: Transfer) {
    && 1 <= i < |run| - 1 && t.WellFormed() && t.header == run[i - 1].op && t.full == run[i + 1].op
    && run[i].op.BulkData? && Brings(t, run[i].op.data)
  }

  /** The transfers the device sees of a run, one for each block sent. */
  ghost predicate TransfersOf(run: seq<Event>, speed: U16, transfers: seq<Transfer>) {
    && |transfers| == |Sent(run)|
    && forall k :: 0 <= k < |transfers| ==> SomewhereSeen(run, Sent(run)[k], speed, transfers[k])
  }

  ghost predicate SomewhereSeen(run: seq<Event>, block: seq<Byte>, speed: U16, t: Transfer) {
    exists i :: OnWire(run, i, block, speed) && Seen(run, i, t)
  }

  /** The blocks the device takes in, read off the commands and the data it was sent. */
  ghost function HeardBlocks(transfers: seq<Transfer>): seq<seq<Byte>>
    requires forall k :: 0 <= k < |transfers| ==> transfers[k].WellFormed()
  {
    seq(|transfers|, k requires 0 <= k < |transfers| => Hears(transfers[k]))
  }

  lemma {:induction false} JoinOf(data: seq<Byte>, reports: seq<Report>)
    requires ReportsSent(reports, data)
    ensures Join(reports) == Window(data, 0, |reports| * HID_REPORT_SIZE)
    decreases |reports|
  {
    if |reports| > 0 { JoinOf(data, reports[..|reports| - 1]); }
  }

  lemma ReportsPrefix(data: seq<Byte>, reports: seq<Report>, len: nat)
    requires ReportsSent(reports, data) && |reports| == CeilDiv(|data|, HID_REPORT_SIZE) && len <= |data|
    ensures Cut(Join(reports), len) == data[..len]
  {
    JoinOf(data, reports);
    assert Window(data, 0, |reports| * HID_REPORT_SIZE)[..len] == data[..len];
  }

  lemma SppPrefix(t: Transfer, block: seq<Byte>, len: nat)
    requires t.ViaSpp? && t.WellFormed() && FramesArrive(t.arrived, block)
    requires SppHeader(t.header).1 == CeilDiv(|block|, DATA_PAYLOAD_SIZE) <= 255 && len == t.full.blockLen <= |block|
    ensures Hears(t) == block[..len]
  {
    ArrivedPrefix(t.arrived, block, len);
  }

  lemma ArrivedPrefix(arrived: seq<Frame>, block: seq<Byte>, len: nat)
    requires FramesArrive(arrived, block) && CeilDiv(|block|, DATA_PAYLOAD_SIZE) <= 255 && len <= |block|
    ensures Receive(arrived, CeilDiv(|block|, DATA_PAYLOAD_SIZE), len) == block[..len]
  {
    var frames :| IsFraming(block, frames) && multiset(arrived) == multiset(frames);
    FramesDeliver(block, frames, arrived, len);
  }

  /** The device gets the block up to its length modulo 65536: always over USB, over SPP while packets can be told apart. */
  lemma HearsPrefix(t: Transfer, block: seq<Byte>)
    requires Transfers(t, block) && (t.ViaSpp? ==> CeilDiv(|block|, DATA_PAYLOAD_SIZE) <= 255)
    ensures Hears(t) == block[..|block| % 65536]
  {
    if t.ViaSpp? {
      assert t.header.packets == CeilDiv(|block|, DATA_PAYLOAD_SIZE);
      SppPrefix(t, block, |block| % 65536);
    } else {
      ReportsPrefix(block, t.reports, |block| % 65536);
    }
  }

  /** Delivery: on either transport a block arrives whole if and only if it is shorter than 65536 bytes. */
  lemma TransferDelivers(t: Transfer, block: seq<Byte>)
    requires Transfers(t, block)
    ensures Hears(t) == block <==> |block| < 65536
  {
    if |block| < 65536 {
      HearsPrefix(t, block);
    } else {
      assert |Hears(t)| <= |block| % 65536;
    }
  }

  /** The transports agree: whatever a block of at most 255 packets comes to over one, it comes to over the other. */
  lemma TransportsAgree(spp: Transfer, usb: Transfer, block: seq<Byte>)
    requires spp.ViaSpp? && Transfers(spp, block) && CeilDiv(|block|, DATA_PAYLOAD_SIZE) <= 255
    requires usb.ViaUsb? && Transfers(usb, block)
    ensures Hears(spp) == Hears(usb)
  {
    HearsPrefix(spp, block);
    HearsPrefix(usb, block);
  }

  /** A run's blocks reach the device whole if and only if each is shorter than 65536 bytes. */
  lemma RunIsHeard(run: seq<Event>, speed: U16, transfers: seq<Transfer>)
    requires TransfersOf(run, speed, transfers)
    ensures forall k :: 0 <= k < |transfers| ==> transfers[k].WellFormed()
    ensures HeardBlocks(transfers) == Sent(run) <==> forall k :: 0 <= k < |Sent(run)| ==> |Sent(run)[k]| < 65536
  {
    var blocks := Sent(run);
    forall k | 0 <= k < |transfers|
      ensures transfers[k].WellFormed() && (Hears(transfers[k]) == blocks[k] <==> |blocks[k]| < 65536)
    {
      assert SomewhereSeen(run, blocks[k], speed, transfers[k]);
      TransferDelivers(transfers[k], blocks[k]);
    }
    if HeardBlocks(transfers) == blocks {
      forall k | 0 <= k < |blocks| ensures |blocks[k]| < 65536 { assert HeardBlocks(transfers)[k] == blocks[k]; }
    }
  }

  /** 65536 bytes, 132 packets: both transports announce a length of zero and the block is lost. */
  lemma LengthWraps(t: Transfer)
    requires Transfers(t, Window([], 0, 65536))
    ensures CeilDiv(65536, DATA_PAYLOAD_SIZE) == 132 && Hears(t) == []
  {
    HearsPrefix(t, Window([], 0, 65536));
  }
}
