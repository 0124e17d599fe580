/** What goes over the wire during a print, and which operations a print run may issue when. */
module Protocol {
  import opened Wrappers
  import opened Bytes
  import opened Buffers
  import opened Framing

  datatype Status = Status(
    bufFull: bool, labelRwError: bool, labelEnd: bool, labelModeError: bool, ribbonRwError: bool, ribbonEnd: bool,
    lowBattery: bool, deviceBusy: bool, headTempHigh: bool, coverOpen: bool, insertUsb: bool, printing: bool,
    labelNotInstalled: bool)
  {
    predicate HasError() {
      labelRwError || labelEnd || labelModeError || ribbonRwError || ribbonEnd || coverOpen || headTempHigh
      || labelNotInstalled
    }
  }

  /** One transport operation; the bulk data of a block counts as one. */
  datatype Op =
    | CheckDevice
    | InquirySta
    | StartPrint
    | StopPrint
    | BulkHeader(len: U16, packets: nat)
    | BulkData(data: seq<Byte>)
    | BufFull(blockLen: U16, speed: U16)

  /** What the device and the link make of an operation: anything at all. */
  datatype Reply = Fault | Silent | Answer(acks: bool, status: Option<Status>)

  datatype Event = Event(op: Op, reply: Reply)

  /** The status an event reported, if it was a status poll that got one. */
  function Heard(e: Event): Option<Status> {
    if e.op.InquirySta? && e.reply.Answer? then e.reply.status else None
  }

  predicate HeardIdle(e: Event) {
    Heard(e).Some? && !Heard(e).value.deviceBusy && !Heard(e).value.printing
  }

  predicate HeardError(e: Event) {
    Heard(e).Some? && Heard(e).value.HasError()
  }

  predicate HeardPrinting(e: Event) {
    Heard(e).Some? && !Heard(e).value.HasError() && Heard(e).value.printing
  }

  predicate HeardRoom(e: Event) {
    Heard(e).Some? && !Heard(e).value.HasError() && !Heard(e).value.bufFull
  }

  predicate HeardDone(e: Event) {
    HeardRoom(e) && HeardIdle(e)
  }

  // ---- What a run may do when ------------------------------------------------------------------

  /** The blocks whose data went out, in order. */
  function Sent(run: seq<Event>): seq<seq<Byte>> {
    if |run| == 0 then [] else
      Sent(run[..|run| - 1]) + (if run[|run| - 1].op.BulkData? then [run[|run| - 1].op.data] else [])
  }

  predicate Started(run: seq<Event>) {
    exists i :: 0 <= i < |run| && run[i].op.StartPrint?
  }

  /** The printer was started and afterwards reported that it is printing, without error. */
  ghost predicate Engaged(run: seq<Event>) {
    exists s, p :: 0 <= s < p < |run| && run[s].op.StartPrint? && HeardPrinting(run[p])
  }

  /** The last operation failed on the link. */
  predicate Faulted(run: seq<Event>) {
    run != [] && run[|run| - 1].reply.Fault?
  }

  /** The printer acknowledged the CHECK_DEVICE the run began with. */
  predicate Present(run: seq<Event>) {
    run != [] && run[0].op.CheckDevice? && run[0].reply.Answer? && run[0].reply.acks
  }

  function HeaderFor(block: seq<Byte>): Op {
    BulkHeader(|block| % 65536, CeilDiv(|block|, DATA_PAYLOAD_SIZE))
  }

  /** Whether `op` may follow `past` in a run that prints `blocks` at `speed`. */
  ghost predicate Allowed(past: seq<Event>, op: Op, blocks: seq<seq<Byte>>, speed: U16) {
    var k := |Sent(past)|;
    !Faulted(past) &&
    match op
    case CheckDevice => past == []
    case InquirySta => Present(past)
    case StartPrint => Present(past) && HeardIdle(past[|past| - 1]) && !HeardError(past[|past| - 1]) && !Started(past)
    case StopPrint => false
    case BulkHeader(_, _) =>
      past != [] && HeardRoom(past[|past| - 1]) && Engaged(past) && k < |blocks| && op == HeaderFor(blocks[k])
    case BulkData(data) =>
      && past != [] && k < |blocks| && data == blocks[k]
      && past[|past| - 1].op == HeaderFor(data) && past[|past| - 1].reply.Answer?
    case BufFull(len, s) =>
      && past != [] && past[|past| - 1].op.BulkData? && len == |past[|past| - 1].op.data| % 65536 && s == speed
  }

  /** Every operation of the run was allowed by what had happened before it. */
  ghost predicate Safe(run: seq<Event>, blocks: seq<seq<Byte>>, speed: U16) {
    |run| == 0 || (
      && Safe(run[..|run| - 1], blocks, speed)
      && Allowed(run[..|run| - 1], run[|run| - 1].op, blocks, speed))
  }

  lemma {:induction false} AllowedAt(run: seq<Event>, blocks: seq<seq<Byte>>, speed: U16, i: nat)
    requires Safe(run, blocks, speed) && i < |run|
    ensures Allowed(run[..i], run[i].op, blocks, speed)
    decreases |run|
  {
    if i < |run| - 1 {
      AllowedAt(run[..|run| - 1], blocks, speed, i);
      assert run[..|run| - 1][..i] == run[..i];
    }
  }

  lemma SafeNext(run: seq<Event>, e: Event, blocks: seq<seq<Byte>>, speed: U16)
    requires Safe(run, blocks, speed) && Allowed(run, e.op, blocks, speed)
    ensures Safe(run + [e], blocks, speed)
  {
    assert (run + [e])[..|run|] == run;
  }

  lemma SentNext(run: seq<Event>, e: Event)
    ensures Sent(run + [e]) == Sent(run) + (if e.op.BulkData? then [e.op.data] else [])
  {
    assert (run + [e])[..|run|] == run;
  }

  /** Status polls only, the link holding up until the last of them. */
  ghost predicate AllPolls(tail: seq<Event>) {
    forall i :: 0 <= i < |tail| ==> tail[i].op.InquirySta? && (i < |tail| - 1 ==> !tail[i].reply.Fault?)
  }

  lemma PollIsSafe(run: seq<Event>, e: Event, blocks: seq<seq<Byte>>, speed: U16)
    requires Safe(run, blocks, speed) && Present(run) && !Faulted(run) && e.op.InquirySta?
    ensures Safe(run + [e], blocks, speed) && Sent(run + [e]) == Sent(run) && Present(run + [e])
    ensures Started(run + [e]) <==> Started(run)
  {
    SafeNext(run, e, blocks, speed);
    SentNext(run, e);
    if Started(run) {
      var i :| 0 <= i < |run| && run[i].op.StartPrint?;
      assert (run + [e])[i] == run[i];
    }
  }

  lemma ShorterPolls(tail: seq<Event>)
    requires AllPolls(tail) && tail != []
    ensures AllPolls(tail[..|tail| - 1]) && !Faulted(tail[..|tail| - 1]) && tail[|tail| - 1].op.InquirySta?
  {
  }

  /** Polling a printer that is there is always safe, sends nothing and starts nothing. */
  lemma {:induction false} PollsAreSafe(run: seq<Event>, tail: seq<Event>, blocks: seq<seq<Byte>>, speed: U16)
    requires Safe(run, blocks, speed) && Present(run) && !Faulted(run) && AllPolls(tail)
    ensures Safe(run + tail, blocks, speed) && Sent(run + tail) == Sent(run) && Present(run + tail)
    ensures Started(run + tail) <==> Started(run)
    ensures Faulted(run + tail) <==> Faulted(tail)
    decreases |tail|
  {
    if tail == [] {
      assert run + tail == run;
    } else {
      var most, e := tail[..|tail| - 1], tail[|tail| - 1];
      ShorterPolls(tail);
      PollsAreSafe(run, most, blocks, speed);
      PollIsSafe(run + most, e, blocks, speed);
      assert run + most + [e] == run + tail;
    }
  }

  lemma EngagedGrows(run: seq<Event>, tail: seq<Event>)
    requires Engaged(run)
    ensures Engaged(run + tail)
  {
    var s, p :| 0 <= s < p < |run| && run[s].op.StartPrint? && HeardPrinting(run[p]);
    assert (run + tail)[s] == run[s] && (run + tail)[p] == run[p];
  }

  // ---- One block transfer, event by event ------------------------------------------------------

  /** Block `k` is the next to send and the last status left room for it. */
  ghost predicate MaySend(run: seq<Event>, blocks: seq<seq<Byte>>, k: nat) {
    run != [] && HeardRoom(run[|run| - 1]) && Engaged(run) && |Sent(run)| == k < |blocks|
  }

  lemma HeaderIsSafe(run: seq<Event>, e: Event, blocks: seq<seq<Byte>>, speed: U16, k: nat)
    requires Safe(run, blocks, speed) && MaySend(run, blocks, k) && e.op == HeaderFor(blocks[k])
    ensures Safe(run + [e], blocks, speed) && Sent(run + [e]) == Sent(run)
  {
    SafeNext(run, e, blocks, speed);
    SentNext(run, e);
  }

  lemma DataIsSafe(run: seq<Event>, e: Event, blocks: seq<seq<Byte>>, speed: U16, k: nat)
    requires Safe(run, blocks, speed) && run != [] && |Sent(run)| == k < |blocks|
    requires run[|run| - 1].op == HeaderFor(blocks[k]) && run[|run| - 1].reply.Answer? && e.op == BulkData(blocks[k])
    ensures Safe(run + [e], blocks, speed) && Sent(run + [e]) == Sent(run) + [blocks[k]]
  {
    SafeNext(run, e, blocks, speed);
    SentNext(run, e);
  }

  lemma FullIsSafe(run: seq<Event>, e: Event, blocks: seq<seq<Byte>>, speed: U16)
    requires Safe(run, blocks, speed) && run != [] && run[|run| - 1].op.BulkData? && !Faulted(run)
    requires e.op == BufFull(|run[|run| - 1].op.data| % 65536, speed)
    ensures Safe(run + [e], blocks, speed) && Sent(run + [e]) == Sent(run)
  {
    SafeNext(run, e, blocks, speed);
    SentNext(run, e);
  }

  // ---- What safety means -----------------------------------------------------------------------

  /** The event is a status poll that was answered with `st`. */
  predicate Reported(e: Event, st: Status) {
    e.op.InquirySta? && e.reply.Answer? && e.reply.status == Some(st)
  }

  /** None of the eight conditions that keep the printer from printing. */
  predicate Clear(st: Status) {
    && !st.labelRwError && !st.labelEnd && !st.labelModeError && !st.labelNotInstalled
    && !st.ribbonRwError && !st.ribbonEnd && !st.coverOpen && !st.headTempHigh
  }

  /** The answer to the event was clear and idle. */
  ghost predicate SaidIdle(e: Event) {
    exists st :: Reported(e, st) && Clear(st) && !st.deviceBusy && !st.printing
  }

  /** The answer to the event was clear, with room in the buffer. */
  ghost predicate SaidRoom(e: Event) {
    exists st :: Reported(e, st) && Clear(st) && !st.bufFull
  }

  /** The answer to the event was clear and printing. */
  ghost predicate SaidPrinting(e: Event) {
    exists st :: Reported(e, st) && Clear(st) && st.printing
  }

  /** What a heard status amounts to, flag by flag. */
  lemma HeardIsSaid(e: Event)
    ensures HeardIdle(e) && !HeardError(e) <==> SaidIdle(e)
    ensures HeardRoom(e) <==> SaidRoom(e)
    ensures HeardPrinting(e) <==> SaidPrinting(e)
    ensures HeardDone(e) <==> exists st ::
              Reported(e, st) && Clear(st) && !st.deviceBusy && !st.printing && !st.bufFull
  {
    if Heard(e).Some? { assert Reported(e, Heard(e).value); }
  }

  /** At most one START_PRINT, and it directly follows an idle, error-free status; never a STOP_PRINT. */
  lemma StartsOnceWhenIdle(run: seq<Event>, blocks: seq<seq<Byte>>, speed: U16, i: nat)
    requires Safe(run, blocks, speed) && i < |run|
    ensures !run[i].op.StopPrint?
    ensures run[i].op.StartPrint? ==>
              && i > 0 && SaidIdle(run[i - 1])
              && forall j :: 0 <= j < |run| && run[j].op.StartPrint? ==> j == i
  {
    AllowedAt(run, blocks, speed, i);
    if run[i].op.StartPrint? {
      HeardIsSaid(run[i - 1]);
      forall j | 0 <= j < i ensures !run[j].op.StartPrint? {
        assert run[..i][j] == run[j];
      }
      forall j | i < j < |run| ensures !run[j].op.StartPrint? {
        AllowedAt(run, blocks, speed, j);
        assert run[..j][i].op.StartPrint?;
      }
    }
  }

  /** Nothing follows a failure of the link, and nothing but an acknowledged CHECK_DEVICE begins a run. */
  lemma RunsStopAtTheFirstFault(run: seq<Event>, blocks: seq<seq<Byte>>, speed: U16, i: nat)
    requires Safe(run, blocks, speed) && i < |run|
    ensures i < |run| - 1 ==> !run[i].reply.Fault?
    ensures run[0].op.CheckDevice? && (run[i].op.CheckDevice? <==> i == 0)
    ensures i == 1 ==> Present(run)
    decreases i
  {
    AllowedAt(run, blocks, speed, i);
    AllowedAt(run, blocks, speed, 0);
    if i < |run| - 1 {
      AllowedAt(run, blocks, speed, i + 1);
      assert run[..i + 1][i] == run[i];
    }
    if i == 1 { assert run[..1][0] == run[0]; }
  }

  lemma EngagedLater(run: seq<Event>, i: nat)
    requires 0 < i <= |run| && Engaged(run[..i - 1])
    ensures Engaged(run[..i])
  {
    assert run[..i - 1] + [run[i - 1]] == run[..i];
    EngagedGrows(run[..i - 1], [run[i - 1]]);
  }

  predicate IsTransfer(op: Op) {
    op.BulkHeader? || op.BulkData? || op.BufFull?
  }

  lemma TransfersFollow(run: seq<Event>, blocks: seq<seq<Byte>>, speed: U16, i: nat)
    requires Safe(run, blocks, speed) && i < |run| && IsTransfer(run[i].op)
    ensures run[i].op.BulkHeader? ==> Engaged(run[..i])
    ensures !run[i].op.BulkHeader? ==> i > 0 && IsTransfer(run[i - 1].op)
  {
    AllowedAt(run, blocks, speed, i);
    if i > 0 { assert run[..i][i - 1] == run[i - 1]; }
  }

  /** No transfer before the started printer has reported printing without error. */
  lemma {:induction false} TransfersOnlyWhenPrinting(run: seq<Event>, blocks: seq<seq<Byte>>, speed: U16, i: nat)
    requires Safe(run, blocks, speed) && i < |run| && IsTransfer(run[i].op)
    ensures exists s, p :: 0 <= s < p < i && run[s].op.StartPrint? && SaidPrinting(run[p])
    decreases i
  {
    TransfersOnlyEngaged(run, blocks, speed, i);
    var s, p :| 0 <= s < p < i && run[..i][s].op.StartPrint? && HeardPrinting(run[..i][p]);
    HeardIsSaid(run[p]);
    assert run[s].op.StartPrint? && SaidPrinting(run[p]);
  }

  lemma {:induction false} TransfersOnlyEngaged(run: seq<Event>, blocks: seq<seq<Byte>>, speed: U16, i: nat)
    requires Safe(run, blocks, speed) && i < |run| && IsTransfer(run[i].op)
    ensures Engaged(run[..i])
    decreases i
  {
    TransfersFollow(run, blocks, speed, i);
    if !run[i].op.BulkHeader? {
      TransfersOnlyEngaged(run, blocks, speed, i - 1);
      EngagedLater(run, i);
    }
  }

  /** Each bulk header directly follows a status with room and no error, and each block its own answered header. */
  lemma BlocksGoIntoRoom(run: seq<Event>, blocks: seq<seq<Byte>>, speed: U16, i: nat)
    requires Safe(run, blocks, speed) && i < |run|
    ensures run[i].op.BulkHeader? ==> i > 0 && SaidRoom(run[i - 1])
    ensures run[i].op.BulkData? ==>
              i > 1 && run[i - 1].op == HeaderFor(run[i].op.data) && run[i - 1].reply.Answer? && SaidRoom(run[i - 2])
  {
    AllowedAt(run, blocks, speed, i);
    if i > 0 { HeardIsSaid(run[i - 1]); }
    if run[i].op.BulkData? {
      assert run[..i][i - 1] == run[i - 1];
      AllowedAt(run, blocks, speed, i - 1);
      HeardIsSaid(run[i - 2]);
    }
  }

  /** Every BUF_FULL announces the one speed of the run. */
  lemma OneSpeed(run: seq<Event>, blocks: seq<seq<Byte>>, speed: U16)
    requires Safe(run, blocks, speed)
    ensures forall i :: 0 <= i < |run| && run[i].op.BufFull? ==> run[i].op.speed == speed
  {
    forall i | 0 <= i < |run| && run[i].op.BufFull? ensures run[i].op.speed == speed {
      AllowedAt(run, blocks, speed, i);
    }
  }

  /** The bytes of bulk data a run put on the wire. */
  function BytesOnWire(run: seq<Event>): nat {
    if |run| == 0 then 0 else
      BytesOnWire(run[..|run| - 1]) + (if run[|run| - 1].op.BulkData? then |run[|run| - 1].op.data| else 0)
  }

  /** They are the blocks sent, end to end. */
  lemma {:induction false} SentIsOnWire(run: seq<Event>)
    ensures |Flat(Sent(run))| == BytesOnWire(run)
    decreases |run|
  {
    if |run| > 0 {
      var n := |run| - 1;
      SentIsOnWire(run[..n]);
      FlatNext(Sent(run[..n]), if run[n].op.BulkData? then run[n].op.data else []);
      assert Sent(run[..n]) + [] == Sent(run[..n]);
    }
  }

  lemma SentInOrder(past: seq<Event>, op: Op, blocks: seq<seq<Byte>>, speed: U16)
    requires Sent(past) <= blocks && Allowed(past, op, blocks, speed)
    ensures Sent(past) + (if op.BulkData? then [op.data] else []) <= blocks
  {
    var sent := Sent(past);
    if op.BulkData? {
      assert op.data == blocks[|sent|];
      assert sent + [op.data] == blocks[..|sent| + 1];
    }
  }

  /** The blocks sent are an in-order prefix of the job's, none twice and none skipped. */
  lemma {:induction false} BlocksGoInOrder(run: seq<Event>, blocks: seq<seq<Byte>>, speed: U16)
    requires Safe(run, blocks, speed)
    ensures Sent(run) <= blocks
    decreases |run|
  {
    if |run| > 0 {
      var n := |run| - 1;
      var past, op := run[..n], run[n].op;
      BlocksGoInOrder(past, blocks, speed);
      SentInOrder(past, op, blocks, speed);
    }
  }

  // ---- What success means ----------------------------------------------------------------------

  /** Every block's data was followed by its BUF_FULL. */
  ghost predicate Acknowledged(run: seq<Event>) {
    forall i :: 0 <= i < |run| && run[i].op.BulkData? ==> i + 1 < |run| && run[i + 1].op.BufFull?
  }

  /** Every block went out as header, data, BUF_FULL, and the last word was error-free, idle and drained. */
  ghost predicate Completed(run: seq<Event>, blocks: seq<seq<Byte>>) {
    Sent(run) == blocks && Acknowledged(run) && run != [] && HeardDone(run[|run| - 1])
  }

  lemma {:induction false} DataEvent(run: seq<Event>, k: nat) returns (i: nat)
    requires k < |Sent(run)|
    ensures i < |run| && run[i].op == BulkData(Sent(run)[k])
    decreases |run|
  {
    var n := |run| - 1;
    if k < |Sent(run[..n])| {
      i := DataEvent(run[..n], k);
    } else {
      i := n;
    }
  }

  /** A block's data has its header and a status with room before it, and its BUF_FULL after it. */
  ghost predicate OnWire(run: seq<Event>, i: int, block: seq<Byte>, speed: U16) {
    && 2 <= i < |run| - 1 && SaidRoom(run[i - 2]) && run[i - 1].op == HeaderFor(block)
    && run[i].op == BulkData(block) && run[i + 1].op == BufFull(|block| % 65536, speed)
  }

  /** The last word of a completed run was clear, idle and drained. */
  lemma CompletedIsDrained(run: seq<Event>, blocks: seq<seq<Byte>>)
    requires Completed(run, blocks)
    ensures exists st :: Reported(run[|run| - 1], st) && Clear(st) && !st.deviceBusy && !st.printing && !st.bufFull
  {
    HeardIsSaid(run[|run| - 1]);
  }

  /** In a completed run every block is on the wire as header, data and BUF_FULL in a row, sent into a buffer with room. */
  lemma CompletedSendsEveryBlock(run: seq<Event>, blocks: seq<seq<Byte>>, speed: U16, k: nat)
    requires Safe(run, blocks, speed) && Completed(run, blocks) && k < |blocks|
    ensures exists i :: OnWire(run, i, blocks[k], speed)
  {
    var i := DataEvent(run, k);
    BlocksGoIntoRoom(run, blocks, speed, i);
    assert run[i + 1].op.BufFull?;
    AllowedAt(run, blocks, speed, i + 1);
    assert run[..i + 1][i] == run[i];
    assert OnWire(run, i, blocks[k], speed);
  }
}
