/** The print state machine, driven against a device that may answer anything to any operation. */
module Printing {
  import opened Wrappers
  import opened Bytes
  import opened Buffers
  import opened Framing
  import opened Protocol

  const READY_ATTEMPTS := 60
  const PRINTING_ATTEMPTS := 60
  const BUFFER_READY_ATTEMPTS := 200
  const COMPLETION_POLLS := 300
  const MULTI_BLOCK_SPEED: U16 := 20

  datatype Error = Io | InvalidResponse(what: string) | Timeout

  /** The outcome of a bounded wait: polls only, stopping at the first that settles it. */
  ghost predicate Waited(tail: seq<Event>, max: nat, r: Result<Option<Status>, Error>, settles: Event -> bool, fails: Event -> bool) {
    && AllPolls(tail) && |tail| <= max
    && (forall i :: 0 <= i < |tail| - 1 ==> !settles(tail[i]) && !fails(tail[i]) && !tail[i].reply.Fault?)
    && (r.Err? ==> tail != [])
    && (r.Err? ==> if r.error.Io? then tail[|tail| - 1].reply.Fault? else r.error.InvalidResponse? && fails(tail[|tail| - 1]))
    && (r.Ok? && r.value.Some? ==>
          tail != [] && settles(tail[|tail| - 1]) && !fails(tail[|tail| - 1]) && Heard(tail[|tail| - 1]) == r.value)
    && (r == Ok(None) ==>
          |tail| == max && (max > 0 ==> !settles(tail[max - 1]) && !fails(tail[max - 1]) && !tail[max - 1].reply.Fault?))
  }

  /** The operations of one block transfer, as far as it got. */
  ghost predicate TransferTail(tail: seq<Event>, block: seq<Byte>, speed: U16, ok: bool) {
    && 1 <= |tail| <= 3 && tail[0].op == HeaderFor(block)
    && (|tail| > 1 ==> tail[0].reply.Answer? && tail[1].op == BulkData(block))
    && (|tail| > 2 ==> !tail[1].reply.Fault? && tail[2].op == BufFull(|block| % 65536, speed))
    && (ok <==> |tail| == 3 && !tail[2].reply.Fault?)
    && (!ok && !tail[|tail| - 1].reply.Fault? ==> |tail| == 1 && tail[0].reply.Silent?)
  }

  /** The last `n` operations were polls that got through, and none heard what `settles` asks for. */
  ghost predicate Starved(run: seq<Event>, n: nat, settles: Event -> bool) {
    && n <= |run|
    && forall i :: |run| - n <= i < |run| ==> run[i].op.InquirySta? && !run[i].reply.Fault? && !settles(run[i])
  }

  /** The completion polls ran out, and one more poll got through. */
  ghost predicate Overrun(run: seq<Event>) {
    && run != [] && !Faulted(run) && run[|run| - 1].op.InquirySta?
    && Starved(run[..|run| - 1], 300, HeardDone)
  }

  /** They ran out and the printer's buffer was still full then. */
  ghost predicate Stuck(run: seq<Event>) {
    Overrun(run) && Heard(run[|run| - 1]).Some? && Heard(run[|run| - 1]).value.bufFull
  }

  /** What the printer did, or failed to do, that ends a run whose link held up. */
  ghost predicate Refused(run: seq<Event>, blocks: seq<seq<Byte>>) {
    && run != [] && !Faulted(run)
    && var e := run[|run| - 1];
       || (e.op.CheckDevice? && !(e.reply.Answer? && e.reply.acks))
       || HeardError(e)
       || (e.op.BulkHeader? && e.reply.Silent?)
       || (!Started(run) && Starved(run, 60, HeardIdle))
       || (Started(run) && !Engaged(run) && Starved(run, 60, HeardPrinting))
       || (Engaged(run) && |Sent(run)| < |blocks| && Starved(run, 200, HeardRoom))
       || (Sent(run) == blocks && Stuck(run))
  }

  /** Why a run failed: the link, the printer, or a page that was all sent but did not come out in time. */
  ghost predicate Failed(cause: Error, run: seq<Event>, blocks: seq<seq<Byte>>) {
    match cause
    case Io => Faulted(run)
    case InvalidResponse(_) => Refused(run, blocks)
    case Timeout => Sent(run) == blocks && Acknowledged(run) && Overrun(run) && !Stuck(run)
  }

  /** Nothing has been started or sent yet. */
  ghost predicate Quiet(run: seq<Event>, blocks: seq<seq<Byte>>, speed: U16) {
    Safe(run, blocks, speed) && Sent(run) == [] && !Started(run)
  }

  lemma CheckIsSafe(e: Event, blocks: seq<seq<Byte>>, speed: U16)
    requires e.op.CheckDevice?
    ensures Quiet([e], blocks, speed)
  {
    SafeNext([], e, blocks, speed);
    SentNext([], e);
    assert [] + [e] == [e];
  }

  lemma StartIsSafe(past: seq<Event>, start: Event, blocks: seq<seq<Byte>>, speed: U16)
    requires Safe(past, blocks, speed) && Allowed(past, StartPrint, blocks, speed) && start.op.StartPrint?
    ensures Safe(past + [start], blocks, speed) && Sent(past + [start]) == Sent(past)
  {
    SafeNext(past, start, blocks, speed);
    SentNext(past, start);
  }

  lemma Append<T>(a: seq<T>, b: seq<T>, i: nat)
    requires i < |b|
    ensures a + b[..i] + [b[i]] == a + b[..i + 1]
    ensures i + 1 == |b| ==> a + b[..i] + [b[i]] == a + b
  {
    assert b[..i] + [b[i]] == b[..i + 1];
    if i + 1 == |b| { assert b[..i + 1] == b; }
  }

  lemma AfterData(run: seq<Event>, tail: seq<Event>, block: seq<Byte>, blocks: seq<seq<Byte>>, speed: U16, ok: bool)
    requires TransferTail(tail, block, speed, ok) && |tail| == 3 && Safe(run + tail[..2], blocks, speed)
    ensures Safe(run + tail, blocks, speed) && Sent(run + tail) == Sent(run + tail[..2])
  {
    FullIsSafe(run + tail[..2], tail[2], blocks, speed);
    Append(run, tail, 2);
  }

  lemma AfterHeader(run: seq<Event>, tail: seq<Event>, blocks: seq<seq<Byte>>, speed: U16, k: nat, ok: bool)
    requires k < |blocks| && TransferTail(tail, blocks[k], speed, ok) && |tail| > 1
    requires Safe(run + tail[..1], blocks, speed) && |Sent(run + tail[..1])| == k
    ensures Safe(run + tail[..2], blocks, speed) && Sent(run + tail[..2]) == Sent(run + tail[..1]) + [blocks[k]]
  {
    DataIsSafe(run + tail[..1], tail[1], blocks, speed, k);
    Append(run, tail, 1);
  }

  /** A transfer of the next block keeps the run safe, however far it got. */
  lemma TransferIsSafe(run: seq<Event>, tail: seq<Event>, blocks: seq<seq<Byte>>, speed: U16, k: nat, ok: bool)
    requires Safe(run, blocks, speed) && MaySend(run, blocks, k) && TransferTail(tail, blocks[k], speed, ok)
    ensures Safe(run + tail, blocks, speed)
    ensures ok ==> Sent(run + tail) == Sent(run) + [blocks[k]]
  {
    HeaderIsSafe(run, tail[0], blocks, speed, k);
    assert tail[..1] == [tail[0]];
    if |tail| > 1 {
      AfterHeader(run, tail, blocks, speed, k, ok);
      if |tail| > 2 { AfterData(run, tail, blocks[k], blocks, speed, ok); }
    }
    assert tail[..|tail|] == tail;
  }

  lemma StationEngages(started: seq<Event>, polls: seq<Event>)
    requires started != [] && started[|started| - 1].op.StartPrint?
    requires polls != [] && HeardPrinting(polls[|polls| - 1])
    ensures Engaged(started + polls)
  {
    var run := started + polls;
    assert run[|started| - 1].op.StartPrint? && run[|run| - 1] == polls[|polls| - 1];
  }

  lemma NotYetEngaged(past: seq<Event>, start: Event, polls: seq<Event>)
    requires !Started(past) && start.op.StartPrint?
    requires forall i :: 0 <= i < |polls| ==> !HeardPrinting(polls[i])
    ensures !Engaged(past + [start] + polls)
  {
    var run := past + [start] + polls;
    forall s | 0 <= s < |past| ensures !run[s].op.StartPrint? {
      assert run[s] == past[s];
    }
  }

  /** The first `i` blocks are out, each acknowledged, and the printer is still engaged. */
  ghost predicate Sending(run: seq<Event>, blocks: seq<seq<Byte>>, speed: U16, i: nat) {
    && i <= |blocks| && Safe(run, blocks, speed) && Present(run) && Engaged(run)
    && Sent(run) == blocks[..i] && Acknowledged(run)
  }

  /** Before completion a link failure is reported just when the run ended in one, and nothing else is without cause. */
  ghost predicate Told(r: Result<(), Error>, run: seq<Event>, blocks: seq<seq<Byte>>) {
    (r.Err? ==> !r.error.Timeout? && Failed(r.error, run, blocks)) && (Faulted(run) ==> r == Err(Io))
  }

  lemma PollsStarve(run: seq<Event>, polls: seq<Event>, max: nat, settles: Event -> bool, fails: Event -> bool)
    requires Waited(polls, max, Ok(None), settles, fails)
    ensures Starved(run + polls, max, settles)
  {
    var all := run + polls;
    forall i | |all| - max <= i < |all| ensures all[i].op.InquirySta? && !all[i].reply.Fault? && !settles(all[i]) {
      assert all[i] == polls[i - |run|];
    }
  }

  lemma AcknowledgedGrows(run: seq<Event>, polls: seq<Event>)
    requires Acknowledged(run) && AllPolls(polls)
    ensures Acknowledged(run + polls)
  {
  }

  lemma PollsKeepSending(run: seq<Event>, polls: seq<Event>, blocks: seq<seq<Byte>>, speed: U16, i: nat)
    requires Sending(run, blocks, speed, i) && !Faulted(run) && AllPolls(polls)
    ensures Sending(run + polls, blocks, speed, i) && (Faulted(run + polls) <==> Faulted(polls))
  {
    PollsAreSafe(run, polls, blocks, speed);
    EngagedGrows(run, polls);
    AcknowledgedGrows(run, polls);
  }

  lemma BlockAcknowledged(run: seq<Event>, transfer: seq<Event>, block: seq<Byte>, speed: U16)
    requires Acknowledged(run) && TransferTail(transfer, block, speed, true)
    ensures Acknowledged(run + transfer)
  {
    var all := run + transfer;
    forall i | 0 <= i < |all| && all[i].op.BulkData? ensures i + 1 < |all| && all[i + 1].op.BufFull? {
      if i >= |run| { assert all[i] == transfer[i - |run|]; }
    }
  }

  lemma {:induction false} NothingSent(run: seq<Event>)
    requires Sent(run) == []
    ensures forall i :: 0 <= i < |run| ==> !run[i].op.BulkData?
    decreases |run|
  {
    if |run| > 0 {
      NothingSent(run[..|run| - 1]);
      forall i | 0 <= i < |run| ensures !run[i].op.BulkData? {
        if i < |run| - 1 { assert run[i] == run[..|run| - 1][i]; }
      }
    }
  }

  lemma LaterPolls(run: seq<Event>, tail: seq<Event>)
    ensures Overrun(tail) ==> (Stuck(run + tail) <==> Stuck(tail))
    ensures Overrun(tail) ==> Overrun(run + tail)
  {
    if Overrun(tail) {
      var all := run + tail;
      var most := all[..|all| - 1];
      forall i | |most| - COMPLETION_POLLS <= i < |most|
        ensures most[i].op.InquirySta? && !most[i].reply.Fault? && !HeardDone(most[i])
      {
        assert most[i] == tail[..|tail| - 1][i - |run|];
      }
    }
  }

  class Printer {
    /** What the device answers to its n-th operation; nothing is known about it. */
    const replies: nat -> Reply
    /** Everything that went over the wire. */
    var log: seq<Event>
    /** The operations of the print run in progress, and what the log held before it. */
    ghost var run: seq<Event>
    ghost var base: seq<Event>

    ghost predicate Valid()
      reads this
    {
      log == base + run
    }

    constructor (replies: nat -> Reply)
      ensures Valid() && this.replies == replies && log == []
    {
      this.replies := replies;
      log, run, base := [], [], [];
    }

    /** One operation and whatever comes of it. */
    method Send(op: Op) returns (reply: Reply)
      requires Valid()
      modifies this
      ensures Valid() && base == old(base)
      ensures run == old(run) + [Event(op, reply)] && reply == replies(|old(log)|)
    {
      reply := replies(|log|);
      log := log + [Event(op, reply)];
      run := run + [Event(op, reply)];
    }

    method CheckDevice() returns (r: Result<bool, Error>, ghost e: Event)
      requires Valid()
      modifies this
      ensures Valid() && base == old(base)
      ensures run == old(run) + [e] && e.op.CheckDevice?
      ensures (r.Err? <==> e.reply.Fault?) && (r.Err? ==> r.error == Io)
      ensures r.Ok? ==> (r.value <==> e.reply.Answer? && e.reply.acks)
    {
      var reply := Send(Op.CheckDevice);
      e := Event(Op.CheckDevice, reply);
      if reply.Fault? {
        return Err(Io), e;
      }
      return Ok(reply.Answer? && reply.acks), e;
    }

    method QueryStatus() returns (r: Result<Option<Status>, Error>, ghost e: Event)
      requires Valid()
      modifies this
      ensures Valid() && base == old(base)
      ensures run == old(run) + [e] && e.op.InquirySta?
      ensures (r.Err? <==> e.reply.Fault?) && (r.Err? ==> r.error == Io) && (r.Ok? ==> r.value == Heard(e))
    {
      var reply := Send(InquirySta);
      e := Event(InquirySta, reply);
      if reply.Fault? {
        return Err(Io), e;
      }
      return Ok(if reply.Answer? then reply.status else None), e;
    }

    method WaitReady(max: nat) returns (r: Result<Option<Status>, Error>, ghost tail: seq<Event>)
      requires Valid()
      modifies this
      ensures Valid() && base == old(base)
      ensures run == old(run) + tail && Waited(tail, max, r, HeardIdle, e => false)
    {
      tail := [];
      for i := 0 to max
        invariant Valid() && base == old(base)
        invariant run == old(run) + tail && |tail| == i && Waited(tail, i, Ok(None), HeardIdle, e => false)
      {
        var st, e := QueryStatus();
        tail := tail + [e];
        if st.Err? || (st.value.Some? && !st.value.value.deviceBusy && !st.value.value.printing) {
          return st, tail;
        }
      }
      return Ok(None), tail;
    }

    method WaitPrinting(max: nat) returns (r: Result<Option<Status>, Error>, ghost tail: seq<Event>)
      requires Valid()
      modifies this
      ensures Valid() && base == old(base)
      ensures run == old(run) + tail && Waited(tail, max, r, HeardPrinting, HeardError)
    {
      tail := [];
      for i := 0 to max
        invariant Valid() && base == old(base)
        invariant run == old(run) + tail && |tail| == i && Waited(tail, i, Ok(None), HeardPrinting, HeardError)
      {
        var st, e := QueryStatus();
        tail := tail + [e];
        if st.Err? {
          return st, tail;
        }
        if st.value.Some? {
          if st.value.value.HasError() {
            return Err(InvalidResponse("printer error after START_PRINT")), tail;
          }
          if st.value.value.printing {
            return st, tail;
          }
        }
      }
      return Ok(None), tail;
    }

    method WaitBufferReady(max: nat) returns (r: Result<Option<Status>, Error>, ghost tail: seq<Event>)
      requires Valid()
      modifies this
      ensures Valid() && base == old(base)
      ensures run == old(run) + tail && Waited(tail, max, r, HeardRoom, HeardError)
    {
      tail := [];
      for i := 0 to max
        invariant Valid() && base == old(base)
        invariant run == old(run) + tail && |tail| == i && Waited(tail, i, Ok(None), HeardRoom, HeardError)
      {
        var st, e := QueryStatus();
        tail := tail + [e];
        if st.Err? {
          return st, tail;
        }
        if st.value.Some? {
          if st.value.value.HasError() {
            return Err(InvalidResponse("printer error while waiting for buffer")), tail;
          }
          if !st.value.value.bufFull {
            return st, tail;
          }
        }
      }
      return Ok(None), tail;
    }

    /** NEXT_ZIPPEDBULK, the data, BUF_FULL. Any answer to the header will do; the one to BUF_FULL is not looked at. */
    method TransferCompressed(block: seq<Byte>, speed: U16) returns (r: Result<(), Error>, ghost tail: seq<Event>)
      requires Valid()
      modifies this
      ensures Valid() && base == old(base)
      ensures run == old(run) + tail && TransferTail(tail, block, speed, r.Ok?)
      ensures r.Err? ==> r.error == if tail[|tail| - 1].reply.Fault? then Io else InvalidResponse("no response to NEXT_ZIPPEDBULK")
    {
      var packets := CeilDiv(|block|, DATA_PAYLOAD_SIZE);
      var resp := Send(BulkHeader(|block| % 65536, packets));
      tail := [Event(HeaderFor(block), resp)];
      if resp.Fault? {
        return Err(Io), tail;
      }
      if resp.Silent? {
        return Err(InvalidResponse("no response to NEXT_ZIPPEDBULK")), tail;
      }
      resp := Send(BulkData(block));
      tail := tail + [Event(BulkData(block), resp)];
      if resp.Fault? {
        return Err(Io), tail;
      }
      resp := Send(BufFull(|block| % 65536, speed));
      tail := tail + [Event(BufFull(|block| % 65536, speed), resp)];
      if resp.Fault? {
        return Err(Io), tail;
      }
      return Ok(()), tail;
    }

    /** Step 2: wait until the printer, which has answered, is idle and without an error. */
    method AwaitIdle(ghost blocks: seq<seq<Byte>>, ghost speed: U16) returns (r: Result<(), Error>)
      requires Valid() && Quiet(run, blocks, speed) && Present(run) && !Faulted(run)
      modifies this
      ensures Valid() && base == old(base) && |run| <= |old(run)| + READY_ATTEMPTS && Told(r, run, blocks)
      ensures Quiet(run, blocks, speed)
      ensures r.Ok? ==> Allowed(run, StartPrint, blocks, speed)
    {
      ghost var past, polls := run, [];
      var status;
      status, polls := WaitReady(READY_ATTEMPTS);
      PollsAreSafe(past, polls, blocks, speed);
      if status.Err? {
        return Err(status.error);
      }
      if status.value.None? {
        PollsStarve(past, polls, READY_ATTEMPTS, HeardIdle, e => false);
        return Err(InvalidResponse("timeout waiting for device ready"));
      }
      if status.value.value.HasError() {
        return Err(InvalidResponse("printer error"));
      }
      assert run[|run| - 1] == polls[|polls| - 1];
      return Ok(());
    }

    /** Steps 1 and 2. */
    method Prepare(ghost blocks: seq<seq<Byte>>, ghost speed: U16) returns (r: Result<(), Error>)
      requires Valid() && run == []
      modifies this
      ensures Valid() && base == old(base) && |run| <= 1 + READY_ATTEMPTS && Told(r, run, blocks)
      ensures Quiet(run, blocks, speed)
      ensures r.Ok? ==> Allowed(run, StartPrint, blocks, speed)
    {
      var present, e := CheckDevice();
      CheckIsSafe(e, blocks, speed);
      assert run == [e];
      if present.Err? {
        return Err(present.error);
      }
      if !present.value {
        return Err(InvalidResponse("CHECK_DEVICE failed"));
      }
      r := AwaitIdle(blocks, speed);
    }

    /** Steps 3 and 4: start the printer, which was idle, and wait for its printing station. */
    method StartAndWait(ghost blocks: seq<seq<Byte>>, ghost speed: U16) returns (r: Result<(), Error>)
      requires Valid() && Quiet(run, blocks, speed) && Allowed(run, StartPrint, blocks, speed)
      modifies this
      ensures Valid() && base == old(base) && |run| <= |old(run)| + 1 + PRINTING_ATTEMPTS && Told(r, run, blocks)
      ensures Safe(run, blocks, speed) && Sent(run) == []
      ensures r.Ok? ==> Sending(run, blocks, speed, 0)
    {
      ghost var past := run;
      var reply := Send(StartPrint);
      StartIsSafe(past, Event(StartPrint, reply), blocks, speed);
      ghost var started := run;
      if reply.Fault? {
        return Err(Io);
      }
      var status;
      ghost var polls;
      status, polls := WaitPrinting(PRINTING_ATTEMPTS);
      PollsAreSafe(started, polls, blocks, speed);
      if status.Err? {
        return Err(status.error);
      }
      if status.value.None? {
        PollsStarve(started, polls, PRINTING_ATTEMPTS, HeardPrinting, HeardError);
        NotYetEngaged(past, Event(StartPrint, reply), polls);
        return Err(InvalidResponse("timeout waiting for printing station"));
      }
      StationEngages(started, polls);
      NothingSent(run);
      return Ok(());
    }

    /** Step 5, before a block: wait for room. */
    method WaitRoom(ghost blocks: seq<seq<Byte>>, ghost i: nat, ghost speed: U16) returns (r: Result<(), Error>)
      requires Valid() && i < |blocks| && Sending(run, blocks, speed, i) && !Faulted(run)
      modifies this
      ensures Valid() && base == old(base) && |run| <= |old(run)| + BUFFER_READY_ATTEMPTS && Told(r, run, blocks)
      ensures Sending(run, blocks, speed, i)
      ensures r.Ok? ==> MaySend(run, blocks, i)
    {
      var status;
      ghost var past, polls := run, [];
      status, polls := WaitBufferReady(BUFFER_READY_ATTEMPTS);
      PollsKeepSending(past, polls, blocks, speed, i);
      if status.Err? {
        return Err(status.error);
      }
      if status.value.None? {
        PollsStarve(past, polls, BUFFER_READY_ATTEMPTS, HeardRoom, HeardError);
        return Err(InvalidResponse("timeout waiting for buffer space"));
      }
      // The source tests the error flags again here and would stop the print, but the wait has
      // already returned an error in that case.
      assert !status.value.value.HasError();
      assert run[|run| - 1] == polls[|polls| - 1];
      return Ok(());
    }

    /** Step 5, the block itself. */
    method TransferBlock(blocks: seq<seq<Byte>>, i: nat, speed: U16) returns (r: Result<(), Error>)
      requires Valid() && i < |blocks| && Sending(run, blocks, speed, i) && MaySend(run, blocks, i) && !Faulted(run)
      modifies this
      ensures Valid() && base == old(base) && |run| <= |old(run)| + 3 && Told(r, run, blocks)
      ensures Safe(run, blocks, speed)
      ensures r.Ok? ==> Sending(run, blocks, speed, i + 1)
    {
      ghost var past, tail := run, [];
      r, tail := TransferCompressed(blocks[i], speed);
      TransferIsSafe(past, tail, blocks, speed, i, r.Ok?);
      if r.Ok? {
        EngagedGrows(past, tail);
        BlockAcknowledged(past, tail, blocks[i], speed);
        assert blocks[..i] + [blocks[i]] == blocks[..i + 1];
      }
    }

    /** Step 5 for one block: wait for room, transfer, read the registers once more to log them. */
    method SendBlock(blocks: seq<seq<Byte>>, i: nat, speed: U16) returns (r: Result<(), Error>)
      requires Valid() && i < |blocks| && Sending(run, blocks, speed, i) && !Faulted(run)
      modifies this
      ensures Valid() && base == old(base) && |run| <= |old(run)| + BUFFER_READY_ATTEMPTS + 4 && Told(r, run, blocks)
      ensures Safe(run, blocks, speed)
      ensures r.Ok? ==> Sending(run, blocks, speed, i + 1)
    {
      r := WaitRoom(blocks, i, speed);
      if r.Err? {
        return;
      }
      r := TransferBlock(blocks, i, speed);
      if r.Err? {
        return;
      }
      ghost var past := run;
      var after, e := QueryStatus();
      PollsKeepSending(past, [e], blocks, speed, i + 1);
      return if after.Err? then Err(after.error) else Ok(());
    }

    /** Step 5: one block after the other. */
    method SendBlocks(blocks: seq<seq<Byte>>, speed: U16) returns (r: Result<(), Error>)
      requires Valid() && Sending(run, blocks, speed, 0) && !Faulted(run)
      modifies this
      ensures Valid() && base == old(base) && |run| <= |old(run)| + |blocks| * (BUFFER_READY_ATTEMPTS + 4) && Told(r, run, blocks)
      ensures Safe(run, blocks, speed)
      ensures r.Ok? ==> Sending(run, blocks, speed, |blocks|)
    {
      for i := 0 to |blocks|
        invariant Valid() && base == old(base) && |run| <= |old(run)| + i * (BUFFER_READY_ATTEMPTS + 4)
        invariant Sending(run, blocks, speed, i) && !Faulted(run)
      {
        r := SendBlock(blocks, i, speed);
        if r.Err? {
          return;
        }
      }
      r := Ok(());
    }

    /** Step 6: poll until the page is out. */
    method AwaitCompletion() returns (r: Result<(), Error>, ghost tail: seq<Event>)
      requires Valid()
      modifies this
      ensures Valid() && base == old(base)
      ensures run == old(run) + tail && AllPolls(tail) && 0 < |tail| <= COMPLETION_POLLS + 1
      ensures r.Ok? ==> HeardDone(tail[|tail| - 1])
      ensures r.Err? ==> match r.error
                case Io => Faulted(tail)
                case Timeout => Overrun(tail) && !Stuck(tail)
                case InvalidResponse(_) => HeardError(tail[|tail| - 1]) || Stuck(tail)
    {
      tail := [];
      for i := 0 to COMPLETION_POLLS
        invariant Valid() && base == old(base)
        invariant run == old(run) + tail && |tail| == i && AllPolls(tail) && Starved(tail, i, HeardDone)
      {
        var st, e := QueryStatus();
        tail := tail + [e];
        if st.Err? {
          return Err(st.error), tail;
        }
        if st.value.Some? {
          var s := st.value.value;
          if s.HasError() {
            return Err(InvalidResponse("printer error while printing")), tail;
          }
          if !s.printing && !s.deviceBusy && !s.bufFull {
            return Ok(()), tail;
          }
        }
      }
      var st, e := QueryStatus();
      tail := tail + [e];
      if st.Err? {
        return Err(st.error), tail;
      }
      if st.value.Some? && st.value.value.bufFull {
        return Err(InvalidResponse("printer buffer still full after the print budget")), tail;
      }
      return Err(Timeout), tail;
    }

    /** Steps 1 to 6, at a given speed. */
    method PrintAt(blocks: seq<seq<Byte>>, speed: U16) returns (r: Result<(), Error>)
      requires Valid()
      modifies this
      ensures Valid() && base == old(log) && log == old(log) + run
      ensures Safe(run, blocks, speed)
      ensures |run| <= 423 + 204 * |blocks|
      ensures r.Ok? ==> Completed(run, blocks)
      ensures r.Err? ==> Failed(r.error, run, blocks)
      ensures Faulted(run) ==> r == Err(Io)
    {
      base, run := log, [];
      r := Prepare(blocks, speed);
      if r.Err? {
        return;
      }
      r := StartAndWait(blocks, speed);
      if r.Err? {
        return;
      }
      r := SendBlocks(blocks, speed);
      if r.Err? {
        return;
      }
      ghost var past, tail := run, [];
      r, tail := AwaitCompletion();
      PollsKeepSending(past, tail, blocks, speed, |blocks|);
      LaterPolls(past, tail);
      assert run[|run| - 1] == tail[|tail| - 1];
      assert blocks[..|blocks|] == blocks;
    }

    /**
     Print pre-compressed blocks. Whatever the device answers, every operation is one the protocol
     allows at that point, and there are at most 423 of them plus 204 per block. Every BUF_FULL announces
     the given speed, or 20 when there are several blocks. Success means every block went out complete
     and the printer's last word was error-free, idle and drained.
     */
    method PrintCompressed(blocks: seq<seq<Byte>>, speed: U16) returns (r: Result<(), Error>)
      requires Valid()
      modifies this
      ensures Valid() && base == old(log) && log == old(log) + run
      ensures Safe(run, blocks, if |blocks| >= 2 then 20 else speed)
      ensures forall i :: 0 <= i < |run| && run[i].op.BufFull? ==> run[i].op.speed == if |blocks| >= 2 then 20 else speed
      ensures |run| <= 423 + 204 * |blocks|
      ensures r.Ok? ==> Completed(run, blocks)
      ensures r.Err? ==> Failed(r.error, run, blocks)
      ensures Faulted(run) ==> r == Err(Io)
    {
      var pageSpeed := if |blocks| > 1 then MULTI_BLOCK_SPEED else speed;
      r := PrintAt(blocks, pageSpeed);
      OneSpeed(run, blocks, pageSpeed);
    }
  }
}
