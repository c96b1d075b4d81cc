/**
 * recvfile of tftp/tftp.c and tftpd/tftpd.c: the loops themselves, over the two-buffer engine. Each
 * receiver is shown to send exactly what its state machine sends, and its file holds at every
 * blocking point exactly the bytes that machine has flushed, converted.
 */
module ReceiveLoops {
  import opened Common
  import opened Machines
  import opened Scripts
  import opened TftpSubs

  /** What recvfrom can return into a packet buffer of PKTSIZE bytes. */
  ghost predicate Receivable(events: seq<Event>) {
    forall e :: e in events && e.Arrival? && e.p.Data? ==> |e.p.payload| <= SEGSIZE
  }

  ghost predicate Receives(c: Config, setup: Setup) {
    c.seg == SEGSIZE && !c.kind.CppUpload? && SameClock(c, setup)
  }

  /** The timer handler and the test on a received block, common to both receivers. */
  method HearData(ghost c: Config, ghost r: Receiver, e: Event, block: U16, timeout: nat, setup: Setup)
    returns (o: Outcome)
    requires Receives(c, setup)
    requires r.pc.Waiting? && r.block == block && r.timeout == timeout && r.flushed == |r.accepted|
    ensures o == GoOn ==> e.Arrival? && e.p.Data? && e.p.block == block
    ensures var r' := r.(timeout := Timed(timeout, setup.rexmt, e));
            ReceiverOn(c, r, e) == match o
                                   case Resend => r'.(pc := ReceiverPc.Sending)
                                   case Ignore => r'
                                   case GoOn => Accept(c, r, e.p.payload)
                                   case GiveUp => r'.(pc := ReceiverPc.Failed)
  {
    match e
    case Timeout =>
      return if timeout + setup.rexmt >= setup.maxTimeout then GiveUp else Resend;
    case Arrival(p) =>
      if p.Error? {
        return GiveUp;
      }
      if p.Data? {
        if p.block == block {
          return GoOn;
        }
        if p.block == block - 1 {
          return Resend;
        }
      }
      return Ignore;
  }

  /** The innermost loop of both receivers: listen until the script ends (Ignore) or something has to be done. */
  method Listen(ghost c: Config, ghost start: Receiver, ghost before: Receiver, ghost sent: seq<Packet>,
                block: U16, timeout0: nat, setup: Setup, from: nat)
    returns (i: nat, timeout: nat, o: Outcome, payload: seq<byte>)
    requires Receives(c, setup) && Receivable(setup.events) && from <= |setup.events|
    requires before.pc.Waiting? && before.block == block && before.timeout == timeout0
    requires before.flushed == |before.accepted|
    requires ReceiverRun(c, start, setup.events[..from]) == (before, sent)
    ensures from <= i <= |setup.events| && (o == Ignore ==> i == |setup.events|) && (o != Ignore ==> from < i)
    ensures |payload| <= SEGSIZE
    ensures var r := before.(timeout := timeout);
            if o == Ignore then ReceiverRun(c, start, setup.events) == (r, sent)
            else ReceiverAfter(c, start, setup.events[..i]) == (match o
                                                          case Resend => r.(pc := ReceiverPc.Sending)
                                                          case GoOn => Accept(c, r, payload)
                                                          case GiveUp => r.(pc := ReceiverPc.Failed), sent)
  {
    i, timeout, o, payload := from, timeout0, Ignore, [];
    while i < |setup.events|
      invariant from <= i <= |setup.events| && o == Ignore && payload == []
      invariant ReceiverRun(c, start, setup.events[..i]) == (before.(timeout := timeout), sent)
    {
      ReceiverHears(c, start, setup.events, i);
      var e := setup.events[i];
      o := HearData(c, before.(timeout := timeout), e, block, timeout, setup);
      timeout := Timed(timeout, setup.rexmt, e);
      i := i + 1;
      if o != Ignore {
        if o == GoOn {
          payload := e.p.payload;
        }
        return;
      }
      ReceiverQuiet(c, start, setup.events[..i]);
    }
    assert setup.events[..i] == setup.events;
  }

  /** Where a loop stops that has neither got a block nor to send again. */
  function Stopped(o: Outcome): ReceiverPc {
    if o == GiveUp then ReceiverPc.Failed else ReceiverPc.Waiting
  }

  /** The receiver's state between blocks, as its two-buffer engine has it. */
  ghost function Holding(subs: Subs, pc: ReceiverPc, block: U16, timeout: nat, ack: Packet): Receiver
    reads subs
  {
    Receiver(pc, block, timeout, ack, subs.accepted, subs.flushed, false)
  }

  /** Where the receiver's machine, which was waiting as r, is when the loop has listened with this outcome. */
  ghost predicate Heard(
      c: Config, start: Receiver, r: Receiver, events: seq<Event>, i: nat, payload: seq<byte>, sent: seq<Packet>,
      o: Outcome)
    requires i <= |events|
  {
    match o
    case Resend => ReceiverAfter(c, start, events[..i]) == (r.(pc := ReceiverPc.Sending), sent)
    case GoOn => ReceiverAfter(c, start, events[..i]) == (Accept(c, r, payload), sent)
    case GiveUp => ReceiverRun(c, start, events) == (r.(pc := ReceiverPc.Failed), sent)
    case Ignore => ReceiverRun(c, start, events) == (r, sent)
  }

  /** One round of the inner loop: send the last packet, let write-behind run, and listen. */
  method Round(ghost c: Config, ghost start: Receiver, subs: Subs, file: OutFile, ack: Packet, block: U16,
               setup: Setup, from: nat, timeout0: nat, already: seq<Packet>)
    returns (i: nat, sent: seq<Packet>, o: Outcome, timeout: nat, payload: seq<byte>)
    requires Receives(c, setup) && Receivable(setup.events) && from <= |setup.events|
    requires subs.Writing(file, setup.convert)
    requires ReceiverAfter(c, start, setup.events[..from]) ==
             (Holding(subs, ReceiverPc.Sending, block, timeout0, ack), already)
    modifies subs, subs.bfs, file
    ensures subs.Writing(file, setup.convert) && subs.accepted == old(subs.accepted) && subs.flushed == |subs.accepted|
    ensures from <= i <= |setup.events| && (o == Resend || o == GoOn ==> from < i) && |payload| <= SEGSIZE
    ensures Heard(c, start, Holding(subs, ReceiverPc.Waiting, block, timeout, ack), setup.events, i, payload, sent, o)
  {
    SettleC(c, Holding(subs, ReceiverPc.Sending, block, timeout0, ack));
    sent := already + [ack];
    var ignored := subs.WriteBehind(file, setup.convert);
    i, timeout, o, payload := Listen(
      c, start, Holding(subs, ReceiverPc.Waiting, block, timeout0, ack), sent, block, timeout0, setup, from);
    if o == GiveUp {
      ReceiverStopped(c, start, setup.events, i);
    }
  }

  /** The inner loop of both receivers: until the next block has come (GoOn), all is given up, or the script ends. */
  method AwaitBlock(ghost c: Config, ghost start: Receiver, subs: Subs, file: OutFile, ack: Packet, block: U16,
                    setup: Setup, from: nat, already: seq<Packet>)
    returns (i: nat, sent: seq<Packet>, o: Outcome, timeout: nat, payload: seq<byte>)
    requires Receives(c, setup) && Receivable(setup.events) && from <= |setup.events|
    requires subs.Writing(file, setup.convert)
    requires ReceiverAfter(c, start, setup.events[..from]) ==
             (Holding(subs, ReceiverPc.Sending, block, 0, ack), already)
    modifies subs, subs.bfs, file
    ensures subs.Writing(file, setup.convert) && subs.accepted == old(subs.accepted) && subs.flushed == |subs.accepted|
    ensures from <= i <= |setup.events| && |payload| <= SEGSIZE && o != Resend && (o == GoOn ==> from < i)
    ensures Heard(c, start, Holding(subs, ReceiverPc.Waiting, block, timeout, ack), setup.events, i, payload, sent, o)
  {
    i, sent, o, timeout, payload := from, already, Resend, 0, [];
    while o == Resend
      invariant from <= i <= |setup.events| && (o == GoOn ==> from < i) && |payload| <= SEGSIZE
      invariant subs.Writing(file, setup.convert) && subs.accepted == old(subs.accepted)
      invariant o != Resend ==> subs.flushed == |subs.accepted|
      invariant Heard(
                  c, start, Holding(subs, ReceiverPc.Waiting, block, timeout, ack), setup.events, i, payload, sent, o)
      decreases |setup.events| - i, if o == Resend then 1 else 0
    {
      i, sent, o, timeout, payload := Round(c, start, subs, file, ack, block, setup, i, timeout, sent);
    }
  }

  /** recvfrom puts the payload in the buffer in use, and writeit queues it. */
  method Queue(subs: Subs, file: OutFile, convert: bool, payload: seq<byte>) returns (size: int)
    requires subs.Writing(file, convert) && subs.flushed == |subs.accepted| && |payload| <= SEGSIZE
    modifies subs.Repr(), file
    ensures subs.Writing(file, convert) && subs.current == 1 - old(subs.current)
    ensures subs.accepted == old(subs.accepted) + [payload] && subs.flushed == |old(subs.accepted)|
    ensures size == |payload|
  {
    var dp := subs.bfs[subs.current];
    forall k | 0 <= k < |payload| {
      dp.data[k] := payload[k];
    }
    assert dp.data[..|payload|] == payload;
    dp, size := subs.Writeit(file, |payload|, convert);
  }

  /** One trip of the loop of both receivers: acknowledge, and take the next block. */
  method TakeBlock(ghost c: Config, ghost start: Receiver, subs: Subs, file: OutFile, ack: Packet, block: U16,
                   setup: Setup, from: nat, already: seq<Packet>)
    returns (i: nat, sent: seq<Packet>, o: Outcome, size: int, ghost timeout: nat)
    requires Receives(c, setup) && Receivable(setup.events) && from <= |setup.events|
    requires subs.Writing(file, setup.convert)
    requires ReceiverAfter(c, start, setup.events[..from]) ==
             (Holding(subs, ReceiverPc.Sending, block, 0, ack), already)
    modifies subs.Repr(), file
    ensures subs.Writing(file, setup.convert)
    ensures from <= i <= |setup.events| && o != Resend
    ensures o != GoOn ==>
              && subs.flushed == |subs.accepted|
              && ReceiverRun(c, start, setup.events) == (Holding(subs, Stopped(o), block, timeout, ack), sent)
    ensures o == GoOn ==>
              && from < i && subs.current == 1 - old(subs.current)
              && size <= SEGSIZE
              && ReceiverAfter(c, start, setup.events[..i]) ==
                 (if size == SEGSIZE then Holding(subs, ReceiverPc.Sending, Succ16(block), 0, Ack(block))
                  else Holding(subs, if c.kind.ClientDownload? then ReceiverPc.FinalAck else ReceiverPc.FinalFlush,
                               block, timeout, Ack(block)), sent)
  {
    var payload, time;
    i, sent, o, time, payload :=
      AwaitBlock(c, start, subs, file, ack, block, setup, from, already);
    timeout := time;
    size := 0;
    if o == GoOn {
      size := Queue(subs, file, setup.convert, payload);
    }
  }

  /** The machine has stopped where the loop has, with everything it has accepted flushed. */
  ghost predicate StoppedAt(
      c: Config, start: Receiver, events: seq<Event>, sent: seq<Packet>, pc: ReceiverPc, subs: Subs)
    reads subs
  {
    var (r, out) := ReceiverRun(c, start, events);
    out == sent && r.pc == pc && r.accepted == subs.accepted && r.flushed == subs.flushed == |subs.accepted|
  }

  /**
   * What is known when a receiver returns: it has sent what its machine sent and stored what its machine has
   * flushed.
   */
  ghost predicate Matches(
      c: Config, start: Receiver, events: seq<Event>, sent: seq<Packet>, pc: ReceiverPc, file: OutFile, convert: bool)
    reads file
  {
    var (r, out) := ReceiverRun(c, start, events);
    && out == sent && r.pc == pc
    && r.flushed <= |r.accepted|
    && file.content == Stored(Written(r), convert)
  }

  /**
   * The loop of both receivers, up to the short block (GoOn) or the end of the script or of patience.
   * `stale` is the block number left in the header of the buffer in use, -1 if nothing has been received into it.
   */
  method TakeBlocks(ghost c: Config, ghost start: Receiver, subs: Subs, file: OutFile, ack0: Packet, setup: Setup)
    returns (i: nat, sent: seq<Packet>, o: Outcome, block: U16, stale: int, ghost timeout: nat)
    requires Receives(c, setup) && Receivable(setup.events)
    requires subs.Writing(file, setup.convert)
    requires start == Holding(subs, ReceiverPc.Sending, 1, 0, ack0)
    modifies subs.Repr(), file
    ensures subs.Writing(file, setup.convert) && i <= |setup.events| && o != Resend
    ensures o != GoOn ==>
              StoppedAt(c, start, setup.events, sent, Stopped(o), subs)
    ensures o == GoOn ==>
              && stale != block
              && ReceiverAfter(c, start, setup.events[..i]) ==
                 (Holding(subs, if c.kind.ClientDownload? then ReceiverPc.FinalAck else ReceiverPc.FinalFlush,
                          block, timeout, Ack(block)), sent)
  {
    var ack, other := ack0, -1;
    i, sent, o, block, stale, timeout := 0, [], Resend, 1, -1, 0;
    while o == Resend
      invariant subs.Writing(file, setup.convert) && i <= |setup.events|
      invariant o == Resend ==>
        && (other == -1 || (0 <= other < 0x1_0000 && Succ16(other) == block))
        && ReceiverAfter(c, start, setup.events[..i]) == (Holding(subs, ReceiverPc.Sending, block, 0, ack), sent)
      invariant o == GoOn ==>
        && stale != block
        && ReceiverAfter(c, start, setup.events[..i]) ==
           (Holding(subs, if c.kind.ClientDownload? then ReceiverPc.FinalAck else ReceiverPc.FinalFlush,
                    block, timeout, Ack(block)), sent)
      invariant o == GiveUp || o == Ignore ==>
        StoppedAt(c, start, setup.events, sent, Stopped(o), subs)
      decreases |setup.events| - i, o == Resend
    {
      var size;
      i, sent, o, size, timeout :=
        TakeBlock(c, start, subs, file, ack, block, setup, i, sent);
      if o == GoOn {
        stale, other := other, block;
        if size == SEGSIZE {
          ack := Ack(block);
          block := Succ16(block);
          o := Resend;
        }
      }
    }
  }

  /** w_init on a file that has just been created. */
  method StartWriting(file: OutFile, convert: bool) returns (subs: Subs)
    requires file.content == [] && file.pos == 0
    ensures subs.Writing(file, convert) && subs.accepted == [] && subs.flushed == 0
    ensures fresh(subs) && fresh(subs.Repr())
  {
    subs := new Subs(0);
  }

  /** tftpd/tftpd.c recvfile, started by a write request. */
  method ServerRecvfile(ghost c: Config, file: OutFile, setup: Setup)
    returns (sent: seq<Packet>, pc: ReceiverPc)
    requires file.content == [] && file.pos == 0
    requires Receives(c, setup) && c.kind.ServerUpload? && Receivable(setup.events)
    modifies file
    ensures Matches(c, ReceiverReceive(c, ReceiverInit(c), Request), setup.events, sent, pc, file, setup.convert)
  {
    ghost var start := ReceiverReceive(c, ReceiverInit(c), Request);
    var subs := StartWriting(file, setup.convert);
    var i, o, block, stale;
    ghost var timeout;
    i, sent, o, block, stale, timeout := TakeBlocks(c, start, subs, file, Ack(0), setup);
    if o != GoOn {
      return sent, Stopped(o);
    }
    SettleC(c, Holding(subs, ReceiverPc.FinalFlush, block, timeout, Ack(block)));
    var ignored := subs.WriteBehind(file, setup.convert);
    sent := sent + [Ack(block)];
    if i == |setup.events| {
      assert setup.events[..i] == setup.events;
      return sent, ReceiverPc.Dallying;
    }
    ReceiverHears(c, start, setup.events, i);
    if setup.events[i].Arrival? && stale == block {
      sent := sent + [Ack(block)];
    }
    ReceiverStopped(c, start, setup.events, i + 1);
    return sent, ReceiverPc.Finished;
  }

  /**
   * tftp/tftp.c recvfile: the read request stands in the acknowledgement buffer, and the last ACK precedes the
   * last flush.
   */
  method ClientRecvfile(ghost c: Config, file: OutFile, setup: Setup)
    returns (sent: seq<Packet>, pc: ReceiverPc)
    requires file.content == [] && file.pos == 0
    requires Receives(c, setup) && c.kind.ClientDownload? && Receivable(setup.events)
    modifies file
    ensures Matches(c, ReceiverInit(c), setup.events, sent, pc, file, setup.convert)
  {
    ghost var start := ReceiverInit(c);
    var subs := StartWriting(file, setup.convert);
    var i, o, block, stale;
    ghost var timeout;
    i, sent, o, block, stale, timeout := TakeBlocks(c, start, subs, file, Request, setup);
    if o == GoOn {
      SettleC(c, Holding(subs, ReceiverPc.FinalAck, block, timeout, Ack(block)));
      sent := sent + [Ack(block)];
      ReceiverDone(c, start, setup.events, i);
    }
    if o == Ignore {
      return sent, ReceiverPc.Waiting;
    }
    var ignored := subs.WriteBehind(file, setup.convert);
    pc := if o == GoOn then ReceiverPc.Finished else ReceiverPc.Failed;
  }
}
