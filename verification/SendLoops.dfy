/**
 * sendfile of tftp/tftp.c and tftpd/tftpd.c: the loops themselves, over the two-buffer engine. What
 * the blocking receive returns is given as a script; each sender is shown to send exactly what its
 * state machine sends, from a buffer that read-ahead could have refilled in between.
 */
module SendLoops {
  import opened Common
  import opened Machines
  import opened Scripts
  import opened TftpSubs

  /** What the state machine and the loop have to agree on. */
  ghost predicate SendsFor(c: Config, setup: Setup) {
    c.Valid() && SameClock(c, setup) && c.debug == setup.debug && !c.options
  }

  /** c describes a transfer of this stream in SEGSIZE blocks with these settings. */
  ghost predicate Describes(c: Config, stream: seq<byte>, setup: Setup) {
    && SendsFor(c, setup) && c.seg == SEGSIZE
    && forall n :: 1 <= n <= |c.blocks| ==> Chunk(stream, n) == c.blocks[n - 1]
  }

  /** The blocks that read-ahead delivers are those of the cut that the protocol is about. */
  lemma {:induction false} CutDescribes(c: Config, stream: seq<byte>, setup: Setup)
    requires SendsFor(c, setup) && c.seg == SEGSIZE && c.blocks == Cut(stream, SEGSIZE)
    ensures Describes(c, stream, setup)
  {
  }

  /** The timer handler and the test on a received acknowledgement, common to both senders. */
  method HearAck(ghost c: Config, ghost s: Sender, e: Event, block: U16, timeout: nat, setup: Setup)
    returns (o: Outcome)
    requires s.pc.Waiting? && s.block == block && s.timeout == timeout && s.count <= |c.blocks|
    requires SendsFor(c, setup)
    ensures var s' := s.(timeout := Timed(timeout, setup.rexmt, e));
            SenderOn(c, s, e) == match o
                                 case Resend => s'.(pc := SenderPc.Sending)
                                 case Ignore => s'
                                 case GoOn => Acked(c, s)
                                 case GiveUp => s'.(pc := SenderPc.Failed)
  {
    match e
    case Timeout =>
      return if timeout + setup.rexmt >= setup.maxTimeout then GiveUp else Resend;
    case Arrival(p) =>
      if p.Error? {
        return GiveUp;
      }
      if p.Ack? {
        if p.block == block {
          return GoOn;
        }
        if p.block == block - 1 {
          return Resend;
        }
      }
      return Ignore;
  }

  /** The innermost loop of both senders: listen until the script ends (Ignore) or something has to be done. */
  method Listen(ghost c: Config, ghost start: Sender, ghost before: Sender, ghost sent: seq<Packet>,
                block: U16, timeout0: nat, setup: Setup, from: nat)
    returns (i: nat, timeout: nat, o: Outcome)
    requires SendsFor(c, setup)
    requires SenderReady(c, start) && before.pc.Waiting? && before.block == block && before.timeout == timeout0
    requires before.count <= |c.blocks| && from <= |setup.events|
    requires SenderRun(c, start, setup.events[..from]) == (before, sent)
    ensures from <= i <= |setup.events| && (o == Ignore ==> i == |setup.events|) && (o != Ignore ==> from < i)
    ensures var s := before.(timeout := timeout);
            if o == Ignore then SenderRun(c, start, setup.events) == (s, sent)
            else SenderAfter(c, start, setup.events[..i]) == (match o
                                                              case Resend => s.(pc := SenderPc.Sending)
                                                              case GoOn => Acked(c, s)
                                                              case GiveUp => s.(pc := SenderPc.Failed), sent)
  {
    var events := setup.events;
    i, timeout, o := from, timeout0, Ignore;
    while i < |events|
      invariant from <= i <= |events| && o == Ignore
      invariant SenderRun(c, start, events[..i]) == (before.(timeout := timeout), sent)
    {
      SenderHears(c, start, events, i);
      var e := events[i];
      o := HearAck(c, before.(timeout := timeout), e, block, timeout, setup);
      timeout := Timed(timeout, setup.rexmt, e);
      i := i + 1;
      if o != Ignore {
        return;
      }
    }
    assert events[..i] == events;
  }

  lemma {:induction false} SenderSends(
      c: Config, start: Sender, events: seq<Event>, s: Sender, sent: seq<Packet>, out: seq<Packet>)
    requires c.Valid() && SenderReady(c, start) && s.pc.Sending? && s.count <= |c.blocks|
    requires SenderAfter(c, start, events) == (s, sent)
    requires out == Copied(Outgoing(c, s), c.debug && s.block % 2 == 1)
    ensures SenderRun(c, start, events) == (s.(pc := SenderPc.Waiting), sent + out)
  {
    assert SenderSend(c, s).1 == out;
  }

  /**
   * After the answer to the request or the acknowledgement of a full block there is a next one; a short block was
   * the last.
   */
  lemma {:induction false} AfterAck(c: Config, start: Sender, events: seq<Event>, i: nat, s: Sender, sent: seq<Packet>)
    requires c.Valid() && SenderReady(c, start) && i <= |events| && s.count <= |c.blocks|
    requires SenderAfter(c, start, events[..i]) == (Acked(c, s), sent)
    ensures if s.count == 0 || |c.blocks[s.count - 1]| == c.seg then
              && s.count < |c.blocks|
              && SenderAfter(c, start, events[..i]) ==
                 (Sender(SenderPc.Sending, s.count + 1, Succ16(s.block), 0), sent)
            else
              SenderRun(c, start, events).0.pc.Finished? && SenderRun(c, start, events).1 == sent
  {
    if 0 < s.count && |c.blocks[s.count - 1]| != c.seg {
      SenderStopped(c, start, events, i);
    }
  }

  /** r_init on a file that has just been opened. */
  method StartReading(file: InFile, convert: bool) returns (subs: Subs)
    requires file.pos == 0
    ensures subs.Reading(file, convert) && subs.taken == 0 && fresh(subs) && fresh(subs.Repr())
  {
    subs := new Subs(1);
    assert file.content[..0] == [];
  }

  function Copied(p: Packet, thrice: bool): seq<Packet> {
    if thrice then [p, p, p] else [p]
  }

  /** The packet about to be sent: the buffer in use, and whether it still holds the request. */
  datatype Load = Load(dp: Buffer, size: nat, block: U16, first: bool)

  /** It holds the request first, then the blocks. */
  ghost predicate Loaded(c: Config, subs: Subs, load: Load)
    reads subs, subs.bfs, load.dp, load.dp.data
  {
    && |subs.bfs| == 2 && 0 <= subs.current <= 1 && load.dp == subs.bfs[subs.current] && subs.taken <= |c.blocks|
    && (load.first <==> subs.taken == 0)
    && (!load.first ==> load.dp.Holds(c.blocks[subs.taken - 1]) && load.size == load.dp.counter)
  }

  /** sendto, up to three times, then read_ahead: the packet is the buffer in use, which read-ahead leaves alone. */
  method SendData(ghost c: Config, subs: Subs, file: InFile, setup: Setup, load: Load) returns (out: seq<Packet>)
    requires subs.Reading(file, setup.convert) && Loaded(c, subs, load)
    modifies subs.Repr(), file
    ensures subs.Reading(file, setup.convert) && Loaded(c, subs, load) && subs.taken == old(subs.taken)
    ensures out == Copied(if load.first then Request else Data(load.block, c.blocks[subs.taken - 1]),
                          setup.debug && load.block % 2 == 1)
  {
    var p := if load.first then Request else Data(load.block, load.dp.data[..load.size]);
    out := [p];
    if setup.debug && load.block % 2 == 1 {
      out := out + [p] + [p];
    }
    subs.ReadAhead(file, setup.convert);
  }

  /** One round of the inner loop: send the packet in the buffer in use, let read-ahead run, and listen. */
  method Round(ghost c: Config, ghost start: Sender, subs: Subs, file: InFile, setup: Setup, load: Load,
               from: nat, timeout0: nat, already: seq<Packet>)
    returns (i: nat, sent: seq<Packet>, o: Outcome, timeout: nat)
    requires SendsFor(c, setup)
    requires subs.Reading(file, setup.convert) && from <= |setup.events| && SenderReady(c, start)
    requires Loaded(c, subs, load)
    requires SenderAfter(c, start, setup.events[..from]) ==
             (Sender(SenderPc.Sending, subs.taken, load.block, timeout0), already)
    modifies subs.Repr(), file
    ensures from <= i <= |setup.events| && (o == Resend || o == GoOn ==> from < i)
    ensures subs.Reading(file, setup.convert) && Loaded(c, subs, load) && subs.taken == old(subs.taken)
    ensures Delivered(c, start, Sender(SenderPc.Waiting, subs.taken, load.block, timeout), setup.events, i, sent, o)
  {
    ghost var n := subs.taken;
    var out := SendData(c, subs, file, setup, load);
    SenderSends(c, start, setup.events[..from], Sender(SenderPc.Sending, n, load.block, timeout0), already, out);
    sent := already + out;
    i, timeout, o := Listen(
      c, start, Sender(SenderPc.Waiting, n, load.block, timeout0), sent, load.block, timeout0, setup, from);
    if o == GiveUp {
      SenderStopped(c, start, setup.events, i);
    }
  }

  /** Where the sender's machine, which was waiting as s, is after a round with this outcome. */
  ghost predicate Delivered(
      c: Config, start: Sender, s: Sender, events: seq<Event>, i: nat, sent: seq<Packet>, o: Outcome)
    requires c.Valid() && SenderReady(c, start) && s.count <= |c.blocks| && i <= |events|
  {
    match o
    case Resend => SenderAfter(c, start, events[..i]) == (s.(pc := SenderPc.Sending), sent)
    case GoOn => SenderAfter(c, start, events[..i]) == (Acked(c, s), sent)
    case _ =>
      && SenderRun(c, start, events).1 == sent
      && SenderRun(c, start, events).0.pc == if o == GiveUp then SenderPc.Failed else SenderPc.Waiting
  }

  /**
   * The inner loop of both senders: round after round until the packet is acknowledged (GoOn), given up,
   * or the script ends (Ignore).
   */
  method Deliver(ghost c: Config, ghost start: Sender, subs: Subs, file: InFile, setup: Setup, load: Load,
                 from: nat, already: seq<Packet>)
    returns (i: nat, sent: seq<Packet>, o: Outcome, timeout: nat)
    requires SendsFor(c, setup)
    requires subs.Reading(file, setup.convert) && from <= |setup.events| && SenderReady(c, start)
    requires Loaded(c, subs, load)
    requires SenderAfter(c, start, setup.events[..from]) ==
             (Sender(SenderPc.Sending, subs.taken, load.block, 0), already)
    modifies subs.Repr(), file
    ensures from <= i <= |setup.events| && (o == GoOn ==> from < i) && o != Resend
    ensures subs.Reading(file, setup.convert) && subs.taken == old(subs.taken) <= |c.blocks|
    ensures Delivered(c, start, Sender(SenderPc.Waiting, subs.taken, load.block, timeout), setup.events, i, sent, o)
  {
    i, sent, o, timeout := from, already, Resend, 0;
    while o == Resend
      invariant from <= i <= |setup.events| && (o == GoOn ==> from < i)
      invariant subs.Reading(file, setup.convert) && subs.taken == old(subs.taken)
      invariant Loaded(c, subs, load)
      invariant Delivered(c, start, Sender(SenderPc.Waiting, subs.taken, load.block, timeout), setup.events, i, sent, o)
      decreases |setup.events| - i, if o == Resend then 1 else 0
    {
      i, sent, o, timeout := Round(c, start, subs, file, setup, load, i, timeout, sent);
    }
  }

  /** One trip of the loop that both senders share: take the next block and see it acknowledged. */
  method SendBlock(ghost c: Config, ghost start: Sender, subs: Subs, file: InFile, setup: Setup, block: U16,
                   from: nat, already: seq<Packet>)
    returns (i: nat, sent: seq<Packet>, more: bool, pc: SenderPc)
    requires Describes(c, Sent(file.content, setup.convert), setup) && SenderReady(c, start)
    requires subs.Reading(file, setup.convert) && subs.taken < |c.blocks| && from <= |setup.events|
    requires SenderAfter(c, start, setup.events[..from]) ==
             (Sender(SenderPc.Sending, subs.taken + 1, block, 0), already)
    modifies subs.Repr(), file
    ensures from <= i <= |setup.events|
    ensures more ==>
              && from < i
              && subs.Reading(file, setup.convert) && subs.taken == old(subs.taken) + 1 < |c.blocks|
              && SenderAfter(c, start, setup.events[..i]) ==
                 (Sender(SenderPc.Sending, subs.taken + 1, Succ16(block), 0), sent)
    ensures !more ==> SenderRun(c, start, setup.events).0.pc == pc && SenderRun(c, start, setup.events).1 == sent
  {
    var dp, size := subs.Readit(file, setup.convert);
    var o, timeout;
    i, sent, o, timeout := Deliver(c, start, subs, file, setup, Load(dp, size, block, false), from, already);
    if o != GoOn {
      return i, sent, false, if o == GiveUp then SenderPc.Failed else SenderPc.Waiting;
    }
    AfterAck(c, start, setup.events, i, Sender(SenderPc.Waiting, subs.taken, block, timeout), sent);
    more := size == SEGSIZE;
    pc := if more then SenderPc.Sending else SenderPc.Finished;
  }

  /** The loop of both senders over the blocks. */
  method SendBlocks(ghost c: Config, ghost start: Sender, subs: Subs, file: InFile, setup: Setup, first: U16,
                    from: nat, already: seq<Packet>)
    returns (sent: seq<Packet>, pc: SenderPc)
    requires Describes(c, Sent(file.content, setup.convert), setup) && SenderReady(c, start)
    requires subs.Reading(file, setup.convert) && subs.taken < |c.blocks| && from <= |setup.events|
    requires SenderAfter(c, start, setup.events[..from]) ==
             (Sender(SenderPc.Sending, subs.taken + 1, first, 0), already)
    modifies subs.Repr(), file
    ensures SenderRun(c, start, setup.events).0.pc == pc && SenderRun(c, start, setup.events).1 == sent
  {
    var block, i, more := first, from, true;
    sent, pc := already, SenderPc.Sending;
    while more
      invariant i <= |setup.events|
      invariant more ==>
        && subs.Reading(file, setup.convert) && subs.taken < |c.blocks|
        && SenderAfter(c, start, setup.events[..i]) == (Sender(SenderPc.Sending, subs.taken + 1, block, 0), sent)
      invariant !more ==> SenderRun(c, start, setup.events).0.pc == pc && SenderRun(c, start, setup.events).1 == sent
      decreases |setup.events| - i, more
    {
      i, sent, more, pc := SendBlock(c, start, subs, file, setup, block, i, sent);
      block := Succ16(block);
    }
  }

  /** The server's sender starts with block 1 as soon as it has the request. */
  lemma {:induction false} ServerStart(c: Config, events: seq<Event>) returns (start: Sender)
    requires c.Valid() && c.kind.ClientDownload?
    ensures start == NextBlock(SenderInit(c)) == Sender(SenderPc.Sending, 1, 1, 0) && 1 <= |c.blocks|
    ensures SenderAfter(c, start, events[..0]) == (start, [])
  {
    start := NextBlock(SenderInit(c));
  }

  /** The client's sender starts with the request, as block 0. */
  lemma {:induction false} ClientStart(c: Config, events: seq<Event>) returns (start: Sender)
    requires c.Valid() && !c.kind.ClientDownload?
    ensures start == SenderInit(c) == Sender(SenderPc.Sending, 0, 0, 0)
    ensures SenderAfter(c, start, events[..0]) == (start, [])
  {
    start := SenderInit(c);
  }

  /** tftpd/tftpd.c sendfile, started by a read request. */
  method ServerSendfile(ghost c: Config, file: InFile, setup: Setup) returns (sent: seq<Packet>, pc: SenderPc)
    requires file.pos == 0 && c.kind.ClientDownload?
    requires Describes(c, Sent(file.content, setup.convert), setup)
    modifies file
    ensures var (s, out) := SenderRun(c, NextBlock(SenderInit(c)), setup.events);
            sent == out && pc == s.pc
  {
    ghost var start := ServerStart(c, setup.events);
    var subs := StartReading(file, setup.convert);
    sent, pc := SendBlocks(c, start, subs, file, setup, 1, 0, []);
  }

  /** tftp/tftp.c sendfile: the write request is sent, and repeated, from the first buffer. */
  method ClientSendfile(ghost c: Config, file: InFile, setup: Setup) returns (sent: seq<Packet>, pc: SenderPc)
    requires file.pos == 0 && !c.kind.ClientDownload?
    requires Describes(c, Sent(file.content, setup.convert), setup)
    modifies file
    ensures var (s, out) := SenderRun(c, SenderInit(c), setup.events);
            sent == out && pc == s.pc
  {
    ghost var start := ClientStart(c, setup.events);
    var subs := StartReading(file, setup.convert);
    var request := Load(subs.bfs[subs.current], 0, 0, true);
    var i, o, timeout;
    i, sent, o, timeout := Deliver(c, start, subs, file, setup, request, 0, []);
    if o != GoOn {
      return sent, if o == GiveUp then SenderPc.Failed else SenderPc.Waiting;
    }
    AfterAck(c, start, setup.events, i, Sender(SenderPc.Waiting, 0, 0, timeout), sent);
    sent, pc := SendBlocks(c, start, subs, file, setup, 1, i, sent);
  }
}
