/**
 * The layers put together: what each loop does on its own script is what it does in a run of the
 * whole system, so the file the receiver leaves behind is the file the sender was given.
 */
module EndToEnd {
  import opened Common
  import opened Machines
  import opened Fifo
  import opened Scripts
  import Netascii
  import TftpSubs
  import SendLoops
  import ReceiveLoops

  // ----------------------------------------------- a party's view of a run

  /** The events a step makes the sender's receive call return with; the starting request is not one of them. */
  function SenderHeard(s: System, t: Step): seq<Event>
    requires t.SndReceive? ==> s.acks != []
  {
    match t
    case SndTimeout => [Timeout]
    case SndReceive(_) => if s.snd.pc.Listening? then [] else [Arrival(s.acks[0])]
    case _ => []
  }

  function ReceiverHeard(s: System, t: Step): seq<Event>
    requires t.RcvReceive? ==> s.data != []
  {
    match t
    case RcvTimeout => [Timeout]
    case RcvReceive(_, _) => if s.rcv.pc.Listening? then [] else [Arrival(s.data[0])]
    case _ => []
  }

  function SenderView(c: Config, steps: seq<Step>): seq<Event>
    requires Run(c, steps).Some?
  {
    if steps == [] then []
    else
      var before, t := steps[..|steps| - 1], steps[|steps| - 1];
      SenderView(c, before) + SenderHeard(Run(c, before).value, t)
  }

  function ReceiverView(c: Config, steps: seq<Step>): seq<Event>
    requires Run(c, steps).Some?
  {
    if steps == [] then []
    else
      var before, t := steps[..|steps| - 1], steps[|steps| - 1];
      ReceiverView(c, before) + ReceiverHeard(Run(c, before).value, t)
  }

  /** The state in which a party's loop starts: the serving side has taken the request by then. */
  function SenderStart(c: Config): Sender {
    if c.kind.ClientDownload? then NextBlock(SenderInit(c)) else SenderInit(c)
  }

  function ReceiverStart(c: Config): Receiver {
    if c.kind.ClientDownload? then ReceiverInit(c) else ReceiverReceive(c, ReceiverInit(c), Request)
  }

  function SettledSender(s: Sender): Sender {
    if s.pc.Sending? then s.(pc := SenderPc.Waiting) else s
  }

  ghost predicate SenderAgrees(c: Config, s: Sender, view: seq<Event>)
    requires c.Valid() && SenderReady(c, SenderStart(c))
  {
    if s.pc.Listening? then view == [] && s == SenderInit(c)
    else SenderRun(c, SenderStart(c), view).0 == SettledSender(s)
  }

  lemma {:induction false} SenderHearsOneMore(c: Config, start: Sender, view: seq<Event>, e: Event)
    requires c.Valid() && SenderReady(c, start)
    ensures SenderRun(c, start, view + [e]).0 == SettledSender(SenderOn(c, SenderRun(c, start, view).0, e))
  {
  }

  lemma {:induction false} SenderStepAgrees(c: Config, s: System, t: Step, view: seq<Event>)
    requires c.Valid() && SenderReady(c, SenderStart(c)) && Enabled(c, s, t) && SenderAgrees(c, s.snd, view)
    ensures SenderAgrees(c, Next(c, s, t).snd, view + SenderHeard(s, t))
  {
    var heard := SenderHeard(s, t);
    if heard == [] {
      assert view + heard == view;
    } else {
      SenderHearsOneMore(c, SenderStart(c), view, heard[0]);
    }
  }

  /** Running its loop on its view takes the sender where the run has taken it. */
  lemma {:induction false} SenderFollowsView(c: Config, steps: seq<Step>)
    requires c.Valid() && Run(c, steps).Some?
    ensures SenderReady(c, SenderStart(c)) && SenderAgrees(c, Run(c, steps).value.snd, SenderView(c, steps))
  {
    if steps == [] {
    } else {
      var before, t := steps[..|steps| - 1], steps[|steps| - 1];
      SenderFollowsView(c, before);
      SenderStepAgrees(c, Run(c, before).value, t, SenderView(c, before));
    }
  }

  ghost predicate ReceiverAgrees(c: Config, r: Receiver, view: seq<Event>) {
    if r.pc.Listening? then view == [] && r == ReceiverInit(c)
    else ReceiverRun(c, ReceiverStart(c), view).0 == Settle(c, r).0
  }

  lemma {:induction false} ReceiverHearsOneMore(c: Config, start: Receiver, view: seq<Event>, e: Event)
    ensures ReceiverRun(c, start, view + [e]).0 == Settle(c, ReceiverOn(c, ReceiverRun(c, start, view).0, e)).0
  {
  }

  lemma {:induction false} ReceiverStepAgrees(c: Config, s: System, t: Step, view: seq<Event>)
    requires Enabled(c, s, t) && ReceiverAgrees(c, s.rcv, view)
    ensures ReceiverAgrees(c, Next(c, s, t).rcv, view + ReceiverHeard(s, t))
  {
    var heard := ReceiverHeard(s, t);
    if heard == [] {
      assert view + heard == view;
    } else {
      ReceiverHearsOneMore(c, ReceiverStart(c), view, heard[0]);
    }
  }

  /** Running its loop on its view takes the receiver where the run takes it once it has settled. */
  lemma {:induction false} ReceiverFollowsView(c: Config, steps: seq<Step>)
    requires Run(c, steps).Some?
    ensures ReceiverAgrees(c, Run(c, steps).value.rcv, ReceiverView(c, steps))
  {
    if steps == [] {
    } else {
      var before, t := steps[..|steps| - 1], steps[|steps| - 1];
      ReceiverFollowsView(c, before);
      ReceiverStepAgrees(c, Run(c, before).value, t, ReceiverView(c, before));
    }
  }

  /** The blocks in flight, and the one about to be sent, are ones the sender's loop has sent. */
  ghost predicate SenderCovers(c: Config, s: System, view: seq<Event>)
    requires c.Valid() && SenderReady(c, SenderStart(c))
  {
    var out := SenderRun(c, SenderStart(c), view).1;
    && SenderReady(c, s.snd)
    && (forall p :: p in s.data ==> p in out)
    && (s.snd.pc.Sending? ==> Outgoing(c, s.snd) in out)
  }

  ghost predicate ReceiverCovers(c: Config, s: System, view: seq<Event>) {
    var out := ReceiverRun(c, ReceiverStart(c), view).1;
    && (s.rcv.pc.Listening? ==> s.acks == [])
    && (!s.rcv.pc.Listening? ==>
          && (forall p :: p in s.acks ==> p in out)
          && (forall p :: p in Settle(c, s.rcv).1 ==> p in out)
          && (s.rcv.pc.Dallying? ==> s.rcv.ack in out))
  }

  lemma {:induction false} SentGrows(c: Config, start: Sender, view: seq<Event>, e: Event)
    requires c.Valid() && SenderReady(c, start)
    ensures var (q, out) := SenderRun(c, start, view);
            var q' := SenderOn(c, q, e);
            && (forall p :: p in out ==> p in SenderRun(c, start, view + [e]).1)
            && (q'.pc.Sending? ==> Outgoing(c, q') in SenderRun(c, start, view + [e]).1)
  {
    assert (view + [e])[..|view|] == view;
    var q' := SenderOn(c, SenderRun(c, start, view).0, e);
    if q'.pc.Sending? {
      assert SenderSend(c, q').1[0] == Outgoing(c, q');
    }
  }

  lemma {:induction false} AcksGrow(c: Config, start: Receiver, view: seq<Event>, e: Event)
    ensures var (q, out) := ReceiverRun(c, start, view);
            var settled := Settle(c, ReceiverOn(c, q, e)).1;
            && (forall p :: p in out ==> p in ReceiverRun(c, start, view + [e]).1)
            && (forall p :: p in settled ==> p in ReceiverRun(c, start, view + [e]).1)
  {
  }

  lemma {:induction false} SenderStepCovers(c: Config, s: System, t: Step, view: seq<Event>)
    requires c.Valid() && SenderReady(c, SenderStart(c)) && Enabled(c, s, t)
    requires SenderAgrees(c, s.snd, view) && SenderCovers(c, s, view)
    ensures SenderCovers(c, Next(c, s, t), view + SenderHeard(s, t))
  {
    var heard := SenderHeard(s, t);
    if heard == [] {
      assert view + heard == view;
      if t.SndReceive? {
        var start := SenderStart(c);
        assert SenderSend(c, start).1[0] == Outgoing(c, start);
      }
    } else {
      SentGrows(c, SenderStart(c), view, heard[0]);
    }
  }

  lemma {:induction false} ReceiverStepCovers(c: Config, s: System, t: Step, view: seq<Event>)
    requires Enabled(c, s, t) && ReceiverAgrees(c, s.rcv, view) && ReceiverCovers(c, s, view)
    ensures ReceiverCovers(c, Next(c, s, t), view + ReceiverHeard(s, t))
  {
    var heard := ReceiverHeard(s, t);
    if heard == [] {
      assert view + heard == view;
    } else {
      AcksGrow(c, ReceiverStart(c), view, heard[0]);
    }
  }

  /** The network carries nothing but what the two loops, run on their views, have sent. */
  lemma {:induction false} OnlyLoopsSend(c: Config, steps: seq<Step>)
    requires c.Valid() && Run(c, steps).Some?
    ensures SenderReady(c, SenderStart(c))
    ensures var s := Run(c, steps).value;
            && SenderCovers(c, s, SenderView(c, steps))
            && ReceiverCovers(c, s, ReceiverView(c, steps))
  {
    SenderFollowsView(c, steps);
    if steps != [] {
      var before, t := steps[..|steps| - 1], steps[|steps| - 1];
      OnlyLoopsSend(c, before);
      SenderFollowsView(c, before);
      ReceiverFollowsView(c, before);
      SenderStepCovers(c, Run(c, before).value, t, SenderView(c, before));
      ReceiverStepCovers(c, Run(c, before).value, t, ReceiverView(c, before));
    } else {
      assert SenderSend(c, SenderStart(c)).1[0] == Outgoing(c, SenderStart(c));
    }
  }

  /** No DATA packet carries more than one segment. */
  ghost predicate Fits(c: Config, p: Packet) {
    p.Data? ==> |p.payload| <= c.seg
  }

  ghost predicate AllFit(c: Config, s: System) {
    forall i :: 0 <= i < |s.data| ==> Fits(c, s.data[i])
  }

  lemma {:induction false} StepKeepsFit(c: Config, s: System, t: Step)
    requires c.Valid() && AllFit(c, s) && Enabled(c, s, t)
    ensures AllFit(c, Next(c, s, t))
  {
    if t.SndSend? {
      assert Fits(c, Outgoing(c, s.snd));
    }
  }

  /** So whatever the receiver hears fits its buffer. */
  lemma {:induction false} ViewFits(c: Config, steps: seq<Step>)
    requires c.Valid() && Run(c, steps).Some?
    ensures AllFit(c, Run(c, steps).value)
    ensures forall e :: e in ReceiverView(c, steps) && e.Arrival? ==> Fits(c, e.p)
  {
    if steps == [] {
    } else {
      var before, t := steps[..|steps| - 1], steps[|steps| - 1];
      ViewFits(c, before);
      StepKeepsFit(c, Run(c, before).value, t);
    }
  }

  // ------------------------------------------------------------ main results

  lemma {:induction false} StoredSent(content: seq<byte>, convert: bool)
    ensures TftpSubs.Stored(TftpSubs.Sent(content, convert), convert) == content
  {
    Netascii.DecodeEncode(content);
  }

  /**
   * A C sender and a C receiver over FIFO channels that lose and duplicate, in octet or netascii mode,
   * for a file of any length: a file left behind by a receiver whose loop has finished in any run is,
   * byte for byte, the file the sender was given; so is the one that the receiver's loop has left behind, as far
   * as it has come without further packets, once the sender has finished.
   */
  lemma {:induction false} FileArrives(
      c: Config, content: seq<byte>, convert: bool, steps: seq<Step>,
      sent: seq<Packet>, pc: ReceiverPc, file: TftpSubs.OutFile)
    requires c.Valid() && !c.kind.CppUpload? && c.seg == SEGSIZE && Run(c, steps).Some?
    requires c.blocks == Cut(TftpSubs.Sent(content, convert), SEGSIZE)
    requires !Run(c, steps).value.rcv.pc.Listening?
    requires ReceiveLoops.Matches(c, ReceiverStart(c), ReceiverView(c, steps), sent, pc, file, convert)
    ensures pc.Finished? || pc.Dallying? ==> file.content == content
    ensures Run(c, steps).value.snd.pc.Finished? ==> file.content == content && (pc.Finished? || pc.Dallying?)
  {
    ReceiverFollowsView(c, steps);
    Reachable(c, steps);
    SettledFile(c, Run(c, steps).value.rcv, TftpSubs.Sent(content, convert));
    StoredSent(content, convert);
  }

  /** A run of the C programs on these settings, where both parties have heard what the setups say. */
  ghost predicate Plays(c: Config, steps: seq<Step>, content: seq<byte>, sender: Setup, receiver: Setup) {
    && c.Valid() && !c.kind.CppUpload? && c.seg == 512
    && c.blocks == Cut(TftpSubs.Sent(content, sender.convert), 512)
    && sender.convert == receiver.convert && sender.debug == c.debug && SameClock(c, sender) && SameClock(c, receiver)
    && Run(c, steps).Some?
    && sender.events == SenderView(c, steps) && receiver.events == ReceiverView(c, steps)
  }

  /**
   * What the two loops do to a file in a run: the network has carried only what they have sent; a receiver that has
   * finished, and one that faces a finished sender, has a copy of the file.
   */
  ghost predicate Copies(c: Config, steps: seq<Step>, content: seq<byte>, sent: seq<Packet>, acks: seq<Packet>,
                         rcvPc: ReceiverPc, file: TftpSubs.OutFile)
    requires Run(c, steps).Some?
    reads file
  {
    var s := Run(c, steps).value;
    && (forall p :: p in s.data ==> p in sent) && (forall p :: p in s.acks ==> p in acks)
    && (rcvPc.Finished? || rcvPc.Dallying? ==> file.content == content)
    && (s.snd.pc.Finished? ==> file.content == content)
  }

  /** The last steps of both transfers. */
  lemma {:induction false} LoopsCopy(
      c: Config, steps: seq<Step>, content: seq<byte>, sender: Setup, receiver: Setup,
      sent: seq<Packet>, acks: seq<Packet>, rcvPc: ReceiverPc, file: TftpSubs.OutFile)
    requires Plays(c, steps, content, sender, receiver) && !Run(c, steps).value.rcv.pc.Listening?
    requires SenderReady(c, SenderStart(c)) && SenderRun(c, SenderStart(c), sender.events).1 == sent
    requires ReceiveLoops.Matches(c, ReceiverStart(c), receiver.events, acks, rcvPc, file, receiver.convert)
    ensures Copies(c, steps, content, sent, acks, rcvPc, file)
  {
    FileArrives(c, content, receiver.convert, steps, acks, rcvPc, file);
    OnlyLoopsSend(c, steps);
  }

  lemma {:induction false} CanReceive(c: Config, steps: seq<Step>, content: seq<byte>, sender: Setup, receiver: Setup)
    requires Plays(c, steps, content, sender, receiver)
    ensures SendLoops.Describes(c, TftpSubs.Sent(content, sender.convert), sender)
    ensures ReceiveLoops.Receives(c, receiver) && ReceiveLoops.Receivable(receiver.events)
  {
    SendLoops.CutDescribes(c, TftpSubs.Sent(content, sender.convert), sender);
    ViewFits(c, steps);
  }

  /** A read request: the server's sendfile and the client's recvfile. */
  method Download(ghost c: Config, ghost steps: seq<Step>, source: TftpSubs.InFile, target: TftpSubs.OutFile,
                  sender: Setup, receiver: Setup)
    returns (sent: seq<Packet>, acks: seq<Packet>, sndPc: SenderPc, rcvPc: ReceiverPc)
    requires c.kind.ClientDownload? && Plays(c, steps, source.content, sender, receiver)
    requires source.pos == 0 && target.content == [] && target.pos == 0
    modifies source, target
    ensures Copies(c, steps, source.content, sent, acks, rcvPc, target)
    ensures var s := Run(c, steps).value.snd; s.pc.Finished? || s.pc.Failed? ==> sndPc == s.pc
  {
    SenderFollowsView(c, steps);
    Reachable(c, steps);
    CanReceive(c, steps, source.content, sender, receiver);
    sent, sndPc := SendLoops.ServerSendfile(c, source, sender);
    acks, rcvPc := ReceiveLoops.ClientRecvfile(c, target, receiver);
    LoopsCopy(c, steps, source.content, sender, receiver, sent, acks, rcvPc, target);
  }

  /** A write request that the server has taken: the client's sendfile and the server's recvfile. */
  method Upload(ghost c: Config, ghost steps: seq<Step>, source: TftpSubs.InFile, target: TftpSubs.OutFile,
                sender: Setup, receiver: Setup)
    returns (sent: seq<Packet>, acks: seq<Packet>, sndPc: SenderPc, rcvPc: ReceiverPc)
    requires c.kind.ServerUpload? && Plays(c, steps, source.content, sender, receiver)
    requires !Run(c, steps).value.rcv.pc.Listening?
    requires source.pos == 0 && target.content == [] && target.pos == 0
    modifies source, target
    ensures Copies(c, steps, source.content, sent, acks, rcvPc, target)
    ensures var s := Run(c, steps).value.snd; s.pc.Finished? || s.pc.Failed? ==> sndPc == s.pc
  {
    SenderFollowsView(c, steps);
    CanReceive(c, steps, source.content, sender, receiver);
    sent, sndPc := SendLoops.ClientSendfile(c, source, sender);
    acks, rcvPc := ReceiveLoops.ServerRecvfile(c, target, receiver);
    LoopsCopy(c, steps, source.content, sender, receiver, sent, acks, rcvPc, target);
  }

  /** Settling flushes, and closes what is closing. */
  lemma {:induction false} SettledState(c: Config, r: Receiver)
    requires c.Valid() && ReceiverOk(c, r) && !c.kind.CppUpload?
    ensures var q := Settle(c, r).0;
            && q.accepted == r.accepted && r.flushed <= q.flushed <= |q.accepted|
            && (q.pc.Finished? || q.pc.Dallying? <==> Closing(r))
            && (Closing(r) ==> q.flushed == |q.accepted|)
  {
    if Rank(c, r) == 2 {
      SettleC(c, r);
    }
  }

  /** Once all blocks are in, that leaves the whole stream in the file. */
  lemma {:induction false} SettledFile(c: Config, r: Receiver, stream: seq<byte>)
    requires c.Valid() && ReceiverOk(c, r) && !c.kind.CppUpload? && c.blocks == Cut(stream, c.seg)
    ensures var q := Settle(c, r).0;
            && q.flushed <= |q.accepted|
            && (q.pc.Finished? || q.pc.Dallying? <==> Closing(r))
            && (Closing(r) ==> Written(q) == stream)
  {
    SettledState(c, r);
    CutIsExact(stream, c.seg);
    var q := Settle(c, r).0;
    if Closing(r) {
      assert q.accepted[..q.flushed] == c.blocks;
    }
  }
}
