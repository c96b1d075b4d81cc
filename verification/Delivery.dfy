/** What every run over FIFO channels guarantees about the receiver's file. */
module Delivery {
  import opened Common
  import opened Machines
  import opened Fifo

  ghost predicate IsPrefix(a: seq<byte>, b: seq<byte>) {
    |a| <= |b| && a == b[..|a|]
  }

  lemma {:induction false} ConcatPrefix(blocks: seq<seq<byte>>, k: nat)
    requires k <= |blocks|
    ensures IsPrefix(Concat(blocks[..k]), Concat(blocks))
  {
    ConcatAppend(blocks[..k], blocks[k..]);
    assert blocks[..k] + blocks[k..] == blocks;
  }

  lemma {:induction false} WrittenAndPending(r: Receiver)
    requires r.flushed <= |r.accepted|
    ensures Written(r) + Pending(r) == Concat(r.accepted)
  {
    ConcatAppend(r.accepted[..r.flushed], r.accepted[r.flushed..]);
    assert r.accepted[..r.flushed] + r.accepted[r.flushed..] == r.accepted;
  }

  ghost predicate Delivers(c: Config, stream: seq<byte>, s: System) {
    && s.rcv.flushed <= |s.rcv.accepted| <= s.rcv.flushed + 1 && |s.rcv.accepted| <= |c.blocks|
    && Written(s.rcv) + Pending(s.rcv) == Concat(c.blocks[..|s.rcv.accepted|])
    && IsPrefix(Written(s.rcv) + Pending(s.rcv), stream)
    && IsPrefix(Written(s.rcv), stream)
    && (s.rcv.pc.Finished? || s.rcv.published ==> Written(s.rcv) == stream)
    && (s.snd.pc.Finished? ==> Written(s.rcv) + Pending(s.rcv) == stream)
  }

  lemma {:induction false} InvDelivers(c: Config, stream: seq<byte>, s: System)
    requires c.Valid() && c.blocks == Cut(stream, c.seg) && Inv(c, s)
    ensures Delivers(c, stream, s)
  {
    CutIsExact(stream, c.seg);
    var r := s.rcv;
    WrittenAndPending(r);
    ConcatPrefix(c.blocks, |r.accepted|);
    ConcatPrefix(c.blocks, r.flushed);
    assert r.accepted[..r.flushed] == c.blocks[..r.flushed];
    assert c.blocks[..|c.blocks|] == c.blocks;
  }

  /**
   * Wrap-around safety. Whatever the length of the stream, although packets carry 16-bit numbers:
   * the file plus the one block not yet flushed is a prefix of the stream, cut at a block boundary;
   * a receiver that has finished holds exactly the stream, and so does a published upload;
   * when the sender has finished, the receiver has accepted the whole stream.
   */
  lemma {:induction false} FifoDelivery(c: Config, stream: seq<byte>, steps: seq<Step>)
    requires c.Valid() && InRange(c) && c.blocks == Cut(stream, c.seg)
    requires Run(c, steps).Some?
    ensures Delivers(c, stream, Run(c, steps).value)
  {
    Reachable(c, steps);
    InvDelivers(c, stream, Run(c, steps).value);
  }

  // ---------------------------------------------------------- ACK and file

  // A block is flushed when write_behind has output it. In octet mode that is a write(2), so the block is in the
  // file. In netascii mode it is a putc for every byte, which only fills the buffer of the stdio stream.

  /** What must have been flushed before the acknowledgement of the last accepted block may leave. */
  predicate AckReady(c: Config, r: Receiver) {
    match c.kind
    case ClientDownload => true
    case ServerUpload => Closing(r) ==> r.flushed == |r.accepted|
    case CppUpload => r.flushed == |r.accepted|
  }

  /** That acknowledgement is in flight, or the sender has seen it. */
  ghost predicate LastAckSent(c: Config, s: System) {
    || AckAt(c, Expected(s.rcv) - 1) in s.acks
    || s.snd.pc.Finished?
    || (s.snd.count == Expected(s.rcv) && !s.rcv.pc.Listening?)
  }

  ghost predicate AcksCovered(c: Config, s: System) {
    LastAckSent(c, s) && !s.rcv.pc.Listening? ==> AckReady(c, s.rcv)
  }

  lemma {:induction false} AckNeighbours(c: Config, n: nat)
    ensures AckAt(c, n) != AckAt(c, n + 1)
  {
  }

  lemma {:induction false} AcceptingStep(c: Config, s: System, flush: nat)
    requires c.Valid() && InRange(c) && Inv(c, s) && AcksCovered(c, s)
    requires Enabled(c, s, RcvReceive(flush, false))
    ensures AcksCovered(c, Next(c, s, RcvReceive(flush, false)))
  {
    var s' := Next(c, s, RcvReceive(flush, false));
    StepKeepsInv(c, s, RcvReceive(flush, false));
    if s.rcv.pc.Waiting? && s'.rcv.accepted != s.rcv.accepted {
      AckNeighbours(c, |s.rcv.accepted|);
      assert s.snd.count == Expected(s.rcv);
      forall i | 0 <= i < |s.acks| ensures s.acks[i] != AckAt(c, Expected(s'.rcv) - 1) {
        assert s.acks[i] == AckAt(c, s.snd.count - 1);
      }
    }
  }

  lemma {:induction false} AckingStep(c: Config, s: System, flush: nat)
    requires c.Valid() && Inv(c, s) && AcksCovered(c, s) && Enabled(c, s, SndReceive(flush))
    ensures AcksCovered(c, Next(c, s, SndReceive(flush)))
  {
  }

  lemma {:induction false} AdvancingStep(c: Config, s: System)
    requires c.Valid() && Inv(c, s) && AcksCovered(c, s) && Enabled(c, s, RcvAdvance)
    ensures AcksCovered(c, Next(c, s, RcvAdvance))
  {
  }

  lemma {:induction false} DallyingStep(c: Config, s: System, t: Step)
    requires Inv(c, s) && AcksCovered(c, s) && Enabled(c, s, t) && t.RcvReceive? && s.rcv.pc.Dallying?
    ensures AcksCovered(c, Next(c, s, t))
  {
  }

  lemma {:induction false} SilentStep(c: Config, s: System, t: Step)
    requires Inv(c, s) && AcksCovered(c, s) && Enabled(c, s, t)
    requires !t.SndReceive? && !t.RcvAdvance? && !t.RcvReceive?
    ensures AcksCovered(c, Next(c, s, t))
  {
  }

  lemma {:induction false} StepKeepsAcksCovered(c: Config, s: System, t: Step)
    requires c.Valid() && InRange(c) && Inv(c, s) && AcksCovered(c, s) && Enabled(c, s, t)
    ensures AcksCovered(c, Next(c, s, t))
  {
    match t
    case RcvReceive(flush, resend) =>
      if s.rcv.pc.Dallying? {
        DallyingStep(c, s, t);
      } else {
        AcceptingStep(c, s, flush);
      }
    case SndReceive(flush) => AckingStep(c, s, flush);
    case RcvAdvance => AdvancingStep(c, s);
    case _ => SilentStep(c, s, t);
  }

  lemma {:induction false} ReachableCovered(c: Config, steps: seq<Step>)
    requires c.Valid() && InRange(c) && Run(c, steps).Some?
    ensures Inv(c, Run(c, steps).value) && AcksCovered(c, Run(c, steps).value)
  {
    Reachable(c, steps);
    if steps == [] {
    } else {
      var before := steps[..|steps| - 1];
      ReachableCovered(c, before);
      StepKeepsAcksCovered(c, Run(c, before).value, steps[|steps| - 1]);
    }
  }

  /** The packet is the acknowledgement of logical block n, for some n that what has been flushed accounts for. */
  ghost predicate Backed(c: Config, r: Receiver, p: Packet, n: nat) {
    && p == AckAt(c, n) && n <= |r.accepted|
    && n <= r.flushed + 1
    && (c.kind.CppUpload? ==> n <= r.flushed)
    && (!c.kind.ClientDownload? && n == |c.blocks| ==> r.flushed == n)
  }

  lemma {:induction false} AckBacked(c: Config, s: System, p: Packet) returns (n: nat)
    requires Inv(c, s) && AcksCovered(c, s) && p in s.acks && !p.Request?
    ensures Backed(c, s.rcv, p, n)
  {
    n := if p == AckAt(c, Expected(s.rcv) - 1) then Expected(s.rcv) - 1 else s.snd.count - 1;
  }

  lemma {:induction false} UploadFinished(c: Config, s: System)
    requires Inv(c, s) && AcksCovered(c, s) && s.snd.pc.Finished? && !c.kind.ClientDownload?
    ensures Pending(s.rcv) == []
  {
  }

  /**
   * ACK against file. In the C receivers an ACK n in flight means blocks 1..n-1 have been flushed;
   * in the C++ receiver it means blocks 1..n have. The final ACK of an upload means the whole stream has,
   * so when an uploading sender finishes, nothing is pending in the engine.
   */
  lemma {:induction false} AckMeansWritten(c: Config, stream: seq<byte>, steps: seq<Step>)
    requires c.Valid() && InRange(c) && c.blocks == Cut(stream, c.seg)
    requires Run(c, steps).Some?
    ensures var s := Run(c, steps).value;
            && s.rcv.flushed <= |s.rcv.accepted|
            && (forall p :: p in s.acks && !p.Request? ==> exists n :: Backed(c, s.rcv, p, n))
            && (s.snd.pc.Finished? && !c.kind.ClientDownload? ==> Written(s.rcv) == stream)
  {
    var s := Run(c, steps).value;
    ReachableCovered(c, steps);
    forall p | p in s.acks && !p.Request? ensures exists n :: Backed(c, s.rcv, p, n) {
      var n := AckBacked(c, s, p);
    }
    if s.snd.pc.Finished? && !c.kind.ClientDownload? {
      UploadFinished(c, s);
      FifoDelivery(c, stream, steps);
    }
  }

  // ------------------------------------------- a sender that finishes first

  /** The sender has finished although a block has not been flushed. */
  ghost predicate FinishesUnflushed(c: Config, steps: seq<Step>) {
    && Run(c, steps).Some?
    && var s := Run(c, steps).value;
       s.snd.pc.Finished? && s.rcv.flushed < |s.rcv.accepted|
  }

  /** A download whose first n - 1 blocks are in the file; block n is about to be sent. */
  function Offering(c: Config, n: nat): System
    requires 1 <= n <= |c.blocks|
  {
    System(
      Sender(SenderPc.Sending, n, ToU16(n), 0),
      Receiver(ReceiverPc.Waiting, ToU16(n), 0, AckAt(c, n - 1), c.blocks[..n - 1], n - 1, false),
      [], [])
  }

  lemma {:induction false} FirstOffer(c: Config) returns (ss: seq<System>, ts: seq<Step>)
    requires c.Valid() && c.kind.ClientDownload?
    ensures Trace(c, ss, ts) && ss[0] == Init(c) && ss[|ts|] == Offering(c, 1)
  {
    var s0, s3 := Init(c), Offering(c, 1);
    var flushing := s3.rcv.(pc := ReceiverPc.Flushing);
    var s1 := s0.(rcv := flushing, acks := [Request]);
    var s2 := s3.(rcv := flushing);
    assert Goes(c, s0, RcvAdvance, s1);
    assert Goes(c, s1, SndReceive(0), s2);
    assert Goes(c, s2, RcvAdvance, s3);
    return [s0, s1, s2, s3], [RcvAdvance, SndReceive(0), RcvAdvance];
  }

  /** Block n has been sent, accepted and acknowledged, but not flushed. */
  function Taken(c: Config, n: nat): System
    requires 1 <= n <= |c.blocks|
  {
    var last := n == |c.blocks|;
    System(
      Sender(SenderPc.Waiting, n, ToU16(n), 0),
      Receiver(if last then ReceiverPc.FinalFlush else ReceiverPc.Flushing, ToU16(if last then n else n + 1), 0,
               AckAt(c, n), c.blocks[..n], n - 1, false),
      [], [AckAt(c, n)])
  }

  lemma {:induction false} TakeOffer(c: Config, n: nat) returns (ss: seq<System>, ts: seq<Step>)
    requires c.Valid() && c.kind.ClientDownload? && 1 <= n <= |c.blocks|
    ensures Trace(c, ss, ts) && ss[0] == Offering(c, n) && ss[|ts|] == Taken(c, n)
  {
    var s0, s3 := Offering(c, n), Taken(c, n);
    U16Neighbours(n);
    assert c.blocks[..n - 1] + [c.blocks[n - 1]] == c.blocks[..n];
    var s1 := s0.(snd := s3.snd, data := [DataAt(c, n)]);
    var acking := if n == |c.blocks| then ReceiverPc.FinalAck else ReceiverPc.Sending;
    var s2 := s3.(rcv := s3.rcv.(pc := acking), acks := []);
    assert SenderSend(c, s0.snd).1 == [DataAt(c, n)];
    assert Goes(c, s0, SndSend, s1);
    assert Goes(c, s1, RcvReceive(0, false), s2);
    assert Goes(c, s2, RcvAdvance, s3);
    return [s0, s1, s2, s3], [SndSend, RcvReceive(0, false), RcvAdvance];
  }

  lemma {:induction false} NextOffer(c: Config, n: nat) returns (ss: seq<System>, ts: seq<Step>)
    requires c.Valid() && c.kind.ClientDownload? && 1 <= n < |c.blocks|
    ensures Trace(c, ss, ts) && ss[0] == Taken(c, n) && ss[|ts|] == Offering(c, n + 1)
  {
    var s0, s2 := Taken(c, n), Offering(c, n + 1);
    U16Neighbours(n);
    var s1 := s2.(rcv := s0.rcv);
    assert Goes(c, s0, SndReceive(0), s1);
    assert Goes(c, s1, RcvAdvance, s2);
    return [s0, s1, s2], [SndReceive(0), RcvAdvance];
  }

  lemma {:induction false} ReachTaken(c: Config, n: nat) returns (ss: seq<System>, ts: seq<Step>)
    requires c.Valid() && c.kind.ClientDownload? && 1 <= n <= |c.blocks|
    ensures Trace(c, ss, ts) && ss[0] == Init(c) && ss[|ts|] == Taken(c, n)
  {
    if n == 1 {
      ss, ts := FirstOffer(c);
    } else {
      ss, ts := ReachTaken(c, n - 1);
      var s1, t1 := NextOffer(c, n - 1);
      ss, ts := Follow(c, ss, ts, s1, t1);
    }
    var s2, t2 := TakeOffer(c, n);
    ss, ts := Follow(c, ss, ts, s2, t2);
  }

  /** The C client acknowledges the last block before it flushes it, and the serving sender hears of it in between. */
  lemma {:induction false} DownloadMayFinishUnflushed(c: Config) returns (steps: seq<Step>)
    requires c.Valid() && c.kind.ClientDownload?
    ensures FinishesUnflushed(c, steps)
  {
    var n := |c.blocks|;
    var ss;
    ss, steps := ReachTaken(c, n);
    var s := Taken(c, n);
    var done := s.(snd := s.snd.(pc := SenderPc.Finished), acks := []);
    assert Goes(c, s, SndReceive(0), done);
    ss, steps := Follow(c, ss, steps, [s, done], [SndReceive(0)]);
    RunTo(c, ss, steps);
  }

  /** So it can finish before the file is complete in every download, and in nothing else. */
  lemma {:induction false} FinishesUnflushedIffDownload(c: Config)
    requires c.Valid() && InRange(c)
    ensures (exists steps :: FinishesUnflushed(c, steps)) <==> c.kind.ClientDownload?
  {
    if c.kind.ClientDownload? {
      var steps := DownloadMayFinishUnflushed(c);
    } else {
      forall steps ensures !FinishesUnflushed(c, steps) {
        if Run(c, steps).Some? && Run(c, steps).value.snd.pc.Finished? {
          ReachableCovered(c, steps);
        }
      }
    }
  }

  // ------------------------------------------- acknowledgements ahead of the write

  /** The acknowledgement of a block is in flight that has not been flushed. */
  ghost predicate AckAhead(c: Config, steps: seq<Step>) {
    Run(c, steps).Some? && Ahead(Run(c, steps).value)
  }

  ghost predicate Ahead(s: System) {
    s.rcv.flushed < |s.rcv.accepted| && Ack(|s.rcv.accepted| % 65536) in s.acks
  }

  /** An upload to the C server whose first block is about to be sent. */
  function Granted(c: Config): System
    requires 1 <= |c.blocks|
  {
    System(Sender(SenderPc.Sending, 1, 1, 0), Receiver(ReceiverPc.Waiting, 1, 0, Ack(0), [], 0, false), [], [])
  }

  lemma {:induction false} ReachGranted(c: Config) returns (ss: seq<System>, ts: seq<Step>)
    requires c.Valid() && c.kind.ServerUpload?
    ensures Trace(c, ss, ts) && ss[0] == Init(c) && ss[|ts|] == Granted(c)
  {
    var s0, s5 := Init(c), Granted(c);
    var waiting := Sender(SenderPc.Waiting, 0, 0, 0);
    var s1 := s0.(snd := waiting, data := [Request]);
    var s2 := System(waiting, s5.rcv.(pc := ReceiverPc.Sending), [], []);
    var s3 := System(waiting, s5.rcv.(pc := ReceiverPc.Flushing), [], [Ack(0)]);
    var s4 := System(waiting, s5.rcv, [], [Ack(0)]);
    assert Goes(c, s0, SndSend, s1);
    assert Goes(c, s1, RcvReceive(0, false), s2);
    assert Goes(c, s2, RcvAdvance, s3);
    assert Goes(c, s3, RcvAdvance, s4);
    assert Goes(c, s4, SndReceive(0), s5);
    return [s0, s1, s2, s3, s4, s5], [SndSend, RcvReceive(0, false), RcvAdvance, RcvAdvance, SndReceive(0)];
  }

  /** Of several blocks the first is acknowledged before it is flushed. */
  lemma {:induction false} FirstAckAhead(c: Config) returns (ss: seq<System>, ts: seq<Step>)
    requires c.Valid() && c.kind.ServerUpload? && 2 <= |c.blocks|
    ensures Trace(c, ss, ts) && ss[0] == Granted(c)
    ensures Ahead(ss[|ts|])
  {
    var s0 := Granted(c);
    var (snd, out) := SenderSend(c, s0.snd);
    assert out[0] == DataAt(c, 1);
    var s1 := s0.(snd := snd, data := out);
    var r := Receiver(ReceiverPc.Sending, 2, 0, Ack(1), [c.blocks[0]], 0, false);
    var s2 := s1.(rcv := r, data := out[1..]);
    var s3 := s2.(rcv := r.(pc := ReceiverPc.Flushing), acks := [Ack(1)]);
    assert [] + out == out && [] + [c.blocks[0]] == [c.blocks[0]];
    assert Goes(c, s0, SndSend, s1);
    assert Goes(c, s1, RcvReceive(0, false), s2);
    assert Goes(c, s2, RcvAdvance, s3);
    assert s3.acks[0] == Ack(1);
    return [s0, s1, s2, s3], [SndSend, RcvReceive(0, false), RcvAdvance];
  }

  lemma {:induction false} TakenIsAhead(c: Config)
    requires 1 <= |c.blocks|
    ensures Ahead(Taken(c, 1))
  {
    assert Taken(c, 1).acks[0] == Ack(1);
  }

  lemma {:induction false} DownloadAckAhead(c: Config) returns (steps: seq<Step>)
    requires c.Valid() && c.kind.ClientDownload?
    ensures AckAhead(c, steps)
  {
    var ss;
    ss, steps := ReachTaken(c, 1);
    RunTo(c, ss, steps);
    TakenIsAhead(c);
  }

  lemma {:induction false} UploadAckAhead(c: Config) returns (steps: seq<Step>)
    requires c.Valid() && c.kind.ServerUpload? && 2 <= |c.blocks|
    ensures AckAhead(c, steps)
  {
    var ss;
    ss, steps := ReachGranted(c);
    var s1, t1 := FirstAckAhead(c);
    ss, steps := Follow(c, ss, steps, s1, t1);
    RunTo(c, ss, steps);
  }

  lemma {:induction false} AckedIsFlushed(c: Config, s: System)
    requires c.Valid() && Inv(c, s) && AcksCovered(c, s) && AckAt(c, |s.rcv.accepted|) in s.acks
    requires c.kind.CppUpload? || (c.kind.ServerUpload? && |c.blocks| == 1)
    ensures s.rcv.flushed == |s.rcv.accepted|
  {
  }

  lemma {:induction false} NeverAhead(c: Config, steps: seq<Step>)
    requires c.Valid() && InRange(c) && !c.kind.ClientDownload? && !(c.kind.ServerUpload? && 2 <= |c.blocks|)
    ensures !AckAhead(c, steps)
  {
    if Run(c, steps).Some? {
      ReachableCovered(c, steps);
      var s := Run(c, steps).value;
      if AckAt(c, |s.rcv.accepted|) in s.acks {
        AckedIsFlushed(c, s);
      }
    }
  }

  /** The C receivers acknowledge first and then write, except the last block of an upload; the C++ one writes first. */
  lemma {:induction false} AckRunsAheadIff(c: Config)
    requires c.Valid() && InRange(c)
    ensures (exists steps :: AckAhead(c, steps)) <==>
            c.kind.ClientDownload? || (c.kind.ServerUpload? && 2 <= |c.blocks|)
  {
    if c.kind.ClientDownload? {
      var steps := DownloadAckAhead(c);
    } else if c.kind.ServerUpload? && 2 <= |c.blocks| {
      var steps := UploadAckAhead(c);
    } else {
      forall steps ensures !AckAhead(c, steps) {
        NeverAhead(c, steps);
      }
    }
  }
}
