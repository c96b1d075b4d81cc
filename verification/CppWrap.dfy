/**
 * Uploads to the C++ server whose block numbers wrap: what its fall-through can do to the file, and that
 * it does so in some run of every such upload.
 */
module CppWrap {
  import opened Common
  import opened Machines
  import opened Fifo
  import opened CppRange
  import Scripts
  import Delivery
  import CppReceiver
  import CppUpload
  import EndToEnd

  // ------------------------------------------------ one stale copy is enough

  /** One copy of block 65535 that stays in flight. */
  function Stale(c: Config): Packet
    requires 0x1_0000 <= |c.blocks|
  {
    DataAt(c, 0xFFFF)
  }

  /** What the server has taken for the first n blocks: from block 65536 on, always block 65535. */
  function Taken(c: Config, n: nat): seq<seq<byte>>
    requires 0xFFFF <= n && 0x1_0000 <= |c.blocks|
  {
    if n == 0xFFFF then c.blocks[..0xFFFF] else Taken(c, n - 1) + [c.blocks[0xFFFE]]
  }

  lemma {:induction false} TakenLength(c: Config, n: nat)
    requires 0xFFFF <= n && 0x1_0000 <= |c.blocks|
    ensures |Taken(c, n)| == n
  {
    if n == 0xFFFF {
    } else {
      TakenLength(c, n - 1);
    }
  }

  function Stuck(c: Config, n: nat): System
    requires 0xFFFF <= n && 0x1_0000 <= |c.blocks|
  {
    QuietWith(c, n, Taken(c, n)).(data := [Stale(c)])
  }

  /** Whatever number from 65536 on is awaited, the stale block is taken for it. */
  lemma {:induction false} TakeStale(c: Config, n: nat, s: System) returns (ss: seq<System>, ts: seq<Step>)
    requires c.Valid() && c.kind.CppUpload? && 0xFFFF < n && 0x1_0000 <= |c.blocks|
    requires s.rcv == Awaiting(c, n - 1, Taken(c, n - 1)) && s.data != [] && s.data[0] == Stale(c)
    ensures Trace(c, ss, ts) && ss[0] == s
    ensures ss[|ts|] == System(s.snd, Awaiting(c, n, Taken(c, n)), s.data, s.acks + [AckAt(c, n)])
  {
    FullBlock(c, 0xFFFF);
    var two := s.(data := Duplicate(s.data, 0));
    assert two.data[1..] == s.data;
    assert Goes(c, s, DupData(0), two);
    ss, ts := AcceptBlock(c, n, two);
    ss, ts := Follow(c, [s, two], [DupData(0)], ss, ts);
  }

  lemma {:induction false} ReachOffer(c: Config, n: nat) returns (ss: seq<System>, ts: seq<Step>)
    requires c.Valid() && c.kind.CppUpload? && 0xFFFF < n <= |c.blocks|
    ensures Trace(c, ss, ts) && ss[0] == Init(c) && ss[|ts|] == Offered(c, n, Taken(c, n - 1), [Stale(c)])
    decreases n, 0
  {
    ss, ts := ReachStuck(c, n - 1);
    var s1, t1 := SendBlock(c, n, Taken(c, n - 1), [Stale(c)]);
    ss, ts := Follow(c, ss, ts, s1, t1);
  }

  /** The client sends block n, which is lost; the stale one is taken and acknowledged in its place. */
  lemma {:induction false} ReachStuck(c: Config, n: nat) returns (ss: seq<System>, ts: seq<Step>)
    requires c.Valid() && c.kind.CppUpload? && 0xFFFF <= n <= |c.blocks| && 0x1_0000 <= |c.blocks|
    ensures Trace(c, ss, ts) && ss[0] == Init(c) && ss[|ts|] == Stuck(c, n)
    decreases n, 1
  {
    if n == 0xFFFF {
      ss, ts := ReachWrappedDuplicate(c);
    } else {
      var offered := Offered(c, n, Taken(c, n - 1), [Stale(c)]);
      var lost := offered.(data := [Stale(c)]);
      ss, ts := ReachOffer(c, n);
      assert Goes(c, offered, DropData(1), lost);
      ss, ts := Follow(c, ss, ts, [offered, lost], [DropData(1)]);
      var s1, t1 := TakeStale(c, n, lost);
      assert lost.acks + [AckAt(c, n)] == [AckAt(c, n)];
      ss, ts := Follow(c, ss, ts, s1, t1);
    }
  }

  // ------------------------------------------------ what can go wrong

  /** The server has taken something that is not the beginning of the upload. */
  ghost predicate Corrupts(c: Config, steps: seq<Step>) {
    Run(c, steps).Some? && !(Run(c, steps).value.rcv.accepted <= c.blocks)
  }

  /** The client has finished, and the server has published nothing even when it has done all that is left to do. */
  ghost predicate FinishedInVain(c: Config, steps: seq<Step>) {
    && Run(c, steps).Some?
    && Run(c, steps).value.snd.pc.Finished? && !Scripts.Settle(c, Run(c, steps).value.rcv).0.published
  }

  /** The server has published something else than the stream. */
  ghost predicate PublishesOther(c: Config, stream: seq<byte>, steps: seq<Step>) {
    && Run(c, steps).Some?
    && var r := Run(c, steps).value.rcv;
       r.published && r.flushed == |r.accepted| && Written(r) != stream
  }

  lemma {:induction false} NotTheBeginning(c: Config, n: nat)
    requires c.Valid() && 0x1_0000 <= n == |c.blocks|
    ensures !(Taken(c, n) <= c.blocks)
  {
    TakenLength(c, n);
    TakenLength(c, n - 1);
    FullBlock(c, 0xFFFF);
    assert Taken(c, n)[n - 1] != c.blocks[n - 1];
  }

  lemma {:induction false} StuckIsCorrupt(c: Config) returns (steps: seq<Step>)
    requires c.Valid() && c.kind.CppUpload? && 0x1_0000 <= |c.blocks|
    ensures Corrupts(c, steps)
  {
    var ss;
    ss, steps := ReachStuck(c, |c.blocks|);
    RunTo(c, ss, steps);
    NotTheBeginning(c, |c.blocks|);
  }

  /** Then the client gets the acknowledgement of a last block that was never taken. */
  function Fooled(c: Config): System
    requires 0x1_0000 <= |c.blocks|
  {
    var s := Stuck(c, |c.blocks|);
    s.(snd := s.snd.(pc := SenderPc.Finished), acks := [])
  }

  lemma {:induction false} HearsLast(c: Config)
    requires c.Valid() && c.kind.CppUpload? && 0x1_0000 <= |c.blocks|
    ensures Goes(c, Stuck(c, |c.blocks|), SndReceive(0), Fooled(c))
  {
  }

  lemma {:induction false} NothingLeft(c: Config)
    requires 0x1_0000 <= |c.blocks|
    ensures Scripts.Settle(c, Fooled(c).rcv).0 == Fooled(c).rcv
  {
  }

  lemma {:induction false} FinishInVain(c: Config) returns (steps: seq<Step>)
    requires c.Valid() && c.kind.CppUpload? && 0x1_0000 <= |c.blocks|
    ensures FinishedInVain(c, steps)
  {
    var ss;
    ss, steps := ReachStuck(c, |c.blocks|);
    HearsLast(c);
    NothingLeft(c);
    ss, steps := Follow(c, ss, steps, [Stuck(c, |c.blocks|), Fooled(c)], [SndReceive(0)]);
    RunTo(c, ss, steps);
  }

  /** Two stale blocks more, and the last one falls through behind them. */
  lemma {:induction false} TakeTwo(c: Config) returns (ss: seq<System>, ts: seq<Step>)
    requires c.Valid() && c.kind.CppUpload? && 0x1_0000 <= |c.blocks|
    ensures var n := |c.blocks|;
            && Trace(c, ss, ts) && ss[0] == Init(c)
            && ss[|ts|] == Offered(c, n, Taken(c, n - 1), [Stale(c)]).(
                 rcv := Awaiting(c, n + 1, Taken(c, n + 1)), acks := [AckAt(c, n), AckAt(c, n + 1)])
  {
    var n := |c.blocks|;
    ss, ts := ReachOffer(c, n);
    var s0 := ss[|ts|];
    var s1, t1 := TakeStale(c, n, s0);
    ss, ts := Follow(c, ss, ts, s1, t1);
    var s2, t2 := TakeStale(c, n + 1, s1[|t1|]);
    ss, ts := Follow(c, ss, ts, s2, t2);
    assert s0.acks + [AckAt(c, n)] + [AckAt(c, n + 1)] == [AckAt(c, n), AckAt(c, n + 1)];
  }

  lemma {:induction false} LastFallsThrough(n: nat)
    ensures ToU16(n) != ToU16(n + 2) && ToU16(n) != ToU16(n + 2) - 1
  {
  }

  /** A block that is neither awaited nor the one before, but short, is the last one for the server. */
  lemma {:induction false} TakeLast(c: Config, n: nat, s: System) returns (ss: seq<System>, ts: seq<Step>)
    requires c.Valid() && c.kind.CppUpload? && s.rcv == Awaiting(c, n + 1, s.rcv.accepted)
    requires 0x1_0000 <= n == |c.blocks| && s.data == [Stale(c), DataAt(c, n)]
    ensures Trace(c, ss, ts) && ss[0] == s
    ensures var r := ss[|ts|].rcv;
            r.published && r.accepted == s.rcv.accepted + [c.blocks[n - 1]] && r.flushed == |r.accepted|
  {
    var s1 := s.(data := [DataAt(c, n)]);
    assert Remove(s.data, 0) == s1.data;
    assert Goes(c, s, DropData(0), s1);
    var s2 := s1.(rcv := Accept(c, s1.rcv, c.blocks[n - 1]), data := []);
    LastFallsThrough(n);
    assert Goes(c, s1, RcvReceive(0, false), s2);
    var s3 := s2.(rcv := ReceiverAdvance(c, s2.rcv).0);
    assert Goes(c, s2, RcvAdvance, s3);
    return [s, s1, s2, s3], [DropData(0), RcvReceive(0, false), RcvAdvance];
  }

  lemma {:induction false} PublishOverlong(c: Config) returns (steps: seq<Step>)
    requires c.Valid() && c.kind.CppUpload? && 0x1_0000 <= |c.blocks|
    ensures Run(c, steps).Some?
    ensures var r, n := Run(c, steps).value.rcv, |c.blocks|;
            r.published && r.accepted == Taken(c, n + 1) + [c.blocks[n - 1]] && r.flushed == |r.accepted|
  {
    var n := |c.blocks|;
    var ss, ts := TakeTwo(c);
    assert ss[|ts|].data == [Stale(c), DataAt(c, n)];
    var s1, t1 := TakeLast(c, n, ss[|ts|]);
    ss, steps := Follow(c, ss, ts, s1, t1);
    RunTo(c, ss, steps);
  }

  lemma {:induction false} TakenFull(c: Config, n: nat)
    requires c.Valid() && 0xFFFF <= n && 0x1_0000 <= |c.blocks|
    ensures forall i :: 0 <= i < |Taken(c, n)| ==> |Taken(c, n)[i]| == c.seg
  {
    if n == 0xFFFF {
    } else {
      TakenFull(c, n - 1);
      FullBlock(c, 0xFFFF);
    }
  }

  /** The published file has two blocks too many, so it is not the stream: the cut of a stream is unique. */
  lemma {:induction false} PublishOther(c: Config, stream: seq<byte>) returns (steps: seq<Step>)
    requires c.Valid() && c.kind.CppUpload? && 0x1_0000 <= |c.blocks| && c.blocks == Cut(stream, c.seg)
    ensures PublishesOther(c, stream, steps)
  {
    var n := |c.blocks|;
    steps := PublishOverlong(c);
    var r := Run(c, steps).value.rcv;
    TakenLength(c, n + 1);
    TakenFull(c, n + 1);
    assert r.accepted[..|r.accepted|] == r.accepted;
    assert WellCut(r.accepted, c.seg);
    CutIsUnique(r.accepted, c.seg);
  }

  // ------------------------------------------------ the exact limit

  /** Some run makes the server take something else than the upload exactly from 65536 blocks on. */
  lemma {:induction false} CorruptsIffWrap(c: Config)
    requires c.Valid() && c.kind.CppUpload?
    ensures (exists steps :: Corrupts(c, steps)) <==> 0x1_0000 <= |c.blocks|
  {
    if 0x1_0000 <= |c.blocks| {
      var steps := StuckIsCorrupt(c);
    } else {
      forall steps ensures !Corrupts(c, steps) {
        if Run(c, steps).Some? {
          Reachable(c, steps);
        }
      }
    }
  }

  /** So does a client finish in some run whose upload is never published. */
  lemma {:induction false} FinishedInVainIffWrap(c: Config, stream: seq<byte>)
    requires c.Valid() && c.kind.CppUpload? && c.blocks == Cut(stream, c.seg)
    ensures (exists steps :: FinishedInVain(c, steps)) <==> 0x1_0000 <= |c.blocks|
  {
    if 0x1_0000 <= |c.blocks| {
      var steps := FinishInVain(c);
    } else {
      forall steps ensures !FinishedInVain(c, steps) {
        if Run(c, steps).Some? {
          Reachable(c, steps);
          CppUpload.Published(c, Run(c, steps).value.rcv, stream);
        }
      }
    }
  }

  /** And so is something else than the stream published in some run. */
  lemma {:induction false} PublishesOtherIffWrap(c: Config, stream: seq<byte>)
    requires c.Valid() && c.kind.CppUpload? && c.blocks == Cut(stream, c.seg)
    ensures (exists steps :: PublishesOther(c, stream, steps)) <==> 0x1_0000 <= |c.blocks|
  {
    if 0x1_0000 <= |c.blocks| {
      var steps := PublishOther(c, stream);
    } else {
      forall steps ensures !PublishesOther(c, stream, steps) {
        if Run(c, steps).Some? {
          Delivery.FifoDelivery(c, stream, steps);
        }
      }
    }
  }

  /** Behind the client's back the server can take the stale block once more. */
  lemma {:induction false} TakesMore(c: Config)
    requires c.Valid() && c.kind.CppUpload? && 0x1_0000 <= |c.blocks|
    ensures var s, t := Fooled(c), RcvReceive(0, false);
            && Enabled(c, s, t) && Next(c, s, t).snd.pc.Finished?
            && Next(c, s, t).rcv.flushed < |Next(c, s, t).rcv.accepted|
  {
    FullBlock(c, 0xFFFF);
  }

  lemma {:induction false} FinishUnflushed(c: Config) returns (steps: seq<Step>)
    requires c.Valid() && c.kind.CppUpload? && 0x1_0000 <= |c.blocks|
    ensures Delivery.FinishesUnflushed(c, steps)
  {
    var ss;
    ss, steps := ReachStuck(c, |c.blocks|);
    HearsLast(c);
    TakesMore(c);
    var s, t := Fooled(c), RcvReceive(0, false);
    ss, steps := Follow(c, ss, steps, [Stuck(c, |c.blocks|), s], [SndReceive(0)]);
    assert Goes(c, s, t, Next(c, s, t));
    ss, steps := Follow(c, ss, steps, [s, Next(c, s, t)], [t]);
    RunTo(c, ss, steps);
  }

  /** A sender can finish before everything accepted is flushed in every download, and in uploads that wrap. */
  lemma {:induction false} FinishesUnflushedIff(c: Config)
    requires c.Valid()
    ensures (exists steps :: Delivery.FinishesUnflushed(c, steps)) <==>
            c.kind.ClientDownload? || (c.kind.CppUpload? && 0x1_0000 <= |c.blocks|)
  {
    if InRange(c) {
      Delivery.FinishesUnflushedIffDownload(c);
    } else {
      var steps := FinishUnflushed(c);
    }
  }

  // ------------------------------------------------ the server itself

  /** Nothing is left to be written, so a server that has gone through its part of such a run is where the run says. */
  lemma {:induction false} SettledFlushed(c: Config, r: Machines.Receiver)
    requires c.kind.CppUpload? && r.flushed == |r.accepted|
    ensures var q := Scripts.Settle(c, r).0;
            && q.accepted == r.accepted && q.flushed == r.flushed && (r.published ==> q.published)
  {
    CppReceiver.SettleAck(c, r);
  }

  /** The handlers do publish it: the file that such a server leaves behind is not the client's. */
  lemma {:induction false} ServerPublishesOther(
      c: Config, stream: seq<byte>, steps: seq<Step>, server: CppReceiver.Receiver)
    requires c.kind.CppUpload? && PublishesOther(c, stream, steps) && !Run(c, steps).value.rcv.pc.Listening?
    requires server.upload != null && CppUpload.Serves(c, EndToEnd.ReceiverView(c, steps), server)
    ensures server.published && server.upload.content != stream
  {
    EndToEnd.ReceiverFollowsView(c, steps);
    SettledFlushed(c, Run(c, steps).value.rcv);
  }

  /** Nor do they publish anything for a client that has finished in vain. */
  lemma {:induction false} ServerPublishesNothing(c: Config, steps: seq<Step>, server: CppReceiver.Receiver)
    requires c.kind.CppUpload? && FinishedInVain(c, steps) && !Run(c, steps).value.rcv.pc.Listening?
    requires server.upload != null && CppUpload.Serves(c, EndToEnd.ReceiverView(c, steps), server)
    ensures !server.published
  {
    EndToEnd.ReceiverFollowsView(c, steps);
  }
}
