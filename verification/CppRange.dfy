/**
 * When the C++ receiver's single-pass check is enough: a block that is neither the awaited one
 * nor the one before it is written all the same, and this can happen exactly when block numbers wrap.
 */
module CppRange {
  import opened Common
  import opened Machines
  import opened Fifo

  /** After this schedule a stale block is about to be written. */
  ghost predicate AboutToFallThrough(c: Config, steps: seq<Step>) {
    && Run(c, steps).Some?
    && var s := Run(c, steps).value;
       s.data != [] && FallsThrough(c, s.rcv, s.data[0])
  }

  lemma {:induction false} NextIsExpected(c: Config, s: System)
    requires c.Valid() && InRange(c) && Inv(c, s) && s.data != []
    ensures !FallsThrough(c, s.rcv, s.data[0])
  {
  }

  /** In range, every DATA packet that reaches the waiting receiver is the awaited block or the one before. */
  lemma {:induction false} InRangeNeverFallsThrough(c: Config, steps: seq<Step>)
    requires c.Valid() && InRange(c)
    ensures !AboutToFallThrough(c, steps)
    ensures Run(c, steps).Some? ==> AcksWhole(Run(c, steps).value)
  {
    if Run(c, steps).Some? {
      var s := Run(c, steps).value;
      Reachable(c, steps);
      ReachableAcksWhole(c, steps);
      if s.data != [] {
        NextIsExpected(c, s);
      }
    }
  }

  ghost predicate AcksWhole(s: System) {
    s.rcv.ack != OackHead && OackHead !in s.acks
  }

  lemma {:induction false} StepKeepsAcksWhole(c: Config, s: System, t: Step)
    requires c.Valid() && InRange(c) && Inv(c, s) && AcksWhole(s) && Enabled(c, s, t)
    ensures AcksWhole(Next(c, s, t))
  {
  }

  /** The four-byte resend of an OACK never happens: no block 0 follows the request. */
  lemma {:induction false} ReachableAcksWhole(c: Config, steps: seq<Step>)
    requires c.Valid() && InRange(c) && Run(c, steps).Some?
    ensures AcksWhole(Run(c, steps).value)
  {
    if steps == [] {
    } else {
      var before := steps[..|steps| - 1];
      Reachable(c, before);
      ReachableAcksWhole(c, before);
      StepKeepsAcksWhole(c, Run(c, before).value, steps[|steps| - 1]);
    }
  }

  // ------------------------------------------------ schedules without loss

  /** Waiting for block n + 1, with these segments in the file. */
  function Awaiting(c: Config, n: nat, segments: seq<seq<byte>>): Receiver {
    Receiver(ReceiverPc.Waiting, ToU16(n + 1), c.rexmt, AckAt(c, n), segments, |segments|, false)
  }

  /** Block n has been acknowledged, and nothing else is in flight. */
  function QuietWith(c: Config, n: nat, segments: seq<seq<byte>>): System {
    System(Sender(SenderPc.Waiting, n, ToU16(n), 0), Awaiting(c, n, segments), [], [AckAt(c, n)])
  }

  function Quiet(c: Config, n: nat): System
    requires n < |c.blocks|
  {
    QuietWith(c, n, c.blocks[..n])
  }

  /** Block n has been sent, and one copy of it is in flight behind other packets. */
  function Offered(c: Config, n: nat, segments: seq<seq<byte>>, ahead: seq<Packet>): System
    requires 1 <= n <= |c.blocks|
  {
    System(Sender(SenderPc.Waiting, n, ToU16(n), 0), Awaiting(c, n - 1, segments), ahead + [DataAt(c, n)], [])
  }

  lemma {:induction false} FullBlock(c: Config, n: nat)
    requires c.Valid() && 0 < n < |c.blocks|
    ensures |c.blocks[n - 1]| == c.seg
  {
  }

  /** Block n is about to be sent. */
  function Sending(c: Config, n: nat, segments: seq<seq<byte>>, ahead: seq<Packet>): System
    requires 1 <= n <= |c.blocks|
  {
    System(Sender(SenderPc.Sending, n, ToU16(n), 0), Awaiting(c, n - 1, segments), ahead, [])
  }

  /** The copies of block n, of which a debugging client makes three; all but the first are lost. */
  lemma {:induction false} SendCopies(c: Config, n: nat, segments: seq<seq<byte>>, ahead: seq<Packet>)
    returns (ss: seq<System>, ts: seq<Step>)
    requires 1 <= n <= |c.blocks|
    ensures Trace(c, ss, ts) && ss[0] == Sending(c, n, segments, ahead) && ss[|ts|] == Offered(c, n, segments, ahead)
  {
    var s1, s2 := Sending(c, n, segments, ahead), Offered(c, n, segments, ahead);
    var p, k := DataAt(c, n), |ahead|;
    if c.debug && ToU16(n) % 2 == 1 {
      var three, two := s2.(data := ahead + [p, p, p]), s2.(data := ahead + [p, p]);
      assert Goes(c, s1, SndSend, three);
      assert Remove(three.data, k + 2) == two.data && Remove(two.data, k + 1) == s2.data;
      assert Goes(c, three, DropData(k + 2), two);
      assert Goes(c, two, DropData(k + 1), s2);
      return [s1, three, two, s2], [SndSend, DropData(k + 2), DropData(k + 1)];
    } else {
      assert Goes(c, s1, SndSend, s2);
      return [s1, s2], [SndSend];
    }
  }

  lemma {:induction false} SendBlock(c: Config, n: nat, segments: seq<seq<byte>>, ahead: seq<Packet>)
    returns (ss: seq<System>, ts: seq<Step>)
    requires c.Valid() && c.kind.CppUpload? && 1 <= n <= |c.blocks|
    ensures Trace(c, ss, ts) && ss[0] == QuietWith(c, n - 1, segments).(data := ahead)
    ensures ss[|ts|] == Offered(c, n, segments, ahead)
  {
    U16Neighbours(n - 1);
    if 1 < n {
      FullBlock(c, n - 1);
    }
    var s0, s1 := QuietWith(c, n - 1, segments).(data := ahead), Sending(c, n, segments, ahead);
    assert Goes(c, s0, SndReceive(0), s1);
    ss, ts := SendCopies(c, n, segments, ahead);
    ss, ts := Follow(c, [s0, s1], [SndReceive(0)], ss, ts);
  }

  /** A full block at the head of the channel is taken and acknowledged as n, unless it bears the number before. */
  lemma {:induction false} AcceptBlock(c: Config, n: nat, s: System) returns (ss: seq<System>, ts: seq<Step>)
    requires c.Valid() && c.kind.CppUpload? && 1 <= n && s.rcv == Awaiting(c, n - 1, s.rcv.accepted)
    requires s.data != [] && s.data[0].Data? && |s.data[0].payload| == c.seg && s.data[0].block != ToU16(n) - 1
    ensures Trace(c, ss, ts) && ss[0] == s
    ensures ss[|ts|] == System(
              s.snd, Awaiting(c, n, s.rcv.accepted + [s.data[0].payload]), s.data[1..], s.acks + [AckAt(c, n)])
  {
    U16Neighbours(n);
    var segments := s.rcv.accepted + [s.data[0].payload];
    var s3 := System(s.snd, Awaiting(c, n, segments), s.data[1..], s.acks + [AckAt(c, n)]);
    var s1 := s3.(rcv := s3.rcv.(pc := ReceiverPc.Flushing, flushed := |segments| - 1), acks := s.acks);
    var s2 := s3.(rcv := s3.rcv.(pc := ReceiverPc.Sending), acks := s.acks);
    assert Goes(c, s, RcvReceive(0, false), s1);
    assert Goes(c, s1, RcvAdvance, s2);
    assert Goes(c, s2, RcvAdvance, s3);
    return [s, s1, s2, s3], [RcvReceive(0, false), RcvAdvance, RcvAdvance];
  }

  lemma {:induction false} Handshake(c: Config) returns (ss: seq<System>, ts: seq<Step>)
    requires c.Valid() && c.kind.CppUpload?
    ensures Trace(c, ss, ts) && ss[0] == Init(c) && ss[|ts|] == Quiet(c, 0)
  {
    var s0, s4 := Init(c), Quiet(c, 0);
    var r := s4.rcv;
    var s1 := s0.(snd := s4.snd, data := [Request]);
    var s2 := s4.(rcv := r.(pc := ReceiverPc.Flushing), acks := []);
    var s3 := s4.(rcv := r.(pc := ReceiverPc.Sending), acks := []);
    assert Goes(c, s0, SndSend, s1);
    assert Goes(c, s1, RcvReceive(0, false), s2);
    assert Goes(c, s2, RcvAdvance, s3);
    assert Goes(c, s3, RcvAdvance, s4);
    return [s0, s1, s2, s3, s4], [SndSend, RcvReceive(0, false), RcvAdvance, RcvAdvance];
  }

  /** Block n is accepted while `rest` is queued behind it. */
  lemma {:induction false} TakeOffered(c: Config, n: nat, rest: seq<Packet>) returns (ss: seq<System>, ts: seq<Step>)
    requires c.Valid() && c.kind.CppUpload? && 1 <= n < |c.blocks|
    ensures Trace(c, ss, ts) && ss[|ts|] == Quiet(c, n).(data := rest)
    ensures ss[0] == Offered(c, n, c.blocks[..n - 1], []).(data := [DataAt(c, n)] + rest)
  {
    FullBlock(c, n);
    assert c.blocks[..n - 1] + [c.blocks[n - 1]] == c.blocks[..n];
    var s := Offered(c, n, c.blocks[..n - 1], []).(data := [DataAt(c, n)] + rest);
    assert s.data[1..] == rest && s.acks + [AckAt(c, n)] == [AckAt(c, n)];
    ss, ts := AcceptBlock(c, n, s);
  }

  lemma {:induction false} ReachQuiet(c: Config, n: nat) returns (ss: seq<System>, ts: seq<Step>)
    requires c.Valid() && c.kind.CppUpload? && n < |c.blocks|
    ensures Trace(c, ss, ts) && ss[0] == Init(c) && ss[|ts|] == Quiet(c, n)
  {
    if n == 0 {
      ss, ts := Handshake(c);
    } else {
      ss, ts := ReachQuiet(c, n - 1);
      var s1, t1 := SendBlock(c, n, c.blocks[..n - 1], []);
      ss, ts := Follow(c, ss, ts, s1, t1);
      assert [] + [DataAt(c, n)] == [DataAt(c, n)] + [];
      var s2, t2 := TakeOffered(c, n, []);
      ss, ts := Follow(c, ss, ts, s2, t2);
    }
  }

  /** Block 65535 has been accepted, and one more copy of it is in flight. */
  function WrappedDuplicate(c: Config): System
    requires 0x1_0000 <= |c.blocks|
  {
    Quiet(c, 0xFFFF).(data := [DataAt(c, 0xFFFF)])
  }

  lemma {:induction false} ReachWrappedDuplicate(c: Config) returns (ss: seq<System>, ts: seq<Step>)
    requires c.Valid() && c.kind.CppUpload? && 0x1_0000 <= |c.blocks|
    ensures Trace(c, ss, ts) && ss[0] == Init(c) && ss[|ts|] == WrappedDuplicate(c)
  {
    var n: nat := 0xFFFF;
    var one, p := Offered(c, n, c.blocks[..n - 1], []), DataAt(c, n);
    var two := one.(data := [p] + [p]);
    ss, ts := ReachQuiet(c, n - 1);
    var s1, t1 := SendBlock(c, n, c.blocks[..n - 1], []);
    ss, ts := Follow(c, ss, ts, s1, t1);
    assert Goes(c, one, DupData(0), two);
    ss, ts := Follow(c, ss, ts, [one, two], [DupData(0)]);
    var s2, t2 := TakeOffered(c, n, [p]);
    ss, ts := Follow(c, ss, ts, s2, t2);
  }

  /** Block 65536 is awaited as 0, so 65535 is neither it nor, the difference being an int, the one before. */
  lemma {:induction false} DuplicateIsWritten(c: Config)
    requires c.Valid() && c.kind.CppUpload? && 0x1_0000 <= |c.blocks|
    ensures var s := WrappedDuplicate(c);
            && FallsThrough(c, s.rcv, s.data[0])
            && Enabled(c, s, RcvReceive(0, false))
            && Next(c, s, RcvReceive(0, false)).rcv.accepted == c.blocks[..0xFFFF] + [c.blocks[0xFFFE]]
  {
  }

  /** One duplicate of block 65535, delivered after the receiver has wrapped to 0, is written as block 65536. */
  lemma {:induction false} WrappedDuplicateIsWritten(c: Config) returns (steps: seq<Step>)
    requires c.Valid() && c.kind.CppUpload? && 0x1_0000 <= |c.blocks|
    ensures AboutToFallThrough(c, steps)
    ensures Enabled(c, Run(c, steps).value, RcvReceive(0, false))
    ensures Next(c, Run(c, steps).value, RcvReceive(0, false)).rcv.accepted == c.blocks[..0xFFFF] + [c.blocks[0xFFFE]]
  {
    var ss, ts := ReachWrappedDuplicate(c);
    Prolong(c, [], ss, ts);
    assert [] + ts == ts;
    steps := ts;
    DuplicateIsWritten(c);
  }

  /** The C++ receiver is safe from stale writes in every run exactly when the upload has at most 65535 blocks. */
  lemma {:induction false} FallThroughIffWrap(c: Config)
    requires c.Valid() && c.kind.CppUpload?
    ensures (exists steps :: AboutToFallThrough(c, steps)) <==> 0x1_0000 <= |c.blocks|
  {
    if 0x1_0000 <= |c.blocks| {
      var steps := WrappedDuplicateIsWritten(c);
    } else {
      forall steps ensures !AboutToFallThrough(c, steps) {
        InRangeNeverFallsThrough(c, steps);
      }
    }
  }
}
