/**
 * The parties over a network that may lose, duplicate and reorder without bound:
 * any packet ever sent may be delivered at any time, any number of times.
 */
module Reordering {
  import opened Common
  import opened Machines
  import Fifo
  import Delivery

  datatype System = System(snd: Sender, rcv: Receiver, data: set<Packet>, acks: set<Packet>)

  datatype Step =
    | SndSend | SndTimeout | SndReceive(p: Packet)
    | RcvAdvance | RcvTimeout | RcvReceive(p: Packet, resend: bool)

  function Init(c: Config): System {
    System(SenderInit(c), ReceiverInit(c), {}, {})
  }

  function Elements(out: seq<Packet>): set<Packet> {
    set p | p in out
  }

  lemma {:induction false} ElementsOne(p: Packet)
    ensures Elements([p]) == {p}
  {
  }

  predicate Enabled(c: Config, s: System, t: Step) {
    match t
    case SndSend => s.snd.pc.Sending? && s.snd.count <= |c.blocks|
    case SndTimeout => s.snd.pc.Waiting?
    case SndReceive(p) =>
      p in s.acks && s.snd.count <= |c.blocks| && (if p.Request? then s.snd.pc.Listening? else s.snd.pc.Waiting?)
    case RcvAdvance => s.rcv.pc.Sending? || s.rcv.pc.Flushing? || s.rcv.pc.FinalFlush? || s.rcv.pc.FinalAck?
    case RcvTimeout => s.rcv.pc.Waiting? || s.rcv.pc.Dallying?
    case RcvReceive(p, resend) =>
      && p in s.data
      && (if p.Request? then s.rcv.pc.Listening? else s.rcv.pc.Waiting? || s.rcv.pc.Dallying?)
      && (resend ==> s.rcv.pc.Dallying?)
  }

  function Next(c: Config, s: System, t: Step): System
    requires Enabled(c, s, t)
  {
    match t
    case SndSend => var (snd, out) := SenderSend(c, s.snd); s.(snd := snd, data := s.data + Elements(out))
    case SndTimeout => s.(snd := SenderTimeout(c, s.snd))
    case SndReceive(p) => s.(snd := SenderReceive(c, s.snd, p))
    case RcvAdvance => var (rcv, out) := ReceiverAdvance(c, s.rcv); s.(rcv := rcv, acks := s.acks + Elements(out))
    case RcvTimeout =>
      if s.rcv.pc.Dallying? then s.(rcv := s.rcv.(pc := ReceiverPc.Finished)) else s.(rcv := ReceiverTimeout(c, s.rcv))
    case RcvReceive(p, resend) =>
      if s.rcv.pc.Dallying? then
        s.(rcv := s.rcv.(pc := ReceiverPc.Finished), acks := if resend then s.acks + {s.rcv.ack} else s.acks)
      else
        s.(rcv := ReceiverReceive(c, s.rcv, p))
  }

  function Run(c: Config, steps: seq<Step>): Option<System> {
    if steps == [] then Some(Init(c))
    else
      var before := Run(c, steps[..|steps| - 1]);
      var t := steps[|steps| - 1];
      if before.Some? && Enabled(c, before.value, t) then Some(Next(c, before.value, t)) else None
  }

  // ---------------------------------------------------------- prefix safety

  /** Blocks whose numbers coincide modulo 65536 are equal; every file of at most 65536 blocks is like this. */
  ghost predicate WrapSafe(c: Config) {
    forall m: nat, n: nat {:trigger ToU16(m), ToU16(n)} ::
      1 <= m < n <= |c.blocks| && ToU16(m) == ToU16(n) ==> c.blocks[m - 1] == c.blocks[n - 1]
  }

  ghost predicate IsBlock(c: Config, p: Packet, n: nat) {
    n <= |c.blocks| && p == Fifo.DataAt(c, n)
  }

  ghost predicate Inv(c: Config, s: System) {
    && Fifo.SenderOk(c, s.snd) && Fifo.ReceiverOk(c, s.rcv)
    && (forall p :: p in s.data ==> exists n :: IsBlock(c, p, n))
  }

  lemma {:induction false} ReceiveKeepsReceiver(c: Config, r: Receiver, n: nat)
    requires c.Valid() && !c.kind.CppUpload? && WrapSafe(c) && Fifo.ReceiverOk(c, r)
    requires r.pc.Waiting? && 1 <= n <= |c.blocks|
    ensures Fifo.ReceiverOk(c, ReceiverReceive(c, r, Fifo.DataAt(c, n)))
  {
    var expected := |r.accepted| + 1;
    if ToU16(n) == ToU16(expected) {
      assert c.blocks[n - 1] == c.blocks[expected - 1];
      Fifo.AwaitedBlock(c, r);
    }
  }

  lemma {:induction false} ReceiverStepKeepsInv(c: Config, s: System, p: Packet, resend: bool)
    requires c.Valid() && !c.kind.CppUpload? && WrapSafe(c) && Inv(c, s) && Enabled(c, s, RcvReceive(p, resend))
    ensures Inv(c, Next(c, s, RcvReceive(p, resend)))
  {
    if s.rcv.pc.Waiting? {
      var n :| IsBlock(c, p, n);
      ReceiveKeepsReceiver(c, s.rcv, n);
    }
  }

  lemma {:induction false} SenderStepKeepsInv(c: Config, s: System, p: Packet)
    requires c.Valid() && Inv(c, s) && Enabled(c, s, SndReceive(p))
    ensures Inv(c, Next(c, s, SndReceive(p)))
  {
    Fifo.U16Neighbours(s.snd.count);
  }

  lemma {:induction false} SendingKeepsInv(c: Config, s: System)
    requires Inv(c, s) && Enabled(c, s, SndSend)
    ensures Inv(c, Next(c, s, SndSend))
  {
    assert IsBlock(c, Outgoing(c, s.snd), s.snd.count);
  }

  lemma {:induction false} StepKeepsInv(c: Config, s: System, t: Step)
    requires c.Valid() && !c.kind.CppUpload? && WrapSafe(c) && Inv(c, s) && Enabled(c, s, t)
    ensures Inv(c, Next(c, s, t))
  {
    match t
    case SndSend => SendingKeepsInv(c, s);
    case SndReceive(p) => SenderStepKeepsInv(c, s, p);
    case RcvReceive(p, resend) => ReceiverStepKeepsInv(c, s, p, resend);
    case _ =>
  }

  lemma {:induction false} Reachable(c: Config, steps: seq<Step>)
    requires c.Valid() && !c.kind.CppUpload? && WrapSafe(c) && Run(c, steps).Some?
    ensures Inv(c, Run(c, steps).value)
  {
    if steps == [] {
    } else {
      Reachable(c, steps[..|steps| - 1]);
      StepKeepsInv(c, Run(c, steps[..|steps| - 1]).value, steps[|steps| - 1]);
    }
  }

  // -------------------------------------------------- the honest schedules

  function DataUpTo(c: Config, n: nat): set<Packet>
    requires n <= |c.blocks|
  {
    set i | (if c.kind.ClientDownload? then 1 else 0) <= i <= n :: Fifo.DataAt(c, i)
  }

  function AcksUpTo(c: Config, n: nat): set<Packet> {
    set i | 0 <= i <= n :: Fifo.AckAt(c, i)
  }

  /** Blocks 1..n have been accepted in order and acknowledged; every packet so far may come again. */
  function Quiet(c: Config, n: nat): System
    requires n < |c.blocks|
  {
    System(
      Sender(if n == 0 && c.kind.ClientDownload? then SenderPc.Listening else SenderPc.Waiting, n, ToU16(n), 0),
      Receiver(ReceiverPc.Waiting, ToU16(n + 1), if c.kind.CppUpload? then c.rexmt else 0, Fifo.AckAt(c, n),
               c.blocks[..n], n, false),
      DataUpTo(c, n), AcksUpTo(c, n))
  }

  predicate Goes(c: Config, s: System, t: Step, s': System) {
    Enabled(c, s, t) && Next(c, s, t) == s'
  }

  ghost predicate Trace(c: Config, ss: seq<System>, ts: seq<Step>) {
    && |ss| == |ts| + 1
    && forall i :: 0 <= i < |ts| ==> Goes(c, ss[i], ts[i], ss[i + 1])
  }

  lemma {:induction false} TraceIsRun(c: Config, ss: seq<System>, ts: seq<Step>)
    requires Trace(c, ss, ts) && ss[0] == Init(c)
    ensures Run(c, ts) == Some(ss[|ts|])
  {
    if ts == [] {
    } else {
      var k := |ts| - 1;
      TraceIsRun(c, ss[..|ss| - 1], ts[..k]);
      assert Goes(c, ss[k], ts[k], ss[k + 1]);
    }
  }

  lemma {:induction false} Snoc(c: Config, ss: seq<System>, ts: seq<Step>, t: Step, s: System)
    returns (ss': seq<System>, ts': seq<Step>)
    requires Trace(c, ss, ts) && Goes(c, ss[|ts|], t, s)
    ensures Trace(c, ss', ts') && ss'[0] == ss[0] && ss'[|ts'|] == s
  {
    ss', ts' := ss + [s], ts + [t];
    forall i | 0 <= i < |ts'| ensures Goes(c, ss'[i], ts'[i], ss'[i + 1]) {
      if i < |ts| { assert Goes(c, ss[i], ts[i], ss[i + 1]); }
    }
  }

  /** Starting from Quiet(n), the sender alone takes the acknowledgement p and sends block n + 1. */
  lemma {:induction false} SendNext(c: Config, s: System, p: Packet, n: nat) returns (s1: System, s2: System)
    requires c.Valid() && n < |c.blocks|
    requires s.snd == Quiet(c, n).snd && s.data == DataUpTo(c, n) && p in s.acks
    requires p == Fifo.AckAt(c, n) || (!s.snd.pc.Listening? && p == Ack(ToU16(n)))
    ensures Goes(c, s, SndReceive(p), s1) && Goes(c, s1, SndSend, s2)
    ensures s2 == s.(snd := Sender(SenderPc.Waiting, n + 1, ToU16(n + 1), 0), data := DataUpTo(c, n + 1))
  {
    Fifo.U16Neighbours(n);
    s1 := s.(snd := Sender(SenderPc.Sending, n + 1, ToU16(n + 1), 0));
    s2 := s.(snd := Sender(SenderPc.Waiting, n + 1, ToU16(n + 1), 0), data := DataUpTo(c, n + 1));
    var out := SenderSend(c, s1.snd).1;
    assert out[0] in out;
    assert Elements(out) == {Fifo.DataAt(c, n + 1)};
    assert s2.data == s.data + Elements(out) by {
      forall q ensures q in DataUpTo(c, n + 1) <==> q in DataUpTo(c, n) || q == Fifo.DataAt(c, n + 1) {
      }
    }
  }

  /** The receiver alone takes block n, acknowledges it and flushes it, in its own order, and waits again. */
  lemma {:induction false} ReceiveNext(c: Config, s: System, n: nat) returns (s1: System, s2: System, s3: System)
    requires c.Valid() && 1 <= n < |c.blocks|
    requires s.rcv == Quiet(c, n - 1).rcv && s.acks == AcksUpTo(c, n - 1) && Fifo.DataAt(c, n) in s.data
    ensures Goes(c, s, RcvReceive(Fifo.DataAt(c, n), false), s1)
    ensures Goes(c, s1, RcvAdvance, s2) && Goes(c, s2, RcvAdvance, s3)
    ensures s3 == s.(rcv := Quiet(c, n).rcv, acks := AcksUpTo(c, n))
  {
    Fifo.U16Neighbours(n);
    assert c.blocks[..n - 1] + [c.blocks[n - 1]] == c.blocks[..n];
    var r := Quiet(c, n).rcv;
    s1 := s.(rcv := r.(pc := AckingPc(c), flushed := n - 1));
    s2, s3 := AcknowledgeAndFlush(c, s1, n);
  }

  /** Both local operations behind an accepted block. */
  lemma {:induction false} AcknowledgeAndFlush(c: Config, s1: System, n: nat) returns (s2: System, s3: System)
    requires c.Valid() && n < |c.blocks|
    requires s1.acks == if n == 0 then {} else AcksUpTo(c, n - 1)
    requires s1.rcv == Quiet(c, n).rcv.(pc := AckingPc(c), flushed := if n == 0 then 0 else n - 1)
    ensures Goes(c, s1, RcvAdvance, s2) && Goes(c, s2, RcvAdvance, s3)
    ensures s3 == s1.(rcv := Quiet(c, n).rcv, acks := AcksUpTo(c, n))
  {
    var r := Quiet(c, n).rcv;
    ElementsOne(r.ack);
    assert AcksUpTo(c, n) == s1.acks + {Fifo.AckAt(c, n)} by {
      forall q ensures q in AcksUpTo(c, n) <==> q in s1.acks || q == Fifo.AckAt(c, n) {
      }
    }
    if c.kind.CppUpload? {
      assert s1.acks + Elements([]) == s1.acks;
      s2 := s1.(rcv := r.(pc := ReceiverPc.Sending));
    } else {
      s2 := s1.(rcv := s1.rcv.(pc := ReceiverPc.Flushing), acks := AcksUpTo(c, n));
      assert s2.acks + Elements([]) == s2.acks;
    }
    s3 := s1.(rcv := r, acks := AcksUpTo(c, n));
  }

  lemma {:induction false} Handshake(c: Config) returns (ss: seq<System>, ts: seq<Step>)
    requires c.Valid()
    ensures Trace(c, ss, ts) && ss[0] == Init(c) && ss[|ts|] == Quiet(c, 0)
  {
    var s0, q := Init(c), Quiet(c, 0);
    if c.kind.ClientDownload? {
      assert DataUpTo(c, 0) == {};
      var s1, s2 := AcknowledgeAndFlush(c, s0, 0);
      return [s0, s1, s2], [RcvAdvance, RcvAdvance];
    } else {
      assert SenderSend(c, s0.snd).1 == [Request];
      ElementsOne(Request);
      assert DataUpTo(c, 0) == {Fifo.DataAt(c, 0)};
      var s1 := s0.(snd := q.snd, data := {Request});
      var s2 := q.(rcv := q.rcv.(pc := AckingPc(c)), acks := {});
      assert Goes(c, s0, SndSend, s1) && Goes(c, s1, RcvReceive(Request, false), s2);
      var s3, s4 := AcknowledgeAndFlush(c, s2, 0);
      return [s0, s1, s2, s3, s4], [SndSend, RcvReceive(Request, false), RcvAdvance, RcvAdvance];
    }
  }

  lemma {:induction false} ReachQuiet(c: Config, n: nat) returns (ss: seq<System>, ts: seq<Step>)
    requires c.Valid() && n < |c.blocks|
    ensures Trace(c, ss, ts) && ss[0] == Init(c) && ss[|ts|] == Quiet(c, n)
  {
    if n == 0 {
      ss, ts := Handshake(c);
    } else {
      ss, ts := ReachQuiet(c, n - 1);
      var s, p := Quiet(c, n - 1), Fifo.AckAt(c, n - 1);
      assert p in s.acks && Fifo.DataAt(c, n) in DataUpTo(c, n);
      var s1, s2 := SendNext(c, s, p, n - 1);
      var s3, s4, s5 := ReceiveNext(c, s2, n);
      ss, ts := Snoc(c, ss, ts, SndReceive(p), s1);
      ss, ts := Snoc(c, ss, ts, SndSend, s2);
      ss, ts := Snoc(c, ss, ts, RcvReceive(Fifo.DataAt(c, n), false), s3);
      ss, ts := Snoc(c, ss, ts, RcvAdvance, s4);
      ss, ts := Snoc(c, ss, ts, RcvAdvance, s5);
    }
  }

  // ------------------------------------------------------- exact conditions

  /** After this schedule the receiver has accepted something other than the first blocks of the stream. */
  ghost predicate Corrupted(c: Config, steps: seq<Step>) {
    && Run(c, steps).Some?
    && var a := Run(c, steps).value.rcv.accepted;
       !(|a| <= |c.blocks| && a == c.blocks[..|a|])
  }

  lemma {:induction false} StaleBlockIsAccepted(c: Config, m: nat, n: nat) returns (ts: seq<Step>)
    requires c.Valid() && !c.kind.CppUpload? && 1 <= m < n <= |c.blocks|
    requires ToU16(m) == ToU16(n) && c.blocks[m - 1] != c.blocks[n - 1]
    ensures Corrupted(c, ts)
  {
    var p := Fifo.DataAt(c, m);
    var ss: seq<System>;
    ss, ts := ReachQuiet(c, n - 1);
    var s := Quiet(c, n - 1);
    assert p in s.data;
    var s' := Next(c, s, RcvReceive(p, false));
    assert s'.rcv.accepted[n - 1] == c.blocks[m - 1];
    ss, ts := Snoc(c, ss, ts, RcvReceive(p, false), s');
    TraceIsRun(c, ss, ts);
  }

  lemma {:induction false} WrapUnsafe(c: Config) returns (m: nat, n: nat)
    requires !WrapSafe(c)
    ensures 1 <= m < n <= |c.blocks| && ToU16(m) == ToU16(n) && c.blocks[m - 1] != c.blocks[n - 1]
  {
    m, n :| 1 <= m < n <= |c.blocks| && ToU16(m) == ToU16(n) && c.blocks[m - 1] != c.blocks[n - 1];
  }

  lemma {:induction false} ShortIsWrapSafe(c: Config)
    requires |c.blocks| <= 0x1_0000
    ensures WrapSafe(c)
  {
  }

  /** After this schedule the sender has finished although the receiver has not accepted everything. */
  ghost predicate FalseSuccess(c: Config, steps: seq<Step>) {
    && Run(c, steps).Some?
    && Run(c, steps).value.snd.pc.Finished?
    && Run(c, steps).value.rcv.accepted != c.blocks
  }

  /**
   * The longest transfer that old packets cannot confuse. For the C parties that is the longest whose
   * acknowledgements all have different numbers; an upload also has ACK 0. The C++ receiver takes every block but
   * the one before for the awaited one, so there must be no other.
   */
  function AckLimit(c: Config): nat {
    match c.kind
    case ClientDownload => 0x1_0000
    case ServerUpload => 0xFFFF
    case CppUpload => 2
  }

  ghost predicate IsAck(c: Config, p: Packet, n: nat, bound: int) {
    n < bound && p == Fifo.AckAt(c, n)
  }

  ghost predicate JointInv(c: Config, s: System) {
    var sent: int, expected: int := s.snd.count, Fifo.Expected(s.rcv);
    && Fifo.SenderOk(c, s.snd) && Fifo.ReceiverOk(c, s.rcv)
    && sent <= expected <= sent + 1
    && (s.snd.pc.Finished? ==> expected == sent + 1)
    && (forall p :: p in s.data ==> exists n: nat :: IsBlock(c, p, n) && n <= sent)
    && (forall p :: p in s.acks ==> exists n :: IsAck(c, p, n, expected))
  }

  /** Within the limit an acknowledgement that carries the awaited number is the awaited one. */
  lemma {:induction false} SenderKeepsJointInv(c: Config, s: System, p: Packet)
    requires c.Valid() && |c.blocks| <= AckLimit(c)
    requires JointInv(c, s) && Enabled(c, s, SndReceive(p))
    ensures JointInv(c, Next(c, s, SndReceive(p)))
  {
    var sent, expected := s.snd.count, Fifo.Expected(s.rcv);
    var n :| IsAck(c, p, n, expected);
    Fifo.U16Neighbours(sent);
    if s.snd.pc.Waiting? && p.Ack? && p.block == s.snd.block {
      assert n == sent && expected == sent + 1;
    }
  }

  lemma {:induction false} HearsBlock(c: Config, r: Receiver, n: nat)
    requires c.Valid() && |c.blocks| <= AckLimit(c)
    requires Fifo.ReceiverOk(c, r) && r.pc.Waiting? && 1 <= n <= Fifo.Expected(r)
    ensures var q := ReceiverReceive(c, r, Fifo.DataAt(c, n));
            && Fifo.ReceiverOk(c, q)
            && Fifo.Expected(q) == if n == Fifo.Expected(r) then n + 1 else Fifo.Expected(r)
  {
    if n == Fifo.Expected(r) {
      Fifo.AwaitedBlock(c, r);
    } else {
      assert ToU16(n) != r.block;
    }
  }

  lemma {:induction false} JointInvMoves(c: Config, s: System, q: Receiver)
    requires JointInv(c, s) && Fifo.ReceiverOk(c, q)
    requires Fifo.Expected(s.rcv) <= Fifo.Expected(q) <= s.snd.count + 1
    ensures JointInv(c, s.(rcv := q))
  {
    forall p | p in s.acks ensures exists i :: IsAck(c, p, i, Fifo.Expected(q)) {
      var i :| IsAck(c, p, i, Fifo.Expected(s.rcv));
      assert IsAck(c, p, i, Fifo.Expected(q));
    }
  }

  lemma {:induction false} ReceiverKeepsJointInv(c: Config, s: System, p: Packet)
    requires c.Valid() && |c.blocks| <= AckLimit(c) && s.rcv.pc.Waiting?
    requires JointInv(c, s) && Enabled(c, s, RcvReceive(p, false))
    ensures JointInv(c, Next(c, s, RcvReceive(p, false)))
  {
    var n: nat :| IsBlock(c, p, n) && n <= s.snd.count;
    HearsBlock(c, s.rcv, n);
    JointInvMoves(c, s, ReceiverReceive(c, s.rcv, p));
  }

  /** The receiver sends the acknowledgement it last made. */
  lemma {:induction false} AckJoins(c: Config, s: System, q: Receiver)
    requires JointInv(c, s) && Fifo.ReceiverOk(c, q) && Fifo.Expected(q) == Fifo.Expected(s.rcv)
    requires 0 < Fifo.Expected(s.rcv) && s.rcv.ack == Fifo.AckAt(c, Fifo.Expected(s.rcv) - 1)
    ensures JointInv(c, s.(rcv := q, acks := s.acks + {s.rcv.ack}))
  {
    assert IsAck(c, s.rcv.ack, Fifo.Expected(s.rcv) - 1, Fifo.Expected(s.rcv));
  }

  lemma {:induction false} AdvanceKeepsJointInv(c: Config, s: System)
    requires c.Valid() && JointInv(c, s) && Enabled(c, s, RcvAdvance)
    ensures JointInv(c, Next(c, s, RcvAdvance))
  {
    var (q, out) := ReceiverAdvance(c, s.rcv);
    if out == [] {
      assert s.acks + Elements([]) == s.acks;
      JointInvMoves(c, s, q);
    } else {
      ElementsOne(s.rcv.ack);
      AckJoins(c, s, q);
    }
  }

  lemma {:induction false} ListeningKeepsJointInv(c: Config, s: System, p: Packet)
    requires c.Valid() && JointInv(c, s) && s.rcv.pc.Listening?
    requires Enabled(c, s, RcvReceive(p, false))
    ensures JointInv(c, Next(c, s, RcvReceive(p, false)))
  {
  }

  lemma {:induction false} SendingKeepsJointInv(c: Config, s: System)
    requires c.Valid() && JointInv(c, s) && Enabled(c, s, SndSend)
    ensures JointInv(c, Next(c, s, SndSend))
  {
    assert IsBlock(c, Outgoing(c, s.snd), s.snd.count);
  }

  lemma {:induction false} ExpiryKeepsJointInv(c: Config, s: System, t: Step)
    requires c.Valid() && JointInv(c, s) && Enabled(c, s, t) && (t.SndTimeout? || t.RcvTimeout?)
    ensures JointInv(c, Next(c, s, t))
  {
  }

  lemma {:induction false} StepKeepsJointInv(c: Config, s: System, t: Step)
    requires c.Valid() && |c.blocks| <= AckLimit(c) && JointInv(c, s) && Enabled(c, s, t)
    ensures JointInv(c, Next(c, s, t))
  {
    match t
    case SndSend => SendingKeepsJointInv(c, s);
    case SndReceive(p) => SenderKeepsJointInv(c, s, p);
    case RcvAdvance => AdvanceKeepsJointInv(c, s);
    case RcvReceive(p, resend) =>
      if s.rcv.pc.Waiting? {
        ReceiverKeepsJointInv(c, s, p);
      } else if s.rcv.pc.Dallying? {
        AckJoins(c, s, s.rcv.(pc := ReceiverPc.Finished));
      } else {
        ListeningKeepsJointInv(c, s, p);
      }
    case SndTimeout => ExpiryKeepsJointInv(c, s, t);
    case RcvTimeout => ExpiryKeepsJointInv(c, s, t);
  }

  lemma {:induction false} ReachableJointly(c: Config, steps: seq<Step>)
    requires c.Valid() && |c.blocks| <= AckLimit(c) && Run(c, steps).Some?
    ensures JointInv(c, Run(c, steps).value)
  {
    if steps == [] {
    } else {
      ReachableJointly(c, steps[..|steps| - 1]);
      StepKeepsJointInv(c, Run(c, steps[..|steps| - 1]).value, steps[|steps| - 1]);
    }
  }

  /** With old acknowledgements of every number at hand the sender can run to the end on its own. */
  lemma {:induction false} SenderRunsAlone(c: Config, k: nat) returns (ss: seq<System>, ts: seq<Step>)
    requires c.Valid() && !c.kind.CppUpload? && AckLimit(c) <= k < |c.blocks|
    ensures Trace(c, ss, ts) && ss[0] == Init(c)
    ensures ss[|ts|] == Quiet(c, AckLimit(c)).(snd := Quiet(c, k).snd, data := DataUpTo(c, k))
  {
    if k == AckLimit(c) {
      ss, ts := ReachQuiet(c, k);
    } else {
      ss, ts := SenderRunsAlone(c, k - 1);
      var p := Ack(ToU16(k - 1));
      AllNumbers(c, k - 1);
      var s1, s2 := SendNext(c, ss[|ts|], p, k - 1);
      ss, ts := Snoc(c, ss, ts, SndReceive(p), s1);
      ss, ts := Snoc(c, ss, ts, SndSend, s2);
    }
  }

  lemma {:induction false} AllNumbers(c: Config, k: nat)
    requires !c.kind.CppUpload? && AckLimit(c) <= k
    ensures Ack(ToU16(k)) in AcksUpTo(c, AckLimit(c))
  {
    var i := if ToU16(k) == 0 && c.kind.ClientDownload? then 0x1_0000 else ToU16(k);
    assert Fifo.AckAt(c, i) == Ack(ToU16(k));
  }

  lemma {:induction false} FalseSuccessBeyondLimit(c: Config) returns (ts: seq<Step>)
    requires c.Valid() && !c.kind.CppUpload? && AckLimit(c) < |c.blocks|
    ensures FalseSuccess(c, ts)
  {
    var last := |c.blocks|;
    var ss: seq<System>;
    ss, ts := SenderRunsAlone(c, last - 1);
    var p, q := Ack(ToU16(last - 1)), Ack(ToU16(last));
    AllNumbers(c, last - 1);
    AllNumbers(c, last);
    var s1, s2 := SendNext(c, ss[|ts|], p, last - 1);
    ss, ts := Snoc(c, ss, ts, SndReceive(p), s1);
    ss, ts := Snoc(c, ss, ts, SndSend, s2);
    var s3 := s2.(snd := s2.snd.(pc := SenderPc.Finished));
    assert Goes(c, s2, SndReceive(q), s3);
    ss, ts := Snoc(c, ss, ts, SndReceive(q), s3);
    assert |s3.rcv.accepted| == AckLimit(c);
    TraceIsRun(c, ss, ts);
  }

  // ------------------------------------------------------- the C++ receiver

  /** An old full block, by a number that is not the one before n. */
  function OldBlock(n: nat): nat {
    if ToU16(n) == 2 then 2 else 1
  }

  /** All blocks but the last have been accepted; the client has sent that, but the server hears an old one. */
  lemma {:induction false} OldBlockIsTaken(c: Config) returns (ss: seq<System>, ts: seq<Step>)
    requires c.Valid() && c.kind.CppUpload? && 3 <= |c.blocks|
    ensures var n := |c.blocks|;
            && Trace(c, ss, ts) && ss[0] == Init(c)
            && ss[|ts|].snd == Sender(SenderPc.Waiting, n, ToU16(n), 0)
            && ss[|ts|].rcv.accepted == c.blocks[..n - 1] + [c.blocks[OldBlock(n) - 1]]
            && ss[|ts|].rcv.pc.Flushing? && ss[|ts|].rcv.ack == Ack(ToU16(n))
  {
    var n := |c.blocks|;
    var stale, answer := Fifo.DataAt(c, OldBlock(n)), Fifo.AckAt(c, n - 1);
    ss, ts := ReachQuiet(c, n - 1);
    var s1, s2 := SendNext(c, Quiet(c, n - 1), answer, n - 1);
    ss, ts := Snoc(c, ss, ts, SndReceive(answer), s1);
    ss, ts := Snoc(c, ss, ts, SndSend, s2);
    assert stale in s2.data;
    var s3 := s2.(rcv := Accept(c, s2.rcv, c.blocks[OldBlock(n) - 1]));
    assert Goes(c, s2, RcvReceive(stale, false), s3);
    ss, ts := Snoc(c, ss, ts, RcvReceive(stale, false), s3);
  }

  /** It acknowledges it as the last block, so the client finishes. */
  lemma {:induction false} OldBlockIsAcknowledged(c: Config) returns (ts: seq<Step>)
    requires c.Valid() && c.kind.CppUpload? && 3 <= |c.blocks|
    ensures Corrupted(c, ts) && FalseSuccess(c, ts)
  {
    var n := |c.blocks|;
    var ss;
    ss, ts := OldBlockIsTaken(c);
    var s, last := ss[|ts|], Ack(ToU16(n));
    ElementsOne(last);
    var s1 := s.(rcv := Flush(s.rcv).(pc := ReceiverPc.Sending));
    assert s.acks + Elements([]) == s.acks;
    var s2 := s1.(rcv := s1.rcv.(pc := ReceiverPc.Waiting), acks := s.acks + {last});
    var s3 := s2.(snd := s.snd.(pc := SenderPc.Finished));
    assert Goes(c, s, RcvAdvance, s1) && Goes(c, s1, RcvAdvance, s2) && Goes(c, s2, SndReceive(last), s3);
    ss, ts := Snoc(c, ss, ts, RcvAdvance, s1);
    ss, ts := Snoc(c, ss, ts, RcvAdvance, s2);
    ss, ts := Snoc(c, ss, ts, SndReceive(last), s3);
    assert s3.rcv.accepted[n - 1] == c.blocks[OldBlock(n) - 1] != c.blocks[n - 1];
    TraceIsRun(c, ss, ts);
  }

  // ------------------------------------------------------------ main results

  /** What makes the content safe: few blocks for the C++ receiver, WrapSafe for the others. */
  ghost predicate Safe(c: Config) {
    if c.kind.CppUpload? then |c.blocks| <= AckLimit(c) else WrapSafe(c)
  }

  lemma {:induction false} ReachableSafely(c: Config, steps: seq<Step>)
    requires c.Valid() && Safe(c) && Run(c, steps).Some?
    ensures Fifo.ReceiverOk(c, Run(c, steps).value.rcv)
  {
    if c.kind.CppUpload? {
      ReachableJointly(c, steps);
    } else {
      Reachable(c, steps);
    }
  }

  /**
   * Reordering safety: under arbitrary reordering the file plus the pending block stays a prefix of
   * the stream, and a receiver that has finished or published holds exactly the stream.
   */
  lemma {:induction false} ReorderingDelivery(c: Config, stream: seq<byte>, steps: seq<Step>)
    requires c.Valid() && c.blocks == Cut(stream, c.seg)
    requires Safe(c) && Run(c, steps).Some?
    ensures var r := Run(c, steps).value.rcv;
            && r.flushed <= |r.accepted| <= r.flushed + 1
            && Delivery.IsPrefix(Written(r) + Pending(r), stream)
            && (r.pc.Finished? || r.published ==> Written(r) == stream)
  {
    var r := Run(c, steps).value.rcv;
    ReachableSafely(c, steps);
    CutIsExact(stream, c.seg);
    Delivery.WrittenAndPending(r);
    Delivery.ConcatPrefix(c.blocks, |r.accepted|);
    assert c.blocks[..|c.blocks|] == c.blocks;
    if r.pc.Finished? || r.published {
      assert r.accepted[r.flushed..] == [];
      assert Pending(r) == [];
    }
  }

  /**
   * No run delivers wrong content exactly when the transfer is Safe: for the C receivers when blocks whose numbers
   * coincide are equal, as in every file of at most 65536 blocks; for the C++ receiver when there are at most two.
   */
  lemma {:induction false} NeverCorruptedIffSafe(c: Config)
    requires c.Valid()
    ensures (forall steps :: !Corrupted(c, steps)) <==> Safe(c)
    ensures !c.kind.CppUpload? && |c.blocks| <= 0x1_0000 ==> Safe(c)
  {
    if |c.blocks| <= 0x1_0000 {
      ShortIsWrapSafe(c);
    }
    if Safe(c) {
      forall steps ensures !Corrupted(c, steps) {
        if Run(c, steps).Some? {
          ReachableSafely(c, steps);
        }
      }
    } else if c.kind.CppUpload? {
      var ts := OldBlockIsAcknowledged(c);
    } else {
      var m, n := WrapUnsafe(c);
      var ts := StaleBlockIsAccepted(c, m, n);
    }
  }

  /** The sender's success report can be trusted in every run exactly within the limit. */
  lemma {:induction false} SuccessIsTrueIffWithinLimit(c: Config)
    requires c.Valid()
    ensures (forall steps :: !FalseSuccess(c, steps)) <==> |c.blocks| <= AckLimit(c)
  {
    if |c.blocks| <= AckLimit(c) {
      forall steps ensures !FalseSuccess(c, steps) {
        if Run(c, steps).Some? {
          ReachableJointly(c, steps);
        }
      }
    } else if c.kind.CppUpload? {
      var ts := OldBlockIsAcknowledged(c);
    } else {
      var ts := FalseSuccessBeyondLimit(c);
    }
  }
}
