/** Bounded effort: how often the timers can fire, and what every step of the C parties uses up. */
module Effort {
  import opened Common
  import opened Machines
  import opened Fifo

  // --------------------------------------------------------------- timers

  /** ceil(maxTimeout / rexmt) - 1: the timer-driven resends one block gets. */
  function Resends(c: Config): nat
    requires 0 < c.rexmt
  {
    if c.maxTimeout == 0 then 0 else (c.maxTimeout - 1) / c.rexmt
  }

  lemma {:induction false} ResendsIsExact(c: Config, k: nat)
    requires 0 < c.rexmt && 0 < k
    ensures c.rexmt * k < c.maxTimeout <==> k <= Resends(c)
  {
    if 0 < c.maxTimeout {
      var q := (c.maxTimeout - 1) / c.rexmt;
      assert c.rexmt * q <= c.maxTimeout - 1 < c.rexmt * q + c.rexmt;
      if k <= q {
        TimesGrows(c.rexmt, k, q);
      } else {
        TimesGrows(c.rexmt, q + 1, k);
      }
    }
  }

  /** Expiries seen by the sender since it took its current block. */
  function SenderExpiries(c: Config, steps: seq<Step>): nat
    requires Run(c, steps).Some?
  {
    if steps == [] then 0
    else
      var before, t := steps[..|steps| - 1], steps[|steps| - 1];
      SenderTick(c, Run(c, before).value, t, SenderExpiries(c, before))
  }

  function SenderTick(c: Config, s: System, t: Step, k: nat): nat
    requires Enabled(c, s, t)
  {
    if Next(c, s, t).snd.count != s.snd.count then 0 else if t.SndTimeout? then k + 1 else k
  }

  /** Expiries seen by a waiting receiver: a C receiver counts afresh for every block, the C++ one never does. */
  function ReceiverExpiries(c: Config, steps: seq<Step>): nat
    requires Run(c, steps).Some?
  {
    if steps == [] then 0
    else
      var before, t := steps[..|steps| - 1], steps[|steps| - 1];
      ReceiverTick(c, Run(c, before).value, t, ReceiverExpiries(c, before))
  }

  function ReceiverTick(c: Config, s: System, t: Step, k: nat): nat
    requires Enabled(c, s, t)
  {
    if !c.kind.CppUpload? && |Next(c, s, t).rcv.accepted| != |s.rcv.accepted| then 0
    else if t.RcvTimeout? && s.rcv.pc.Waiting? then k + 1
    else k
  }

  ghost predicate SenderClock(c: Config, s: Sender, k: nat)
    requires 0 < c.rexmt
  {
    && s.timeout == c.rexmt * k
    && (s.pc.Listening? ==> k == 0)
    && k <= Resends(c) + (if s.pc.Failed? then 1 else 0)
  }

  /** tftpd.hpp starts its clock at one interval, so one expiry fewer is left. */
  function ClockStart(c: Config): nat {
    if c.kind.CppUpload? then 1 else 0
  }

  ghost predicate ReceiverClock(c: Config, r: Receiver, k: nat)
    requires 0 < c.rexmt
  {
    && (!Closing(r) ==> r.timeout == c.rexmt * (ClockStart(c) + k))
    && (r.pc.Listening? ==> k == 0)
    && (0 < k && !r.pc.Failed? ==> ClockStart(c) + k <= Resends(c))
    && (1 < k ==> ClockStart(c) + k <= Resends(c) + 1)
  }

  lemma {:induction false} TimerStep(c: Config, n: nat)
    requires 0 < c.rexmt
    ensures c.rexmt * (n + 1) == c.rexmt * n + c.rexmt
    ensures c.rexmt * (n + 1) < c.maxTimeout <==> n + 1 <= Resends(c)
  {
    ResendsIsExact(c, n + 1);
  }

  lemma {:induction false} SenderClockStep(c: Config, s: System, t: Step, k: nat)
    requires c.Valid() && Enabled(c, s, t) && SenderClock(c, s.snd, k)
    ensures SenderClock(c, Next(c, s, t).snd, SenderTick(c, s, t, k))
  {
    TimerStep(c, k);
  }

  lemma {:induction false} ReceiverClockStep(c: Config, s: System, t: Step, k: nat)
    requires c.Valid() && Enabled(c, s, t) && ReceiverClock(c, s.rcv, k)
    ensures ReceiverClock(c, Next(c, s, t).rcv, ReceiverTick(c, s, t, k))
  {
    TimerStep(c, ClockStart(c) + k);
  }

  /**
   * Over every run: a C party makes at most ceil(maxTimeout / rexmt) - 1 timer-driven resends of a
   * packet, and the expiry after those ends it. The C++ receiver has one expiry fewer, and for the
   * whole upload: with its constants 1 and 5 the fourth expiry closes the socket.
   */
  lemma {:induction false} TimersAreBounded(c: Config, steps: seq<Step>)
    requires c.Valid() && Run(c, steps).Some?
    ensures SenderClock(c, Run(c, steps).value.snd, SenderExpiries(c, steps))
    ensures ReceiverClock(c, Run(c, steps).value.rcv, ReceiverExpiries(c, steps))
  {
    if steps == [] {
    } else {
      var before, t := steps[..|steps| - 1], steps[|steps| - 1];
      TimersAreBounded(c, before);
      SenderClockStep(c, Run(c, before).value, t, SenderExpiries(c, before));
      ReceiverClockStep(c, Run(c, before).value, t, ReceiverExpiries(c, before));
    }
  }

  /** With the constants of the C server and of tftpd.hpp: four resends per block, against three expiries per upload. */
  lemma {:induction false} ServerBudgets(c: Config, steps: seq<Step>)
    requires c.Valid() && c.rexmt == 1 && c.maxTimeout == 5 && Run(c, steps).Some?
    ensures var s := Run(c, steps).value;
            && SenderExpiries(c, steps) <= (if s.snd.pc.Failed? then 5 else 4)
            && (!c.kind.CppUpload? ==> ReceiverExpiries(c, steps) <= if s.rcv.pc.Failed? then 5 else 4)
            && (c.kind.CppUpload? ==> ReceiverExpiries(c, steps) <= if s.rcv.pc.Failed? then 4 else 3)
  {
    TimersAreBounded(c, steps);
  }

  // ---------------------------------------------------------- termination

  predicate IsDuplication(t: Step) {
    t.DupData? || t.DupAck?
  }

  /** Weight of a channel: `hi` for copies of the newest packet, `lo` for all others. */
  function Weigh(ch: seq<Packet>, newest: Packet, hi: nat, lo: nat): nat {
    if ch == [] then 0 else (if ch[0] == newest then hi else lo) + Weigh(ch[1..], newest, hi, lo)
  }

  lemma {:induction false} WeighAppend(a: seq<Packet>, b: seq<Packet>, newest: Packet, hi: nat, lo: nat)
    ensures Weigh(a + b, newest, hi, lo) == Weigh(a, newest, hi, lo) + Weigh(b, newest, hi, lo)
  {
    if a == [] {
      assert a + b == b;
    } else {
      assert (a + b)[1..] == a[1..] + b;
      WeighAppend(a[1..], b, newest, hi, lo);
    }
  }

  lemma {:induction false} WeighRemove(ch: seq<Packet>, i: nat, newest: Packet, hi: nat, lo: nat)
    requires i < |ch| && 0 < hi && 0 < lo
    ensures Weigh(Remove(ch, i), newest, hi, lo) < Weigh(ch, newest, hi, lo)
  {
    assert ch == ch[..i] + ch[i..] && ch[i..][1..] == ch[i + 1..];
    WeighAppend(ch[..i], ch[i..], newest, hi, lo);
    WeighAppend(ch[..i], ch[i + 1..], newest, hi, lo);
  }

  /** Taking the head and k more off a channel takes off at least the weight of the head. */
  lemma {:induction false} WeighSuffix(ch: seq<Packet>, k: nat, newest: Packet, hi: nat, lo: nat)
    requires k < |ch|
    ensures Weigh(ch[1 + k..], newest, hi, lo) + (if ch[0] == newest then hi else lo) <= Weigh(ch, newest, hi, lo)
  {
    assert ch == ch[..1 + k] + ch[1 + k..];
    WeighAppend(ch[..1 + k], ch[1 + k..], newest, hi, lo);
  }

  /** Up to three copies of the newest packet. */
  lemma {:induction false} WeighCopies(out: seq<Packet>, newest: Packet, hi: nat, lo: nat)
    requires |out| <= 3 && forall i :: 0 <= i < |out| ==> out[i] == newest
    ensures Weigh(out, newest, hi, lo) == |out| * hi
  {
    if out == [] {
    } else {
      WeighCopies(out[1..], newest, hi, lo);
    }
  }

  /** Logical blocks the two parties still have to go through. */
  function BlocksLeft(c: Config, s: System): int {
    2 * |c.blocks| + 1 - s.snd.count - Expected(s.rcv)
  }

  function ClockLeft(c: Config, timeout: nat): nat {
    if timeout < c.maxTimeout then 1 + c.maxTimeout - timeout else 1
  }

  /** What is left on the two clocks; a party that has stopped has none. */
  function TimeLeft(c: Config, s: System): nat {
    (if s.snd.pc.Finished? || s.snd.pc.Failed? then 0 else ClockLeft(c, s.snd.timeout))
    + (if s.rcv.pc.Finished? || s.rcv.pc.Failed? then 0
       else if Closing(s.rcv) then 1
       else 1 + ClockLeft(c, s.rcv.timeout))
  }

  /** An upper bound on the sends and deliveries that can follow without a new block or an expiry. */
  function WorkLeft(c: Config, s: System): nat
    requires s.snd.count <= |c.blocks|
  {
    var ahead := Expected(s.rcv) > s.snd.count;   // the receiver has the block the sender is on
    var dataLo, dataHi := if ahead then 5 else 9, if ahead then 5 else 1;
    var ackLo, ackHi := if ahead then 17 else 5, if ahead then 1 else 5;
    Weigh(s.data, DataAt(c, s.snd.count), dataHi, dataLo)
    + Weigh(s.acks, AckAt(c, s.snd.count), ackHi, ackLo)
    + (if s.snd.pc.Sending? then 3 * dataHi + 1 else 0)
    + (match s.rcv.pc
       case Sending => ackHi + 2
       case Flushing => 1
       case FinalAck => ackHi + 2
       case FinalFlush => if c.kind.ClientDownload? then 0 else ackHi + 3
       case _ => 0)
  }

  /** Lexicographic order on (blocks left, time left, work left). */
  ghost predicate Less(c: Config, s: System, s': System)
    requires s.snd.count <= |c.blocks| && s'.snd.count <= |c.blocks|
  {
    || 0 <= BlocksLeft(c, s) < BlocksLeft(c, s')
    || (BlocksLeft(c, s) == BlocksLeft(c, s') && TimeLeft(c, s) < TimeLeft(c, s'))
    || (BlocksLeft(c, s) == BlocksLeft(c, s') && TimeLeft(c, s) == TimeLeft(c, s') && WorkLeft(c, s) < WorkLeft(c, s'))
  }

  lemma {:induction false} SendGetsOn(c: Config, s: System)
    requires c.Valid() && Inv(c, s) && Enabled(c, s, SndSend)
    ensures Less(c, Next(c, s, SndSend), s)
  {
    var newest, out := DataAt(c, s.snd.count), SenderSend(c, s.snd).1;
    var ahead := Expected(s.rcv) > s.snd.count;
    var lo, hi := if ahead then 5 else 9, if ahead then 5 else 1;
    WeighAppend(s.data, out, newest, hi, lo);
    WeighCopies(out, newest, hi, lo);
  }

  /** A resend costs less than the acknowledgement before the awaited one that causes it. */
  lemma {:induction false} ResendCostsLess(c: Config, s: System, flush: nat, q: Sender)
    requires Inv(c, s) && flush < |s.acks| && s.snd.pc.Waiting? && (q == s.snd || q == s.snd.(pc := SenderPc.Sending))
    requires Expected(s.rcv) > s.snd.count ==> s.acks[0] != AckAt(c, s.snd.count)
    ensures Less(c, s.(snd := q, acks := s.acks[1 + flush..]), s)
  {
    var ahead := Expected(s.rcv) > s.snd.count;
    WeighSuffix(s.acks, flush, AckAt(c, s.snd.count), if ahead then 1 else 5, if ahead then 17 else 5);
  }

  lemma {:induction false} AwaitedAckGetsOn(c: Config, s: System, flush: nat)
    requires c.Valid() && Inv(c, s) && Enabled(c, s, SndReceive(flush))
    requires Expected(s.rcv) > s.snd.count && s.acks[0] == AckAt(c, s.snd.count)
    ensures Less(c, s.(snd := SenderReceive(c, s.snd, s.acks[0]), acks := s.acks[1 + flush..]), s)
  {
    AwaitedAck(c, s.snd);
  }

  /** An acknowledgement moves the sender on, stops it, or costs more than the resend it causes. */
  lemma {:induction false} AckGetsOn(c: Config, s: System, flush: nat)
    requires c.Valid() && Inv(c, s) && Enabled(c, s, SndReceive(flush))
    ensures Inv(c, Next(c, s, SndReceive(flush))) && Less(c, Next(c, s, SndReceive(flush)), s)
  {
    SenderStepKeepsInv(c, s, flush);
    if Expected(s.rcv) > s.snd.count && s.acks[0] == AckAt(c, s.snd.count) {
      AwaitedAckGetsOn(c, s, flush);
    } else {
      assert s.acks[0] == AckAt(c, s.snd.count as int - 1);
      StaleAck(c, s.snd);
      ResendCostsLess(c, s, flush, SenderReceive(c, s.snd, s.acks[0]));
    }
  }

  lemma {:induction false} AdvanceGetsOn(c: Config, s: System)
    requires c.Valid() && !c.kind.CppUpload? && Inv(c, s) && Enabled(c, s, RcvAdvance)
    ensures Less(c, Next(c, s, RcvAdvance), s)
  {
    var newest, out := AckAt(c, s.snd.count), ReceiverAdvance(c, s.rcv).1;
    var ahead := Expected(s.rcv) > s.snd.count;
    var hi, lo := if ahead then 1 else 5, if ahead then 17 else 5;
    WeighAppend(s.acks, out, newest, hi, lo);
    if out != [] {
      assert out == [s.rcv.ack] && out[1..] == [];
    }
  }

  /** An acknowledgement sent again costs less than the stale block that causes it. */
  lemma {:induction false} RepeatCostsLess(c: Config, s: System, flush: nat, q: Receiver)
    requires Inv(c, s) && flush < |s.data| && s.rcv.pc.Waiting? && s.data[0] == DataAt(c, |s.rcv.accepted|)
    requires q.accepted == s.rcv.accepted && q.timeout == s.rcv.timeout && (q.pc == s.rcv.pc || q.pc == AckingPc(c))
    ensures Less(c, s.(rcv := q, data := s.data[1 + flush..]), s)
  {
    var ahead := Expected(s.rcv) > s.snd.count;
    WeighSuffix(s.data, flush, DataAt(c, s.snd.count), if ahead then 5 else 1, if ahead then 5 else 9);
    if !ahead {
      U16Neighbours(|s.rcv.accepted|);
    }
  }

  lemma {:induction false} WaitingGetsOn(c: Config, s: System, flush: nat)
    requires c.Valid() && !c.kind.CppUpload? && Inv(c, s)
    requires Enabled(c, s, RcvReceive(flush, false)) && s.rcv.pc.Waiting?
    ensures Less(c, Next(c, s, RcvReceive(flush, false)), s)
  {
    if s.data[0] == DataAt(c, s.snd.count) && Expected(s.rcv) == s.snd.count {
      AwaitedBlock(c, s.rcv);
    } else {
      assert s.data[0] == DataAt(c, |s.rcv.accepted|);
      StaleBlock(c, s.rcv);
      RepeatCostsLess(c, s, flush, ReceiverReceive(c, s.rcv, s.data[0]));
    }
  }

  /** A block moves the receiver on, stops it, or costs more than the acknowledgement it causes. */
  lemma {:induction false} BlockGetsOn(c: Config, s: System, flush: nat, resend: bool)
    requires c.Valid() && !c.kind.CppUpload? && Inv(c, s) && Enabled(c, s, RcvReceive(flush, resend))
    ensures Inv(c, Next(c, s, RcvReceive(flush, resend))) && Less(c, Next(c, s, RcvReceive(flush, resend)), s)
  {
    ReceiverStepKeepsInv(c, s, flush, resend);
    if s.rcv.pc.Waiting? {
      WaitingGetsOn(c, s, flush);
    }
  }

  lemma {:induction false} DropGetsOn(c: Config, s: System, t: Step)
    requires Inv(c, s) && Enabled(c, s, t) && (t.DropData? || t.DropAck?)
    ensures Less(c, Next(c, s, t), s)
  {
    var ahead := Expected(s.rcv) > s.snd.count;
    match t
    case DropData(i) =>
      WeighRemove(s.data, i, DataAt(c, s.snd.count), if ahead then 5 else 1, if ahead then 5 else 9);
    case DropAck(i) =>
      WeighRemove(s.acks, i, AckAt(c, s.snd.count), if ahead then 1 else 5, if ahead then 17 else 5);
  }

  lemma {:induction false} TimeoutGetsOn(c: Config, s: System, t: Step)
    requires c.Valid() && Inv(c, s) && Enabled(c, s, t) && (t.SndTimeout? || t.RcvTimeout?)
    ensures Less(c, Next(c, s, t), s)
  {
  }

  /** Every step of the C parties but a duplication by the network gets nearer to the end. */
  lemma {:induction false} StepGetsOn(c: Config, s: System, t: Step)
    requires c.Valid() && !c.kind.CppUpload? && Inv(c, s) && Enabled(c, s, t) && !IsDuplication(t)
    ensures Inv(c, Next(c, s, t)) && Less(c, Next(c, s, t), s)
  {
    StepKeepsInv(c, s, t);
    match t
    case SndSend => SendGetsOn(c, s);
    case SndReceive(flush) => AckGetsOn(c, s, flush);
    case RcvAdvance => AdvanceGetsOn(c, s);
    case RcvReceive(flush, resend) => BlockGetsOn(c, s, flush, resend);
    case SndTimeout => TimeoutGetsOn(c, s, t);
    case RcvTimeout => TimeoutGetsOn(c, s, t);
    case _ => DropGetsOn(c, s, t);
  }
}
