/**
 * What every step of an upload to the C++ server uses up. The server takes blocks that are neither awaited nor
 * repeated, so nothing bounds what it has accepted; but while the client stays on one block, copies of that block
 * lead the server once around the 65536 numbers before it acknowledges what makes the client send again.
 */
module CppEffort {
  import opened Common
  import opened Machines
  import opened Fifo
  import Effort

  const NEW: nat := 6                  // a copy of the block the client is on
  const COSTLY: nat := 3 * NEW + 2     // the acknowledgement that makes it send again, up to three times
  const OLD: nat := COSTLY + 4         // any other packet, which may lead to that acknowledgement at once

  /** The acknowledgement that makes the client send again. */
  function Cause(s: Sender): Packet {
    if s.block == 0 then Error else Ack(s.block - 1)
  }

  function AckCost(s: Sender, p: Packet): nat {
    if p == Cause(s) then COSTLY else 1
  }

  /** How far the server is ahead of the block the client is on, around the circle of numbers. */
  function Distance(s: Sender, r: Receiver): nat {
    if s.block <= r.block then r.block - s.block else 0x1_0000 + r.block - s.block
  }

  function BlocksLeft(c: Config, s: System): int {
    |c.blocks| - s.snd.count
  }

  function PacketsLeft(c: Config, s: System): nat
    requires s.snd.count <= |c.blocks|
  {
    Effort.Weigh(s.data, DataAt(c, s.snd.count), NEW, OLD) + Effort.Weigh(s.acks, Cause(s.snd), COSTLY, 1)
  }

  function StepsLeft(s: Sender, r: Receiver): nat {
    (if s.pc.Sending? then 3 * NEW + 1 else 0)
    + (match r.pc
       case Flushing => AckCost(s, r.ack) + 3
       case Sending => AckCost(s, r.ack) + 2
       case FinalFlush => AckCost(s, r.ack) + 3
       case FinalAck => AckCost(s, r.ack) + 2
       case _ => 0)
  }

  function WorkLeft(c: Config, s: System): nat
    requires s.snd.count <= |c.blocks|
  {
    PacketsLeft(c, s) + StepsLeft(s.snd, s.rcv) + Distance(s.snd, s.rcv)
  }

  /** Lexicographic order on (blocks left, time left, work left). */
  ghost predicate Less(c: Config, s: System, s': System)
    requires s.snd.count <= |c.blocks| && s'.snd.count <= |c.blocks|
  {
    || BlocksLeft(c, s) < BlocksLeft(c, s')
    || (BlocksLeft(c, s) == BlocksLeft(c, s') && Effort.TimeLeft(c, s) < Effort.TimeLeft(c, s'))
    || (&& BlocksLeft(c, s) == BlocksLeft(c, s') && Effort.TimeLeft(c, s) == Effort.TimeLeft(c, s')
        && WorkLeft(c, s) < WorkLeft(c, s'))
  }

  /** An acknowledgement the server repeats bears the number before the awaited one. */
  ghost predicate Numbered(r: Receiver) {
    && (r.pc.Listening? ==> r.block == 0)
    && (r.pc.Waiting? || r.pc.Flushing? || r.pc.Sending? ==>
          r.ack.Oack? || r.ack.OackHead? || (r.ack.Ack? && Succ16(r.ack.block) == r.block))
  }

  /** All that is needed; it holds in every run, whether or not block numbers wrap. */
  ghost predicate Ready(c: Config, s: System) {
    SenderOk(c, s.snd) && Numbered(s.rcv)
  }

  lemma {:induction false} SendGetsOn(c: Config, s: System)
    requires c.Valid() && Ready(c, s) && Enabled(c, s, SndSend)
    ensures Ready(c, Next(c, s, SndSend)) && Less(c, Next(c, s, SndSend), s)
  {
    var out := SenderSend(c, s.snd).1;
    Effort.WeighAppend(s.data, out, DataAt(c, s.snd.count), NEW, OLD);
    Effort.WeighCopies(out, DataAt(c, s.snd.count), NEW, OLD);
  }

  /** What an acknowledgement does to the client. */
  lemma {:induction false} ClientHears(c: Config, s: Sender, p: Packet)
    requires c.Valid() && c.kind.CppUpload? && SenderOk(c, s) && s.pc.Waiting?
    ensures var q := SenderReceive(c, s, p);
            && SenderOk(c, q)
            && (q.count == s.count + 1 || (q.count == s.count && q.block == s.block && q.timeout == s.timeout))
            && (q.count == s.count ==> q.pc.Finished? || q.pc.Failed? || q == s || (q.pc.Sending? && p == Cause(s)))
  {
    U16Neighbours(s.count);
  }

  lemma {:induction false} AckGetsOn(c: Config, s: System, flush: nat)
    requires c.Valid() && c.kind.CppUpload? && Ready(c, s) && Enabled(c, s, SndReceive(flush))
    ensures Ready(c, Next(c, s, SndReceive(flush))) && Less(c, Next(c, s, SndReceive(flush)), s)
  {
    ClientHears(c, s.snd, s.acks[0]);
    Effort.WeighSuffix(s.acks, flush, Cause(s.snd), COSTLY, 1);
  }

  lemma {:induction false} AdvanceGetsOn(c: Config, s: System)
    requires c.Valid() && c.kind.CppUpload? && Ready(c, s) && Enabled(c, s, RcvAdvance)
    ensures Ready(c, Next(c, s, RcvAdvance)) && Less(c, Next(c, s, RcvAdvance), s)
  {
    var out := ReceiverAdvance(c, s.rcv).1;
    Effort.WeighAppend(s.acks, out, Cause(s.snd), COSTLY, 1);
    if out != [] {
      assert out == [s.rcv.ack] && out[1..] == [];
    }
  }

  /** Taking one block leads one number further, or all the way back. */
  lemma {:induction false} OneFurther(s: Sender, r: Receiver, q: Receiver)
    requires q.block == Succ16(r.block)
    ensures if r.block == s.block - 1 then Distance(s, r) == 0xFFFF && Distance(s, q) == 0
            else Distance(s, q) <= Distance(s, r) + 1
  {
  }

  /** Taking a block, or acknowledging one again, costs less than the packet. */
  lemma {:induction false} ServerHears(c: Config, s: Sender, r: Receiver, p: Packet)
    requires c.Valid() && c.kind.CppUpload? && SenderOk(c, s) && Numbered(r) && r.pc.Waiting? && p.Data?
    ensures var q := ReceiverReceive(c, r, p);
            && Numbered(q) && q.timeout == r.timeout
            && (Closing(q) ||
                StepsLeft(s, q) + Distance(s, q) <
                  StepsLeft(s, r) + Distance(s, r) + if p == DataAt(c, s.count) then NEW else OLD)
  {
    var q := ReceiverReceive(c, r, p);
    if q.block == Succ16(r.block) {
      OneFurther(s, r, q);
    }
    U16Neighbours(r.block);
  }

  lemma {:induction false} WaitingGetsOn(c: Config, s: System, flush: nat)
    requires c.Valid() && c.kind.CppUpload? && Ready(c, s) && Enabled(c, s, RcvReceive(flush, false))
    requires s.rcv.pc.Waiting? && s.data[0].Data?
    ensures Ready(c, Next(c, s, RcvReceive(flush, false))) && Less(c, Next(c, s, RcvReceive(flush, false)), s)
  {
    Effort.WeighSuffix(s.data, flush, DataAt(c, s.snd.count), NEW, OLD);
    ServerHears(c, s.snd, s.rcv, s.data[0]);
  }

  lemma {:induction false} BlockGetsOn(c: Config, s: System, flush: nat, resend: bool)
    requires c.Valid() && c.kind.CppUpload? && Ready(c, s) && Enabled(c, s, RcvReceive(flush, resend))
    ensures Ready(c, Next(c, s, RcvReceive(flush, resend))) && Less(c, Next(c, s, RcvReceive(flush, resend)), s)
  {
    if s.rcv.pc.Waiting? && s.data[0].Data? {
      WaitingGetsOn(c, s, flush);
    } else if s.rcv.pc.Listening? {
      Effort.WeighSuffix(s.data, flush, DataAt(c, s.snd.count), NEW, OLD);
      OneFurther(s.snd, s.rcv, ReceiverReceive(c, s.rcv, Request));
    }
  }

  lemma {:induction false} DropGetsOn(c: Config, s: System, t: Step)
    requires Ready(c, s) && Enabled(c, s, t) && (t.DropData? || t.DropAck?)
    ensures Ready(c, Next(c, s, t)) && Less(c, Next(c, s, t), s)
  {
    match t
    case DropData(i) => Effort.WeighRemove(s.data, i, DataAt(c, s.snd.count), NEW, OLD);
    case DropAck(i) => Effort.WeighRemove(s.acks, i, Cause(s.snd), COSTLY, 1);
  }

  lemma {:induction false} TimeoutGetsOn(c: Config, s: System, t: Step)
    requires c.Valid() && c.kind.CppUpload? && Ready(c, s) && Enabled(c, s, t) && (t.SndTimeout? || t.RcvTimeout?)
    ensures Ready(c, Next(c, s, t)) && Less(c, Next(c, s, t), s)
  {
  }

  /** Every step of an upload of any length but a duplication by the network gets nearer to the end. */
  lemma {:induction false} StepGetsOn(c: Config, s: System, t: Step)
    requires c.Valid() && c.kind.CppUpload? && Ready(c, s) && Enabled(c, s, t) && !Effort.IsDuplication(t)
    ensures Ready(c, Next(c, s, t)) && Less(c, Next(c, s, t), s)
  {
    match t
    case SndSend => SendGetsOn(c, s);
    case SndReceive(flush) => AckGetsOn(c, s, flush);
    case RcvAdvance => AdvanceGetsOn(c, s);
    case RcvReceive(flush, resend) => BlockGetsOn(c, s, flush, resend);
    case SndTimeout => TimeoutGetsOn(c, s, t);
    case RcvTimeout => TimeoutGetsOn(c, s, t);
    case _ => DropGetsOn(c, s, t);
  }
}
