/**
 * A sender and a receiver joined by two FIFO channels that may lose and duplicate packets.
 * A run is a schedule: a sequence of steps, each of which must be enabled when it is taken.
 */
module Fifo {
  import opened Common
  import opened Machines

  datatype System = System(snd: Sender, rcv: Receiver, data: seq<Packet>, acks: seq<Packet>)

  /** flush: how many queued packets synchnet discards; resend: whether a dallying receiver repeats its last ACK. */
  datatype Step =
    | SndSend | SndTimeout | SndReceive(flush: nat)
    | RcvAdvance | RcvTimeout | RcvReceive(flush: nat, resend: bool)
    | DropData(i: nat) | DropAck(i: nat) | DupData(i: nat) | DupAck(i: nat)

  function Init(c: Config): System {
    System(SenderInit(c), ReceiverInit(c), [], [])
  }

  function Remove(ch: seq<Packet>, i: nat): seq<Packet>
    requires i < |ch|
  {
    ch[..i] + ch[i + 1..]
  }

  function Duplicate(ch: seq<Packet>, i: nat): seq<Packet>
    requires i < |ch|
  {
    ch[..i + 1] + ch[i..]
  }

  /** Requests go to the well-known port: only a listening party gets them. */
  predicate Enabled(c: Config, s: System, t: Step) {
    match t
    case SndSend => s.snd.pc.Sending? && s.snd.count <= |c.blocks|
    case SndTimeout => s.snd.pc.Waiting?
    case SndReceive(flush) =>
      && s.acks != [] && s.snd.count <= |c.blocks|
      && (if s.acks[0].Request? then s.snd.pc.Listening? else s.snd.pc.Waiting?)
      && flush < |s.acks|
      && (0 < flush ==> SenderFlushes(s.snd, s.acks[0]))
    case RcvAdvance =>
      s.rcv.pc.Sending? || s.rcv.pc.Flushing? || s.rcv.pc.FinalFlush? || s.rcv.pc.FinalAck?
    case RcvTimeout => s.rcv.pc.Waiting? || s.rcv.pc.Dallying?
    case RcvReceive(flush, resend) =>
      && s.data != []
      && (if s.data[0].Request? then s.rcv.pc.Listening? else s.rcv.pc.Waiting? || s.rcv.pc.Dallying?)
      && flush < |s.data|
      && (0 < flush ==> ReceiverFlushes(s.rcv, s.data[0]))
      && (resend ==> s.rcv.pc.Dallying?)
    case DropData(i) => i < |s.data|
    case DropAck(i) => i < |s.acks|
    case DupData(i) => i < |s.data|
    case DupAck(i) => i < |s.acks|
  }

  function Next(c: Config, s: System, t: Step): System
    requires Enabled(c, s, t)
  {
    match t
    case SndSend => var (snd, out) := SenderSend(c, s.snd); s.(snd := snd, data := s.data + out)
    case SndTimeout => s.(snd := SenderTimeout(c, s.snd))
    case SndReceive(flush) => s.(snd := SenderReceive(c, s.snd, s.acks[0]), acks := s.acks[1 + flush..])
    case RcvAdvance => var (rcv, out) := ReceiverAdvance(c, s.rcv); s.(rcv := rcv, acks := s.acks + out)
    case RcvTimeout =>
      if s.rcv.pc.Dallying? then s.(rcv := s.rcv.(pc := ReceiverPc.Finished)) else s.(rcv := ReceiverTimeout(c, s.rcv))
    case RcvReceive(flush, resend) =>
      var rest := s.data[1 + flush..];
      if s.rcv.pc.Dallying? then
        var acks := if resend then s.acks + [s.rcv.ack] else s.acks;
        s.(rcv := s.rcv.(pc := ReceiverPc.Finished), data := rest, acks := acks)
      else
        s.(rcv := ReceiverReceive(c, s.rcv, s.data[0]), data := rest)
    case DropData(i) => s.(data := Remove(s.data, i))
    case DropAck(i) => s.(acks := Remove(s.acks, i))
    case DupData(i) => s.(data := Duplicate(s.data, i))
    case DupAck(i) => s.(acks := Duplicate(s.acks, i))
  }

  /** The network may lose or repeat any packet in either channel, wherever it stands, and does nothing else to it. */
  lemma {:induction false} NetworkIsFree(c: Config, s: System, i: nat)
    ensures i < |s.data| ==>
              && Enabled(c, s, DropData(i)) && Next(c, s, DropData(i)) == s.(data := s.data[..i] + s.data[i + 1..])
              && Enabled(c, s, DupData(i))
              && Next(c, s, DupData(i)) == s.(data := s.data[..i] + [s.data[i], s.data[i]] + s.data[i + 1..])
    ensures i < |s.acks| ==>
              && Enabled(c, s, DropAck(i)) && Next(c, s, DropAck(i)) == s.(acks := s.acks[..i] + s.acks[i + 1..])
              && Enabled(c, s, DupAck(i))
              && Next(c, s, DupAck(i)) == s.(acks := s.acks[..i] + [s.acks[i], s.acks[i]] + s.acks[i + 1..])
  {
    if i < |s.data| {
      assert s.data[i..] == [s.data[i]] + s.data[i + 1..] && s.data[..i + 1] == s.data[..i] + [s.data[i]];
    }
    if i < |s.acks| {
      assert s.acks[i..] == [s.acks[i]] + s.acks[i + 1..] && s.acks[..i + 1] == s.acks[..i] + [s.acks[i]];
    }
  }

  /**
   * A party that waits may be timed out, and hears whatever comes first, in which case it discards as many packets
   * behind it as it likes if that is a repetition; a server may repeat its last acknowledgement.
   */
  lemma {:induction false} WaitingIsFree(c: Config, s: System, flush: nat, resend: bool)
    requires c.Valid() && s.snd.count <= |c.blocks|
    ensures s.snd.pc.Waiting? ==> Enabled(c, s, SndTimeout)
    ensures s.rcv.pc.Waiting? || s.rcv.pc.Dallying? ==> Enabled(c, s, RcvTimeout)
    ensures s.snd.pc.Waiting? && s.acks != [] && !s.acks[0].Request? ==>
              && Enabled(c, s, SndReceive(0))
              && (s.acks[0].Ack? && s.acks[0].block != s.snd.block && flush < |s.acks| ==>
                    Enabled(c, s, SndReceive(flush)))
    ensures s.rcv.pc.Waiting? && s.data != [] && !s.data[0].Request? ==>
              && Enabled(c, s, RcvReceive(0, false))
              && (s.data[0].Data? && s.data[0].block != s.rcv.block && flush < |s.data| ==>
                    Enabled(c, s, RcvReceive(flush, false)))
    ensures s.rcv.pc.Dallying? && s.data != [] && !s.data[0].Request? ==>
              && Enabled(c, s, RcvReceive(0, resend))
              && Next(c, s, RcvReceive(0, resend)).acks == s.acks + if resend then [s.rcv.ack] else []
  {
  }

  /** What is heard, and what is discarded with it, has left the channel; nothing else has. */
  lemma {:induction false} HearingConsumes(c: Config, s: System, flush: nat, resend: bool)
    ensures Enabled(c, s, SndReceive(flush)) ==>
              && |s.acks| >= 1 + flush && Next(c, s, SndReceive(flush)).data == s.data
              && s.acks == s.acks[..1 + flush] + Next(c, s, SndReceive(flush)).acks
    ensures Enabled(c, s, RcvReceive(flush, resend)) ==>
              && |s.data| >= 1 + flush && s.acks <= Next(c, s, RcvReceive(flush, resend)).acks
              && s.data == s.data[..1 + flush] + Next(c, s, RcvReceive(flush, resend)).data
  {
  }

  function Run(c: Config, steps: seq<Step>): Option<System> {
    if steps == [] then Some(Init(c))
    else
      var before := Run(c, steps[..|steps| - 1]);
      var t := steps[|steps| - 1];
      if before.Some? && Enabled(c, before.value, t) then Some(Next(c, before.value, t)) else None
  }

  // ------------------------------------------------------- joint invariant

  /** The packet that stands for logical block n in each direction; 0 is the request and its answer. */
  function DataAt(c: Config, n: int): Packet
    requires n <= |c.blocks|
  {
    if n <= 0 then Request else Data(ToU16(n), c.blocks[n - 1])
  }

  function AckAt(c: Config, n: int): Packet {
    if n < 0 then Request else if n == 0 then FirstAck(c) else Ack(ToU16(n))
  }

  /** Only copies of lo and hi are in flight, and every lo is ahead of every hi. */
  ghost predicate Window(ch: seq<Packet>, lo: Packet, hi: Packet) {
    && (forall i :: 0 <= i < |ch| ==> ch[i] == lo || ch[i] == hi)
    && (forall i, j :: 0 <= i < j < |ch| && ch[i] == hi ==> ch[j] == hi)
  }

  /** The logical block the receiver waits for; 0 before the request has reached it. */
  function Expected(r: Receiver): nat {
    if r.pc.Listening? then 0 else |r.accepted| + 1
  }

  predicate Closing(r: Receiver) {
    r.pc.FinalFlush? || r.pc.FinalAck? || r.pc.Dallying? || r.pc.Finished?
  }

  ghost predicate SenderOk(c: Config, s: Sender) {
    && s.count <= |c.blocks|
    && s.block == ToU16(s.count)
    && (s.pc.Listening? ==> c.kind.ClientDownload? && s.count == 0)
    && (c.kind.ClientDownload? && s.count == 0 ==> s.pc.Listening?)
    && (s.pc.Finished? ==> s.count == |c.blocks|)
  }

  ghost predicate ReceiverOk(c: Config, r: Receiver) {
    && |r.accepted| <= |c.blocks| && r.accepted == c.blocks[..|r.accepted|]
    && r.flushed <= |r.accepted| <= r.flushed + 1
    && (r.pc.Listening? ==> !c.kind.ClientDownload? && r.accepted == [])
    && (r.pc.Dallying? ==> !c.kind.ClientDownload?)
    && (!Closing(r) ==> |r.accepted| < |c.blocks|)
    && (r.pc.Sending? || r.pc.Flushing? || r.pc.Waiting? ==>
          r.block == ToU16(|r.accepted| + 1) && r.ack == AckAt(c, |r.accepted|))
    && (Closing(r) ==>
          |r.accepted| == |c.blocks| && r.block == ToU16(|r.accepted|) && r.ack == AckAt(c, |r.accepted|))
    && (r.pc.Waiting? || r.pc.Finished? ==> r.flushed == |r.accepted|)
    && (c.kind.CppUpload? && (r.pc.Sending? || r.pc.FinalAck? || r.pc.Dallying?) ==> r.flushed == |r.accepted|)
    && (c.kind.ServerUpload? && (r.pc.FinalAck? || r.pc.Dallying?) ==> r.flushed == |r.accepted|)
    && (r.published ==> |r.accepted| == |c.blocks| == r.flushed)
    && (c.kind.CppUpload? && (r.pc.FinalAck? || r.pc.Dallying? || r.pc.Finished?) ==> r.published)
  }

  ghost predicate Inv(c: Config, s: System) {
    var sent: int, expected: int := s.snd.count, Expected(s.rcv);
    && SenderOk(c, s.snd) && ReceiverOk(c, s.rcv)
    && sent <= expected <= sent + 1
    && (s.snd.pc.Finished? ==> expected == sent + 1)
    && Window(s.data, DataAt(c, expected - 1), DataAt(c, sent))
    && Window(s.acks, AckAt(c, sent - 1), AckAt(c, expected - 1))
  }

  /** The C++ receiver needs the block numbers not to wrap. */
  ghost predicate InRange(c: Config) {
    c.kind.CppUpload? ==> |c.blocks| < 0x1_0000
  }

  lemma {:induction false} WindowSuffix(ch: seq<Packet>, k: nat, lo: Packet, hi: Packet)
    requires Window(ch, lo, hi) && k <= |ch|
    ensures Window(ch[k..], lo, hi)
  {
  }

  lemma {:induction false} WindowRemove(ch: seq<Packet>, i: nat, lo: Packet, hi: Packet)
    requires Window(ch, lo, hi) && i < |ch|
    ensures Window(Remove(ch, i), lo, hi)
  {
  }

  lemma {:induction false} WindowDuplicate(ch: seq<Packet>, i: nat, lo: Packet, hi: Packet)
    requires Window(ch, lo, hi) && i < |ch|
    ensures Window(Duplicate(ch, i), lo, hi)
  {
  }

  lemma {:induction false} WindowAppend(ch: seq<Packet>, out: seq<Packet>, lo: Packet, hi: Packet)
    requires Window(ch, lo, hi) && forall i :: 0 <= i < |out| ==> out[i] == hi
    ensures Window(ch + out, lo, hi)
  {
  }

  /** Once the newest packet has come out, only copies of it are left: the window can move on. */
  lemma {:induction false} WindowAdvance(ch: seq<Packet>, k: nat, lo: Packet, hi: Packet, next: Packet)
    requires Window(ch, lo, hi) && 0 < k <= |ch| && ch[0] == hi
    ensures Window(ch[k..], hi, next)
  {
  }

  /** When both edges are the same packet the far edge can move on. */
  lemma {:induction false} WindowWiden(ch: seq<Packet>, lo: Packet, next: Packet)
    requires Window(ch, lo, lo)
    ensures Window(ch, lo, next)
  {
  }

  lemma {:induction false} U16Neighbours(n: nat)
    ensures ToU16(n + 1) != ToU16(n)
    ensures ToU16(n + 1) == Succ16(ToU16(n))
    ensures ToU16(n) == ToU16(n + 1) - 1 || (ToU16(n + 1) == 0 && 0x1_0000 <= n + 1)
  {
  }

  /** The awaited acknowledgement ends the transfer or starts the next block. */
  lemma {:induction false} AwaitedAck(c: Config, s: Sender)
    requires c.Valid() && SenderOk(c, s) && (if AckAt(c, s.count).Request? then s.pc.Listening? else s.pc.Waiting?)
    ensures var q := SenderReceive(c, s, AckAt(c, s.count));
            SenderOk(c, q) && q == if q.pc.Finished? then s.(pc := SenderPc.Finished) else NextBlock(s)
  {
    U16Neighbours(s.count);
  }

  /** A copy of the acknowledgement before leads to a resend or to nothing. */
  lemma {:induction false} StaleAck(c: Config, s: Sender)
    requires c.Valid() && SenderOk(c, s) && s.pc.Waiting? && 0 < s.count
    ensures var q := SenderReceive(c, s, AckAt(c, s.count - 1));
            SenderOk(c, q) && (q == s || q == s.(pc := SenderPc.Sending))
  {
    U16Neighbours(s.count - 1);
  }

  lemma {:induction false} SenderMoves(c: Config, s: System, flush: nat, q: Sender)
    requires Inv(c, s) && SenderOk(c, q) && flush < |s.acks|
    requires q.pc.Finished? ==> q.count == s.snd.count && Expected(s.rcv) == s.snd.count + 1
    requires || q.count == s.snd.count
             || (q.count == s.snd.count + 1 == Expected(s.rcv) && s.acks[0] == AckAt(c, s.snd.count))
    ensures Inv(c, s.(snd := q, acks := s.acks[1 + flush..]))
  {
    var sent: int, expected: int := s.snd.count, Expected(s.rcv);
    var lo, hi := AckAt(c, sent - 1), AckAt(c, expected - 1);
    WindowSuffix(s.acks, 1 + flush, lo, hi);
    if q.count == sent + 1 {
      WindowAdvance(s.acks, 1 + flush, lo, hi, hi);
      WindowWiden(s.data, DataAt(c, sent), DataAt(c, sent + 1));
    }
  }

  lemma {:induction false} SenderStepKeepsInv(c: Config, s: System, flush: nat)
    requires c.Valid() && Inv(c, s) && Enabled(c, s, SndReceive(flush))
    ensures Inv(c, Next(c, s, SndReceive(flush)))
  {
    if s.acks[0] == AckAt(c, s.snd.count) && Expected(s.rcv) == s.snd.count + 1 {
      AwaitedAck(c, s.snd);
    } else {
      assert s.acks[0] == AckAt(c, s.snd.count as int - 1);
      StaleAck(c, s.snd);
    }
    SenderMoves(c, s, flush, SenderReceive(c, s.snd, s.acks[0]));
  }

  /** The awaited block is queued behind the ones before it. */
  lemma {:induction false} AwaitedBlock(c: Config, r: Receiver)
    requires c.Valid() && ReceiverOk(c, r) && r.pc.Waiting?
    ensures var q := ReceiverReceive(c, r, DataAt(c, |r.accepted| + 1));
            ReceiverOk(c, q) && q.accepted == c.blocks[..|r.accepted| + 1] && !q.pc.Listening?
  {
    var n := |r.accepted| + 1;
    U16Neighbours(n);
    assert c.blocks[..n] == c.blocks[..n - 1] + [c.blocks[n - 1]];
  }

  /** A copy of the block before is answered or ignored, never written. */
  lemma {:induction false} StaleBlock(c: Config, r: Receiver)
    requires c.Valid() && InRange(c) && ReceiverOk(c, r) && r.pc.Waiting? && r.accepted != []
    ensures var q := ReceiverReceive(c, r, DataAt(c, |r.accepted|));
            ReceiverOk(c, q) && q.accepted == r.accepted && q.timeout == r.timeout &&
            (q.pc == r.pc || q.pc == AckingPc(c))
  {
    U16Neighbours(|r.accepted|);
  }

  lemma {:induction false} ReceiverMoves(c: Config, s: System, flush: nat, q: Receiver)
    requires Inv(c, s) && ReceiverOk(c, q) && flush < |s.data|
    requires || Expected(q) == Expected(s.rcv)
             || (Expected(q) == Expected(s.rcv) + 1 == s.snd.count + 1 && s.data[0] == DataAt(c, s.snd.count))
    ensures Inv(c, s.(rcv := q, data := s.data[1 + flush..]))
  {
    var sent: int, expected: int := s.snd.count, Expected(s.rcv);
    var lo, hi := DataAt(c, expected - 1), DataAt(c, sent);
    WindowSuffix(s.data, 1 + flush, lo, hi);
    if Expected(q) == expected + 1 {
      WindowAdvance(s.data, 1 + flush, lo, hi, hi);
      WindowWiden(s.acks, AckAt(c, sent - 1), AckAt(c, sent));
    }
  }

  lemma {:induction false} WaitingReceiverKeepsInv(c: Config, s: System, flush: nat)
    requires c.Valid() && InRange(c) && Inv(c, s) && Enabled(c, s, RcvReceive(flush, false)) && s.rcv.pc.Waiting?
    ensures Inv(c, Next(c, s, RcvReceive(flush, false)))
  {
    if s.data[0] == DataAt(c, s.snd.count) && Expected(s.rcv) == s.snd.count {
      AwaitedBlock(c, s.rcv);
    } else {
      assert s.data[0] == DataAt(c, |s.rcv.accepted|);
      StaleBlock(c, s.rcv);
    }
    ReceiverMoves(c, s, flush, ReceiverReceive(c, s.rcv, s.data[0]));
  }

  lemma {:induction false} DallyingKeepsInv(c: Config, s: System, flush: nat, resend: bool)
    requires Inv(c, s) && Enabled(c, s, RcvReceive(flush, resend)) && s.rcv.pc.Dallying?
    ensures Inv(c, Next(c, s, RcvReceive(flush, resend)))
  {
    var sent: int, expected: int := s.snd.count, Expected(s.rcv);
    WindowSuffix(s.data, 1 + flush, DataAt(c, expected - 1), DataAt(c, sent));
    WindowAppend(s.acks, [s.rcv.ack], AckAt(c, sent - 1), AckAt(c, expected - 1));
  }

  lemma {:induction false} ListeningKeepsInv(c: Config, s: System, flush: nat)
    requires c.Valid() && Inv(c, s) && Enabled(c, s, RcvReceive(flush, false)) && s.rcv.pc.Listening?
    ensures Inv(c, Next(c, s, RcvReceive(flush, false)))
  {
    ReceiverMoves(c, s, flush, ReceiverReceive(c, s.rcv, Request));
  }

  lemma {:induction false} ReceiverStepKeepsInv(c: Config, s: System, flush: nat, resend: bool)
    requires c.Valid() && InRange(c) && Inv(c, s) && Enabled(c, s, RcvReceive(flush, resend))
    ensures Inv(c, Next(c, s, RcvReceive(flush, resend)))
  {
    if s.rcv.pc.Waiting? {
      WaitingReceiverKeepsInv(c, s, flush);
    } else if s.rcv.pc.Dallying? {
      DallyingKeepsInv(c, s, flush, resend);
    } else {
      ListeningKeepsInv(c, s, flush);
    }
  }

  /** A local operation sends nothing but the acknowledgement of the last block accepted. */
  lemma {:induction false} AdvanceKeepsOk(c: Config, r: Receiver)
    requires c.Valid() && ReceiverOk(c, r)
    requires r.pc.Sending? || r.pc.Flushing? || r.pc.FinalFlush? || r.pc.FinalAck?
    ensures var (q, out) := ReceiverAdvance(c, r);
            && ReceiverOk(c, q) && Expected(q) == Expected(r)
            && forall i :: 0 <= i < |out| ==> out[i] == AckAt(c, Expected(r) - 1)
  {
  }

  lemma {:induction false} AdvanceKeepsInv(c: Config, s: System)
    requires c.Valid() && Inv(c, s) && Enabled(c, s, RcvAdvance)
    ensures Inv(c, Next(c, s, RcvAdvance))
  {
    AdvanceKeepsOk(c, s.rcv);
    WindowAppend(s.acks, ReceiverAdvance(c, s.rcv).1, AckAt(c, s.snd.count - 1), AckAt(c, Expected(s.rcv) - 1));
  }

  lemma {:induction false} DataKeepsInv(c: Config, s: System, ch: seq<Packet>)
    requires Inv(c, s) && Window(ch, DataAt(c, Expected(s.rcv) - 1), DataAt(c, s.snd.count))
    ensures Inv(c, s.(data := ch))
  {
  }

  lemma {:induction false} AcksKeepInv(c: Config, s: System, ch: seq<Packet>)
    requires Inv(c, s) && Window(ch, AckAt(c, s.snd.count - 1), AckAt(c, Expected(s.rcv) - 1))
    ensures Inv(c, s.(acks := ch))
  {
  }

  lemma {:induction false} NetworkKeepsInv(c: Config, s: System, t: Step)
    requires Inv(c, s) && Enabled(c, s, t)
    requires t.DropData? || t.DropAck? || t.DupData? || t.DupAck?
    ensures Inv(c, Next(c, s, t))
  {
    var sent: int, expected: int := s.snd.count, Expected(s.rcv);
    match t
    case DropData(i) =>
      WindowRemove(s.data, i, DataAt(c, expected - 1), DataAt(c, sent));
      DataKeepsInv(c, s, Remove(s.data, i));
    case DropAck(i) =>
      WindowRemove(s.acks, i, AckAt(c, sent - 1), AckAt(c, expected - 1));
      AcksKeepInv(c, s, Remove(s.acks, i));
    case DupData(i) =>
      WindowDuplicate(s.data, i, DataAt(c, expected - 1), DataAt(c, sent));
      DataKeepsInv(c, s, Duplicate(s.data, i));
    case DupAck(i) =>
      WindowDuplicate(s.acks, i, AckAt(c, sent - 1), AckAt(c, expected - 1));
      AcksKeepInv(c, s, Duplicate(s.acks, i));
  }

  lemma {:induction false} SendingKeepsInv(c: Config, s: System)
    requires Inv(c, s) && Enabled(c, s, SndSend)
    ensures Inv(c, Next(c, s, SndSend))
  {
  }

  lemma {:induction false} TimeoutKeepsInv(c: Config, s: System, t: Step)
    requires Inv(c, s) && Enabled(c, s, t) && (t.SndTimeout? || t.RcvTimeout?)
    ensures Inv(c, Next(c, s, t))
  {
  }

  lemma {:induction false} StepKeepsInv(c: Config, s: System, t: Step)
    requires c.Valid() && InRange(c) && Inv(c, s) && Enabled(c, s, t)
    ensures Inv(c, Next(c, s, t))
  {
    match t
    case SndSend => SendingKeepsInv(c, s);
    case SndReceive(flush) => SenderStepKeepsInv(c, s, flush);
    case RcvAdvance => AdvanceKeepsInv(c, s);
    case RcvReceive(flush, resend) => ReceiverStepKeepsInv(c, s, flush, resend);
    case SndTimeout => TimeoutKeepsInv(c, s, t);
    case RcvTimeout => TimeoutKeepsInv(c, s, t);
    case _ => NetworkKeepsInv(c, s, t);
  }

  lemma {:induction false} Reachable(c: Config, steps: seq<Step>)
    requires c.Valid() && InRange(c) && Run(c, steps).Some?
    ensures Inv(c, Run(c, steps).value)
  {
    if steps == [] {
    } else {
      var before := steps[..|steps| - 1];
      Reachable(c, before);
      StepKeepsInv(c, Run(c, before).value, steps[|steps| - 1]);
    }
  }

  predicate Goes(c: Config, s: System, t: Step, s': System) {
    Enabled(c, s, t) && Next(c, s, t) == s'
  }

  /** The states passed through when the steps ts are taken one after the other. */
  ghost predicate Trace(c: Config, ss: seq<System>, ts: seq<Step>) {
    && |ss| == |ts| + 1
    && forall i :: 0 <= i < |ts| ==> Goes(c, ss[i], ts[i], ss[i + 1])
  }

  lemma {:induction false} OneStepMore(c: Config, steps: seq<Step>, s: System, t: Step, s': System)
    requires Run(c, steps) == Some(s) && Goes(c, s, t, s')
    ensures Run(c, steps + [t]) == Some(s')
  {
    assert (steps + [t])[..|steps|] == steps;
  }

  /** A run can be prolonged by any trace that starts where it ends. */
  lemma {:induction false} Prolong(c: Config, steps: seq<Step>, ss: seq<System>, ts: seq<Step>)
    requires Trace(c, ss, ts) && Run(c, steps) == Some(ss[0])
    ensures Run(c, steps + ts) == Some(ss[|ts|])
  {
    if ts == [] {
      assert steps + ts == steps;
    } else {
      var k := |ts| - 1;
      TraceInit(c, ss, ts);
      Prolong(c, steps, ss[..k + 1], ts[..k]);
      OneStepMore(c, steps + ts[..k], ss[k], ts[k], ss[k + 1]);
      SameSteps(steps, ts);
    }
  }

  lemma {:induction false} TraceInit(c: Config, ss: seq<System>, ts: seq<Step>)
    requires Trace(c, ss, ts) && ts != []
    ensures var k := |ts| - 1; Trace(c, ss[..k + 1], ts[..k]) && Goes(c, ss[k], ts[k], ss[k + 1])
  {
  }

  lemma {:induction false} SameSteps(steps: seq<Step>, ts: seq<Step>)
    requires ts != []
    ensures steps + ts[..|ts| - 1] + [ts[|ts| - 1]] == steps + ts
  {
  }

  lemma {:induction false} TraceAppend(c: Config, ss: seq<System>, ts: seq<Step>, ss': seq<System>, ts': seq<Step>)
    requires Trace(c, ss, ts) && Trace(c, ss', ts') && ss[|ts|] == ss'[0]
    ensures Trace(c, ss + ss'[1..], ts + ts')
    ensures (ss + ss'[1..])[0] == ss[0] && (ss + ss'[1..])[|ts + ts'|] == ss'[|ts'|]
  {
    var all, steps, k := ss + ss'[1..], ts + ts', |ts|;
    assert forall j :: 0 <= j <= |ts'| ==> all[k + j] == ss'[j];
    forall i | 0 <= i < |steps| ensures Goes(c, all[i], steps[i], all[i + 1]) {
      if i < k {
        assert Goes(c, ss[i], ts[i], ss[i + 1]);
      } else {
        assert all[k + (i - k)] == ss'[i - k] && all[k + (i - k + 1)] == ss'[i - k + 1];
        assert Goes(c, ss'[i - k], ts'[i - k], ss'[i - k + 1]);
      }
    }
  }

  /** One trace after the other. */
  lemma {:induction false} Follow(c: Config, ss: seq<System>, ts: seq<Step>, ss': seq<System>, ts': seq<Step>)
    returns (all: seq<System>, steps: seq<Step>)
    requires Trace(c, ss, ts) && Trace(c, ss', ts') && ss[|ts|] == ss'[0]
    ensures Trace(c, all, steps) && all[0] == ss[0] && all[|steps|] == ss'[|ts'|]
  {
    TraceAppend(c, ss, ts, ss', ts');
    return ss + ss'[1..], ts + ts';
  }

  lemma {:induction false} RunTo(c: Config, ss: seq<System>, ts: seq<Step>)
    requires Trace(c, ss, ts) && ss[0] == Init(c)
    ensures Run(c, ts) == Some(ss[|ts|])
  {
    Prolong(c, [], ss, ts);
    assert [] + ts == ts;
  }
}
