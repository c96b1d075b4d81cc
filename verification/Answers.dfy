/**
 * What each party sends in answer to what it hears while it waits, in terms of packets: the tables that the
 * machines and, through them, the loops and handlers come to.
 */
module Answers {
  import opened Common
  import opened Machines
  import opened Scripts
  import CppReceiver
  import Fifo
  import EndToEnd
  import Termination

  // ---------------------------------------------------------------- senders

  /** Block `count` sent once under this number; 0 is the request. A debugging client sends odd blocks three times. */
  function Transmission(c: Config, count: nat, block: U16): seq<Packet>
    requires count <= |c.blocks|
  {
    var p := if count == 0 then Request else Data(block, c.blocks[count - 1]);
    if c.debug && block % 2 == 1 then [p, p, p] else [p]
  }

  /** The answer to the acknowledgement that is waited for. */
  ghost predicate GoesOn(c: Config, s: Sender, out: seq<Packet>, q: Sender, more: seq<Packet>)
    requires s.count <= |c.blocks|
  {
    if s.count == 0 || |c.blocks[s.count - 1]| == c.seg then
      && s.count < |c.blocks|
      && more == out + Transmission(c, s.count + 1, (s.block + 1) % 65536)
      && q == Sender(SenderPc.Waiting, s.count + 1, (s.block + 1) % 65536, 0)
    else more == out && q == s.(pc := SenderPc.Finished)
  }

  ghost predicate SendsAgain(c: Config, s: Sender, out: seq<Packet>, q: Sender, more: seq<Packet>)
    requires s.count <= |c.blocks|
  {
    more == out + Transmission(c, s.count, s.block) && q == s
  }

  /** What a waiting sender has sent, and where it is, before and after an event. */
  ghost predicate SenderTable(c: Config, s: Sender, out: seq<Packet>, e: Event, q: Sender, more: seq<Packet>)
    requires s.count <= |c.blocks|
  {
    match e
    case Timeout =>
      if s.timeout + c.rexmt < c.maxTimeout then
        SendsAgain(c, s, out, q.(timeout := s.timeout), more) && q.timeout == s.timeout + c.rexmt
      else more == out && q.pc.Failed?
    case Arrival(Ack(b)) =>
      if b == s.block then GoesOn(c, s, out, q, more)
      else if s.block != 0 && b == s.block - 1 then SendsAgain(c, s, out, q, more)
      else more == out && q == s
    case Arrival(Oack) => if c.options && s.count == 0 then GoesOn(c, s, out, q, more) else more == out && q == s
    case Arrival(Error) => more == out && q.pc.Failed?
    case Arrival(_) => more == out && q == s
  }

  lemma {:induction false} SendIsTransmission(c: Config, s: Sender)
    requires s.count <= |c.blocks|
    ensures SenderSend(c, s) == (s.(pc := SenderPc.Waiting), Transmission(c, s.count, s.block))
  {
    assert SenderSend(c, s).1 == Transmission(c, s.count, s.block);
  }

  lemma {:induction false} SenderHearsOne(c: Config, start: Sender, events: seq<Event>, e: Event)
    requires c.Valid() && SenderReady(c, start)
    ensures var (s, out) := SenderRun(c, start, events);
            var q := SenderOn(c, s, e);
            SenderRun(c, start, events + [e]) ==
              if q.pc.Sending? then (q.(pc := SenderPc.Waiting), out + Transmission(c, q.count, q.block)) else (q, out)
  {
    assert (events + [e])[..|events|] == events;
    SendIsTransmission(c, SenderOn(c, SenderRun(c, start, events).0, e));
  }

  /**
   * For every script after which a sender waits: an expiry below the limit makes it transmit the block on which it
   * waits exactly once more, and so does the acknowledgement before the awaited one unless the number of the block is
   * 0; the awaited one makes it transmit the next block or ends the transfer; nothing else makes it send anything.
   */
  lemma {:induction false} SenderAnswers(c: Config, start: Sender, events: seq<Event>, e: Event)
    requires c.Valid() && SenderReady(c, start) && SenderRun(c, start, events).0.pc.Waiting?
    ensures var (s, out) := SenderRun(c, start, events);
            var (q, more) := SenderRun(c, start, events + [e]);
            SenderTable(c, s, out, e, q, more)
  {
    SenderHearsOne(c, start, events, e);
  }

  /** What a sender begins with: the server with block 1, the client with its request. */
  lemma {:induction false} SenderBegins(c: Config)
    requires c.Valid()
    ensures SenderReady(c, EndToEnd.SenderStart(c)) && 1 <= |c.blocks|
    ensures SenderRun(c, EndToEnd.SenderStart(c), []) ==
            if c.kind.ClientDownload? then (Sender(SenderPc.Waiting, 1, 1, 0), Transmission(c, 1, 1))
            else (Sender(SenderPc.Waiting, 0, 0, 0), [Request])
  {
    var start := EndToEnd.SenderStart(c);
    SendIsTransmission(c, start);
    assert [] + Transmission(c, start.count, start.block) == Transmission(c, start.count, start.block);
  }

  lemma {:induction false} WaitingSender(c: Config, steps: seq<Fifo.Step>)
    requires c.Valid() && Fifo.Run(c, steps).Some? && Fifo.Run(c, steps).value.snd.pc.Waiting?
    ensures var s := Fifo.Run(c, steps).value.snd;
            && s.count <= |c.blocks| && s.block == s.count % 65536
            && SenderReady(c, EndToEnd.SenderStart(c))
            && SenderRun(c, EndToEnd.SenderStart(c), EndToEnd.SenderView(c, steps)).0 == s
  {
    Termination.Reachable(c, steps);
    EndToEnd.SenderFollowsView(c, steps);
  }

  /** In every run: a sender on block n hears the acknowledgement of block n - 1 again. */
  lemma {:induction false} RepeatedAck(c: Config, steps: seq<Fifo.Step>)
    requires c.Valid() && Fifo.Run(c, steps).Some?
    requires Fifo.Run(c, steps).value.snd.pc.Waiting? && 1 <= Fifo.Run(c, steps).value.snd.count
    ensures var n, start := Fifo.Run(c, steps).value.snd.count, EndToEnd.SenderStart(c);
            var view := EndToEnd.SenderView(c, steps);
            && SenderReady(c, start) && n <= |c.blocks|
            && SenderRun(c, start, view + [Arrival(Ack((n - 1) % 65536))]).1 ==
                 SenderRun(c, start, view).1 + if n % 65536 != 0 then Transmission(c, n, n % 65536) else []
  {
    var s0, view, start := Fifo.Run(c, steps).value.snd, EndToEnd.SenderView(c, steps), EndToEnd.SenderStart(c);
    var n := s0.count;
    WaitingSender(c, steps);
    var e := Arrival(Ack((n - 1) % 65536));
    var (s, out) := SenderRun(c, start, view);
    var (q, more) := SenderRun(c, start, view + [e]);
    SenderAnswers(c, start, view, e);
    AckBefore(c, s, out, n, q, more);
  }

  lemma {:induction false} AckBefore(c: Config, s: Sender, out: seq<Packet>, n: nat, q: Sender, more: seq<Packet>)
    requires 1 <= n == s.count <= |c.blocks| && s.block == n % 65536
    requires SenderTable(c, s, out, Arrival(Ack((n - 1) % 65536)), q, more)
    ensures more == out + if n % 65536 != 0 then Transmission(c, n, n % 65536) else []
  {
    Fifo.U16Neighbours(n - 1);
    assert out + [] == out;
  }

  // ---------------------------------------------------------------- the C receivers

  /** The block that is waited for is taken and acknowledged; a short one is the last. */
  ghost predicate Takes(c: Config, r: Receiver, payload: seq<byte>, out: seq<Packet>, q: Receiver, more: seq<Packet>) {
    && more == out + [Ack(r.block)]
    && q.accepted == r.accepted + [payload] && q.flushed == |q.accepted|
    && if |payload| == c.seg then
         q.pc.Waiting? && q.block == (r.block + 1) % 65536 && q.ack == Ack(r.block) &&
         q.timeout == if c.kind.CppUpload? then r.timeout else 0
       else
         && q.pc == (if c.kind.ClientDownload? then ReceiverPc.Finished else ReceiverPc.Dallying)
         && (c.kind.CppUpload? ==> q.published)
  }

  /** The last packet is sent again. */
  ghost predicate Repeats(r: Receiver, out: seq<Packet>, q: Receiver, more: seq<Packet>) {
    more == out + [r.ack] && q == r.(flushed := |r.accepted|)
  }

  ghost predicate ReceiverTable(c: Config, r: Receiver, out: seq<Packet>, e: Event, q: Receiver, more: seq<Packet>) {
    match e
    case Timeout =>
      if r.timeout + c.rexmt < c.maxTimeout then
        Repeats(r, out, q.(timeout := r.timeout), more) && q.timeout == r.timeout + c.rexmt
      else more == out && q.pc.Failed?
    case Arrival(Data(b, payload)) =>
      if b == r.block then Takes(c, r, payload, out, q, more)
      else if r.block != 0 && b == r.block - 1 then Repeats(r, out, q, more)
      else more == out && q == r
    case Arrival(Error) => more == out && q.pc.Failed?
    case Arrival(_) => more == out && q == r
  }

  lemma {:induction false} ReceiverHearsOne(c: Config, start: Receiver, events: seq<Event>, e: Event)
    ensures var (r, out) := ReceiverRun(c, start, events);
            var (q, last) := Settle(c, ReceiverOn(c, r, e));
            ReceiverRun(c, start, events + [e]) == (q, out + last)
  {
    assert (events + [e])[..|events|] == events;
  }

  lemma {:induction false} SettledAnswer(c: Config, r: Receiver, e: Event, out: seq<Packet>)
    requires !c.kind.CppUpload? && r.pc.Waiting?
    ensures var (q, last) := Settle(c, ReceiverOn(c, r, e)); ReceiverTable(c, r, out, e, q, out + last)
  {
    var q := ReceiverOn(c, r, e);
    if Rank(c, q) == 2 {
      SettleC(c, q);
    } else {
      assert Settle(c, q) == (q, []) && out + [] == out;
    }
  }

  /**
   * For every script after which a C receiver waits: an expiry below the limit makes it repeat its last packet, and so
   * does the block before the awaited one unless the awaited number is 0; the awaited block is acknowledged; nothing
   * else makes it send anything.
   */
  lemma {:induction false} ReceiverAnswers(c: Config, start: Receiver, events: seq<Event>, e: Event)
    requires !c.kind.CppUpload? && ReceiverRun(c, start, events).0.pc.Waiting?
    ensures var (r, out) := ReceiverRun(c, start, events);
            var (q, more) := ReceiverRun(c, start, events + [e]);
            ReceiverTable(c, r, out, e, q, more)
  {
    var (r, out) := ReceiverRun(c, start, events);
    ReceiverHearsOne(c, start, events, e);
    SettledAnswer(c, r, e, out);
  }

  /** Whatever a server hears after the last acknowledgement, a packet or the end of its patience, it is done. */
  lemma {:induction false} DallyingAnswers(c: Config, start: Receiver, events: seq<Event>, e: Event)
    requires ReceiverRun(c, start, events).0.pc.Dallying?
    ensures var (r, out) := ReceiverRun(c, start, events);
            ReceiverRun(c, start, events + [e]) == (r.(pc := ReceiverPc.Finished), out)
  {
    var (r, out) := ReceiverRun(c, start, events);
    ReceiverHearsOne(c, start, events, e);
    assert Settle(c, ReceiverOn(c, r, e)) == (ReceiverOn(c, r, e), []);
    assert out + [] == out;
  }

  // ---------------------------------------------------------------- the C++ receiver

  /** An option acknowledgement is repeated as its first four bytes. */
  function InFourBytes(p: Packet): Packet {
    if p.Oack? then OackHead else p
  }

  ghost predicate CppTable(c: Config, r: Receiver, out: seq<Packet>, e: Event, q: Receiver, more: seq<Packet>) {
    match e
    case Timeout =>
      && more == out
      && if r.timeout + c.rexmt < c.maxTimeout then q == r.(timeout := r.timeout + c.rexmt) else q.pc.Failed?
    case Arrival(Data(b, payload)) =>
      if r.block != 0 && b == r.block - 1 then
        more == out + [InFourBytes(r.ack)] && q == r.(ack := InFourBytes(r.ack), flushed := |r.accepted|)
      else Takes(c, r, payload, out, q, more)
    case Arrival(_) => more == out && q.pc.Failed?
  }

  /**
   * The C++ receiver sends nothing when its timer expires, acknowledges the block before in four bytes, takes every
   * other block for the awaited one, and stops at any other packet.
   */
  lemma {:induction false} CppReceiverAnswers(c: Config, start: Receiver, events: seq<Event>, e: Event)
    requires c.kind.CppUpload? && ReceiverRun(c, start, events).0.pc.Waiting?
    ensures var (r, out) := ReceiverRun(c, start, events);
            var (q, more) := ReceiverRun(c, start, events + [e]);
            CppTable(c, r, out, e, q, more)
  {
    var (r, out) := ReceiverRun(c, start, events);
    ReceiverHearsOne(c, start, events, e);
    CppReceiver.SettleAck(c, ReceiverOn(c, r, e));
    assert out + [] == out;
  }

  // ---------------------------------------------------------------- in every run

  /** The packet a receiver repeats that has taken n blocks. */
  function LastPacket(c: Config, n: nat): Packet {
    if 0 < n then Ack(n % 65536)
    else if c.kind.ClientDownload? then Request
    else if c.kind.CppUpload? && c.options then OackHead
    else Ack(0)
  }

  /** In every run: a receiver that waits for block n + 1 hears block n again. */
  lemma {:induction false} RepeatedBlock(c: Config, steps: seq<Fifo.Step>, payload: seq<byte>)
    requires c.Valid() && Fifo.InRange(c) && Fifo.Run(c, steps).Some? && Fifo.Run(c, steps).value.rcv.pc.Waiting?
    ensures var n, view := |Fifo.Run(c, steps).value.rcv.accepted|, EndToEnd.ReceiverView(c, steps);
            var start := EndToEnd.ReceiverStart(c);
            ReceiverRun(c, start, view + [Arrival(Data(n % 65536, payload))]).1 ==
              ReceiverRun(c, start, view).1 + if (n + 1) % 65536 != 0 then [LastPacket(c, n)] else []
  {
    var r, view, start := Fifo.Run(c, steps).value.rcv, EndToEnd.ReceiverView(c, steps), EndToEnd.ReceiverStart(c);
    var n := |r.accepted|;
    var e := Arrival(Data(n % 65536, payload));
    var out := ReceiverRun(c, start, view).1;
    var (q, more) := ReceiverRun(c, start, view + [e]);
    Fifo.Reachable(c, steps);
    EndToEnd.ReceiverFollowsView(c, steps);
    assert Settle(c, r) == (r, []);
    if c.kind.CppUpload? {
      CppReceiverAnswers(c, start, view, e);
    } else {
      ReceiverAnswers(c, start, view, e);
    }
    BlockBefore(c, r, out, payload, q, more);
  }

  lemma {:induction false} BlockBefore(
      c: Config, r: Receiver, out: seq<Packet>, payload: seq<byte>, q: Receiver, more: seq<Packet>)
    requires Fifo.InRange(c) && r.pc.Waiting? && Fifo.ReceiverOk(c, r)
    requires var e := Arrival(Data(|r.accepted| % 65536, payload));
             if c.kind.CppUpload? then CppTable(c, r, out, e, q, more) else ReceiverTable(c, r, out, e, q, more)
    ensures more == out + if (|r.accepted| + 1) % 65536 != 0 then [LastPacket(c, |r.accepted|)] else []
  {
    Fifo.U16Neighbours(|r.accepted|);
    assert out + [] == out;
  }

  /** In every run: the timer of a waiting receiver expires below the limit. */
  lemma {:induction false} ExpiryOfReceiver(c: Config, steps: seq<Fifo.Step>)
    requires c.Valid() && Fifo.InRange(c) && Fifo.Run(c, steps).Some? && Fifo.Run(c, steps).value.rcv.pc.Waiting?
    requires Fifo.Run(c, steps).value.rcv.timeout + c.rexmt < c.maxTimeout
    ensures var n, view := |Fifo.Run(c, steps).value.rcv.accepted|, EndToEnd.ReceiverView(c, steps);
            var start := EndToEnd.ReceiverStart(c);
            ReceiverRun(c, start, view + [Timeout]).1 ==
              ReceiverRun(c, start, view).1 + if c.kind.CppUpload? then [] else [LastPacket(c, n)]
  {
    var r, view, start := Fifo.Run(c, steps).value.rcv, EndToEnd.ReceiverView(c, steps), EndToEnd.ReceiverStart(c);
    Fifo.Reachable(c, steps);
    EndToEnd.ReceiverFollowsView(c, steps);
    assert Settle(c, r) == (r, []);
    var out := ReceiverRun(c, start, view).1;
    assert out + [] == out;
    if c.kind.CppUpload? {
      CppReceiverAnswers(c, start, view, Timeout);
    } else {
      ReceiverAnswers(c, start, view, Timeout);
    }
  }

  // ---------------------------------------------------------------- silence

  function Expiries(k: nat): seq<Event> {
    if k == 0 then [] else Expiries(k - 1) + [Timeout]
  }

  function Repeated(out: seq<Packet>, k: nat): seq<Packet> {
    if k == 0 then [] else Repeated(out, k - 1) + out
  }

  lemma {:induction false} Again(rexmt: nat, k: nat)
    requires 0 < k
    ensures rexmt * k == rexmt * (k - 1) + rexmt
  {
  }

  /** With no answer at all a sender transmits its first packet once and once more for each expiry below the limit. */
  lemma {:induction false} SenderPatience(c: Config, k: nat)
    requires c.Valid() && (k == 0 || c.rexmt * k < c.maxTimeout)
    ensures var start, n := EndToEnd.SenderStart(c), if c.kind.ClientDownload? then 1 else 0;
            && SenderReady(c, start) && n <= |c.blocks|
            && SenderRun(c, start, Expiries(k)) ==
                 (Sender(SenderPc.Waiting, n, n, c.rexmt * k), Repeated(Transmission(c, n, n), k + 1))
  {
    var start, n := EndToEnd.SenderStart(c), if c.kind.ClientDownload? then 1 else 0;
    SenderBegins(c);
    if k == 0 {
      assert Repeated(Transmission(c, n, n), 1) == [] + Transmission(c, n, n) == Transmission(c, n, n);
    } else {
      Again(c.rexmt, k);
      SenderPatience(c, k - 1);
      SenderAnswers(c, start, Expiries(k - 1), Timeout);
    }
  }

  /** The expiry that reaches the limit ends it without another transmission. */
  lemma {:induction false} SenderGivesUp(c: Config, k: nat)
    requires c.Valid() && 0 < k && c.maxTimeout <= c.rexmt * k && (k == 1 || c.rexmt * (k - 1) < c.maxTimeout)
    ensures var start, n := EndToEnd.SenderStart(c), if c.kind.ClientDownload? then 1 else 0;
            && SenderReady(c, start) && n <= |c.blocks|
            && SenderRun(c, start, Expiries(k)).0.pc.Failed?
            && SenderRun(c, start, Expiries(k)).1 == Repeated(Transmission(c, n, n), k)
  {
    Again(c.rexmt, k);
    SenderPatience(c, k - 1);
    SenderAnswers(c, EndToEnd.SenderStart(c), Expiries(k - 1), Timeout);
  }

  /** What a receiver sends first. */
  function FirstPacket(c: Config): Packet {
    if c.kind.ClientDownload? then Request else if c.kind.CppUpload? && c.options then Oack else Ack(0)
  }

  /** Where a receiver waits after k expiries: only a C receiver has sent its packet again each time. */
  function Patient(c: Config, k: nat): (Receiver, seq<Packet>) {
    (Receiver(ReceiverPc.Waiting, 1, c.rexmt * (if c.kind.CppUpload? then k + 1 else k), FirstPacket(c), [], 0, false),
     Repeated([FirstPacket(c)], if c.kind.CppUpload? then 1 else k + 1))
  }

  lemma {:induction false} ReceiverBegins(c: Config)
    ensures ReceiverRun(c, EndToEnd.ReceiverStart(c), []) == Patient(c, 0)
  {
    var start := EndToEnd.ReceiverStart(c);
    assert Repeated([FirstPacket(c)], 1) == [] + [FirstPacket(c)] == [FirstPacket(c)];
    if c.kind.CppUpload? {
      CppReceiver.SettleAck(c, start);
    } else {
      SettleC(c, start);
    }
    assert [] + [FirstPacket(c)] == [FirstPacket(c)];
  }

  lemma {:induction false} ReceiverPatience(c: Config, k: nat)
    requires 0 < c.rexmt && (k == 0 || c.rexmt * (if c.kind.CppUpload? then k + 1 else k) < c.maxTimeout)
    ensures ReceiverRun(c, EndToEnd.ReceiverStart(c), Expiries(k)) == Patient(c, k)
  {
    if k == 0 {
      ReceiverBegins(c);
    } else {
      Again(c.rexmt, k);
      Again(c.rexmt, k + 1);
      ReceiverPatience(c, k - 1);
      if c.kind.CppUpload? {
        CppReceiverAnswers(c, EndToEnd.ReceiverStart(c), Expiries(k - 1), Timeout);
      } else {
        ReceiverAnswers(c, EndToEnd.ReceiverStart(c), Expiries(k - 1), Timeout);
      }
    }
  }

  /** The same ending for the receivers; the clock of the C++ one was a step ahead from the start. */
  lemma {:induction false} ReceiverGivesUp(c: Config, k: nat)
    requires 0 < c.rexmt && 0 < k
    requires var n := if c.kind.CppUpload? then k + 1 else k;
             c.maxTimeout <= c.rexmt * n && (k == 1 || c.rexmt * (n - 1) < c.maxTimeout)
    ensures ReceiverRun(c, EndToEnd.ReceiverStart(c), Expiries(k)).0.pc.Failed?
    ensures ReceiverRun(c, EndToEnd.ReceiverStart(c), Expiries(k)).1 == Patient(c, k - 1).1
  {
    Again(c.rexmt, k);
    Again(c.rexmt, k + 1);
    ReceiverPatience(c, k - 1);
    if c.kind.CppUpload? {
      CppReceiverAnswers(c, EndToEnd.ReceiverStart(c), Expiries(k - 1), Timeout);
    } else {
      ReceiverAnswers(c, EndToEnd.ReceiverStart(c), Expiries(k - 1), Timeout);
    }
  }

  /** With an interval of 1 and a limit of 5: a C party transmits five times, the C++ server once, for less time. */
  lemma {:induction false} SilenceWithServerConstants(c: Config)
    requires c.Valid() && c.rexmt == 1 && c.maxTimeout == 5
    ensures var start, n := EndToEnd.SenderStart(c), if c.kind.ClientDownload? then 1 else 0;
            && SenderReady(c, start) && n <= |c.blocks|
            && SenderRun(c, start, Expiries(4)).0.pc.Waiting? && SenderRun(c, start, Expiries(5)).0.pc.Failed?
            && SenderRun(c, start, Expiries(5)).1 == Repeated(Transmission(c, n, n), 5)
    ensures var start, k := EndToEnd.ReceiverStart(c), if c.kind.CppUpload? then 3 else 4;
            && ReceiverRun(c, start, Expiries(k)).0.pc.Waiting? && ReceiverRun(c, start, Expiries(k + 1)).0.pc.Failed?
            && ReceiverRun(c, start, Expiries(k + 1)).1 ==
                 Repeated([FirstPacket(c)], if c.kind.CppUpload? then 1 else 5)
  {
    var k := if c.kind.CppUpload? then 3 else 4;
    SenderPatience(c, 4);
    SenderGivesUp(c, 5);
    ReceiverPatience(c, k);
    ReceiverGivesUp(c, k + 1);
  }
}
