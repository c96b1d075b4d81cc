/**
 * One party on its own: what it has sent, and where it stands, after a script of the events
 * its blocking receive has returned with.
 */
module Scripts {
  import opened Common
  import opened Machines

  datatype Event = Timeout | Arrival(p: Packet)

  /** What a blocking receive leads to: send again, keep waiting, go on, or give up. */
  datatype Outcome = Resend | Ignore | GoOn | GiveUp

  /**
   * What a loop of the C programs works with: the mode, the build that sends odd blocks three times, the timer
   * settings, and the script.
   */
  datatype Setup = Setup(convert: bool, debug: bool, rexmt: nat, maxTimeout: nat, events: seq<Event>)

  ghost predicate SameClock(c: Config, setup: Setup) {
    c.rexmt == setup.rexmt && c.maxTimeout == setup.maxTimeout
  }

  function Timed(timeout: nat, rexmt: nat, e: Event): nat {
    if e.Timeout? then timeout + rexmt else timeout
  }

  // ---------------------------------------------------------------- senders

  ghost predicate SenderReady(c: Config, s: Sender) {
    s.count <= |c.blocks| && (s.pc.Listening? ==> s.count == 0)
  }

  function SenderOn(c: Config, s: Sender, e: Event): Sender
    requires s.count <= |c.blocks|
  {
    match e
    case Timeout => if s.pc.Waiting? then SenderTimeout(c, s) else s
    case Arrival(p) => SenderReceive(c, s, p)
  }

  /** After the events, before the packet that answers the last of them has been sent. */
  ghost function SenderAfter(c: Config, s: Sender, events: seq<Event>): (r: (Sender, seq<Packet>))
    requires c.Valid() && SenderReady(c, s)
    ensures SenderReady(c, r.0)
    decreases |events|, 0
  {
    if events == [] then (s, [])
    else
      var (q, sent) := SenderRun(c, s, events[..|events| - 1]);
      (SenderOn(c, q, events[|events| - 1]), sent)
  }

  /** After the events, waiting again or stopped. */
  ghost function SenderRun(c: Config, s: Sender, events: seq<Event>): (r: (Sender, seq<Packet>))
    requires c.Valid() && SenderReady(c, s)
    ensures SenderReady(c, r.0)
    decreases |events|, 1
  {
    var (q, sent) := SenderAfter(c, s, events);
    if q.pc.Sending? then
      var (q', out) := SenderSend(c, q);
      (q', sent + out)
    else (q, sent)
  }

  /** The i-th event is heard in the state the first i have led to. */
  lemma {:induction false} SenderHears(c: Config, s: Sender, events: seq<Event>, i: nat)
    requires c.Valid() && SenderReady(c, s) && i < |events|
    ensures var (q, sent) := SenderRun(c, s, events[..i]);
            SenderAfter(c, s, events[..i + 1]) == (SenderOn(c, q, events[i]), sent)
  {
    assert events[..i + 1][..i] == events[..i];
  }

  /** A sender that has stopped ignores the rest of the script. */
  lemma {:induction false} SenderStopped(c: Config, s: Sender, events: seq<Event>, i: nat)
    requires c.Valid() && SenderReady(c, s) && i <= |events|
    requires var pc := SenderAfter(c, s, events[..i]).0.pc; pc.Finished? || pc.Failed?
    ensures SenderRun(c, s, events) == SenderAfter(c, s, events[..i])
    decreases |events| - i
  {
    if i == |events| {
      assert events[..i] == events;
    } else {
      SenderHears(c, s, events, i);
      SenderStopped(c, s, events, i + 1);
    }
  }

  // -------------------------------------------------------------- receivers

  function ReceiverOn(c: Config, r: Receiver, e: Event): Receiver {
    if r.pc.Dallying? then r.(pc := ReceiverPc.Finished)
    else
      match e
      case Timeout => if r.pc.Waiting? then ReceiverTimeout(c, r) else r
      case Arrival(p) => ReceiverReceive(c, r, p)
  }

  function Rank(c: Config, r: Receiver): nat {
    match r.pc
    case Sending => if c.kind.CppUpload? then 1 else 2
    case Flushing => if c.kind.CppUpload? then 2 else 1
    case FinalFlush => if c.kind.ClientDownload? then 1 else 2
    case FinalAck => if c.kind.ClientDownload? then 2 else 1
    case _ => 0
  }

  /** All local operations up to the next blocking one. */
  function Settle(c: Config, r: Receiver): (Receiver, seq<Packet>)
    decreases Rank(c, r)
  {
    if Rank(c, r) == 0 then (r, [])
    else
      var (q, out) := ReceiverAdvance(c, r);
      var (q', out') := Settle(c, q);
      (q', out + out')
  }

  /** After the events, before the local operations that follow the last of them. */
  ghost function ReceiverAfter(c: Config, r: Receiver, events: seq<Event>): (Receiver, seq<Packet>)
    decreases |events|, 0
  {
    if events == [] then (r, [])
    else
      var (q, sent) := ReceiverRun(c, r, events[..|events| - 1]);
      (ReceiverOn(c, q, events[|events| - 1]), sent)
  }

  ghost function ReceiverRun(c: Config, r: Receiver, events: seq<Event>): (Receiver, seq<Packet>)
    decreases |events|, 1
  {
    var (q, sent) := ReceiverAfter(c, r, events);
    var (q', out) := Settle(c, q);
    (q', sent + out)
  }

  lemma {:induction false} ReceiverHears(c: Config, r: Receiver, events: seq<Event>, i: nat)
    requires i < |events|
    ensures var (q, sent) := ReceiverRun(c, r, events[..i]);
            ReceiverAfter(c, r, events[..i + 1]) == (ReceiverOn(c, q, events[i]), sent)
  {
    assert events[..i + 1][..i] == events[..i];
  }

  /** Where the next operation is a blocking one there is nothing to settle. */
  lemma {:induction false} ReceiverQuiet(c: Config, r: Receiver, events: seq<Event>)
    requires Rank(c, ReceiverAfter(c, r, events).0) == 0
    ensures ReceiverRun(c, r, events) == ReceiverAfter(c, r, events)
  {
    var (q, sent) := ReceiverAfter(c, r, events);
    assert Settle(c, q) == (q, []);
    assert sent + [] == sent;
  }

  lemma {:induction false} ReceiverStopped(c: Config, r: Receiver, events: seq<Event>, i: nat)
    requires i <= |events|
    requires var pc := ReceiverAfter(c, r, events[..i]).0.pc; pc.Finished? || pc.Failed?
    ensures ReceiverRun(c, r, events) == ReceiverAfter(c, r, events[..i])
    decreases |events| - i
  {
    if i == |events| {
      assert events[..i] == events;
      ReceiverQuiet(c, r, events);
    } else {
      ReceiverHears(c, r, events, i);
      ReceiverQuiet(c, r, events[..i]);
      ReceiverStopped(c, r, events, i + 1);
    }
  }

  lemma {:induction false} ReceiverDone(c: Config, r: Receiver, events: seq<Event>, i: nat)
    requires i <= |events|
    requires var pc := ReceiverRun(c, r, events[..i]).0.pc; pc.Finished? || pc.Failed?
    ensures ReceiverRun(c, r, events) == ReceiverRun(c, r, events[..i])
  {
    if i == |events| {
      assert events[..i] == events;
    } else {
      ReceiverHears(c, r, events, i);
      ReceiverStopped(c, r, events, i + 1);
    }
  }

  /** The local operations of the C receivers, in one go: one packet is sent and the file is flushed. */
  lemma {:induction false} SettleC(c: Config, r: Receiver)
    requires !c.kind.CppUpload? && Rank(c, r) == 2
    ensures var last := match r.pc
                        case Sending => ReceiverPc.Waiting
                        case FinalFlush => ReceiverPc.Dallying
                        case _ => ReceiverPc.Finished;
            Settle(c, r) == (Flush(r).(pc := last), [r.ack])
  {
    var (q, out) := ReceiverAdvance(c, r);
    var (q', out') := ReceiverAdvance(c, q);
    assert Settle(c, q') == (q', []);
    assert Settle(c, q) == (q', out' + []);
    assert out + (out' + []) == [r.ack];
  }
}
