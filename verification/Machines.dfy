/**
 * The lock-step parties as state machines: the two senders and the two receivers of
 * tftp/tftp.c and tftpd/tftpd.c, and the upload receiver of tftpd.hpp.
 * A party's state is what it holds between two blocking operations.
 */
module Machines {
  import opened Common

  datatype Packet =
    | Request                                  // RRQ or WRQ
    | Data(block: U16, payload: seq<byte>)
    | Ack(block: U16)
    | Oack                                     // option acknowledgement, whole
    | OackHead                                 // its first four bytes only
    | Error

  /**
   * Which receiver runs, hence which sender faces it:
   * a C client downloading from the C server, a C client uploading to the C server,
   * or a lock-step client uploading to the C++ server.
   */
  datatype Kind = ClientDownload | ServerUpload | CppUpload

  /**
   * blocks: the payloads the sender's read-ahead hands out;
   * options: the C++ server answers the request by an OACK and the client knows it;
   * debug: the client build that sends every odd block three times.
   */
  datatype Config = Config(
    kind: Kind, seg: nat, blocks: seq<seq<byte>>, rexmt: nat, maxTimeout: nat, options: bool, debug: bool)
  {
    ghost predicate Valid() {
      && 0 < seg && WellCut(blocks, seg)
      && 0 < rexmt
      && (options ==> kind.CppUpload?)
      && (debug ==> !kind.ClientDownload?)
    }
  }

  // ---------------------------------------------------------------- senders

  datatype SenderPc = Listening | Sending | Waiting | Finished | Failed

  /** count: how many blocks have been taken from the read-ahead; 0 while the request is outstanding. */
  datatype Sender = Sender(pc: SenderPc, count: nat, block: U16, timeout: nat)

  function SenderInit(c: Config): Sender {
    if c.kind.ClientDownload? then Sender(SenderPc.Listening, 0, 0, 0) else Sender(SenderPc.Sending, 0, 0, 0)
  }

  /** The packet in the sender's buffer. */
  function Outgoing(c: Config, s: Sender): Packet
    requires s.count <= |c.blocks|
  {
    if s.count == 0 then Request else Data(s.block, c.blocks[s.count - 1])
  }

  function Copies(c: Config, s: Sender): nat {
    if c.debug && s.block % 2 == 1 then 3 else 1
  }

  function SenderSend(c: Config, s: Sender): (Sender, seq<Packet>)
    requires s.count <= |c.blocks|
  {
    (s.(pc := SenderPc.Waiting), seq(Copies(c, s), _ => Outgoing(c, s)))
  }

  function NextBlock(s: Sender): Sender {
    Sender(SenderPc.Sending, s.count + 1, Succ16(s.block), 0)
  }

  /** The awaited acknowledgement came: stop after a short block, otherwise go on. */
  function Acked(c: Config, s: Sender): Sender
    requires s.count <= |c.blocks|
  {
    if 0 < s.count && |c.blocks[s.count - 1]| != c.seg then s.(pc := SenderPc.Finished) else NextBlock(s)
  }

  function SenderReceive(c: Config, s: Sender, p: Packet): Sender
    requires s.count <= |c.blocks|
  {
    match s.pc
    case Listening => if p.Request? then NextBlock(s) else s
    case Waiting => (
      match p
      case Error => s.(pc := SenderPc.Failed)
      case Ack(b) =>
        if b == s.block then Acked(c, s)
        else if b == s.block - 1 then s.(pc := SenderPc.Sending)   // block - 1 is an int: -1 at block 0
        else s
      case Oack => if c.options && s.count == 0 then Acked(c, s) else s
      case _ => s)
    case _ => s
  }

  /** Whether synchnet runs: an acknowledgement other than the awaited one. */
  predicate SenderFlushes(s: Sender, p: Packet) {
    s.pc.Waiting? && p.Ack? && p.block != s.block
  }

  function SenderTimeout(c: Config, s: Sender): Sender {
    var t := s.timeout + c.rexmt;
    if t >= c.maxTimeout then s.(pc := SenderPc.Failed, timeout := t) else s.(pc := SenderPc.Sending, timeout := t)
  }

  // -------------------------------------------------------------- receivers

  datatype ReceiverPc =
    Listening | Sending | Flushing | Waiting | FinalFlush | FinalAck | Dallying | Finished | Failed

  /**
   * accepted: the payloads handed to writeit, oldest first;
   * flushed: how many of them write_behind has put in the file;
   * published: the C++ server has renamed the upload to its final name.
   */
  datatype Receiver = Receiver(
    pc: ReceiverPc, block: U16, timeout: nat, ack: Packet, accepted: seq<seq<byte>>, flushed: nat, published: bool)

  function FirstAck(c: Config): Packet {
    match c.kind
    case ClientDownload => Request
    case ServerUpload => Ack(0)
    case CppUpload => if c.options then Oack else Ack(0)
  }

  function ReceiverInit(c: Config): Receiver {
    match c.kind
    case ClientDownload => Receiver(ReceiverPc.Sending, 1, 0, Request, [], 0, false)
    case ServerUpload => Receiver(ReceiverPc.Listening, 0, 0, Request, [], 0, false)
    case CppUpload => Receiver(ReceiverPc.Listening, 0, c.rexmt, Request, [], 0, false)
  }

  /** The C++ receiver flushes before it sends an acknowledgement, the C receivers after. */
  function AckingPc(c: Config): ReceiverPc {
    if c.kind.CppUpload? then ReceiverPc.Flushing else ReceiverPc.Sending
  }

  function Flush(r: Receiver): Receiver {
    r.(flushed := |r.accepted|)
  }

  /** The next local operation: a sendto or a write_behind. */
  function ReceiverAdvance(c: Config, r: Receiver): (Receiver, seq<Packet>) {
    match r.pc
    case Sending =>
      (r.(pc := if c.kind.CppUpload? then ReceiverPc.Waiting else ReceiverPc.Flushing), [r.ack])
    case Flushing =>
      (Flush(r).(pc := if c.kind.CppUpload? then ReceiverPc.Sending else ReceiverPc.Waiting), [])
    case FinalFlush => (
      match c.kind
      case ClientDownload => (Flush(r).(pc := ReceiverPc.Finished), [])
      case ServerUpload => (Flush(r).(pc := ReceiverPc.FinalAck), [])
      case CppUpload => (Flush(r).(pc := ReceiverPc.FinalAck, published := true), []))
    case FinalAck => (
      match c.kind
      case ClientDownload => (r.(pc := ReceiverPc.FinalFlush), [r.ack])
      case ServerUpload => (r.(pc := ReceiverPc.Dallying), [r.ack])
      case CppUpload => (r.(pc := ReceiverPc.Dallying, timeout := c.maxTimeout), [r.ack]))
    case _ => (r, [])
  }

  /** writeit: queue the payload, flushing the previous one if that has not happened yet. */
  function Accept(c: Config, r: Receiver, payload: seq<byte>): Receiver {
    var q := r.(accepted := r.accepted + [payload], flushed := |r.accepted|, ack := Ack(r.block));
    if |payload| == c.seg then
      q.(pc := AckingPc(c), block := Succ16(r.block), timeout := if c.kind.CppUpload? then r.timeout else 0)
    else
      q.(pc := if c.kind.ClientDownload? then ReceiverPc.FinalAck else ReceiverPc.FinalFlush)
  }

  /** A block that is neither the awaited one nor the one before: only the C++ receiver goes on to write it. */
  predicate FallsThrough(c: Config, r: Receiver, p: Packet) {
    c.kind.CppUpload? && r.pc.Waiting? && p.Data? && p.block != r.block && p.block != r.block - 1
  }

  function ReceiverReceive(c: Config, r: Receiver, p: Packet): Receiver {
    match r.pc
    case Listening =>
      if p.Request? then r.(pc := AckingPc(c), block := 1, ack := FirstAck(c)) else r
    case Waiting => (
      match p
      case Error => if c.kind.ClientDownload? then Flush(r).(pc := ReceiverPc.Failed) else r.(pc := ReceiverPc.Failed)
      case Data(b, payload) =>
        if b == r.block then Accept(c, r, payload)
        else if b == r.block - 1 then
          // the C++ receiver resends four bytes, whatever it sent before
          r.(pc := AckingPc(c), ack := if c.kind.CppUpload? && r.ack.Oack? then OackHead else r.ack)
        else if c.kind.CppUpload? then Accept(c, r, payload)
        else r
      case _ => if c.kind.CppUpload? then r.(pc := ReceiverPc.Failed) else r)
    case _ => r
  }

  predicate ReceiverFlushes(r: Receiver, p: Packet) {
    r.pc.Waiting? && p.Data? && p.block != r.block
  }

  /** The C receivers send their last packet again; the C++ one only waits again, on a budget for the whole run. */
  function ReceiverTimeout(c: Config, r: Receiver): Receiver {
    var t := r.timeout + c.rexmt;
    if t >= c.maxTimeout then r.(pc := ReceiverPc.Failed, timeout := t)
    else r.(pc := if c.kind.CppUpload? then ReceiverPc.Waiting else ReceiverPc.Sending, timeout := t)
  }

  /** Bytes in the file after write_behind, and all bytes accepted so far, before any conversion. */
  function Written(r: Receiver): seq<byte>
    requires r.flushed <= |r.accepted|
  {
    Concat(r.accepted[..r.flushed])
  }

  function Pending(r: Receiver): seq<byte>
    requires r.flushed <= |r.accepted|
  {
    Concat(r.accepted[r.flushed..])
  }
}
