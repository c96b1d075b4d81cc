/**
 * The C++ server from the first request to the published file: its handlers, called as events come in,
 * and the file they leave behind in a run of the whole system.
 */
module CppUpload {
  import opened Common
  import opened Machines
  import opened Scripts
  import opened CppReceiver
  import Fifo
  import EndToEnd

  /** What the socket can put into the receive buffer. */
  ghost predicate Fits(e: Event) {
    e.Arrival? && e.p.Data? ==> |e.p.payload| <= MAX_SEGSIZE
  }

  /** The last expiry still moves the clock of a server that is done; otherwise it is in the machine's state. */
  ghost predicate Follows(s: Machines.Receiver, r: Machines.Receiver) {
    s == r || (r.pc.Finished? && s.(timeout := r.timeout) == r)
  }

  ghost function Machine(c: Config, events: seq<Event>): (Machines.Receiver, seq<Packet>) {
    ReceiverRun(c, EndToEnd.ReceiverStart(c), events)
  }

  lemma {:induction false} OneMore(c: Config, before: seq<Event>, e: Event)
    ensures var (r, out) := Machine(c, before);
            var (q, more) := Settle(c, ReceiverOn(c, r, e));
            Machine(c, before + [e]) == (q, out + more)
  {
    var events := before + [e];
    ReceiverHears(c, EndToEnd.ReceiverStart(c), events, |before|);
    assert events[..|before|] == before && events[..|events|] == events && events[|before|] == e;
  }

  /** Between events the machine waits, dallies or has stopped. */
  ghost predicate Resting(c: Config, r: Machines.Receiver) {
    && (r.pc.Waiting? || r.pc.Dallying? || r.pc.Finished? || r.pc.Failed?)
    && (r.pc.Dallying? ==> r.timeout == c.maxTimeout)
  }

  lemma {:induction false} MachineRests(c: Config, events: seq<Event>)
    requires c.kind.CppUpload?
    ensures Resting(c, Machine(c, events).0)
  {
    if events == [] {
      SettleAck(c, EndToEnd.ReceiverStart(c));
    } else {
      var before, e := events[..|events| - 1], events[|events| - 1];
      MachineRests(c, before);
      assert before + [e] == events;
      OneMore(c, before, e);
      SettleAck(c, ReceiverOn(c, Machine(c, before).0, e));
    }
  }

  /** A block has been taken by a server that has no file to flush it to. */
  ghost predicate HitsNull(c: Config, events: seq<Event>, hasFile: bool) {
    !hasFile && Machine(c, events).0.accepted != []
  }

  /**
   * After the events the server is where its machine is, and has sent what its machine has sent, unless it has
   * used a null file.
   */
  ghost predicate Serves(c: Config, events: seq<Event>, server: CppReceiver.Receiver)
    reads server, server.queue, server.queue.bfs, server.upload, server.fileGuard
    reads if |server.queue.bfs| == 2 then {server.queue.bfs[0].data, server.queue.bfs[1].data} else {}
  {
    var (r, out) := Machine(c, events);
    && server.Valid() && server.Configured(c)
    && (server.nullFlush <==> HitsNull(c, events, server.upload != null))
    && (!server.nullFlush ==>
          && Follows(server.State(), r)
          && (server.sent == out || (server.pc.Finished? && server.sent == out + [server.ackbuf])))
  }

  lemma {:induction false} KeepsAccepted(c: Config, r: Machines.Receiver, e: Event)
    requires c.kind.CppUpload?
    ensures r.accepted <= Settle(c, ReceiverOn(c, r, e)).0.accepted
    ensures e.Timeout? || !r.pc.Waiting? ==> Settle(c, ReceiverOn(c, r, e)).0.accepted == r.accepted
  {
    SettleAck(c, ReceiverOn(c, r, e));
  }

  /** One event for a server that is waiting, dallying or done. */
  method Handle(ghost c: Config, server: CppReceiver.Receiver, repeat: bool, ghost before: seq<Event>, e: Event)
    requires Serves(c, before, server) && Fits(e)
    modifies server.Repr()
    ensures Serves(c, before + [e], server)
  {
    ghost var (r, out) := Machine(c, before);
    MachineRests(c, before);
    OneMore(c, before, e);
    KeepsAccepted(c, r, e);
    if server.nullFlush {
    } else if server.pc.Waiting? {
      match e
      case Timeout =>
        SettleAck(c, ReceiverOn(c, r, e));
        var thrown := server.OnTimer(c);
        assert out + [] == out;
      case Arrival(p) =>
        var error := server.CheckAndWriteBlock(c, p);
    } else {
      SettleAck(c, ReceiverOn(c, r, e));
      assert out + [] == out;
      if server.pc.Dallying? {
        match e
        case Timeout =>
          var thrown := server.OnTimer(c);
        case Arrival(p) =>
          server.OnLastPacket(repeat);
      }
    }
  }

  /** What the request leaves behind for the transfer, and the constants of tftpd.hpp. */
  ghost predicate Started(c: Config, segsize: nat, options: bool) {
    && c.kind.CppUpload? && c.seg == segsize <= MAX_SEGSIZE && c.options == options
    && c.rexmt == 1 && c.maxTimeout == 5
  }

  /** start_recvfile, and then one handler after the other. */
  method Serve(ghost c: Config, segsize: nat, hasFile: bool, options: bool, repeat: bool, events: seq<Event>)
    returns (server: CppReceiver.Receiver)
    requires Started(c, segsize, options)
    requires forall i :: 0 <= i < |events| ==> Fits(events[i])
    ensures Serves(c, events, server) && (server.upload != null <==> hasFile)
  {
    server := Start(c, segsize, hasFile, options);
    ghost var repr := server.Repr();
    var i := 0;
    while i < |events|
      invariant i <= |events| && fresh(repr) && server.Repr() == repr
      invariant Serves(c, events[..i], server)
    {
      assert events[..i + 1] == events[..i] + [events[i]];
      Handle(c, server, repeat, events[..i], events[i]);
      i := i + 1;
    }
    assert events[..i] == events;
  }

  method Start(ghost c: Config, segsize: nat, hasFile: bool, options: bool) returns (server: CppReceiver.Receiver)
    requires Started(c, segsize, options)
    ensures Serves(c, [], server) && (server.upload != null <==> hasFile) && fresh(server) && fresh(server.Repr())
  {
    server := new CppReceiver.Receiver(segsize, hasFile);
    assert server.Configured(c);
    server.StartRecvfile(c, options);
    SettleAck(c, EndToEnd.ReceiverStart(c));
  }

  // ------------------------------------------------------------- main result

  /** Where the machine rests, publication and the last acknowledgement have come together, after the whole stream. */
  lemma {:induction false} Published(c: Config, r: Machines.Receiver, stream: seq<byte>)
    requires c.Valid() && c.kind.CppUpload? && Fifo.ReceiverOk(c, r) && c.blocks == Cut(stream, c.seg)
    ensures var q := Settle(c, r).0;
            && q.flushed <= |q.accepted|
            && (q.published ==> Written(q) == stream && q.accepted != [])
            && (q.pc.Dallying? || q.pc.Finished? ==> q.published)
            && (Fifo.Closing(r) ==> q.published)
  {
    SettleAck(c, r);
    CutIsExact(stream, c.seg);
    assert c.blocks[..|c.blocks|] == c.blocks;
  }

  /** What a server that has published something, and one whose client has finished, has done for the stream. */
  ghost predicate Delivered(server: CppReceiver.Receiver, stream: seq<byte>, clientFinished: bool)
    reads server, server.upload
  {
    && (server.published ==> server.upload != null && server.upload.content == stream)
    && (server.pc.Dallying? || server.pc.Finished? ==> server.published)
    && (clientFinished ==> if server.upload != null then server.published else server.nullFlush)
  }

  /**
   * An upload to the C++ server over FIFO channels that lose and duplicate, of at most 65535 blocks: a server
   * that has gone through its part of any run has published only what the client was given, byte for byte,
   * under its final name; and when the client has finished, the server has published it, provided that it has opened
   * a file.
   */
  lemma {:induction false} UploadArrives(
      c: Config, stream: seq<byte>, steps: seq<Fifo.Step>, server: CppReceiver.Receiver)
    requires c.Valid() && c.kind.CppUpload? && |c.blocks| < 0x1_0000 && c.blocks == Cut(stream, c.seg)
    requires Fifo.Run(c, steps).Some? && !Fifo.Run(c, steps).value.rcv.pc.Listening?
    requires Serves(c, EndToEnd.ReceiverView(c, steps), server)
    ensures Delivered(server, stream, Fifo.Run(c, steps).value.snd.pc.Finished?)
  {
    var s := Fifo.Run(c, steps).value;
    Fifo.Reachable(c, steps);
    EndToEnd.ReceiverFollowsView(c, steps);
    Published(c, s.rcv, stream);
    ServerDelivers(c, EndToEnd.ReceiverView(c, steps), server, stream, s.snd.pc.Finished?);
  }

  lemma {:induction false} ServerDelivers(
      c: Config, events: seq<Event>, server: CppReceiver.Receiver, stream: seq<byte>, clientFinished: bool)
    requires Serves(c, events, server)
    requires var q := Machine(c, events).0;
             && q.flushed <= |q.accepted|
             && (q.published ==> Written(q) == stream && q.accepted != [])
             && (q.pc.Dallying? || q.pc.Finished? ==> q.published)
             && (clientFinished ==> q.published)
    ensures Delivered(server, stream, clientFinished)
  {
  }
}
