/**
 * Uploads to the C++ server as a whole: the request, what is negotiated, the transfer that the client makes of the
 * answer, and the file the server publishes.
 */
module Sessions {
  import opened Common
  import opened Machines
  import opened Scripts
  import Texts
  import Paths
  import Negotiation
  import Agreement
  import Requests
  import RoundTrips
  import Fifo
  import EndToEnd
  import TftpSubs
  import SendLoops
  import CppReceiver
  import CppUpload

  /**
   * c describes the transfer of a stream by a client that has read this answer: it cuts the stream by the block size
   * it finds there, and expects an option acknowledgement if there is one. `past` is what follows the answer in the
   * client's memory.
   */
  ghost predicate Obeys(c: Config, answer: Requests.Result, past: char, stream: seq<byte>)
    requires answer.Taken?
  {
    && c.Valid() && c.kind.CppUpload? && c.rexmt == 1 && c.maxTimeout == 5
    && c.options == (answer.oack != []) && c.seg == Agreement.ClientBlksize(answer.oack, past)
    && c.blocks == Cut(stream, c.seg)
  }

  function FieldCount(rx: string, env: Requests.Env): nat {
    if |rx| < Requests.TFTP_HEADER then 0 else |Texts.FieldsFrom(rx, env.past, 2)|
  }

  lemma {:induction false} HasFileIff(rx: string, env: Requests.Env)
    requires Requests.Parse(rx, env).Taken?
    ensures Requests.Parse(rx, env).file.Some? <==> 2 <= FieldCount(rx, env)
  {
  }

  /** A request, and the session that it opens unless it is refused. */
  method Session(ghost c: Config, rx: string, env: Requests.Env, ghost past: char, ghost stream: seq<byte>,
                 repeat: bool, events: seq<Event>)
    returns (server: CppReceiver.Receiver?)
    requires Requests.Parse(rx, env).Taken? ==> Obeys(c, Requests.Parse(rx, env), past, stream)
    requires forall i :: 0 <= i < |events| ==> CppUpload.Fits(events[i])
    ensures server != null <==> Requests.Parse(rx, env).Taken?
    ensures server != null ==>
              CppUpload.Serves(c, events, server) && (server.upload != null <==> 2 <= FieldCount(rx, env))
  {
    var answer := Requests.Tftp(rx, env);
    if !answer.Taken? {
      return null;
    }
    RoundTrips.ClientReadsBlksize(rx, env, past);
    HasFileIff(rx, env);
    server := CppUpload.Serve(c, answer.settings.segsize, answer.file.Some?, answer.oack != [], repeat, events);
  }

  // ---------------------------------------------------------------- the null file

  lemma {:induction false} OneBlock(c: Config)
    requires c.kind.CppUpload?
    ensures CppUpload.Machine(c, [Arrival(Data(1, []))]).0.accepted != []
  {
    var e := Arrival(Data(1, []));
    var r := CppUpload.Machine(c, []).0;
    CppReceiver.SettleAck(c, EndToEnd.ReceiverStart(c));
    CppUpload.OneMore(c, [], e);
    assert [] + [e] == [e];
    CppReceiver.SettleAck(c, ReceiverOn(c, r, e));
  }

  /** A server can be made to flush to a null file exactly if its request had fewer than two fields. */
  lemma {:induction false} NullFileIff(c: Config, rx: string, env: Requests.Env)
    requires c.kind.CppUpload? && Requests.Parse(rx, env).Taken?
    ensures (exists events :: CppUpload.HitsNull(c, events, Requests.Parse(rx, env).file.Some?)) <==>
            FieldCount(rx, env) < 2
  {
    HasFileIff(rx, env);
    OneBlock(c);
    if FieldCount(rx, env) < 2 {
      assert CppUpload.HitsNull(c, [Arrival(Data(1, []))], Requests.Parse(rx, env).file.Some?);
    }
  }

  /** As after a request that ends behind the name. */
  lemma {:induction false} NamelessMode(name: string, env: Requests.Env)
    requires 2 <= |name| && Texts.NulFree(name)
    ensures var rx := [0 as char, Requests.WRQ as char] + name + [Texts.NUL];
            Requests.Parse(rx, env).Taken? && FieldCount(rx, env) == 1
  {
    var rx := [0 as char, Requests.WRQ as char] + name + [Texts.NUL];
    var fields := [name];
    assert fields[1..] == [] && Texts.Terminated([]) == [];
    assert rx[2..] == name + [Texts.NUL] + [] == Texts.Terminated(fields);
    Texts.FieldsOfTerminated(rx, 2, fields, env.past);
  }

  // ---------------------------------------------------------------- main results

  /** A run in which the server has taken the request, of an upload whose block numbers do not wrap. */
  ghost predicate Plays(c: Config, steps: seq<Fifo.Step>, events: seq<Event>) {
    && |c.blocks| < 0x1_0000
    && Fifo.Run(c, steps).Some? && !Fifo.Run(c, steps).value.rcv.pc.Listening?
    && events == EndToEnd.ReceiverView(c, steps)
  }

  lemma {:induction false} HeardFits(c: Config, steps: seq<Fifo.Step>, events: seq<Event>)
    requires c.Valid() && c.seg <= MAX_SEGSIZE && Plays(c, steps, events)
    ensures forall i :: 0 <= i < |events| ==> CppUpload.Fits(events[i])
  {
    EndToEnd.ViewFits(c, steps);
    forall i | 0 <= i < |events| ensures CppUpload.Fits(events[i]) {
      assert events[i] in events;
    }
  }

  /**
   * From the request to the published file: whatever was negotiated, a client that cuts its stream by the block size
   * it reads from the answer has it published, byte for byte, by the time it finishes; unless its request had no name
   * and mode, in which case the server has used a null file by then.
   */
  method Upload(ghost c: Config, ghost steps: seq<Fifo.Step>, rx: string, env: Requests.Env, ghost past: char,
                ghost stream: seq<byte>, repeat: bool, events: seq<Event>)
    returns (server: CppReceiver.Receiver?)
    requires Requests.Parse(rx, env).Taken? ==>
               Obeys(c, Requests.Parse(rx, env), past, stream) && Plays(c, steps, events)
    ensures server != null <==> Requests.Parse(rx, env).Taken?
    ensures server != null ==>
              && CppUpload.Delivered(server, stream, Fifo.Run(c, steps).value.snd.pc.Finished?)
              && (server.upload != null <==> 2 <= FieldCount(rx, env))
              && (server.upload != null ==> forall p :: p in Fifo.Run(c, steps).value.acks ==> p in server.sent)
  {
    if Requests.Parse(rx, env).Taken? {
      RoundTrips.ClientReadsBlksize(rx, env, past);
      HeardFits(c, steps, events);
      server := Session(c, rx, env, past, stream, repeat, events);
      CppUpload.UploadArrives(c, stream, steps, server);
      EndToEnd.OnlyLoopsSend(c, steps);
    } else {
      server := null;
    }
  }

  /** The request of the C client asks for nothing, so it is acknowledged as block 0 and 512 bytes are cut at a time. */
  lemma {:induction false} PlainRequest(name: string, env: Requests.Env, path: string)
    requires Texts.IsField(name) && Paths.Validate(env.disk, false, name) == Paths.Opened(path)
    ensures Requests.Parse(Requests.RequestBytes(Requests.WRQ, name, "octet", []), env) ==
            Requests.Taken(Some(path), Negotiation.INITIAL, [])
  {
    assert Texts.Lower("octet") == "octet";
    assert Negotiation.EntryBytes([]) == [];
    RoundTrips.CppServerReadsBack(Requests.WRQ, name, "octet", [], env);
  }

  /** The C client uploads to the C++ server: its request, its send loop, and the server's handlers. */
  method ClientUpload(ghost c: Config, ghost steps: seq<Fifo.Step>, name: string, env: Requests.Env,
                      source: TftpSubs.InFile, sender: Setup, repeat: bool, events: seq<Event>)
    returns (sent: seq<Packet>, server: CppReceiver.Receiver?)
    requires Texts.IsField(name) && Paths.Validate(env.disk, false, name).Opened?
    requires Obeys(c, Requests.Taken(None, Negotiation.INITIAL, []), Texts.NUL, source.content)
    requires Plays(c, steps, events) && sender.events == EndToEnd.SenderView(c, steps)
    requires SendLoops.SendsFor(c, sender) && !sender.convert && source.pos == 0
    modifies source
    ensures server != null && server.upload != null
    ensures CppUpload.Delivered(server, source.content, Fifo.Run(c, steps).value.snd.pc.Finished?)
    ensures var s := Fifo.Run(c, steps).value;
            (forall p :: p in s.data ==> p in sent) && (forall p :: p in s.acks ==> p in server.sent)
  {
    SendLoops.CutDescribes(c, source.content, sender);
    EndToEnd.OnlyLoopsSend(c, steps);
    var pc;
    sent, pc := SendLoops.ClientSendfile(c, source, sender);
    var tp := new char[|name| + 9];
    var n := Requests.MakeRequest(Requests.WRQ, name, tp, "octet");
    PlainRequest(name, env, Paths.Validate(env.disk, false, name).path);
    server := Upload(c, steps, tp[..n], env, Texts.NUL, source.content, repeat, events);
  }
}
