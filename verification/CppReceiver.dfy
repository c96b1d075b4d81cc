/**
 * The upload receiver of tftpd.hpp: handlers that run when a packet arrives or the timer expires,
 * over the write-behind queue of tftp_subs.cpp.
 */
module CppReceiver {
  import opened Common
  import opened Machines
  import opened CppSubs
  import Scripts
  import TftpSubs

  const REXMTVAL: nat := 1
  const MAXTIMEOUT: nat := 5

  const EBADID := 5

  class Receiver {
    const segsize: nat                    // g_segsize, as negotiated
    var block: U16
    var ackbuf: Packet
    var timeout: nat
    var lastTimeout: bool
    var fileGuard: TftpSubs.OutFile?      // null until start_recvfile has returned
    const upload: TftpSubs.OutFile?       // <name>.upload; null if the request named no file
    const queue: WriteQueue
    var pc: ReceiverPc                    // which asynchronous operation is outstanding
    var sent: seq<Packet>                 // everything sent, in order
    var published: bool                   // renamed to its final name
    var nullFlush: bool                   // a flush would have used a null file; nothing is promised from then on

    ghost predicate Valid()
      reads this, queue, queue.bfs, upload, fileGuard
      reads if |queue.bfs| == 2 then {queue.bfs[0].data, queue.bfs[1].data} else {}
    {
      && queue.Valid() && segsize <= MAX_SEGSIZE
      && fileGuard == (if pc.Listening? then null else upload)
      && (pc.Listening? && upload != null ==> upload.content == [] && upload.pos == 0)
      && (fileGuard == null ==> !published && !pc.Dallying? && !pc.Finished?)
      && (lastTimeout <==> pc.Dallying? || pc.Finished?)
      && (nullFlush ==> fileGuard == null)
      && (!nullFlush ==>
            && queue.OnDisk(fileGuard)
            && (pc.Listening? ==> queue.accepted == [])
            && (pc.Waiting? || pc.Dallying? ==> queue.flushed == |queue.accepted|))
    }

    ghost function Repr(): set<object>
      reads this, queue, queue.bfs
      requires |queue.bfs| == 2
    {
      {this} + (if upload == null then {} else {upload}) + queue.Repr()
    }

    /** The state of the protocol machine. */
    ghost function State(): Machines.Receiver
      reads this, queue
    {
      Machines.Receiver(pc, block, timeout, ackbuf, queue.accepted, queue.flushed, published)
    }

    ghost predicate Configured(c: Config) {
      c.kind.CppUpload? && c.seg == segsize && c.rexmt == 1 && c.maxTimeout == 5
    }

    /** Listening on the well-known port, on the first timer interval. */
    constructor (segsize: nat, hasFile: bool)
      requires segsize <= MAX_SEGSIZE
      ensures Valid() && fresh(Repr()) && this.segsize == segsize && (upload != null <==> hasFile) && !nullFlush
      ensures pc.Listening? && sent == []
      ensures forall c :: Configured(c) ==> State() == ReceiverInit(c)
    {
      this.segsize := segsize;
      block, ackbuf, timeout, lastTimeout, published := 0, Request, REXMTVAL, false, false;
      fileGuard := null;
      upload := null;
      if hasFile {
        upload := new TftpSubs.OutFile();
      }
      nullFlush := false;
      queue := new WriteQueue();
      pc, sent := ReceiverPc.Listening, [];
    }

    /** A flush to the file of the session; without one, the null pointer is used as soon as something is pending. */
    method Flush() returns (r: int)
      requires queue.Valid() && queue.OnDisk(fileGuard) && !nullFlush
      modifies this`nullFlush, queue`nextone, queue`flushed, queue.bfs[0], queue.bfs[1], fileGuard
      ensures queue.Valid() && (nullFlush <==> fileGuard == null && old(queue.flushed) < |queue.accepted|)
      ensures !nullFlush ==> queue.OnDisk(fileGuard) && queue.flushed == |queue.accepted|
      ensures r >= 0
    {
      if fileGuard == null && queue.Pending() {
        nullFlush := true;
        return 0;
      }
      r := queue.WriteBehind(fileGuard);
    }

    /** send_ackbuf and the receive_block it leads to: flush, send, wait. */
    method SendAckbuf()
      requires queue.Valid() && queue.OnDisk(fileGuard) && !nullFlush
      modifies this`sent, this`pc
      modifies this`nullFlush, queue`nextone, queue`flushed, queue.bfs[0], queue.bfs[1], fileGuard
      ensures queue.Valid() && (nullFlush <==> fileGuard == null && old(queue.flushed) < |queue.accepted|)
      ensures if nullFlush then pc == old(pc) && sent == old(sent)
              else
                && queue.OnDisk(fileGuard) && queue.flushed == |queue.accepted|
                && pc.Waiting? && sent == old(sent) + [ackbuf]
    {
      var ignored := Flush();
      if nullFlush {
        return;
      }
      sent := sent + [ackbuf];
      pc := ReceiverPc.Waiting;
    }

    /** send_ack */
    method SendAck()
      requires queue.Valid() && queue.OnDisk(fileGuard) && !nullFlush
      modifies this`sent, this`pc, this`block, this`ackbuf
      modifies this`nullFlush, queue`nextone, queue`flushed, queue.bfs[0], queue.bfs[1], fileGuard
      ensures queue.Valid() && (nullFlush <==> fileGuard == null && old(queue.flushed) < |queue.accepted|)
      ensures ackbuf == Ack(old(block)) && block == Succ16(old(block))
      ensures if nullFlush then pc == old(pc) && sent == old(sent)
              else
                && queue.OnDisk(fileGuard) && queue.flushed == |queue.accepted|
                && pc.Waiting? && sent == old(sent) + [ackbuf]
    {
      ackbuf := Ack(block);
      block := Succ16(block);
      SendAckbuf();
    }

    /** ACK 0, or the option acknowledgement. */
    method SendFirstAck(options: bool)
      requires queue.Valid() && queue.OnDisk(fileGuard) && !nullFlush && queue.flushed == |queue.accepted|
      modifies this`sent, this`pc, this`block, this`ackbuf
      modifies this`nullFlush, queue`nextone, queue`flushed, queue.bfs[0], queue.bfs[1], fileGuard
      ensures queue.Valid() && queue.OnDisk(fileGuard) && !nullFlush && queue.flushed == |queue.accepted|
      ensures pc.Waiting? && block == 1 && sent == old(sent) + [ackbuf]
      ensures ackbuf == if options then Oack else Ack(0)
    {
      block := 0;
      if !options {
        SendAck();
      } else {
        ackbuf := Oack;
        block := Succ16(block);
        SendAckbuf();
      }
    }

    /** start_recvfile: the first flush happens while file_guard_ is still null, with nothing pending. */
    method StartRecvfile(ghost c: Config, options: bool)
      requires Valid() && pc.Listening? && Configured(c) && c.options == options && !nullFlush
      modifies Repr()
      ensures Valid() && !nullFlush
      ensures var (r, out) := Scripts.Settle(c, ReceiverReceive(c, old(State()), Request));
              State() == r && sent == old(sent) + out
    {
      SettledStart(c, State());
      SendFirstAck(options);
      fileGuard := upload;
    }

    /** check_and_write_block on a received packet. */
    method CheckAndWriteBlock(ghost c: Config, p: Packet) returns (error: int)
      requires Valid() && pc.Waiting? && Configured(c) && !nullFlush
      requires p.Data? ==> |p.payload| <= MAX_SEGSIZE
      modifies Repr()
      ensures Valid()
      ensures var (r, out) := Scripts.Settle(c, ReceiverReceive(c, old(State()), p));
              && (nullFlush <==> upload == null && r.accepted != [])
              && (!nullFlush ==> State() == r && sent == old(sent) + out)
      ensures error == if p.Data? || p.Error? then 0 else 5
      ensures published && !old(published) ==> upload != null && upload.content == Concat(queue.accepted)
    {
      if p.Error? {
        pc := ReceiverPc.Failed;
        return 0;
      }
      if !p.Data? {
        pc := ReceiverPc.Failed;
        return EBADID;
      }
      ghost var before := State();
      if p.block != block && p.block == block - 1 {
        SettledRepeat(c, before, p);
        RepeatAck();
        return 0;
      }
      SettledBlock(c, before, p.payload);
      error := WriteBlock(p.payload);
    }

    /** send_ackbuf with its default length of four bytes. */
    method RepeatAck()
      requires Valid() && pc.Waiting? && !nullFlush
      modifies this`sent, this`ackbuf, this`pc
      modifies this`nullFlush, queue`nextone, queue`flushed, queue.bfs[0], queue.bfs[1], fileGuard
      ensures Valid() && !nullFlush
      ensures State() == old(State()).(ack := if old(ackbuf).Oack? then OackHead else old(ackbuf))
      ensures sent == old(sent) + [ackbuf]
    {
      ackbuf := if ackbuf.Oack? then OackHead else ackbuf;
      SendAckbuf();
    }

    /**
     * The second half of check_and_write_block: the segment is written whatever its number. It is flushed before
     * anything is sent; that is where a null file is used.
     */
    method WriteBlock(payload: seq<byte>) returns (error: int)
      requires Valid() && pc.Waiting? && |payload| <= MAX_SEGSIZE && !nullFlush
      modifies Repr()
      ensures Valid() && error == 0 && (nullFlush <==> upload == null)
      ensures nullFlush ==> sent == old(sent) && queue.accepted == old(queue.accepted) + [payload]
      ensures !nullFlush ==> State() == AfterBlock(old(State()), payload, segsize) && sent == old(sent) + [ackbuf]
      ensures published && !old(published) ==> upload != null && upload.content == Concat(queue.accepted)
    {
      ghost var r := AfterBlock(State(), payload, segsize);
      var written := Enqueue(payload);
      assert written == |payload|;   // so the test for a short write never fires
      if |payload| == segsize {
        SendAck();
        assert !nullFlush ==> State() == r;
        return 0;
      }
      FinishUpload();
      assert !nullFlush ==> State() == r;
      return 0;
    }

    /** The final flush, the rename, and only then the last acknowledgement. */
    method FinishUpload()
      requires queue.Valid() && queue.OnDisk(fileGuard) && !nullFlush
      modifies this`ackbuf, this`sent, this`timeout, this`lastTimeout, this`pc, this`published
      modifies this`nullFlush, queue`nextone, queue`flushed, queue.bfs[0], queue.bfs[1], fileGuard
      ensures queue.Valid() && (nullFlush <==> fileGuard == null && old(queue.flushed) < |queue.accepted|)
      ensures nullFlush ==> unchanged(this`sent, this`pc, this`published, this`lastTimeout)
      ensures !nullFlush ==>
                && queue.OnDisk(fileGuard) && queue.flushed == |queue.accepted| && published
                && ackbuf == Ack(block) && sent == old(sent) + [ackbuf]
                && timeout == MAXTIMEOUT && lastTimeout && pc.Dallying?
                && (fileGuard != null ==> fileGuard.content == Concat(queue.accepted))
    {
      var written := Flush();
      if nullFlush {
        return;
      }
      published := true;
      assert queue.accepted[..queue.flushed] == queue.accepted;
      SendLastAck();
    }

    /** The segment is received into the buffer in use and queued; the other buffer is free, so nothing is flushed. */
    method Enqueue(payload: seq<byte>) returns (written: int)
      requires queue.Valid() && queue.OnDisk(fileGuard) && queue.flushed == |queue.accepted|
      requires |payload| <= MAX_SEGSIZE
      modifies queue.Repr(), fileGuard
      ensures queue.Valid() && queue.OnDisk(fileGuard)
      ensures queue.accepted == old(queue.accepted) + [payload] && queue.flushed == |old(queue.accepted)|
      ensures written == |payload|
    {
      var dp := queue.bfs[queue.current];
      forall k | 0 <= k < |payload| {
        dp.data[k] := payload[k];
      }
      assert dp.data[..|payload|] == payload;
      dp, written := queue.Writeit(fileGuard, |payload|);
    }

    method SendLastAck()
      modifies this`ackbuf, this`sent, this`timeout, this`lastTimeout, this`pc
      ensures ackbuf == Ack(block) && sent == old(sent) + [ackbuf]
      ensures timeout == MAXTIMEOUT && lastTimeout && pc.Dallying?
    {
      ackbuf := Ack(block);
      sent := sent + [ackbuf];
      timeout := MAXTIMEOUT;
      lastTimeout := true;
      pc := ReceiverPc.Dallying;
    }

    /**
     * The timer's handler: nothing is resent; on the last expiry the socket is closed, with an exception unless
     * all is done.
     */
    method OnTimer(ghost c: Config) returns (thrown: bool)
      requires Valid() && (pc.Waiting? || pc.Dallying?) && Configured(c) && (pc.Dallying? ==> timeout == MAXTIMEOUT)
      modifies this`timeout, this`pc
      ensures Valid() && sent == old(sent)
      ensures State() == if old(pc).Dallying? then old(State()).(pc := ReceiverPc.Finished, timeout := timeout)
                         else ReceiverTimeout(c, old(State()))
      ensures thrown <==> pc.Failed?
    {
      timeout := timeout + REXMTVAL;
      thrown := false;
      if timeout >= MAXTIMEOUT {
        thrown := !lastTimeout;
        pc := if lastTimeout then ReceiverPc.Finished else ReceiverPc.Failed;
      }
    }

    /**
     * The handler of the receive that is armed with the last acknowledgement: it may repeat it, and stops the
     * timer.
     */
    method OnLastPacket(repeat: bool)
      requires Valid() && pc.Dallying?
      modifies this`pc, this`sent
      ensures Valid() && State() == old(State()).(pc := ReceiverPc.Finished)
      ensures sent == old(sent) + if repeat then [ackbuf] else []
    {
      if repeat {
        sent := sent + [ackbuf];
      }
      pc := ReceiverPc.Finished;
    }
  }

  /** A segment has been written: it is acknowledged, or it was the last one and the upload is published. */
  function AfterBlock(r: Machines.Receiver, payload: seq<byte>, segsize: nat): Machines.Receiver {
    var q := r.(accepted := r.accepted + [payload], flushed := |r.accepted| + 1, ack := Ack(r.block));
    if |payload| == segsize then q.(pc := ReceiverPc.Waiting, block := Succ16(r.block))
    else q.(pc := ReceiverPc.Dallying, timeout := MAXTIMEOUT, published := true)
  }

  lemma {:induction false} SettledBlock(c: Config, r: Machines.Receiver, payload: seq<byte>)
    requires c.kind.CppUpload? && c.maxTimeout == MAXTIMEOUT && r.flushed == |r.accepted|
    ensures var q := AfterBlock(r, payload, c.seg);
            Scripts.Settle(c, Accept(c, r, payload)) == (q, [q.ack])
  {
    SettleAck(c, Accept(c, r, payload));
  }

  lemma {:induction false} SettledRepeat(c: Config, r: Machines.Receiver, p: Packet)
    requires c.kind.CppUpload? && r.pc.Waiting? && r.flushed == |r.accepted|
    requires p.Data? && p.block != r.block && p.block == r.block - 1
    ensures var q := r.(ack := if r.ack.Oack? then OackHead else r.ack);
            Scripts.Settle(c, ReceiverReceive(c, r, p)) == (q, [q.ack])
  {
    SettleAck(c, ReceiverReceive(c, r, p));
  }

  lemma {:induction false} SettledStart(c: Config, r: Machines.Receiver)
    requires c.kind.CppUpload? && r.pc.Listening? && r.flushed == |r.accepted|
    ensures var q := r.(pc := ReceiverPc.Waiting, block := 1, ack := FirstAck(c));
            Scripts.Settle(c, ReceiverReceive(c, r, Request)) == (q, [q.ack])
  {
    SettleAck(c, ReceiverReceive(c, r, Request));
  }

  /** The local operations of the C++ receiver after a packet, in one go: flush, then send. */
  lemma {:induction false} SettleAck(c: Config, r: Machines.Receiver)
    requires c.kind.CppUpload?
    ensures r.pc.Flushing? ==> Scripts.Settle(c, r) == (Flush(r).(pc := ReceiverPc.Waiting), [r.ack])
    ensures r.pc.FinalFlush? ==>
              Scripts.Settle(c, r) ==
              (Flush(r).(pc := ReceiverPc.Dallying, published := true, timeout := c.maxTimeout), [r.ack])
    ensures Scripts.Rank(c, r) == 0 ==> Scripts.Settle(c, r) == (r, [])
  {
    if r.pc.Flushing? || r.pc.FinalFlush? {
      var (q, out) := ReceiverAdvance(c, r);
      var (q', out') := ReceiverAdvance(c, q);
      assert Scripts.Settle(c, q') == (q', []);
      assert Scripts.Settle(c, q) == (q', out' + []);
      assert out + (out' + []) == [r.ack];
    }
  }
}
