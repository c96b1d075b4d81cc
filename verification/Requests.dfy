/**
 * Request packets: the printer of tftp/tftp.c, the two-field parser of tftpd/tftpd.c and the
 * field and option parser of tftpd_utils.cpp.
 */
module Requests {
  import opened Common
  import opened Texts
  import opened Negotiation
  import opened Paths
  import Agreement

  const RRQ: nat := 1
  const WRQ: nat := 2
  const TFTP_HEADER: nat := 4
  const EBADOP := 4
  const EBADID := 5

  // ---------------------------------------------------------------- printing

  /** A request as it stands in the packet: opcode, name, mode, then option pairs. */
  function RequestBytes(opcode: nat, name: string, mode: string, pairs: seq<(string, string)>): string
    requires opcode < 256
  {
    [0 as char, opcode as char] + Terminated([name, mode] + Flatten(pairs))
  }

  /** memcpy(cp, s, strlen(s)), then a NUL. */
  method PutField(tp: array<char>, cp: nat, s: string) returns (next: nat)
    requires cp + |s| + 1 <= tp.Length
    modifies tp
    ensures next == cp + |s| + 1
    ensures tp[..next] == old(tp[..cp]) + s + [NUL]
  {
    forall i | 0 <= i < |s| {
      tp[cp + i] := s[i];
    }
    tp[cp + |s|] := NUL;
    next := cp + |s| + 1;
  }

  /** makerequest: fill the packet through a moving pointer and return its length. */
  method MakeRequest(request: nat, name: string, tp: array<char>, mode: string) returns (n: nat)
    requires request < 256 && |name| + |mode| + 4 <= tp.Length
    modifies tp
    ensures n <= tp.Length && tp[..n] == RequestBytes(request, name, mode, [])
    ensures tp[..n] == [0 as char, request as char] + name + [NUL] + mode + [NUL]
  {
    tp[0], tp[1] := 0 as char, request as char;
    assert tp[..2] == [0 as char, request as char];
    var cp := PutField(tp, 2, name);
    n := PutField(tp, cp, mode);
    assert [name, mode] + Flatten([]) == [name, mode] && [name, mode][1..] == [mode];
    assert Terminated([mode]) == mode + [NUL] + Terminated([]);
  }

  // ---------------------------------------------------------------- the C server

  datatype CResult = CRejected | CParsed(name: string, mode: string)

  function CModes(mode: string): bool {
    mode == "netascii" || mode == "octet"
  }

  /**
   * Two scans that look for NULs. They read the byte where they stop even when that is behind the buffer,
   * so what follows the buffer in memory is part of the input.
   */
  function CParse(stuff: string, tail: string): CResult
    requires 2 <= |tail|
  {
    var j := FieldEnd(stuff, 0);
    if CByte(stuff, tail, j) != NUL then CRejected
    else
      var k := if j < |stuff| then FieldEnd(stuff, j + 1) else j + 1;
      var mode := if j < |stuff| then Lower(stuff[j + 1..k]) else [];
      if CByte(stuff, tail, k) == NUL && CModes(mode) then CParsed(stuff[..j], mode) else CRejected
  }

  function CByte(stuff: string, tail: string, i: nat): char
    requires i <= |stuff| + 1 && 2 <= |tail|
  {
    if i < |stuff| then stuff[i] else tail[i - |stuff|]
  }

  /** The scan of one field: stop at a NUL or at the end of what was received. */
  method ScanC(stuff: string, start: nat) returns (cp: nat)
    ensures cp == if start <= |stuff| then FieldEnd(stuff, start) else start
  {
    cp := start;
    while cp < |stuff|
      invariant start <= cp && (cp <= |stuff| || cp == start)
      invariant start <= |stuff| ==> FieldEnd(stuff, start) == FieldEnd(stuff, cp)
    {
      if stuff[cp] == NUL {
        break;
      }
      cp := cp + 1;
    }
  }

  /** tftp() of tftpd/tftpd.c, up to the validation of the file. */
  method ParseC(stuff: string, tail: string) returns (r: CResult)
    requires 2 <= |tail|
    ensures r == CParse(stuff, tail)
  {
    var cp := ScanC(stuff, 0);
    if CByte(stuff, tail, cp) != NUL {
      return CRejected;
    }
    var mode := cp + 1;
    cp := ScanC(stuff, mode);
    if CByte(stuff, tail, cp) != NUL {
      return CRejected;
    }
    var text := if mode <= cp <= |stuff| then Lower(stuff[mode..cp]) else [];
    if !CModes(text) {
      return CRejected;
    }
    return CParsed(stuff[..mode - 1], text);
  }

  // ---------------------------------------------------------------- the C++ server

  /** What the parser depends on besides the packet: the byte that happens to follow it in memory, and the disk. */
  datatype Env = Env(past: char, disk: Disk)

  /**
   * Aborted: the assertion on the length of the packet stops the server.
   * Refused: an error code goes back; a file may have been opened before.
   * Overrun: the options printed past the end of the acknowledgement buffer; nothing is promised.
   * Taken: the file opened for the upload, if any, the settings, and the option acknowledgement to send.
   */
  datatype Result =
    | Aborted
    | Refused(error: int, file: Option<string>)
    | Overrun(file: Option<string>)
    | Taken(file: Option<string>, settings: Settings, oack: string)

  function Zeros(n: nat): string {
    seq(n, _ => NUL)
  }

  predicate IsRead(rx: string) {
    2 <= |rx| && rx[0] == 0 as char && rx[1] == RRQ as char
  }

  predicate IsWrite(rx: string) {
    2 <= |rx| && rx[0] == 0 as char && rx[1] == WRQ as char
  }

  function Parse(rx: string, env: Env): Result {
    if |rx| < TFTP_HEADER then Aborted
    else if !IsRead(rx) && !IsWrite(rx) then Refused(EBADID, None)
    else Answer(IsRead(rx), FieldsFrom(rx, env.past, 2), NulEnds(rx, env.past, 2), env)
  }

  function Answer(read: bool, fields: seq<string>, ended: bool, env: Env): Result {
    if |fields| < 2 then
      if !ended || read then Refused(EBADOP, None)
      else Taken(None, INITIAL, OACK_HEADER + Zeros(PKTSIZE - 2))
    else if Lower(fields[1]) != "octet" then Refused(EBADOP, None)
    else
      match Validate(env.disk, read, fields[0])
      case Denied(error) => Refused(error, None)
      case Opened(path) => Negotiated(read, fields, ended, path)
  }

  function Negotiated(read: bool, fields: seq<string>, ended: bool, path: string): Result {
    var (st, entries) := Negotiate(Options(fields, |fields|));
    if PKTSIZE < |OackBytes(entries)| then Overrun(Some(path))
    else if !ended || read then Refused(EBADOP, Some(path))
    else Taken(Some(path), st, if |fields| == 2 then [] else OackBytes(entries))
  }

  /** The options among the first n fields of a request: after name and mode, two by two. */
  function Options(fields: seq<string>, n: nat): seq<(string, string)>
    requires n <= |fields|
  {
    if n < 4 then []
    else if n % 2 == 1 then Options(fields, n - 1)
    else Options(fields, n - 2) + [(fields[n - 2], fields[n - 1])]
  }

  // ---------------------------------------------------------------- its loop

  /** What a pointer to offset i reads: a received byte, or the one that follows them. */
  function ByteAt(rx: string, past: char, i: nat): char
    requires i <= |rx|
  {
    if i < |rx| then rx[i] else past
  }

  /** A pointer to offset p stands for this C string. */
  ghost predicate StringAt(rx: string, past: char, p: nat, s: string)
    decreases |s|
  {
    && p <= |rx|
    && if s == [] then ByteAt(rx, past, p) == NUL
       else p < |rx| && rx[p] == s[0] != NUL && StringAt(rx, past, p + 1, s[1..])
  }

  lemma {:induction false} FieldIsString(rx: string, past: char, i: nat)
    requires i <= |rx| && ByteAt(rx, past, FieldEnd(rx, i)) == NUL
    ensures StringAt(rx, past, i, rx[i..FieldEnd(rx, i)])
    decreases |rx| - i
  {
    if i == |rx| || rx[i] == NUL {
    } else {
      FieldIsString(rx, past, i + 1);
      assert rx[i..FieldEnd(rx, i)][1..] == rx[i + 1..FieldEnd(rx, i)];
    }
  }

  /** The string a pointer stands for, as std::string(const char *) copies it. */
  method CString(rx: string, past: char, p: nat, ghost s: string) returns (r: string)
    requires StringAt(rx, past, p, s)
    ensures r == s
  {
    r := [];
    var n: nat := p;
    ghost var rest := s;
    while ByteAt(rx, past, n) != NUL
      invariant n <= |rx| && StringAt(rx, past, n, rest) && r + rest == s
      decreases |rest|
    {
      r, n, rest := r + [rx[n]], n + 1, rest[1..];
    }
  }

  /** Behind the first argn fields, what follows from cp on are the others. */
  ghost predicate Scanned(rx: string, past: char, cp: nat, argn: nat, fields: seq<string>, ended: bool) {
    && cp <= |rx| + 1 && argn <= |fields|
    && fields[argn..] == (if cp <= |rx| then FieldsFrom(rx, past, cp) else [])
    && ended == (cp <= |rx| ==> NulEnds(rx, past, cp))
  }

  /** do cp++ while (cp < end && *cp != 0); then the test of *cp, and ++cp. */
  method SkipField(rx: string, past: char, start: nat, ghost argn: nat, ghost fields: seq<string>, ghost ended: bool)
    returns (ok: bool, cp: nat)
    requires start < |rx| && rx[start] != NUL && Scanned(rx, past, start, argn, fields, ended)
    ensures if !ok then argn == |fields| && !ended
            else argn < |fields| && StringAt(rx, past, start, fields[argn]) &&
                 Scanned(rx, past, cp, argn + 1, fields, ended)
    ensures ok ==> start < cp
  {
    cp := start + 1;
    while cp < |rx| && rx[cp] != NUL
      invariant start < cp <= |rx|
      invariant FieldEnd(rx, start) == FieldEnd(rx, cp)
    {
      cp := cp + 1;
    }
    if ByteAt(rx, past, cp) != NUL {
      return false, cp;
    }
    FieldIsString(rx, past, start);
    assert fields[argn..][0] == rx[start..cp];
    assert fields[argn + 1..] == fields[argn..][1..];
    return true, cp + 1;
  }

  /** What the loop works on. */
  datatype Job = Job(rx: string, env: Env, read: bool)

  /** What it has to find: the fields, whether the last one ends, and where the server stands after each of them. */
  datatype Plan = Plan(fields: seq<string>, ended: bool, after: seq<(Settings, Option<string>)>)

  /** How far it is: behind argn fields; the parser's pointers are offsets into the packet. */
  datatype Cursor = Cursor(cp: nat, argn: nat, filename: nat, mode: nat, opt: nat, val: nat)

  /** Where the pointers stand. */
  ghost predicate Placed(job: Job, fields: seq<string>, at: Cursor)
    requires at.argn <= |fields|
  {
    var rx, past, argn := job.rx, job.env.past, at.argn;
    && (if argn == 0 then at.filename == at.cp else StringAt(rx, past, at.filename, fields[0]))
    && (argn == 1 ==> at.mode == at.cp)
    && (2 <= argn ==>
          if argn % 2 == 0 then at.opt == at.cp
          else StringAt(rx, past, at.opt, fields[argn - 1]) && at.val == at.cp)
  }

  /** The strings that are read when the last of argn fields has been passed. */
  ghost predicate Readable(job: Job, fields: seq<string>, argn: nat, at: Cursor)
    requires argn <= |fields|
  {
    var rx, past := job.rx, job.env.past;
    && (argn == 2 ==> StringAt(rx, past, at.filename, fields[0]) && StringAt(rx, past, at.mode, fields[1]))
    && (4 <= argn && argn % 2 == 0 ==>
          StringAt(rx, past, at.opt, fields[argn - 2]) && StringAt(rx, past, at.val, fields[argn - 1]))
  }

  /** One field more: which pointer is set to the next one depends on how many there have been. */
  function Moved(at: Cursor, cp: nat): Cursor {
    var argn := at.argn + 1;
    var next := at.(cp := cp, argn := argn);
    if argn == 1 then next.(mode := cp) else if argn % 2 == 0 then next.(opt := cp) else next.(val := cp)
  }

  lemma {:induction false} PlacedStep(job: Job, fields: seq<string>, at: Cursor, cp: nat)
    requires at.argn < |fields| && StringAt(job.rx, job.env.past, at.cp, fields[at.argn]) && Placed(job, fields, at)
    ensures Placed(job, fields, Moved(at, cp)) && Readable(job, fields, at.argn + 1, at)
  {
  }

  /** What options lead to: the settings, and the acknowledgement unless it overruns the buffer. */
  function Outcome(pairs: seq<(string, string)>): (Settings, Option<string>) {
    var bytes := OackBytes(Negotiate(pairs).1);
    (Negotiate(pairs).0, if PKTSIZE < |bytes| then None else Some(bytes))
  }

  ghost function Written(server: Server): (Settings, Option<string>)
    reads server, server.pktbuf
    requires server.Valid()
  {
    (server.State(), if server.overrun then None else Some(server.Text()))
  }

  /** The server's globals and buffer are what these options lead to. */
  ghost predicate Answers(server: Server, pairs: seq<(string, string)>)
    reads server, server.pktbuf
  {
    server.Valid() && Written(server) == Outcome(pairs)
  }

  method TakeOption(server: Server, ghost pairs: seq<(string, string)>, opt: string, val: string)
    requires Answers(server, pairs)
    modifies server, server.pktbuf
    ensures Answers(server, pairs + [(opt, val)])
  {
    Agreement.NegotiateSnoc(pairs, opt, val);
    Agreement.NegotiatedBytes(pairs, opt, val);
    server.DoOpt(opt, val);
  }

  /** The plan says where the server has to stand. */
  ghost predicate Sound(plan: Plan) {
    && |plan.after| == |plan.fields| + 1
    && forall n {:trigger Options(plan.fields, n)} :: 0 <= n <= |plan.fields| ==>
         plan.after[n] == Outcome(Options(plan.fields, n))
  }

  lemma {:induction false} MakePlan(fields: seq<string>, ended: bool) returns (plan: Plan)
    ensures Sound(plan) && plan.fields == fields && plan.ended == ended && plan.after[0] == (INITIAL, Some(OACK_HEADER))
  {
    plan := Plan(fields, ended, seq(|fields| + 1, n requires 0 <= n <= |fields| => Outcome(Options(fields, n))));
    assert Options(fields, 0) == [] && OACK_HEADER + EntryBytes([]) == OACK_HEADER;
  }

  lemma {:induction false} OptionsStep(fields: seq<string>, n: nat)
    requires 4 <= n <= |fields| && n % 2 == 0
    ensures Options(fields, n - 1) == Options(fields, n - 2)
    ensures Options(fields, n) == Options(fields, n - 2) + [(fields[n - 2], fields[n - 1])]
  {
  }

  lemma {:induction false} PlanStep(plan: Plan, n: nat) returns (pairs: seq<(string, string)>)
    requires Sound(plan) && 4 <= n <= |plan.fields| && n % 2 == 0
    ensures plan.after[n - 1] == Outcome(pairs)
    ensures plan.after[n] == Outcome(pairs + [(plan.fields[n - 2], plan.fields[n - 1])])
  {
    pairs := Options(plan.fields, n - 2);
    OptionsStep(plan.fields, n);
  }

  /** Only the second field of an option makes a difference. */
  lemma {:induction false} NothingNew(plan: Plan, n: nat)
    requires Sound(plan) && 1 <= n <= |plan.fields| && (n < 4 || n % 2 == 1)
    ensures plan.after[n] == plan.after[n - 1]
  {
    assert Options(plan.fields, n) == Options(plan.fields, n - 1);
  }

  ghost predicate Follows(server: Server, want: (Settings, Option<string>))
    reads server, server.pktbuf
  {
    server.Valid() && Written(server) == want
  }

  /** Name and mode were accepted, and the file opened, if there are any. */
  ghost predicate Accepted(job: Job, fields: seq<string>, argn: nat, file: Option<string>)
    requires argn <= |fields|
  {
    if argn < 2 then file == None
    else
      && Lower(fields[1]) == "octet" && file.Some?
      && Validate(job.env.disk, job.read, fields[0]) == Opened(file.value)
  }

  ghost function Wanted(job: Job, plan: Plan): Result {
    Answer(job.read, plan.fields, plan.ended, job.env)
  }

  /** The second field: the mode is looked up, and the file opened. */
  method TakeMode(job: Job, ghost plan: Plan, at: Cursor) returns (error: int, file: Option<string>)
    requires 2 <= |plan.fields| && Readable(job, plan.fields, 2, at)
    ensures error != 0 ==> Wanted(job, plan) == Refused(error, None)
    ensures error == 0 ==> Accepted(job, plan.fields, 2, file)
  {
    var text := CString(job.rx, job.env.past, at.mode, plan.fields[1]);
    if Lower(text) != "octet" {
      return EBADOP, None;
    }
    var name := CString(job.rx, job.env.past, at.filename, plan.fields[0]);
    var access := ValidateCpp(job.env.disk, job.read, name);
    match access
    case Denied(code) => return code, None;
    case Opened(path) => return 0, Some(path);
  }

  /** The value of an option. */
  method TakeValue(server: Server, job: Job, ghost fields: seq<string>, ghost argn: nat, at: Cursor,
                   ghost pairs: seq<(string, string)>)
    requires 4 <= argn <= |fields| && argn % 2 == 0 && Readable(job, fields, argn, at)
    requires Answers(server, pairs)
    modifies server, server.pktbuf
    ensures Answers(server, pairs + [(fields[argn - 2], fields[argn - 1])])
  {
    var opt := CString(job.rx, job.env.past, at.opt, fields[argn - 2]);
    var val := CString(job.rx, job.env.past, at.val, fields[argn - 1]);
    TakeOption(server, pairs, opt, val);
  }

  /** One field has been passed: what the loop does with it depends on its number. */
  method TakeField(server: Server, job: Job, ghost plan: Plan, argn: nat, at: Cursor, file0: Option<string>)
    returns (error: int, file: Option<string>)
    requires Sound(plan) && 1 <= argn <= |plan.fields|
    requires Accepted(job, plan.fields, argn - 1, file0) && Readable(job, plan.fields, argn, at)
    requires Follows(server, plan.after[argn - 1])
    modifies server, server.pktbuf
    ensures error != 0 ==> Wanted(job, plan) == Refused(error, None)
    ensures error == 0 ==> Accepted(job, plan.fields, argn, file)
    ensures Follows(server, plan.after[argn])
  {
    error, file := 0, file0;
    if 4 <= argn && argn % 2 == 0 {
      ghost var pairs := PlanStep(plan, argn);
      TakeValue(server, job, plan.fields, argn, at, pairs);
    } else {
      NothingNew(plan, argn);
      if argn == 2 {
        error, file := TakeMode(job, plan, at);
      }
    }
  }

  /** What is answered once all fields have been passed, or the last has turned out not to be terminated. */
  method Reply(server: Server, job: Job, ghost plan: Plan, ended: bool, argn: nat, file: Option<string>)
    returns (r: Result)
    requires Sound(plan) && argn == |plan.fields| && ended == plan.ended
    requires Accepted(job, plan.fields, argn, file) && Follows(server, plan.after[argn])
    ensures r == Wanted(job, plan)
  {
    assert Follows(server, Outcome(Options(plan.fields, argn)));
    if server.overrun {
      return Overrun(file);
    }
    if !ended || job.read {
      return Refused(EBADOP, file);
    }
    if argn < 2 {
      assert server.pktbuf[..] == server.Text() + Zeros(PKTSIZE - 2);
      return Taken(None, INITIAL, server.pktbuf[..]);
    }
    var oack := if argn == 2 then [] else server.pktbuf[..server.ap];
    return Taken(file, Settings(server.segsize, server.timeout, server.tsize, server.blksizeSet), oack);
  }

  /** Where the loop may stand. */
  ghost predicate Reached(job: Job, plan: Plan, at: Cursor, file: Option<string>) {
    && Sound(plan) && Scanned(job.rx, job.env.past, at.cp, at.argn, plan.fields, plan.ended)
    && Placed(job, plan.fields, at) && Accepted(job, plan.fields, at.argn, file)
  }

  /** The scan of the next field, if it is terminated. */
  method NextField(job: Job, ghost plan: Plan, at: Cursor) returns (ok: bool, cp: nat)
    requires Scanned(job.rx, job.env.past, at.cp, at.argn, plan.fields, plan.ended) && Placed(job, plan.fields, at)
    requires at.cp < |job.rx| && job.rx[at.cp] != NUL
    ensures if !ok then at.argn == |plan.fields| && !plan.ended
            else
              && at.cp < cp && at.argn < |plan.fields|
              && Scanned(job.rx, job.env.past, cp, at.argn + 1, plan.fields, plan.ended)
              && Placed(job, plan.fields, Moved(at, cp)) && Readable(job, plan.fields, at.argn + 1, at)
  {
    ok, cp := SkipField(job.rx, job.env.past, at.cp, at.argn, plan.fields, plan.ended);
    if ok {
      PlacedStep(job, plan.fields, at, cp);
    }
  }

  /** The rest of a trip, once a field has been passed. */
  method PassField(server: Server, job: Job, ghost plan: Plan, at0: Cursor, cp: nat, file0: Option<string>)
    returns (r: Option<Result>, at: Cursor, file: Option<string>)
    requires Sound(plan) && at0.cp < cp && at0.argn < |plan.fields|
    requires Scanned(job.rx, job.env.past, cp, at0.argn + 1, plan.fields, plan.ended)
    requires Placed(job, plan.fields, Moved(at0, cp)) && Readable(job, plan.fields, at0.argn + 1, at0)
    requires Accepted(job, plan.fields, at0.argn, file0) && Follows(server, plan.after[at0.argn])
    modifies server, server.pktbuf
    ensures r.Some? ==> r.value == Wanted(job, plan)
    ensures r.None? ==> Reached(job, plan, at, file) && at0.cp < at.cp && Follows(server, plan.after[at.argn])
  {
    var error;
    error, file := TakeField(server, job, plan, at0.argn + 1, at0, file0);
    at := Moved(at0, cp);
    r := if error != 0 then Some(Refused(error, None)) else None;
  }

  /** One trip of the loop: the answer, or what it leaves for the next trip. */
  method TakeNext(server: Server, job: Job, ghost plan: Plan, at0: Cursor, file0: Option<string>)
    returns (r: Option<Result>, at: Cursor, file: Option<string>)
    requires Reached(job, plan, at0, file0) && at0.cp < |job.rx| && job.rx[at0.cp] != NUL
    requires Follows(server, plan.after[at0.argn])
    modifies server, server.pktbuf
    ensures r.Some? ==> r.value == Wanted(job, plan)
    ensures r.None? ==> Reached(job, plan, at, file) && at0.cp < at.cp && Follows(server, plan.after[at.argn])
  {
    at, file := at0, file0;
    var ok, cp := NextField(job, plan, at);
    if !ok {
      var reply := Reply(server, job, plan, false, at.argn, file);
      return Some(reply), at, file;
    }
    r, at, file := PassField(server, job, plan, at, cp, file);
  }

  /** The loop over the fields. */
  method TakeFields(server: Server, job: Job, ghost plan: Plan) returns (r: Result)
    requires Sound(plan) && Scanned(job.rx, job.env.past, 2, 0, plan.fields, plan.ended)
    requires Follows(server, plan.after[0])
    modifies server, server.pktbuf
    ensures r == Wanted(job, plan)
  {
    var at, file := Cursor(2, 0, 2, 2, 2, 2), None;
    while at.cp < |job.rx| && job.rx[at.cp] != NUL
      invariant Reached(job, plan, at, file) && Follows(server, plan.after[at.argn])
    {
      var answer;
      answer, at, file := TakeNext(server, job, plan, at, file);
      if answer.Some? {
        return answer.value;
      }
    }
    r := Reply(server, job, plan, true, at.argn, file);
  }

  /** tftp() of tftpd_utils.cpp. */
  method Tftp(rx: string, env: Env) returns (r: Result)
    ensures r == Parse(rx, env)
  {
    var server := new Server();
    if |rx| < TFTP_HEADER {
      return Aborted;
    }
    if !IsRead(rx) && !IsWrite(rx) {
      return Refused(EBADID, None);
    }
    ghost var plan := MakePlan(FieldsFrom(rx, env.past, 2), NulEnds(rx, env.past, 2));
    r := TakeFields(server, Job(rx, env, IsRead(rx)), plan);
  }
}
