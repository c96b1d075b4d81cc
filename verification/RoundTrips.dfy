/** Requests read back by the two servers, and how long the answer can get. */
module RoundTrips {
  import opened Common
  import opened Texts
  import opened Negotiation
  import opened Requests
  import Agreement
  import opened Paths

  // ---------------------------------------------------------------- the C server

  lemma {:induction false} CParseOfFields(stuff: string, name: string, mode: string, tail: string)
    requires |name| + 1 + |mode| < |stuff| && 2 <= |tail|
    requires FieldEnd(stuff, 0) == |name| && stuff[0..|name|] == name
    requires FieldEnd(stuff, |name| + 1) == |name| + 1 + |mode| && stuff[|name| + 1..|name| + 1 + |mode|] == mode
    ensures CParse(stuff, tail) == if CModes(Lower(mode)) then CParsed(name, Lower(mode)) else CRejected
  {
  }

  /**
   * What makerequest prints, with or without options behind it, is taken apart into the same name and the
   * mode in lower case, whatever lies behind the packet.
   */
  lemma {:induction false} CServerReadsBack(opcode: nat, name: string, mode: string,
                                            pairs: seq<(string, string)>, tail: string)
    requires opcode < 256 && NulFree(name) && NulFree(mode) && 2 <= |tail|
    ensures var stuff := RequestBytes(opcode, name, mode, pairs)[2..];
            CParse(stuff, tail) ==
            if CModes(Lower(mode)) then CParsed(name, Lower(mode)) else CRejected
  {
    var fields := [name, mode] + Flatten(pairs);
    var stuff := RequestBytes(opcode, name, mode, pairs)[2..];
    assert stuff == Terminated(fields) && stuff[0..] == stuff;
    TerminatedHolds(stuff, 0, fields);
    FirstHeld(stuff, 0, fields);
    assert fields[1..] == [mode] + Flatten(pairs);
    FirstHeld(stuff, |name| + 1, fields[1..]);
    CParseOfFields(stuff, name, mode, tail);
  }

  /** The packet begins with this name and this mode; the last NUL may be the byte that happens to follow it. */
  ghost predicate BeginsWith(stuff: string, tail: string, name: string, raw: string)
    requires 2 <= |tail|
  {
    NulFree(name) && NulFree(raw) && name + ['\0'] + raw + ['\0'] <= stuff + [tail[0]]
  }

  lemma {:induction false} CServerTakes(stuff: string, tail: string, name: string, raw: string)
    requires 2 <= |tail| && BeginsWith(stuff, tail, name, raw)
    requires Lower(raw) == "netascii" || Lower(raw) == "octet"
    ensures CParse(stuff, tail) == CParsed(name, Lower(raw))
  {
    var mem, j := stuff + [tail[0]], |name|;
    var text, k := name + ['\0'] + raw + ['\0'], j + 1 + |raw|;
    assert raw != [] && k <= |stuff|;
    PrefixAt(text, mem);
    assert forall i :: 0 <= i < k ==> stuff[i] == mem[i];
    assert stuff[0..j] == name && stuff[j] == text[j] == NUL && stuff[j + 1..k] == raw;
    assert mem[k] == text[k] == NUL;
    assert CByte(stuff, tail, k) == mem[k];
    assert stuff[..j] == stuff[0..j];
    FieldEndIs(stuff, 0, j);
    FieldEndIs(stuff, j + 1, k);
  }

  lemma {:induction false} PrefixAt(a: string, b: string)
    requires a <= b
    ensures forall i :: 0 <= i < |a| ==> b[i] == a[i]
  {
  }

  lemma {:induction false} FieldEndIs(s: string, i: nat, e: nat)
    requires i <= e <= |s| && NulFree(s[i..e]) && (e < |s| ==> s[e] == NUL)
    ensures FieldEnd(s, i) == e
  {
    assert forall j :: i <= j < e ==> s[j] == s[i..e][j - i];
  }

  lemma {:induction false} CServerTakesOnly(stuff: string, tail: string) returns (raw: string)
    requires 2 <= |tail| && CParse(stuff, tail).CParsed?
    ensures BeginsWith(stuff, tail, CParse(stuff, tail).name, raw) && CParse(stuff, tail).mode == Lower(raw)
    ensures Lower(raw) == "netascii" || Lower(raw) == "octet"
  {
    var j := FieldEnd(stuff, 0);
    var k := FieldEnd(stuff, j + 1);
    raw := stuff[j + 1..k];
    assert (stuff + [tail[0]])[..k + 1] == stuff[..j] + ['\0'] + raw + ['\0'];
  }

  /**
   * For every packet: the C server takes it if and only if it begins with a name and a mode, and the mode is netascii
   * or octet in any case.
   */
  lemma {:induction false} CParsedIff(stuff: string, tail: string, name: string, mode: string)
    requires 2 <= |tail|
    ensures CParse(stuff, tail) == CParsed(name, mode) <==>
            exists raw :: BeginsWith(stuff, tail, name, raw) && mode == Lower(raw) && mode in ["netascii", "octet"]
  {
    if CParse(stuff, tail) == CParsed(name, mode) {
      var raw := CServerTakesOnly(stuff, tail);
      assert BeginsWith(stuff, tail, name, raw);
    }
    if raw :| BeginsWith(stuff, tail, name, raw) && mode == Lower(raw) && mode in ["netascii", "octet"] {
      CServerTakes(stuff, tail, name, raw);
    }
  }

  // ---------------------------------------------------------------- the C++ server

  lemma {:induction false} FlattenAt(pairs: seq<(string, string)>, i: nat)
    requires i < |pairs|
    ensures |Flatten(pairs)| == 2 * |pairs|
    ensures Flatten(pairs)[2 * i] == pairs[i].0 && Flatten(pairs)[2 * i + 1] == pairs[i].1
    decreases |pairs|
  {
    PairedFlatten(pairs);
    if i == 0 {
    } else {
      FlattenAt(pairs[1..], i - 1);
    }
  }

  /** The first k pairs that the fields behind name and mode make up. */
  lemma {:induction false} OptionsOfFields(fields: seq<string>, pairs: seq<(string, string)>, k: nat)
    requires k <= |pairs| && |fields| == 2 + 2 * |pairs| && fields[2..] == Flatten(pairs)
    ensures Options(fields, 2 + 2 * k) == pairs[..k]
  {
    if k == 0 {
    } else {
      OptionsOfFields(fields, pairs, k - 1);
      FlattenAt(pairs, k - 1);
      assert fields[2 * k] == fields[2..][2 * k - 2] && fields[2 * k + 1] == fields[2..][2 * k - 1];
      assert pairs[..k] == pairs[..k - 1] + [pairs[k - 1]];
    }
  }

  /**
   * The C++ server takes a printed request apart into the same name and mode and the same option pairs, in order:
   * it opens a file if and only if the mode is octet in any case and the file may be opened, and the pairs decide
   * the settings and the acknowledgement.
   */
  lemma {:induction false} CppServerReadsBack(opcode: nat, name: string, mode: string,
                                              pairs: seq<(string, string)>, env: Env)
    requires opcode < 256 && IsField(name) && IsField(mode)
    requires forall i :: 0 <= i < |pairs| ==> IsField(pairs[i].0) && IsField(pairs[i].1)
    ensures Parse(RequestBytes(opcode, name, mode, pairs), env) ==
            if opcode != RRQ && opcode != WRQ then Refused(EBADID, None)
            else if Lower(mode) != "octet" then Refused(EBADOP, None)
            else
              match Validate(env.disk, opcode == RRQ, name)
              case Denied(error) => Refused(error, None)
              case Opened(path) =>
                var (st, entries) := Negotiate(pairs);
                if PKTSIZE < |OackBytes(entries)| then Overrun(Some(path))
                else if opcode == RRQ then Refused(EBADOP, Some(path))
                else Taken(Some(path), st, if pairs == [] then [] else OackBytes(entries))
  {
    var fields := [name, mode] + Flatten(pairs);
    RequestFields(name, mode, pairs);
    ParseOfFields(opcode, name, mode, pairs, env);
    OptionsOfFields(fields, pairs, |pairs|);
    assert pairs[..|pairs|] == pairs;
    AnswerToFields(opcode == RRQ, fields, pairs, env);
  }

  lemma {:induction false} ParseOfFields(
      opcode: nat, name: string, mode: string, pairs: seq<(string, string)>, env: Env)
    requires opcode < 256 && IsField(name) && IsField(mode)
    requires forall i :: 0 <= i < |pairs| ==> IsField(pairs[i].0) && IsField(pairs[i].1)
    ensures Parse(RequestBytes(opcode, name, mode, pairs), env) ==
            if opcode != RRQ && opcode != WRQ then Refused(EBADID, None)
            else Answer(opcode == RRQ, [name, mode] + Flatten(pairs), true, env)
  {
    var rx := RequestBytes(opcode, name, mode, pairs);
    var fields := [name, mode] + Flatten(pairs);
    assert rx[2..] == Terminated(fields);
    RequestSize(opcode, name, mode, pairs);
    RequestFields(name, mode, pairs);
    FieldsOfTerminated(rx, 2, fields, env.past);
    SmallChars(opcode);
  }

  lemma {:induction false} RequestSize(opcode: nat, name: string, mode: string, pairs: seq<(string, string)>)
    requires opcode < 256
    ensures |RequestBytes(opcode, name, mode, pairs)| == |name| + |mode| + 4 + Agreement.PairBytes(pairs)
  {
    var fields := [name, mode] + Flatten(pairs);
    assert fields[1..] == [mode] + Flatten(pairs);
    assert fields[1..][1..] == Flatten(pairs);
    assert Terminated(fields[1..]) == mode + [NUL] + Terminated(Flatten(pairs));
  }

  lemma {:induction false} AnswerToFields(read: bool, fields: seq<string>, pairs: seq<(string, string)>, env: Env)
    requires 2 <= |fields| && Options(fields, |fields|) == pairs && (|fields| == 2 <==> pairs == [])
    ensures Answer(read, fields, true, env) ==
            if Lower(fields[1]) != "octet" then Refused(EBADOP, None)
            else
              match Validate(env.disk, read, fields[0])
              case Denied(error) => Refused(error, None)
              case Opened(path) =>
                var (st, entries) := Negotiate(pairs);
                if PKTSIZE < |OackBytes(entries)| then Overrun(Some(path))
                else if read then Refused(EBADOP, Some(path))
                else Taken(Some(path), st, if pairs == [] then [] else OackBytes(entries))
  {
  }

  lemma {:induction false} OptionsOfPrefix(fields: seq<string>, m: nat, n: nat)
    requires n <= m <= |fields|
    ensures Options(fields[..m], n) == Options(fields, n)
  {
    if n < 4 {
    } else {
      OptionsOfPrefix(fields, m, n - 1);
      OptionsOfPrefix(fields, m, n - 2);
    }
  }

  /** A last option without a value is not looked at. */
  lemma {:induction false} LoneOption(fields: seq<string>, pairs: seq<(string, string)>)
    requires |fields| == 3 + 2 * |pairs| && fields[2..|fields| - 1] == Flatten(pairs)
    ensures Options(fields, |fields|) == pairs
  {
    var even := fields[..|fields| - 1];
    assert even[2..] == fields[2..|fields| - 1];
    OptionsOfFields(even, pairs, |pairs|);
    assert pairs[..|pairs|] == pairs;
    OptionsOfPrefix(fields, |even|, |even|);
    if pairs != [] {
      assert |fields| % 2 == 1;
    }
  }

  lemma {:induction false} SmallChars(opcode: nat)
    requires opcode < 256
    ensures (opcode as char == RRQ as char) == (opcode == RRQ) && (opcode as char == WRQ as char) == (opcode == WRQ)
  {
  }

  lemma {:induction false} RequestFields(name: string, mode: string, pairs: seq<(string, string)>)
    requires IsField(name) && IsField(mode)
    requires forall i :: 0 <= i < |pairs| ==> IsField(pairs[i].0) && IsField(pairs[i].1)
    ensures var fields := [name, mode] + Flatten(pairs);
            |fields| == 2 + 2 * |pairs| && fields[2..] == Flatten(pairs) &&
            forall k :: 0 <= k < |fields| ==> IsField(fields[k])
  {
    PairedFlatten(pairs);
    FlattenFields(pairs);
  }

  lemma {:induction false} FlattenFields(pairs: seq<(string, string)>)
    requires forall i :: 0 <= i < |pairs| ==> IsField(pairs[i].0) && IsField(pairs[i].1)
    ensures forall k :: 0 <= k < |Flatten(pairs)| ==> IsField(Flatten(pairs)[k])
  {
    if pairs == [] {
    } else {
      FlattenFields(pairs[1..]);
    }
  }

  // ---------------------------------------------------------------- the length of the answer

  lemma {:induction false} FieldsFit(s: string, past: char, i: nat)
    requires i <= |s|
    ensures |Terminated(FieldsFrom(s, past, i))| <= |s| - i + if past == NUL then 1 else 0
    decreases |s| - i
  {
    var fields, e := FieldsFrom(s, past, i), FieldEnd(s, i);
    if fields == [] {
    } else {
      if e < |s| {
        FieldsFit(s, past, e + 1);
        assert fields[1..] == FieldsFrom(s, past, e + 1);
      } else {
        assert fields[1..] == [];
      }
    }
  }

  lemma {:induction false} TerminatedSnoc(fields: seq<string>, n: nat)
    requires n < |fields|
    ensures |Terminated(fields[..n + 1])| == |Terminated(fields[..n])| + |fields[n]| + 1
  {
    assert fields[..n + 1] == fields[..n] + [fields[n]];
    TerminatedAppend(fields[..n], [fields[n]]);
    assert Terminated([fields[n]]) == fields[n] + [NUL] + Terminated([]);
  }

  /** The options of a request take no more room than its fields, without name and mode. */
  lemma {:induction false} OptionsFit(fields: seq<string>, n: nat)
    requires 2 <= n <= |fields|
    ensures Agreement.PairBytes(Options(fields, n)) + |fields[0]| + |fields[1]| + 2 <= |Terminated(fields[..n])|
  {
    if n == 2 {
      assert fields[..0] == [];
      TerminatedSnoc(fields, 0);
      TerminatedSnoc(fields, 1);
    } else {
      TerminatedSnoc(fields, n - 1);
      OptionsFit(fields, n - 1);
      if n % 2 == 0 {
        TerminatedSnoc(fields, n - 2);
        OptionsFit(fields, n - 2);
        Agreement.PairBytesSnoc(Options(fields, n - 2), (fields[n - 2], fields[n - 1]));
      }
    }
  }

  /** The option list of any datagram. */
  function OptionsOf(rx: string, past: char): seq<(string, string)>
    requires TFTP_HEADER <= |rx|
  {
    var fields := FieldsFrom(rx, past, 2);
    Options(fields, |fields|)
  }

  lemma {:induction false} FieldsAreFields(s: string, past: char, i: nat)
    requires i <= |s|
    ensures forall k :: 0 <= k < |FieldsFrom(s, past, i)| ==> IsField(FieldsFrom(s, past, i)[k])
    decreases |s| - i
  {
    if FieldEnd(s, i) == |s| {
    } else {
      FieldsAreFields(s, past, FieldEnd(s, i) + 1);
    }
  }

  lemma {:induction false} OptionsAreFields(fields: seq<string>, n: nat)
    requires n <= |fields| && forall k :: 0 <= k < |fields| ==> IsField(fields[k])
    ensures forall i :: 0 <= i < |Options(fields, n)| ==>
              IsField(Options(fields, n)[i].0) && IsField(Options(fields, n)[i].1)
  {
    if n < 4 {
    } else if n % 2 == 1 {
      OptionsAreFields(fields, n - 1);
    } else {
      OptionsAreFields(fields, n - 2);
    }
  }

  /** If no option is printed longer than it was given, the acknowledgement is shorter than the datagram. */
  lemma {:induction false} AnswerIsShorter(rx: string, past: char)
    requires TFTP_HEADER <= |rx| && Agreement.NonePrintsLonger(OptionsOf(rx, past))
    requires 2 < |FieldsFrom(rx, past, 2)|
    ensures |OackBytes(Negotiate(OptionsOf(rx, past)).1)| < |rx|
  {
    var fields := FieldsFrom(rx, past, 2);
    assert fields[..|fields|] == fields;
    OptionsFit(fields, |fields|);
    FieldsFit(rx, past, 2);
    FieldsAreFields(rx, past, 2);
    Agreement.OackIsNotLonger(OptionsOf(rx, past));
  }

  lemma {:induction false} NoOptions(rx: string, past: char)
    requires TFTP_HEADER <= |rx| && |FieldsFrom(rx, past, 2)| <= 2
    ensures OackBytes(Negotiate(OptionsOf(rx, past)).1) == OACK_HEADER
  {
    assert OptionsOf(rx, past) == [];
    assert EntryBytes([]) == [];
  }

  /**
   * For every datagram that fits the server's receive buffer: if no option is printed longer than it was given, the
   * acknowledgement buffer is large enough, and what is sent is shorter than the request. A write request without
   * name and mode is answered with the whole buffer.
   */
  lemma {:induction false} OackFits(rx: string, env: Env)
    requires TFTP_HEADER <= |rx| <= PKTSIZE && Agreement.NonePrintsLonger(OptionsOf(rx, env.past))
    ensures var answer := Parse(rx, env);
            && !answer.Overrun?
            && (answer.Taken? ==>
                  if answer.file == None then |answer.oack| == PKTSIZE else |answer.oack| < |rx|)
  {
    if 2 < |FieldsFrom(rx, env.past, 2)| {
      AnswerIsShorter(rx, env.past);
    } else {
      NoOptions(rx, env.past);
    }
  }

  // ---------------------------------------------------------------- the block size

  lemma {:induction false} WholeBuffer(past: char)
    ensures Agreement.ClientBlksize(OACK_HEADER + Zeros(PKTSIZE - 2), past) == DEFAULT_BLKSIZE
  {
    var bytes := OACK_HEADER + Zeros(PKTSIZE - 2);
    assert bytes[2] == NUL && bytes[..2] == OACK_HEADER;
    assert FieldEnd(bytes, 2) == 2;
    assert FieldsFrom(bytes, past, 2) == [];
  }

  /** Whatever the datagram was, a client that reads the answer cuts its file by the server's segment size. */
  lemma {:induction false} ClientReadsBlksize(rx: string, env: Env, past: char)
    requires Parse(rx, env).Taken?
    ensures Agreement.ClientBlksize(Parse(rx, env).oack, past) == Parse(rx, env).settings.segsize
    ensures 8 <= Parse(rx, env).settings.segsize <= MAX_SEGSIZE
  {
    var fields := FieldsFrom(rx, env.past, 2);
    if |fields| < 2 {
      WholeBuffer(past);
    } else {
      FieldsAreFields(rx, env.past, 2);
      OptionsAreFields(fields, |fields|);
      Agreement.ClientAgrees(OptionsOf(rx, env.past), past);
      Agreement.NegotiationAgrees(OptionsOf(rx, env.past));
    }
  }

  // ---------------------------------------------------------------- the overrun

  /** The name is opened. */
  predicate Opens(rx: string, env: Env) {
    && TFTP_HEADER <= |rx| && (IsRead(rx) || IsWrite(rx))
    && var fields := FieldsFrom(rx, env.past, 2);
       && 2 <= |fields| && Lower(fields[1]) == "octet"
       && Validate(env.disk, IsRead(rx), fields[0]).Opened?
  }

  /** Exactly when the copies of do_opt run past the end of the acknowledgement buffer. */
  lemma {:induction false} OverrunIff(rx: string, env: Env)
    ensures Parse(rx, env).Overrun? <==>
            Opens(rx, env) && PKTSIZE < |OackBytes(Negotiate(OptionsOf(rx, env.past)).1)|
  {
  }

  // ---------------------------------------------------------------- the file

  /** The file that the server opens for a datagram. */
  function FileOf(answer: Result): Option<string> {
    match answer
    case Aborted => None
    case Refused(_, file) => file
    case Overrun(file) => file
    case Taken(file, _, _) => file
  }

  /** A datagram that gets as far as the access to a file: opcode 1 or 2, and octet as the second of its fields. */
  predicate AsksForFile(rx: string, past: char) {
    && 4 <= |rx| && rx[0] == 0 as char && (rx[1] == 1 as char || rx[1] == 2 as char)
    && 2 <= |FieldsFrom(rx, past, 2)| && Lower(FieldsFrom(rx, past, 2)[1]) == "octet"
  }

  /** What others get: 5 for the opcode, 4 for the mode or a missing end, the whole buffer for a nameless upload. */
  lemma {:induction false} NoFileAnswer(rx: string, env: Env)
    requires !AsksForFile(rx, env.past)
    ensures Parse(rx, env) ==
            if |rx| < 4 then Aborted
            else if rx[0] != 0 as char || (rx[1] != 1 as char && rx[1] != 2 as char) then Refused(5, None)
            else if 2 <= |FieldsFrom(rx, env.past, 2)| || rx[1] == 1 as char || !NulEnds(rx, env.past, 2) then
              Refused(4, None)
            else Taken(None, Settings(512, 1000, 0, false), [0 as char, 6 as char] + seq(514, _ => NUL))
  {
  }

  /** The answer once the file is open: settings and acknowledgement are what the options ask for. */
  lemma {:induction false} FileAnswer(rx: string, env: Env)
    requires AsksForFile(rx, env.past)
    ensures var read, fields := rx[1] == 1 as char, FieldsFrom(rx, env.past, 2);
            var pairs := Options(fields, |fields|);
            var oack := OackBytes(Agreement.EntriesFor(pairs));
            Parse(rx, env) ==
              match Validate(env.disk, read, fields[0])
              case Denied(error) => Refused(error, None)
              case Opened(path) =>
                if 516 < |oack| then Overrun(Some(path))
                else if read || !NulEnds(rx, env.past, 2) then Refused(4, Some(path))
                else Taken(Some(path), Agreement.Asks(pairs), if |fields| == 2 then [] else oack)
  {
    Agreement.SettingsFollowRequest(OptionsOf(rx, env.past));
  }

  /** For every datagram: a write request opens a file exactly under these conditions, whatever stat says. */
  lemma {:induction false} WriteRequestOpens(rx: string, env: Env)
    requires AsksForFile(rx, env.past) && rx[1] == 2 as char
    ensures var name := FieldsFrom(rx, env.past, 2)[0];
            var path := env.disk.root + "/" + Stripped(name) + ".upload";
            if GoesUp(name) || !env.disk.rootReachable then Parse(rx, env) == Refused(2, None)
            else if path in env.disk.closed then Parse(rx, env) == Refused(env.disk.closed[path] + 100, None)
            else FileOf(Parse(rx, env)) == Some(path)
  {
    WriteAccess(env.disk, FieldsFrom(rx, env.past, 2)[0]);
    FileAnswer(rx, env);
  }

  /** And a read request, which is refused in the end, under these. */
  lemma {:induction false} ReadRequestOpens(rx: string, env: Env)
    requires AsksForFile(rx, env.past) && rx[1] == 1 as char
    ensures var name := FieldsFrom(rx, env.past, 2)[0];
            var path := env.disk.root + "/" + Stripped(name);
            if GoesUp(name) || !env.disk.rootReachable then Parse(rx, env) == Refused(2, None)
            else if path !in env.disk.stats || env.disk.stats[path] == Missing then Parse(rx, env) == Refused(1, None)
            else if env.disk.stats[path] != Present(true) then Parse(rx, env) == Refused(2, None)
            else if path in env.disk.closed then Parse(rx, env) == Refused(env.disk.closed[path] + 100, None)
            else FileOf(Parse(rx, env)) == Some(path) && !Parse(rx, env).Taken?
  {
    ReadAccess(env.disk, FieldsFrom(rx, env.past, 2)[0]);
    FileAnswer(rx, env);
  }

  /** A read request opens the file it names, a write request the one with the suffix. */
  lemma {:induction false} OpenedPath(rx: string, env: Env)
    requires FileOf(Parse(rx, env)).Some?
    ensures Opens(rx, env)
    ensures var name := FieldsFrom(rx, env.past, 2)[0];
            && !Climbs(name)
            && FileOf(Parse(rx, env)).value == Target(env.disk.root, name) + (if IsRead(rx) then "" else SUFFIX)
  {
    var path := Target(env.disk.root, FieldsFrom(rx, env.past, 2)[0]);
    assert path + "" == path;
  }

  /** The name puts a path above the root directory. */
  predicate NamesParent(root: string, name: string) {
    EndsAbove(Components(Stripped(name))) && Resolve(Components(root)) != []
  }

  /**
   * Where the file that any datagram makes the server open lies: outside the root directory if and only if it is a
   * read request whose name goes up one step and never down. The final name of an upload is outside under the
   * same condition.
   */
  lemma {:induction false} OpenedOutsideIff(rx: string, env: Env)
    requires FileOf(Parse(rx, env)).Some?
    ensures var root, name := env.disk.root, FieldsFrom(rx, env.past, 2)[0];
            && (Leaves(root, FileOf(Parse(rx, env)).value) <==> IsRead(rx) && NamesParent(root, name))
            && (Leaves(root, Target(root, name)) <==> NamesParent(root, name))
  {
    var name := FieldsFrom(rx, env.past, 2)[0];
    OpenedPath(rx, env);
    TargetLeavesIff(env.disk.root, name);
    UploadNeverLeaves(env.disk.root, name);
    assert Target(env.disk.root, name) + "" == Target(env.disk.root, name);
  }

  /** The C server opens the target for reading and writing alike, so it leaves its directory under that condition. */
  lemma {:induction false} CServerOutsideIff(stuff: string, tail: string, dir: string)
    requires 2 <= |tail| && CParse(stuff, tail).CParsed? && !Climbs(Stripped(CParse(stuff, tail).name))
    ensures var name := CParse(stuff, tail).name;
            Leaves(dir, dir + ['/'] + Stripped(name)) <==> NamesParent(dir, name)
  {
    var name := CParse(stuff, tail).name;
    SameNamesRefused(name);
    TargetLeavesIff(dir, name);
  }

  /** The datagram that reads "..": it is refused, but only after the parent of the root directory has been opened. */
  lemma {:induction false} ReadOfParent(env: Env)
    requires env.disk.rootReachable && Resolve(Components(env.disk.root)) != []
    requires StatOf(env.disk, env.disk.root + "/..") == Present(true) && env.disk.root + "/.." !in env.disk.closed
    ensures var path := env.disk.root + "/..";
            && Parse(RequestBytes(RRQ, "..", "octet", []), env) == Refused(EBADOP, Some(path))
            && Leaves(env.disk.root, path)
  {
    ParentIsAccepted(env.disk.root);
    assert Lower("octet") == "octet";
    CppServerReadsBack(RRQ, "..", "octet", [], env);
    assert EntryBytes([]) == [];
  }
}
