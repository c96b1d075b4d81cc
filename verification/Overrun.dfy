/**
 * The longest answer that a request of a given length can draw from the C++ server, and so the shortest request
 * whose acknowledgement runs past the end of its buffer.
 */
module Overrun {
  import opened Common
  import opened Texts
  import opened Negotiation
  import opened Agreement
  import opened Requests
  import opened Paths
  import RoundTrips

  // ---------------------------------------------------------------- what an option can draw

  const LEAST: nat := 8     // bytes of an option that is granted: tsize and one character
  const MOST: nat := 27     // bytes of an entry: tsize and twenty digits

  lemma {:induction false} NameLength(opt: string)
    requires Lookup(opt).Some?
    ensures |opt| == match Lookup(opt).value
                     case Blksize => 7
                     case Blksize2 => 8
                     case Tsize => 5
                     case Timeout => 7
                     case Utimeout => 8
  {
    NamesMean(opt);
  }

  lemma {:induction false} Digits()
    ensures Pow10(5) == 100_000 && Pow10(9) == 1_000_000_000
    ensures Pow10(19) == 10_000_000_000_000_000_000 && Pow10(20) == 100_000_000_000_000_000_000
  {
    assert Pow10(5) == 100_000;
    assert Pow10(9) == 1_000_000_000;
    assert Pow10(14) == 100_000_000_000_000;
    assert Pow10(19) == 10_000_000_000_000_000_000;
  }

  /** How long the acknowledged value can get. */
  lemma {:induction false} GrantedDigits(st: Settings, name: Name, v: nat)
    requires v < UINTMAX_RANGE && InOffRange(st.tsize) && Grant(st, name, v).Some?
    ensures |Decimal(Grant(st, name, v).value.1)| <= match name
                                                     case Tsize => 20
                                                     case Timeout => 9
                                                     case Utimeout => 9
                                                     case _ => 5
  {
    Digits();
    var granted := Grant(st, name, v).value.1;
    DecimalLength(granted, 20);
    DecimalLength(granted, 9);
    DecimalLength(granted, 5);
  }

  /** The most that one option draws, and the least that it costs. */
  lemma {:induction false} EntryBound(st: Settings, opt: string, val: string)
    requires InOffRange(st.tsize) && Negotiate1(st, opt, val).1 != []
    ensures LEAST <= |opt| + |val| + 2
    ensures |EntryBytes(Negotiate1(st, opt, val).1)| <= MOST
  {
    var more := Negotiate1(st, opt, val).1;
    NameLength(opt);
    GrantedDigits(st, Lookup(opt).value, StrToUmax(val).value);
    assert more == [more[0]];
    OneEntry(more[0]);
  }

  lemma {:induction false} OneDigit(val: string)
    requires |val| == 1 && StrToUmax(val).Some?
    ensures StrToUmax(val).value <= 9
  {
    SpacesSkipped(val);
    assert SkipSpaces(val) == val;
    assert val[..0] == [];
    assert Value(val) == 10 * Value([]) + DigitValue(val[0]);
  }

  /** An option of the least cost draws no more than it costs, if none before has set a larger size. */
  lemma {:induction false} LeastDrawsNothing(st: Settings, opt: string, val: string)
    requires 0 <= st.tsize <= 9 && Negotiate1(st, opt, val).1 != [] && |opt| + |val| + 2 == LEAST
    ensures |EntryBytes(Negotiate1(st, opt, val).1)| <= LEAST
    ensures 0 <= Negotiate1(st, opt, val).0.tsize <= 9
  {
    var more := Negotiate1(st, opt, val).1;
    NameLength(opt);
    OneDigit(val);
    assert more == [more[0]];
    OneEntry(more[0]);
  }

  /** What the entries for these options cost and draw; if none costs more than the least, they draw only that. */
  ghost predicate Bounded(pairs: seq<(string, string)>) {
    var (st, entries) := Negotiate(pairs);
    && LEAST * |entries| <= PairBytes(pairs)
    && |EntryBytes(entries)| <= MOST * |entries|
    && (PairBytes(pairs) == LEAST * |entries| ==> |EntryBytes(entries)| <= LEAST * |entries| && 0 <= st.tsize <= 9)
  }

  lemma {:induction false} OneMoreBounded(before: seq<(string, string)>, opt: string, val: string)
    requires Bounded(before) && opt != [] && val != []
    ensures Bounded(before + [(opt, val)])
  {
    var (st, entries) := Negotiate(before);
    var (st', more) := Negotiate1(st, opt, val);
    NegotiateSnoc(before, opt, val);
    NegotiatedBytes(before, opt, val);
    PairBytesSnoc(before, (opt, val));
    if more == [] {
      assert entries + more == entries;
    } else {
      EntryBound(st, opt, val);
      if |opt| + |val| + 2 == LEAST && 0 <= st.tsize <= 9 {
        LeastDrawsNothing(st, opt, val);
      }
    }
  }

  lemma {:induction false} AllBounded(pairs: seq<(string, string)>)
    requires forall i :: 0 <= i < |pairs| ==> IsField(pairs[i].0) && IsField(pairs[i].1)
    ensures Bounded(pairs)
  {
    if pairs == [] {
      assert PairBytes([]) == 0;
    } else {
      var last := pairs[|pairs| - 1];
      AllBounded(pairs[..|pairs| - 1]);
      OneMoreBounded(pairs[..|pairs| - 1], last.0, last.1);
      Rejoined(pairs);
    }
  }

  lemma {:induction false} TwentyNeeded(entries: nat, cost: nat, drawn: nat)
    requires LEAST * entries <= cost && drawn <= MOST * entries
    requires cost == LEAST * entries ==> drawn <= LEAST * entries
    requires PKTSIZE < 2 + drawn
    ensures 161 <= cost
  {
  }

  /** Twenty entries are needed, and twenty options of the least cost do not draw enough. */
  lemma {:induction false} OverlongCosts(pairs: seq<(string, string)>)
    requires forall i :: 0 <= i < |pairs| ==> IsField(pairs[i].0) && IsField(pairs[i].1)
    requires PKTSIZE < |OackBytes(Negotiate(pairs).1)|
    ensures 161 <= PairBytes(pairs)
  {
    AllBounded(pairs);
    TwentyNeeded(|Negotiate(pairs).1|, PairBytes(pairs), |EntryBytes(Negotiate(pairs).1)|);
  }

  // ---------------------------------------------------------------- the options that draw most

  /** A size of -1, which wraps around and is printed in twenty digits, and k questions for it. */
  function Greedy(k: nat): seq<(string, string)> {
    if k == 0 then [("tsize", "-1")] else Greedy(k - 1) + [("tsize", "0")]
  }

  lemma {:induction false} TsizeFound()
    ensures Lookup("tsize") == Some(Tsize)
  {
    assert Lower("tsize") == "tsize";
    assert Lookup("tsize") == Find("tsize", OPTIONS[1..][1..]);
  }

  lemma {:induction false} MinusOne(st: Settings)
    requires InOffRange(st.tsize)
    ensures Negotiate1(st, "tsize", "-1") == (st.(tsize := -1), [("tsize", UINTMAX_RANGE - 1)])
  {
    var val, one := "-1", "1";
    assert SkipSpaces(val) == val && val[1..] == one;
    assert one[..0] == [] && Value([]) == 0;
    TsizeFound();
  }

  lemma {:induction false} AskedBack(st: Settings)
    requires st.tsize == -1
    ensures Negotiate1(st, "tsize", "0") == (st, [("tsize", UINTMAX_RANGE - 1)])
  {
    var val := "0";
    assert SkipSpaces(val) == val;
    assert val[..0] == [] && Value([]) == 0;
    TsizeFound();
  }

  lemma {:induction false} WrappedEntry()
    ensures |EntryBytes([("tsize", UINTMAX_RANGE - 1)])| == MOST
  {
    Digits();
    DecimalLength(UINTMAX_RANGE - 1, 19);
    DecimalLength(UINTMAX_RANGE - 1, 20);
    OneEntry(("tsize", UINTMAX_RANGE - 1));
  }

  lemma {:induction false} OneQuestion(before: seq<(string, string)>)
    requires Negotiate(before).0.tsize == -1
    ensures var pairs := before + [("tsize", "0")];
            && PairBytes(pairs) == PairBytes(before) + LEAST
            && |OackBytes(Negotiate(pairs).1)| == |OackBytes(Negotiate(before).1)| + MOST
            && Negotiate(pairs).0.tsize == -1
  {
    WrappedEntry();
    AskedBack(Negotiate(before).0);
    NegotiateSnoc(before, "tsize", "0");
    NegotiatedBytes(before, "tsize", "0");
    PairBytesSnoc(before, ("tsize", "0"));
  }

  /** What they cost, and what they draw. */
  lemma {:induction false} GreedyDraws(k: nat)
    ensures PairBytes(Greedy(k)) == LEAST * k + LEAST + 1
    ensures |OackBytes(Negotiate(Greedy(k)).1)| == 2 + MOST * (k + 1)
    ensures Negotiate(Greedy(k)).0.tsize == -1
  {
    if k == 0 {
      FirstGreedy();
    } else {
      GreedyDraws(k - 1);
      OneQuestion(Greedy(k - 1));
    }
  }

  lemma {:induction false} GreedyAreFields(k: nat)
    ensures forall i :: 0 <= i < |Greedy(k)| ==> IsField(Greedy(k)[i].0) && IsField(Greedy(k)[i].1)
  {
    if k == 0 {
    } else {
      GreedyAreFields(k - 1);
    }
  }

  lemma {:induction false} FirstGreedy()
    ensures PairBytes([("tsize", "-1")]) == LEAST + 1
    ensures |OackBytes(Negotiate([("tsize", "-1")]).1)| == 2 + MOST
    ensures Negotiate([("tsize", "-1")]).0.tsize == -1
  {
    WrappedEntry();
    MinusOne(INITIAL);
    assert [] + [("tsize", "-1")] == [("tsize", "-1")];
    NegotiateSnoc([], "tsize", "-1");
    NegotiatedBytes([], "tsize", "-1");
    PairBytesSnoc([], ("tsize", "-1"));
    assert PairBytes([]) == 0 && EntryBytes([]) == [];
  }

  /** 161 bytes of options that overrun. */
  ghost predicate Overlong(pairs: seq<(string, string)>) {
    && PairBytes(pairs) == 161 && PKTSIZE < |OackBytes(Negotiate(pairs).1)| && pairs != []
    && forall i :: 0 <= i < |pairs| ==> IsField(pairs[i].0) && IsField(pairs[i].1)
  }

  lemma {:induction false} GreedyIsOverlong(k: nat) returns (pairs: seq<(string, string)>)
    requires LEAST * k + LEAST + 1 == 161
    ensures Overlong(pairs)
  {
    GreedyDraws(k);
    GreedyAreFields(k);
    pairs := Greedy(k);
  }

  // ---------------------------------------------------------------- requests of other lengths

  lemma {:induction false} SameFieldEnd(s: string, t: string, i: nat)
    requires i <= |s| && t != [] && t[0] == NUL
    ensures FieldEnd(s + t, i) == FieldEnd(s, i)
    decreases |s| - i
  {
    if i == |s| || s[i] == NUL {
    } else {
      SameFieldEnd(s, t, i + 1);
    }
  }

  /** NULs behind the last field are not looked at. */
  lemma {:induction false} PaddedAlike(s: string, past: char, i: nat, k: nat)
    requires i <= |s| && s != [] && s[|s| - 1] == NUL
    ensures FieldsFrom(s + Zeros(k), past, i) == FieldsFrom(s, past, i)
    ensures NulEnds(s + Zeros(k), past, i) == NulEnds(s, past, i)
    decreases |s| - i
  {
    var e := FieldEnd(s, i);
    if k == 0 {
      assert s + Zeros(k) == s;
    } else {
      SameFieldEnd(s, Zeros(k), i);
      if e < |s| {
        assert (s + Zeros(k))[i..e] == s[i..e];
        PaddedAlike(s, past, e + 1, k);
      }
    }
  }

  /** The last NUL may as well be the byte behind the packet. */
  lemma {:induction false} UnterminatedAlike(s: string, i: nat)
    requires i <= |s|
    ensures FieldsFrom(s + [NUL], NUL, i) == FieldsFrom(s, NUL, i) && NulEnds(s + [NUL], NUL, i) == NulEnds(s, NUL, i)
    decreases |s| - i
  {
    var e := FieldEnd(s, i);
    SameFieldEnd(s, [NUL], i);
    assert (s + [NUL])[i..e] == s[i..e];
    if e < |s| {
      UnterminatedAlike(s, e + 1);
    }
  }

  // ---------------------------------------------------------------- the shortest request

  /** A datagram that names this file and whose acknowledgement overruns. */
  ghost predicate Overruns(rx: string, env: Env, name: string) {
    TFTP_HEADER <= |rx| && Parse(rx, env).Overrun? && [name] <= FieldsFrom(rx, env.past, 2)
  }

  predicate Openable(env: Env, name: string) {
    Validate(env.disk, true, name).Opened? || Validate(env.disk, false, name).Opened?
  }

  /** Opcode, name and mode, and 161 bytes of options; the last NUL may be the byte behind the packet. */
  function ShortestOverrun(env: Env, name: string): nat {
    |name| + 9 + 161 - if env.past == NUL then 1 else 0
  }

  lemma {:induction false} OverrunIsLong(rx: string, env: Env, name: string)
    requires Overruns(rx, env, name)
    ensures IsField(name) && Openable(env, name) && ShortestOverrun(env, name) <= |rx|
  {
    var fields := FieldsFrom(rx, env.past, 2);
    RoundTrips.OverrunIff(rx, env);
    assert fields[0] == name && |Lower(fields[1])| == 5;
    RoundTrips.FieldsAreFields(rx, env.past, 2);
    RoundTrips.OptionsAreFields(fields, |fields|);
    OverlongCosts(Options(fields, |fields|));
    assert fields[..|fields|] == fields;
    RoundTrips.OptionsFit(fields, |fields|);
    RoundTrips.FieldsFit(rx, env.past, 2);
  }

  function Full(read: bool, name: string, pairs: seq<(string, string)>): string {
    RequestBytes(if read then RRQ else WRQ, name, "octet", pairs)
  }

  /** This request padded with NULs to a length of n, or without its last byte. */
  function OfLength(full: string, n: nat): string
    requires |full| - 1 <= n
  {
    if n < |full| then full[..n] else full + Zeros(n - |full|)
  }

  lemma {:induction false} FieldsOfLength(full: string, fields: seq<string>, past: char, n: nat)
    requires 3 <= |full| && full[2..] == Terminated(fields) && fields != []
    requires forall j :: 0 <= j < |fields| ==> IsField(fields[j])
    requires |full| - (if past == NUL then 1 else 0) <= n
    ensures var rx := OfLength(full, n);
            && |rx| == n && rx[..2] == full[..2]
            && FieldsFrom(rx, past, 2) == fields && NulEnds(rx, past, 2)
  {
    FieldsOfTerminated(full, 2, fields, past);
    TerminatedEnds(fields);
    assert full[|full| - 1] == full[2..][|full| - 3];
    if n < |full| {
      assert OfLength(full, n) + [NUL] == full;
      UnterminatedAlike(OfLength(full, n), 2);
    } else {
      PaddedAlike(full, past, 2, n - |full|);
    }
  }

  lemma {:induction false} TerminatedEnds(fields: seq<string>)
    requires fields != []
    ensures Terminated(fields) != [] && Terminated(fields)[|Terminated(fields)| - 1] == NUL
  {
    if |fields| == 1 {
      assert fields[1..] == [] && Terminated(fields[1..]) == [];
    } else {
      TerminatedEnds(fields[1..]);
    }
  }

  lemma {:induction false} LongOverruns(env: Env, name: string, n: nat) returns (rx: string)
    requires IsField(name) && Openable(env, name) && ShortestOverrun(env, name) <= n
    ensures |rx| == n && Overruns(rx, env, name)
  {
    var read := Validate(env.disk, true, name).Opened?;
    var pairs := GreedyIsOverlong(19);
    var full, fields := Full(read, name, pairs), [name, "octet"] + Flatten(pairs);
    RoundTrips.RequestFields(name, "octet", pairs);
    RoundTrips.RequestSize(if read then RRQ else WRQ, name, "octet", pairs);
    assert full[2..] == Terminated(fields);
    FieldsOfLength(full, fields, env.past, n);
    FieldsOfPairs(name, pairs);
    rx := OfLength(full, n);
    OverlongOverruns(rx, env, read, fields, pairs);
  }

  lemma {:induction false} FieldsOfPairs(name: string, pairs: seq<(string, string)>)
    requires IsField(name) && pairs != []
    requires forall i :: 0 <= i < |pairs| ==> IsField(pairs[i].0) && IsField(pairs[i].1)
    ensures var fields := [name, "octet"] + Flatten(pairs);
            2 < |fields| && Lower(fields[1]) == "octet" && Options(fields, |fields|) == pairs
  {
    RoundTrips.RequestFields(name, "octet", pairs);
    RoundTrips.OptionsOfFields([name, "octet"] + Flatten(pairs), pairs, |pairs|);
    assert pairs[..|pairs|] == pairs;
    assert Lower("octet") == "octet";
  }

  lemma {:induction false} OverlongOverruns(
      rx: string, env: Env, read: bool, fields: seq<string>, pairs: seq<(string, string)>)
    requires 2 < |fields| && Lower(fields[1]) == "octet" && Validate(env.disk, read, fields[0]).Opened?
    requires Options(fields, |fields|) == pairs && PKTSIZE < |OackBytes(Negotiate(pairs).1)|
    requires TFTP_HEADER <= |rx| && rx[..2] == [0 as char, (if read then RRQ else WRQ) as char]
    requires FieldsFrom(rx, env.past, 2) == fields && NulEnds(rx, env.past, 2)
    ensures Overruns(rx, env, fields[0])
  {
    assert rx[0] == rx[..2][0] && rx[1] == rx[..2][1];
    AnswerOverruns(read, fields, pairs, env);
  }

  lemma {:induction false} AnswerOverruns(read: bool, fields: seq<string>, pairs: seq<(string, string)>, env: Env)
    requires 2 < |fields| && Options(fields, |fields|) == pairs && PKTSIZE < |OackBytes(Negotiate(pairs).1)|
    requires Lower(fields[1]) == "octet" && Validate(env.disk, read, fields[0]).Opened?
    ensures Answer(read, fields, true, env).Overrun?
  {
  }

  /** Exactly from this length on there is a datagram for this file whose acknowledgement overruns its buffer. */
  lemma {:induction false} OverrunIffLong(env: Env, name: string, n: nat)
    ensures (exists rx :: |rx| == n && Overruns(rx, env, name)) <==>
            IsField(name) && Openable(env, name) && ShortestOverrun(env, name) <= n
  {
    if rx :| |rx| == n && Overruns(rx, env, name) {
      OverrunIsLong(rx, env, name);
    }
    if IsField(name) && Openable(env, name) && ShortestOverrun(env, name) <= n {
      var rx := LongOverruns(env, name, n);
    }
  }

  /** For some file, then, exactly from 170 or 171 bytes on, if one with the shortest of names can be opened. */
  lemma {:induction false} SomeOverrunIff(env: Env, n: nat)
    requires exists ch: char :: ch != NUL && Openable(env, [ch])
    ensures (exists rx :: |rx| == n && Parse(rx, env).Overrun?) <==> (if env.past == NUL then 170 else 171) <= n
  {
    var ch: char :| ch != NUL && Openable(env, [ch]);
    OverrunIffLong(env, [ch], n);
    if rx :| |rx| == n && Parse(rx, env).Overrun? {
      var name := FieldsFrom(rx, env.past, 2)[0];
      OverrunIsLong(rx, env, name);
    }
  }
}
