/** What the two sides agree on after any list of options, and what the acknowledgement says about it. */
module Agreement {
  import opened Common
  import opened Texts
  import opened Negotiation

  // ------------------------------------------------- what each option means

  /** The names, in any case. */
  lemma {:induction false} NamesMean(opt: string)
    ensures var name := Lower(opt);
            Lookup(opt) == if name == "blksize" then Some(Blksize)
                           else if name == "blksize2" then Some(Blksize2)
                           else if name == "tsize" then Some(Tsize)
                           else if name == "timeout" then Some(Timeout)
                           else if name == "utimeout" then Some(Utimeout)
                           else None
  {
    FoundIs(Lower(opt));
  }

  lemma {:induction false} FoundIs(name: string)
    ensures Find(name, OPTIONS) ==
            if name == "blksize" then Some(Blksize)
            else if name == "blksize2" then Some(Blksize2)
            else if name == "tsize" then Some(Tsize)
            else if name == "timeout" then Some(Timeout)
            else if name == "utimeout" then Some(Utimeout)
            else None
  {
    var o1, o2, o3, o4 := OPTIONS[1..], OPTIONS[2..], OPTIONS[3..], OPTIONS[4..];
    assert o1[1..] == o2 && o2[1..] == o3 && o3[1..] == o4 && o4[1..] == [];
    assert Find(name, []) == None;
    assert Find(name, o4) == if name == "utimeout" then Some(Utimeout) else None;
    assert Find(name, o3) == if name == "timeout" then Some(Timeout) else Find(name, o4);
    assert Find(name, o2) == if name == "tsize" then Some(Tsize) else Find(name, o3);
    assert Find(name, o1) == if name == "blksize2" then Some(Blksize2) else Find(name, o2);
    assert Find(name, OPTIONS) == if name == "blksize" then Some(Blksize) else Find(name, o1);
  }

  /** The number that an option comes with. */
  function Asked(opt: string, val: string): Option<nat> {
    if opt == [] || val == [] then None else StrToUmax(val)
  }

  /** The block size that would be granted if it came first. */
  function BlksizeAsked(opt: string, val: string): Option<nat> {
    var name := Lower(opt);
    if Asked(opt, val).None? || Asked(opt, val).value < 8 || (name != "blksize" && name != "blksize2") then None
    else
      var v := Asked(opt, val).value;
      Some(if v > 65464 then 65464 else if name == "blksize" then v else RoundDown(v))
  }

  /** The size of the transfer in an off_t, unless it is asked for. */
  function TsizeAsked(opt: string, val: string): Option<int> {
    if Asked(opt, val).None? || Asked(opt, val).value == 0 || Lower(opt) != "tsize" then None
    else
      var v := Asked(opt, val).value;
      Some(if v < 9223372036854775808 then v else v - 18446744073709551616)
  }

  /** The timeout in milliseconds that one option asks for, if it is acceptable. */
  function TimeoutAsked(opt: string, val: string): Option<nat> {
    if Asked(opt, val).None? then None
    else
      var v, name := Asked(opt, val).value, Lower(opt);
      if name == "timeout" && 1 <= v <= 255 then Some(v * 1000)
      else if name == "utimeout" && 1000 <= v <= 255_000_000 then Some(v / 1000)
      else None
  }

  /** What blksize and blksize2 do: the first acceptable one sets and acknowledges the block size. */
  lemma {:induction false} BlksizeMeans(st: Settings, opt: string, val: string)
    requires InOffRange(st.tsize) && (Lower(opt) == "blksize" || Lower(opt) == "blksize2")
    ensures Negotiate1(st, opt, val) ==
            if st.blksizeSet || BlksizeAsked(opt, val).None? then (st, [])
            else
              var sz := BlksizeAsked(opt, val).value;
              (st.(segsize := sz, blksizeSet := true), [(opt, sz)])
  {
    NamesMean(opt);
  }

  /** What tsize does: it sets the size, or asks for the last one that was set. */
  lemma {:induction false} TsizeMeans(st: Settings, opt: string, val: string)
    requires InOffRange(st.tsize) && Lower(opt) == "tsize"
    ensures Negotiate1(st, opt, val) ==
            if Asked(opt, val).None? then (st, [])
            else if TsizeAsked(opt, val).None? then
              (st, [(opt, if st.tsize < 0 then st.tsize + 18446744073709551616 else st.tsize)])
            else (st.(tsize := TsizeAsked(opt, val).value), [(opt, Asked(opt, val).value)])
  {
    NamesMean(opt);
  }

  /** What timeout and utimeout do: every acceptable one sets the timeout. */
  lemma {:induction false} TimeoutMeans(st: Settings, opt: string, val: string)
    requires InOffRange(st.tsize) && (Lower(opt) == "timeout" || Lower(opt) == "utimeout")
    ensures Negotiate1(st, opt, val) ==
            if TimeoutAsked(opt, val).None? then (st, [])
            else (st.(timeout := TimeoutAsked(opt, val).value), [(opt, Asked(opt, val).value)])
  {
    NamesMean(opt);
  }

  /** Anything else is ignored. */
  lemma {:induction false} OtherMeans(st: Settings, opt: string, val: string)
    requires InOffRange(st.tsize)
    requires Lower(opt) !in ["blksize", "blksize2", "tsize", "timeout", "utimeout"]
    ensures Negotiate1(st, opt, val) == (st, [])
  {
    NamesMean(opt);
  }

  // ------------------------------------------------- the settings, read off the request

  /** The first acceptable block size request decides. */
  function FirstBlksize(pairs: seq<(string, string)>): Option<nat> {
    if pairs == [] then None
    else if BlksizeAsked(pairs[0].0, pairs[0].1).Some? then BlksizeAsked(pairs[0].0, pairs[0].1)
    else FirstBlksize(pairs[1..])
  }

  /** The last acceptable timeout request decides. */
  function LastTimeout(pairs: seq<(string, string)>): nat {
    if pairs == [] then 1000
    else
      var last := pairs[|pairs| - 1];
      match TimeoutAsked(last.0, last.1)
      case Some(ms) => ms
      case None => LastTimeout(pairs[..|pairs| - 1])
  }

  /** The last size that was not a question decides. */
  function LastTsize(pairs: seq<(string, string)>): (size: int)
    ensures InOffRange(size)
  {
    if pairs == [] then 0
    else
      var last := pairs[|pairs| - 1];
      match TsizeAsked(last.0, last.1)
      case Some(size) => size
      case None => LastTsize(pairs[..|pairs| - 1])
  }

  lemma {:induction false} FirstBlksizeSnoc(pairs: seq<(string, string)>, last: (string, string))
    ensures FirstBlksize(pairs + [last]) ==
            if FirstBlksize(pairs).Some? then FirstBlksize(pairs) else FirstBlksize([last])
  {
    if pairs == [] {
      assert pairs + [last] == [last];
    } else {
      assert (pairs + [last])[1..] == pairs[1..] + [last];
      FirstBlksizeSnoc(pairs[1..], last);
    }
  }

  /** The entry that one option adds, after options that have left these settings. */
  function EntryFor(st: Settings, opt: string, val: string): seq<Entry>
    requires InOffRange(st.tsize)
  {
    if BlksizeAsked(opt, val).Some? then (if st.blksizeSet then [] else [(opt, BlksizeAsked(opt, val).value)])
    else if TimeoutAsked(opt, val).Some? || TsizeAsked(opt, val).Some? then [(opt, Asked(opt, val).value)]
    else if Lower(opt) == "tsize" && Asked(opt, val).Some? then
      [(opt, if st.tsize < 0 then st.tsize + 18446744073709551616 else st.tsize)]
    else []
  }

  /** The acknowledgement, read off the request. */
  function EntriesFor(pairs: seq<(string, string)>): seq<Entry> {
    if pairs == [] then []
    else
      var before, last := pairs[..|pairs| - 1], pairs[|pairs| - 1];
      EntriesFor(before) + EntryFor(Asks(before), last.0, last.1)
  }

  /** The settings that a request asks for. */
  function Asks(pairs: seq<(string, string)>): Settings {
    Settings(if FirstBlksize(pairs).Some? then FirstBlksize(pairs).value else 512,
             LastTimeout(pairs), LastTsize(pairs), FirstBlksize(pairs).Some?)
  }

  /** The settings that one option leaves behind. */
  function SettingsWith(st: Settings, opt: string, val: string): Settings {
    var blksize, timeout, tsize := BlksizeAsked(opt, val), TimeoutAsked(opt, val), TsizeAsked(opt, val);
    Settings(if !st.blksizeSet && blksize.Some? then blksize.value else st.segsize,
             if timeout.Some? then timeout.value else st.timeout,
             if tsize.Some? then tsize.value else st.tsize,
             st.blksizeSet || blksize.Some?)
  }

  lemma {:induction false} OptionStep(st: Settings, opt: string, val: string)
    requires InOffRange(st.tsize)
    ensures Negotiate1(st, opt, val) == (SettingsWith(st, opt, val), EntryFor(st, opt, val))
  {
    var name := Lower(opt);
    if name == "blksize" || name == "blksize2" {
      BlksizeMeans(st, opt, val);
    } else if name == "tsize" {
      TsizeMeans(st, opt, val);
    } else if name == "timeout" || name == "utimeout" {
      TimeoutMeans(st, opt, val);
    } else {
      OtherMeans(st, opt, val);
    }
  }

  lemma {:induction false} AsksSnoc(before: seq<(string, string)>, last: (string, string))
    ensures Asks(before + [last]) == SettingsWith(Asks(before), last.0, last.1)
  {
    FirstBlksizeSnoc(before, last);
    assert [last][1..] == [];
    assert (before + [last])[..|before|] == before;
  }

  lemma {:induction false} EntriesSnoc(before: seq<(string, string)>, last: (string, string))
    ensures EntriesFor(before + [last]) == EntriesFor(before) + EntryFor(Asks(before), last.0, last.1)
  {
    assert (before + [last])[..|before|] == before;
  }

  lemma {:induction false} OneMoreFollows(before: seq<(string, string)>, opt: string, val: string)
    requires Negotiate(before) == (Asks(before), EntriesFor(before))
    ensures Negotiate(before + [(opt, val)]) == (Asks(before + [(opt, val)]), EntriesFor(before + [(opt, val)]))
  {
    NegotiateSnoc(before, opt, val);
    OptionStep(Asks(before), opt, val);
    AsksSnoc(before, (opt, val));
    EntriesSnoc(before, (opt, val));
  }

  /**
   * For every option list: the segment size is what the first acceptable blksize or blksize2 asks for, the timeout
   * what the last acceptable one does, the size the last that was set; and the acknowledgement has, in order, what
   * was granted, with its value.
   */
  lemma {:induction false} SettingsFollowRequest(pairs: seq<(string, string)>)
    ensures Negotiate(pairs) == (Asks(pairs), EntriesFor(pairs))
  {
    if pairs == [] {
    } else {
      var before, last := pairs[..|pairs| - 1], pairs[|pairs| - 1];
      SettingsFollowRequest(before);
      OneMoreFollows(before, last.0, last.1);
      Rejoined(pairs);
    }
  }

  // ------------------------------------------------- the settings, read off the acknowledgement

  /** The timeout that an acknowledged entry stands for. */
  function EntryTimeout(entries: seq<Entry>): nat {
    if entries == [] then 1000
    else
      var last := entries[|entries| - 1];
      if Lookup(last.0) == Some(Timeout) then last.1 * 1000
      else if Lookup(last.0) == Some(Utimeout) then last.1 / 1000
      else EntryTimeout(entries[..|entries| - 1])
  }

  function EntryTsize(entries: seq<Entry>): int {
    if entries == [] then 0
    else
      var last := entries[|entries| - 1];
      if Lookup(last.0) == Some(Tsize) && last.1 < UINTMAX_RANGE then ToOff(last.1)
      else EntryTsize(entries[..|entries| - 1])
  }

  /** At most one block size entry, present if and only if one was granted, with g_segsize as its value. */
  ghost predicate BlksizeAgrees(st: Settings, entries: seq<Entry>) {
    && (forall i :: 0 <= i < |entries| && IsBlksize(entries[i].0) ==> st.blksizeSet && entries[i].1 == st.segsize)
    && (forall i, j :: 0 <= i < j < |entries| ==> !(IsBlksize(entries[i].0) && IsBlksize(entries[j].0)))
    && (st.blksizeSet ==> exists i :: 0 <= i < |entries| && IsBlksize(entries[i].0))
    && (!st.blksizeSet ==> st.segsize == DEFAULT_BLKSIZE)
  }

  ghost predicate Agrees(st: Settings, entries: seq<Entry>) {
    && BlksizeAgrees(st, entries)
    && st.timeout == EntryTimeout(entries)
    && st.tsize == EntryTsize(entries)
    && 8 <= st.segsize <= 65464 && 1 <= st.timeout <= 255_000 && InOffRange(st.tsize)
    && (forall i :: 0 <= i < |entries| ==> entries[i].0 != [] && entries[i].1 < UINTMAX_RANGE)
  }

  /** What a granted option with its final value does to the settings. */
  ghost predicate Effect(st: Settings, st': Settings, name: Name, v: nat) {
    && v < UINTMAX_RANGE && InOffRange(st'.tsize)
    && match name
       case Tsize => st' == st.(tsize := ToOff(v))
       case Timeout => st' == st.(timeout := v * 1000) && 1 <= st'.timeout <= 255_000
       case Utimeout => st' == st.(timeout := v / 1000) && 1 <= st'.timeout <= 255_000
       case _ => !st.blksizeSet && 8 <= v <= 65464 && st' == st.(segsize := v, blksizeSet := true)
  }

  lemma {:induction false} RoundedAtLeastEight(v: nat, p: nat)
    requires 8 <= v && RoundsDownTo(v, p)
    ensures 8 <= p
  {
    assert !IsPow2(5) && !IsPow2(3) && !IsPow2(6) && !IsPow2(7);
  }

  lemma {:induction false} BlksizeEffect(st: Settings, name: Name, v: nat)
    requires v < UINTMAX_RANGE && InOffRange(st.tsize) && (name.Blksize? || name.Blksize2?)
    ensures match GrantBlksize(st, name, v)
            case None => true
            case Some((st', v')) => Effect(st, st', name, v')
  {
    if MIN_BLKSIZE <= v {
      RoundedAtLeastEight(v, RoundDown(v));
    }
  }

  lemma {:induction false} GrantEffect(st: Settings, name: Name, v: nat)
    requires v < UINTMAX_RANGE && InOffRange(st.tsize)
    ensures match Grant(st, name, v)
            case None => true
            case Some((st', v')) => Effect(st, st', name, v')
  {
    if name.Blksize? || name.Blksize2? {
      BlksizeEffect(st, name, v);
    }
  }

  lemma {:induction false} EntryEffect(st: Settings, opt: string, val: string)
    requires InOffRange(st.tsize)
    ensures var (st', more) := Negotiate1(st, opt, val);
            || (more == [] && st' == st)
            || (|more| == 1 && more[0].0 == opt != [] && Lookup(opt).Some? &&
                Effect(st, st', Lookup(opt).value, more[0].1))
  {
    if StrToUmax(val).Some? && Lookup(opt).Some? {
      GrantEffect(st, Lookup(opt).value, StrToUmax(val).value);
    }
  }

  lemma {:induction false} BlksizeAgreesEntry(st: Settings, entries: seq<Entry>, st': Settings, e: Entry)
    requires BlksizeAgrees(st, entries)
    requires if IsBlksize(e.0) then !st.blksizeSet && st'.blksizeSet && st'.segsize == e.1
             else st'.blksizeSet == st.blksizeSet && st'.segsize == st.segsize
    ensures BlksizeAgrees(st', entries + [e])
  {
    var all := entries + [e];
    assert all[|entries|] == e && forall i :: 0 <= i < |entries| ==> all[i] == entries[i];
    if IsBlksize(e.0) {
      assert IsBlksize(all[|entries|].0);
    } else if st'.blksizeSet {
      var i :| 0 <= i < |entries| && IsBlksize(entries[i].0);
      assert IsBlksize(all[i].0);
    }
  }

  lemma {:induction false} AgreesEntry(st: Settings, entries: seq<Entry>, st': Settings, e: Entry)
    requires Agrees(st, entries) && e.0 != [] && Lookup(e.0).Some? && Effect(st, st', Lookup(e.0).value, e.1)
    ensures Agrees(st', entries + [e])
  {
    assert (entries + [e])[..|entries|] == entries;
    BlksizeAgreesEntry(st, entries, st', e);
  }

  lemma {:induction false} AgreesStep(st: Settings, entries: seq<Entry>, opt: string, val: string)
    requires Agrees(st, entries)
    ensures var (st', more) := Negotiate1(st, opt, val); Agrees(st', entries + more)
  {
    var (st', more) := Negotiate1(st, opt, val);
    EntryEffect(st, opt, val);
    if more == [] {
      assert entries + more == entries;
    } else {
      AgreesEntry(st, entries, st', more[0]);
      assert more == [more[0]];
    }
  }

  /**
   * After any option list the acknowledgement and the server's settings say the same: at most one
   * block size, equal to g_segsize (512 without one); the last timeout, converted, is g_timeout; the
   * last transfer size is g_tsize; all within the limits of RFC 2348 and RFC 2349.
   */
  lemma {:induction false} NegotiationAgrees(pairs: seq<(string, string)>)
    ensures Agrees(Negotiate(pairs).0, Negotiate(pairs).1)
  {
    if pairs == [] {
    } else {
      var before, last := pairs[..|pairs| - 1], pairs[|pairs| - 1];
      NegotiationAgrees(before);
      AgreesStep(Negotiate(before).0, Negotiate(before).1, last.0, last.1);
    }
  }

  // ------------------------------------------------- the acknowledgement as bytes

  /** How a client reads an acknowledgement back: the pairs behind the opcode, with numeric values. */
  function ReadOack(bytes: string, past: char): Option<seq<Entry>>
  {
    if |bytes| < 2 || bytes[..2] != OACK_HEADER then None
    else if !NulEnds(bytes, past, 2) then None
    else Some(Valued(Paired(FieldsFrom(bytes, past, 2))))
  }

  function Valued(pairs: seq<(string, string)>): seq<Entry> {
    if pairs == [] then []
    else
      [(pairs[0].0, if StrToUmax(pairs[0].1).Some? then StrToUmax(pairs[0].1).value else 0)] + Valued(pairs[1..])
  }

  lemma {:induction false} ValuedAppend(a: seq<(string, string)>, b: seq<(string, string)>)
    ensures Valued(a + b) == Valued(a) + Valued(b)
  {
    if a == [] {
      assert a + b == b;
    } else {
      assert (a + b)[1..] == a[1..] + b;
      ValuedAppend(a[1..], b);
    }
  }

  lemma {:induction false} ValuedOne(e: Entry)
    requires e.1 < UINTMAX_RANGE
    ensures Valued([(e.0, Decimal(e.1))]) == [e]
  {
    var pair := (e.0, Decimal(e.1));
    ValueDecimal(e.1);
    StrToUmaxOfDigits(pair.1);
    assert [pair][1..] == [];
  }

  lemma {:induction false} PrintedSnoc(entries: seq<Entry>, last: Entry)
    ensures Printed(entries + [last]) == Printed(entries) + [(last.0, Decimal(last.1))]
  {
    assert (entries + [last])[..|entries|] == entries;
  }

  lemma {:induction false} ValuedSnoc(entries: seq<Entry>, last: Entry)
    requires last.1 < UINTMAX_RANGE
    ensures Valued(Printed(entries + [last])) == Valued(Printed(entries)) + [last]
  {
    PrintedSnoc(entries, last);
    ValuedAppend(Printed(entries), [(last.0, Decimal(last.1))]);
    ValuedOne(last);
  }

  lemma {:induction false} ValuedPrinted(entries: seq<Entry>)
    requires forall i :: 0 <= i < |entries| ==> entries[i].1 < UINTMAX_RANGE
    ensures Valued(Printed(entries)) == entries
  {
    if entries == [] {
    } else {
      var before, last := entries[..|entries| - 1], entries[|entries| - 1];
      ValuedPrinted(before);
      ValuedSnoc(before, last);
      assert before + [last] == entries;
    }
  }

  lemma {:induction false} FlattenAppend(a: seq<(string, string)>, b: seq<(string, string)>)
    ensures Flatten(a + b) == Flatten(a) + Flatten(b)
  {
    if a == [] {
      assert a + b == b;
    } else {
      assert (a + b)[1..] == a[1..] + b;
      FlattenAppend(a[1..], b);
    }
  }

  /** The acknowledgement is a list of NUL-terminated fields like the option part of a request. */
  lemma {:induction false} EntryFields(entries: seq<Entry>)
    ensures EntryBytes(entries) == Terminated(Flatten(Printed(entries)))
  {
    if entries == [] {
    } else {
      var before, last := entries[..|entries| - 1], entries[|entries| - 1];
      var field := Decimal(last.1);
      EntryFields(before);
      FlattenAppend(Printed(before), [(last.0, field)]);
      TerminatedAppend(Flatten(Printed(before)), Flatten([(last.0, field)]));
      assert Flatten([(last.0, field)]) == [last.0, field] + Flatten([]) == [last.0, field];
      assert [last.0, field][1..] == [field] && Terminated([field]) == field + [NUL] + Terminated([]);
    }
  }

  /** So it is the bytes 0 and 6, and each name and value with its NUL. */
  lemma {:induction false} OackLayout(entries: seq<Entry>, last: Entry)
    ensures OackBytes([]) == [0 as char, 6 as char]
    ensures OackBytes(entries + [last]) == OackBytes(entries) + last.0 + ['\0'] + Decimal(last.1) + ['\0']
  {
    OackSnoc(entries, [last]);
    OneEntry(last);
    assert EntryBytes([]) == [];
  }

  lemma {:induction false} DigitsAreNulFree(s: string)
    requires AllDigits(s)
    ensures NulFree(s)
  {
    EachIsDigit(s);
  }

  lemma {:induction false} PrintedFields(entries: seq<Entry>)
    requires forall i :: 0 <= i < |entries| ==> IsField(entries[i].0)
    ensures forall i :: 0 <= i < |Flatten(Printed(entries))| ==> IsField(Flatten(Printed(entries))[i])
  {
    if entries == [] {
    } else {
      var before, last := entries[..|entries| - 1], entries[|entries| - 1];
      PrintedFields(before);
      DigitsAreNulFree(Decimal(last.1));
      FlattenAppend(Printed(before), [(last.0, Decimal(last.1))]);
      assert Flatten([(last.0, Decimal(last.1))]) == [last.0, Decimal(last.1)] + Flatten([]);
    }
  }

  lemma {:induction false} EntryNames(pairs: seq<(string, string)>)
    requires forall i :: 0 <= i < |pairs| ==> IsField(pairs[i].0)
    ensures forall i :: 0 <= i < |Negotiate(pairs).1| ==> IsField(Negotiate(pairs).1[i].0)
  {
    if pairs == [] {
    } else {
      EntryNames(pairs[..|pairs| - 1]);
    }
  }

  /** Reading the acknowledgement back gives exactly the granted options, in request order, with their final values. */
  lemma {:induction false} OackRoundTrip(pairs: seq<(string, string)>, past: char)
    requires forall i :: 0 <= i < |pairs| ==> IsField(pairs[i].0)
    ensures ReadOack(OackBytes(Negotiate(pairs).1), past) == Some(Negotiate(pairs).1)
  {
    var entries := Negotiate(pairs).1;
    EntryNames(pairs);
    NegotiationAgrees(pairs);
    PrintedFields(entries);
    EntryFields(entries);
    assert OackBytes(entries)[2..] == EntryBytes(entries);
    FieldsOfTerminated(OackBytes(entries), 2, Flatten(Printed(entries)), past);
    PairedFlatten(Printed(entries));
    ValuedPrinted(entries);
  }

  // ------------------------------------------------- what a client makes of it

  /** The block size that the entries of an acknowledgement set. */
  function AckedBlksize(entries: seq<Entry>): nat {
    if entries == [] then DEFAULT_BLKSIZE
    else if IsBlksize(entries[0].0) then entries[0].1
    else AckedBlksize(entries[1..])
  }

  /** The block size by which a client cuts its file, after an option acknowledgement or a plain one. */
  function ClientBlksize(oack: string, past: char): nat {
    if oack == [] || ReadOack(oack, past).None? then DEFAULT_BLKSIZE else AckedBlksize(ReadOack(oack, past).value)
  }

  lemma {:induction false} AckedBlksizeIs(entries: seq<Entry>, v: nat)
    requires forall i :: 0 <= i < |entries| && IsBlksize(entries[i].0) ==> entries[i].1 == v
    requires v == DEFAULT_BLKSIZE || exists i :: 0 <= i < |entries| && IsBlksize(entries[i].0)
    ensures AckedBlksize(entries) == v
  {
    if entries == [] || IsBlksize(entries[0].0) {
    } else {
      if v != DEFAULT_BLKSIZE {
        var i :| 0 <= i < |entries| && IsBlksize(entries[i].0);
        assert entries[1..][i - 1] == entries[i];
      }
      AckedBlksizeIs(entries[1..], v);
    }
  }

  /** It is the server's segment size. */
  lemma {:induction false} ClientAgrees(pairs: seq<(string, string)>, past: char)
    requires forall i :: 0 <= i < |pairs| ==> IsField(pairs[i].0)
    ensures ClientBlksize(OackBytes(Negotiate(pairs).1), past) == Negotiate(pairs).0.segsize
  {
    OackRoundTrip(pairs, past);
    NegotiationAgrees(pairs);
    AckedBlksizeIs(Negotiate(pairs).1, Negotiate(pairs).0.segsize);
  }

  // ------------------------------------------------- its size

  function PairBytes(pairs: seq<(string, string)>): nat {
    |Terminated(Flatten(pairs))|
  }

  lemma {:induction false} PairBytesSnoc(pairs: seq<(string, string)>, last: (string, string))
    ensures PairBytes(pairs + [last]) == PairBytes(pairs) + |last.0| + |last.1| + 2
  {
    FlattenAppend(pairs, [last]);
    assert Flatten([last]) == [last.0, last.1] + Flatten([]) == [last.0, last.1];
    TerminatedAppend(Flatten(pairs), [last.0, last.1]);
    assert [last.0, last.1][1..] == [last.1];
    assert Terminated([last.1]) == last.1 + [NUL] + Terminated([]);
  }

  /** Exactly when the value that is acknowledged for an option is longer than the one that was given. */
  predicate PrintsLonger(st: Settings, opt: string, val: string)
    requires InOffRange(st.tsize)
  {
    && opt != [] && val != [] && StrToUmax(val).Some? && Lookup(opt).Some?
    && var v := StrToUmax(val).value;
       match Lookup(opt).value
       case Tsize => if v == 0 then |val| < |Decimal(ToUmax(st.tsize))| else Negative(val) && |val| < |Decimal(v)|
       case Timeout => false
       case Utimeout => false
       case _ => !st.blksizeSet && MIN_BLKSIZE <= v && Negative(val) && |val| < 5
  }

  lemma {:induction false} BlksizeLength(name: Name, val: string)
    requires StrToUmax(val).Some? && MIN_BLKSIZE <= StrToUmax(val).value
    ensures |val| < |Decimal(BlksizeGranted(name, StrToUmax(val).value))| <==> Negative(val) && |val| < 5
  {
    var v := StrToUmax(val).value;
    var sz := BlksizeGranted(name, v);
    assert Pow10(4) == 10_000 && Pow10(5) == 100_000;
    DecimalLength(sz, 4);
    DecimalLength(sz, 5);
    if !Negative(val) {
      PrintedShorter(val, sz);
    } else if v <= MAX_BLKSIZE {
      NegativeIsLong(val);
    }
  }

  lemma {:induction false} TimeoutLength(val: string)
    requires StrToUmax(val).Some? && 0 < StrToUmax(val).value <= MAX_TIMEOUT * MS_1K * MS_1K
    ensures |Decimal(StrToUmax(val).value)| <= |val|
  {
    var v := StrToUmax(val).value;
    if !Negative(val) {
      PrintedShorter(val, v);
    } else {
      assert Pow10(5) == 100_000 && Pow10(9) == 1_000_000_000;
      DecimalLength(v, 9);
      NegativeIsLong(val);
    }
  }

  /** An acknowledged value is longer than the given one exactly if a minus sign wrapped it, or a size is asked back. */
  lemma {:induction false} PrintsLongerIff(st: Settings, opt: string, val: string)
    requires InOffRange(st.tsize)
    ensures var more := Negotiate1(st, opt, val).1;
            (exists e :: e in more && |val| < |Decimal(e.1)|) <==> PrintsLonger(st, opt, val)
  {
    var more := Negotiate1(st, opt, val).1;
    if opt != [] && val != [] && StrToUmax(val).Some? && Lookup(opt).Some? {
      var name, v := Lookup(opt).value, StrToUmax(val).value;
      GrantedLength(st, name, val);
      if Grant(st, name, v).Some? {
        assert more == [(opt, Grant(st, name, v).value.1)] && more[0] in more;
      }
    }
  }

  lemma {:induction false} GrantedLength(st: Settings, name: Name, val: string)
    requires InOffRange(st.tsize) && StrToUmax(val).Some?
    ensures var v := StrToUmax(val).value;
            var granted := Grant(st, name, v);
            (granted.Some? && |val| < |Decimal(granted.value.1)|) <==>
            match name
            case Tsize => if v == 0 then |val| < |Decimal(ToUmax(st.tsize))| else Negative(val) && |val| < |Decimal(v)|
            case Timeout => false
            case Utimeout => false
            case _ => !st.blksizeSet && MIN_BLKSIZE <= v && Negative(val) && |val| < 5
  {
    var v := StrToUmax(val).value;
    if Grant(st, name, v).Some? {
      match name
      case Tsize =>
        if v != 0 && !Negative(val) {
          PrintedShorter(val, v);
        }
      case Timeout => TimeoutLength(val);
      case Utimeout => TimeoutLength(val);
      case _ => BlksizeLength(name, val);
    }
  }

  /** No option of the list is acknowledged with a longer value than it came with. */
  predicate NonePrintsLonger(pairs: seq<(string, string)>) {
    if pairs == [] then true
    else
      var before, last := pairs[..|pairs| - 1], pairs[|pairs| - 1];
      NonePrintsLonger(before) && !PrintsLonger(Negotiate(before).0, last.0, last.1)
  }

  lemma {:induction false} EntrySize(st: Settings, opt: string, val: string)
    requires InOffRange(st.tsize) && !PrintsLonger(st, opt, val)
    ensures |EntryBytes(Negotiate1(st, opt, val).1)| <= |opt| + |val| + 2
  {
    var more := Negotiate1(st, opt, val).1;
    PrintsLongerIff(st, opt, val);
    if more != [] {
      assert more[0] in more && more == [more[0]];
      OneEntry(more[0]);
    }
  }

  /**
   * Then the acknowledgement is never longer than its opcode and the option part of the request; so it fits where
   * the request fitted.
   */
  lemma {:induction false} OackIsNotLonger(pairs: seq<(string, string)>)
    requires NonePrintsLonger(pairs)
    ensures |OackBytes(Negotiate(pairs).1)| <= 2 + PairBytes(pairs)
  {
    if pairs == [] {
    } else {
      var before, last := pairs[..|pairs| - 1], pairs[|pairs| - 1];
      OackIsNotLonger(before);
      OneMoreFits(before, last.0, last.1);
      Rejoined(pairs);
    }
  }

  lemma {:induction false} Rejoined(pairs: seq<(string, string)>)
    requires pairs != []
    ensures var last := pairs[|pairs| - 1]; pairs[..|pairs| - 1] + [(last.0, last.1)] == pairs
  {
  }

  lemma {:induction false} OneMoreFits(before: seq<(string, string)>, opt: string, val: string)
    requires !PrintsLonger(Negotiate(before).0, opt, val)
    requires |OackBytes(Negotiate(before).1)| <= 2 + PairBytes(before)
    ensures |OackBytes(Negotiate(before + [(opt, val)]).1)| <= 2 + PairBytes(before + [(opt, val)])
  {
    NegotiatedBytes(before, opt, val);
    EntrySize(Negotiate(before).0, opt, val);
    PairBytesSnoc(before, (opt, val));
  }

  lemma {:induction false} NegotiateSnoc(pairs: seq<(string, string)>, opt: string, val: string)
    ensures var (st, entries) := Negotiate(pairs);
            var (st', more) := Negotiate1(st, opt, val);
            Negotiate(pairs + [(opt, val)]) == (st', entries + more)
  {
    var all := pairs + [(opt, val)];
    assert all[..|all| - 1] == pairs && all[|all| - 1] == (opt, val);
  }

  /** One option more appends its entry, if it is granted, to the acknowledgement. */
  lemma {:induction false} NegotiatedBytes(pairs: seq<(string, string)>, opt: string, val: string)
    ensures OackBytes(Negotiate(pairs + [(opt, val)]).1) ==
            OackBytes(Negotiate(pairs).1) + EntryBytes(Negotiate1(Negotiate(pairs).0, opt, val).1)
  {
    NegotiateSnoc(pairs, opt, val);
    OackSnoc(Negotiate(pairs).1, Negotiate1(Negotiate(pairs).0, opt, val).1);
  }

  lemma {:induction false} OackSnoc(entries: seq<Entry>, more: seq<Entry>)
    requires |more| <= 1
    ensures OackBytes(entries + more) == OackBytes(entries) + EntryBytes(more)
  {
    if more == [] {
      assert entries + more == entries;
    } else {
      assert (entries + more)[..|entries|] == entries;
      assert EntryBytes(more[..0]) == [];
    }
  }

  ghost predicate TsizeOnce(pairs: seq<(string, string)>) {
    forall i, j :: 0 <= i < j < |pairs| ==> !(Lookup(pairs[i].0) == Some(Tsize) && Lookup(pairs[j].0) == Some(Tsize))
  }

  lemma {:induction false} KeepsTsize(st: Settings, opt: string, val: string)
    requires InOffRange(st.tsize) && Lookup(opt) != Some(Tsize)
    ensures Negotiate1(st, opt, val).0.tsize == st.tsize
  {
  }

  lemma {:induction false} NoTsizeSoFar(pairs: seq<(string, string)>)
    requires forall i :: 0 <= i < |pairs| ==> Lookup(pairs[i].0) != Some(Tsize)
    ensures Negotiate(pairs).0.tsize == 0
  {
    if pairs == [] {
    } else {
      var before, last := pairs[..|pairs| - 1], pairs[|pairs| - 1];
      NoTsizeSoFar(before);
      KeepsTsize(Negotiate(before).0, last.0, last.1);
    }
  }

  /** What RFC 2347 asks of a client is enough: plain numerals, and no option twice. */
  lemma {:induction false} PlainOptionsFit(pairs: seq<(string, string)>)
    requires forall i :: 0 <= i < |pairs| ==> '-' !in pairs[i].1
    requires TsizeOnce(pairs)
    ensures NonePrintsLonger(pairs)
  {
    if pairs == [] {
    } else {
      var before, last := pairs[..|pairs| - 1], pairs[|pairs| - 1];
      assert forall i :: 0 <= i < |before| ==> before[i] == pairs[i];
      PlainOptionsFit(before);
      SpacesSkipped(last.1);
      if Lookup(last.0) == Some(Tsize) {
        NoTsizeSoFar(before);
        assert Decimal(0) == [DigitChar(0)];
      }
    }
  }
}
