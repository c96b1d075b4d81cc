/**
 * Option negotiation of tftpd_options.cpp (RFC 2347, RFC 2348, RFC 2349): the settings that an option
 * list leaves behind, and the option acknowledgement that is sent back.
 */
module Negotiation {
  import opened Common
  import opened Texts

  const MIN_BLKSIZE: nat := 8
  const DEFAULT_BLKSIZE: nat := SEGSIZE
  const MAX_BLKSIZE: nat := MAX_SEGSIZE
  const MAX_TIMEOUT: nat := 255
  const MS_1K: nat := 1000

  datatype Name = Blksize | Blksize2 | Tsize | Timeout | Utimeout

  const OPTIONS: seq<(string, Name)> :=
    [("blksize", Blksize), ("blksize2", Blksize2), ("tsize", Tsize), ("timeout", Timeout), ("utimeout", Utimeout)]

  /** The loop over the table of options. */
  function Find(name: string, options: seq<(string, Name)>): Option<Name> {
    if options == [] then None
    else if name == options[0].0 then Some(options[0].1)
    else Find(name, options[1..])
  }

  /** strcasecmp against the table. */
  function Lookup(opt: string): Option<Name> {
    Find(Lower(opt), OPTIONS)
  }

  /** The globals g_segsize, g_timeout (in ms), g_tsize and blksize_set. */
  datatype Settings = Settings(segsize: nat, timeout: nat, tsize: int, blksizeSet: bool)

  const INITIAL := Settings(DEFAULT_BLKSIZE, MS_1K, 0, false)

  // ------------------------------------------------------- powers of two

  /** Bitwise and of unsigned numbers. */
  function BitAnd(a: nat, b: nat): nat {
    if a == 0 || b == 0 then 0 else 2 * BitAnd(a / 2, b / 2) + (a % 2) * (b % 2)
  }

  predicate IsPow2(p: nat) {
    p == 1 || (p != 0 && p % 2 == 0 && IsPow2(p / 2))
  }

  /** The test (sz & (sz - 1)) != 0 picks out exactly the numbers that are not powers of two. */
  lemma {:induction false} ClearsLowestBit(n: nat)
    requires 0 < n
    ensures BitAnd(n, n - 1) == 0 <==> IsPow2(n)
  {
    if n % 2 == 0 {
      ClearsLowestBit(n / 2);
      assert (n - 1) / 2 == n / 2 - 1;
    } else if 1 < n {
      assert (n - 1) / 2 == n / 2;
      AndSelf(n / 2);
    }
  }

  lemma {:induction false} AndSelf(n: nat)
    ensures BitAnd(n, n) == n
  {
    if n == 0 {
    } else {
      AndSelf(n / 2);
    }
  }

  /** p is v rounded down to a power of two. */
  predicate RoundsDownTo(v: nat, p: nat) {
    IsPow2(p) && p <= v < 2 * p
  }

  lemma {:induction false} RoundingIsUnique(v: nat, p: nat, q: nat)
    requires RoundsDownTo(v, p) && RoundsDownTo(v, q)
    ensures p == q
  {
    if p == 1 || q == 1 {
    } else {
      RoundingIsUnique(v / 2, p / 2, q / 2);
    }
  }

  function RoundDown(v: nat): (p: nat)
    requires 0 < v
    ensures RoundsDownTo(v, p)
  {
    if v == 1 then 1 else 2 * RoundDown(v / 2)
  }

  // ------------------------------------------------------- one option

  /** Conversions between uintmax_t and off_t. */
  function ToOff(v: nat): int
    requires v < UINTMAX_RANGE
  {
    if v < UINTMAX_RANGE / 2 then v else v - UINTMAX_RANGE
  }

  function ToUmax(tsize: int): nat
    requires InOffRange(tsize)
  {
    if 0 <= tsize then tsize else tsize + UINTMAX_RANGE
  }

  predicate InOffRange(tsize: int) {
    -(UINTMAX_RANGE / 2) <= tsize < UINTMAX_RANGE / 2
  }

  function BlksizeGranted(name: Name, v: nat): nat {
    if v > MAX_BLKSIZE then MAX_BLKSIZE else if name.Blksize2? && 0 < v then RoundDown(v) else v
  }

  predicate IsBlksize(opt: string) {
    Lookup(opt) == Some(Blksize) || Lookup(opt) == Some(Blksize2)
  }

  /** Whether the option is granted, the new settings, and the value that is acknowledged. */
  function Grant(st: Settings, name: Name, v: nat): Option<(Settings, nat)>
    requires v < UINTMAX_RANGE && InOffRange(st.tsize)
  {
    match name
    case Blksize => GrantBlksize(st, name, v)
    case Blksize2 => GrantBlksize(st, name, v)
    case Tsize => Some(if v == 0 then (st, ToUmax(st.tsize)) else (st.(tsize := ToOff(v)), v))
    case Timeout => if 1 <= v <= MAX_TIMEOUT then Some((st.(timeout := v * MS_1K), v)) else None
    case Utimeout => if MS_1K <= v <= MAX_TIMEOUT * MS_1K * MS_1K then Some((st.(timeout := v / MS_1K), v)) else None
  }

  function GrantBlksize(st: Settings, name: Name, v: nat): Option<(Settings, nat)> {
    if st.blksizeSet || v < MIN_BLKSIZE then None
    else
      var sz := BlksizeGranted(name, v);
      Some((st.(segsize := sz, blksizeSet := true), sz))
  }

  type Entry = (string, nat)

  /** do_opt: at most one entry is added to the acknowledgement. */
  function Negotiate1(st: Settings, opt: string, val: string): (r: (Settings, seq<Entry>))
    requires InOffRange(st.tsize)
    ensures InOffRange(r.0.tsize) && |r.1| <= 1
  {
    if opt == [] || val == [] then (st, [])
    else
      match StrToUmax(val)
      case None => (st, [])
      case Some(v) => (
        match Lookup(opt)
        case None => (st, [])
        case Some(name) => (
          match Grant(st, name, v)
          case None => (st, [])
          case Some((st', v')) => (st', [(opt, v')])))
  }

  /** The whole option list of a request, after init_opt. */
  function Negotiate(pairs: seq<(string, string)>): (r: (Settings, seq<Entry>))
    ensures InOffRange(r.0.tsize)
  {
    if pairs == [] then (INITIAL, [])
    else
      var last := pairs[|pairs| - 1];
      var (st, entries) := Negotiate(pairs[..|pairs| - 1]);
      var (st', more) := Negotiate1(st, last.0, last.1);
      (st', entries + more)
  }

  /** The entries as they are written after the opcode. */
  function Printed(entries: seq<Entry>): seq<(string, string)> {
    if entries == [] then []
    else Printed(entries[..|entries| - 1]) + [(entries[|entries| - 1].0, Decimal(entries[|entries| - 1].1))]
  }

  const OACK_HEADER: string := [0 as char, 6 as char]

  /** The memcpys of do_opt: each granted option and its value, NUL-terminated. */
  function EntryBytes(entries: seq<Entry>): string {
    if entries == [] then []
    else
      var last := entries[|entries| - 1];
      EntryBytes(entries[..|entries| - 1]) + (last.0 + [NUL] + Decimal(last.1) + [NUL])
  }

  function OackBytes(entries: seq<Entry>): string {
    OACK_HEADER + EntryBytes(entries)
  }

  // ------------------------------------------------------- the server's globals

  class Server {
    var segsize: nat
    var timeout: nat
    var tsize: int
    var blksizeSet: bool
    const pktbuf: array<char>    // optack, resized to PKTSIZE
    var ap: nat                  // how far it has been written: *ackbuf_ptr
    var overrun: bool            // a copy would have gone past its end; nothing is promised from then on

    ghost function State(): Settings
      reads this
    {
      Settings(segsize, timeout, tsize, blksizeSet)
    }

    ghost predicate Valid()
      reads this, pktbuf
    {
      && InOffRange(tsize) && pktbuf.Length == PKTSIZE && ap <= PKTSIZE
      && forall i :: ap <= i < PKTSIZE ==> pktbuf[i] == NUL
    }

    /** What has been written. */
    ghost function Text(): string
      reads this, pktbuf
      requires ap <= pktbuf.Length
    {
      pktbuf[..ap]
    }

    /** init_opt, and the opcode at the start of the acknowledgement. */
    constructor ()
      ensures Valid() && fresh(pktbuf)
      ensures State() == INITIAL && Text() == OACK_HEADER && !overrun
    {
      segsize, timeout, tsize, blksizeSet := DEFAULT_BLKSIZE, MS_1K, 0, false;
      pktbuf := new char[PKTSIZE](_ => NUL);
      ap, overrun := |OACK_HEADER|, false;
      new;
      pktbuf[0], pktbuf[1] := OACK_HEADER[0], OACK_HEADER[1];
    }

    /** memcpy(p, s, n); p += n; a copy that does not fit is only recorded. */
    method Memcpy(s: string)
      requires Valid()
      modifies this`ap, this`overrun, pktbuf
      ensures Valid() && (overrun <==> old(overrun) || 516 < old(ap) + |s|)
      ensures !overrun ==> Text() == old(Text()) + s
    {
      if overrun || PKTSIZE < ap + |s| {
        overrun := true;
        return;
      }
      forall i | 0 <= i < |s| {
        pktbuf[ap + i] := s[i];
      }
      ap := ap + |s|;
    }

    method SetBlksize(v: nat) returns (ok: bool, vp: nat)
      modifies this`segsize, this`blksizeSet
      ensures match GrantBlksize(old(State()), Blksize, v)
              case None => !ok && State() == old(State())
              case Some((st, v')) => ok && State() == st && vp == v'
    {
      vp := v;
      var sz := v;
      if blksizeSet || sz < MIN_BLKSIZE {
        return false, vp;
      }
      if sz > MAX_BLKSIZE {
        sz := MAX_BLKSIZE;
      }
      segsize, blksizeSet := sz, true;
      return true, sz;
    }

    method SetBlksize2(v: nat) returns (ok: bool, vp: nat)
      modifies this`segsize, this`blksizeSet
      ensures match GrantBlksize(old(State()), Blksize2, v)
              case None => !ok && State() == old(State())
              case Some((st, v')) => ok && State() == st && vp == v'
    {
      vp := v;
      var sz := v;
      if blksizeSet || sz < MIN_BLKSIZE {
        return false, vp;
      }
      if sz > MAX_BLKSIZE {
        sz := MAX_BLKSIZE;
      } else {
        ClearsLowestBit(sz);
        if BitAnd(sz, sz - 1) != 0 {
          sz := ShiftDown(sz);
        }
        RoundingIsUnique(v, sz, RoundDown(v));
      }
      segsize, blksizeSet := sz, true;
      return true, sz;
    }

    method SetTsize(v: nat) returns (ok: bool, vp: nat)
      requires InOffRange(tsize) && v < UINTMAX_RANGE
      modifies this`tsize
      ensures InOffRange(tsize) && Grant(old(State()), Tsize, v) == Some((State(), vp)) && ok
    {
      var sz := v;
      if sz == 0 {
        sz := ToUmax(tsize);
      } else {
        tsize := ToOff(sz);
      }
      return true, sz;
    }

    method SetTimeout(v: nat) returns (ok: bool)
      requires InOffRange(tsize) && v < UINTMAX_RANGE
      modifies this`timeout
      ensures Grant(old(State()), Timeout, v) == if ok then Some((State(), v)) else None
      ensures !ok ==> State() == old(State())
    {
      if v < 1 || v > MAX_TIMEOUT {
        return false;
      }
      timeout := v * MS_1K;
      return true;
    }

    method SetUtimeout(v: nat) returns (ok: bool)
      requires InOffRange(tsize) && v < UINTMAX_RANGE
      modifies this`timeout
      ensures Grant(old(State()), Utimeout, v) == if ok then Some((State(), v)) else None
      ensures !ok ==> State() == old(State())
    {
      if v < MS_1K || v > MAX_TIMEOUT * MS_1K * MS_1K {
        return false;
      }
      timeout := v / MS_1K;
      return true;
    }

    /** The call through the table of options. */
    method Apply(name: Name, v: nat) returns (ok: bool, vp: nat)
      requires InOffRange(tsize) && v < UINTMAX_RANGE
      modifies this`segsize, this`blksizeSet, this`tsize, this`timeout
      ensures InOffRange(tsize)
      ensures match Grant(old(State()), name, v)
              case None => !ok && State() == old(State())
              case Some((st, v')) => ok && State() == st && vp == v'
    {
      vp := v;
      match name
      case Blksize => ok, vp := SetBlksize(v);
      case Blksize2 => ok, vp := SetBlksize2(v);
      case Tsize => ok, vp := SetTsize(v);
      case Timeout => ok := SetTimeout(v);
      case Utimeout => ok := SetUtimeout(v);
    }

    /** do_opt. It does not check that the entry fits. */
    method DoOpt(opt: string, val: string)
      requires Valid()
      modifies this, pktbuf
      ensures Valid()
      ensures var (st, more) := Negotiate1(old(State()), opt, val);
              && State() == st
              && (overrun <==> old(overrun) || PKTSIZE < old(ap) + |EntryBytes(more)|)
              && (!overrun ==> Text() == old(Text()) + EntryBytes(more))
    {
      if opt == [] || val == [] {
        return;
      }
      var v := StrToUmax(val);
      if v.None? {
        return;
      }
      var name := Lookup(opt);
      if name.None? {
        return;
      }
      var ok, vp := Apply(name.value, v.value);
      if ok {
        OneEntry((opt, vp));
        AppendEntry(opt, Decimal(vp));
      }
    }

    method AppendEntry(opt: string, retValue: string)
      requires Valid()
      modifies this`ap, this`overrun, pktbuf
      ensures Valid()
      ensures var entry := opt + [NUL] + retValue + [NUL];
              && (overrun <==> old(overrun) || PKTSIZE < old(ap) + |entry|)
              && (!overrun ==> Text() == old(Text()) + entry)
    {
      Memcpy(opt + [NUL]);
      Memcpy(retValue + [NUL]);
    }
  }

  lemma {:induction false} OneEntry(e: Entry)
    ensures EntryBytes([e]) == e.0 + [NUL] + Decimal(e.1) + [NUL]
  {
  }

  /** The shift loop of set_blksize2: p is what sz has been divided by so far. */
  method ShiftDown(v: nat) returns (p: nat)
    requires 0 < v
    ensures RoundsDownTo(v, p)
  {
    p := 1;
    var sz := v;
    while sz / 2 != 0
      invariant 0 < sz && IsPow2(p) && p * sz <= v < p * (sz + 1)
    {
      Halve(p, sz, v);
      sz, p := sz / 2, p * 2;
    }
  }

  lemma {:induction false} Regroup(p: nat, h: nat)
    ensures p * 2 * h == p * (2 * h)
  {
  }

  lemma {:induction false} Halve(p: nat, sz: nat, v: nat)
    requires IsPow2(p) && p * sz <= v < p * (sz + 1)
    ensures IsPow2(p * 2)
    ensures p * 2 * (sz / 2) <= v < p * 2 * (sz / 2 + 1)
  {
    var h := sz / 2;
    Regroup(p, h);
    Regroup(p, h + 1);
    TimesGrows(p, 2 * h, sz);
    TimesGrows(p, sz + 1, 2 * (h + 1));
    assert p * 2 / 2 == p;
  }
}
