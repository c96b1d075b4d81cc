/** C strings and decimal numerals, as request and acknowledgement packets carry them. */
module Texts {
  import opened Common

  const NUL: char := '\0'

  predicate NulFree(s: string) {
    forall i :: 0 <= i < |s| ==> s[i] != NUL
  }

  /** A non-empty C string. */
  predicate IsField(s: string) {
    s != [] && NulFree(s)
  }

  function LowerChar(ch: char): char {
    if 'A' <= ch <= 'Z' then ch - 'A' + 'a' else ch
  }

  function Lower(s: string): (r: string)
    ensures |r| == |s|
  {
    if s == [] then [] else [LowerChar(s[0])] + Lower(s[1..])
  }

  /** Only the letters from 65 to 90 change, by 32. */
  lemma {:induction false} LowerAt(s: string, i: nat)
    requires i < |s|
    ensures Lower(s)[i] as int == s[i] as int + if 65 <= s[i] as int <= 90 then 32 else 0
  {
    if i == 0 {
    } else {
      LowerAt(s[1..], i - 1);
    }
  }

  // ---------------------------------------------------------------- numerals

  const UINTMAX_RANGE: nat := 0x1_0000_0000_0000_0000

  predicate IsDigit(ch: char) {
    '0' <= ch <= '9'
  }

  predicate AllDigits(s: string) {
    s == [] || (IsDigit(s[|s| - 1]) && AllDigits(s[..|s| - 1]))
  }

  lemma {:induction false} EachIsDigit(s: string)
    requires AllDigits(s)
    ensures forall i :: 0 <= i < |s| ==> IsDigit(s[i])
  {
    if s == [] {
    } else {
      EachIsDigit(s[..|s| - 1]);
    }
  }

  function DigitValue(ch: char): (d: nat)
    requires IsDigit(ch)
    ensures d < 10
  {
    (ch - '0') as nat
  }

  function Value(s: string): nat
    requires AllDigits(s)
  {
    if s == [] then 0 else 10 * Value(s[..|s| - 1]) + DigitValue(s[|s| - 1])
  }

  function DigitChar(d: nat): (ch: char)
    requires d < 10
    ensures IsDigit(ch) && DigitValue(ch) == d
  {
    '0' + d as char
  }

  /** std::to_string */
  function Decimal(n: nat): (s: string)
    ensures s != [] && AllDigits(s)
  {
    if n < 10 then
      assert [DigitChar(n)][..0] == [];
      [DigitChar(n)]
    else
      var s := Decimal(n / 10) + [DigitChar(n % 10)];
      assert s[..|s| - 1] == Decimal(n / 10);
      s
  }

  lemma {:induction false} ValueDecimal(n: nat)
    ensures Value(Decimal(n)) == n
  {
    var s := Decimal(n);
    if n < 10 {
      assert s[..|s| - 1] == [];
    } else {
      ValueDecimal(n / 10);
      assert s[..|s| - 1] == Decimal(n / 10);
    }
  }

  /** A number is never printed longer than any numeral for a number at least as large. */
  lemma {:induction false} DecimalIsShortest(n: nat, s: string)
    requires s != [] && AllDigits(s) && n <= Value(s)
    ensures |Decimal(n)| <= |s|
  {
    if n < 10 {
    } else {
      assert Value(s) == 10 * Value(s[..|s| - 1]) + DigitValue(s[|s| - 1]);
      DecimalIsShortest(n / 10, s[..|s| - 1]);
    }
  }

  function Pow10(k: nat): nat {
    if k == 0 then 1 else 10 * Pow10(k - 1)
  }

  lemma {:induction false} DecimalLength(n: nat, k: nat)
    requires 0 < k
    ensures |Decimal(n)| <= k <==> n < Pow10(k)
  {
    if k == 1 {
      assert Pow10(1) == 10 * Pow10(0);
    } else if 10 <= n {
      DecimalLength(n / 10, k - 1);
    } else {
      PowerAtLeastTen(k);
    }
  }

  lemma {:induction false} PowerAtLeastTen(k: nat)
    requires 0 < k
    ensures 10 <= Pow10(k)
  {
    if k == 1 {
      assert Pow10(1) == 10 * Pow10(0);
    } else {
      PowerAtLeastTen(k - 1);
    }
  }

  predicate IsSpace(ch: char) {
    ch == ' ' || '\t' <= ch <= '\r'
  }

  function SkipSpaces(s: string): string {
    if s != [] && IsSpace(s[0]) then SkipSpaces(s[1..]) else s
  }

  /** strtoumax(val, &vend, 10), where anything left over and overflow are errors. A minus sign wraps around. */
  function StrToUmax(val: string): Option<nat> {
    var s := SkipSpaces(val);
    var signed := s != [] && (s[0] == '-' || s[0] == '+');
    var digits := if signed then s[1..] else s;
    if digits == [] || !AllDigits(digits) then None
    else
      var n := Value(digits);
      if n >= UINTMAX_RANGE then None
      else if signed && s[0] == '-' then Some((UINTMAX_RANGE - n) % UINTMAX_RANGE)
      else Some(n)
  }

  lemma {:induction false} StrToUmaxOfDigits(s: string)
    requires s != [] && AllDigits(s)
    ensures StrToUmax(s) == if Value(s) < UINTMAX_RANGE then Some(Value(s)) else None
  {
    EachIsDigit(s);
  }

  /** A sign in front of digits: plus changes nothing, minus wraps around at 2^64. */
  lemma {:induction false} StrToUmaxOfSigned(digits: string)
    requires digits != [] && AllDigits(digits) && Value(digits) < 18446744073709551616
    ensures StrToUmax("+" + digits) == Some(Value(digits))
    ensures StrToUmax("-" + digits) ==
            Some(if Value(digits) == 0 then 0 else 18446744073709551616 - Value(digits))
  {
    assert ("+" + digits)[1..] == digits && ("-" + digits)[1..] == digits;
  }

  /** Tabs, line ends, form feeds and spaces in front of a numeral are skipped. */
  lemma {:induction false} StrToUmaxSkips(ch: char, val: string)
    requires 9 <= ch as int <= 13 || ch as int == 32
    ensures StrToUmax([ch] + val) == StrToUmax(val)
  {
    assert ([ch] + val)[1..] == val;
  }

  lemma {:induction false} SpacesSkipped(s: string)
    ensures |SkipSpaces(s)| <= |s| && forall ch :: ch in SkipSpaces(s) ==> ch in s
  {
    if s == [] || !IsSpace(s[0]) {
    } else {
      SpacesSkipped(s[1..]);
    }
  }

  predicate Negative(val: string) {
    var s := SkipSpaces(val);
    s != [] && s[0] == '-'
  }

  /** An accepted numeral without a minus sign is at least as long as any number up to its value. */
  lemma {:induction false} PrintedShorter(val: string, n: nat)
    requires !Negative(val) && StrToUmax(val).Some? && n <= StrToUmax(val).value
    ensures |Decimal(n)| <= |val|
  {
    var s := SkipSpaces(val);
    SpacesSkipped(val);
    DecimalIsShortest(n, if s[0] == '+' then s[1..] else s);
  }

  /** One with a minus sign has more than ten characters unless it wraps to the end of the range. */
  lemma {:induction false} NegativeIsLong(val: string)
    requires Negative(val) && StrToUmax(val).Some?
    requires 0 < StrToUmax(val).value < UINTMAX_RANGE - 10_000_000_000
    ensures 10 < |val|
  {
    var digits := SkipSpaces(val)[1..];
    SpacesSkipped(val);
    var n := 10_000_000_000;
    assert n <= Value(digits);
    assert Pow10(10) == n by {
      assert Pow10(5) == 100_000;
    }
    DecimalLength(n, 10);
    DecimalIsShortest(n, digits);
  }

  // ---------------------------------------------------------------- NUL-terminated fields

  /** Where the C string that starts at offset i ends: at a NUL, or at the end. */
  function FieldEnd(s: string, i: nat): (e: nat)
    requires i <= |s|
    ensures i <= e <= |s| && (forall j :: i <= j < e ==> s[j] != NUL) && (e < |s| ==> s[e] == NUL)
    decreases |s| - i
  {
    if i == |s| || s[i] == NUL then i else FieldEnd(s, i + 1)
  }

  /** Fields one after the other, each with its NUL. */
  function Terminated(fields: seq<string>): string {
    if fields == [] then [] else fields[0] + [NUL] + Terminated(fields[1..])
  }

  lemma {:induction false} TerminatedAppend(a: seq<string>, b: seq<string>)
    ensures Terminated(a + b) == Terminated(a) + Terminated(b)
  {
    if a == [] {
      assert a + b == b;
    } else {
      assert (a + b)[1..] == a[1..] + b;
      TerminatedAppend(a[1..], b);
    }
  }

  function Flatten(pairs: seq<(string, string)>): seq<string> {
    if pairs == [] then [] else [pairs[0].0, pairs[0].1] + Flatten(pairs[1..])
  }

  function Paired(fields: seq<string>): seq<(string, string)> {
    if |fields| < 2 then [] else [(fields[0], fields[1])] + Paired(fields[2..])
  }

  lemma {:induction false} PairedFlatten(pairs: seq<(string, string)>)
    ensures Paired(Flatten(pairs)) == pairs && |Flatten(pairs)| == 2 * |pairs|
  {
    if pairs == [] {
    } else {
      PairedFlatten(pairs[1..]);
      assert Flatten(pairs)[2..] == Flatten(pairs[1..]);
    }
  }

  /**
   * The fields from offset i on, up to an empty one or the end. `past` is the byte that happens to follow
   * the buffer: the scan looks at it when the last NUL is missing.
   */
  function FieldsFrom(s: string, past: char, i: nat): seq<string>
    requires i <= |s|
    decreases |s| - i
  {
    var e := FieldEnd(s, i);
    if e == i || (e == |s| && past != NUL) then []
    else if e < |s| then [s[i..e]] + FieldsFrom(s, past, e + 1)
    else [s[i..e]]
  }

  /** Whether a NUL ends the last of them. */
  predicate NulEnds(s: string, past: char, i: nat)
    requires i <= |s|
    decreases |s| - i
  {
    var e := FieldEnd(s, i);
    e == i || if e < |s| then NulEnds(s, past, e + 1) else past == NUL
  }

  /** From offset i on, the string holds exactly these fields, each with its NUL. */
  ghost predicate Holds(s: string, i: nat, fields: seq<string>)
    decreases |fields|
  {
    if fields == [] then i == |s|
    else
      var e := i + |fields[0]|;
      e < |s| && s[i..e] == fields[0] && s[e] == NUL && Holds(s, e + 1, fields[1..])
  }

  lemma {:induction false} TerminatedHolds(s: string, i: nat, fields: seq<string>)
    requires i <= |s| && s[i..] == Terminated(fields)
    ensures Holds(s, i, fields)
    decreases |fields|
  {
    if fields == [] {
    } else {
      FirstStands(s, i, fields[0], Terminated(fields[1..]));
      TerminatedHolds(s, i + |fields[0]| + 1, fields[1..]);
    }
  }

  lemma {:induction false} FirstStands(s: string, i: nat, field: string, rest: string)
    requires i <= |s| && s[i..] == field + [NUL] + rest
    ensures var e := i + |field|;
            e < |s| && s[i..e] == field && s[e] == NUL && s[e + 1..] == rest
  {
    var e := i + |field|;
    assert s[i..e] == s[i..][..|field|] && s[e] == s[i..][|field|];
    assert s[e + 1..] == s[i..][|field| + 1..];
  }

  lemma {:induction false} FirstHeld(s: string, i: nat, fields: seq<string>)
    requires fields != [] && Holds(s, i, fields) && NulFree(fields[0])
    ensures i <= |s| && FieldEnd(s, i) == i + |fields[0]|
  {
  }

  lemma {:induction false} FieldsHeld(s: string, i: nat, fields: seq<string>, past: char)
    requires i <= |s| && Holds(s, i, fields)
    requires forall k :: 0 <= k < |fields| ==> IsField(fields[k])
    ensures FieldsFrom(s, past, i) == fields && NulEnds(s, past, i)
    decreases |fields|
  {
    if fields == [] {
    } else {
      FirstHeld(s, i, fields);
      FieldsHeld(s, i + |fields[0]| + 1, fields[1..], past);
    }
  }

  /** Behind whole fields, one that is not terminated is not a field, and is noticed. */
  lemma {:induction false} FieldsBroken(s: string, i: nat, fields: seq<string>, rest: string, past: char)
    requires i <= |s| && Holds(s, i, fields) && IsField(rest) && past != NUL
    requires forall k :: 0 <= k < |fields| ==> IsField(fields[k])
    ensures FieldsFrom(s + rest, past, i) == fields && !NulEnds(s + rest, past, i)
    decreases |fields|
  {
    if fields == [] {
      RestHasNoEnd(s, rest, |s|);
    } else {
      FirstHeld(s, i, fields);
      SameFieldEndBefore(s, rest, i);
      SameField(s, rest, past, i);
      FieldsBroken(s, i + |fields[0]| + 1, fields[1..], rest, past);
      assert [fields[0]] + fields[1..] == fields;
    }
  }

  lemma {:induction false} SameField(s: string, rest: string, past: char, i: nat)
    requires i <= |s| && i < FieldEnd(s, i) < |s| && FieldEnd(s + rest, i) == FieldEnd(s, i)
    ensures var e := FieldEnd(s, i);
            && FieldsFrom(s + rest, past, i) == [s[i..e]] + FieldsFrom(s + rest, past, e + 1)
            && NulEnds(s + rest, past, i) == NulEnds(s + rest, past, e + 1)
  {
    assert (s + rest)[i..FieldEnd(s, i)] == s[i..FieldEnd(s, i)];
  }

  lemma {:induction false} RestHasNoEnd(s: string, rest: string, i: nat)
    requires |s| <= i <= |s + rest| && NulFree(rest)
    ensures FieldEnd(s + rest, i) == |s + rest|
    decreases |s + rest| - i
  {
    if i == |s + rest| {
    } else {
      assert (s + rest)[i] == rest[i - |s|];
      RestHasNoEnd(s, rest, i + 1);
    }
  }

  lemma {:induction false} SameFieldEndBefore(s: string, rest: string, i: nat)
    requires i <= |s| && FieldEnd(s, i) < |s|
    ensures FieldEnd(s + rest, i) == FieldEnd(s, i)
    decreases |s| - i
  {
    if s[i] == NUL {
    } else {
      SameFieldEndBefore(s, rest, i + 1);
    }
  }

  lemma {:induction false} FieldsOfTerminated(s: string, i: nat, fields: seq<string>, past: char)
    requires i <= |s| && s[i..] == Terminated(fields)
    requires forall k :: 0 <= k < |fields| ==> IsField(fields[k])
    ensures FieldsFrom(s, past, i) == fields && NulEnds(s, past, i)
  {
    TerminatedHolds(s, i, fields);
    FieldsHeld(s, i, fields, past);
  }
}
