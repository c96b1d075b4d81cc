/**
 * The netascii conversion of tftp/tftpsubs.c, as functions on whole streams:
 * LF is sent as CR LF and CR as CR NUL, and the receiver undoes both.
 */
module Netascii {
  import opened Common

  const NUL: byte := 0
  const LF: byte := 10
  const CR: byte := 13

  function EncodeByte(b: byte): seq<byte> {
    if b == LF then [CR, LF] else if b == CR then [CR, NUL] else [b]
  }

  function Encode(s: seq<byte>): seq<byte> {
    if s == [] then [] else EncodeByte(s[0]) + Encode(s[1..])
  }

  /** CR LF becomes LF, CR NUL becomes CR, and any other byte, a lone CR included, stands for itself. */
  function Decode(s: seq<byte>): seq<byte> {
    if s == [] then []
    else if s[0] == CR && 2 <= |s| && s[1] == LF then [LF] + Decode(s[2..])
    else if s[0] == CR && 2 <= |s| && s[1] == NUL then [CR] + Decode(s[2..])
    else [s[0]] + Decode(s[1..])
  }

  /** The streams an encoder can produce. */
  predicate WellFormed(s: seq<byte>) {
    if s == [] then true
    else if s[0] == LF then false
    else if s[0] == CR then 2 <= |s| && (s[1] == LF || s[1] == NUL) && WellFormed(s[2..])
    else WellFormed(s[1..])
  }

  lemma {:induction false} EncodeAppend(a: seq<byte>, b: seq<byte>)
    ensures Encode(a + b) == Encode(a) + Encode(b)
  {
    if a == [] {
      assert a + b == b;
    } else {
      assert (a + b)[1..] == a[1..] + b;
      EncodeAppend(a[1..], b);
    }
  }

  lemma {:induction false} EncodeSplit(s: seq<byte>, k: nat)
    requires k <= |s|
    ensures Encode(s) == Encode(s[..k]) + Encode(s[k..])
  {
    var a, b := s[..k], s[k..];
    EncodeAppend(a, b);
    assert a + b == s;
  }

  lemma {:induction false} EncodeSnoc(a: seq<byte>, b: byte)
    ensures Encode(a + [b]) == Encode(a) + EncodeByte(b)
  {
    EncodeAppend(a, [b]);
    assert Encode([b]) == EncodeByte(b) + Encode([]);
  }

  lemma {:induction false} DecodeOneByte(b: byte, rest: seq<byte>)
    ensures Decode(EncodeByte(b) + rest) == [b] + Decode(rest)
    ensures WellFormed(rest) ==> WellFormed(EncodeByte(b) + rest)
  {
  }

  /** What is sent in netascii mode comes back unchanged, for every byte string. */
  lemma {:induction false} DecodeEncode(s: seq<byte>)
    ensures Decode(Encode(s)) == s
    ensures WellFormed(Encode(s))
  {
    if s == [] {
    } else {
      var rest := Encode(s[1..]);
      DecodeEncode(s[1..]);
      DecodeOneByte(s[0], rest);
    }
  }

  /** The other round trip holds exactly on well-formed streams. */
  lemma {:induction false} EncodeDecode(s: seq<byte>)
    ensures Encode(Decode(s)) == s <==> WellFormed(s)
  {
    if s == [] {
    } else if s[0] == CR && 2 <= |s| && (s[1] == LF || s[1] == NUL) {
      EncodeDecode(s[2..]);
      assert s == s[..2] + s[2..];
      var d := if s[1] == LF then LF else CR;
      assert Decode(s)[1..] == Decode(s[2..]);
      assert Encode(Decode(s)) == s[..2] + Encode(Decode(s[2..]));
    } else {
      EncodeDecode(s[1..]);
      assert Decode(s)[1..] == Decode(s[1..]);
      assert Encode(Decode(s)) == EncodeByte(s[0]) + Encode(Decode(s[1..]));
      assert s == [s[0]] + s[1..];
      if s[0] == CR {
        assert Encode(Decode(s))[1] == NUL;
        assert Encode(Decode(s)) != s;
      } else if s[0] == LF {
        assert Encode(Decode(s))[0] == CR;
      } else if Encode(Decode(s)) == s {
        assert Encode(Decode(s))[1..] == s[1..];
      }
    }
  }

  predicate EndsInCr(s: seq<byte>) {
    s != [] && s[|s| - 1] == CR
  }

  /**
   * One more received byte, given whether the last one was CR and what the file holds: smash the CR, skip the NUL, or
   * append.
   */
  function DecodeNext(afterCr: bool, disk: seq<byte>, c: byte): seq<byte>
    requires afterCr ==> disk != []
  {
    if afterCr && c == LF then disk[..|disk| - 1] + [LF]
    else if afterCr && c == NUL then disk
    else disk + [c]
  }

  lemma {:induction false} DecodeNextBehind(afterCr: bool, head: byte, disk: seq<byte>, c: byte)
    requires afterCr ==> disk != []
    ensures DecodeNext(afterCr, [head] + disk, c) == [head] + DecodeNext(afterCr, disk, c)
  {
  }

  /**
   * Decoding byte by byte with one byte of memory equals decoding the whole stream;
   * after a CR the last byte of the file is that CR, so stepping back one byte is always possible.
   */
  lemma {:induction false} DecodeSnoc(s: seq<byte>, c: byte)
    ensures EndsInCr(s) ==> EndsInCr(Decode(s))
    ensures Decode(s + [c]) == DecodeNext(EndsInCr(s), Decode(s), c)
  {
    var t := s + [c];
    if |s| == 0 {
      DecodeOne(c);
      assert t == [c];
    } else if |s| == 1 {
      DecodeOne(s[0]);
      DecodePair(s[0], c);
      assert t == [s[0], c] && s == [s[0]];
    } else {
      var k := Step(s);
      DecodeSnoc(s[k..], c);
      DecodeUnfold(s);
      DecodeUnfold(t);
      assert t[k..] == s[k..] + [c];
      DecodeNextBehind(EndsInCr(s), Head(s), Decode(s[k..]), c);
    }
  }

  /** How many bytes the first decoded byte of s takes up, and what that byte is. */
  function Step(s: seq<byte>): (k: nat)
    requires s != []
    ensures k <= |s|
  {
    if s[0] == CR && 2 <= |s| && (s[1] == LF || s[1] == NUL) then 2 else 1
  }

  function Head(s: seq<byte>): byte
    requires s != []
  {
    if s[0] == CR && 2 <= |s| && s[1] == LF then LF else s[0]
  }

  lemma {:induction false} DecodeUnfold(s: seq<byte>)
    requires s != []
    ensures Decode(s) == [Head(s)] + Decode(s[Step(s)..])
  {
  }

  lemma {:induction false} DecodeOne(b: byte)
    ensures Decode([b]) == [b]
  {
  }

  lemma {:induction false} DecodePair(b: byte, c: byte)
    ensures Decode([b, c]) == DecodeNext(b == CR, [b], c)
  {
    assert [b, c][1..] == [c] && [b, c][2..] == [];
    DecodeOne(c);
  }

  // ------------------------------------------------ the conversion in numbers

  /** Byte by byte: 10 is sent as 13 10 and 13 as 13 0; any other byte stands for itself. */
  lemma {:induction false} EncodeIsBytewise(s: seq<byte>, b: byte, t: seq<byte>)
    ensures Encode([]) == []
    ensures Encode(s + [b] + t) ==
            Encode(s) + (if b == 10 then [13, 10] else if b == 13 then [13, 0] else [b]) + Encode(t)
  {
    EncodeAppend(s + [b], t);
    EncodeSnoc(s, b);
  }

  /** In what is sent every 10 follows a 13, and every 13 is followed by 10 or 0. */
  ghost predicate Paired(e: seq<byte>) {
    && (forall i :: 0 <= i < |e| && e[i] == 10 ==> 0 < i && e[i - 1] == 13)
    && (forall i :: 0 <= i < |e| && e[i] == 13 ==> i + 1 < |e| && (e[i + 1] == 10 || e[i + 1] == 0))
  }

  lemma {:induction false} PairedBehind(b: byte, rest: seq<byte>)
    requires Paired(rest)
    ensures Paired(EncodeByte(b) + rest)
  {
    var head := EncodeByte(b);
    var e := head + rest;
    forall i | 0 <= i < |e| && e[i] == 10 ensures 0 < i && e[i - 1] == 13 {
      if |head| <= i {
        assert rest[i - |head|] == 10;
        assert e[i - 1] == rest[i - |head| - 1];
      }
    }
    forall i | 0 <= i < |e| && e[i] == 13 ensures i + 1 < |e| && (e[i + 1] == 10 || e[i + 1] == 0) {
      if |head| <= i {
        assert rest[i - |head|] == 13;
        assert e[i + 1] == rest[i - |head| + 1];
      }
    }
  }

  lemma {:induction false} EncodedIsPaired(s: seq<byte>)
    ensures Paired(Encode(s))
  {
    if s == [] {
    } else {
      EncodedIsPaired(s[1..]);
      PairedBehind(s[0], Encode(s[1..]));
    }
  }

  /** From the front: 13 10 is received as 10 and 13 0 as 13; any other byte, a 13 before others too, as itself. */
  lemma {:induction false} DecodeIsPairwise(b: byte, t: seq<byte>)
    ensures Decode([13, 10] + t) == [10] + Decode(t)
    ensures Decode([13, 0] + t) == [13] + Decode(t)
    ensures b != 13 || t == [] || (t[0] != 10 && t[0] != 0) ==> Decode([b] + t) == [b] + Decode(t)
    ensures Decode([]) == []
  {
    assert ([13, 10] + t)[2..] == t && ([13, 0] + t)[2..] == t && ([b] + t)[1..] == t;
  }
}
