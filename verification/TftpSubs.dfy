/**
 * tftp/tftpsubs.c: read-ahead and write-behind over two flagged buffers, converting to and from
 * netascii with state that is carried from one buffer to the next.
 */
module TftpSubs {
  import opened Common
  import opened Netascii

  const BF_ALLOC := -3
  const BF_FREE := -2
  const EOF := -1

  /** A regular file being read. */
  class InFile {
    const content: seq<byte>
    var pos: nat

    constructor (content: seq<byte>)
      ensures this.content == content && pos == 0
    {
      this.content := content;
      pos := 0;
    }

    ghost predicate Valid()
      reads this
    {
      pos <= |content|
    }

    method Getc() returns (c: int)
      requires Valid()
      modifies this
      ensures Valid()
      ensures old(pos) == |content| ==> c == EOF && pos == old(pos)
      ensures old(pos) < |content| ==> c == content[old(pos)] && pos == old(pos) + 1
    {
      if pos == |content| {
        return EOF;
      }
      c := content[pos];
      pos := pos + 1;
    }

    /** read(2) on a regular file: short only at the end. */
    method Read(buf: array<byte>) returns (n: nat)
      requires Valid()
      modifies this, buf
      ensures Valid()
      ensures n == Min(buf.Length, |content| - old(pos)) && pos == old(pos) + n
      ensures buf[..n] == content[old(pos)..pos]
    {
      n := Min(buf.Length, |content| - pos);
      forall i | 0 <= i < n {
        buf[i] := content[pos + i];
      }
      pos := pos + n;
    }
  }

  /** A regular file being written through a position that can step back. */
  class OutFile {
    var content: seq<byte>
    var pos: nat

    constructor ()
      ensures content == [] && pos == 0
    {
      content := [];
      pos := 0;
    }

    ghost predicate Valid()
      reads this
    {
      pos <= |content|
    }

    method Putc(c: byte)
      requires Valid()
      modifies this
      ensures Valid() && pos == old(pos) + 1
      ensures old(pos) == |old(content)| ==> content == old(content) + [c]
      ensures old(pos) < |old(content)| ==> content == old(content)[old(pos) := c]
    {
      content := if pos == |content| then content + [c] else content[pos := c];
      pos := pos + 1;
    }

    /** fseek(file, -1, 1); it fails, changing nothing, at the start of the file. */
    method SeekBack()
      requires Valid()
      modifies this
      ensures Valid() && content == old(content)
      ensures pos == if old(pos) == 0 then 0 else old(pos) - 1
    {
      if 0 < pos {
        pos := pos - 1;
      }
    }

    /** write(2) at the end of the file, in full. */
    method Write(buf: array<byte>, n: nat)
      requires Valid() && pos == |content| && n <= buf.Length
      modifies this
      ensures Valid() && pos == |content| && content == old(content) + buf[..n]
    {
      content := content + buf[..n];
      pos := |content|;
    }
  }

  class Buffer {
    var counter: int
    const data: array<byte>

    constructor (counter: int, size: nat)
      ensures this.counter == counter && fresh(data) && data.Length == size
    {
      this.counter := counter;
      data := new byte[size];
    }

    /** The buffer is filled with exactly these bytes. */
    ghost predicate Holds(bytes: seq<byte>)
      reads this, data
    {
      counter == |bytes| <= data.Length && data[..|bytes|] == bytes
    }
  }

  /** What the peer is sent for a file, in either mode. */
  function Sent(content: seq<byte>, convert: bool): seq<byte> {
    if convert then Encode(content) else content
  }

  /** What is stored for a received stream, in either mode. */
  function Stored(stream: seq<byte>, convert: bool): seq<byte> {
    if convert then Decode(stream) else stream
  }

  /** In octet mode nothing is converted; in netascii mode line ends are sent as 13 10, and received as 10. */
  lemma {:induction false} ModesDiffer(s: seq<byte>, t: seq<byte>)
    ensures Sent(s, false) == s && Stored(s, false) == s
    ensures Sent(s + [10] + t, true) == Sent(s, true) + [13, 10] + Sent(t, true)
    ensures Stored([13, 10] + t, true) == [10] + Stored(t, true)
  {
    EncodeIsBytewise(s, 10, t);
    DecodeIsPairwise(0, t);
  }

  class Subs {
    const bfs: seq<Buffer>
    var nextone: int     // index of next buffer to use
    var current: int     // index of buffer in use
    var newline: bool    // in the middle of a newline expansion
    var prevchar: int    // last byte seen, for the carriage-return rules

    ghost var taken: nat                    // readit calls
    ghost var filled: nat                   // buffers filled by read_ahead
    ghost var accepted: seq<seq<byte>>      // what writeit has been given
    ghost var flushed: nat                  // how many of these write_behind has output

    /** rw_init: 0 for write-behind, 1 for read-ahead. */
    constructor (x: int)
      requires x == 0 || x == 1
      ensures Valid() && fresh(Repr())
      ensures current == 0 && nextone == x && !newline && prevchar == -1
      ensures bfs[0].counter == BF_ALLOC && bfs[1].counter == BF_FREE
      ensures taken == filled == flushed == 0 && accepted == []
    {
      var b0 := new Buffer(BF_ALLOC, SEGSIZE);
      var b1 := new Buffer(BF_FREE, SEGSIZE);
      bfs := [b0, b1];
      current, nextone, newline, prevchar := 0, x, false, -1;
      taken, filled, accepted, flushed := 0, 0, [], 0;
    }

    ghost predicate Valid()
      reads this, bfs
    {
      && |bfs| == 2 && bfs[0] != bfs[1] && bfs[0].data != bfs[1].data
      && bfs[0].data.Length == bfs[1].data.Length == SEGSIZE
      && 0 <= current <= 1 && 0 <= nextone <= 1
    }

    ghost function Repr(): set<object>
      reads this, bfs
      requires Valid()
    {
      {this, bfs[0], bfs[1], bfs[0].data, bfs[1].data}
    }

    // ------------------------------------------------------------ reading

    /** The file has been read, and converted, up to byte `offset` of the stream that is sent. */
    ghost predicate ReadUpTo(file: InFile, convert: bool, offset: nat)
      reads this, file
    {
      && file.Valid()
      && (!convert ==> file.pos == offset && !newline)
      && (convert ==>
            && |Encode(file.content[..file.pos])| == offset + (if newline then 1 else 0)
            && (newline ==>
                  0 < file.pos && prevchar == file.content[file.pos - 1] && (prevchar == LF || prevchar == CR)))
    }

    /** Buffers have been filled in turn with the first `filled` chunks of the stream. */
    ghost predicate Positioned(file: InFile, convert: bool)
      reads this, bfs, file
    {
      && Valid()
      && nextone == (filled + 1) % 2
      && ReadUpTo(file, convert, Min(SEGSIZE * filled, |Sent(file.content, convert)|))
    }

    /** The buffer in use holds chunk `taken`; the other is free or holds the one after. */
    ghost predicate Reading(file: InFile, convert: bool)
      reads this, bfs, if |bfs| == 2 then {bfs[0].data, bfs[1].data} else {}, file
    {
      && Positioned(file, convert)
      && current == taken % 2
      && taken <= filled <= taken + 1
      && (taken == 0 ==> bfs[current].counter == BF_ALLOC)
      && (0 < taken ==> bfs[current].Holds(Chunk(Sent(file.content, convert), taken)))
      && (filled == taken ==> bfs[1 - current].counter == BF_FREE)
      && (filled == taken + 1 ==> bfs[1 - current].Holds(Chunk(Sent(file.content, convert), filled)))
    }

    /** One round of the byte loop of read_ahead: the next byte of the encoded stream, or EOF. */
    method NextByte(file: InFile, ghost offset: nat) returns (c: int)
      requires ReadUpTo(file, true, offset)
      modifies this`newline, this`prevchar, file
      ensures offset <= |Encode(file.content)|
      ensures offset == |Encode(file.content)| ==> c == EOF && ReadUpTo(file, true, offset)
      ensures offset < |Encode(file.content)| ==> c == Encode(file.content)[offset] && ReadUpTo(file, true, offset + 1)
    {
      if newline {
        EncodedByte(file.content, file.pos - 1);
        c := if prevchar == LF then LF else NUL;
        newline := false;
      } else {
        c := file.Getc();
        if c == EOF {
          assert file.content[..file.pos] == file.content;
        } else {
          EncodedByte(file.content, file.pos - 1);
          if c == LF || c == CR {
            prevchar := c;
            c := CR;
            newline := true;
          }
        }
      }
    }

    /** Put the next byte of the encoded stream at position n of the buffer. */
    method Deposit(file: InFile, b: Buffer, n: nat, ghost offset: nat) returns (eof: bool)
      requires n < SEGSIZE == b.data.Length && ReadUpTo(file, true, offset)
      modifies this`newline, this`prevchar, file, b.data
      ensures b.data[..n] == old(b.data[..n])
      ensures if eof then offset == |Encode(file.content)| && ReadUpTo(file, true, offset)
              else offset < |Encode(file.content)| && b.data[n] == Encode(file.content)[offset] &&
                   ReadUpTo(file, true, offset + 1)
    {
      var c := NextByte(file, offset);
      eof := c == EOF;
      if !eof {
        b.data[n] := c;
      }
    }

    /** The byte loop of read_ahead: fill the buffer with the next bytes of the encoded stream. */
    method Convert(file: InFile, b: Buffer, ghost offset: nat) returns (n: nat)
      requires b.data.Length == SEGSIZE && ReadUpTo(file, true, offset) && offset <= |Encode(file.content)|
      modifies this`newline, this`prevchar, file, b.data
      ensures var rest := Encode(file.content)[offset..];
              n == Min(SEGSIZE, |rest|) && b.data[..n] == rest[..n] && ReadUpTo(file, true, offset + n)
    {
      ghost var rest := Encode(file.content)[offset..];
      n := 0;
      while n < SEGSIZE
        invariant n <= SEGSIZE && n <= |rest|
        invariant ReadUpTo(file, true, offset + n)
        invariant b.data[..n] == rest[..n]
      {
        var eof := Deposit(file, b, n, offset + n);
        if eof {
          break;
        }
        n := n + 1;
        assert b.data[..n] == b.data[..n - 1] + [rest[n - 1]];
      }
    }

    method Load(file: InFile, convert: bool, b: Buffer, ghost offset: nat) returns (n: nat)
      requires b.data.Length == SEGSIZE && ReadUpTo(file, convert, offset) && offset <= |Sent(file.content, convert)|
      modifies this`newline, this`prevchar, file, b.data
      ensures var stream := Sent(file.content, convert);
              && n == Min(SEGSIZE, |stream| - offset)
              && b.data[..n] == stream[offset..offset + n]
              && ReadUpTo(file, convert, offset + n)
    {
      if convert {
        n := Convert(file, b, offset);
        assert Encode(file.content)[offset..][..n] == Encode(file.content)[offset..offset + n];
      } else {
        n := file.Read(b.data);
      }
    }

    /** Chunk k + 1 of the stream goes into the buffer. */
    method LoadChunk(file: InFile, convert: bool, b: Buffer, ghost k: nat) returns (n: nat)
      requires b.data.Length == SEGSIZE && ReadUpTo(file, convert, Min(SEGSIZE * k, |Sent(file.content, convert)|))
      modifies this`newline, this`prevchar, file, b.data
      ensures n <= SEGSIZE && b.data[..n] == Chunk(Sent(file.content, convert), k + 1)
      ensures ReadUpTo(file, convert, Min(SEGSIZE * (k + 1), |Sent(file.content, convert)|))
    {
      ghost var stream := Sent(file.content, convert);
      NextChunk(stream, k);
      n := Load(file, convert, b, Min(SEGSIZE * k, |stream|));
    }

    /** The part of read_ahead after its test: fill the free buffer that is next. */
    method Fill(file: InFile, convert: bool)
      requires Positioned(file, convert) && bfs[nextone].counter == BF_FREE
      modifies this`nextone, this`newline, this`prevchar, this`filled, bfs[nextone], bfs[nextone].data, file
      ensures Positioned(file, convert) && filled == old(filled) + 1
      ensures bfs[old(nextone)].Holds(Chunk(Sent(file.content, convert), filled))
    {
      var b := bfs[nextone];
      nextone := 1 - nextone;
      var n := LoadChunk(file, convert, b, filled);
      filled := filled + 1;
      b.counter := n;
    }

    /** Fill the next buffer, unless it is not free; a buffer that is in use is not touched. */
    method ReadAhead(file: InFile, convert: bool)
      requires Positioned(file, convert)
      modifies Repr(), file
      ensures Positioned(file, convert) && taken == old(taken) && current == old(current)
      ensures old(bfs[nextone].counter) == BF_FREE ==>
                filled == old(filled) + 1 && bfs[old(nextone)].Holds(Chunk(Sent(file.content, convert), filled))
      ensures unchanged(bfs[1 - old(nextone)]) && unchanged(bfs[1 - old(nextone)].data)
      ensures old(Reading(file, convert)) ==>
                && Reading(file, convert) && filled == taken + 1
                && unchanged(bfs[current]) && unchanged(bfs[current].data)
    {
      ghost var reading := Reading(file, convert);
      if bfs[nextone].counter != BF_FREE {
        assert reading ==> filled == taken + 1;
        return;
      }
      assert reading ==> filled == taken && nextone == 1 - current;
      Fill(file, convert);
    }

    /** Free the buffer in use and switch to the other, filling it first if read-ahead has not. */
    method Readit(file: InFile, convert: bool) returns (dp: Buffer, count: int)
      requires Reading(file, convert)
      modifies Repr(), file
      ensures Reading(file, convert) && taken == old(taken) + 1
      ensures dp == bfs[current] && count == dp.counter
      ensures dp.Holds(Chunk(Sent(file.content, convert), taken))
    {
      bfs[current].counter := BF_FREE;
      current := 1 - current;
      var b := bfs[current];
      taken := taken + 1;
      if b.counter == BF_FREE {
        assert nextone == current;
        ReadAhead(file, convert);
        assert filled == taken && bfs[1 - current].counter == BF_FREE;
      } else {
        assert filled == taken;
      }
      dp := b;
      count := b.counter;
    }

    // ------------------------------------------------------------ writing

    /** The file holds what the received stream `raw` decodes to. */
    ghost predicate OnDisk(file: OutFile, convert: bool, raw: seq<byte>)
      reads this, file
    {
      && file.Valid() && file.pos == |file.content|
      && file.content == Stored(raw, convert)
      && (convert ==> (prevchar == CR <==> EndsInCr(raw)))
    }

    /** All segments but at most the last are in the file; that one is in the buffer not in use. */
    ghost predicate Writing(file: OutFile, convert: bool)
      reads this, bfs, if |bfs| == 2 then {bfs[0].data, bfs[1].data} else {}, file
    {
      && Valid()
      && flushed <= |accepted| <= flushed + 1
      && current == |accepted| % 2 && nextone == flushed % 2
      && bfs[current].counter == BF_ALLOC
      && (flushed == |accepted| ==> bfs[1 - current].counter == BF_FREE)
      && (flushed < |accepted| ==> bfs[1 - current].Holds(accepted[flushed]))
      && OnDisk(file, convert, Concat(accepted[..flushed]))
    }

    /** One round of the byte loop of write_behind: CR LF smashes the CR, CR NUL drops the NUL. */
    method PutByte(file: OutFile, c: byte, ghost raw: seq<byte>)
      requires OnDisk(file, true, raw)
      modifies this`prevchar, file
      ensures OnDisk(file, true, raw + [c])
    {
      DecodeSnoc(raw, c);
      var skip := false;
      if prevchar == CR {
        if c == LF {
          file.SeekBack();
        } else if c == NUL {
          skip := true;
        }
      }
      if !skip {
        file.Putc(c);
      }
      prevchar := c;
    }

    method Unconvert(file: OutFile, b: Buffer, count: nat, ghost raw: seq<byte>)
      requires OnDisk(file, true, raw) && count <= b.data.Length
      modifies this`prevchar, file
      ensures OnDisk(file, true, raw + b.data[..count])
    {
      var ct := 0;
      assert raw + b.data[..0] == raw;
      while ct < count
        invariant ct <= count
        invariant OnDisk(file, true, raw + b.data[..ct])
      {
        PutByte(file, b.data[ct], raw + b.data[..ct]);
        assert raw + b.data[..ct] + [b.data[ct]] == raw + b.data[..ct + 1];
        ct := ct + 1;
      }
    }

    /** The part of write_behind after its test: output the filled buffer that is next, which is the oldest segment. */
    method Flush(file: OutFile, convert: bool) returns (r: int)
      requires Valid() && flushed < |accepted| && bfs[nextone].Holds(accepted[flushed])
      requires OnDisk(file, convert, Concat(accepted[..flushed]))
      modifies this`nextone, this`prevchar, this`flushed, bfs[nextone], file
      ensures Valid() && nextone == 1 - old(nextone) && flushed == old(flushed) + 1
      ensures bfs[old(nextone)].counter == BF_FREE
      ensures OnDisk(file, convert, Concat(accepted[..flushed]))
      ensures r == if accepted[old(flushed)] == [] then -1 else |accepted[old(flushed)]|
    {
      var b := bfs[nextone];
      var count := b.counter;
      b.counter := BF_FREE;
      nextone := 1 - nextone;
      NextConcat(accepted, flushed);
      ghost var raw, segment := Concat(accepted[..flushed]), accepted[flushed];
      flushed := flushed + 1;
      if count <= 0 {
        assert raw + segment == raw;
        return -1;
      }
      if !convert {
        file.Write(b.data, count);
      } else {
        Unconvert(file, b, count, raw);
      }
      return count;
    }

    /** Output the next buffer if it is filled; in either case nothing but the buffer in use is left to output. */
    method WriteBehind(file: OutFile, convert: bool) returns (r: int)
      requires Writing(file, convert)
      modifies this`nextone, this`prevchar, this`flushed, bfs[0], bfs[1], file
      ensures Writing(file, convert) && flushed == |accepted|
      ensures r == if old(flushed) == |accepted| then 0
                   else if accepted[old(flushed)] == [] then -1
                   else |accepted[old(flushed)]|
    {
      if bfs[nextone].counter < -1 {
        return 0;
      }
      r := Flush(file, convert);
    }

    /** Queue the segment in the buffer in use and hand out the other one, flushing it only if it is not free. */
    method Writeit(file: OutFile, count: nat, convert: bool) returns (dp: Buffer, r: int)
      requires Writing(file, convert) && count <= SEGSIZE
      modifies this, bfs[0], bfs[1], file
      ensures Writing(file, convert)
      ensures accepted == old(accepted) + [bfs[old(current)].data[..count]] && flushed == |old(accepted)|
      ensures dp == bfs[current] && current == 1 - old(current) && r == count
    {
      bfs[current].counter := count;
      ghost var segment := bfs[current].data[..count];
      current := 1 - current;
      if bfs[current].counter != BF_FREE {
        var ignored := Flush(file, convert);
      }
      bfs[current].counter := BF_ALLOC;
      dp := bfs[current];
      r := count;
      assert flushed == |accepted|;
      assert (accepted + [segment])[..flushed] == accepted[..flushed];
      accepted := accepted + [segment];
    }
  }

  /** One more flushed segment makes the received stream longer by that segment. */
  lemma {:induction false} NextConcat(segments: seq<seq<byte>>, k: nat)
    requires k <= |segments|
    ensures k < |segments| ==> Concat(segments[..k + 1]) == Concat(segments[..k]) + segments[k]
  {
    if k < |segments| {
      assert segments[..k + 1] == segments[..k] + [segments[k]];
      ConcatSnoc(segments[..k], segments[k]);
    }
  }

  /** Where the bytes for content[k] stand in the encoded stream. */
  lemma {:induction false} EncodedByte(content: seq<byte>, k: nat)
    requires k < |content|
    ensures Encode(content[..k + 1]) == Encode(content[..k]) + EncodeByte(content[k])
    ensures var at := |Encode(content[..k])|;
            && at + |EncodeByte(content[k])| <= |Encode(content)|
            && Encode(content)[at] == EncodeByte(content[k])[0]
            && (|EncodeByte(content[k])| == 2 ==> Encode(content)[at + 1] == EncodeByte(content[k])[1])
  {
    EncodeSnoc(content[..k], content[k]);
    assert content[..k] + [content[k]] == content[..k + 1];
    EncodeSplit(content, k + 1);
  }
}
