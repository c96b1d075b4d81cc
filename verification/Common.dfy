/** Bytes, 16-bit block numbers and the cutting of a byte stream into data blocks. */
module Common {

  datatype Option<T> = None | Some(value: T)

  type byte = n: int | 0 <= n < 256

  /** u_int16_t: the block numbers of DATA and ACK packets. */
  type U16 = n: int | 0 <= n < 0x1_0000

  const SEGSIZE: nat := 512
  const MAX_SEGSIZE: nat := 65464
  const PKTSIZE: nat := 516

  function ToU16(n: nat): U16 {
    n % 0x1_0000
  }

  /** block++ on a u_int16_t. */
  function Succ16(block: U16): U16 {
    ToU16(block + 1)
  }

  function Min(a: nat, b: nat): nat {
    if a <= b then a else b
  }

  function Concat(blocks: seq<seq<byte>>): seq<byte> {
    if blocks == [] then [] else blocks[0] + Concat(blocks[1..])
  }

  /** The DATA payloads of a stream: full blocks, then one block that is shorter (possibly empty). */
  function Cut(stream: seq<byte>, seg: nat): seq<seq<byte>>
    requires 0 < seg
  {
    if |stream| < seg then [stream] else [stream[..seg]] + Cut(stream[seg..], seg)
  }

  /** Every block but the last is full and the last one is not. */
  ghost predicate WellCut(blocks: seq<seq<byte>>, seg: nat) {
    && blocks != []
    && (forall i :: 0 <= i < |blocks| - 1 ==> |blocks[i]| == seg)
    && |blocks[|blocks| - 1]| < seg
  }

  lemma {:induction false} ConcatAppend(a: seq<seq<byte>>, b: seq<seq<byte>>)
    ensures Concat(a + b) == Concat(a) + Concat(b)
  {
    if a == [] {
      assert a + b == b;
    } else {
      assert (a + b)[1..] == a[1..] + b;
      ConcatAppend(a[1..], b);
    }
  }

  lemma {:induction false} ConcatSnoc(a: seq<seq<byte>>, b: seq<byte>)
    ensures Concat(a + [b]) == Concat(a) + b
  {
    ConcatAppend(a, [b]);
    assert Concat([b]) == b + Concat([]);
  }

  /** Cutting loses nothing, and the cut has the shape that ends a lock-step transfer. */
  lemma {:induction false} CutIsExact(stream: seq<byte>, seg: nat)
    requires 0 < seg
    ensures WellCut(Cut(stream, seg), seg)
    ensures Concat(Cut(stream, seg)) == stream
    ensures |Cut(stream, seg)| == |stream| / seg + 1
  {
    CutShape(stream, seg);
    CutCount(stream, seg);
    BlockCountIs(|stream|, seg);
  }

  lemma {:induction false} CutShape(stream: seq<byte>, seg: nat)
    requires 0 < seg
    ensures WellCut(Cut(stream, seg), seg)
    ensures Concat(Cut(stream, seg)) == stream
  {
    var blocks := Cut(stream, seg);
    if |stream| < seg {
      assert Concat(blocks) == blocks[0] + Concat(blocks[1..]);
    } else {
      var rest := Cut(stream[seg..], seg);
      CutShape(stream[seg..], seg);
      assert blocks[1..] == rest;
      assert stream[..seg] + stream[seg..] == stream;
      forall i | 0 <= i < |blocks| - 1 ensures |blocks[i]| == seg {
        if 0 < i { assert blocks[i] == rest[i - 1]; }
      }
      assert blocks[|blocks| - 1] == rest[|rest| - 1];
    }
  }

  /** n / seg + 1, counted block by block. */
  function BlockCount(n: nat, seg: nat): nat
    requires 0 < seg
  {
    if n < seg then 1 else 1 + BlockCount(n - seg, seg)
  }

  lemma {:induction false} CutCount(stream: seq<byte>, seg: nat)
    requires 0 < seg
    ensures |Cut(stream, seg)| == BlockCount(|stream|, seg)
  {
    if |stream| < seg {
    } else {
      CutCount(stream[seg..], seg);
    }
  }

  lemma {:induction false} BlockCountIs(n: nat, seg: nat)
    requires 0 < seg
    ensures BlockCount(n, seg) == n / seg + 1
  {
    if n < seg {
    } else {
      BlockCountIs(n - seg, seg);
      DivStep(n, seg);
    }
  }

  lemma {:induction false} DivStep(n: nat, d: nat)
    requires 0 < d <= n
    ensures n / d == (n - d) / d + 1
  {
    var q, p := (n - d) / d, n / d;
    var gap := p - (q + 1);
    assert n - d == q * d + (n - d) % d;
    assert n == p * d + n % d;
    assert gap * d == p * d - q * d - d;
  }

  /** A well-formed cut is determined by the stream: the receiver needs no other framing. */
  lemma {:induction false} CutIsUnique(blocks: seq<seq<byte>>, seg: nat)
    requires 0 < seg
    requires WellCut(blocks, seg)
    ensures blocks == Cut(Concat(blocks), seg)
  {
    var stream := Concat(blocks);
    if |blocks| == 1 {
      assert Concat(blocks) == blocks[0] + Concat(blocks[1..]) == blocks[0];
      assert blocks == [blocks[0]];
    } else {
      assert |blocks[0]| == seg;
      assert stream[..seg] == blocks[0] && stream[seg..] == Concat(blocks[1..]);
      forall i | 0 <= i < |blocks[1..]| - 1 ensures |blocks[1..][i]| == seg {
        assert blocks[1..][i] == blocks[i + 1];
      }
      CutIsUnique(blocks[1..], seg);
    }
  }

  /** The n-th block of a stream cut into SEGSIZE pieces; empty past the end. */
  function Chunk(stream: seq<byte>, n: nat): seq<byte>
    requires 1 <= n
  {
    var blocks := Cut(stream, SEGSIZE);
    if n <= |blocks| then blocks[n - 1] else []
  }

  /** Reading SEGSIZE bytes at a time, and nothing past the end, yields the blocks of the cut in turn. */
  lemma {:induction false} NextChunk(stream: seq<byte>, k: nat)
    ensures var offset := Min(512 * k, |stream|);
            var n := Min(512, |stream| - offset);
            Chunk(stream, k + 1) == stream[offset..offset + n] && Min(512 * (k + 1), |stream|) == offset + n
    decreases k
  {
    if |stream| < SEGSIZE {
      assert Cut(stream, SEGSIZE) == [stream];
    } else if k == 0 {
      assert Cut(stream, SEGSIZE)[0] == stream[..SEGSIZE];
    } else {
      var rest := stream[SEGSIZE..];
      var offset := Min(SEGSIZE * (k - 1), |rest|);
      var n := Min(SEGSIZE, |rest| - offset);
      NextChunk(rest, k - 1);
      ChunkOfRest(stream, k);
      SliceOfRest(stream, offset, n);
    }
  }

  lemma {:induction false} SliceOfRest(stream: seq<byte>, offset: nat, n: nat)
    requires SEGSIZE + offset + n <= |stream|
    ensures stream[SEGSIZE..][offset..offset + n] == stream[SEGSIZE + offset..SEGSIZE + offset + n]
  {
  }

  lemma {:induction false} ChunkOfRest(stream: seq<byte>, n: nat)
    requires 1 <= n && SEGSIZE <= |stream|
    ensures Chunk(stream, n + 1) == Chunk(stream[SEGSIZE..], n)
  {
  }

  lemma {:induction false} TimesGrows(d: nat, a: nat, b: nat)
    requires a <= b
    ensures d * a <= d * b
  {
  }
}
