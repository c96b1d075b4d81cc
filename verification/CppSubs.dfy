/**
 * tftp_subs.cpp: the write-behind half of the two-buffer engine, for packets of any negotiated size
 * and octet mode only, with results that callers compare.
 */
module CppSubs {
  import opened Common
  import opened TftpSubs

  class WriteQueue {
    const bfs: seq<Buffer>
    var nextone: int
    var current: int

    ghost var accepted: seq<seq<byte>>      // what writeit has been given
    ghost var flushed: nat                  // how many of these write_behind has output

    /** rw_init(0) */
    constructor ()
      ensures Valid() && fresh(Repr())
      ensures accepted == [] && flushed == 0
    {
      var b0 := new Buffer(BF_ALLOC, MAX_SEGSIZE);
      var b1 := new Buffer(BF_FREE, MAX_SEGSIZE);
      bfs := [b0, b1];
      current, nextone := 0, 0;
      accepted, flushed := [], 0;
    }

    ghost function Repr(): set<object>
      reads this, bfs
      requires |bfs| == 2
    {
      {this, bfs[0], bfs[1], bfs[0].data, bfs[1].data}
    }

    /** All segments but at most the last have been output; that one is in the buffer not in use. */
    ghost predicate Valid()
      reads this, bfs, if |bfs| == 2 then {bfs[0].data, bfs[1].data} else {}
    {
      && |bfs| == 2 && bfs[0] != bfs[1] && bfs[0].data != bfs[1].data
      && bfs[0].data.Length == bfs[1].data.Length == MAX_SEGSIZE
      && flushed <= |accepted| <= flushed + 1
      && current == |accepted| % 2 && nextone == flushed % 2
      && bfs[current].counter == BF_ALLOC
      && (flushed == |accepted| ==> bfs[1 - current].counter == BF_FREE)
      && (flushed < |accepted| ==> bfs[1 - current].Holds(accepted[flushed]))
    }

    /** Whether write_behind finds something to flush. */
    predicate Pending()
      reads this, bfs
      requires |bfs| == 2 && 0 <= nextone <= 1
    {
      bfs[nextone].counter >= -1
    }

    /** The file holds the segments that have been output; without a file none have been. */
    ghost predicate OnDisk(file: OutFile?)
      reads this, file
    {
      && flushed <= |accepted|
      && (file == null ==> flushed == 0)
      && (file != null ==> file.Valid() && file.pos == |file.content| && file.content == Concat(accepted[..flushed]))
    }

    /** The part of write_behind after its first test: output the oldest segment. */
    method Flush(file: OutFile) returns (r: int)
      requires |bfs| == 2 && 0 <= nextone <= 1 && flushed < |accepted| && bfs[nextone].Holds(accepted[flushed])
      requires OnDisk(file)
      modifies this`nextone, this`flushed, bfs[nextone], file
      ensures nextone == 1 - old(nextone) && flushed == old(flushed) + 1 && bfs[old(nextone)].counter == BF_FREE
      ensures OnDisk(file) && r == |accepted[old(flushed)]|
    {
      var b := bfs[nextone];
      r := b.counter;
      b.counter := BF_FREE;
      nextone := (nextone + 1) % 2;
      NextConcat(accepted, flushed);
      flushed := flushed + 1;
      file.Write(b.data, r);
    }

    /** write_behind: a null file is harmless while nothing is pending. */
    method WriteBehind(file: OutFile?) returns (r: int)
      requires Valid() && OnDisk(file) && (file == null ==> !Pending())
      modifies this`nextone, this`flushed, bfs[0], bfs[1], file
      ensures Valid() && OnDisk(file) && flushed == |accepted|
      ensures r == if old(flushed) == |accepted| then 0 else |accepted[old(flushed)]|
    {
      if !Pending() {
        return 0;
      }
      r := Flush(file);
    }

    /**
     * writeit: the result is the length of the segment just given only if the other buffer was free, in which case
     * no file is needed; otherwise it is what flushing the previous segment returned.
     */
    method Writeit(file: OutFile?, count: nat) returns (dp: Buffer, r: int)
      requires Valid() && OnDisk(file) && count <= MAX_SEGSIZE && (file == null ==> !Pending())
      modifies this, bfs[0], bfs[1], file
      ensures Valid() && OnDisk(file)
      ensures accepted == old(accepted) + [bfs[old(current)].data[..count]] && flushed == |old(accepted)|
      ensures dp == bfs[current] && current == 1 - old(current)
      ensures r == if old(flushed) == |old(accepted)| then count else |old(accepted)[old(flushed)]|
    {
      r := count;
      ghost var segment := bfs[current].data[..count];
      bfs[current].counter := count;
      current := (current + 1) % 2;
      if bfs[current].counter != BF_FREE {
        r := Flush(file);
      }
      bfs[current].counter := BF_ALLOC;
      dp := bfs[current];
      assert flushed == |accepted| && (accepted + [segment])[..flushed] == accepted[..flushed];
      accepted := accepted + [segment];
    }
  }
}
