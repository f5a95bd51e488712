/** Block access to the quadlet registers of a DICE device, in chunks of 512 bytes. The write loop
    sends every chunk to the first address. */
module RegisterSpace {
  import opened Basics

  const BLOCKSIZE_QUADS := 128

  function Min(a: nat, b: nat): (r: nat) { if a < b then a else b }

  /** What the write loop leaves in memory. */
  function ChunkedWrite(mem: seq<nat>, at: nat, data: seq<nat>): (r: seq<nat>)
    requires at + Min(|data|, BLOCKSIZE_QUADS) <= |mem|
    ensures |r| == |mem|
    decreases |data|
  {
    if |data| <= BLOCKSIZE_QUADS then Patch(mem, at, data)
    else ChunkedWrite(Patch(mem, at, data[..BLOCKSIZE_QUADS]), at, data[BLOCKSIZE_QUADS..])
  }

  lemma {:induction false} ChunkedFrame(mem: seq<nat>, at: nat, data: seq<nat>)
    requires at + Min(|data|, BLOCKSIZE_QUADS) <= |mem|
    ensures SameOutside(ChunkedWrite(mem, at, data), mem, at, Min(|data|, BLOCKSIZE_QUADS))
    decreases |data|
  {
    if |data| > BLOCKSIZE_QUADS {
      ChunkedFrame(Patch(mem, at, data[..BLOCKSIZE_QUADS]), at, data[BLOCKSIZE_QUADS..]);
    }
  }

  /** The last position below n that is a multiple of the chunk size away from i. */
  function LastOf(n: nat, i: nat): (last: nat)
    requires i < n
    ensures i <= last < n && last + BLOCKSIZE_QUADS >= n && (last - i) % BLOCKSIZE_QUADS == 0
    decreases n
  {
    if i + BLOCKSIZE_QUADS < n then BLOCKSIZE_QUADS + LastOf(n - BLOCKSIZE_QUADS, i) else i
  }

  /** Each written register ends with the last data quadlet that is a multiple of the chunk size
      away. */
  lemma {:induction false} ChunkedAt(mem: seq<nat>, at: nat, data: seq<nat>, i: nat)
    requires at + Min(|data|, BLOCKSIZE_QUADS) <= |mem| && i < |data| && i < BLOCKSIZE_QUADS
    ensures ChunkedWrite(mem, at, data)[at + i] == data[LastOf(|data|, i)]
    decreases |data|
  {
    if |data| > BLOCKSIZE_QUADS {
      var m, rest := Patch(mem, at, data[..BLOCKSIZE_QUADS]), data[BLOCKSIZE_QUADS..];
      if i < |rest| {
        ChunkedAt(m, at, rest, i);
      } else {
        ChunkedFrame(m, at, rest);
      }
    }
  }

  lemma LongBlockMisses(mem: seq<nat>, at: nat, data: seq<nat>)
    requires |data| > BLOCKSIZE_QUADS && at + |data| <= |mem| && mem[at + BLOCKSIZE_QUADS] != data[BLOCKSIZE_QUADS]
    ensures ChunkedWrite(mem, at, data) != Patch(mem, at, data)
  {
    hide ChunkedWrite;
    ChunkedFrame(mem, at, data);
    assert ChunkedWrite(mem, at, data)[at + BLOCKSIZE_QUADS] == mem[at + BLOCKSIZE_QUADS];
    assert Patch(mem, at, data)[at + BLOCKSIZE_QUADS] == data[BLOCKSIZE_QUADS];
  }

  /** The write loop acts like one write on this memory. */
  ghost predicate LandsAsOne(mem: seq<nat>, at: nat, data: seq<nat>) {
    at + |data| <= |mem| ==> ChunkedWrite(mem, at, data) == Patch(mem, at, data)
  }

  /** It does so on every memory exactly for blocks of at most one chunk. */
  lemma ChunkedIsPatch(at: nat, data: seq<nat>)
    ensures |data| <= 512 / 4 <==> forall mem :: LandsAsOne(mem, at, data)
  {
    if |data| > BLOCKSIZE_QUADS {
      var other := data[BLOCKSIZE_QUADS] + 1;
      var mem: seq<nat> := seq(at + |data|, _ => other);
      LongBlockMisses(mem, at, data);
      assert !LandsAsOne(mem, at, data);
    }
  }

  /** The first register holds the first quadlet of some chunk. */
  ghost predicate StartsChunk(mem: seq<nat>, at: nat, data: seq<nat>) {
    at < |mem| && exists k :: 0 <= k < |data| && k % BLOCKSIZE_QUADS == 0 && mem[at] == data[k]
  }

  lemma ChunkLands(mem: seq<nat>, at: nat, data: seq<nat>, done: nat, len: nat)
    requires 0 < len && done + len <= |data| && done % BLOCKSIZE_QUADS == 0 && at + len <= |mem|
    ensures StartsChunk(Patch(mem, at, data[done..done + len]), at, data)
  {
    assert Patch(mem, at, data[done..done + len])[at] == data[done];
  }

  class Device {
    var mem: seq<nat>
    /** Bus transactions that failed. */
    ghost var failures: nat

    constructor (contents: seq<nat>)
      ensures mem == contents && failures == 0
    {
      mem, failures := contents, 0;
    }

    /** One bus read. */
    method ReadQuads(at: nat, n: nat) returns (ok: bool, data: seq<nat>)
      modifies this`failures
      ensures ok ==> at + n <= |mem| && data == mem[at..at + n]
      ensures failures == old(failures) + if ok then 0 else 1
    {
      ok := *;
      data := [];
      if at + n > |mem| { ok := false; }
      if !ok { failures := failures + 1; }
      if ok { data := mem[at..at + n]; }
    }

    /** One bus write; one that is reported as failed may still have happened. */
    method WriteQuads(at: nat, data: seq<nat>) returns (ok: bool)
      modifies this
      ensures SameOutside(mem, old(mem), at, |data|)
      ensures mem == old(mem) || (at + |data| <= |mem| && mem == Patch(old(mem), at, data))
      ensures ok ==> at + |data| <= |mem| && mem == Patch(old(mem), at, data)
      ensures failures == old(failures) + if ok then 0 else 1
    {
      ok := *;
      if at + |data| > |mem| { ok := false; }
      if !ok { failures := failures + 1; }
      if at + |data| > |mem| { return; }
      var happened: bool := *;
      if ok || happened { mem := Patch(mem, at, data); }
    }

    /** Succeeds exactly when no transaction fails. */
    method ReadRegBlock(at: nat, len: nat) returns (ok: bool, data: seq<nat>)
      modifies this`failures
      ensures failures == old(failures) + if ok then 0 else 1
      ensures ok ==> at + len <= |mem| || len == 0
      ensures ok ==> |data| == len && (len > 0 ==> data == mem[at..at + len])
    {
      data := [];
      while |data| < len
        invariant |data| <= len && failures == old(failures)
        invariant |data| > 0 ==> at + |data| <= |mem| && data == mem[at..at + |data|]
      {
        var quadsTodo := len - |data|;
        if quadsTodo > BLOCKSIZE_QUADS { quadsTodo := BLOCKSIZE_QUADS; }
        var good, chunk := ReadQuads(at + |data|, quadsTodo);
        if !good { return false, data; }
        assert mem[at..at + |data| + quadsTodo] == mem[at..at + |data|] + mem[at + |data|..at + |data| + quadsTodo];
        data := data + chunk;
      }
      return true, data;
    }

    /** Succeeds exactly when no transaction fails; otherwise some of the chunks may have landed. */
    method WriteRegBlock(at: nat, data: seq<nat>) returns (ok: bool)
      modifies this
      ensures failures == old(failures) + if ok then 0 else 1
      ensures SameOutside(mem, old(mem), at, Min(|data|, BLOCKSIZE_QUADS))
      ensures ok && data != [] ==> at + Min(|data|, BLOCKSIZE_QUADS) <= |mem| && mem == ChunkedWrite(old(mem), at, data)
      ensures ok && data == [] ==> mem == old(mem)
      ensures mem == old(mem) || StartsChunk(mem, at, data)
    {
      hide Patch;
      var quadsDone := 0;
      ghost var was := mem;
      while quadsDone < |data|
        invariant 0 <= quadsDone <= |data| && failures == old(failures)
        invariant SameOutside(mem, was, at, Min(|data|, BLOCKSIZE_QUADS))
        invariant quadsDone == 0 ==> mem == was
        invariant 0 < quadsDone < |data| ==> quadsDone % BLOCKSIZE_QUADS == 0
        invariant 0 < quadsDone ==> StartsChunk(mem, at, data)
        invariant 0 < quadsDone ==> at + Min(|data|, BLOCKSIZE_QUADS) <= |mem|
        invariant 0 < quadsDone < |data| ==>
          ChunkedWrite(mem, at, data[quadsDone..]) == ChunkedWrite(was, at, data)
        invariant 0 < quadsDone == |data| ==> mem == ChunkedWrite(was, at, data)
      {
        var quadsTodo := |data| - quadsDone;
        if quadsTodo > BLOCKSIZE_QUADS { quadsTodo := BLOCKSIZE_QUADS; }
        assert data[quadsDone..][..quadsTodo] == data[quadsDone..quadsDone + quadsTodo];
        assert data[quadsDone..][quadsTodo..] == data[quadsDone + quadsTodo..];
        assert quadsDone == 0 ==> data[quadsDone..] == data;
        assert quadsDone + quadsTodo == |data| ==> data[quadsDone..quadsDone + quadsTodo] == data[quadsDone..];
        ghost var before := mem;
        var good := WriteQuads(at, data[quadsDone..quadsDone + quadsTodo]);
        if good || mem != before { ChunkLands(before, at, data, quadsDone, quadsTodo); }
        if !good { return false; }
        quadsDone := quadsDone + quadsTodo;
      }
      return true;
    }
  }
}
