/** The message ring of the debug module. A print copies its message and then advances the in
    index, a flush puts a message out and then advances the out index; the four halves interleave
    freely. */
module MessageRing {
  import opened Basics

  function Pow2(k: nat): (p: nat)
    ensures p > 0
  {
    if k == 0 then 1 else 2 * Pow2(k - 1)
  }

  /** Bitwise and. */
  function And(a: nat, b: nat): (r: nat)
    decreases a
  {
    if a == 0 || b == 0 then 0
    else (if a % 2 == 1 && b % 2 == 1 then 1 else 0) + 2 * And(a / 2, b / 2)
  }

  lemma {:induction false} MaskKeeps(x: nat, k: nat)
    requires x < Pow2(k)
    ensures And(x, Pow2(k) - 1) == x
    decreases k
  {
    if k != 0 && x != 0 { MaskKeeps(x / 2, k - 1); }
  }

  lemma {:induction false} MaskClears(k: nat)
    ensures And(Pow2(k), Pow2(k) - 1) == 0
    decreases k
  {
    if k != 0 { MaskClears(k - 1); }
  }

  /** The driver's next index, a mask that relies on the size being a power of two. */
  function MbNext(index: nat, k: nat): (next: nat) {
    And(index + 1, Pow2(k) - 1)
  }

  lemma NextWraps(index: nat, k: nat)
    requires index < Pow2(k)
    ensures MbNext(index, k) == Around(index, Pow2(k))
  {
    if index + 1 == Pow2(k) { MaskClears(k); } else { MaskKeeps(index + 1, k); }
  }

  /** Steps from one index to the other around the ring, (to - from) mod n. */
  function Distance(from: nat, to: nat, n: nat): (d: nat)
    requires from < n && to < n
    ensures d < n
  {
    if to >= from then to - from else to + n - from
  }

  function Around(i: nat, n: nat): (j: nat) { if i + 1 == n then 0 else i + 1 }

  /** The slots from one index up to the other, around the ring. */
  function Between<T>(slots: seq<T>, from: nat, to: nat): (r: seq<T>)
    requires from < |slots| && to < |slots|
    ensures |r| == Distance(from, to, |slots|)
  {
    if to >= from then slots[from..to] else slots[from..] + slots[..to]
  }

  lemma BetweenOverwrite<T>(slots: seq<T>, from: nat, to: nat, x: T)
    requires from < |slots| && to < |slots|
    ensures Between(slots[to := x], from, to) == Between(slots, from, to)
  {}

  lemma BetweenGrows<T>(slots: seq<T>, from: nat, to: nat)
    requires from < |slots| && to < |slots| && Distance(from, to, |slots|) + 1 < |slots|
    ensures Between(slots, from, Around(to, |slots|)) == Between(slots, from, to) + [slots[to]]
  {}

  lemma BetweenShrinks<T>(slots: seq<T>, from: nat, to: nat)
    requires from < |slots| && to < |slots| && from != to
    ensures Between(slots, from, to) == [slots[from]] + Between(slots, Around(from, |slots|), to)
  {}

  class MessageBuffer {
    const k: nat
    const buffers: array<string>
    var inbuffer: nat
    var outbuffer: nat
    var overruns: nat
    /** A message is copied but not yet counted in; a message is put out but not yet counted out. */
    var copied: bool
    var putOut: bool
    var output: seq<string>
    ghost var accepted: seq<string>

    ghost function Count(): (n: nat)
      requires inbuffer < buffers.Length && outbuffer < buffers.Length
      reads this
    {
      Distance(outbuffer, inbuffer, buffers.Length)
    }

    ghost function Pending(): (p: seq<string>)
      requires inbuffer < buffers.Length && outbuffer < buffers.Length
      reads this, buffers
    {
      Between(buffers[..], outbuffer, inbuffer)
    }

    ghost predicate Shaped()
      reads this
    {
      && buffers.Length == Pow2(k) && inbuffer < buffers.Length && outbuffer < buffers.Length
      && (putOut ==> Count() > 0)
    }

    /** What was put out, followed by what is pending, is what was accepted, in order. */
    ghost predicate Faithful()
      requires Shaped()
      reads this, buffers
    {
      output + Pending()[if putOut then 1 else 0..] == accepted
    }

    ghost predicate Valid()
      reads this, buffers
    {
      Shaped() && Faithful()
    }

    constructor (exponent: nat)
      ensures Valid() && k == exponent && accepted == output == [] && !copied && !putOut
    {
      k := exponent;
      buffers := new string[Pow2(exponent)](_ => "");
      inbuffer, outbuffer, overruns, copied, putOut := 0, 0, 0, false, false;
      output, accepted := [], [];
    }

    /** First half of a print. */
    method Copy(msg: string)
      requires Valid() && !copied
      modifies buffers, this`copied
      ensures Valid() && copied && buffers[inbuffer] == msg
    {
      BetweenOverwrite(buffers[..], outbuffer, inbuffer, msg);
      ghost var was := buffers[..];
      buffers[inbuffer] := msg;
      copied := true;
      assert buffers[..] == was[inbuffer := msg];
    }

    /** Second half of a print. It keeps the ring faithful exactly when there is room: with all but
        one slot pending the indices meet and everything pending looks gone. */
    method Advance()
      requires Valid() && copied
      modifies this`inbuffer, this`copied, this`accepted
      ensures !copied && accepted == old(accepted) + [buffers[old(inbuffer)]]
      ensures Valid() <==> old(Count()) + 1 < buffers.Length
      ensures old(Count()) + 1 < buffers.Length ==> Count() == old(Count()) + 1
    {
      ghost var before, n := Pending(), Count();
      NextWraps(inbuffer, k);
      if n + 1 < buffers.Length { BetweenGrows(buffers[..], outbuffer, inbuffer); }
      accepted := accepted + [buffers[inbuffer]];
      inbuffer := MbNext(inbuffer, k);
      copied := false;
      if n + 1 == buffers.Length {
        assert |accepted| == |output| + |before| + 1 - if putOut then 1 else 0;
        assert Count() == 0;
      }
    }

    /** First half of a flush step. */
    method PutOut()
      requires Valid() && !putOut && outbuffer != inbuffer
      modifies this`output, this`putOut
      ensures Valid() && putOut && output == old(output) + [buffers[outbuffer]]
    {
      BetweenShrinks(buffers[..], outbuffer, inbuffer);
      output := output + [buffers[outbuffer]];
      putOut := true;
    }

    /** Second half of a flush step. */
    method Retire()
      requires Valid() && putOut
      modifies this`outbuffer, this`putOut
      ensures Valid() && !putOut && Count() == old(Count()) - 1
    {
      NextWraps(outbuffer, k);
      BetweenShrinks(buffers[..], outbuffer, inbuffer);
      outbuffer := MbNext(outbuffer, k);
      putOut := false;
    }

    /** Puts out everything pending. */
    method MbFlush()
      requires Valid() && !putOut
      modifies this`output, this`putOut, this`outbuffer
      ensures Valid() && !putOut && output == accepted
    {
      while outbuffer != inbuffer
        invariant Valid() && !putOut
        decreases Count()
      {
        PutOut();
        Retire();
      }
      assert Pending() == [];
    }

    /** Six attempts at the write lock, each of which may find it free, then the message is dropped and
        counted. Nothing looks at the room left, so an accepted message keeps the ring faithful exactly
        when there was room. */
    method Print(msg: string, lockFree: nat -> bool) returns (printed: bool)
      requires Valid() && !copied
      modifies this`inbuffer, this`copied, this`accepted, this`overruns, buffers
      ensures printed <==> exists attempt :: 0 <= attempt < 6 && lockFree(attempt)
      ensures !copied && (Valid() <==> !printed || old(Count()) + 1 < buffers.Length)
      ensures accepted == old(accepted) + if printed then [msg] else []
      ensures overruns == old(overruns) + if printed then 0 else 1
    {
      var ntries := 6;
      while ntries > 0
        invariant Valid() && !copied && inbuffer == old(inbuffer) && 0 <= ntries <= 6
        invariant accepted == old(accepted) && overruns == old(overruns)
        invariant forall attempt :: 0 <= attempt < 6 - ntries ==> !lockFree(attempt)
      {
        if lockFree(6 - ntries) {
          Copy(msg);
          Advance();
          return true;
        }
        ntries := ntries - 1;
      }
      overruns := overruns + 1;
      return false;
    }

    /** What the ring stands for. */
    ghost function Abstract(): (q: Queue)
      requires Shaped()
      reads this, buffers
    {
      Queue(accepted, output, if copied then Some(buffers[inbuffer]) else None, putOut)
    }

    lemma AbstractCount()
      requires Valid()
      ensures Abstract().Held() == Count() && 0 <= |output| <= |accepted|
      ensures !putOut && Count() > 0 ==> |output| < |accepted| && accepted[|output|] == buffers[outbuffer]
    {
      if !putOut && Count() > 0 {
        BetweenShrinks(buffers[..], outbuffer, inbuffer);
        assert accepted[|output|] == Pending()[0];
      }
    }

    /** One half, if it is possible; a message is only counted in if there is room. */
    method Do(half: Half)
      requires Valid()
      modifies this, buffers
      ensures Valid() && Abstract() == Next(old(Abstract()), half, buffers.Length)
    {
      AbstractCount();
      match half
      case CopyIn(msg) => if !copied { Copy(msg); }
      case CountIn =>
        NextWraps(inbuffer, k);
        var room := MbNext(inbuffer, k) != outbuffer;
        if copied && room { Advance(); }
      case Put => if !putOut && outbuffer != inbuffer { PutOut(); }
      case CountOut => if putOut { Retire(); }
    }

    /** Every interleaving of the halves of prints and flushes in which no message is counted into a
        full ring does to the ring what it does to a bounded queue. */
    method Interleave(halves: seq<Half>)
      requires Valid()
      modifies this, buffers
      ensures Valid() && Abstract() == NextAll(old(Abstract()), halves, buffers.Length)
    {
      ghost var start := Abstract();
      for i := 0 to |halves|
        invariant Valid() && Abstract() == NextAll(start, halves[..i], buffers.Length)
      {
        Do(halves[i]);
        assert halves[..i + 1][..i] == halves[..i];
      }
      assert halves[..|halves|] == halves;
    }
  }

  datatype Half = CopyIn(msg: string) | CountIn | Put | CountOut

  /** A bounded queue: all that went in, all that came out, the message being put in, and whether the
      one that came out last still takes up room. */
  datatype Queue = Queue(accepted: seq<string>, output: seq<string>, entering: Option<string>, leaving: bool) {
    function Held(): (n: int) { |accepted| - |output| + if leaving then 1 else 0 }
  }

  function Next(q: Queue, half: Half, size: nat): (r: Queue) {
    match half
    case CopyIn(msg) => if q.entering.None? then q.(entering := Some(msg)) else q
    case CountIn =>
      if q.entering.Some? && q.Held() + 1 < size then q.(accepted := q.accepted + [q.entering.value], entering := None)
      else q
    case Put =>
      if !q.leaving && |q.output| < |q.accepted|
      then q.(output := q.output + [q.accepted[|q.output|]], leaving := true)
      else q
    case CountOut => q.(leaving := false)
  }

  function NextAll(q: Queue, halves: seq<Half>, size: nat): (r: Queue)
    decreases |halves|
  {
    if halves == [] then q else Next(NextAll(q, halves[..|halves| - 1], size), halves[|halves| - 1], size)
  }

  /** A queue puts out what went in, in order, and never holds as much as its size. */
  lemma {:induction false} QueueInOrder(q: Queue, halves: seq<Half>, size: nat)
    requires q.output <= q.accepted && 0 <= q.Held() < size
    ensures var r := NextAll(q, halves, size);
      r.output <= r.accepted && q.accepted <= r.accepted && q.output <= r.output && 0 <= r.Held() < size
    decreases |halves|
  {
    if halves != [] {
      QueueInOrder(q, halves[..|halves| - 1], size);
    }
  }
}
