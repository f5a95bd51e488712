/** Isochronous channel accounting of the Bounce device: every started stream owns one channel of
    the bus, named in the register of its direction. */
module Bounce {

  const FREE := 0xffff_ffff
  const NO_CHANNEL := -1
  const CHANNELS := 63

  /** An int stored in an unsigned variable. */
  function Unsigned(c: int): (u: nat)
    requires -1 <= c < CHANNELS
  {
    if c == NO_CHANNEL then FREE else c
  }

  /** The allocated channels are exactly the stored ones, none stored twice. */
  ghost predicate ConservedIn(channels: seq<int>, owned: set<int>, others: set<int>) {
    && (forall i :: 0 <= i < |channels| ==> -1 <= channels[i] < CHANNELS)
    && (forall i, j :: 0 <= i < j < |channels| && channels[i] == channels[j] ==> channels[i] == NO_CHANNEL)
    && (forall c :: c in owned <==> c != NO_CHANNEL && c in channels)
    && owned !! others
  }

  /** Channels of the streams, receive processors first, and the two channel registers. */
  datatype View = View(channels: seq<int>, tx: int, rx: int) {
    function Reg(receive: bool): (r: int) { if receive then tx else rx }

    /** The view after a write to the register of a direction. */
    function Wrote(receive: bool, value: int): (v: View) {
      if receive then this.(tx := value) else this.(rx := value)
    }

    predicate Running(i: int) { 0 <= i < |channels| && channels[i] != NO_CHANNEL }
  }

  /** The register of this direction is free or has the channel of a running stream of this direction. */
  ghost predicate NamesStream(v: View, nb: nat, receive: bool) {
    || v.Reg(receive) == FREE
    || exists i :: v.Running(i) && (i < nb) == receive && v.channels[i] == v.Reg(receive)
  }

  /** A running stream that its register does not name. */
  predicate Stranded(v: View, nb: nat, i: int) {
    v.Running(i) && v.channels[i] != v.Reg(i < nb)
  }

  /** The register of this direction is free or names its only running stream. */
  ghost predicate Right(v: View, nb: nat, receive: bool) {
    && NamesStream(v, nb, receive)
    && forall i :: 0 <= i < |v.channels| && (i < nb) == receive ==> !Stranded(v, nb, i)
  }

  ghost predicate RegistersIn(v: View, nb: nat) {
    Right(v, nb, true) && Right(v, nb, false)
  }

  /** What was wrong stays wrong in the same way: a register that names no stream keeps its value, and
      a stranded stream its channel. */
  ghost predicate StaysWrong(v: View, w: View, nb: nat) {
    && (forall receive: bool :: !NamesStream(v, nb, receive) ==>
          !NamesStream(w, nb, receive) && w.Reg(receive) == v.Reg(receive))
    && (forall i :: Stranded(v, nb, i) ==> Stranded(w, nb, i) && w.channels[i] == v.channels[i])
  }

  lemma StaysWrongTransitive(u: View, v: View, w: View, nb: nat)
    requires StaysWrong(u, v, nb) && StaysWrong(v, w, nb)
    ensures StaysWrong(u, w, nb)
  {}

  /** Registers once wrong never get right. */
  lemma WrongForGood(v: View, w: View, nb: nat)
    requires StaysWrong(v, w, nb) && !RegistersIn(v, nb)
    ensures !RegistersIn(w, nb)
  {
    if !NamesStream(v, nb, true) || !NamesStream(v, nb, false) { return; }
    var i :| 0 <= i < |v.channels| && Stranded(v, nb, i);
    assert Stranded(w, nb, i);
  }

  /** A register that names no stream fails every start and stop of its direction: the one needs it
      free, the other naming the stream. */
  lemma NobodysRegisterRefuses(v: View, nb: nat, i: nat)
    requires i < |v.channels| && !NamesStream(v, nb, i < nb)
    ensures v.Reg(i < nb) != FREE && !(v.Reg(i < nb) == v.channels[i] != NO_CHANNEL)
  {
    assert v.Running(i) || v.channels[i] == NO_CHANNEL;
  }

  predicate InRange(v: View) {
    forall i :: 0 <= i < |v.channels| ==> -1 <= v.channels[i] < CHANNELS
  }

  /** A stream of one direction says nothing about the register of the other. */
  lemma OtherNames(v: View, nb: nat, i: nat, c: int, value: int)
    requires i < |v.channels|
    ensures var w := v.(channels := v.channels[i := c]).Wrote(i < nb, value);
      NamesStream(v, nb, !(i < nb)) <==> NamesStream(w, nb, !(i < nb))
  {
    var w, receive := v.(channels := v.channels[i := c]).Wrote(i < nb, value), !(i < nb);
    forall k | 0 <= k < |v.channels| && (k < nb) == receive ensures w.channels[k] == v.channels[k] {}
    if NamesStream(v, nb, receive) && v.Reg(receive) != FREE {
      var k :| v.Running(k) && (k < nb) == receive && v.channels[k] == v.Reg(receive);
      assert w.Running(k) && w.channels[k] == w.Reg(receive);
    }
    if NamesStream(w, nb, receive) && v.Reg(receive) != FREE {
      var k :| w.Running(k) && (k < nb) == receive && w.channels[k] == w.Reg(receive);
      assert v.Running(k) && v.channels[k] == v.Reg(receive);
    }
  }

  /** A stopped stream takes a fresh channel and the free register of its direction. */
  lemma Taking(v: View, nb: nat, i: nat, c: int)
    requires InRange(v) && i < |v.channels| && v.channels[i] == NO_CHANNEL && v.Reg(i < nb) == FREE
    requires 0 <= c < CHANNELS && c !in v.channels
    ensures var w := v.(channels := v.channels[i := c]).Wrote(i < nb, c);
      StaysWrong(v, w, nb) && (RegistersIn(v, nb) ==> RegistersIn(w, nb))
  {
    var w := v.(channels := v.channels[i := c]).Wrote(i < nb, c);
    assert w.channels[i] == c;
    OtherNames(v, nb, i, c, c);
    forall k | Stranded(v, nb, k) ensures Stranded(w, nb, k) && w.channels[k] == v.channels[k] {}
    forall k | 0 <= k < |w.channels| && Stranded(w, nb, k) ensures Stranded(v, nb, k) {}
  }

  /** A running stream named by its register gives up both. */
  lemma Giving(v: View, nb: nat, i: nat)
    requires InRange(v) && v.Running(i) && v.Reg(i < nb) == v.channels[i]
    requires forall k, l :: 0 <= k < l < |v.channels| && v.channels[k] == v.channels[l] ==> v.channels[k] == NO_CHANNEL
    ensures var w := v.(channels := v.channels[i := NO_CHANNEL]).Wrote(i < nb, FREE);
      StaysWrong(v, w, nb) && (RegistersIn(v, nb) ==> RegistersIn(w, nb))
  {
    var w := v.(channels := v.channels[i := NO_CHANNEL]).Wrote(i < nb, FREE);
    OtherNames(v, nb, i, NO_CHANNEL, FREE);
    forall k | Stranded(v, nb, k) ensures Stranded(w, nb, k) && w.channels[k] == v.channels[k] {}
    forall k | 0 <= k < |w.channels| && Stranded(w, nb, k) ensures Stranded(v, nb, k) {}
  }

  /** A start whose register write happens although it is reported as failed leaves the register of
      its direction with a channel that is nobody's. */
  lemma SlippedStart(v: View, nb: nat, i: nat, c: int)
    requires InRange(v) && i < |v.channels| && v.Reg(i < nb) == FREE && 0 <= c < CHANNELS && c !in v.channels
    ensures var w := v.Wrote(i < nb, c);
      StaysWrong(v, w, nb) && !NamesStream(w, nb, i < nb) && !RegistersIn(w, nb)
  {
    var w := v.Wrote(i < nb, c);
    OtherNames(v, nb, i, v.channels[i], c);
    assert v.(channels := v.channels[i := v.channels[i]]) == v;
    forall k | Stranded(v, nb, k) ensures Stranded(w, nb, k) {}
  }

  /** Such a stop leaves the stream stranded. */
  lemma SlippedStop(v: View, nb: nat, i: nat)
    requires InRange(v) && v.Running(i) && v.Reg(i < nb) == v.channels[i]
    ensures var w := v.Wrote(i < nb, FREE);
      StaysWrong(v, w, nb) && Stranded(w, nb, i) && !RegistersIn(w, nb)
  {
    var w := v.Wrote(i < nb, FREE);
    OtherNames(v, nb, i, v.channels[i], FREE);
    assert v.(channels := v.channels[i := v.channels[i]]) == v;
    assert v.channels[i] == v.Reg(i < nb);
    forall k | Stranded(v, nb, k) ensures Stranded(w, nb, k) {}
    assert Stranded(w, nb, i) && !Right(w, nb, i < nb);
  }

  // ---- the accounting ----

  lemma ConservedParts(channels: seq<int>, owned: set<int>, others: set<int>)
    requires ConservedIn(channels, owned, others)
    ensures owned !! others && forall i :: 0 <= i < |channels| ==> -1 <= channels[i] < CHANNELS
  {}

  lemma Allocating(channels: seq<int>, owned: set<int>, others: set<int>, i: nat, c: int)
    requires ConservedIn(channels, owned, others) && i < |channels| && channels[i] == NO_CHANNEL
    requires 0 <= c < CHANNELS && c !in owned && c !in others
    ensures ConservedIn(channels[i := c], owned + {c}, others)
  {
    var after := channels[i := c];
    assert c !in channels;
    forall x ensures x in owned + {c} <==> x != NO_CHANNEL && x in after {
      if x in after {
        var k :| 0 <= k < |after| && after[k] == x;
        assert k != i ==> x in channels;
      }
      if x in owned {
        var k :| 0 <= k < |channels| && channels[k] == x;
        assert after[k] == x;
      }
      assert after[i] == c;
    }
  }

  lemma Releasing(channels: seq<int>, owned: set<int>, others: set<int>, i: nat)
    requires ConservedIn(channels, owned, others) && i < |channels|
    ensures ConservedIn(channels[i := NO_CHANNEL], owned - {channels[i]}, others)
  {
    var after := channels[i := NO_CHANNEL];
    forall x ensures x in owned - {channels[i]} <==> x != NO_CHANNEL && x in after {
      if x in after && x != NO_CHANNEL {
        var k :| 0 <= k < |after| && after[k] == x;
        assert channels[k] == x;
      }
      if x in owned && x != channels[i] {
        var k :| 0 <= k < |channels| && channels[k] == x;
        assert after[k] == x;
      }
    }
  }

  predicate Stopped(i: nat, channels: seq<int>) {
    i < |channels| ==> channels[i] == NO_CHANNEL
  }

  lemma Losing(channels: seq<int>, owned: set<int>, others: set<int>, i: nat, c: int)
    requires ConservedIn(channels, owned, others) && i < |channels| && channels[i] != NO_CHANNEL && c !in owned
    ensures channels[i] in owned && channels[i] != c
    ensures channels[i] !in channels[i := c] && channels[i] !in channels[i := NO_CHANNEL]
  {
    assert channels[i] in channels;
  }

  class Device {
    /** The channel of each stream processor, receive processors first. */
    var channels: seq<int>
    const nbReceive: nat
    /** The channel registers: the device transmits to our receivers and the other way round. */
    var txReg: int
    var rxReg: int
    /** Channels of the bus allocated by this host for this device, and by anybody else. */
    var owned: set<int>
    var others: set<int>
    /** Register accesses that failed, and allocations the bus denied. */
    ghost var failures: nat
    ghost var denied: nat
    /** Writes that were reported as failed but changed a register. */
    ghost var slips: nat

    constructor (receivers: nat, transmitters: nat, taken: set<int>)
      ensures Valid() && nbReceive == receivers && |channels| == receivers + transmitters
      ensures owned == {} && others == taken && txReg == rxReg == FREE && slips == 0
      ensures forall i :: 0 <= i < |channels| ==> channels[i] == NO_CHANNEL
    {
      channels, nbReceive := seq(receivers + transmitters, _ => NO_CHANNEL), receivers;
      txReg, rxReg, owned, others := FREE, FREE, {}, taken;
      failures, denied, slips := 0, 0, 0;
    }

    function Reg(i: int): (r: int)
      reads this
    {
      if i < nbReceive then txReg else rxReg
    }

    predicate SameDirection(i: int, j: int) { (i < nbReceive) == (j < nbReceive) }

    ghost predicate Conserved()
      reads this
    {
      ConservedIn(channels, owned, others)
    }

    ghost function Now(): (v: View)
      reads this
    {
      View(channels, txReg, rxReg)
    }

    ghost predicate RegistersRight()
      reads this
    {
      RegistersIn(Now(), nbReceive)
    }

    /** The allocated channels are exactly the stored ones, and the registers are right exactly as long
        as no write reported as failed has changed one. */
    ghost predicate Valid()
      reads this
    {
      Conserved() && (RegistersRight() <==> slips == 0)
    }

    lemma OnlyRunningStream(i: nat, j: nat)
      requires Conserved() && RegistersRight() && i < |channels| && j < |channels| && SameDirection(i, j)
      requires channels[i] != NO_CHANNEL && channels[j] != NO_CHANNEL
      ensures i == j
    {
      assert Right(Now(), nbReceive, i < nbReceive);
      assert !Stranded(Now(), nbReceive, i) && !Stranded(Now(), nbReceive, j);
    }

    // ---- the bus ----

    method AllocateIsoChannel() returns (c: int)
      requires owned !! others
      modifies this`owned, this`denied
      ensures denied == old(denied) + if c < 0 then 1 else 0
      ensures c < 0 ==> owned == old(owned)
      ensures c >= 0 ==> c < CHANNELS && c !in old(owned) && c !in others && owned == old(owned) + {c}
    {
      c := 0;
      while c < CHANNELS
        invariant 0 <= c <= CHANNELS
      {
        if c !in owned && c !in others { break; }
        c := c + 1;
      }
      var bandwidth: bool := *;
      if c == CHANNELS || !bandwidth {
        denied := denied + 1;
        return -1;
      }
      owned := owned + {c};
    }

    /** Freeing an allocated channel succeeds, anything else does nothing. */
    method FreeIsoChannel(c: int) returns (ok: bool)
      modifies this`owned
      ensures ok <==> c in old(owned)
      ensures owned == old(owned) - {c}
    {
      ok := c in owned;
      owned := owned - {c};
    }

    method ReadReg(i: int) returns (ok: bool, value: int)
      modifies this`failures
      ensures ok ==> value == Reg(i)
      ensures failures == old(failures) + if ok then 0 else 1
    {
      ok := *;
      if !ok { failures := failures + 1; }
      value := Reg(i);
    }

    /** A write that is reported as failed may still have happened. */
    method WriteReg(i: int, value: int) returns (ok: bool)
      modifies this`txReg, this`rxReg, this`failures, this`slips
      ensures failures == old(failures) + if ok then 0 else 1
      ensures Now() == old(Now()) || Now() == old(Now()).Wrote(i < nbReceive, value)
      ensures ok ==> Reg(i) == value
      ensures slips == old(slips) + if !ok && Now() != old(Now()) then 1 else 0
    {
      var happens: bool := *;
      ok := *;
      ghost var was := Now();
      if !ok { failures := failures + 1; }
      if ok || happens {
        if i < nbReceive { txReg := value; } else { rxReg := value; }
      }
      if !ok && Now() != was { slips := slips + 1; }
    }

    // ---- the driver ----

    /** Starting succeeds exactly when a channel is found, the register is free and can be accessed.
        For a stopped stream it is all or nothing: a failed start leaves channels and allocations as
        they were, and the registers too unless its write slips; then the register of its direction
        names nobody's channel. Starting a running one, once a new channel is found, loses the old
        channel for good: it stays allocated and is stored nowhere. */
    method StartStreamByIndex(i: nat) returns (ok: bool)
      requires Valid()
      modifies this`channels, this`txReg, this`rxReg, this`owned, this`failures, this`denied, this`slips
      ensures |channels| == |old(channels)| && failures >= old(failures) && denied >= old(denied)
      ensures slips == old(slips) || (slips == old(slips) + 1 && failures != old(failures))
      ensures ok <==> i < |channels| && denied == old(denied) && failures == old(failures) && old(Reg(i)) == FREE
      ensures Stopped(i, old(channels)) || denied != old(denied) ==> Valid() && StaysWrong(old(Now()), Now(), nbReceive)
      ensures ok ==> channels[i] != NO_CHANNEL && Reg(i) == channels[i]
      ensures ok ==> if i < nbReceive then txReg == channels[i] && rxReg == old(rxReg)
                     else rxReg == channels[i] && txReg == old(txReg)
      ensures ok ==> channels == old(channels)[i := channels[i]] && owned == old(owned) + {channels[i]}
      ensures !ok && Stopped(i, old(channels)) ==> channels == old(channels) && owned == old(owned)
      ensures !ok && slips == old(slips) ==> txReg == old(txReg) && rxReg == old(rxReg)
      ensures slips != old(slips) && Stopped(i, old(channels)) ==>
        Reg(i) != FREE && Reg(i) !in channels && !RegistersRight()
      ensures !Stopped(i, old(channels)) && denied == old(denied) ==>
        old(channels)[i] in owned && old(channels)[i] !in channels
    {
      hide ConservedIn, RegistersIn, NamesStream, StaysWrong;
      ConservedParts(channels, owned, others);
      SameView(Now(), nbReceive);
      if i >= |channels| { return false; }
      ghost var was := Now();
      var isochannel := AllocateIsoChannel();
      if isochannel < 0 { return false; }
      FreshChannel(was.channels, old(owned), others, isochannel);
      if was.channels[i] == NO_CHANNEL {
        Allocating(was.channels, old(owned), others, i, isochannel);
      } else {
        Losing(was.channels, old(owned), others, i, isochannel);
      }
      channels := channels[i := isochannel];
      var good, reg := ReadReg(i);
      if !good || reg != FREE {
        ok := GiveUp(i, isochannel);
        assert was.channels[i] == NO_CHANNEL ==> channels == was.channels;
        return;
      }
      if was.channels[i] == NO_CHANNEL {
        Taking(was, nbReceive, i, isochannel);
        SlippedStart(was, nbReceive, i, isochannel);
      }
      good := WriteReg(i, isochannel);
      if !good {
        ok := GiveUp(i, isochannel);
        assert was.channels[i] == NO_CHANNEL ==> channels == was.channels;
        return;
      }
      if was.channels[i] == NO_CHANNEL && slips != 0 { WrongForGood(was, Now(), nbReceive); }
      return true;
    }

    method GiveUp(i: nat, isochannel: int) returns (ok: bool)
      requires i < |channels|
      modifies this`channels, this`owned
      ensures !ok && channels == old(channels)[i := NO_CHANNEL] && owned == old(owned) - {isochannel}
    {
      channels := channels[i := NO_CHANNEL];
      var _ := FreeIsoChannel(isochannel);
      ok := false;
    }

    /** Stopping succeeds exactly when the stream has a channel, the register names it and can be
        accessed; then the channel is given back. A failed stop leaves channels and allocations, and
        the registers too unless its write slips; then the register is free and the stream stranded. */
    method StopStreamByIndex(i: nat) returns (ok: bool)
      requires Valid()
      modifies this`channels, this`txReg, this`rxReg, this`owned, this`failures, this`slips
      ensures Valid() && |channels| == |old(channels)| && failures >= old(failures)
      ensures slips == old(slips) || (slips == old(slips) + 1 && failures != old(failures))
      ensures StaysWrong(old(Now()), Now(), nbReceive)
      ensures ok <==> i < |channels| && failures == old(failures) && old(Reg(i)) == old(channels)[i] != NO_CHANNEL
      ensures ok ==> channels == old(channels)[i := NO_CHANNEL]
      ensures ok ==> Reg(i) == FREE && owned == old(owned) - {old(channels)[i]}
      ensures ok ==> if i < nbReceive then txReg == 0xffff_ffff && rxReg == old(rxReg)
                     else rxReg == 0xffff_ffff && txReg == old(txReg)
      ensures !ok ==> channels == old(channels) && owned == old(owned)
      ensures !ok && slips == old(slips) ==> txReg == old(txReg) && rxReg == old(rxReg)
      ensures slips != old(slips) ==>
        i < |channels| && Reg(i) == FREE && channels[i] != NO_CHANNEL && !RegistersRight()
    {
      hide RegistersIn, NamesStream, StaysWrong;
      SameView(Now(), nbReceive);
      if i >= |channels| { return false; }
      ghost var was := Now();
      var isochannel := channels[i];
      var good, reg := ReadReg(i);
      if !good { return false; }
      if reg != Unsigned(isochannel) { return false; }
      if isochannel != NO_CHANNEL {
        Giving(was, nbReceive, i);
        SlippedStop(was, nbReceive, i);
      }
      good := WriteReg(i, FREE);
      if !good { return false; }
      good := FreeIsoChannel(isochannel);
      if !good { return false; }
      Releasing(channels, old(owned), others, i);
      channels := channels[i := NO_CHANNEL];
      if slips != 0 { WrongForGood(was, Now(), nbReceive); }
      return true;
    }

    /** Other hosts come and go. */
    method OthersAct()
      requires Valid()
      modifies this`others
      ensures Valid()
    {
      var now: set<int> := *;
      others := now - owned;
    }

    /** Every run that starts only stopped streams keeps the accounting right. Once a register is wrong
        it stays so in the same way, whatever is tried; and a run without failures and denials on right
        registers ends with exactly those streams running that the operations ask for, one for each
        direction at a time. */
    method Run(ops: seq<Op>)
      requires Valid()
      modifies this
      ensures Valid() && StaysWrong(old(Now()), Now(), nbReceive)
      ensures |channels| == |old(channels)| && failures >= old(failures) && denied >= old(denied) && slips >= old(slips)
      ensures failures == old(failures) ==> slips == old(slips)
      ensures failures == old(failures) && denied == old(denied) && old(slips) == 0 ==>
        OnAir(channels) == Asked(old(OnAir(channels)), nbReceive, ops)
    {
      hide ConservedIn, RegistersIn, StaysWrong, OnAir, Asked;
      ghost var was, on := Now(), OnAir(channels);
      SameView(was, nbReceive);
      assert ops[..0] == [];
      AskedNothing(on, nbReceive);
      for k := 0 to |ops|
        invariant Valid() && StaysWrong(was, Now(), nbReceive) && |channels| == |was.channels|
        invariant failures >= old(failures) && denied >= old(denied) && slips >= old(slips)
        invariant failures == old(failures) ==> slips == old(slips)
        invariant failures == old(failures) && denied == old(denied) && old(slips) == 0 ==>
          OnAir(channels) == Asked(on, nbReceive, ops[..k])
      {
        ghost var before := Now();
        Do(ops[k]);
        StaysWrongTransitive(was, before, Now(), nbReceive);
        AskedMore(on, nbReceive, ops, k);
      }
      assert ops[..|ops|] == ops;
    }

    /** One operation; a running stream is not started again. */
    method Do(op: Op)
      requires Valid()
      modifies this
      ensures Valid() && StaysWrong(old(Now()), Now(), nbReceive) && |channels| == |old(channels)|
      ensures failures >= old(failures) && denied >= old(denied) && slips >= old(slips)
      ensures failures == old(failures) ==> slips == old(slips)
      ensures failures == old(failures) && denied == old(denied) && slips == 0 ==>
        OnAir(channels) == After(old(OnAir(channels)), nbReceive, op)
    {
      hide ConservedIn, RegistersIn, StaysWrong;
      ghost var was := Now();
      SameView(was, nbReceive);
      ConservedParts(channels, owned, others);
      if slips == 0 && !op.Elsewhere? && op.i < |channels| { OnAirRegister(was, nbReceive, op); }
      match op
      case Start(i) =>
        if i >= |channels| || channels[i] == NO_CHANNEL { var _ := StartStreamByIndex(i); }
      case Stop(i) => var _ := StopStreamByIndex(i);
      case Elsewhere => OthersAct();
    }
  }

  /** Which streams run. */
  function OnAir(channels: seq<int>): (on: seq<bool>)
    ensures |on| == |channels|
  {
    seq(|channels|, i requires 0 <= i < |channels| => channels[i] != NO_CHANNEL)
  }

  predicate Idle(on: seq<bool>, nb: nat, receive: bool) {
    forall k :: 0 <= k < |on| && (k < nb) == receive ==> !on[k]
  }

  /** What an operation asks for: a start is heeded if nothing of its direction runs. */
  function After(on: seq<bool>, nb: nat, op: Op): (r: seq<bool>)
    ensures |r| == |on|
  {
    match op
    case Start(i) => if i < |on| && Idle(on, nb, i < nb) then on[i := true] else on
    case Stop(i) => if i < |on| then on[i := false] else on
    case Elsewhere => on
  }

  function Asked(on: seq<bool>, nb: nat, ops: seq<Op>): (r: seq<bool>)
    ensures |r| == |on|
    decreases |ops|
  {
    if ops == [] then on else After(Asked(on, nb, ops[..|ops| - 1]), nb, ops[|ops| - 1])
  }

  lemma AskedNothing(on: seq<bool>, nb: nat)
    ensures Asked(on, nb, []) == on
  {}

  lemma AskedMore(on: seq<bool>, nb: nat, ops: seq<Op>, k: nat)
    requires k < |ops|
    ensures Asked(on, nb, ops[..k + 1]) == After(Asked(on, nb, ops[..k]), nb, ops[k])
  {
    assert ops[..k + 1][..k] == ops[..k];
  }

  /** With right registers, a register is free exactly if nothing of its direction runs, and names every
      stream that does. */
  lemma OnAirRegister(v: View, nb: nat, op: Op)
    requires RegistersIn(v, nb) && InRange(v) && !op.Elsewhere? && op.i < |v.channels|
    ensures v.Reg(op.i < nb) == FREE <==> Idle(OnAir(v.channels), nb, op.i < nb)
    ensures v.channels[op.i] != NO_CHANNEL ==> v.Reg(op.i < nb) == v.channels[op.i]
  {
    var receive := op.i < nb;
    assert Right(v, nb, receive);
    assert !Stranded(v, nb, op.i);
    if v.Reg(receive) != FREE {
      var k :| v.Running(k) && (k < nb) == receive && v.channels[k] == v.Reg(receive);
      assert OnAir(v.channels)[k];
    }
    forall k | 0 <= k < |v.channels| && (k < nb) == receive && OnAir(v.channels)[k] ensures v.Reg(receive) != FREE {
      assert !Stranded(v, nb, k);
    }
  }

  lemma SameView(v: View, nb: nat)
    ensures StaysWrong(v, v, nb)
  {}

  lemma FreshChannel(channels: seq<int>, owned: set<int>, others: set<int>, c: int)
    requires ConservedIn(channels, owned, others) && c !in owned && c != NO_CHANNEL
    ensures c !in channels
  {}

  datatype Op = Start(i: nat) | Stop(i: nat) | Elsewhere
}
