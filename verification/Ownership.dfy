/** Ownership of a DICE device: a 64-bit register every host on the bus compare-and-swaps. The steps
    of the hosts interleave freely; a bus transaction may fail before or after it took effect. */
module Ownership {
  import opened Basics

  const NODE_SHIFT := 0x1_0000_0000_0000
  const NO_OWNER := 0xffff * NODE_SHIFT

  type NodeId = n: int | 0 <= n < 63
  type Address = a: int | 0 <= a < NODE_SHIFT

  /** The owner value of a host: its bus and node number above the address of its notifier. */
  function OwnerValue(node: NodeId, notifier: Address): (v: int) {
    (0xffc0 + node) * NODE_SHIFT + notifier
  }

  lemma OwnerValueInjective(n: NodeId, a: Address, m: NodeId, b: Address)
    ensures OwnerValue(n, a) == OwnerValue(m, b) <==> n == m && a == b
    ensures OwnerValue(n, a) != NO_OWNER
  {}

  /** The top sixteen bits are 0xffc0 with the node number, the rest the address; no owner is 0xffff
      above zeros. */
  lemma OwnerValueFields(n: NodeId, a: Address)
    ensures OwnerValue(n, a) / 0x1_0000_0000_0000 == 0xffc0 + n && OwnerValue(n, a) % 0x1_0000_0000_0000 == a
    ensures OwnerValue(n, a) < 0xffff_0000_0000_0000 == NO_OWNER
  {}

  datatype Transport = Works | RequestLost | ReplyLost

  /** Compare and swap in the device, seen from a host: the new register and the reported old value. */
  function CompareSwap(owner: int, compare: int, swap: int, t: Transport): (r: (int, Option<int>)) {
    var swapped := if owner == compare then swap else owner;
    match t
    case Works => (swapped, Some(owner))
    case ReplyLost => (swapped, None)
    case RequestLost => (owner, None)
  }

  /** One host: its notifier, whether a lock is under way, and the value it locked with, until it
      asks the device for release. */
  datatype Host = Host(notifier: Option<Address>, locking: bool, held: Option<int>)

  datatype State = State(owner: int, hosts: map<NodeId, Host>)

  datatype Arm = NoFreeBlock | NotRegistered | Registered(addr: Address)

  datatype Step =
    | BeginLock(h: NodeId, arm: Arm)
    | SwapOwner(h: NodeId, t: Transport)
    | Unlock(h: NodeId, t: Transport)

  predicate Enabled(s: State, step: Step) {
    step.h in s.hosts &&
    match step
    case BeginLock(h, _) => !s.hosts[h].locking
    case SwapOwner(h, _) => s.hosts[h].locking && s.hosts[h].notifier.Some?
    case Unlock(h, _) => !s.hosts[h].locking
  }

  /** The first half of lock: the notifier is overwritten, whatever it was. */
  function AfterArm(host: Host, arm: Arm): (r: Host) {
    match arm
    case NoFreeBlock => host
    case NotRegistered => host.(notifier := None)
    case Registered(addr) => host.(notifier := Some(addr), locking := true)
  }

  /** Lock succeeds if the register was free or already held this very value. */
  function AfterSwap(host: Host, value: int, reported: Option<int>): (r: Host) {
    var locked := reported.Some? && (reported.value == NO_OWNER || reported.value == value);
    host.(locking := false, held := if locked then Some(value) else host.held)
  }

  function Next(s: State, step: Step): (s': State)
    requires Enabled(s, step)
  {
    var host := s.hosts[step.h];
    match step
    case BeginLock(h, arm) => s.(hosts := s.hosts[h := AfterArm(host, arm)])
    case SwapOwner(h, t) =>
      var value := OwnerValue(h, host.notifier.value);
      var (owner, reported) := CompareSwap(s.owner, NO_OWNER, value, t);
      State(owner, s.hosts[h := AfterSwap(host, value, reported)])
    case Unlock(h, t) =>
      if host.notifier.None? then s
      else
        var value := OwnerValue(h, host.notifier.value);
        var (owner, reported) := CompareSwap(s.owner, value, NO_OWNER, t);
        State(owner, s.hosts[h := Host(if reported.None? then host.notifier else None, false, None)])
  }

  function Run(s: State, steps: seq<Step>): (s': State)
    decreases |steps|
  {
    if steps == [] then s
    else
      var k := |steps| - 1;
      var before := Run(s, steps[..k]);
      if Enabled(before, steps[k]) then Next(before, steps[k]) else before
  }

  function Start(hosts: set<NodeId>): (s: State) {
    State(NO_OWNER, map h | h in hosts :: Host(None, false, None))
  }

  // ---- safety ----

  /** What a host holds is in the register and names that host. */
  ghost predicate HoldsOwner(s: State, h: NodeId) {
    h in s.hosts && s.hosts[h].held.Some? ==>
      s.owner == s.hosts[h].held.value && exists a: Address :: s.owner == OwnerValue(h, a)
  }

  ghost predicate Safe(s: State) {
    forall h: NodeId :: HoldsOwner(s, h)
  }

  lemma OneHolder(s: State, h: NodeId, k: NodeId)
    requires Safe(s) && h in s.hosts && k in s.hosts && s.hosts[h].held.Some? && s.hosts[k].held.Some?
    ensures h == k
  {
    assert HoldsOwner(s, h) && HoldsOwner(s, k);
    var a: Address :| s.owner == OwnerValue(h, a);
    var b: Address :| s.owner == OwnerValue(k, b);
    OwnerValueInjective(h, a, k, b);
  }

  /** No step of one host touches the register while another host holds the device. */
  lemma NoEviction(s: State, step: Step, h: NodeId)
    requires Safe(s) && Enabled(s, step) && step.h != h && h in s.hosts && s.hosts[h].held.Some?
    ensures Next(s, step).owner == s.owner && Next(s, step).hosts[h] == s.hosts[h]
  {
    assert HoldsOwner(s, h);
    var a: Address :| s.owner == OwnerValue(h, a);
    var n := s.hosts[step.h].notifier;
    if n.Some? { OwnerValueInjective(h, a, step.h, n.value); }
    OwnerValueInjective(h, a, h, a);
  }

  lemma StepSafe(s: State, step: Step)
    requires Safe(s) && Enabled(s, step)
    ensures Safe(Next(s, step))
  {
    var s', g := Next(s, step), step.h;
    forall h: NodeId ensures HoldsOwner(s', h) {
      assert HoldsOwner(s, h);
      if h == g {
        var n := s.hosts[g].notifier;
        if n.Some? {
          OwnerValueInjective(g, n.value, g, n.value);
          assert step.SwapOwner? ==> s'.owner == s.owner || s'.owner == OwnerValue(g, n.value);
        }
        OwnStep(s, step);
      } else if h in s.hosts && s.hosts[h].held.Some? {
        NoEviction(s, step, h);
      }
    }
  }

  lemma OwnStep(s: State, step: Step)
    requires Safe(s) && Enabled(s, step)
    ensures HoldsOwner(Next(s, step), step.h)
  {
    var g, host, s' := step.h, s.hosts[step.h], Next(s, step);
    assert HoldsOwner(s, g);
    if host.notifier.Some? {
      var v := OwnerValue(g, host.notifier.value);
      OwnerValueInjective(g, host.notifier.value, g, host.notifier.value);
      if host.held.Some? {
        var a: Address :| s.owner == OwnerValue(g, a);
        OwnerValueInjective(g, a, g, host.notifier.value);
      }
    }
  }

  /** Over every interleaving from the start, at most one host holds the device, and it is the one
      the register names. */
  lemma {:induction false} RunSafe(hosts: set<NodeId>, steps: seq<Step>)
    ensures Safe(Run(Start(hosts), steps))
    decreases |steps|
  {
    if steps != [] {
      var k := |steps| - 1;
      RunSafe(hosts, steps[..k]);
      var before := Run(Start(hosts), steps[..k]);
      if Enabled(before, steps[k]) { StepSafe(before, steps[k]); }
    }
  }

  /** A lock attempt whose reply arrives ends with the host holding the value it tried exactly when the
      register was free or had that value already; so a holder that tries another value fails. */
  lemma LockSucceeds(s: State, h: NodeId)
    requires Safe(s) && Enabled(s, SwapOwner(h, Works))
    ensures var value := OwnerValue(h, s.hosts[h].notifier.value);
      Next(s, SwapOwner(h, Works)).hosts[h].held == Some(value) <==> s.owner == NO_OWNER || s.owner == value
  {
    assert HoldsOwner(s, h);
  }

  /** A holder's unlock frees the register exactly when its notifier is still the one it locked
      with. */
  lemma UnlockFrees(s: State, h: NodeId)
    requires Safe(s) && Enabled(s, Unlock(h, Works)) && s.hosts[h].held.Some?
    ensures Next(s, Unlock(h, Works)).owner == NO_OWNER <==>
      s.hosts[h].notifier.Some? && s.hosts[h].held.value == OwnerValue(h, s.hosts[h].notifier.value)
  {
    assert HoldsOwner(s, h);
    var a: Address :| s.owner == OwnerValue(h, a);
    var n := s.hosts[h].notifier;
    OwnerValueInjective(h, a, h, if n.Some? then n.value else a);
  }

  // ---- the register can get stuck ----

  /** The register names this host with an address that is not its notifier's. */
  predicate Stuck(s: State, h: NodeId, a: Address) {
    h in s.hosts && s.owner == OwnerValue(h, a) && s.hosts[h].notifier != Some(a)
  }

  /** While the register names a host, whether it knows that it holds the device or not, a lock of that
      host with another notifier never succeeds and leaves the register stuck, however the transaction
      ends; so does one that fails to register its notifier. */
  lemma SecondLockSticks(s: State, h: NodeId, a: Address, b: Address, t: Transport)
    requires h in s.hosts && !s.hosts[h].locking && s.owner == OwnerValue(h, a) && b != a
    ensures var s1 := Next(s, BeginLock(h, Registered(b)));
      var s2 := Next(s1, SwapOwner(h, t));
      Stuck(s1, h, a) && Stuck(s2, h, a) && s2.hosts[h] == s.hosts[h].(notifier := Some(b))
    ensures Stuck(Next(s, BeginLock(h, NotRegistered)), h, a)
  {
    OwnerValueInjective(h, a, h, b);
  }

  /** Only this host, registering the old address again, can get a stuck register unstuck. */
  lemma StuckStep(s: State, step: Step, h: NodeId, a: Address)
    requires Stuck(s, h, a) && Enabled(s, step) && step != BeginLock(h, Registered(a))
    ensures Stuck(Next(s, step), h, a)
  {
    OwnerValueInjective(h, a, h, a);
    var n := s.hosts[step.h].notifier;
    if n.Some? { OwnerValueInjective(h, a, step.h, n.value); }
  }

  /** No run frees a stuck register, whatever all hosts do, unless it registers the old address. */
  lemma {:induction false} StuckRun(s: State, steps: seq<Step>, h: NodeId, a: Address)
    requires Stuck(s, h, a) && BeginLock(h, Registered(a)) !in steps
    ensures Stuck(Run(s, steps), h, a)
    decreases |steps|
  {
    if steps != [] {
      var k := |steps| - 1;
      StuckRun(s, steps[..k], h, a);
      var before := Run(s, steps[..k]);
      assert steps[k] in steps;
      if Enabled(before, steps[k]) { StuckStep(before, steps[k], h, a); }
    }
  }

  /** Registering the old address again, locking and unlocking frees it. */
  lemma OldAddressFrees(s: State, h: NodeId, a: Address)
    requires h in s.hosts && s.owner == OwnerValue(h, a) && !s.hosts[h].locking
    ensures Run(s, [BeginLock(h, Registered(a)), SwapOwner(h, Works), Unlock(h, Works)]).owner == NO_OWNER
  {
    hide Run, OwnerValue;
    var b1, b2, b3 := BeginLock(h, Registered(a)), SwapOwner(h, Works), Unlock(h, Works);
    OwnerValueInjective(h, a, h, a);
    var s1 := Next(s, b1);
    var s2 := Next(s1, b2);
    RunNothing(s);
    RunTo(s, [], b1, s, s1);
    assert [] + [b1] == [b1];
    RunTo(s, [b1], b2, s1, s2);
    assert [b1] + [b2] == [b1, b2];
    RunTo(s, [b1, b2], b3, s2, Next(s2, b3));
    assert [b1, b2] + [b3] == [b1, b2, b3];
  }

  /** One such run: locking twice and unlocking leaves the register taken with nobody holding it. */
  lemma SecondLockLosesTheDevice()
    ensures var h: NodeId := 1;
      var steps := [BeginLock(h, Registered(0x100)), SwapOwner(h, Works), BeginLock(h, Registered(0x200)),
                    SwapOwner(h, Works), Unlock(h, Works)];
      Run(Start({h}), steps) == State(OwnerValue(h, 0x100), map[h := Host(None, false, None)])
  {
    hide Run, OwnerValue;
    var h: NodeId := 1;
    var b1, b2, b3, b4, b5 := BeginLock(h, Registered(0x100)), SwapOwner(h, Works), BeginLock(h, Registered(0x200)),
                              SwapOwner(h, Works), Unlock(h, Works);
    var v, s0 := OwnerValue(h, 0x100), Start({h});
    OwnerValueInjective(h, 0x100, h, 0x200);
    OwnerValueInjective(h, 0x200, h, 0x100);
    RunNothing(s0);
    var s1 := State(NO_OWNER, map[h := Host(Some(0x100), true, None)]);
    RunTo(s0, [], b1, s0, s1);
    assert [] + [b1] == [b1];
    var s2 := State(v, map[h := Host(Some(0x100), false, Some(v))]);
    RunTo(s0, [b1], b2, s1, s2);
    assert [b1] + [b2] == [b1, b2];
    var s3 := State(v, map[h := Host(Some(0x200), true, Some(v))]);
    RunTo(s0, [b1, b2], b3, s2, s3);
    assert [b1, b2] + [b3] == [b1, b2, b3];
    var s4 := State(v, map[h := Host(Some(0x200), false, Some(v))]);
    RunTo(s0, [b1, b2, b3], b4, s3, s4);
    assert [b1, b2, b3] + [b4] == [b1, b2, b3, b4];
    RunTo(s0, [b1, b2, b3, b4], b5, s4, State(v, map[h := Host(None, false, None)]));
    assert [b1, b2, b3, b4] + [b5] == [b1, b2, b3, b4, b5];
  }

  lemma RunNothing(s: State)
    ensures Run(s, []) == s
  {}

  lemma RunTo(s: State, steps: seq<Step>, step: Step, before: State, after: State)
    requires Run(s, steps) == before && Enabled(before, step) && Next(before, step) == after
    ensures Run(s, steps + [step]) == after
  {
    assert (steps + [step])[..|steps|] == steps;
  }

  // ---- the driver's two operations, each one run of steps of its host ----

  class OwnerRegister {
    var owner: int

    method LockCompareSwap64(compare: int, swap: int, t: Transport) returns (ok: bool, result: int)
      modifies this
      ensures (owner, if ok then Some(result) else None) == CompareSwap(old(owner), compare, swap, t)
    {
      result := owner;
      ok := t.Works?;
      if !t.RequestLost? && owner == compare { owner := swap; }
    }
  }

  class Device {
    const node: NodeId
    var notifier: Option<Address>

    constructor (n: NodeId)
      ensures node == n && notifier == None
    {
      node, notifier := n, None;
    }

    /** This host as part of a state of the whole bus, between two operations. */
    ghost predicate Shows(s: State, reg: OwnerRegister)
      reads this, reg
    {
      && node in s.hosts && !s.hosts[node].locking
      && s.owner == reg.owner && s.hosts[node].notifier == notifier
    }

    /** The two steps of this host, wherever the rest of the bus is; arm and t say how the search for a
        notifier and the bus transaction end. True exactly when the swap reported that the register was
        free or had this value, and then the host holds the device with it. */
    method Lock(reg: OwnerRegister, arm: Arm, t: Transport, ghost s: State) returns (ok: bool)
      requires Shows(s, reg)
      modifies this, reg
      ensures Shows(Run(s, [BeginLock(node, arm), SwapOwner(node, t)]), reg)
      ensures ok <==> arm.Registered? && t.Works? && old(reg.owner) in {NO_OWNER, OwnerValue(node, arm.addr)}
      ensures ok ==> Run(s, [BeginLock(node, arm), SwapOwner(node, t)]).hosts[node].held == Some(reg.owner)
    {
      hide Run, OwnerValue;
      LockRun(s, node, arm, t);
      if arm.NoFreeBlock? { return false; }
      if arm.NotRegistered? { notifier := None; return false; }
      notifier := Some(arm.addr);
      var swapValue := OwnerValue(node, arm.addr);
      var good, result := reg.LockCompareSwap64(NO_OWNER, swapValue, t);
      if !good { return false; }
      ok := result == NO_OWNER || result == swapValue;
    }

    /** The one step of this host; the notifier goes exactly when a reply arrived. */
    method Unlock(reg: OwnerRegister, t: Transport, ghost s: State) returns (ok: bool)
      requires Shows(s, reg)
      modifies this, reg
      ensures Shows(Run(s, [Step.Unlock(node, t)]), reg)
      ensures ok <==> old(notifier).Some? && t.Works?
      ensures notifier == if ok then None else old(notifier)
    {
      hide Run, OwnerValue;
      UnlockRun(s, node, t);
      if notifier.None? { return false; }
      var good, result := reg.LockCompareSwap64(OwnerValue(node, notifier.value), NO_OWNER, t);
      if !good { return false; }
      notifier := None;
      ok := true;
    }
  }

  lemma RunMore(s: State, steps: seq<Step>, step: Step)
    ensures var before := Run(s, steps);
      Run(s, steps + [step]) == if Enabled(before, step) then Next(before, step) else before
  {
    hide Next, Enabled;
    assert (steps + [step])[..|steps|] == steps;
  }

  lemma BeginLockHost(s: State, h: NodeId, arm: Arm, t: Transport)
    requires h in s.hosts && !s.hosts[h].locking
    ensures Enabled(Next(s, BeginLock(h, arm)), SwapOwner(h, t)) <==> arm.Registered?
  {}

  lemma LockRun(s: State, h: NodeId, arm: Arm, t: Transport)
    requires h in s.hosts && !s.hosts[h].locking
    ensures var s1 := Next(s, BeginLock(h, arm));
      Run(s, [BeginLock(h, arm), SwapOwner(h, t)]) == if arm.Registered? then Next(s1, SwapOwner(h, t)) else s1
  {
    hide Next, Run;
    var begin, swap := BeginLock(h, arm), SwapOwner(h, t);
    RunNothing(s);
    RunMore(s, [], begin);
    assert [] + [begin] == [begin];
    RunMore(s, [begin], swap);
    assert [begin] + [swap] == [begin, swap];
    BeginLockHost(s, h, arm, t);
  }

  lemma UnlockRun(s: State, h: NodeId, t: Transport)
    requires h in s.hosts && !s.hosts[h].locking
    ensures Run(s, [Unlock(h, t)]) == Next(s, Unlock(h, t))
  {
    hide Next, Run;
    RunNothing(s);
    RunMore(s, [], Unlock(h, t));
    assert [] + [Unlock(h, t)] == [Unlock(h, t)];
  }
}
