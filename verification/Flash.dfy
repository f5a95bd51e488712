/** The Fireworks flash: chunked programming and reading, block erase with read-back. The device
    answers as it likes within what the comments on its commands say. */
module Flash {
  import opened Basics

  const WORD := 0x1_0000_0000
  const FLASH_SIZE_QUADS := 0x8_0000
  const MAINBLOCKS_BASE_OFFSET_BYTES := 0x1_0000
  const PROGRAMBLOCK_SIZE_BYTES := 0x2000
  const MAINBLOCK_SIZE_BYTES := 0x1_0000
  const EFC_FLASH_SIZE_BYTES := 256
  const EFC_FLASH_SIZE_QUADS := 64
  const ERASED: bv32 := 0xffff_ffff
  const READ_TRIES := 10000
  const ERASE_TRIES := 10
  const ERASE_TIMEOUT_MSECS := 2000

  function BlockSize(addr: nat): (size: nat) {
    if addr < MAINBLOCKS_BASE_OFFSET_BYTES then PROGRAMBLOCK_SIZE_BYTES else MAINBLOCK_SIZE_BYTES
  }

  /** Start of the erase block an address lies in. */
  function BlockStart(addr: nat): (start: nat) {
    addr - addr % BlockSize(addr)
  }

  predicate BlockAligned(addr: nat) { addr % BlockSize(addr) == 0 }

  /** Blocks tile the flash: the next block starts where this one ends, also across the change of
      block size. */
  lemma NextBlock(addr: nat)
    requires BlockAligned(addr)
    ensures BlockAligned(addr + BlockSize(addr)) && BlockStart(addr) == addr
    ensures BlockStart(addr + BlockSize(addr)) == addr + BlockSize(addr)
    ensures addr % 4 == 0 && BlockSize(addr) % 4 == 0
  {}

  /** Blocks of 8 KB below 64 KB and of 64 KB from there on. */
  lemma BlockLayout(addr: nat)
    ensures addr < 0x1_0000 ==> BlockStart(addr) == addr / 0x2000 * 0x2000 && BlockSize(addr) == 0x2000
    ensures addr >= 0x1_0000 ==> BlockStart(addr) == addr / 0x1_0000 * 0x1_0000 && BlockSize(addr) == 0x1_0000
  {}

  lemma StartAligned(addr: nat)
    ensures BlockStart(addr) <= addr < BlockStart(addr) + BlockSize(addr)
    ensures BlockAligned(BlockStart(addr)) && BlockSize(BlockStart(addr)) == BlockSize(addr)
  {}

  /** Programming one quadlet clears the bits that are clear in the data and sets none. */
  function Program(was: bv32, data: bv32): (q: bv32) { was & data }

  lemma ProgramErased(data: bv32)
    ensures Program(ERASED, data) == data
  {}

  function Programmed(flash: seq<bv32>, base: nat, data: seq<bv32>): (r: seq<bv32>)
    ensures |r| == |flash|
  {
    seq(|flash|, i requires 0 <= i < |flash| =>
      if base <= i < base + |data| then Program(flash[i], data[i - base]) else flash[i])
  }

  lemma ProgrammedNothing(flash: seq<bv32>, base: nat)
    ensures Programmed(flash, base, []) == flash
  {}

  lemma ProgrammedTwice(flash: seq<bv32>, base: nat, a: seq<bv32>, b: seq<bv32>)
    ensures Programmed(Programmed(flash, base, a), base + |a|, b) == Programmed(flash, base, a + b)
  {}

  lemma SameOutsideWider(f: seq<bv32>, g: seq<bv32>, h: seq<bv32>, base: nat, len: nat, b: nat, n: nat)
    requires SameOutside(f, g, b, n) && SameOutside(g, h, base, len) && base <= b && b + n <= base + len
    ensures SameOutside(f, h, base, len)
  {}

  lemma ProgrammedFrame(f: seq<bv32>, base: nat, data: seq<bv32>, len: nat)
    requires |data| <= len
    ensures SameOutside(Programmed(f, base, data), f, base, len)
  {}

  datatype EraseStatus = Erased | Busy | Failed

  function Sum(xs: seq<nat>): (sum: nat) {
    if xs == [] then 0 else Sum(xs[..|xs| - 1]) + xs[|xs| - 1]
  }

  /** No chunk of a read used up all its commands. */
  predicate InTime(spent: seq<nat>) {
    forall k :: 0 <= k < |spent| ==> spent[k] <= 10000
  }

  lemma SpendNothing()
    ensures Sum([]) == 0 && InTime([])
  {}

  lemma SpendMore(spent: seq<nat>, n: nat)
    ensures Sum(spent + [n]) == Sum(spent) + n
    ensures InTime(spent + [n]) <==> InTime(spent) && n <= READ_TRIES
  {
    assert (spent + [n])[..|spent|] == spent;
    assert (spent + [n])[|spent|] == n;
    assert forall k :: 0 <= k < |spent| ==> (spent + [n])[k] == spent[k];
  }

  /** What the commands sent so far answered. */
  class Trace {
    /** Commands that failed. */
    ghost var failures: nat
    ghost var readCommands: nat
    ghost var polls: nat
    /** The last status answer: ready or not, None if the command failed. */
    ghost var status: Option<bool>
  }

  class Device {
    var flash: seq<bv32>
    const trace: Trace
    var locked: bool
    const hasDSP: bool
    /** Whether every successful flash read answers at least one quadlet. */
    const responsive: bool
    /** Whether an erase command that does not fail leaves its block erased and the flash ready. */
    const erasesWell: bool
    const sessionBase: nat
    /** Whether an erase or program command was ever sent without the flash lock it needs. */
    ghost var exposed: bool
    /** Erase commands sent so far, and those of them that failed. */
    ghost var erases: nat
    ghost var erasesFailed: nat
    /** Lock and unlock commands sent so far. */
    ghost var lockCommands: nat

    ghost predicate Valid()
      reads this
    {
      |flash| == FLASH_SIZE_QUADS && sessionBase < WORD
    }

    constructor (contents: seq<bv32>, dsp: bool, answersReads: bool, erasesBlocks: bool, base: nat)
      requires |contents| == FLASH_SIZE_QUADS && base < WORD
      ensures Valid() && flash == contents && !locked && !exposed && fresh(trace)
      ensures hasDSP == dsp && responsive == answersReads && erasesWell == erasesBlocks && sessionBase == base
    {
      flash, locked, hasDSP, sessionBase := contents, false, dsp, base;
      responsive, erasesWell := answersReads, erasesBlocks;
      exposed, erases, erasesFailed, lockCommands := false, 0, 0, 0;
      trace := new Trace;
    }

    ghost predicate Guarded()
      reads this
    {
      hasDSP || locked
    }

    ghost function Quads(addr: nat, len: nat): (q: seq<bv32>)
      requires addr % 4 == 0 && addr / 4 + len <= |flash|
      reads this
    {
      flash[addr / 4..addr / 4 + len]
    }

    ghost predicate Unpolled(polls: nat, status: Option<bool>)
      reads trace
    {
      trace.polls == polls && trace.status == status
    }

    // ---- commands ----

    /** May fail; answers a prefix of what was asked for. */
    method ReadCommand(addr: nat, nb: nat) returns (ok: bool, data: seq<bv32>)
      requires Valid() && addr % 4 == 0
      modifies trace
      ensures ok ==> addr / 4 + nb <= |flash| && |data| <= nb && data == Quads(addr, |data|)
      ensures trace.readCommands == old(trace.readCommands) + 1 && Unpolled(old(trace.polls), old(trace.status))
      ensures ok <==> trace.failures == old(trace.failures)
      ensures !ok ==> trace.failures == old(trace.failures) + 1
      ensures ok && responsive && nb > 0 ==> |data| > 0
    {
      ok := *;
      data := [];
      if addr / 4 + nb > |flash| { ok := false; }
      trace.readCommands := trace.readCommands + 1;
      if !ok { trace.failures := trace.failures + 1; }
      if ok {
        var n: int := *;
        n := if n < 0 then 0 else if n > nb then nb else n;
        n := if responsive && nb > 0 && n == 0 then 1 else n;
        data := flash[addr / 4..addr / 4 + n];
      }
    }

    /** A failed command leaves the addressed quadlets in an unknown state. */
    method WriteCommand(addr: nat, data: seq<bv32>) returns (ok: bool)
      requires Valid() && addr % 4 == 0
      modifies this`flash, this`exposed, trace
      ensures Valid() && SameOutside(flash, old(flash), addr / 4, |data|)
      ensures exposed == (old(exposed) || !Guarded())
      ensures trace.failures == old(trace.failures) + if ok then 0 else 1
      ensures ok ==> addr / 4 + |data| <= |flash| && flash == Programmed(old(flash), addr / 4, data)
    {
      ok := *;
      exposed := exposed || !Guarded();
      var base, was := addr / 4, flash;
      if base + |data| > |flash| { ok := false; }
      if !ok { trace.failures := trace.failures + 1; }
      if base + |data| > |flash| { return; }
      var mess: seq<bv32> := *;
      if ok || |mess| != |data| {
        flash := Programmed(was, base, data);
      } else {
        flash := was[..base] + mess + was[base + |data|..];
      }
    }

    /** Whatever the status, only the addressed block changes, in general to an unknown state. */
    method EraseCommand(addr: nat) returns (status: EraseStatus)
      requires Valid() && addr % 4 == 0
      modifies this`flash, this`exposed, this`erases, this`erasesFailed, trace
      ensures Valid() && BlockOnly(flash, old(flash), addr) && erases == old(erases) + 1
      ensures erasesWell && !status.Failed? ==> BlockErased(flash, addr)
      ensures exposed == (old(exposed) || !Guarded())
      ensures trace.failures == old(trace.failures) + if status.Failed? then 1 else 0
      ensures erasesFailed == old(erasesFailed) + if status.Failed? then 1 else 0
      ensures Unpolled(old(trace.polls), old(trace.status))
    {
      status := *;
      exposed := exposed || !Guarded();
      if status.Failed? { trace.failures, erasesFailed := trace.failures + 1, erasesFailed + 1; }
      var was := flash;
      var mess: seq<bv32> := *;
      var lo, hi := BlockStart(addr), BlockStart(addr) + BlockSize(addr);
      erases := erases + 1;
      if erasesWell && !status.Failed? { mess := seq(|was|, _ => ERASED); }
      if |mess| == |was| {
        flash := seq(|was|, i requires 0 <= i < |was| => if lo <= 4 * i < hi then mess[i] else was[i]);
      }
    }

    method StatusCommand() returns (ok: bool, ready: bool)
      modifies trace
      ensures trace.polls == old(trace.polls) + 1 && trace.readCommands == old(trace.readCommands)
      ensures trace.status == if ok then Some(ready) else None
      ensures ok && erasesWell ==> ready
      ensures trace.failures == old(trace.failures) + if ok then 0 else 1
    {
      ok, ready := *, *;
      ready := ready || erasesWell;
      trace.polls, trace.status := trace.polls + 1, if ok then Some(ready) else None;
      if !ok { trace.failures := trace.failures + 1; }
    }

    // ---- driver ----

    /** The reported base address, or 0 when the command fails. */
    method GetSessionBase() returns (base: nat)
      modifies trace
      ensures base == if trace.failures == old(trace.failures) then sessionBase else 0
      ensures trace.failures >= old(trace.failures)
    {
      var ok: bool := *;
      if !ok { trace.failures := trace.failures + 1; }
      base := if ok then sessionBase else 0;
    }

    /** Devices with a DSP need no lock; on the others a failed command leaves either state. */
    method LockFlash(lock: bool) returns (ok: bool)
      modifies this`locked, this`lockCommands, trace
      ensures lockCommands == old(lockCommands) + if hasDSP then 0 else 1
      ensures ok ==> hasDSP || locked == lock
      ensures hasDSP ==> ok && locked == old(locked)
      ensures trace.failures >= old(trace.failures) && (ok <==> trace.failures == old(trace.failures))
    {
      if hasDSP { return true; }
      ok := *;
      locked := *;
      lockCommands := lockCommands + 1;
      if !ok { trace.failures := trace.failures + 1; }
      if ok { locked := lock; }
    }

    /** Succeeds exactly when the arguments make sense and no command fails. Then the flash is
        programmed with the buffer, whatever the chunking; nothing outside the range is ever touched. */
    method WriteFlash(start: nat, buffer: seq<bv32>) returns (ok: bool)
      requires Valid() && start < WORD && 4 * |buffer| < WORD
      modifies this`flash, this`exposed, trace
      ensures Valid() && SameOutside(flash, old(flash), start / 4, |buffer|)
      ensures Guarded() ==> exposed == old(exposed)
      ensures trace.failures >= old(trace.failures)
      ensures ok <==>
        trace.failures == old(trace.failures) && |buffer| > 0 && start + 4 * |buffer| < WORD && start % 4 == 0
      ensures ok ==> |buffer| > 0 && start % 4 == 0 && start / 4 + |buffer| <= |flash|
      ensures ok ==> flash == Programmed(old(flash), start / 4, buffer)
    {
      hide Programmed, SameOutside;
      ProgrammedNothing(flash, start / 4);
      ProgrammedFrame(flash, start / 4, [], |buffer|);
      if |buffer| == 0 || WORD - 1 - 4 * |buffer| < start { return false; }
      if start % 4 != 0 { return false; }
      var startAddr, stopAddr := start, start + 4 * |buffer|;
      var target := 0;
      ghost var was, base := flash, start / 4;
      assert buffer[..0] == [];
      while startAddr < stopAddr
        invariant Valid() && 0 <= target <= |buffer|
        invariant target < |buffer| ==> startAddr == start + 4 * target
        invariant target == |buffer| ==> startAddr >= stopAddr
        invariant target > 0 ==> base + target <= |flash|
        invariant flash == Programmed(was, base, buffer[..target])
        invariant Guarded() ==> exposed == old(exposed)
        invariant trace.failures == old(trace.failures)
        decreases stopAddr - startAddr
      {
        var quadsToWrite := (stopAddr - startAddr) / 4;
        if quadsToWrite > EFC_FLASH_SIZE_QUADS { quadsToWrite := EFC_FLASH_SIZE_QUADS; }
        assert startAddr / 4 == base + target;
        ghost var before := flash;
        ProgrammedFrame(was, base, buffer[..target], |buffer|);
        var sent := WriteCommand(startAddr, buffer[target..target + quadsToWrite]);
        SameOutsideWider(flash, before, was, base, |buffer|, base + target, quadsToWrite);
        if !sent { return false; }
        ProgrammedTwice(was, base, buffer[..target], buffer[target..target + quadsToWrite]);
        assert buffer[..target + quadsToWrite] == buffer[..target] + buffer[target..target + quadsToWrite];
        target := target + quadsToWrite;
        startAddr := startAddr + EFC_FLASH_SIZE_BYTES;
      }
      assert buffer[..target] == buffer;
      ProgrammedFrame(was, base, buffer, |buffer|);
      return true;
    }

    static method CopyContent(data: seq<bv32>, buffer: array<bv32>, target: nat)
      requires target + |data| <= buffer.Length
      modifies buffer
      ensures buffer[..] == Patch(old(buffer[..]), target, data)
    {
      for i := 0 to |data|
        invariant forall k :: 0 <= k < buffer.Length ==>
          buffer[k] == if target <= k < target + i then data[k - target] else old(buffer[k])
      {
        buffer[target + i] := data[i];
      }
    }

    /** One command of a chunk: whatever it answers extends what is already there. */
    method ReadMore(startAddr: nat, quadsToRead: nat, buffer: array<bv32>, ghost prefix: seq<bv32>, target: nat,
                    got: nat)
      returns (sent: bool, got': nat)
      requires Valid() && startAddr % 4 == 0 && got < quadsToRead && target + quadsToRead <= buffer.Length
      requires target == |prefix| && prefix <= buffer[..]
      requires got == 0 || Holds(flash, buffer[..], prefix, startAddr / 4, got)
      modifies buffer, trace
      ensures got <= got' <= quadsToRead && prefix <= buffer[..]
      ensures trace.readCommands == old(trace.readCommands) + 1 && (sent <==> trace.failures == old(trace.failures))
      ensures trace.failures >= old(trace.failures)
      ensures sent ==> Holds(flash, buffer[..], prefix, startAddr / 4, got') && startAddr / 4 + quadsToRead <= |flash|
      ensures sent && responsive ==> got' > got
      ensures Unpolled(old(trace.polls), old(trace.status))
    {
      hide Holds, Patch;
      got' := got;
      var data;
      sent, data := ReadCommand(startAddr + 4 * got, quadsToRead - got);
      if !sent { return; }
      HoldsMore(flash, buffer[..], prefix, startAddr / 4, got, data);
      CopyContent(data, buffer, target + got);
      got' := got + |data|;
    }

    /** One chunk of a read. Without a failed command the result code is right unless the data is
        still incomplete after the last of READ_TRIES + 1 commands (then it is true) or is completed
        by exactly that one (then it is false). */
    method ReadChunk(startAddr: nat, quadsToRead: nat, buffer: array<bv32>, target: nat) returns (ok: bool, got: nat)
      requires Valid() && startAddr % 4 == 0 && 0 < quadsToRead && target + quadsToRead <= buffer.Length
      modifies buffer, trace
      ensures got <= quadsToRead && 0 < trace.readCommands - old(trace.readCommands) <= READ_TRIES + 1
      ensures trace.failures >= old(trace.failures) && (trace.failures != old(trace.failures) ==> !ok)
      ensures Unpolled(old(trace.polls), old(trace.status))
      ensures trace.failures == old(trace.failures) ==>
        && startAddr / 4 + quadsToRead <= |flash| && Holds(flash, buffer[..], old(buffer[..target]), startAddr / 4, got)
        && (got == quadsToRead || trace.readCommands - old(trace.readCommands) == READ_TRIES + 1)
        && (ok <==> trace.readCommands - old(trace.readCommands) <= READ_TRIES || got < quadsToRead)
        && (responsive ==> trace.readCommands - old(trace.readCommands) <= got)
    {
      hide Holds;
      ghost var prefix, first := buffer[..target], trace.readCommands;
      var ntries: int := READ_TRIES;
      got := 0;
      var more := true;
      while more
        invariant got <= quadsToRead && prefix <= buffer[..]
        invariant trace.failures == old(trace.failures) && trace.readCommands >= first
        invariant Unpolled(old(trace.polls), old(trace.status))
        invariant trace.readCommands > first ==>
          Holds(flash, buffer[..], prefix, startAddr / 4, got) && startAddr / 4 + quadsToRead <= |flash|
        invariant got > 0 || !more ==> trace.readCommands > first
        invariant responsive ==> trace.readCommands - first <= got
        invariant more ==> got < quadsToRead && 0 <= ntries == READ_TRIES - (trace.readCommands - first)
        invariant !more && got == quadsToRead ==> 0 <= ntries == READ_TRIES + 1 - (trace.readCommands - first)
        invariant !more && got < quadsToRead ==> ntries == -1 && trace.readCommands - first == READ_TRIES + 1
        decreases more, ntries
      {
        var sent;
        sent, got := ReadMore(startAddr, quadsToRead, buffer, prefix, target, got);
        if !sent { return false, got; }
        if got < quadsToRead {
          more := ntries != 0;
          ntries := ntries - 1;
        } else {
          more := false;
        }
      }
      ok := ntries != 0;
    }

    /** spent counts the commands of each chunk, stored the quadlets put into the buffer. Success means
        every chunk was read without a failed command, but the buffer is full exactly if no chunk used
        up all its commands, and then it holds the flash contents. With arguments that make sense and
        no failed command it fails only if the last chunk was completed by the very last command. A
        responsive device never lets either happen. */
    method ReadFlash(start: nat, len: nat, buffer: array<bv32>)
      returns (ok: bool, ghost spent: seq<nat>, ghost stored: nat)
      requires Valid() && start < WORD && 4 * len < WORD && len <= buffer.Length
      modifies buffer, trace
      ensures trace.failures >= old(trace.failures) && Sum(spent) == trace.readCommands - old(trace.readCommands)
      ensures Unpolled(old(trace.polls), old(trace.status))
      ensures ok ==> len > 0 && start % 4 == 0 && start / 4 + len <= |flash| && trace.failures == old(trace.failures)
      ensures ok ==> 64 * (|spent| - 1) < len <= 64 * |spent| && stored <= len
      ensures ok ==> (stored == len <==> InTime(spent))
      ensures ok && stored == len ==> buffer[..len] == Quads(start, len)
      ensures ok && responsive ==> InTime(spent)
      ensures !ok && trace.failures == old(trace.failures) && len > 0 && start + 4 * len < WORD && start % 4 == 0 ==>
        !responsive && spent != [] && spent[|spent| - 1] == 10001
    {
      hide Holds, Sum, InTime;
      SpendNothing();
      spent, stored := [], 0;
      if len == 0 || WORD - 1 - 4 * len < start { return false, spent, stored; }
      if start % 4 != 0 { return false, spent, stored; }
      var startAddr, stopAddr, target := start, start + 4 * len, 0;
      ghost var done := 0;
      while startAddr < stopAddr
        invariant 0 <= target == stored <= done <= len
        invariant done < len ==> startAddr == start + 4 * done && done == EFC_FLASH_SIZE_QUADS * |spent|
        invariant done == len ==> startAddr >= stopAddr
        invariant done == len ==> EFC_FLASH_SIZE_QUADS * (|spent| - 1) < len <= EFC_FLASH_SIZE_QUADS * |spent|
        invariant done > 0 ==> start / 4 + done <= |flash|
        invariant trace.failures == old(trace.failures) && Unpolled(old(trace.polls), old(trace.status))
        invariant Sum(spent) == trace.readCommands - old(trace.readCommands)
        invariant target == done <==> InTime(spent)
        invariant responsive ==> InTime(spent)
        invariant target == done > 0 ==> buffer[..][..done] == flash[start / 4..start / 4 + done]
        decreases stopAddr - startAddr
      {
        var quadsToRead := (stopAddr - startAddr) / 4;
        if quadsToRead > EFC_FLASH_SIZE_QUADS { quadsToRead := EFC_FLASH_SIZE_QUADS; }
        assert buffer[..target] == buffer[..][..target];
        ghost var first := trace.readCommands;
        var good, got := ReadChunk(startAddr, quadsToRead, buffer, target);
        SpendMore(spent, trace.readCommands - first);
        spent := spent + [trace.readCommands - first];
        if !good { return false, spent, stored; }
        if target == done {
          assert startAddr / 4 == start / 4 + done;
          HoldsJoin(flash, buffer[..], start / 4, done, got);
        }
        target, stored := target + got, stored + got;
        done := done + quadsToRead;
        startAddr := startAddr + EFC_FLASH_SIZE_BYTES;
      }
      assert buffer[..len] == buffer[..][..len];
      return true, spent, stored;
    }

    /** Polls until the device is ready or a poll fails, at most msecs / 10 + 1 times; a device that
        gets ready on the very last poll is reported as timed out. */
    method WaitForFlash(msecs: nat) returns (ok: bool)
      modifies trace
      ensures 0 < trace.polls - old(trace.polls) <= msecs / 10 + 1
      ensures trace.status == Some(false) ==> trace.polls - old(trace.polls) == msecs / 10 + 1
      ensures ok <==> trace.status == Some(true) && trace.polls - old(trace.polls) <= msecs / 10
      ensures trace.failures == old(trace.failures) + if trace.status.None? then 1 else 0
      ensures erasesWell && trace.status.Some? && msecs >= 10 ==> ok
    {
      ghost var first := trace.polls;
      var waitCycles: int := msecs * 1000 / 10000;
      var isReady, more := false, true;
      while more
        invariant trace.failures == old(trace.failures)
        invariant more ==> 0 <= waitCycles == msecs / 10 - (trace.polls - first)
        invariant more ==> trace.polls >= first && (erasesWell ==> trace.polls == first)
        invariant !more && erasesWell ==> isReady && trace.polls == first + 1
        invariant !more ==> 0 < trace.polls - first <= msecs / 10 + 1 && trace.status == Some(isReady)
        invariant !more && isReady ==> 0 <= waitCycles == msecs / 10 + 1 - (trace.polls - first)
        invariant !more && !isReady ==> waitCycles == -1 && trace.polls - first == msecs / 10 + 1
        decreases more, waitCycles
      {
        var sent;
        sent, isReady := StatusCommand();
        if !sent { return false; }
        if !isReady {
          more := waitCycles != 0;
          waitCycles := waitCycles - 1;
        } else {
          more := false;
        }
      }
      if waitCycles == 0 { return false; }
      ok := isReady;
    }

    method EraseFlash(addr: nat) returns (ok: bool)
      requires Valid()
      modifies this`flash, this`exposed, this`erases, this`erasesFailed, trace
      ensures Valid() && BlockOnly(flash, old(flash), addr) && erases == old(erases) + if addr % 4 == 0 then 1 else 0
      ensures ok <==> addr % 4 == 0 && trace.failures == old(trace.failures)
      ensures addr % 4 == 0 ==> erasesFailed == old(erasesFailed) + if ok then 0 else 1
      ensures trace.failures >= old(trace.failures)
      ensures ok && erasesWell ==> BlockErased(flash, addr)
      ensures Guarded() ==> exposed == old(exposed)
      ensures Unpolled(old(trace.polls), old(trace.status))
    {
      if addr % 4 != 0 { return false; }
      var status := EraseCommand(addr);
      ok := !status.Failed?;
    }

    /** Erase one block and read quads of it back. */
    method EraseAndVerify(addr: nat, quads: nat) returns (success: bool, fatal: bool)
      requires Valid() && BlockAligned(addr) && 4 * quads <= BlockSize(addr) && addr < WORD
      modifies this`flash, this`exposed, this`erases, this`erasesFailed, trace
      ensures Valid() && BlockOnly(flash, old(flash), addr) && erases == old(erases) + 1
      ensures Guarded() ==> exposed == old(exposed)
      ensures trace.failures >= old(trace.failures) && (success ==> trace.failures == old(trace.failures))
      ensures erasesWell && responsive && 0 < quads && addr / 4 + quads <= |flash| ==>
        (trace.failures == old(trace.failures) ==> success && !fatal)
      ensures success && !fatal && responsive ==> ErasedFrom(flash, addr, quads)
      ensures quads == 0 ==> !success && erasesFailed == old(erasesFailed) + if fatal then 0 else 1
      ensures success && erasesWell ==> BlockErased(flash, addr)
      ensures success && !fatal ==> quads > 0 && addr / 4 + quads <= |flash|
      ensures success ==> trace.status == Some(true) && trace.polls > old(trace.polls)
      ensures fatal && trace.status == Some(false) ==> trace.polls == old(trace.polls) + 201
    {
      hide BlockErased, IsErased, ErasedFrom, BlockOnly;
      success, fatal := true, false;
      NextBlock(addr);
      var erased := EraseFlash(addr);
      if !erased { return false, false; }
      var ready := WaitForFlash(ERASE_TIMEOUT_MSECS);
      if !ready { return false, true; }
      var verify := new bv32[BlockSize(addr) / 4];
      var good, _, _ := ReadFlash(addr, quads, verify);
      if !good { return false, true; }
      success := AllErased(verify, quads);
      if responsive { ReadBack(flash, verify[..quads], addr); }
    }

    static method AllErased(verify: array<bv32>, quads: nat) returns (success: bool)
      requires quads <= verify.Length
      ensures success <==> IsErased(verify[..quads])
    {
      success := true;
      for i := 0 to quads
        invariant success <==> forall k :: 0 <= k < i ==> verify[k] == ERASED
      {
        if verify[i] != ERASED { success := false; break; }
      }
      assert forall k :: 0 <= k < quads ==> verify[..quads][k] == verify[k];
    }

    /** One pass of the erase loop: the block of an address is erased and as much of it read back as there
        is left. */
    method ErasePass(start: nat, quadsLeft: nat, ghost was: seq<bv32>, ghost first: nat, ghost nbQuads: nat)
      returns (address: nat, success: bool, fatal: bool, bytes: nat, quads: nat)
      requires Valid() && quadsLeft <= nbQuads && (quadsLeft > 0 || nbQuads == 0) && start < WORD
      requires Erasing(flash, was, first, nbQuads, nbQuads - quadsLeft, responsive, erasesWell)
      requires BlockStart(start) == first + 4 * (nbQuads - quadsLeft)
      modifies this`flash, this`exposed, this`erases, this`erasesFailed, trace
      ensures Valid() && erases == old(erases) + 1 && (Guarded() ==> exposed == old(exposed))
      ensures address == BlockStart(start) && bytes == BlockSize(start) && 4 * quads <= bytes && quads <= quadsLeft
      ensures BlockStart(address) == address <= start
      ensures quadsLeft > 0 ==> quads > 0
      ensures Erasing(flash, was, first, nbQuads, nbQuads - quadsLeft, responsive, erasesWell)
      ensures success && !fatal ==>
        Erasing(flash, was, first, nbQuads, nbQuads - quadsLeft + quads, responsive, erasesWell)
      ensures success && !fatal && quads < quadsLeft ==>
        BlockStart(address + bytes) == first + 4 * (nbQuads - quadsLeft + quads) && address + bytes < WORD
      ensures quadsLeft > 0 ==>
        BlockCount(address, quadsLeft) == 1 + BlockCount(BlockStart(address + bytes), quadsLeft - quads)
      ensures quads == quadsLeft ==> BlockCount(BlockStart(address + bytes), quadsLeft - quads) == 0
      ensures trace.failures >= old(trace.failures) && (success ==> trace.failures == old(trace.failures))
      ensures erasesWell && responsive && quadsLeft > 0 && address / 4 + quadsLeft <= |flash| ==>
        (trace.failures == old(trace.failures) ==> success && !fatal)
      ensures quadsLeft == 0 ==> !success && erasesFailed == old(erasesFailed) + if fatal then 0 else 1
    {
      hide Erasing, BlocksErased, BlockErased, BlockCount, BlockOnly, ErasedFrom, BlockStart, BlockAligned;
      StartAligned(start);
      bytes, address := BlockSize(start), BlockStart(start);
      NextBlock(address);
      CountStep(address, quadsLeft);
      quads := bytes / 4;
      if quads > quadsLeft { quads := quadsLeft; }
      ghost var before := flash;
      success, fatal := EraseAndVerify(address, quads);
      ErasingKept(flash, before, was, first, nbQuads, nbQuads - quadsLeft, responsive, erasesWell, address);
      if success && !fatal {
        ErasingMore(flash, was, first, nbQuads, nbQuads - quadsLeft, responsive, erasesWell, address, quads);
      }
    }

    /** Erases whole blocks from the one holding start on. A true result with a responsive device
        means that nbQuads quadlets from that block start on were read back erased, across the
        change of block size too; blocks outside the range are left alone. Since the success flag is
        never set again, a call that had to retry never reports success: a true result means one
        erase command per block and no failure. It gives up after eleven commands for one block, with
        left quadlets to go. On a device that erases well it is true whenever no
        command fails, and then all these blocks are erased as a whole. Asked for nothing it still
        erases a block, and reports success exactly if that fails. */
    method EraseFlashBlocks(start: nat, nbQuads: nat) returns (ok: bool, ghost gaveUp: bool, ghost left: nat)
      requires Valid() && start < WORD
      modifies this`flash, this`exposed, this`erases, this`erasesFailed, trace
      ensures Valid() && BlocksOnly(flash, old(flash), BlockStart(start), nbQuads)
      ensures ok && responsive && nbQuads > 0 ==> ErasedFrom(flash, BlockStart(start), nbQuads)
      ensures ok && nbQuads > 0 ==>
        trace.failures == old(trace.failures) && erases == old(erases) + BlockCount(BlockStart(start), nbQuads)
      ensures gaveUp ==> !ok && 0 < left <= nbQuads
      ensures gaveUp ==>
        erases - old(erases) == BlockCount(BlockStart(start), nbQuads) - BlocksLeft(start, nbQuads, left) + 11
      ensures trace.failures >= old(trace.failures)
      ensures trace.failures == old(trace.failures) && CanErase(start, nbQuads) ==> ok
      ensures Guarded() ==> exposed == old(exposed)
      ensures nbQuads == 0 ==> (ok <==> erasesFailed == old(erasesFailed) + 1)
      ensures ok && nbQuads > 0 && erasesWell ==> BlocksErased(flash, BlockStart(start), nbQuads)
    {
      hide Erasing, BlocksErased, BlockErased, BlockCount, BlocksOnly, BlockOnly, ErasedFrom, BlockStart, BlockAligned;
      ErasingStart(flash, BlockStart(start), nbQuads, responsive, erasesWell);
      var address, quadsLeft, success, nbTries := start, nbQuads, true, 0;
      ghost var first, was, count, sent := BlockStart(start), flash, BlockCount(BlockStart(start), nbQuads), erases;
      var more := true;
      gaveUp, left := false, 0;
      while more
        invariant Valid() && !gaveUp && 0 <= quadsLeft <= nbQuads && 0 <= nbTries <= ERASE_TRIES && 0 <= address
        invariant Erasing(flash, was, first, nbQuads, nbQuads - quadsLeft, responsive, erasesWell)
        invariant more <==> quadsLeft > 0 || (nbQuads == 0 && success)
        invariant more ==> BlockStart(address) == first + 4 * (nbQuads - quadsLeft) && address < WORD
        invariant !success && nbQuads > 0 ==> quadsLeft > 0
        invariant trace.failures >= old(trace.failures)
        invariant success ==> trace.failures == old(trace.failures)
        invariant more ==> erases + BlockCount(BlockStart(address), quadsLeft) == sent + count + nbTries
        invariant success && more ==> nbTries == 0
        invariant success && !more ==> erases == sent + count
        invariant trace.failures == old(trace.failures) && CanErase(start, nbQuads) ==> success
        invariant nbQuads == 0 ==> erasesFailed == old(erasesFailed) + if success then 0 else 1
        invariant nbQuads == 0 && more ==> nbTries == 0
        invariant Guarded() ==> exposed == old(exposed)
        decreases quadsLeft, more, ERASE_TRIES - nbTries
      {
        var verified, fatal, blocksizeBytes, blocksizeQuads;
        address, verified, fatal, blocksizeBytes, blocksizeQuads := ErasePass(address, quadsLeft, was, first, nbQuads);
        if fatal {
          ErasingEnd(flash, was, first, nbQuads, nbQuads - quadsLeft, responsive, erasesWell);
          return false, gaveUp, left;
        }
        success := success && verified;
        if success {
          address := address + blocksizeBytes;
          quadsLeft := quadsLeft - blocksizeQuads;
          nbTries := 0;
        } else {
          nbTries := nbTries + 1;
        }
        ErasingEnd(flash, was, first, nbQuads, nbQuads - quadsLeft, responsive, erasesWell);
        if nbTries > ERASE_TRIES { return false, true, quadsLeft; }
        more := quadsLeft > 0;
      }
      ErasingEnd(flash, was, first, nbQuads, nbQuads - quadsLeft, responsive, erasesWell);
      return true, gaveUp, left;
    }

    /** The device answers and erases as it should, and the range is not empty and lies in the flash. */
    ghost predicate CanErase(start: nat, nbQuads: nat)
      reads this
    {
      responsive && erasesWell && nbQuads > 0 && BlockStart(start) / 4 + nbQuads <= |flash|
    }
  }

  /** Erase blocks of the last left of some quadlets from the block of start on. */
  function BlocksLeft(start: nat, nbQuads: nat, left: nat): (n: nat)
    requires left <= nbQuads
  {
    BlockCount(BlockStart(start) + 4 * (nbQuads - left), left)
  }

  /** Erase blocks it takes to cover some quadlets from a block start on. */
  function BlockCount(addr: nat, quads: nat): (n: nat)
    decreases quads
  {
    var size := BlockSize(addr) / 4;
    if quads == 0 then 0 else 1 + BlockCount(addr + BlockSize(addr), if quads < size then 0 else quads - size)
  }

  lemma CountStep(addr: nat, quads: nat)
    requires BlockAligned(addr)
    ensures var size := BlockSize(addr) / 4;
      var left := if quads < size then 0 else quads - size;
      && (quads > 0 ==> BlockCount(addr, quads) == 1 + BlockCount(BlockStart(addr + BlockSize(addr)), left))
      && (left == 0 ==> BlockCount(BlockStart(addr + BlockSize(addr)), left) == 0)
  {
    NextBlock(addr);
    NextBlock(addr + BlockSize(addr));
  }

  /** How far erasing len quadlets from the block start first on has got: only blocks of the range
      have changed, done quadlets are erased, and on a device that erases well their blocks. */
  predicate Erasing(f: seq<bv32>, was: seq<bv32>, first: nat, len: nat, done: nat, reading: bool, whole: bool) {
    && BlocksOnly(f, was, first, len)
    && (reading && done > 0 ==> ErasedFrom(f, first, done))
    && (whole && done > 0 ==> BlocksErased(f, first, done))
  }

  lemma ErasingStart(f: seq<bv32>, first: nat, len: nat, reading: bool, whole: bool)
    ensures Erasing(f, f, first, len, 0, reading, whole)
  {}

  lemma ErasingEnd(f: seq<bv32>, was: seq<bv32>, first: nat, len: nat, done: nat, reading: bool, whole: bool)
    requires Erasing(f, was, first, len, done, reading, whole)
    ensures BlocksOnly(f, was, first, len)
    ensures reading && done == len > 0 ==> ErasedFrom(f, first, len)
    ensures whole && done == len > 0 ==> BlocksErased(f, first, len)
  {}

  lemma ErasingKept(f: seq<bv32>, g: seq<bv32>, was: seq<bv32>, first: nat, len: nat, done: nat, reading: bool,
                    whole: bool, addr: nat)
    requires Erasing(g, was, first, len, done, reading, whole) && BlockOnly(f, g, addr) && BlockAligned(addr)
    requires addr == first + 4 * done && (done < len || done == 0)
    ensures Erasing(f, was, first, len, done, reading, whole)
  {
    hide BlocksOnly, BlockOnly, ErasedFrom, BlocksErased, BlockAligned;
    BlocksOnlyStep(f, g, was, first, len, addr);
    if reading && done > 0 { ErasedKept(f, g, first, done, addr); }
    if whole && done > 0 { BlocksErasedKept(f, g, first, done, addr); }
  }

  lemma ErasingMore(f: seq<bv32>, was: seq<bv32>, first: nat, len: nat, done: nat, reading: bool, whole: bool,
                    addr: nat, quads: nat)
    requires Erasing(f, was, first, len, done, reading, whole) && BlockAligned(addr) && addr == first + 4 * done
    requires 4 * quads <= BlockSize(addr)
    requires reading ==> ErasedFrom(f, addr, quads)
    requires whole ==> BlockErased(f, addr)
    ensures Erasing(f, was, first, len, done + quads, reading, whole)
  {
    hide BlocksOnly, ErasedFrom, BlocksErased, BlockErased, BlockAligned;
    if reading { ErasedJoin(f, first, done, addr, quads); }
    if whole { BlocksErasedJoin(f, first, done, addr, quads); }
  }

  lemma BlocksOnlyStep(f: seq<bv32>, g: seq<bv32>, h: seq<bv32>, first: nat, len: nat, addr: nat)
    requires BlocksOnly(g, h, first, len) && BlockOnly(f, g, addr) && BlockAligned(addr)
    requires first <= addr && (addr < first + 4 * len || addr == first)
    ensures BlocksOnly(f, h, first, len)
  {
    forall i | 0 <= i < |f| && f[i] != h[i]
      ensures first <= BlockStart(4 * i) && (BlockStart(4 * i) < first + 4 * len || BlockStart(4 * i) == first)
    {
      if f[i] != g[i] { SameBlock(addr, 4 * i); }
    }
  }

  lemma SameBlock(addr: nat, x: nat)
    requires BlockAligned(addr) && addr <= x < addr + BlockSize(addr)
    ensures BlockStart(x) == addr
  {}

  lemma ErasedKept(f: seq<bv32>, g: seq<bv32>, first: nat, len: nat, addr: nat)
    requires ErasedFrom(g, first, len) && BlockAligned(addr) && BlockOnly(f, g, addr) && first + 4 * len <= addr
    ensures ErasedFrom(f, first, len)
  {}

  /** Erase blocks that hold one of len quadlets from the block start addr on are erased. */
  predicate BlocksErased(f: seq<bv32>, addr: nat, len: nat) {
    forall i :: 0 <= i < |f| && addr <= BlockStart(4 * i) < addr + 4 * len ==> f[i] == ERASED
  }

  lemma BlocksErasedKept(f: seq<bv32>, g: seq<bv32>, first: nat, len: nat, addr: nat)
    requires BlocksErased(g, first, len) && BlockAligned(addr) && BlockOnly(f, g, addr) && first + 4 * len <= addr
    ensures BlocksErased(f, first, len)
  {
    forall i | 0 <= i < |f| && first <= BlockStart(4 * i) < first + 4 * len ensures f[i] == ERASED {
      if addr <= 4 * i < addr + BlockSize(addr) {
        SameBlock(addr, 4 * i);
        assert false;
      }
      assert g[i] == ERASED;
      NextBlock(addr);
    }
  }

  lemma BlocksErasedJoin(f: seq<bv32>, first: nat, len: nat, addr: nat, more: nat)
    requires len > 0 ==> BlocksErased(f, first, len)
    requires BlockErased(f, addr) && BlockAligned(addr) && addr == first + 4 * len && 4 * more <= BlockSize(addr)
    ensures BlocksErased(f, first, len + more)
  {
    NextBlock(addr);
    forall i | 0 <= i < |f| && first <= BlockStart(4 * i) < first + 4 * (len + more) ensures f[i] == ERASED {
      StartAligned(4 * i);
      if addr <= BlockStart(4 * i) {
        SameBlock(addr, BlockStart(4 * i));
        NextBlock(BlockStart(4 * i));
      }
    }
  }

  lemma ErasedJoin(f: seq<bv32>, first: nat, len: nat, addr: nat, more: nat)
    requires len > 0 ==> ErasedFrom(f, first, len)
    requires ErasedFrom(f, addr, more) && addr == first + 4 * len
    ensures ErasedFrom(f, first, len + more)
  {}

  /** Only erase blocks that hold one of len quadlets from the block start addr on, or start at
      addr, may differ. */
  predicate BlocksOnly(f: seq<bv32>, g: seq<bv32>, addr: nat, len: nat) {
    |f| == |g| && forall i :: 0 <= i < |f| && f[i] != g[i] ==>
      addr <= BlockStart(4 * i) && (BlockStart(4 * i) < addr + 4 * len || BlockStart(4 * i) == addr)
  }

  predicate ErasedFrom(f: seq<bv32>, addr: nat, len: nat) {
    addr % 4 == 0 && addr / 4 + len <= |f| &&
    forall i :: addr / 4 <= i < addr / 4 + len ==> f[i] == ERASED
  }

  predicate IsErased(data: seq<bv32>) {
    forall k :: 0 <= k < |data| ==> data[k] == ERASED
  }

  lemma ReadBack(f: seq<bv32>, data: seq<bv32>, addr: nat)
    requires BlockAligned(addr) && 4 * |data| <= BlockSize(addr) && addr % 4 == 0 && addr / 4 + |data| <= |f|
    requires data == f[addr / 4..addr / 4 + |data|]
    ensures IsErased(data) <==> ErasedFrom(f, addr, |data|)
    ensures BlockErased(f, addr) ==> IsErased(data)
  {
    forall k | 0 <= k < |data| ensures data[k] == f[addr / 4 + k] {}
    forall i | addr / 4 <= i < addr / 4 + |data| ensures f[i] == data[i - addr / 4] {}
  }

  predicate BlockErased(f: seq<bv32>, addr: nat) {
    forall i :: 0 <= i < |f| && BlockStart(addr) <= 4 * i < BlockStart(addr) + BlockSize(addr) ==> f[i] == ERASED
  }

  /** Only the erase block of addr may differ. */
  predicate BlockOnly(f: seq<bv32>, g: seq<bv32>, addr: nat) {
    |f| == |g| && forall i ::
      0 <= i < |f| && !(BlockStart(addr) <= 4 * i < BlockStart(addr) + BlockSize(addr)) ==> f[i] == g[i]
  }

  /** Behind this prefix the contents are got quadlets of the flash from base on. */
  predicate Holds(flash: seq<bv32>, contents: seq<bv32>, prefix: seq<bv32>, base: nat, got: nat) {
    && base + got <= |flash| && |prefix| + got <= |contents|
    && contents[..|prefix| + got] == prefix + flash[base..base + got]
  }

  lemma HoldsMore(flash: seq<bv32>, was: seq<bv32>, prefix: seq<bv32>, base: nat, got: nat, data: seq<bv32>)
    requires prefix <= was && (got == 0 || Holds(flash, was, prefix, base, got))
    requires |prefix| + got + |data| <= |was| && base + got + |data| <= |flash|
    requires data == flash[base + got..base + got + |data|]
    ensures var now := Patch(was, |prefix| + got, data);
      prefix <= now && Holds(flash, now, prefix, base, got + |data|)
  {
    var now := Patch(was, |prefix| + got, data);
    assert was[..|prefix| + got] == prefix + flash[base..base + got];
    assert now[..|prefix| + got + |data|] == was[..|prefix| + got] + data;
    ReadsJoin(flash, base, got, prefix, data);
  }

  lemma HoldsJoin(flash: seq<bv32>, contents: seq<bv32>, base: nat, done: nat, got: nat)
    requires base + done <= |flash| && Holds(flash, contents, flash[base..base + done], base + done, got)
    ensures done + got <= |contents| && base + done + got <= |flash|
    ensures contents[..done + got] == flash[base..base + done + got]
  {
    ReadsJoin(flash, base, done, [], flash[base + done..base + done + got]);
  }

  /** Two adjacent reads behind a prefix are one. */
  lemma ReadsJoin(flash: seq<bv32>, base: nat, got: nat, prefix: seq<bv32>, data: seq<bv32>)
    requires base + got + |data| <= |flash| && data == flash[base + got..base + got + |data|]
    ensures prefix + flash[base..base + got] + data == prefix + flash[base..base + got + |data|]
  {
    assert flash[base..base + got + |data|] == flash[base..base + got] + data;
  }
}
