/** The extended application protocol of a DICE device: router tables on the wire, and the host's
    cache of the three tables of the device. */
module Eap {
  import opened Basics
  import opened Routes
  import opened RegisterSpace

  const MAX_ROUTES := 128
  const MAX_WAITS := 100

  // ---- wire format ----

  function Encode(r: Route): (q: nat) { r.src * 256 + r.dest }

  function Decode(q: nat): (r: Route) { Route(q % 256, q / 256 % 256) }

  function EncodeAll(rs: seq<Route>): (qs: seq<nat>)
    ensures |qs| == |rs|
  {
    seq(|rs|, i requires 0 <= i < |rs| => Encode(rs[i]))
  }

  function DecodeAll(qs: seq<nat>): (rs: seq<Route>)
    ensures |rs| == |qs|
  {
    seq(|qs|, i requires 0 <= i < |qs| => Decode(qs[i]))
  }

  lemma DecodeEncode(rs: seq<Route>)
    ensures DecodeAll(EncodeAll(rs)) == rs
  {}

  /** A complete table at this address: a count and that many entries. */
  predicate HasTable(mem: seq<nat>, at: nat) {
    at < |mem| && at + 1 + mem[at] <= |mem|
  }

  function TableAt(mem: seq<nat>, at: nat): (rs: seq<Route>)
    requires HasTable(mem, at)
    ensures |rs| == mem[at]
  {
    DecodeAll(mem[at + 1..at + 1 + mem[at]])
  }

  /** How a list of routes lies in memory: the count, then entries with the destination in the low byte,
      the source in the next and nothing above. */
  predicate OnWire(mem: seq<nat>, at: nat, rs: seq<Route>) {
    && at + 1 + |rs| <= |mem| && mem[at] == |rs|
    && forall i :: 0 <= i < |rs| ==> mem[at + 1 + i] % 256 == rs[i].dest && mem[at + 1 + i] / 256 == rs[i].src
  }

  /** How a list of routes is read from memory, whatever is above the two bytes of an entry. */
  predicate FromWire(mem: seq<nat>, at: nat, rs: seq<Route>) {
    && at + 1 + |rs| <= |mem| && mem[at] == |rs|
    && forall i :: 0 <= i < |rs| ==> rs[i].dest == mem[at + 1 + i] % 256 && rs[i].src == mem[at + 1 + i] / 256 % 256
  }

  /** The table in memory is the one list read from it. */
  lemma TableFromWire(mem: seq<nat>, at: nat, rs: seq<Route>)
    ensures HasTable(mem, at) && TableAt(mem, at) == rs <==> FromWire(mem, at, rs)
  {
    if FromWire(mem, at, rs) {
      var t := TableAt(mem, at);
      forall i | 0 <= i < |rs| ensures t[i] == rs[i] {}
    }
  }

  lemma TableUnaffected(a: seq<nat>, b: seq<nat>, at: nat, where: nat, len: nat)
    requires HasTable(a, at) && SameOutside(b, a, where, len)
    requires where + len <= at || at + 1 + a[at] <= where
    ensures HasTable(b, at) && TableAt(b, at) == TableAt(a, at)
  {
    assert b[at] == a[at];
    assert b[at + 1..at + 1 + b[at]] == a[at + 1..at + 1 + a[at]];
  }

  /** A parameter space: quadlets from start on, its size bounding the length of a block. */
  datatype Space = Space(start: nat, quads: nat)

  // ---- reading and writing tables ----

  method ReadBlock(d: Device, space: Space, offset: nat, len: nat) returns (ok: bool, data: seq<nat>)
    modifies d`failures
    ensures d.failures >= old(d.failures) && (ok <==> len <= space.quads && d.failures == old(d.failures))
    ensures ok ==> |data| == len && (len == 0 || space.start + offset + len <= |d.mem|)
    ensures ok && len > 0 ==> data == d.mem[space.start + offset..space.start + offset + len]
  {
    if len > space.quads { return false, []; }
    ok, data := d.ReadRegBlock(space.start + offset, len);
  }

  method WriteBlock(d: Device, space: Space, offset: nat, data: seq<nat>) returns (ok: bool)
    modifies d
    ensures d.failures >= old(d.failures) && (ok <==> |data| <= space.quads && d.failures == old(d.failures))
    ensures SameOutside(d.mem, old(d.mem), space.start + offset, Min(|data|, BLOCKSIZE_QUADS))
    ensures ok && data != [] ==> space.start + offset + Min(|data|, BLOCKSIZE_QUADS) <= |d.mem|
    ensures ok && data != [] ==> d.mem == ChunkedWrite(old(d.mem), space.start + offset, data)
    ensures ok && data == [] ==> d.mem == old(d.mem)
    ensures d.mem == old(d.mem) || StartsChunk(d.mem, space.start + offset, data)
  {
    if |data| > space.quads { return false; }
    ok := d.WriteRegBlock(space.start + offset, data);
  }

  /** The table in memory, or an empty list when a read fails or the table does not fit the space. */
  method ReadTable(d: Device, cfg: RouterConfig, space: Space, offset: nat) returns (ok: bool)
    modifies cfg, d`failures
    ensures d.failures >= old(d.failures)
    ensures ok <==>
      && d.failures == old(d.failures) && space.quads > 0
      && HasTable(d.mem, space.start + offset) && d.mem[space.start + offset] <= space.quads
    ensures ok ==> HasTable(d.mem, space.start + offset) && cfg.routes == TableAt(d.mem, space.start + offset)
    ensures ok ==> FromWire(d.mem, space.start + offset, cfg.routes)
    ensures !ok ==> cfg.routes == []
  {
    cfg.routes := [];
    var good, head := ReadBlock(d, space, offset, 1);
    if !good { return false; }
    var nbRoutes := head[0];
    var entries;
    good, entries := ReadBlock(d, space, offset + 1, nbRoutes);
    if !good { return false; }
    for i := 0 to nbRoutes
      modifies cfg
      invariant cfg.routes == DecodeAll(entries[..i])
    {
      cfg.routes := cfg.routes + [Decode(entries[i])];
    }
    assert entries[..nbRoutes] == entries;
    ghost var at := space.start + offset;
    assert nbRoutes == 0 ==> entries == d.mem[at + 1..at + 1];
    TableFromWire(d.mem, at, cfg.routes);
    return true;
  }

  /** What a table keeps of a list: its first MAX_ROUTES entries. */
  function Saved(rs: seq<Route>): (r: seq<Route>)
    ensures r <= rs && |r| == Min(|rs|, 128)
    ensures r == rs <==> |rs| <= 128
  {
    if |rs| <= MAX_ROUTES then rs else rs[..MAX_ROUTES]
  }

  /** The zero-fill; a failed one has cleared the count or done nothing. */
  method ClearTable(d: Device, space: Space, offset: nat, maxEntries: nat) returns (ok: bool)
    modifies d
    ensures d.failures >= old(d.failures) && (ok <==> maxEntries + 1 <= space.quads && d.failures == old(d.failures))
    ensures SameOutside(d.mem, old(d.mem), space.start + offset, MAX_ROUTES + 1)
    ensures d.mem == old(d.mem) || (space.start + offset < |d.mem| && d.mem[space.start + offset] == 0)
    ensures ok ==> space.start + offset < |d.mem| && d.mem[space.start + offset] == 0
  {
    var zeros := seq(maxEntries + 1, _ => 0);
    ok := WriteBlock(d, space, offset, zeros);
    if ok { ChunkedAt(old(d.mem), space.start + offset, zeros, 0); }
  }

  method WriteEntries(d: Device, cfg: RouterConfig, space: Space, offset: nat) returns (ok: bool)
    modifies d
    ensures d.failures >= old(d.failures)
    ensures ok <==> |Saved(cfg.routes)| <= space.quads && d.failures == old(d.failures)
    ensures SameOutside(d.mem, old(d.mem), space.start + offset + 1, MAX_ROUTES)
    ensures ok && cfg.routes != [] ==> space.start + offset + 1 + |Saved(cfg.routes)| <= |d.mem|
    ensures ok && cfg.routes != [] ==>
      d.mem[space.start + offset + 1..space.start + offset + 1 + |Saved(cfg.routes)|] == EncodeAll(Saved(cfg.routes))
  {
    ok := WriteBlock(d, space, offset + 1, EncodeAll(Saved(cfg.routes)));
  }

  method WriteCount(d: Device, cfg: RouterConfig, space: Space, offset: nat) returns (ok: bool)
    modifies d
    ensures d.failures >= old(d.failures) && (ok <==> 1 <= space.quads && d.failures == old(d.failures))
    ensures ok || d.mem != old(d.mem) ==>
      && space.start + offset < |old(d.mem)|
      && d.mem == old(d.mem)[space.start + offset := |Saved(cfg.routes)|]
  {
    ok := WriteBlock(d, space, offset, [|Saved(cfg.routes)|]);
  }

  /** Zero-fill, entries, count. Succeeds exactly when everything fits the space and no transaction
      fails; then the memory reads back as the saved part of the list, so as this very list exactly if
      that is not longer than MAX_ROUTES, although a zero-fill of several chunks clears less than it
      means to. */
  method WriteTable(d: Device, cfg: RouterConfig, space: Space, offset: nat, maxEntries: nat) returns (ok: bool)
    modifies d
    ensures d.failures >= old(d.failures)
    ensures ok <==>
      d.failures == old(d.failures) && maxEntries + 1 <= space.quads && |Saved(cfg.routes)| <= space.quads
    ensures SameOutside(d.mem, old(d.mem), space.start + offset, MAX_ROUTES + 1)
    ensures ok ==> HasTable(d.mem, space.start + offset) && TableAt(d.mem, space.start + offset) == Saved(cfg.routes)
    ensures ok ==> OnWire(d.mem, space.start + offset, Saved(cfg.routes))
  {
    hide OnWire, TableAt, EncodeAll;
    ok := ClearTable(d, space, offset, maxEntries);
    if !ok { return; }
    ok := WriteEntries(d, cfg, space, offset);
    if !ok { return; }
    ghost var filled := d.mem;
    ok := WriteCount(d, cfg, space, offset);
    if ok { EntriesStay(filled, space.start + offset, Saved(cfg.routes)); }
  }

  lemma EntriesStay(m: seq<nat>, at: nat, rs: seq<Route>)
    requires at < |m| && (rs == [] || (at + 1 + |rs| <= |m| && m[at + 1..at + 1 + |rs|] == EncodeAll(rs)))
    ensures HasTable(m[at := |rs|], at) && TableAt(m[at := |rs|], at) == rs && OnWire(m[at := |rs|], at, rs)
  {
    var r := m[at := |rs|];
    forall i | 0 <= i < |rs| ensures r[at + 1 + i] == Encode(rs[i]) {
      assert m[at + 1..at + 1 + |rs|][i] == EncodeAll(rs)[i];
    }
    assert r[at + 1..at + 1 + |rs|] == EncodeAll(rs);
    DecodeEncode(rs);
  }

  lemma CopiedTable(mem: seq<nat>, from: nat, to: nat)
    requires HasTable(mem, from) && to + 1 + mem[from] <= |mem|
    ensures var r := Patch(mem, to, mem[from..from + 1 + mem[from]]);
      HasTable(r, to) && r[to] == mem[from] && TableAt(r, to) == TableAt(mem, from)
  {
    var table := mem[from..from + 1 + mem[from]];
    var r := Patch(mem, to, table);
    assert r[to..to + |table|] == table;
    assert r[to] == table[0];
    assert r[to + 1..to + |table|] == r[to..to + |table|][1..] == table[1..] == mem[from + 1..from + 1 + mem[from]];
  }

  lemma PatchOutside(mem: seq<nat>, at: nat, data: seq<nat>)
    requires at + |data| <= |mem|
    ensures SameOutside(Patch(mem, at, data), mem, at, |data|)
  {}

  // ---- the cache ----

  datatype Rate = LowRate | MidRate | HighRate

  /** Quadlet offset of a rate's router table in the current configuration space. */
  function TableOffset(rate: Rate): (offset: nat) {
    match rate
    case LowRate => 0x0000 / 4
    case MidRate => 0x2000 / 4
    case HighRate => 0x4000 / 4
  }

  datatype Wait = Error | Timeout | Busy | Done

  /** The device: its memory, the rate it is loading the uploaded table for, if any, the result of the
      last load and whether it took over the table of the last load command. */
  datatype Machine = Machine(mem: seq<nat>, executing: Option<Rate>, retval: nat, accepted: bool)

  class EAP {
    const device: Device
    const newRouting: Space
    const currentCfg: Space
    const maxEntries: nat
    const low: RouterConfig
    const mid: RouterConfig
    const high: RouterConfig
    /** The command registers of the device: the rate it is loading the uploaded table for, if any,
        and the result of the last load. */
    var executing: Option<Rate>
    var retval: nat
    /** Whether the device took over the table of the last load command. */
    ghost var accepted: bool
    /** Reads of the execute flag so far. */
    ghost var polls: nat

    constructor (d: Device, newR: Space, cur: Space, max: nat, l: RouterConfig, m: RouterConfig, h: RouterConfig)
      ensures device == d && newRouting == newR && currentCfg == cur && maxEntries == max
      ensures low == l && mid == m && high == h && executing.None?
    {
      device, newRouting, currentCfg, maxEntries := d, newR, cur, max;
      low, mid, high, executing := l, m, h, None;
    }

    function At(rate: Rate): (at: nat) { currentCfg.start + TableOffset(rate) }

    function Cached(rate: Rate): (cfg: RouterConfig) {
      match rate
      case LowRate => low
      case MidRate => mid
      case HighRate => high
    }

    /** The spaces lie in memory and do not overlap; the cached tables are separate objects. */
    ghost predicate Valid()
      reads device
    {
      && low != mid && low != high && mid != high
      && newRouting.start + MAX_ROUTES + 1 <= |device.mem|
      && At(HighRate) + MAX_ROUTES + 1 <= |device.mem|
      && Apart()
    }

    /** Every rate has a table in this memory, at most as long as a table can be. */
    ghost predicate TablesIn(mem: seq<nat>) {
      forall rate: Rate :: HasTable(mem, At(rate)) && mem[At(rate)] <= MAX_ROUTES
    }

    ghost predicate HasTables()
      reads device
    {
      TablesIn(device.mem)
    }

    /** The device's own table for a rate. */
    ghost function Table(rate: Rate): (rs: seq<Route>)
      requires HasTables()
      reads device
    {
      TableAt(device.mem, At(rate))
    }

    /** The cached table of every rate is the device's. */
    ghost predicate Coherent()
      reads device, low, mid, high
    {
      HasTables() && forall rate: Rate :: Cached(rate).routes == Table(rate)
    }

    lemma TablesKept(was: seq<nat>, mem: seq<nat>, where: nat, len: nat)
      requires TablesIn(was) && SameOutside(mem, was, where, len)
      requires forall rate: Rate :: where + len <= At(rate) || At(rate) + MAX_ROUTES + 1 <= where
      ensures TablesIn(mem) && forall rate: Rate :: TableAt(mem, At(rate)) == TableAt(was, At(rate))
    {
      forall rate: Rate
        ensures HasTable(mem, At(rate)) && mem[At(rate)] <= MAX_ROUTES
        ensures TableAt(mem, At(rate)) == TableAt(was, At(rate))
      {
        TableUnaffected(was, mem, At(rate), where, len);
      }
    }

    ghost predicate Loadable(mem: seq<nat>) {
      && HasTable(mem, newRouting.start) && mem[newRouting.start] <= MAX_ROUTES
      && At(HighRate) + MAX_ROUTES + 1 <= |mem|
    }

    /** Memory after the device has taken over the uploaded table for a rate. */
    function Loaded(mem: seq<nat>, rate: Rate): (r: seq<nat>)
      requires Loadable(mem)
      ensures |r| == |mem|
    {
      var n := newRouting.start;
      Patch(mem, At(rate), mem[n..n + 1 + mem[n]])
    }

    lemma OtherTable(was: seq<nat>, rate: Rate, r: Rate)
      requires TablesIn(was) && Loadable(was) && r != rate
      ensures var mem := Loaded(was, rate);
        HasTable(mem, At(r)) && mem[At(r)] <= MAX_ROUTES && TableAt(mem, At(r)) == TableAt(was, At(r))
    {
      hide TableAt, Patch;
      var n := newRouting.start;
      PatchOutside(was, At(rate), was[n..n + 1 + was[n]]);
      TableUnaffected(was, Loaded(was, rate), At(r), At(rate), 1 + was[n]);
    }

    /** Loading one rate's table leaves the other rates' tables alone. */
    lemma LoadedTables(was: seq<nat>, rate: Rate)
      requires TablesIn(was) && Loadable(was)
      ensures var mem := Loaded(was, rate);
        TablesIn(mem) && TableAt(mem, At(rate)) == TableAt(was, newRouting.start)
        && forall r: Rate :: r != rate ==> TableAt(mem, At(r)) == TableAt(was, At(r))
    {
      hide TableAt, Patch, HasTable;
      var mem := Loaded(was, rate);
      CopiedTable(was, newRouting.start, At(rate));
      forall r: Rate | r != rate
        ensures HasTable(mem, At(r)) && mem[At(r)] <= MAX_ROUTES
        ensures TableAt(mem, At(r)) == TableAt(was, At(r))
      {
        OtherTable(was, rate, r);
      }
    }

    /** The spaces are large enough for every table. */
    predicate Roomy() {
      maxEntries + 1 <= newRouting.quads && MAX_ROUTES <= newRouting.quads && MAX_ROUTES <= currentCfg.quads
    }

    // ---- the device at work ----

    ghost function Now(): (s: Machine)
      reads this, device
    {
      Machine(device.mem, executing, retval, accepted)
    }

    /** The device after finishing the load it executes, having taken the uploaded table or not. */
    ghost function Finished(s: Machine, took: bool): (t: Machine)
      requires s.executing.Some? && Loadable(s.mem)
    {
      Machine(if took then Loaded(s.mem, s.executing.value) else s.mem, None, if took then 0 else 1, took)
    }

    /** What the device can become on its own. */
    ghost predicate CanBecome(s: Machine, t: Machine) {
      t == s || (s.executing.Some? && Loadable(s.mem) && (t == Finished(s, true) || t == Finished(s, false)))
    }

    /** What it is once a load command for this rate is in its opcode register. */
    ghost function Issued(s: Machine, rate: Rate): (t: Machine) {
      s.(executing := Some(rate), accepted := false)
    }

    /** The device has its tables, and a table to load if it is loading. */
    ghost predicate Ready()
      reads this, device
    {
      Valid() && HasTables() && (executing.Some? ==> Loadable(device.mem) && !accepted)
    }

    lemma BecomeSame(s: Machine)
      ensures CanBecome(s, s)
    {}

    lemma BecomeTransitive(s: Machine, t: Machine, u: Machine)
      requires CanBecome(s, t) && CanBecome(t, u)
      ensures CanBecome(s, u)
    {}

    /** The last load is over and the device took its table. */
    ghost predicate Took(t: Machine) { t.executing.None? && t.accepted }

    ghost predicate Apart() {
      newRouting.start + MAX_ROUTES + 1 <= currentCfg.start || At(HighRate) + MAX_ROUTES + 1 <= newRouting.start
    }

    /** Working on its own the device changes at most the table it is loading, to the uploaded one, and
        never the uploaded one. */
    lemma BecomeTables(s: Machine, t: Machine)
      requires CanBecome(s, t) && TablesIn(s.mem) && Apart() && (s.executing.Some? ==> Loadable(s.mem))
      ensures TablesIn(t.mem) && |t.mem| == |s.mem|
      ensures forall r: Rate ::
        TableAt(t.mem, At(r)) == TableAt(s.mem, if s.executing == Some(r) && Took(t) then newRouting.start else At(r))
      ensures Loadable(s.mem) ==>
        Loadable(t.mem) && TableAt(t.mem, newRouting.start) == TableAt(s.mem, newRouting.start)
    {
      hide TableAt, Loaded;
      if s.executing.Some? && Loadable(s.mem) {
        LoadedTables(s.mem, s.executing.value);
        UploadKept(s.mem, s.executing.value);
      }
    }

    lemma UploadKept(was: seq<nat>, rate: Rate)
      requires Loadable(was) && Apart()
      ensures Loadable(Loaded(was, rate))
      ensures TableAt(Loaded(was, rate), newRouting.start) == TableAt(was, newRouting.start)
    {
      hide TableAt, Patch;
      var n := newRouting.start;
      PatchOutside(was, At(rate), was[n..n + 1 + was[n]]);
      TableUnaffected(was, Loaded(was, rate), n, At(rate), 1 + was[n]);
    }

    /** At any time the device may finish the load it is executing. */
    method DeviceActs()
      requires Ready()
      modifies this`executing, this`retval, this`accepted, device`mem
      ensures Ready() && CanBecome(old(Now()), Now())
    {
      hide TableAt, Patch;
      var finishes: bool, takes: bool := *, *;
      if executing.None? || !finishes { return; }
      ghost var was := Now();
      var n, mem := newRouting.start, device.mem;
      if takes { device.mem := Patch(mem, At(executing.value), mem[n..n + 1 + mem[n]]); }
      executing, retval, accepted := None, if takes then 0 else 1, takes;
      assert Now() == Finished(was, takes);
      BecomeTables(was, Now());
    }

    // ---- the load command ----

    /** Reads the execute flag; done means the device has finished. */
    method OperationBusy() returns (w: Wait)
      requires Ready()
      modifies this, device
      ensures Ready() && CanBecome(old(Now()), Now())
      ensures w != Timeout && (w == Done ==> executing.None?) && (w == Busy ==> executing.Some?)
      ensures polls == old(polls) + 1
      ensures device.failures == old(device.failures) + if w == Error then 1 else 0
    {
      hide TableAt, Loaded;
      DeviceActs();
      polls := polls + 1;
      var read: bool := *;
      if !read { device.failures := device.failures + 1; }
      w := if !read then Error else if executing.Some? then Busy else Done;
    }

    /** Polls until the operation is done; a failed poll counts like a busy one. */
    method WaitForOperationEnd(maxWaitMs: nat) returns (w: Wait)
      requires Ready()
      modifies this, device
      ensures Ready() && CanBecome(old(Now()), Now())
      ensures w == Done || (w == Timeout && polls == old(polls) + maxWaitMs)
      ensures w == Done ==> executing.None?
      ensures device.failures >= old(device.failures)
      ensures w == Timeout && maxWaitMs > 0 && device.failures == old(device.failures) ==> executing.Some?
    {
      hide TableAt, Loaded;
      var maxWaits: nat := maxWaitMs;
      while maxWaits > 0
        invariant Ready() && CanBecome(old(Now()), Now()) && device.failures >= old(device.failures)
        invariant polls == old(polls) + maxWaitMs - maxWaits
        invariant maxWaits < maxWaitMs && device.failures == old(device.failures) ==> executing.Some?
      {
        maxWaits := maxWaits - 1;
        ghost var before := Now();
        var status := OperationBusy();
        BecomeTransitive(old(Now()), before, Now());
        if status == Done { return Done; }
      }
      return Timeout;
    }

    /** Has the device load the uploaded table. True means that it did. mid is the device when the busy
        check has been made; a check that could not be read, unread, does not stop the command. After that
        a command may have been issued, and it may still be executing after a time-out, or when the opcode
        write is reported as failed. */
    method LoadRouterConfig(rate: Rate)
      returns (ok: bool, ghost issued: bool, ghost mid: Machine, ghost unread: bool)
      requires Ready() && Loadable(device.mem)
      modifies this, device
      ensures Ready() && CanBecome(old(Now()), mid)
      ensures if issued then CanBecome(Issued(mid, rate), Now()) else Now() == mid
      ensures ok ==> issued && accepted && executing.None?
      ensures device.failures >= old(device.failures)
      ensures device.failures == old(device.failures) ==> (issued <==> mid.executing.None?)
      ensures unread ==> device.failures > old(device.failures)
      ensures unread && device.failures == old(device.failures) + 1 ==> issued
      ensures device.failures == old(device.failures) && issued ==>
        if executing.Some? then polls == old(polls) + 1 + MAX_WAITS else ok == accepted
    {
      hide TableAt, Loaded, CanBecome, TablesIn, Loadable, Apart;
      issued := false;
      ghost var start := Now();
      var busy := OperationBusy();
      mid := Now();
      BecomeTables(start, mid);
      unread := busy == Error;
      if busy == Busy { return false, issued, mid, unread; }
      var sent: bool, happened: bool := *, *;
      if !sent { device.failures := device.failures + 1; }
      if sent || happened {
        executing, accepted := Some(rate), false;
        issued := true;
        BecomeSame(Issued(mid, rate));
      }
      if !sent { return false, issued, mid, unread; }
      var w := WaitForOperationEnd(MAX_WAITS);
      BecomeFacts(Issued(mid, rate), Now());
      if w != Done { return false, issued, mid, unread; }
      var read: bool := *;
      if !read {
        device.failures := device.failures + 1;
        return false, issued, mid, unread;
      }
      ok := retval == 0;
    }

    // ---- cache and device ----

    /** Reads one table, as it is in the device then; a failed read leaves an empty one. */
    method ReadCurrent(rate: Rate) returns (ok: bool)
      requires Ready()
      modifies this`executing, this`retval, this`accepted, device, Cached(rate)
      ensures Ready() && CanBecome(old(Now()), Now())
      ensures device.failures >= old(device.failures)
      ensures device.failures == old(device.failures) && Roomy() ==> ok
      ensures Cached(rate).routes == if ok then TableAt(device.mem, At(rate)) else []
    {
      hide TableAt, Loaded;
      DeviceActs();
      ghost var at := At(rate);
      ok := ReadTable(device, Cached(rate), currentCfg, TableOffset(rate));
    }

    /** Reads the three tables. All are the device's, except that of a rate it is loading meanwhile:
        that one is as it was in the memory seen, before the load or after it. */
    method UpdateConfigurationCache() returns (ok: bool, ghost routersRead: bool, ghost seen: seq<nat>)
      requires Ready()
      modifies this, device, low, mid, high
      ensures Ready() && CanBecome(old(Now()), Now()) && polls == old(polls)
      ensures ok ==> routersRead
      ensures device.failures >= old(device.failures)
      ensures device.failures == old(device.failures) && Roomy() ==> ok
      ensures TablesIn(seen) && (seen == old(device.mem) || seen == device.mem)
      ensures routersRead ==> forall r: Rate ::
        Cached(r).routes == if old(executing) == Some(r) then TableAt(seen, At(r)) else Table(r)
      ensures routersRead && old(executing).None? ==>
        && FromWire(device.mem, currentCfg.start, low.routes)
        && FromWire(device.mem, currentCfg.start + 0x2000 / 4, mid.routes)
        && FromWire(device.mem, currentCfg.start + 0x4000 / 4, high.routes)
      ensures !routersRead ==> exists r: Rate :: Cached(r).routes == []
    {
      hide Loaded, TableAt, CanBecome, TablesIn, Loadable, Apart, FromWire, HasTable;
      ghost var was := Now();
      routersRead, seen := false, device.mem;
      var good := ReadCurrent(LowRate);
      ghost var first := Now();
      if was.executing == Some(LowRate) { seen := first.mem; }
      if !good { return false, false, seen; }
      good := ReadCurrent(MidRate);
      ghost var second := Now();
      if was.executing == Some(MidRate) { seen := second.mem; }
      SeenTable(was, first, second, LowRate);
      if !good { return false, false, seen; }
      good := ReadCurrent(HighRate);
      ghost var third := Now();
      if was.executing == Some(HighRate) { seen := third.mem; }
      SeenTables(was, first, second, third);
      if !good { return false, false, seen; }
      CacheFromWire();
      ok := *;
      if !ok { device.failures := device.failures + 1; }
      routersRead := true;
    }

    lemma CacheFromWire()
      requires TablesIn(device.mem)
      ensures forall r: Rate :: Cached(r).routes == TableAt(device.mem, At(r)) ==>
        FromWire(device.mem, currentCfg.start + TableOffset(r), Cached(r).routes)
    {
      hide TableAt, FromWire;
      forall r: Rate | Cached(r).routes == TableAt(device.mem, At(r))
        ensures FromWire(device.mem, currentCfg.start + TableOffset(r), Cached(r).routes)
      {
        TableFromWire(device.mem, At(r), Cached(r).routes);
      }
    }

    lemma SeenTables(was: Machine, first: Machine, second: Machine, third: Machine)
      requires CanBecome(was, first) && CanBecome(first, second) && CanBecome(second, third)
      requires TablesIn(was.mem) && Apart() && (was.executing.Some? ==> Loadable(was.mem))
      ensures CanBecome(was, third) && TablesIn(first.mem) && TablesIn(second.mem) && TablesIn(third.mem)
      ensures first.mem in {was.mem, third.mem} && second.mem in {was.mem, third.mem}
      ensures was.executing != Some(LowRate) ==> TableAt(first.mem, At(LowRate)) == TableAt(third.mem, At(LowRate))
      ensures was.executing != Some(MidRate) ==> TableAt(second.mem, At(MidRate)) == TableAt(third.mem, At(MidRate))
    {
      hide Loaded, TableAt, CanBecome, TablesIn, Loadable, Apart;
      BecomeTransitive(was, first, second);
      SeenTable(was, second, third, MidRate);
      BecomeTransitive(first, second, third);
      SeenTable(was, first, third, LowRate);
    }

    /** On the way the memory is the first or the last, and all tables but the one being loaded are the
        same. */
    lemma SeenTable(s: Machine, t: Machine, u: Machine, r: Rate)
      requires CanBecome(s, t) && CanBecome(t, u) && TablesIn(s.mem) && Apart()
      requires s.executing.Some? ==> Loadable(s.mem)
      ensures CanBecome(s, u) && TablesIn(t.mem) && TablesIn(u.mem) && (t.mem == s.mem || t.mem == u.mem)
      ensures s.executing != Some(r) ==> TableAt(t.mem, At(r)) == TableAt(u.mem, At(r))
    {
      hide Loaded, TableAt;
      BecomeTransitive(s, t, u);
      BecomeTables(s, t);
      BecomeTables(s, u);
    }

    // ---- uploading while the device may still be loading ----

    /** The uploaded table is the one before, none at all, or the wanted one. */
    ghost predicate Offered(t: seq<Route>, before: seq<Route>, wanted: seq<Route>) {
      t == before || t == [] || t == wanted
    }

    /** During an upload that began on memory was with pend being loaded: no table in use has changed
        but that one, and that one only to something the upload space offered meanwhile. */
    ghost predicate Handled(s: Machine, was: seq<nat>, pend: Option<Rate>, wanted: seq<Route>)
      requires TablesIn(was) && (pend.Some? ==> Loadable(was))
    {
      && TablesIn(s.mem) && (s.executing.Some? ==> s.executing == pend)
      && (pend.Some? ==> Loadable(s.mem))
      && (pend.Some? ==> Offered(TableAt(s.mem, newRouting.start), TableAt(was, newRouting.start), wanted))
      && (forall r: Rate :: Settled(s, was, pend, wanted, r))
    }

    ghost predicate Settled(s: Machine, was: seq<nat>, pend: Option<Rate>, wanted: seq<Route>, r: Rate)
      requires TablesIn(was) && (pend.Some? ==> Loadable(was)) && TablesIn(s.mem)
    {
      || TableAt(s.mem, At(r)) == TableAt(was, At(r))
      || (pend == Some(r) && Took(s) && Offered(TableAt(s.mem, At(r)), TableAt(was, newRouting.start), wanted))
    }

    lemma BecomeHandled(s: Machine, t: Machine, was: seq<nat>, pend: Option<Rate>, wanted: seq<Route>)
      requires TablesIn(was) && (pend.Some? ==> Loadable(was)) && Apart()
      requires Handled(s, was, pend, wanted) && CanBecome(s, t)
      ensures Handled(t, was, pend, wanted)
    {
      hide TableAt, Loaded, Loadable, TablesIn;
      BecomeTables(s, t);
      forall r: Rate ensures Settled(t, was, pend, wanted, r) { assert Settled(s, was, pend, wanted, r); }
    }

    /** Writing to the upload space touches no table in use. */
    lemma WriteHandled(s: Machine, t: Machine, was: seq<nat>, pend: Option<Rate>, wanted: seq<Route>)
      requires TablesIn(was) && (pend.Some? ==> Loadable(was)) && Apart()
      requires Handled(s, was, pend, wanted) && t == s.(mem := t.mem)
      requires SameOutside(t.mem, s.mem, newRouting.start, MAX_ROUTES + 1)
      requires t.mem == s.mem || (Loadable(t.mem)
        && Offered(TableAt(t.mem, newRouting.start), if pend.Some? then TableAt(was, newRouting.start) else [], wanted))
      ensures Handled(t, was, pend, wanted)
      ensures TablesIn(t.mem) && |t.mem| == |s.mem| && (t.executing.Some? ==> Loadable(t.mem))
    {
      hide TableAt, Loadable, TablesIn;
      TablesKept(s.mem, t.mem, newRouting.start, MAX_ROUTES + 1);
      forall r: Rate ensures Settled(t, was, pend, wanted, r) { assert Settled(s, was, pend, wanted, r); }
    }

    lemma EmptyUpload(m: seq<nat>)
      requires newRouting.start < |m| && m[newRouting.start] == 0 && At(HighRate) + MAX_ROUTES + 1 <= |m|
      ensures Loadable(m) && TableAt(m, newRouting.start) == []
    {}

    /** The upload space looks the same. */
    ghost predicate SameUpload(a: seq<nat>, b: seq<nat>) {
      |a| == |b| && forall i :: newRouting.start <= i < newRouting.start + MAX_ROUTES + 1 && i < |a| ==> a[i] == b[i]
    }

    lemma BecomeUpload(s: Machine, t: Machine)
      requires CanBecome(s, t) && Apart()
      ensures SameUpload(s.mem, t.mem)
    {
      hide Patch;
      if s.executing.Some? && Loadable(s.mem) {
        var n := newRouting.start;
        PatchOutside(s.mem, At(s.executing.value), s.mem[n..n + 1 + s.mem[n]]);
      }
    }

    /** Zero-fill, entries and count, the device being free to act before and after each. A load that
        is still executing may take the table before the upload, none, or the new one. */
    method Upload(cfg: RouterConfig) returns (ok: bool)
      requires Ready()
      modifies this`executing, this`retval, this`accepted, device
      ensures Ready() && Handled(Now(), old(device.mem), old(executing), Saved(cfg.routes))
      ensures old(executing).None? ==> accepted == old(accepted)
      ensures ok ==> Loadable(device.mem) && TableAt(device.mem, newRouting.start) == Saved(cfg.routes)
      ensures ok ==> FromWire(device.mem, newRouting.start, Saved(cfg.routes))
      ensures device.failures >= old(device.failures)
      ensures device.failures == old(device.failures) && Roomy() ==> ok
    {
      hide TableAt, TablesIn, Loaded, SameOutside, Handled, FromWire;
      ghost var was, pend, wanted := device.mem, executing, Saved(cfg.routes);
      HandledStart(Now(), wanted);
      ok := ClearStep(was, pend, wanted);
      if !ok { return; }
      ok := EntriesStep(cfg, was, pend, wanted);
      if !ok { return; }
      ok := CountStep(cfg, was, pend, wanted);
      TableFromWire(device.mem, newRouting.start, wanted);
    }

    lemma HandledStart(s: Machine, wanted: seq<Route>)
      requires TablesIn(s.mem) && (s.executing.Some? ==> Loadable(s.mem))
      ensures Handled(s, s.mem, s.executing, wanted)
    {}

    /** The device may act while an upload is under way. */
    method ActHandled(ghost was: seq<nat>, ghost pend: Option<Rate>, ghost wanted: seq<Route>)
      requires TablesIn(was) && (pend.Some? ==> Loadable(was)) && Ready() && Handled(Now(), was, pend, wanted)
      modifies this`executing, this`retval, this`accepted, device`mem
      ensures Ready() && Handled(Now(), was, pend, wanted) && SameUpload(old(device.mem), device.mem)
      ensures old(executing).None? ==> executing.None? && accepted == old(accepted)
      ensures pend.None? ==> device.mem == old(device.mem)
      ensures Loadable(old(device.mem)) ==>
        Loadable(device.mem) && TableAt(device.mem, newRouting.start) == TableAt(old(device.mem), newRouting.start)
    {
      hide TableAt, Loaded, Loadable, TablesIn;
      ghost var before := Now();
      DeviceActs();
      BecomeHandled(before, Now(), was, pend, wanted);
      BecomeUpload(before, Now());
      BecomeTables(before, Now());
    }

    method ClearStep(ghost was: seq<nat>, ghost pend: Option<Rate>, ghost wanted: seq<Route>) returns (ok: bool)
      requires TablesIn(was) && (pend.Some? ==> Loadable(was)) && Ready() && Handled(Now(), was, pend, wanted)
      modifies this`executing, this`retval, this`accepted, device
      ensures Ready() && Handled(Now(), was, pend, wanted)
      ensures old(executing).None? ==> executing.None? && accepted == old(accepted)
      ensures device.failures >= old(device.failures) && (device.failures == old(device.failures) && Roomy() ==> ok)
      ensures ok ==> device.mem[newRouting.start] == 0
    {
      hide TableAt, Loaded, TablesIn, SameOutside, Handled;
      ActHandled(was, pend, wanted);
      ghost var before := Now();
      ok := ClearTable(device, newRouting, 0, maxEntries);
      if device.mem != before.mem { EmptyUpload(device.mem); }
      WriteHandled(before, Now(), was, pend, wanted);
    }

    method EntriesStep(cfg: RouterConfig, ghost was: seq<nat>, ghost pend: Option<Rate>, ghost wanted: seq<Route>)
      returns (ok: bool)
      requires TablesIn(was) && (pend.Some? ==> Loadable(was)) && Ready() && Handled(Now(), was, pend, wanted)
      requires device.mem[newRouting.start] == 0
      modifies this`executing, this`retval, this`accepted, device
      ensures Ready() && Handled(Now(), was, pend, wanted)
      ensures old(executing).None? ==> executing.None? && accepted == old(accepted)
      ensures device.failures >= old(device.failures) && (device.failures == old(device.failures) && Roomy() ==> ok)
      ensures ok ==> device.mem[newRouting.start] == 0 && EntriesIn(device.mem, Saved(cfg.routes))
    {
      hide TableAt, Loaded, TablesIn, Handled;
      EmptyUpload(device.mem);
      ActHandled(was, pend, wanted);
      ghost var before := Now();
      ok := WriteEntries(device, cfg, newRouting, 0);
      EmptyUpload(device.mem);
      WriteHandled(before, Now(), was, pend, wanted);
    }

    ghost predicate EntriesIn(m: seq<nat>, rs: seq<Route>) {
      var at := newRouting.start;
      rs == [] || (at + 1 + |rs| <= |m| && m[at + 1..at + 1 + |rs|] == EncodeAll(rs))
    }

    method CountStep(cfg: RouterConfig, ghost was: seq<nat>, ghost pend: Option<Rate>, ghost wanted: seq<Route>)
      returns (ok: bool)
      requires TablesIn(was) && (pend.Some? ==> Loadable(was)) && Ready() && Handled(Now(), was, pend, wanted)
      requires device.mem[newRouting.start] == 0 && wanted == Saved(cfg.routes) && EntriesIn(device.mem, wanted)
      modifies this`executing, this`retval, this`accepted, device
      ensures Ready() && Handled(Now(), was, pend, wanted)
      ensures old(executing).None? ==> executing.None? && accepted == old(accepted)
      ensures device.failures >= old(device.failures) && (device.failures == old(device.failures) && Roomy() ==> ok)
      ensures ok ==> Loadable(device.mem) && TableAt(device.mem, newRouting.start) == wanted
    {
      hide TableAt, Loaded, TablesIn, Handled, EncodeAll;
      EmptyUpload(device.mem);
      ghost var first := device.mem;
      ActHandled(was, pend, wanted);
      ghost var before := Now();
      EntriesSeen(first, device.mem, wanted);
      ok := WriteCount(device, cfg, newRouting, 0);
      EntriesStay(before.mem, newRouting.start, wanted);
      WriteHandled(before, Now(), was, pend, wanted);
      ActHandled(was, pend, wanted);
    }

    lemma EntriesSeen(a: seq<nat>, b: seq<nat>, rs: seq<Route>)
      requires EntriesIn(a, rs) && SameUpload(a, b) && |rs| <= MAX_ROUTES
      ensures EntriesIn(b, rs)
    {
      var at := newRouting.start;
      if rs != [] { assert a[at + 1..at + 1 + |rs|] == b[at + 1..at + 1 + |rs|]; }
    }

    // ---- the whole update ----

    /** How the tables can look in the end: as before, or as wanted for the rate, or, for a rate that
        was being loaded when it all began, as something the upload space offered meanwhile. */
    ghost predicate Outcome(s: Machine, was: seq<nat>, pend: Option<Rate>, rate: Rate, wanted: seq<Route>)
      requires TablesIn(was) && (pend.Some? ==> Loadable(was))
    {
      TablesIn(s.mem) && forall r: Rate :: OutcomeFor(s, was, pend, rate, wanted, r)
    }

    ghost predicate OutcomeFor(s: Machine, was: seq<nat>, pend: Option<Rate>, rate: Rate, wanted: seq<Route>, r: Rate)
      requires TablesIn(was) && (pend.Some? ==> Loadable(was)) && TablesIn(s.mem)
    {
      var t := TableAt(s.mem, At(r));
      || t == TableAt(was, At(r)) || (r == rate && t == wanted)
      || (pend == Some(r) && Offered(t, TableAt(was, newRouting.start), wanted))
    }

    lemma BecomeOutcome(s: Machine, t: Machine, was: seq<nat>, pend: Option<Rate>, rate: Rate, wanted: seq<Route>)
      requires TablesIn(was) && (pend.Some? ==> Loadable(was)) && Apart()
      requires Outcome(s, was, pend, rate, wanted) && CanBecome(s, t)
      requires Loadable(s.mem) && TableAt(s.mem, newRouting.start) == wanted
      requires s.executing.Some? ==> s.executing == Some(rate) || s.executing == pend
      ensures Outcome(t, was, pend, rate, wanted) && TablesIn(t.mem)
      ensures Loadable(t.mem) && TableAt(t.mem, newRouting.start) == wanted
    {
      hide TableAt, Loaded, Loadable, TablesIn;
      BecomeTables(s, t);
      forall r: Rate ensures OutcomeFor(t, was, pend, rate, wanted, r) {
        assert OutcomeFor(s, was, pend, rate, wanted, r);
      }
    }

    lemma HandledOutcome(s: Machine, was: seq<nat>, pend: Option<Rate>, rate: Rate, wanted: seq<Route>)
      requires TablesIn(was) && (pend.Some? ==> Loadable(was)) && Handled(s, was, pend, wanted)
      ensures Outcome(s, was, pend, rate, wanted)
    {
      hide TableAt, Loadable, TablesIn;
      forall r: Rate ensures OutcomeFor(s, was, pend, rate, wanted, r) { assert Settled(s, was, pend, wanted, r); }
    }

    /** With the device at rest to begin with, exactly the rate's table changes, and exactly if the
        device took the wanted one. */
    ghost predicate Exact(s: Machine, was: seq<nat>, rate: Rate, wanted: seq<Route>)
      requires TablesIn(was)
    {
      && TablesIn(s.mem) && (s.executing.Some? ==> s.executing == Some(rate) && !s.accepted)
      && forall r: Rate :: TableAt(s.mem, At(r)) == if r == rate && s.accepted then wanted else TableAt(was, At(r))
    }

    lemma BecomeExact(s: Machine, t: Machine, was: seq<nat>, rate: Rate, wanted: seq<Route>)
      requires TablesIn(was) && Apart() && Exact(s, was, rate, wanted) && CanBecome(s, t)
      requires Loadable(s.mem) && TableAt(s.mem, newRouting.start) == wanted
      ensures Exact(t, was, rate, wanted)
    {
      hide TableAt, Loaded, Loadable, TablesIn;
      BecomeTables(s, t);
    }

    /** Issues the load and lets the device work on it. */
    method LoadUploaded(rate: Rate, ghost was: seq<nat>, ghost pend: Option<Rate>, ghost wanted: seq<Route>)
      returns (loaded: bool)
      requires TablesIn(was) && (pend.Some? ==> Loadable(was)) && Ready()
      requires Handled(Now(), was, pend, wanted) && (pend.None? ==> !accepted)
      requires Loadable(device.mem) && TableAt(device.mem, newRouting.start) == wanted
      modifies this, device
      ensures Ready() && Outcome(Now(), was, pend, rate, wanted) && (pend.None? ==> Exact(Now(), was, rate, wanted))
      ensures Loadable(device.mem) && TableAt(device.mem, newRouting.start) == wanted
      ensures executing.Some? ==> executing == Some(rate) || executing == pend
      ensures loaded ==> accepted && executing.None? && Table(rate) == wanted
      ensures device.failures >= old(device.failures)
      ensures device.failures == old(device.failures) && pend.None? && executing.Some? ==>
        polls == old(polls) + 101
      ensures device.failures == old(device.failures) && executing.None? ==> loaded == accepted
    {
      hide TableAt, Loaded, Loadable, TablesIn, Handled, Outcome, CanBecome;
      ghost var start := Now();
      HandledFacts(start, was, pend, wanted);
      HandledOutcome(start, was, pend, rate, wanted);
      ghost var issued, mid, unread;
      loaded, issued, mid, unread := LoadRouterConfig(rate);
      BecomeOutcome(start, mid, was, pend, rate, wanted);
      BecomeFacts(start, mid);
      if issued {
        OutcomeIssued(mid, was, pend, rate, wanted);
        BecomeOutcome(Issued(mid, rate), Now(), was, pend, rate, wanted);
        BecomeFacts(Issued(mid, rate), Now());
        BecomeTables(Issued(mid, rate), Now());
        if pend.None? { BecomeExact(Issued(mid, rate), Now(), was, rate, wanted); }
      }
    }

    lemma HandledFacts(s: Machine, was: seq<nat>, pend: Option<Rate>, wanted: seq<Route>)
      requires TablesIn(was) && (pend.Some? ==> Loadable(was)) && Handled(s, was, pend, wanted)
      ensures s.executing.Some? ==> s.executing == pend
      ensures pend.None? ==> TablesIn(s.mem) && forall r: Rate :: TableAt(s.mem, At(r)) == TableAt(was, At(r))
    {
      hide TableAt, Loadable;
      forall r: Rate | pend.None? ensures TableAt(s.mem, At(r)) == TableAt(was, At(r)) {
        assert Settled(s, was, pend, wanted, r);
      }
    }

    lemma BecomeFacts(s: Machine, t: Machine)
      requires CanBecome(s, t)
      ensures s.executing.None? ==> t == s
      ensures t.executing.Some? ==> t == s
      ensures s.executing.Some? && t.executing.None? ==> (t.retval == 0 <==> t.accepted)
    {}

    lemma OutcomeIssued(s: Machine, was: seq<nat>, pend: Option<Rate>, rate: Rate, wanted: seq<Route>)
      requires TablesIn(was) && (pend.Some? ==> Loadable(was)) && Outcome(s, was, pend, rate, wanted)
      ensures Outcome(Issued(s, rate), was, pend, rate, wanted)
    {
      hide TableAt, Loadable, TablesIn;
      forall r: Rate ensures OutcomeFor(Issued(s, rate), was, pend, rate, wanted, r) {
        assert OutcomeFor(s, was, pend, rate, wanted, r);
      }
    }

    /** Upload a table, have it loaded for one rate, and read all tables back in any case. Without failed
        transactions it succeeds exactly if the device took the table before the re-reads. pending is
        the rate the device was still loading when they were read back, if any; then the cache is
        coherent exactly if the table seen for that rate is the one the device ended up with. */
    method UpdateRouterConfig(cfg: RouterConfig, rate: Rate)
      returns (ok: bool, ghost uploaded: bool, ghost routersRead: bool, ghost pending: Option<Rate>,
               ghost seen: seq<nat>)
      requires Ready()
      modifies this, device, low, mid, high
      ensures Ready() && TablesIn(seen) && (ok ==> uploaded && routersRead && pending.None? && accepted)
      ensures ok ==> Coherent() && Table(rate) == old(Saved(cfg.routes))
      ensures Outcome(Now(), old(device.mem), old(executing), rate, old(Saved(cfg.routes)))
      ensures old(executing).None? ==> Exact(Now(), old(device.mem), rate, old(Saved(cfg.routes)))
      ensures uploaded && routersRead ==>
        (Coherent() <==> pending.None? || TableAt(seen, At(pending.value)) == Table(pending.value))
      ensures pending.Some? ==> pending == Some(rate) || pending == old(executing)
      ensures uploaded && executing.Some? ==> executing == pending
      ensures uploaded ==> Loadable(device.mem) && TableAt(device.mem, newRouting.start) == old(Saved(cfg.routes))
      ensures device.failures >= old(device.failures)
      ensures device.failures == old(device.failures) && Roomy() ==> uploaded && routersRead
      ensures device.failures == old(device.failures) && Roomy() ==> (ok <==> pending.None? && accepted)
      ensures device.failures == old(device.failures) && old(executing).None? && pending.Some? ==>
        polls == old(polls) + 101
      ensures uploaded && !routersRead ==> exists r: Rate :: Cached(r).routes == []
      ensures !uploaded && old(executing).None? ==> !accepted
      ensures !uploaded ==> pending.None? && forall r: Rate :: Cached(r).routes == old(Cached(r).routes)
    {
      hide TableAt, Loaded, Loadable, TablesIn, Handled, Outcome, Exact, CanBecome;
      ghost var was, pend, wanted := device.mem, executing, Saved(cfg.routes);
      uploaded, routersRead, pending, seen := false, false, None, was;
      accepted := false;
      var good := Upload(cfg);
      HandledOutcome(Now(), was, pend, rate, wanted);
      if pend.None? { HandledExact(Now(), was, rate, wanted); }
      if !good { return false, uploaded, routersRead, pending, seen; }
      uploaded := true;
      var loaded := LoadUploaded(rate, was, pend, wanted);
      ghost var before := Now();
      pending := executing;
      ok, routersRead, seen := UpdateConfigurationCache();
      ok := ok && loaded;
      BecomeFacts(before, Now());
      BecomeOutcome(before, Now(), was, pend, rate, wanted);
      if pend.None? { BecomeExact(before, Now(), was, rate, wanted); }
    }

    lemma HandledExact(s: Machine, was: seq<nat>, rate: Rate, wanted: seq<Route>)
      requires TablesIn(was) && Handled(s, was, None, wanted) && !s.accepted
      ensures Exact(s, was, rate, wanted)
    {
      hide TableAt, TablesIn;
      HandledFacts(s, was, None, wanted);
    }

    /** Changes the cached table first and uploads it afterwards. Without failed transactions the
        upload and the re-reads succeed, and they make the cache coherent unless the device is still
        loading after MAX_WAITS polls; then it is coherent exactly if the table seen for that rate is
        the one the device ended up with. If the device was at rest, only the current rate's table
        changes, and exactly if it accepted; when the upload fails the cache keeps the change, and when
        a re-read fails it has an empty table. */
    method SetConnectionState(source: int, dest: int, enable: bool, current: Option<Rate>)
      returns (ret: bool, ghost uploaded: bool, ghost routersRead: bool, ghost pending: Option<Rate>,
               ghost seen: seq<nat>)
      requires Ready() && Coherent()
      modifies this, device, low, mid, high
      ensures Ready() && TablesIn(seen)
      ensures current.None? ==> !ret && Coherent() && forall r: Rate :: Table(r) == old(Table(r))
      ensures current.Some? ==>
        var rate, was := current.value, old(Table(current.value));
        var changed := Changed(was, source, dest, enable, Cached(rate).muteId);
        && (ret <==> enable || dest % 256 in AsMap(was))
        && Outcome(Now(), old(device.mem), old(executing), rate, Saved(changed))
        && (old(executing).None? ==> Exact(Now(), old(device.mem), rate, Saved(changed)))
        && (uploaded && executing.Some? ==> executing == pending)
        && (uploaded ==> Loadable(device.mem) && TableAt(device.mem, newRouting.start) == Saved(changed))
        && (old(executing).None? && !uploaded ==> !accepted && (Coherent() <==> changed == was))
      ensures uploaded && routersRead ==>
        (Coherent() <==> pending.None? || TableAt(seen, At(pending.value)) == Table(pending.value))
      ensures uploaded && !routersRead ==> exists r: Rate :: Cached(r).routes == []
      ensures uploaded && !routersRead && Coherent() ==> exists r: Rate :: Table(r) == []
      ensures current.Some? && device.failures == old(device.failures) && Roomy() ==> uploaded && routersRead
      ensures device.failures == old(device.failures) && old(executing).None? && pending.Some? ==>
        polls == old(polls) + 101
    {
      hide AsMap, IndexOf, Assigned, TableAt, Loaded, Loadable, TablesIn, Outcome;
      uploaded, routersRead, pending, seen := false, false, None, device.mem;
      if current.None? { return false, uploaded, routersRead, pending, seen; }
      var rate := current.value;
      var cfg := Cached(rate);
      if enable {
        ret := cfg.SetupRoute(source % 256, dest % 256);
      } else {
        ret := cfg.MuteRoute(dest % 256);
      }
      var updated;
      updated, uploaded, routersRead, pending, seen := UpdateRouterConfig(cfg, rate);
    }

    /** Has the device route nothing at the current rate. */
    method ClearAllConnections(current: Option<Rate>, mute: Byte) returns (ok: bool, ghost pending: Option<Rate>)
      requires Ready()
      modifies this, device, low, mid, high
      ensures Ready() && (ok ==> current.Some? && Coherent() && pending.None? && Table(current.value) == [])
      ensures current.None? ==> forall r: Rate :: Table(r) == old(Table(r))
      ensures current.Some? ==> Outcome(Now(), old(device.mem), old(executing), current.value, [])
      ensures current.Some? && old(executing).None? ==> Exact(Now(), old(device.mem), current.value, [])
      ensures current.Some? && device.failures == old(device.failures) && Roomy() ==>
        (ok <==> pending.None? && accepted)
    {
      hide TableAt, Loaded, Loadable, TablesIn, Outcome, Exact;
      pending := None;
      var newcfg := new RouterConfig(mute);
      if current.None? { return false, pending; }
      ghost var uploaded, routersRead, seen;
      ok, uploaded, routersRead, pending, seen := UpdateRouterConfig(newcfg, current.value);
    }

    /** A load that ends after the tables were read back: a cache that had them right has them right
        still exactly if the uploaded table is the one that was there already. */
    lemma LateLoad(s: Machine)
      requires s.executing.Some? && TablesIn(s.mem) && Loadable(s.mem)
      ensures var t := Finished(s, true);
        && TablesIn(t.mem)
        && ((forall r: Rate :: TableAt(t.mem, At(r)) == TableAt(s.mem, At(r))) <==>
            TableAt(s.mem, newRouting.start) == TableAt(s.mem, At(s.executing.value)))
    {
      hide TableAt, Loaded, TablesIn;
      LoadedTables(s.mem, s.executing.value);
    }

    /** A load that ends right after the zero-fill of another upload empties the table. */
    lemma LoadDuringUpload(s: Machine)
      requires s.executing.Some? && TablesIn(s.mem) && Loadable(s.mem) && s.mem[newRouting.start] == 0
      ensures var t := Finished(s, true);
        TablesIn(t.mem) && TableAt(t.mem, At(s.executing.value)) == []
    {
      LoadedTables(s.mem, s.executing.value);
    }
  }

  /** The table a connection request asks for. */
  function Changed(rs: seq<Route>, source: int, dest: int, enable: bool, muteId: Byte): (r: seq<Route>) {
    if enable then Assigned(rs, source % 256, dest % 256)
    else if dest % 256 in AsMap(rs) then Assigned(rs, muteId, dest % 256)
    else rs
  }

  /** As a map, only the requested destination's source differs. */
  lemma ChangedIsLocal(rs: seq<Route>, source: int, dest: int, enable: bool, muteId: Byte)
    ensures AsMap(Changed(rs, source, dest, enable, muteId))
         == if enable then AsMap(rs)[dest % 256 := source % 256]
            else if dest % 256 in AsMap(rs) then AsMap(rs)[dest % 256 := muteId]
            else AsMap(rs)
    ensures Unique(rs) ==> Unique(Changed(rs, source, dest, enable, muteId))
  {
    AssignedIsUpdate(rs, if enable then source % 256 else muteId, dest % 256);
  }
}
