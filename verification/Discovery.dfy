/** The device manager's list of devices: reconciled with the bus and put in an order that depends
    only on which devices there are. */
module Discovery {
  import opened Basics
  import opened Sequences
  import opened DeviceStrings

  datatype AvDevice = AvDevice(rom: Rom)

  predicate DistinctGuids(ds: seq<AvDevice>) {
    forall i, j :: 0 <= i < j < |ds| ==> ds[i].rom.guid != ds[j].rom.guid
  }

  predicate HasGuid(ds: seq<AvDevice>, guid: nat) {
    exists i :: 0 <= i < |ds| && ds[i].rom.guid == guid
  }

  predicate GuidSeen(roms: seq<Rom>, guid: nat) {
    exists i :: 0 <= i < |roms| && roms[i].guid == guid
  }

  /** A listed device that stays: read on the bus again and, if it needs it, rediscovered. */
  predicate Survives(d: AvDevice, roms: seq<Rom>, needs: AvDevice -> bool, rediscovers: AvDevice -> bool) {
    GuidSeen(roms, d.rom.guid) && (needs(d) ==> rediscovers(d))
  }

  // ---- the order ----

  /** The driver compares GUIDs with >, so the highest GUID comes first. */
  predicate GuidBefore(a: AvDevice, b: AvDevice) {
    a.rom.guid > b.rom.guid
  }

  /** By spec position, then by GUID; without specs by GUID alone. */
  predicate Before(specs: seq<Spec>, a: AvDevice, b: AvDevice) {
    if specs == [] then GuidBefore(a, b)
    else
      var p, q := Position(specs, a.rom), Position(specs, b.rom);
      p < q || (p == q && GuidBefore(a, b))
  }

  ghost predicate Ordered(ds: seq<AvDevice>, specs: seq<Spec>) {
    Sorted(ds, (a, b) => Before(specs, a, b))
  }

  /** The order of the list is a function of the set of devices. */
  lemma OrderIsCanonical(a: seq<AvDevice>, b: seq<AvDevice>, specs: seq<Spec>)
    requires Ordered(a, specs) && Ordered(b, specs) && forall d :: d in a <==> d in b
    ensures a == b
  {
    SortedUnique(a, b, (x, y) => Before(specs, x, y));
  }

  // ---- sorting by GUID ----

  function Insert(d: AvDevice, ds: seq<AvDevice>): (r: seq<AvDevice>) {
    if ds == [] || GuidBefore(d, ds[0]) then [d] + ds else [ds[0]] + Insert(d, ds[1..])
  }

  function SortByGuid(ds: seq<AvDevice>): (r: seq<AvDevice>) {
    if ds == [] then [] else Insert(ds[0], SortByGuid(ds[1..]))
  }

  lemma {:induction false} InsertElement(d: AvDevice, ds: seq<AvDevice>, x: AvDevice)
    ensures x in Insert(d, ds) <==> x == d || x in ds
    decreases |ds|
  {
    if ds != [] && !GuidBefore(d, ds[0]) {
      InsertElement(d, ds[1..], x);
      assert ds == [ds[0]] + ds[1..];
    }
  }

  lemma {:induction false} InsertSorted(d: AvDevice, ds: seq<AvDevice>)
    requires Sorted(ds, GuidBefore) && !HasGuid(ds, d.rom.guid)
    ensures Sorted(Insert(d, ds), GuidBefore)
    decreases |ds|
  {
    if ds != [] && !GuidBefore(d, ds[0]) {
      assert forall i :: 0 <= i < |ds[1..]| ==> ds[1..][i] == ds[i + 1];
      InsertSorted(d, ds[1..]);
      forall x | x in Insert(d, ds[1..]) ensures GuidBefore(ds[0], x) {
        InsertElement(d, ds[1..], x);
      }
      SortedConcat([ds[0]], Insert(d, ds[1..]), GuidBefore);
    }
  }

  lemma {:induction false} SortElement(ds: seq<AvDevice>, x: AvDevice)
    ensures x in SortByGuid(ds) <==> x in ds
    decreases |ds|
  {
    if ds != [] {
      SortElement(ds[1..], x);
      InsertElement(ds[0], SortByGuid(ds[1..]), x);
      assert ds == [ds[0]] + ds[1..];
    }
  }

  lemma {:induction false} SortSorted(ds: seq<AvDevice>)
    requires DistinctGuids(ds)
    ensures Sorted(SortByGuid(ds), GuidBefore)
    decreases |ds|
  {
    if ds != [] {
      SortSorted(ds[1..]);
      var rest := SortByGuid(ds[1..]);
      forall i | 0 <= i < |rest| ensures rest[i].rom.guid != ds[0].rom.guid {
        SortElement(ds[1..], rest[i]);
      }
      InsertSorted(ds[0], rest);
    }
  }

  // ---- the bucket pass ----

  /** The devices whose first matching spec is one of the first n, spec by spec. */
  function Buckets(ds: seq<AvDevice>, specs: seq<Spec>, n: nat): (r: seq<AvDevice>) {
    if n == 0 then []
    else Buckets(ds, specs, n - 1) + Filter(ds, (d: AvDevice) => Position(specs, d.rom) == n - 1)
  }

  lemma BucketsStep(ds: seq<AvDevice>, specs: seq<Spec>, n: nat)
    ensures Buckets(ds, specs, n + 1)
         == Buckets(ds, specs, n) + Filter(ds, (d: AvDevice) => Position(specs, d.rom) == n)
  {
    var m := n + 1;
    assert Filter(ds, (d: AvDevice) => Position(specs, d.rom) == m - 1)
        == Filter(ds, (d: AvDevice) => Position(specs, d.rom) == n);
  }

  lemma {:induction false} BucketElement(ds: seq<AvDevice>, specs: seq<Spec>, n: nat, x: AvDevice)
    ensures x in Buckets(ds, specs, n) <==> x in ds && 0 <= Position(specs, x.rom) < n
    decreases n
  {
    if n != 0 {
      BucketElement(ds, specs, n - 1, x);
      FilterElement(ds, (d: AvDevice) => Position(specs, d.rom) == n - 1, x);
    }
  }

  lemma {:induction false} BucketsOrdered(ds: seq<AvDevice>, specs: seq<Spec>, n: nat)
    requires specs != [] && Sorted(ds, GuidBefore)
    ensures Ordered(Buckets(ds, specs, n), specs)
    decreases n
  {
    hide Filter, Position;
    if n != 0 {
      var at := (d: AvDevice) => Position(specs, d.rom) == n - 1;
      var f, a := Filter(ds, at), Buckets(ds, specs, n - 1);
      BucketsOrdered(ds, specs, n - 1);
      BucketOrdered(ds, specs, n - 1);
      forall x | x in f ensures Position(specs, x.rom) == n - 1 { FilterElement(ds, at, x); }
      forall x | x in a ensures Position(specs, x.rom) < n - 1 { BucketElement(ds, specs, n - 1, x); }
      SortedConcat(a, f, (x, y) => Before(specs, x, y));
    }
  }

  lemma BucketOrdered(ds: seq<AvDevice>, specs: seq<Spec>, n: int)
    requires specs != [] && Sorted(ds, GuidBefore)
    ensures Ordered(Filter(ds, (d: AvDevice) => Position(specs, d.rom) == n), specs)
  {
    hide Filter, Position;
    var at := (d: AvDevice) => Position(specs, d.rom) == n;
    var f := Filter(ds, at);
    FilterSorted(ds, at, GuidBefore);
    forall i | 0 <= i < |f| ensures Position(specs, f[i].rom) == n { FilterElement(ds, at, f[i]); }
  }

  lemma {:induction false} BucketCount(ds: seq<AvDevice>, specs: seq<Spec>, n: nat)
    ensures |Buckets(ds, specs, n)| == |Filter(ds, (d: AvDevice) => 0 <= Position(specs, d.rom) < n)|
    decreases n
  {
    var below := (d: AvDevice) => 0 <= Position(specs, d.rom) < n;
    if n == 0 {
      FilterNothing(ds, below);
    } else {
      BucketCount(ds, specs, n - 1);
      FilterPartition(ds, (d: AvDevice) => 0 <= Position(specs, d.rom) < n - 1,
                      (d: AvDevice) => Position(specs, d.rom) == n - 1, below);
    }
  }

  lemma {:induction false} FilterNothing<T(!new)>(s: seq<T>, p: T -> bool)
    requires forall x :: !p(x)
    ensures Filter(s, p) == []
    decreases |s|
  {
    if s != [] { FilterNothing(s[..|s| - 1], p); }
  }

  /** The bucket pass loses no device exactly when every device matches some spec. */
  lemma BucketsComplete(ds: seq<AvDevice>, specs: seq<Spec>)
    ensures |Buckets(ds, specs, |specs|)| == |ds| <==> forall d :: d in ds ==> Position(specs, d.rom) >= 0
  {
    var n := |specs|;
    var below := (d: AvDevice) => 0 <= Position(specs, d.rom) < n;
    BucketCount(ds, specs, n);
    FilterLength(ds, below);
    assert (forall d :: d in ds ==> Position(specs, d.rom) >= 0) <==> forall i :: 0 <= i < |ds| ==> below(ds[i]);
  }

  lemma GuidsDetermine(ds: seq<AvDevice>, a: AvDevice, b: AvDevice)
    requires DistinctGuids(ds) && a in ds && b in ds && a.rom.guid == b.rom.guid
    ensures a == b
  {}

  /** A strictly ordered list of devices taken from one with distinct GUIDs has distinct GUIDs. */
  lemma OrderedDistinct(ds: seq<AvDevice>, from: seq<AvDevice>, specs: seq<Spec>)
    requires Ordered(ds, specs) && DistinctGuids(from) && forall d :: d in ds ==> d in from
    ensures DistinctGuids(ds)
  {
    var lt := (a, b) => Before(specs, a, b);
    forall i, j | 0 <= i < j < |ds| ensures ds[i].rom.guid != ds[j].rom.guid {
      assert lt(ds[i], ds[j]);
      if ds[i].rom.guid == ds[j].rom.guid { GuidsDetermine(from, ds[i], ds[j]); }
    }
  }

  lemma FilterGuids(ds: seq<AvDevice>, p: AvDevice -> bool)
    requires DistinctGuids(ds)
    ensures DistinctGuids(Filter(ds, p))
    decreases |ds|
  {
    if ds != [] {
      var k := |ds| - 1;
      FilterGuids(ds[..k], p);
      forall x | x in Filter(ds[..k], p) ensures x.rom.guid != ds[k].rom.guid { FilterElement(ds[..k], p, x); }
    }
  }

  lemma GuidAppended(ds: seq<AvDevice>, d: AvDevice, guid: nat)
    ensures HasGuid(ds, guid) || guid == d.rom.guid ==> HasGuid(ds + [d], guid)
  {
    if HasGuid(ds, guid) {
      var i :| 0 <= i < |ds| && ds[i].rom.guid == guid;
      assert (ds + [d])[i] == ds[i];
    } else {
      assert (ds + [d])[|ds|] == d;
    }
  }

  lemma GuidKept(a: seq<AvDevice>, b: seq<AvDevice>, guid: nat)
    requires HasGuid(a, guid) && forall d :: d in a ==> d in b
    ensures HasGuid(b, guid)
  {
    var i :| 0 <= i < |a| && a[i].rom.guid == guid;
    assert a[i] in b;
  }

  class DeviceManager {
    var avDevices: seq<AvDevice>

    ghost predicate Valid()
      reads this
    {
      DistinctGuids(avDevices)
    }

    constructor ()
      ensures Valid() && avDevices == []
    {
      avDevices := [];
    }

    /** A bus reset on a port: every device there looks up its node again by its GUID and keeps the old
        one if it is not found; devices on other ports are left alone. */
    method HandleBusReset(port: nat, node: nat -> Option<nat>)
      requires Valid()
      modifies this
      ensures Valid() && |avDevices| == |old(avDevices)|
      ensures forall i :: 0 <= i < |avDevices| ==>
        avDevices[i].rom.guid == old(avDevices)[i].rom.guid && avDevices[i].rom.port == old(avDevices)[i].rom.port
      ensures forall i :: 0 <= i < |avDevices| && old(avDevices)[i].rom.port == port ==>
        node(avDevices[i].rom.guid).Some? ==> node(avDevices[i].rom.guid) == Some(avDevices[i].rom.nodeId)
      ensures forall i :: 0 <= i < |avDevices| ==>
        old(avDevices)[i].rom.port != port || node(avDevices[i].rom.guid).None? ==> avDevices[i] == old(avDevices)[i]
    {
      for k := 0 to |avDevices|
        invariant |avDevices| == |old(avDevices)|
        invariant forall i :: 0 <= i < |avDevices| ==>
          avDevices[i].rom == old(avDevices)[i].rom.(nodeId := avDevices[i].rom.nodeId)
        invariant forall i :: 0 <= i < k && old(avDevices)[i].rom.port == port ==>
          node(avDevices[i].rom.guid).Some? ==> node(avDevices[i].rom.guid) == Some(avDevices[i].rom.nodeId)
        invariant forall i :: 0 <= i < |avDevices| ==>
          k <= i || old(avDevices)[i].rom.port != port || node(avDevices[i].rom.guid).None? ==>
            avDevices[i] == old(avDevices)[i]
      {
        var rom := avDevices[k].rom;
        if rom.port == port {
          var found := node(rom.guid);
          if found.Some? { avDevices := avDevices[k := AvDevice(rom.(nodeId := found.value))]; }
        }
      }
    }

    /** Devices whose GUID was not read on the bus are dropped. */
    method DropVanished(configRoms: seq<Rom>)
      modifies this
      ensures avDevices == Filter(old(avDevices), (d: AvDevice) => GuidSeen(configRoms, d.rom.guid))
    {
      var onBus: seq<AvDevice> := [];
      ghost var seen := (d: AvDevice) => GuidSeen(configRoms, d.rom.guid);
      for i := 0 to |avDevices|
        invariant avDevices == old(avDevices) && onBus == Filter(avDevices[..i], seen)
      {
        var d, seenDevice := avDevices[i], false;
        for j := 0 to |configRoms|
          invariant seenDevice <==> exists k :: 0 <= k < j && configRoms[k].guid == d.rom.guid
        {
          seenDevice := seenDevice || d.rom.guid == configRoms[j].guid;
        }
        FilterStep(avDevices, seen, i);
        if seenDevice { onBus := onBus + [d]; }
      }
      assert avDevices[..|avDevices|] == avDevices;
      avDevices := onBus;
    }

    /** Devices that need rediscovery and fail it are dropped. */
    method DropFailed(needs: AvDevice -> bool, rediscovers: AvDevice -> bool)
      modifies this
      ensures avDevices == Filter(old(avDevices), (d: AvDevice) => needs(d) ==> rediscovers(d))
    {
      var failed: seq<AvDevice> := [];
      for i := 0 to |avDevices|
        invariant avDevices == old(avDevices)
        invariant forall d :: d in failed <==> d in avDevices[..i] && needs(d) && !rediscovers(d)
      {
        if needs(avDevices[i]) && !rediscovers(avDevices[i]) { failed := failed + [avDevices[i]]; }
      }
      var toKeep: seq<AvDevice> := [];
      ghost var kept := (d: AvDevice) => needs(d) ==> rediscovers(d);
      assert avDevices[..|avDevices|] == avDevices;
      for i := 0 to |avDevices|
        invariant avDevices == old(avDevices) && toKeep == Filter(avDevices[..i], kept)
      {
        FilterStep(avDevices, kept, i);
        if avDevices[i] !in failed { toKeep := toKeep + [avDevices[i]]; }
      }
      avDevices := toKeep;
    }

    /** New devices for which a driver works are appended; with spec strings only those that match one. */
    method PickUpNew(probed: seq<Rom>, specs: seq<Spec>, works: Rom -> bool)
      requires Valid()
      modifies this
      ensures Valid() && old(avDevices) <= avDevices
      ensures forall r :: r in probed ==>
        HasGuid(avDevices, r.guid) || !works(r) || (specs != [] && Position(specs, r) < 0)
      ensures forall d :: d in avDevices ==>
        d in old(avDevices) || (d.rom in probed && works(d.rom) && (specs != [] ==> Position(specs, d.rom) >= 0))
    {
      for i := 0 to |probed|
        invariant Valid() && old(avDevices) <= avDevices
        invariant forall k :: 0 <= k < i ==>
          HasGuid(avDevices, probed[k].guid) || !works(probed[k]) || (specs != [] && Position(specs, probed[k]) < 0)
        invariant forall d :: d in avDevices ==>
          d in old(avDevices) || (d.rom in probed && works(d.rom) && (specs != [] ==> Position(specs, d.rom) >= 0))
      {
        var rom, alreadyInVector := probed[i], false;
        for j := 0 to |avDevices|
          invariant !alreadyInVector ==> forall k :: 0 <= k < j ==> avDevices[k].rom.guid != rom.guid
          invariant alreadyInVector ==> HasGuid(avDevices, rom.guid)
        {
          if avDevices[j].rom.guid == rom.guid { alreadyInVector := true; break; }
        }
        if alreadyInVector { continue; }
        if specs != [] && Position(specs, rom) == -1 { continue; }
        if works(rom) {
          ghost var before := avDevices;
          avDevices := avDevices + [AvDevice(rom)];
          forall g ensures HasGuid(before, g) || g == rom.guid ==> HasGuid(avDevices, g) {
            GuidAppended(before, AvDevice(rom), g);
          }
        }
      }
    }

    /** Sorts by GUID and, with spec strings, into buckets by spec position. False stands for the
        failed assertion that the buckets hold every device. */
    method OrderDevices(specs: seq<Spec>) returns (ok: bool)
      requires Valid()
      modifies this
      ensures Valid() && forall d :: d in avDevices <==> d in old(avDevices)
      ensures ok <==> specs == [] || forall d :: d in old(avDevices) ==> Position(specs, d.rom) >= 0
      ensures ok ==> Ordered(avDevices, specs)
      ensures ok ==> forall i, j :: 0 <= i < j < |avDevices| ==>
        if specs == [] || Position(specs, avDevices[i].rom) == Position(specs, avDevices[j].rom)
        then avDevices[i].rom.guid > avDevices[j].rom.guid
        else Position(specs, avDevices[i].rom) < Position(specs, avDevices[j].rom)
    {
      ghost var was := avDevices;
      SortSorted(was);
      forall d ensures d in SortByGuid(was) <==> d in was { SortElement(was, d); }
      avDevices := SortByGuid(avDevices);
      OrderedDistinct(avDevices, was, []);
      if specs == [] { return true; }
      var sorted := FillBuckets(specs);
      BucketsComplete(avDevices, specs);
      if |sorted| != |avDevices| { return false; }
      forall d ensures d in sorted <==> d in was { BucketElement(avDevices, specs, |specs|, d); }
      BucketsOrdered(avDevices, specs, |specs|);
      OrderedDistinct(sorted, was, specs);
      avDevices := sorted;
      return true;
    }

    ghost predicate MapsPositions(positionMap: map<nat, int>, specs: seq<Spec>)
      reads this
    {
      forall i :: 0 <= i < |avDevices| ==>
        avDevices[i].rom.guid in positionMap && positionMap[avDevices[i].rom.guid] == Position(specs, avDevices[i].rom)
    }

    method PositionMap(specs: seq<Spec>) returns (positionMap: map<nat, int>)
      requires Valid()
      ensures MapsPositions(positionMap, specs)
    {
      hide Position;
      positionMap := map[];
      for k := 0 to |avDevices|
        invariant forall i :: 0 <= i < k ==>
          && avDevices[i].rom.guid in positionMap
          && positionMap[avDevices[i].rom.guid] == Position(specs, avDevices[i].rom)
      {
        positionMap := positionMap[avDevices[k].rom.guid := Position(specs, avDevices[k].rom)];
      }
    }

    method FillBucket(positionMap: map<nat, int>, specs: seq<Spec>, n: nat) returns (bucket: seq<AvDevice>)
      requires Valid() && MapsPositions(positionMap, specs)
      ensures bucket == Filter(avDevices, (d: AvDevice) => Position(specs, d.rom) == n)
    {
      hide Position;
      bucket := [];
      ghost var at := (d: AvDevice) => Position(specs, d.rom) == n;
      for k := 0 to |avDevices|
        invariant bucket == Filter(avDevices[..k], at)
      {
        FilterStep(avDevices, at, k);
        if positionMap[avDevices[k].rom.guid] == n { bucket := bucket + [avDevices[k]]; }
      }
      assert avDevices[..|avDevices|] == avDevices;
    }

    method FillBuckets(specs: seq<Spec>) returns (sorted: seq<AvDevice>)
      requires Valid()
      ensures sorted == Buckets(avDevices, specs, |specs|)
    {
      var positionMap := PositionMap(specs);
      sorted := [];
      for i := 0 to |specs|
        invariant sorted == Buckets(avDevices, specs, i)
      {
        var bucket := FillBucket(positionMap, specs, i);
        BucketsStep(avDevices, specs, i);
        sorted := sorted + bucket;
      }
    }

    /** One discovery, whatever the bus answers: the GUIDs stay distinct, the list holds exactly the
        old devices that are still seen and work and the new ones that match and work, and it is in the
        canonical order. The ordering assertion can only fail when a device that was already listed
        matches no spec string any more. */
    method Discover(rediscover: bool, configRoms: seq<Rom>, probed: seq<Rom>, specs: seq<Spec>,
                    needs: AvDevice -> bool, rediscovers: AvDevice -> bool, works: Rom -> bool)
      returns (ok: bool)
      requires Valid()
      modifies this
      ensures Valid()
      ensures ok <==> specs == [] || forall d :: d in avDevices ==> Position(specs, d.rom) >= 0
      ensures ok ==> Ordered(avDevices, specs)
      ensures ok ==> forall i, j :: 0 <= i < j < |avDevices| ==>
        if specs == [] || Position(specs, avDevices[i].rom) == Position(specs, avDevices[j].rom)
        then avDevices[i].rom.guid > avDevices[j].rom.guid
        else Position(specs, avDevices[i].rom) < Position(specs, avDevices[j].rom)
      ensures forall d :: d in avDevices ==>
        || (rediscover && d in old(avDevices) && Survives(d, configRoms, needs, rediscovers))
        || (d.rom in probed && works(d.rom) && (specs != [] ==> Position(specs, d.rom) >= 0))
      ensures rediscover ==> forall d ::
        d in old(avDevices) && Survives(d, configRoms, needs, rediscovers) ==> d in avDevices
      ensures forall r :: r in probed ==>
        HasGuid(avDevices, r.guid) || !works(r) || (specs != [] && Position(specs, r) < 0)
      ensures !ok <==> specs != [] && rediscover && exists d ::
        d in old(avDevices) && Survives(d, configRoms, needs, rediscovers) && Position(specs, d.rom) < 0
    {
      hide Filter, Position;
      ghost var was := avDevices;
      ghost var seen := (d: AvDevice) => GuidSeen(configRoms, d.rom.guid);
      if rediscover {
        DropVanished(configRoms);
        FilterGuids(was, seen);
        forall d ensures d in avDevices <==> d in was && seen(d) { FilterElement(was, seen, d); }
      } else {
        avDevices := [];
      }
      ghost var onBus := avDevices;
      DropFailed(needs, rediscovers);
      ghost var kept := (d: AvDevice) => needs(d) ==> rediscovers(d);
      FilterGuids(onBus, kept);
      forall d ensures d in avDevices <==> d in onBus && kept(d) { FilterElement(onBus, kept, d); }
      PickUpNew(probed, specs, works);
      ghost var listed := avDevices;
      ok := OrderDevices(specs);
      forall g | HasGuid(listed, g) ensures HasGuid(avDevices, g) { GuidKept(listed, avDevices, g); }
    }
  }
}
