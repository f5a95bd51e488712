/** Device spec strings: parsing, matching against config ROMs and the removal of duplicates. */
module DeviceStrings {

  /** A parsed spec string: a bus position (a negative node means any) or a GUID. */
  datatype Spec = Bus(port: int, node: int) | Guid(guid: nat)

  datatype Rom = Rom(port: nat, nodeId: nat, guid: nat)

  predicate Matches(d: Spec, rom: Rom) {
    match d
    case Bus(port, node) => port >= 0 && rom.port == port && (node >= 0 ==> rom.nodeId % 64 == node)
    case Guid(guid) => guid != 0 && guid == rom.guid
  }

  // The fields an object of the other kind carries, as its constructor left them.
  function PortOf(d: Spec): (p: int) { if d.Bus? then d.port else -1 }
  function NodeOf(d: Spec): (n: int) { if d.Bus? then d.node else -1 }
  function GuidOf(d: Spec): (g: nat) { if d.Guid? then d.guid else 0 }

  /** The driver's equality: the kind of the right operand is not looked at. */
  predicate Same(a: Spec, b: Spec) {
    match a
    case Bus(port, node) => port == PortOf(b) && node == NodeOf(b)
    case Guid(guid) => guid != 0 && guid == GuidOf(b)
  }

  lemma SameTransitive(a: Spec, b: Spec, c: Spec)
    requires Same(a, b) && Same(b, c)
    ensures Same(a, c)
  {}

  predicate Repeats(ds: seq<Spec>, d: Spec) {
    exists i :: 0 <= i < |ds| && Same(ds[i], d)
  }

  /** The specs with no equal earlier one, in order. */
  function Kept(ds: seq<Spec>): (r: seq<Spec>)
    decreases |ds|
  {
    if ds == [] then []
    else
      var k := |ds| - 1;
      Kept(ds[..k]) + (if Repeats(ds[..k], ds[k]) then [] else [ds[k]])
  }

  /** Position of the first match, -1 if there is none. */
  function Position(ds: seq<Spec>, rom: Rom): (pos: int)
    ensures -1 <= pos < |ds|
    ensures pos >= 0 ==> Matches(ds[pos], rom) && forall i :: 0 <= i < pos ==> !Matches(ds[i], rom)
    ensures pos < 0 ==> forall i :: 0 <= i < |ds| ==> !Matches(ds[i], rom)
    decreases |ds|
  {
    if ds == [] then -1
    else
      var k := |ds| - 1;
      var p := Position(ds[..k], rom);
      if p >= 0 then p else if Matches(ds[k], rom) then k else -1
  }

  // ---- what Kept keeps ----

  lemma {:induction false} KeptElements(ds: seq<Spec>, d: Spec)
    requires d in Kept(ds)
    ensures d in ds
    decreases |ds|
  {
    var k := |ds| - 1;
    if d in Kept(ds[..k]) { KeptElements(ds[..k], d); }
  }

  /** Every spec is kept or has an equal among the kept ones. */
  lemma {:induction false} KeptRepresents(ds: seq<Spec>, i: nat)
    requires i < |ds|
    ensures ds[i] in Kept(ds) || Repeats(Kept(ds), ds[i])
    decreases |ds|
  {
    var k := |ds| - 1;
    if i < k {
      KeptRepresents(ds[..k], i);
      KeptGrows(ds, ds[i]);
    } else if Repeats(ds[..k], ds[k]) {
      var j :| 0 <= j < k && Same(ds[..k][j], ds[k]);
      KeptRepresents(ds[..k], j);
      KeptGrows(ds, ds[j]);
      RepeatsThrough(Kept(ds), ds[j], ds[k]);
    }
  }

  lemma KeptGrows(ds: seq<Spec>, d: Spec)
    requires ds != []
    ensures d in Kept(ds[..|ds| - 1]) ==> d in Kept(ds)
    ensures Repeats(Kept(ds[..|ds| - 1]), d) ==> Repeats(Kept(ds), d)
  {
    var a := Kept(ds[..|ds| - 1]);
    if Repeats(a, d) {
      var i :| 0 <= i < |a| && Same(a[i], d);
      assert Kept(ds)[i] == a[i];
    }
  }

  lemma RepeatsThrough(ds: seq<Spec>, a: Spec, b: Spec)
    requires (a in ds || Repeats(ds, a)) && Same(a, b)
    ensures Repeats(ds, b)
  {
    if a in ds {
      var i :| 0 <= i < |ds| && ds[i] == a;
    } else {
      var i :| 0 <= i < |ds| && Same(ds[i], a);
      SameTransitive(ds[i], a, b);
    }
  }

  /** A spec repeats the kept ones exactly when it repeats the originals. */
  lemma KeptRepeats(ds: seq<Spec>, d: Spec)
    ensures Repeats(Kept(ds), d) <==> Repeats(ds, d)
  {
    if Repeats(Kept(ds), d) {
      var i :| 0 <= i < |Kept(ds)| && Same(Kept(ds)[i], d);
      KeptElements(ds, Kept(ds)[i]);
    }
    if Repeats(ds, d) {
      var i :| 0 <= i < |ds| && Same(ds[i], d);
      KeptRepresents(ds, i);
      RepeatsThrough(Kept(ds), ds[i], d);
    }
  }

  lemma RepeatsConcat(a: seq<Spec>, b: seq<Spec>, d: Spec)
    ensures Repeats(a + b, d) <==> Repeats(a, d) || Repeats(b, d)
  {
    if Repeats(a, d) {
      var i :| 0 <= i < |a| && Same(a[i], d);
      assert (a + b)[i] == a[i];
    }
    if Repeats(b, d) {
      var i :| 0 <= i < |b| && Same(b[i], d);
      assert (a + b)[|a| + i] == b[i];
    }
  }

  /** Pruning after every addition gives the same list as pruning once at the end. */
  lemma {:induction false} KeptIncremental(a: seq<Spec>, b: seq<Spec>)
    ensures Kept(Kept(a) + b) == Kept(a + b)
    decreases |b|
  {
    if b == [] {
      KeptIdempotent(a);
      assert Kept(a) + [] == Kept(a) && a + [] == a;
    } else {
      var k := |b| - 1;
      KeptIncremental(a, b[..k]);
      assert (Kept(a) + b)[..|Kept(a)| + k] == Kept(a) + b[..k];
      assert (a + b)[..|a| + k] == a + b[..k];
      RepeatsConcat(Kept(a), b[..k], b[k]);
      RepeatsConcat(a, b[..k], b[k]);
      KeptRepeats(a, b[k]);
    }
  }

  lemma {:induction false} KeptIdempotent(ds: seq<Spec>)
    ensures Kept(Kept(ds)) == Kept(ds)
    decreases |ds|
  {
    if ds != [] {
      var k := |ds| - 1;
      KeptIdempotent(ds[..k]);
      if !Repeats(ds[..k], ds[k]) {
        var a := Kept(ds[..k]);
        assert Kept(ds)[..|a|] == a;
        KeptRepeats(ds[..k], ds[k]);
      } else {
        assert Kept(ds) == Kept(ds[..k]);
      }
    }
  }

  // ---- when pruning keeps the matches ----

  /** No Bus(-1, -1) comes before the first occurrence of a GUID: the driver's equality takes every
      GUID for a repetition of it. */
  predicate NoWildcardFirst(ds: seq<Spec>) {
    forall i, j :: 0 <= i < j < |ds| && ds[i] == Bus(-1, -1) && ds[j].Guid? && ds[j].guid != 0 ==>
      ds[j] in ds[..i]
  }

  lemma FirstMatchIsKept(ds: seq<Spec>, rom: Rom)
    requires NoWildcardFirst(ds) && Position(ds, rom) >= 0
    ensures var p := Position(ds, rom); !Repeats(ds[..p], ds[p])
  {
    var p := Position(ds, rom);
    forall i | 0 <= i < p ensures !Same(ds[i], ds[p]) {}
  }

  lemma PrefixAllowed(ds: seq<Spec>, k: nat)
    requires NoWildcardFirst(ds) && k <= |ds|
    ensures NoWildcardFirst(ds[..k])
  {
    forall i, j | 0 <= i < j < k && ds[i] == Bus(-1, -1) && ds[j].Guid? && ds[j].guid != 0
      ensures ds[j] in ds[..k][..i]
    {
      assert ds[..k][..i] == ds[..i];
    }
  }

  /** The first match keeps its place among the kept specs. */
  lemma {:induction false} KeptPosition(ds: seq<Spec>, rom: Rom)
    requires NoWildcardFirst(ds)
    ensures var p := Position(ds, rom);
      Position(Kept(ds), rom) == if p < 0 then -1 else |Kept(ds[..p])|
    decreases |ds|
  {
    if ds != [] {
      var k, p := |ds| - 1, Position(ds, rom);
      var a := Kept(ds[..k]);
      PrefixAllowed(ds, k);
      KeptPosition(ds[..k], rom);
      if p >= 0 { FirstMatchIsKept(ds, rom); }
      if Repeats(ds[..k], ds[k]) {
        assert Kept(ds) == a;
      } else {
        assert Kept(ds)[..|a|] == a;
      }
      if 0 <= p < k { assert ds[..k][..p] == ds[..p]; }
    }
  }

  lemma {:induction false} KeptLonger(ds: seq<Spec>, p: nat, q: nat)
    requires p < q <= |ds| && !Repeats(ds[..p], ds[p])
    ensures |Kept(ds[..p])| < |Kept(ds[..q])|
    decreases q
  {
    assert ds[..q][..q - 1] == ds[..q - 1];
    if p < q - 1 { KeptLonger(ds, p, q - 1); }
  }

  /** Pruning keeps which ROMs match and the order of their positions. */
  lemma PruningKeepsOrder(ds: seq<Spec>, a: Rom, b: Rom)
    requires NoWildcardFirst(ds)
    ensures Position(ds, a) < 0 <==> Position(Kept(ds), a) < 0
    ensures Position(ds, a) < Position(ds, b) <==> Position(Kept(ds), a) < Position(Kept(ds), b)
  {
    var p, q := Position(ds, a), Position(ds, b);
    KeptPosition(ds, a);
    KeptPosition(ds, b);
    if 0 <= p < q { FirstMatchIsKept(ds, a); KeptLonger(ds, p, q); }
    if 0 <= q < p { FirstMatchIsKept(ds, b); KeptLonger(ds, q, p); }
  }

  lemma {:induction false} WildcardDrops(ds: seq<Spec>, i: nat, g: nat)
    requires i < |ds| && ds[i] == Bus(-1, -1) && g != 0 && Guid(g) !in ds[..i]
    ensures Guid(g) !in Kept(ds)
    decreases |ds|
  {
    var k := |ds| - 1;
    if i < k {
      assert ds[..k][..i] == ds[..i];
      WildcardDrops(ds[..k], i, g);
      assert Same(ds[..k][i], Guid(g));
    } else if Guid(g) in Kept(ds[..k]) {
      KeptElements(ds[..k], Guid(g));
    }
  }

  function TopPort(ds: seq<Spec>): (p: nat)
    ensures forall i :: 0 <= i < |ds| ==> PortOf(ds[i]) <= p
    decreases |ds|
  {
    if ds == [] then 0
    else
      var k := |ds| - 1;
      var p := TopPort(ds[..k]);
      assert forall i :: 0 <= i < k ==> PortOf(ds[..k][i]) <= p;
      if PortOf(ds[k]) > p then PortOf(ds[k]) else p
  }

  lemma WildcardLosesMatch(ds: seq<Spec>, i: nat, j: nat)
    requires i < j < |ds| && ds[i] == Bus(-1, -1) && ds[j].Guid? && ds[j].guid != 0 && ds[j] !in ds[..i]
    ensures var rom := Rom(TopPort(ds) + 1, 0, ds[j].guid);
      Position(ds, rom) >= 0 && Position(Kept(ds), rom) < 0
  {
    hide Kept, Position, TopPort;
    var rom := Rom(TopPort(ds) + 1, 0, ds[j].guid);
    assert Matches(ds[j], rom);
    WildcardDrops(ds, i, ds[j].guid);
    forall d | d in Kept(ds) ensures !Matches(d, rom) {
      KeptElements(ds, d);
    }
  }

  /** Pruning keeps the matches of every ROM exactly when no Bus(-1, -1) precedes a new GUID. */
  lemma PruningKeepsMatches(ds: seq<Spec>)
    ensures NoWildcardFirst(ds) <==>
      forall rom :: Position(ds, rom) >= 0 <==> Position(Kept(ds), rom) >= 0
  {
    hide Kept;
    if NoWildcardFirst(ds) {
      forall rom ensures Position(ds, rom) >= 0 <==> Position(Kept(ds), rom) >= 0 {
        PruningKeepsOrder(ds, rom, rom);
      }
    } else {
      var i, j :| 0 <= i < j < |ds| && ds[i] == Bus(-1, -1) && ds[j].Guid? && ds[j].guid != 0 && ds[j] !in ds[..i];
      WildcardLosesMatch(ds, i, j);
    }
  }
}
