/** The router table of a DICE device: an association list kept as a vector, in the role of a map
    from destination to source. */
module Routes {
  import opened Basics
  import opened Sequences

  datatype Route = Route(dest: Byte, src: Byte)

  predicate Unique(rs: seq<Route>) {
    forall i, j :: 0 <= i < j < |rs| ==> rs[i].dest != rs[j].dest
  }

  /** Index of the first entry for dest, |rs| if there is none. */
  function IndexOf(rs: seq<Route>, dest: Byte): (i: nat)
    ensures i <= |rs|
    ensures forall k :: 0 <= k < i ==> rs[k].dest != dest
    ensures i < |rs| ==> rs[i].dest == dest
  {
    if rs == [] || rs[0].dest == dest then 0 else 1 + IndexOf(rs[1..], dest)
  }

  /** Where each destination gets its audio from: its first entry decides. */
  function AsMap(rs: seq<Route>): (m: map<Byte, Byte>)
    decreases |rs|
  {
    map d: Byte | IndexOf(rs, d) < |rs| :: rs[IndexOf(rs, d)].src
  }

  /** Reroute an existing destination in place or append a new one. */
  function Assigned(rs: seq<Route>, src: Byte, dest: Byte): (r: seq<Route>) {
    var i := IndexOf(rs, dest);
    if i < |rs| then rs[i := Route(dest, src)] else rs + [Route(dest, src)]
  }

  function Removed(rs: seq<Route>, dest: Byte): (r: seq<Route>) {
    var i := IndexOf(rs, dest);
    if i < |rs| then rs[..i] + rs[i + 1..] else rs
  }

  lemma IndexUnique(rs: seq<Route>, i: nat)
    requires Unique(rs) && i < |rs|
    ensures IndexOf(rs, rs[i].dest) == i
  {}

  lemma IndexFrom(rs: seq<Route>, dest: Byte, i: nat)
    requires i <= |rs| && (forall k :: 0 <= k < i ==> rs[k].dest != dest) && (i < |rs| ==> rs[i].dest == dest)
    ensures IndexOf(rs, dest) == i
  {}

  /** Assigning is map update; uniqueness and every other entry's place stay. */
  lemma AssignedIsUpdate(rs: seq<Route>, src: Byte, dest: Byte)
    ensures AsMap(Assigned(rs, src, dest)) == AsMap(rs)[dest := src]
    ensures Unique(rs) ==> Unique(Assigned(rs, src, dest))
  {
    hide IndexOf;
    var i, r := IndexOf(rs, dest), Assigned(rs, src, dest);
    IndexFrom(r, dest, i);
    forall d: Byte | d != dest
      ensures d in AsMap(r) <==> d in AsMap(rs)
      ensures d in AsMap(rs) ==> AsMap(r)[d] == AsMap(rs)[d]
    {
      var k := IndexOf(rs, d);
      if k < |rs| { IndexFrom(r, d, k); } else { IndexFrom(r, d, |r|); }
    }
  }

  /** dest has no second entry. */
  predicate AtMostOnce(rs: seq<Route>, dest: Byte) {
    forall k :: IndexOf(rs, dest) < k < |rs| ==> rs[k].dest != dest
  }

  lemma RemovedAt(rs: seq<Route>, dest: Byte, d: Byte)
    requires AtMostOnce(rs, dest)
    ensures d in AsMap(Removed(rs, dest)) <==> d in AsMap(rs) && d != dest
    ensures d != dest && d in AsMap(rs) ==> AsMap(Removed(rs, dest))[d] == AsMap(rs)[d]
  {
    hide IndexOf;
    var i, r, k := IndexOf(rs, dest), Removed(rs, dest), IndexOf(rs, d);
    if d == dest || k == |rs| {
      IndexFrom(r, d, |r|);
    } else if k < i {
      IndexFrom(r, d, k);
    } else if i < |rs| {
      IndexFrom(r, d, k - 1);
    }
  }

  /** Removing is map removal exactly when the destination has no second entry to take over. */
  lemma RemovedIsRemoval(rs: seq<Route>, dest: Byte)
    ensures AtMostOnce(rs, dest) <==> AsMap(Removed(rs, dest)) == AsMap(rs) - {dest}
    ensures Unique(rs) ==> AtMostOnce(rs, dest) && Unique(Removed(rs, dest))
  {
    hide IndexOf, AsMap;
    if AtMostOnce(rs, dest) {
      forall d: Byte
        ensures d in AsMap(Removed(rs, dest)) <==> d in AsMap(rs) && d != dest
        ensures d != dest && d in AsMap(rs) ==> AsMap(Removed(rs, dest))[d] == AsMap(rs)[d]
      {
        RemovedAt(rs, dest, d);
      }
    } else {
      var k :| IndexOf(rs, dest) < k < |rs| && rs[k].dest == dest;
      assert Removed(rs, dest)[k - 1].dest == dest;
      Listed(Removed(rs, dest), k - 1);
    }
  }

  lemma Listed(rs: seq<Route>, i: nat)
    requires i < |rs|
    ensures rs[i].dest in AsMap(rs)
  {}

  function DestsOf(rs: seq<Route>, src: Byte): (ds: seq<Byte>)
    decreases |rs|
  {
    if rs == [] then []
    else
      var k := |rs| - 1;
      DestsOf(rs[..k], src) + (if rs[k].src == src then [rs[k].dest] else [])
  }

  lemma {:induction false} DestsElement(rs: seq<Route>, src: Byte, d: Byte)
    ensures d in DestsOf(rs, src) <==> exists i :: 0 <= i < |rs| && rs[i] == Route(d, src)
    decreases |rs|
  {
    if rs != [] {
      var k := |rs| - 1;
      DestsElement(rs[..k], src, d);
      if d in DestsOf(rs[..k], src) {
        var i :| 0 <= i < k && rs[..k][i] == Route(d, src);
        assert rs[i] == Route(d, src);
      }
    }
  }

  /** Under uniqueness the destinations of a source are listed once each, and are exactly those the
      map sends to it. */
  lemma {:induction false} DestsInvertMap(rs: seq<Route>, src: Byte, d: Byte)
    requires Unique(rs)
    ensures Distinct(DestsOf(rs, src))
    ensures d in DestsOf(rs, src) <==> d in AsMap(rs) && AsMap(rs)[d] == src
    decreases |rs|
  {
    DestsDistinct(rs, src);
    DestsElement(rs, src, d);
    if i :| 0 <= i < |rs| && rs[i] == Route(d, src) { IndexUnique(rs, i); }
  }

  lemma {:induction false} DestsDistinct(rs: seq<Route>, src: Byte)
    requires Unique(rs)
    ensures Distinct(DestsOf(rs, src))
    decreases |rs|
  {
    if rs != [] {
      var k := |rs| - 1;
      DestsDistinct(rs[..k], src);
      DestsElement(rs[..k], src, rs[k].dest);
    }
  }

  class RouterConfig {
    var routes: seq<Route>
    const muteId: Byte

    constructor (mute: Byte)
      ensures routes == [] && muteId == mute
    {
      routes, muteId := [], mute;
    }

    /** Index of the first entry for dest, the loop the driver writes out in every operation. */
    method Find(dest: Byte) returns (i: nat)
      ensures i == IndexOf(routes, dest)
    {
      i := 0;
      while i < |routes|
        invariant 0 <= i <= |routes| && forall k :: 0 <= k < i ==> routes[k].dest != dest
      {
        if routes[i].dest == dest { return; }
        i := i + 1;
      }
    }

    method SetupRoute(src: Byte, dest: Byte) returns (ok: bool)
      modifies this
      ensures ok && routes == Assigned(old(routes), src, dest)
      ensures AsMap(routes) == old(AsMap(routes))[dest := src]
      ensures Unique(old(routes)) ==> Unique(routes)
    {
      AssignedIsUpdate(routes, src, dest);
      var i := Find(dest);
      if i < |routes| {
        routes := routes[i := Route(routes[i].dest, src)];
        return true;
      }
      routes := routes + [Route(dest, src)];
      return true;
    }

    method MuteRoute(dest: Byte) returns (ok: bool)
      modifies this
      ensures ok <==> dest in old(AsMap(routes))
      ensures routes == if ok then Assigned(old(routes), muteId, dest) else old(routes)
      ensures ok ==> AsMap(routes) == old(AsMap(routes))[dest := muteId]
      ensures Unique(old(routes)) ==> Unique(routes)
    {
      AssignedIsUpdate(routes, muteId, dest);
      var i := Find(dest);
      if i < |routes| {
        routes := routes[i := Route(routes[i].dest, muteId)];
        return true;
      }
      return false;
    }

    method RemoveRoute(dest: Byte) returns (ok: bool)
      modifies this
      ensures ok <==> dest in old(AsMap(routes))
      ensures routes == Removed(old(routes), dest)
      ensures AtMostOnce(old(routes), dest) ==> AsMap(routes) == old(AsMap(routes)) - {dest}
      ensures Unique(old(routes)) ==> Unique(routes)
    {
      RemovedIsRemoval(routes, dest);
      var i := Find(dest);
      if i < |routes| {
        routes := routes[..i] + routes[i + 1..];
        return true;
      }
      return false;
    }

    /** Removes the route only if it comes from the named source. */
    method RemoveRouteFrom(src: Byte, dest: Byte) returns (ok: bool)
      modifies this
      ensures ok <==> dest in old(AsMap(routes)) && old(AsMap(routes))[dest] == src
      ensures routes == if ok then Removed(old(routes), dest) else old(routes)
      ensures ok && AtMostOnce(old(routes), dest) ==> AsMap(routes) == old(AsMap(routes)) - {dest}
      ensures Unique(old(routes)) ==> Unique(routes)
    {
      RemovedIsRemoval(routes, dest);
      var i := Find(dest);
      if i < |routes| && routes[i].src == src {
        routes := routes[..i] + routes[i + 1..];
        return true;
      }
      return false;
    }

    /** The source of a destination; 255, the byte for -1, when it has none. */
    method GetSourceForDestination(dest: Byte) returns (src: Byte)
      ensures src == if dest in AsMap(routes) then AsMap(routes)[dest] else 255
    {
      var i := Find(dest);
      src := if i < |routes| then routes[i].src else 255;
    }

    method GetDestinationsForSource(src: Byte) returns (dests: seq<Byte>)
      ensures dests == DestsOf(routes, src)
    {
      dests := [];
      for i := 0 to |routes|
        invariant dests == DestsOf(routes[..i], src)
      {
        assert routes[..i + 1][..i] == routes[..i];
        if routes[i].src == src { dests := dests + [routes[i].dest]; }
      }
      assert routes[..|routes|] == routes;
    }
  }
}
