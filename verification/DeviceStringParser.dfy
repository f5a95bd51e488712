/** The parser object: spec strings are heap objects, compared by value when duplicates are sought
    and by identity when they are removed. */
module DeviceStringParser {
  import opened Basics
  import opened DeviceStrings
  import opened Sequences
  import StringList

  /** strtol and strtoll: a value, or None when errno is set. */
  datatype Numbers = Numbers(strtol: string -> Option<int>, strtoll: string -> Option<nat>)

  function Find(s: string, c: char): (pos: nat)
    ensures pos <= |s|
    ensures forall i :: 0 <= i < pos ==> s[i] != c
    ensures pos < |s| ==> s[pos] == c
  {
    if s == "" || s[0] == c then 0 else 1 + Find(s[1..], c)
  }

  /** What one spec string means, None if it is not accepted. */
  function SpecOf(s: string, num: Numbers): (spec: Option<Spec>) {
    if "hw:" <= s then
      var detail := s[3..];
      var comma := Find(detail, ',');
      var port := num.strtol(detail[..comma]);
      var node := if comma == |detail| then Some(-1) else num.strtol(detail[comma + 1..]);
      if port.None? || node.None? then None else Some(Bus(port.value, node.value))
    else if "guid:" <= s then
      var guid := num.strtoll(s[5..]);
      if guid.None? then None else Some(Guid(guid.value))
    else None
  }

  lemma FindAt(s: string, c: char, pos: nat)
    requires pos <= |s| && (forall i :: 0 <= i < pos ==> s[i] != c) && (pos < |s| ==> s[pos] == c)
    ensures Find(s, c) == pos
  {}

  /** The three forms: hw:port,node, hw:port with any node, and guid:number. */
  lemma SpecForms(p: string, n: string, num: Numbers)
    requires ',' !in p
    ensures SpecOf("hw:" + p + "," + n, num) ==
      if num.strtol(p).Some? && num.strtol(n).Some? then Some(Bus(num.strtol(p).value, num.strtol(n).value)) else None
    ensures SpecOf("hw:" + p, num) == if num.strtol(p).Some? then Some(Bus(num.strtol(p).value, -1)) else None
    ensures SpecOf("guid:" + n, num) == if num.strtoll(n).Some? then Some(Guid(num.strtoll(n).value)) else None
  {
    hide Find;
    FindAt(p + [','] + n, ',', |p|);
    FindAt(p, ',', |p|);
    var s, t, u := "hw:" + p + "," + n, "hw:" + p, "guid:" + n;
    assert s[3..] == p + [','] + n && s[3..][..|p|] == p && s[3..][|p| + 1..] == n;
    assert t[3..] == p && p[..|p|] == p;
    assert u[5..] == n && u[0] == 'g';
  }

  /** Which ROMs they select: hw:port,node the node of that number on that bus, hw:port and a negative
      node all nodes of that bus, a negative port none, guid:number the device with that GUID if the
      number is not 0. */
  lemma FormsSelect(p: string, n: string, num: Numbers, rom: Rom)
    requires ',' !in p && num.strtol(p).Some? && num.strtol(n).Some? && num.strtoll(n).Some?
    ensures var bus, all, guid := SpecOf("hw:" + p + "," + n, num), SpecOf("hw:" + p, num), SpecOf("guid:" + n, num);
      && bus.Some? && all.Some? && guid.Some?
      && (Matches(bus.value, rom) <==>
          rom.port == num.strtol(p).value && (num.strtol(n).value < 0 || rom.nodeId % 0x40 == num.strtol(n).value))
      && (Matches(all.value, rom) <==> rom.port == num.strtol(p).value)
      && (Matches(guid.value, rom) <==> rom.guid == num.strtoll(n).value && rom.guid != 0)
  {
    hide SpecOf;
    SpecForms(p, n, num);
  }

  /** The substrings a list is cut into: at every semicolon, nothing after a final one. */
  function Pieces(s: string): (r: seq<string>)
    decreases |s|
  {
    var sep := Find(s, ';');
    if sep == |s| then [s]
    else if sep + 1 == |s| then [s[..sep]]
    else [s[..sep]] + Pieces(s[sep + 1..])
  }

  lemma {:induction false} PiecesFrom(s: string, start: nat)
    requires start < |s|
    ensures StringList.SplitFrom(s, ";", start) == Pieces(s[start..])
    decreases |s| - start
  {
    hide StringList.FindFrom, Find;
    var t := s[start..];
    var sep := Find(t, ';');
    var next := start + sep + 1;
    forall i | start <= i < start + sep ensures s[i] != ';' { assert s[i] == t[i - start]; }
    assert sep < |t| ==> s[start + sep] == t[sep];
    StringList.FindIs(s, ';', start, start + sep);
    assert s[start..start + sep] == t[..sep];
    assert ";" == [';'];
    assert StringList.SplitFrom(s, ";", start) == [t[..sep]] + StringList.SplitFrom(s, ";", next);
    if next < |s| {
      PiecesFrom(s, next);
      assert t[sep + 1..] == s[next..];
    } else {
      assert t[..|t|] == t && StringList.SplitFrom(s, ";", next) == [];
    }
  }

  /** A list joined from substrings free of semicolons is cut into these substrings again, except
      that an empty last one is lost unless it is all there is. */
  lemma PiecesOfJoin(ts: seq<string>)
    requires ts != [] && StringList.AllFree(ts, ';')
    ensures Pieces(StringList.Join(ts, ";")) == if StringList.Join(ts, ";") == "" then [""] else StringList.Trimmed(ts)
  {
    var s := StringList.Join(ts, ";");
    assert ";" == [';'];
    StringList.SplitJoin(ts, ';');
    if s != "" {
      PiecesFrom(s, 0);
      assert s[0..] == s;
    }
  }

  function SpecsOf(pieces: seq<string>, num: Numbers): (r: seq<Spec>)
    decreases |pieces|
  {
    if pieces == [] then []
    else
      var k := |pieces| - 1;
      var spec := SpecOf(pieces[k], num);
      SpecsOf(pieces[..k], num) + if spec.Some? then [spec.value] else []
  }

  /** The specs are the meanings of exactly those pieces that have one, in order: which says of each
      spec whose meaning it is. */
  predicate Meanings(specs: seq<Spec>, pieces: seq<string>, num: Numbers, which: seq<nat>) {
    && |which| == |specs|
    && (forall j :: 0 <= j < |which| ==> which[j] < |pieces| && SpecOf(pieces[which[j]], num) == Some(specs[j]))
    && (forall j, k :: 0 <= j < k < |which| ==> which[j] < which[k])
    && (forall i :: 0 <= i < |pieces| && SpecOf(pieces[i], num).Some? ==> i in which)
  }

  lemma {:induction false} SpecsAreMeanings(pieces: seq<string>, num: Numbers) returns (which: seq<nat>)
    ensures Meanings(SpecsOf(pieces, num), pieces, num, which)
    decreases |pieces|
  {
    hide SpecOf;
    which := [];
    if pieces != [] {
      var k := |pieces| - 1;
      var before := SpecsAreMeanings(pieces[..k], num);
      which := before + if SpecOf(pieces[k], num).Some? then [k] else [];
      forall i | 0 <= i < |pieces| && SpecOf(pieces[i], num).Some? ensures i in which {
        if i < k { assert SpecOf(pieces[..k][i], num).Some?; }
      }
    }
  }

  predicate AllMean(ts: seq<string>, num: Numbers) {
    forall i :: 0 <= i < |ts| ==> SpecOf(ts[i], num).Some?
  }

  /** The specs are the meanings of all these substrings. */
  predicate AllMeanings(specs: seq<Spec>, ts: seq<string>, num: Numbers) {
    |specs| == |ts| && forall i :: 0 <= i < |ts| ==> SpecOf(ts[i], num) == Some(specs[i])
  }

  lemma {:induction false} AllSpecs(ts: seq<string>, num: Numbers)
    requires AllMean(ts, num)
    ensures AllMeanings(SpecsOf(ts, num), ts, num)
    decreases |ts|
  {
    hide SpecOf;
    if ts != [] { AllSpecs(ts[..|ts| - 1], num); }
  }

  /** Substrings that all mean something, joined, mean just that. */
  lemma JoinMeans(ts: seq<string>, num: Numbers)
    requires ts != [] && StringList.AllFree(ts, ';') && AllMean(ts, num)
    ensures AllMeanings(SpecsOf(Pieces(StringList.Join(ts, ";")), num), ts, num)
  {
    hide SpecsOf, Pieces;
    assert ts[0] != "" && ts[|ts| - 1] != "" by { assert SpecOf("", num).None?; }
    PiecesOfJoin(ts);
    AllSpecs(ts, num);
  }

  datatype Kind = Invalid | BusNode | GUID

  class DeviceString {
    var kind: Kind
    var port: int
    var node: int
    var guid: nat

    ghost predicate Valid()
      reads this
    {
      && kind != Invalid
      && (kind == BusNode ==> guid == 0)
      && (kind == GUID ==> port == node == -1)
    }

    ghost function Value(): (d: Spec)
      reads this
    {
      if kind == BusNode then Bus(port, node) else Guid(guid)
    }

    constructor ()
      ensures kind == Invalid && port == node == -1 && guid == 0
    {
      kind, port, node, guid := Invalid, -1, -1, 0;
    }

    method Parse(s: string, num: Numbers) returns (ok: bool)
      requires port == node == -1 && guid == 0
      modifies this
      ensures ok <==> SpecOf(s, num).Some?
      ensures ok ==> Valid() && Value() == SpecOf(s, num).value
    {
      if "hw:" <= s {
        kind := BusNode;
        var detail := s[3..];
        var comma := Find(detail, ',');
        var p := num.strtol(detail[..comma]);
        if p.None? { kind := Invalid; return false; }
        port := p.value;
        if comma < |detail| {
          var n := num.strtol(detail[comma + 1..]);
          if n.None? { kind, port := Invalid, -1; return false; }
          node := n.value;
        }
        return true;
      } else if "guid:" <= s {
        kind := GUID;
        var g := num.strtoll(s[5..]);
        if g.None? { kind := Invalid; return false; }
        guid := g.value;
        return true;
      }
      return false;
    }

    /** Accepts exactly the strings that parse. */
    static method IsValidString(s: string, num: Numbers) returns (ok: bool)
      ensures ok <==> SpecOf(s, num).Some?
    {
      if "hw:" <= s {
        var detail := s[3..];
        var comma := Find(detail, ',');
        if num.strtol(detail[..comma]).None? { return false; }
        if comma < |detail| && num.strtol(detail[comma + 1..]).None? { return false; }
      } else if "guid:" <= s {
        if num.strtoll(s[5..]).None? { return false; }
      } else {
        return false;
      }
      return true;
    }

    predicate Equals(x: DeviceString)
      reads this, x
    {
      match kind
      case BusNode => port == x.port && node == x.node
      case GUID => guid != 0 && guid == x.guid
      case Invalid => false
    }

    predicate Match(rom: Rom)
      reads this
    {
      match kind
      case BusNode => port >= 0 && rom.port == port && (node >= 0 ==> rom.nodeId % 64 == node)
      case GUID => guid != 0 && guid == rom.guid
      case Invalid => false
    }

    lemma EqualsIsSame(x: DeviceString)
      requires Valid() && x.Valid()
      ensures Equals(x) <==> Same(Value(), x.Value())
    {}
  }

  ghost predicate AllValid(ds: seq<DeviceString>)
    reads ds
  {
    forall i :: 0 <= i < |ds| ==> ds[i].Valid()
  }

  ghost function ValuesOf(ds: seq<DeviceString>): (r: seq<Spec>)
    reads ds
    ensures |r| == |ds|
  {
    seq(|ds|, i requires 0 <= i < |ds| reads ds => ds[i].Value())
  }

  /** The elements not in gone, in order. */
  function Without<T(==)>(s: seq<T>, gone: set<T>): (r: seq<T>) {
    Filter(s, x => x !in gone)
  }

  lemma WithoutElement<T>(s: seq<T>, gone: set<T>, x: T)
    ensures x in Without(s, gone) <==> x in s && x !in gone
  {
    FilterElement(s, y => y !in gone, x);
  }

  lemma {:induction false} WithoutNone<T>(s: seq<T>)
    ensures Without(s, {}) == s
    decreases |s|
  {
    if s != [] { WithoutNone(s[..|s| - 1]); }
  }

  lemma {:induction false} WithoutDistinct<T>(s: seq<T>, gone: set<T>)
    requires Distinct(s)
    ensures Distinct(Without(s, gone))
    decreases |s|
  {
    if s != [] {
      var k := |s| - 1;
      WithoutDistinct(s[..k], gone);
      WithoutElement(s[..k], gone, s[k]);
    }
  }

  lemma {:induction false} WithoutTwice<T>(s: seq<T>, a: set<T>, x: T)
    ensures Without(Without(s, a), {x}) == Without(s, a + {x})
    decreases |s|
  {
    if s != [] {
      var k := |s| - 1;
      WithoutTwice(s[..k], a, x);
      if s[k] in a {
        assert Without(s, a) == Without(s[..k], a);
      } else {
        assert Without(s, a)[..|Without(s[..k], a)|] == Without(s[..k], a);
      }
    }
  }

  lemma {:induction false} WithoutAbsent<T>(s: seq<T>, x: T)
    requires x !in s
    ensures Without(s, {x}) == s
    decreases |s|
  {
    if s != [] { WithoutAbsent(s[..|s| - 1], x); }
  }

  /** Erasing the one occurrence. */
  lemma {:induction false} EraseIsWithout<T>(s: seq<T>, i: nat)
    requires Distinct(s) && i < |s|
    ensures s[..i] + s[i + 1..] == Without(s, {s[i]})
    decreases |s|
  {
    var k := |s| - 1;
    if i == k {
      WithoutAbsent(s[..k], s[k]);
    } else {
      EraseIsWithout(s[..k], i);
      assert s[..k][..i] + s[..k][i + 1..] + [s[k]] == s[..i] + s[i + 1..];
    }
  }

  /** What is left, seen as values, when exactly the repeated entries are gone. */
  lemma {:induction false} LeftIsKept(ds: seq<DeviceString>, gone: set<DeviceString>)
    requires forall k :: 0 <= k < |ds| ==> (ds[k] in gone <==> Repeats(ValuesOf(ds)[..k], ds[k].Value()))
    ensures ValuesOf(Without(ds, gone)) == Kept(ValuesOf(ds))
    decreases |ds|
  {
    if ds != [] {
      var k := |ds| - 1;
      assert ValuesOf(ds)[..k] == ValuesOf(ds[..k]);
      forall i | 0 <= i < k ensures ValuesOf(ds[..k])[..i] == ValuesOf(ds)[..i] {}
      LeftIsKept(ds[..k], gone);
    }
  }

  lemma {:induction false} SpecsConcat(a: seq<string>, b: seq<string>, num: Numbers)
    ensures SpecsOf(a + b, num) == SpecsOf(a, num) + SpecsOf(b, num)
    decreases |b|
  {
    hide SpecOf;
    if b == [] {
      assert a + b == a;
    } else {
      var k := |b| - 1;
      SpecsConcat(a, b[..k], num);
      assert (a + b)[..|a| + k] == a + b[..k];
    }
  }

  class DeviceStringParser {
    var deviceStrings: seq<DeviceString>
    const num: Numbers
    /** Every spec ever accepted, in order. */
    ghost var accepted: seq<Spec>

    /** Over every run: the list holds the accepted specs less the repeated ones. */
    ghost predicate Valid()
      reads this, deviceStrings
    {
      Distinct(deviceStrings) && AllValid(deviceStrings) && ValuesOf(deviceStrings) == Kept(accepted)
    }

    constructor (numbers: Numbers)
      ensures Valid() && deviceStrings == [] && accepted == [] && num == numbers
    {
      deviceStrings, accepted, num := [], [], numbers;
    }

    method MatchPosition(rom: Rom) returns (pos: int)
      requires Valid()
      ensures pos == Position(ValuesOf(deviceStrings), rom)
    {
      ghost var vals := ValuesOf(deviceStrings);
      pos := 0;
      while pos < |deviceStrings|
        invariant 0 <= pos <= |deviceStrings|
        invariant forall i :: 0 <= i < pos ==> !Matches(vals[i], rom)
      {
        if deviceStrings[pos].Match(rom) {
          assert Matches(vals[pos], rom);
          return pos;
        }
        assert !Matches(vals[pos], rom);
        pos := pos + 1;
      }
      return -1;
    }

    method FindDeviceString(o: DeviceString) returns (i: int)
      ensures -1 <= i < |deviceStrings|
      ensures i >= 0 ==> deviceStrings[i] == o
      ensures i < 0 ==> o !in deviceStrings
    {
      i := 0;
      while i < |deviceStrings|
        invariant 0 <= i <= |deviceStrings| && o !in deviceStrings[..i]
      {
        if deviceStrings[i] == o { return; }
        i := i + 1;
      }
      i := -1;
    }

    method RemoveDeviceString(o: DeviceString) returns (removed: bool)
      requires Distinct(deviceStrings)
      modifies this`deviceStrings
      ensures deviceStrings == Without(old(deviceStrings), {o})
      ensures removed <==> o in old(deviceStrings)
    {
      var i := FindDeviceString(o);
      if i < 0 {
        WithoutAbsent(deviceStrings, o);
        return false;
      }
      EraseIsWithout(deviceStrings, i);
      deviceStrings := deviceStrings[..i] + deviceStrings[i + 1..];
      return true;
    }

    /** An entry is listed as a duplicate exactly when it repeats an earlier one; it may be listed
        several times. */
    method FindDuplicates() returns (duplicates: seq<DeviceString>)
      requires Distinct(deviceStrings) && AllValid(deviceStrings)
      ensures forall k :: 0 <= k < |deviceStrings| ==>
        (deviceStrings[k] in duplicates <==> Repeats(ValuesOf(deviceStrings)[..k], deviceStrings[k].Value()))
    {
      duplicates := [];
      ghost var vals := ValuesOf(deviceStrings);
      var n := |deviceStrings|;
      for i := 0 to n
        invariant forall k :: 0 <= k < n ==> (deviceStrings[k] in duplicates <==> RepeatsFirst(vals, i, k))
      {
        ghost var before := duplicates;
        for j := i + 1 to n
          invariant forall k :: 0 <= k < n ==> (deviceStrings[k] in duplicates <==>
            deviceStrings[k] in before || (i < k < j && Same(vals[i], vals[k])))
        {
          deviceStrings[i].EqualsIsSame(deviceStrings[j]);
          if deviceStrings[i].Equals(deviceStrings[j]) {
            duplicates := duplicates + [deviceStrings[j]];
          }
        }
        forall k | 0 <= k < n ensures deviceStrings[k] in duplicates <==> RepeatsFirst(vals, i + 1, k) {
          RepeatsOneMore(vals, i, k);
        }
      }
    }

    /** Asking again for an entry that is already gone changes nothing. */
    method RemoveAll(duplicates: seq<DeviceString>)
      requires Distinct(deviceStrings)
      modifies this`deviceStrings
      ensures deviceStrings == Without(old(deviceStrings), set d | d in duplicates)
    {
      ghost var was := deviceStrings;
      ghost var gone: set<DeviceString> := {};
      WithoutNone(was);
      for k := 0 to |duplicates|
        invariant gone == set d | d in duplicates[..k]
        invariant deviceStrings == Without(was, gone)
      {
        WithoutDistinct(was, gone);
        var _ := RemoveDeviceString(duplicates[k]);
        WithoutTwice(was, gone, duplicates[k]);
        gone := gone + {duplicates[k]};
        assert duplicates[..k + 1] == duplicates[..k] + [duplicates[k]];
      }
      assert duplicates[..|duplicates|] == duplicates;
    }

    /** Removes by identity what was found by value: the list becomes its kept specs. */
    method PruneDuplicates()
      requires Distinct(deviceStrings) && AllValid(deviceStrings)
      modifies this`deviceStrings
      ensures Distinct(deviceStrings) && AllValid(deviceStrings)
      ensures ValuesOf(deviceStrings) == Kept(old(ValuesOf(deviceStrings)))
    {
      hide Without, Kept, Repeats;
      ghost var was := deviceStrings;
      var duplicates := FindDuplicates();
      ghost var gone := set d | d in duplicates;
      RemoveAll(duplicates);
      WithoutDistinct(was, gone);
      forall d | d in deviceStrings ensures d.Valid() { WithoutElement(was, gone, d); }
      assert forall i :: 0 <= i < |deviceStrings| ==> deviceStrings[i] in deviceStrings;
      LeftIsKept(was, gone);
    }

    method AddDeviceString(o: DeviceString) returns (added: bool)
      requires Distinct(deviceStrings)
      modifies this`deviceStrings
      ensures added <==> o !in old(deviceStrings)
      ensures deviceStrings == old(deviceStrings) + (if added then [o] else [])
    {
      var i := FindDeviceString(o);
      if i >= 0 { return false; }
      deviceStrings := deviceStrings + [o];
      return true;
    }

    /** One substring: a new object, added if it parses. */
    method ParsePiece(piece: string)
      requires Distinct(deviceStrings) && AllValid(deviceStrings)
      modifies this`deviceStrings
      ensures Distinct(deviceStrings) && AllValid(deviceStrings)
      ensures ValuesOf(deviceStrings) == old(ValuesOf(deviceStrings)) + SpecsOf([piece], num)
    {
      var d := new DeviceString();
      var ok := d.Parse(piece, num);
      assert SpecsOf([piece][..0], num) == [];
      ghost var was := deviceStrings;
      assert ValuesOf(was) == old(ValuesOf(deviceStrings));
      if ok {
        var _ := AddDeviceString(d);
        assert ValuesOf(was + [d]) == ValuesOf(was) + [d.Value()];
      }
    }

    /** Adds the specs of a semicolon-separated list and prunes. What is added are the meanings of exactly
        those pieces of the list that have one, in order. */
    method ParseString(s: string) returns (ok: bool, ghost added: seq<Spec>, ghost which: seq<nat>)
      requires Valid()
      modifies this
      ensures ok && Valid() && accepted == old(accepted) + added && Meanings(added, Pieces(s), num, which)
      ensures forall ts: seq<string> :: ts != [] && StringList.AllFree(ts, ';') && AllMean(ts, num) ==>
        s == StringList.Join(ts, ";") ==> AllMeanings(added, ts, num)
    {
      hide Kept, Pieces, SpecsOf, Meanings, AllMeanings, AllMean, StringList.AllFree, StringList.Join;
      var tmp, more := s, true;
      ghost var start, specs, left := ValuesOf(deviceStrings), [], SpecsOf(Pieces(s), num);
      while more
        invariant Distinct(deviceStrings) && AllValid(deviceStrings)
        invariant ValuesOf(deviceStrings) == start + specs
        invariant specs + left == SpecsOf(Pieces(s), num)
        invariant more ==> left == SpecsOf(Pieces(tmp), num)
        invariant !more ==> left == []
        invariant accepted == old(accepted)
        decreases more, |tmp|
      {
        var sep := Find(tmp, ';');
        SpecsStep(tmp, num);
        ParsePiece(tmp[..sep]);
        specs, left := specs + SpecsOf([tmp[..sep]], num), SpecsLeft(tmp, num);
        if sep < |tmp| {
          tmp := tmp[sep + 1..];
          more := tmp != "";
        } else {
          more := false;
        }
      }
      assert specs + left == specs;
      PruneDuplicates();
      KeptIncremental(accepted, specs);
      accepted, added := accepted + specs, specs;
      which := SpecsAreMeanings(Pieces(s), num);
      forall ts: seq<string> | ts != [] && StringList.AllFree(ts, ';') && AllMean(ts, num)
        && s == StringList.Join(ts, ";")
        ensures AllMeanings(added, ts, num)
      {
        JoinMeans(ts, num);
      }
      ok := true;
    }
  }

  /** The specs after the first separator. */
  function SpecsLeft(s: string, num: Numbers): (r: seq<Spec>) {
    var sep := Find(s, ';');
    if sep < |s| && sep + 1 < |s| then SpecsOf(Pieces(s[sep + 1..]), num) else []
  }

  lemma SpecsOfNothing(num: Numbers)
    ensures SpecsOf([], num) == []
  {}

  lemma SpecsStep(s: string, num: Numbers)
    ensures SpecsOf(Pieces(s), num) == SpecsOf([s[..Find(s, ';')]], num) + SpecsLeft(s, num)
  {
    hide SpecOf, SpecsOf, Find;
    var sep := Find(s, ';');
    assert s[..|s|] == s;
    SpecsConcat([s[..sep]], if sep + 1 < |s| then Pieces(s[sep + 1..]) else [], num);
    assert SpecsOf([], num) == [] by { SpecsOfNothing(num); }
    assert [s[..sep]] + [] == [s[..sep]];
  }

  /** Position k repeats one of the first i specs before it. */
  predicate RepeatsFirst(vals: seq<Spec>, i: nat, k: nat)
    requires i <= |vals| && k < |vals|
  {
    Repeats(vals[..if i < k then i else k], vals[k])
  }

  lemma RepeatsOneMore(vals: seq<Spec>, i: nat, k: nat)
    requires i < |vals| && k < |vals|
    ensures RepeatsFirst(vals, i + 1, k) <==> RepeatsFirst(vals, i, k) || (i < k && Same(vals[i], vals[k]))
  {
    if i < k {
      assert vals[..i + 1] == vals[..i] + [vals[i]];
      RepeatsConcat(vals[..i], [vals[i]], vals[k]);
      assert Repeats([vals[i]], vals[k]) <==> Same([vals[i]][0], vals[k]);
    }
  }
}
