/** Splitting strings at a delimiter and joining them again, and the name strings of a DICE device. */
module StringList {

  predicate At(s: string, d: string, i: nat) {
    i + |d| <= |s| && s[i..i + |d|] == d
  }

  /** First occurrence of d at or after start, or the end of the string. */
  function FindFrom(s: string, d: string, start: nat): (pos: nat)
    requires start <= |s|
    ensures start <= pos <= |s|
    ensures pos < |s| ==> At(s, d, pos)
    ensures forall i :: start <= i < pos ==> !At(s, d, i)
    decreases |s| - start
  {
    if start == |s| || At(s, d, start) then start else FindFrom(s, d, start + 1)
  }

  function SplitFrom(s: string, d: string, start: nat): (r: seq<string>)
    requires d != ""
    decreases |s| - start
  {
    if start >= |s| then []
    else
      var end := FindFrom(s, d, start);
      [s[start..end]] + SplitFrom(s, d, end + |d|)
  }

  function Split(s: string, d: string): (r: seq<string>)
    requires d != ""
  {
    SplitFrom(s, d, 0)
  }

  function Join(ts: seq<string>, d: string): (r: string) {
    if ts == [] then "" else if |ts| == 1 then ts[0] else ts[0] + d + Join(ts[1..], d)
  }

  // ---- the loops ----

  method SplitString(s: string, d: string) returns (result: seq<string>)
    requires d != ""
    ensures result == Split(s, d)
  {
    result := [];
    var start, end := 0, 0;
    while start < |s|
      invariant result + SplitFrom(s, d, start) == Split(s, d)
      decreases |s| - start
    {
      end := FindFrom(s, d, start);
      result := result + [s[start..end]];
      start := end + |d|;
    }
  }

  method JoinStrings(ts: seq<string>, joiner: string) returns (result: string)
    ensures result == Join(ts, joiner)
  {
    result := "";
    var it := 0;
    while it != |ts|
      invariant 0 <= it <= |ts|
      invariant it < |ts| ==> result + Join(ts[it..], joiner) == Join(ts, joiner)
      invariant it == |ts| ==> result == Join(ts, joiner)
      decreases |ts| - it
    {
      ghost var rest := ts[it..];
      assert |rest| > 1 ==> rest[1..] == ts[it + 1..];
      result := result + ts[it];
      it := it + 1;
      if it != |ts| { result := result + joiner; }
    }
  }

  lemma JoinCons(t: string, rest: seq<string>, d: string)
    ensures Join([t] + rest, d) == if rest == [] then t else t + d + Join(rest, d)
  {
    assert ([t] + rest)[1..] == rest;
  }

  // ---- joining what was split ----

  /** Whether the scan from start ends exactly behind a delimiter. */
  predicate EndsOnDelimiter(s: string, d: string, start: nat)
    requires d != ""
    decreases |s| - start
  {
    start < |s| &&
    var end := FindFrom(s, d, start);
    end < |s| && (end + |d| == |s| || EndsOnDelimiter(s, d, end + |d|))
  }

  lemma {:induction false} JoinSplitFrom(s: string, d: string, start: nat)
    requires d != "" && start <= |s|
    ensures Join(SplitFrom(s, d, start), d) + (if EndsOnDelimiter(s, d, start) then d else "") == s[start..]
    decreases |s| - start
  {
    hide FindFrom, Join;
    if start == |s| {
      JoinNothing(d);
    } else {
      var end := FindFrom(s, d, start);
      var next := end + |d|;
      JoinCons(s[start..end], SplitFrom(s, d, next), d);
      if end < |s| {
        JoinSplitFrom(s, d, next);
        if next == |s| { JoinNothing(d); }
        assert s[start..] == s[start..end] + d + s[next..];
      }
    }
  }

  lemma JoinNothing(d: string)
    ensures Join([], d) == ""
  {}

  /** An empty delimiter is found at once, everywhere: the scan would never get on. */
  lemma EmptyDelimiterStays(s: string, start: nat)
    requires start <= |s|
    ensures FindFrom(s, "", start) + |""| == start
  {
    assert At(s, "", start);
  }

  /** For a single character the scan ends on a delimiter exactly if the string does. */
  lemma {:induction false} EndsOnCharacter(s: string, c: char, start: nat)
    ensures EndsOnDelimiter(s, [c], start) <==> start < |s| && s[|s| - 1] == c
    decreases |s| - start
  {
    if start < |s| {
      var end := FindFrom(s, [c], start);
      forall i | 0 <= i < |s| ensures At(s, [c], i) <==> s[i] == c { assert s[i..i + 1] == [s[i]]; }
      if end < |s| { EndsOnCharacter(s, c, end + 1); }
    }
  }

  /** Joining the pieces gives the string back, less one delimiter if the scan ends on one. */
  lemma JoinSplit(s: string, d: string)
    requires d != ""
    ensures Join(Split(s, d), d) + (if EndsOnDelimiter(s, d, 0) then d else "") == s
  {
    JoinSplitFrom(s, d, 0);
    assert s[0..] == s;
  }

  // ---- splitting what was joined ----

  predicate Free(t: string, c: char) { c !in t }

  predicate AllFree(ts: seq<string>, c: char) {
    forall i :: 0 <= i < |ts| ==> Free(ts[i], c)
  }

  /** What a join loses: an empty last token. */
  function Trimmed(ts: seq<string>): (r: seq<string>) {
    if ts != [] && ts[|ts| - 1] == "" then ts[..|ts| - 1] else ts
  }

  lemma FindIs(s: string, c: char, start: nat, pos: nat)
    requires start <= pos <= |s| && (forall i :: start <= i < pos ==> s[i] != c) && (pos < |s| ==> s[pos] == c)
    ensures FindFrom(s, [c], start) == pos
  {
    forall i | 0 <= i < |s| ensures At(s, [c], i) <==> s[i] == c {
      assert s[i..i + 1] == [s[i]];
    }
  }

  lemma SplitToken(before: string, t: string, rest: string, c: char)
    requires Free(t, c)
    ensures SplitFrom(before + t + [c] + rest, [c], |before|)
         == [t] + SplitFrom(before + t + [c] + rest, [c], |before + t + [c]|)
  {
    hide FindFrom;
    var s, pos := before + t + [c] + rest, |before| + |t|;
    FindIs(s, c, |before|, pos);
    assert s[|before|..pos] == t;
  }

  lemma {:induction false} SplitJoinFrom(before: string, ts: seq<string>, c: char)
    requires AllFree(ts, c)
    ensures SplitFrom(before + Join(ts, [c]), [c], |before|) == Trimmed(ts)
    decreases |ts|
  {
    hide FindFrom, Join;
    if ts == [] {
      JoinNothing([c]);
    } else {
      var t, ts' := ts[0], ts[1..];
      JoinCons(t, ts', [c]);
      assert ts == [t] + ts';
      var s := before + Join(ts, [c]);
      if ts' == [] {
        if t != "" {
          FindIs(s, c, |before|, |s|);
          assert s[|before|..|s|] == t && SplitFrom(s, [c], |s| + 1) == [];
        }
      } else {
        SplitToken(before, t, Join(ts', [c]), c);
        assert s == before + t + [c] + Join(ts', [c]);
        SplitJoinFrom(before + t + [c], ts', c);
        assert Trimmed(ts) == [t] + Trimmed(ts');
      }
    }
  }

  /** Splitting a join of tokens free of the delimiter gives the tokens back, exactly when the last
      one is not empty. */
  lemma SplitJoin(ts: seq<string>, c: char)
    requires AllFree(ts, c)
    ensures Split(Join(ts, [c]), [c]) == Trimmed(ts)
    ensures Split(Join(ts, [c]), [c]) == ts <==> ts == [] || ts[|ts| - 1] != ""
  {
    SplitJoinFrom("", ts, c);
    assert "" + Join(ts, [c]) == Join(ts, [c]);
  }

  // ---- name strings ----

  /** What comes before the first double backslash. */
  function NamePart(s: string): (r: string) { s[..FindFrom(s, "\\\\", 0)] }

  predicate NoDouble(s: string) {
    forall i :: 0 <= i < |s| - 1 ==> s[i] != '\\' || s[i + 1] != '\\'
  }

  lemma NamePartNoDouble(s: string)
    ensures NoDouble(NamePart(s))
  {
    var part := NamePart(s);
    forall i | 0 <= i < |part| - 1 ensures part[i] != '\\' || part[i + 1] != '\\' {
      assert !At(s, "\\\\", i);
      assert s[i..i + 2] == [s[i], s[i + 1]];
    }
  }

  /** A piece runs up to the next delimiter. */
  lemma PieceEnds(s: string, start: nat)
    requires start <= |s|
    ensures var end := FindFrom(s, "\\", start);
      Free(s[start..end], '\\') && (end < |s| ==> s[end] == '\\')
  {
    var end := FindFrom(s, "\\", start);
    forall i | start <= i < |s| ensures At(s, "\\", i) <==> s[i] == '\\' {
      assert s[i..i + 1] == [s[i]] && "\\" == ['\\'];
    }
  }

  /** Pieces free of backslashes, none empty but possibly the first. */
  predicate Pieces(r: seq<string>, first: bool) {
    forall i :: 0 <= i < |r| ==> Free(r[i], '\\') && (i > 0 || !first ==> r[i] != "")
  }

  /** Without double backslashes, only the first piece of a string can be empty. */
  lemma {:induction false} PiecesNonEmpty(s: string, start: nat)
    requires NoDouble(s) && (0 < start <= |s| ==> s[start - 1] == '\\')
    ensures Pieces(SplitFrom(s, "\\", start), start == 0)
    decreases |s| - start
  {
    hide FindFrom, Free;
    if start < |s| {
      var end := FindFrom(s, "\\", start);
      PieceEnds(s, start);
      PiecesNonEmpty(s, end + 1);
      var rest := SplitFrom(s, "\\", end + 1);
      assert SplitFrom(s, "\\", start) == [s[start..end]] + rest;
      assert start > 0 ==> end > start;
    }
  }

  /** The names before the first double backslash: joined again they are that part of the string, less
      one backslash at its very end, no name holds a backslash, and only the first can be empty. */
  method SplitNameString(s: string) returns (names: seq<string>)
    ensures names == Split(NamePart(s), "\\")
    ensures Join(names, "\\") + (if EndsOnDelimiter(NamePart(s), "\\", 0) then "\\" else "") == NamePart(s)
    ensures Pieces(names, true)
  {
    NamePartNoDouble(s);
    PiecesNonEmpty(NamePart(s), 0);
    JoinSplit(NamePart(s), "\\");
    names := SplitString(NamePart(s), "\\");
  }

  predicate Names(ts: seq<string>) {
    forall i :: 0 <= i < |ts| ==> ts[i] != "" && Free(ts[i], '\\')
  }

  lemma {:induction false} NoDoubleSeparator(ts: seq<string>, i: nat)
    requires Names(ts) && ts != [] && i < |Join(ts, "\\")|
    ensures Join(ts, "\\")[0] != '\\' && Join(ts, "\\")[|Join(ts, "\\")| - 1] != '\\'
    ensures i + 1 < |Join(ts, "\\")| ==> Join(ts, "\\")[i] != '\\' || Join(ts, "\\")[i + 1] != '\\'
    decreases |ts|
  {
    if |ts| > 1 {
      var t, rest := ts[0], Join(ts[1..], "\\");
      assert Join(ts, "\\") == t + "\\" + rest;
      NamesNonEmpty(ts[1..]);
      NoDoubleSeparator(ts[1..], if i > |t| then i - |t| - 1 else 0);
    }
  }

  lemma NamesNonEmpty(ts: seq<string>)
    requires Names(ts) && ts != []
    ensures Join(ts, "\\") != ""
  {}

  lemma NotTerminated(ts: seq<string>, rest: string, i: nat)
    requires Names(ts) && ts != [] && i < |Join(ts, "\\")|
    ensures !At(Join(ts, "\\") + "\\\\" + rest, "\\\\", i)
  {
    var j := Join(ts, "\\");
    var s := j + "\\\\" + rest;
    NoDoubleSeparator(ts, i);
    assert s[i] == j[i] && (i + 1 < |j| ==> s[i + 1] == j[i + 1]);
    assert s[i..i + 2] == [s[i], s[i + 1]];
  }

  /** Names written with single separators and a double terminator are read back, whatever follows. */
  lemma NameStringRoundTrip(ts: seq<string>, rest: string)
    requires Names(ts) && ts != []
    ensures var s := Join(ts, "\\") + "\\\\" + rest;
      Split(NamePart(s), "\\") == ts
  {
    var j := Join(ts, "\\");
    var s := j + "\\\\" + rest;
    NamesNonEmpty(ts);
    var pos := FindFrom(s, "\\\\", 0);
    assert s[|j|..|j| + 2] == "\\\\";
    assert At(s, "\\\\", |j|);
    forall i | 0 <= i < |j| ensures !At(s, "\\\\", i) { NotTerminated(ts, rest, i); }
    assert s[..pos] == j;
    assert "\\" == ['\\'];
    SplitJoin(ts, '\\');
  }
}
