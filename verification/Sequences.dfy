/** Filtered and strictly sorted sequences. */
module Sequences {

  function Filter<T>(s: seq<T>, p: T -> bool): (r: seq<T>)
    decreases |s|
  {
    if s == [] then []
    else
      var k := |s| - 1;
      Filter(s[..k], p) + (if p(s[k]) then [s[k]] else [])
  }

  lemma {:induction false} FilterElement<T>(s: seq<T>, p: T -> bool, x: T)
    ensures x in Filter(s, p) <==> x in s && p(x)
    decreases |s|
  {
    if s != [] { FilterElement(s[..|s| - 1], p, x); }
  }

  lemma FilterStep<T>(s: seq<T>, p: T -> bool, k: nat)
    requires k < |s|
    ensures Filter(s[..k + 1], p) == Filter(s[..k], p) + (if p(s[k]) then [s[k]] else [])
  {
    assert s[..k + 1][..k] == s[..k];
  }

  lemma {:induction false} FilterLength<T>(s: seq<T>, p: T -> bool)
    ensures |Filter(s, p)| <= |s|
    ensures |Filter(s, p)| == |s| <==> forall i :: 0 <= i < |s| ==> p(s[i])
    decreases |s|
  {
    if s != [] {
      FilterLength(s[..|s| - 1], p);
      assert forall i :: 0 <= i < |s| - 1 ==> s[..|s| - 1][i] == s[i];
    }
  }

  lemma {:induction false} FilterPartition<T(!new)>(s: seq<T>, p: T -> bool, q: T -> bool, r: T -> bool)
    requires forall x :: r(x) <==> p(x) || q(x)
    requires forall x :: !(p(x) && q(x))
    ensures |Filter(s, r)| == |Filter(s, p)| + |Filter(s, q)|
    decreases |s|
  {
    if s != [] { FilterPartition(s[..|s| - 1], p, q, r); }
  }

  ghost predicate Sorted<T(!new)>(s: seq<T>, before: (T, T) -> bool) {
    forall i, j :: 0 <= i < j < |s| ==> before(s[i], s[j])
  }

  ghost predicate StrictOrder<T(!new)>(before: (T, T) -> bool) {
    && (forall a :: !before(a, a))
    && (forall a, b :: before(a, b) ==> !before(b, a))
  }

  lemma {:induction false} FilterSorted<T(!new)>(s: seq<T>, p: T -> bool, before: (T, T) -> bool)
    requires Sorted(s, before)
    ensures Sorted(Filter(s, p), before)
    decreases |s|
  {
    if s != [] {
      var k := |s| - 1;
      FilterSorted(s[..k], p, before);
      forall x | x in Filter(s[..k], p) ensures before(x, s[k]) {
        FilterElement(s[..k], p, x);
        var i :| 0 <= i < k && s[..k][i] == x;
        assert before(s[i], s[k]);
      }
    }
  }

  lemma SortedConcat<T(!new)>(a: seq<T>, b: seq<T>, before: (T, T) -> bool)
    requires Sorted(a, before) && Sorted(b, before)
    requires forall x, y :: x in a && y in b ==> before(x, y)
    ensures Sorted(a + b, before)
  {}

  /** A strictly sorted sequence is determined by the set of its elements. */
  lemma {:induction false} SortedUnique<T(!new)>(a: seq<T>, b: seq<T>, before: (T, T) -> bool)
    requires StrictOrder(before) && Sorted(a, before) && Sorted(b, before)
    requires forall x :: x in a <==> x in b
    ensures a == b
    decreases |a|
  {
    hide StrictOrder;
    if b != [] {
      assert b[0] in b;
    }
    if a != [] {
      assert a[0] in b;
      assert b[0] in a;
      SameHead(a, b, before);
      forall x ensures x in a[1..] <==> x in b[1..] {
        TailElement(a, before, x);
        TailElement(b, before, x);
      }
      SortedUnique(a[1..], b[1..], before);
      assert a == [a[0]] + a[1..] && b == [b[0]] + b[1..];
    }
  }

  lemma SameHead<T(!new)>(a: seq<T>, b: seq<T>, before: (T, T) -> bool)
    requires StrictOrder(before) && Sorted(a, before) && Sorted(b, before) && a != [] && b != []
    requires a[0] in b && b[0] in a
    ensures a[0] == b[0]
  {
    var i :| 0 <= i < |b| && b[i] == a[0];
    var j :| 0 <= j < |a| && a[j] == b[0];
  }

  lemma TailElement<T(!new)>(a: seq<T>, before: (T, T) -> bool, x: T)
    requires StrictOrder(before) && Sorted(a, before) && a != []
    ensures x in a[1..] <==> x in a && x != a[0]
  {
    if x in a && x != a[0] {
      var i :| 0 <= i < |a| && a[i] == x;
      assert a[1..][i - 1] == x;
    }
  }

  predicate Distinct<T(==)>(s: seq<T>) {
    forall i, j :: 0 <= i < j < |s| ==> s[i] != s[j]
  }
}
