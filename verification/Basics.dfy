/** Types and predicates shared by the other modules. */
module Basics {

  datatype Option<+T> = None | Some(value: T)

  type Byte = x: int | 0 <= x < 256

  /** Equal except possibly at the len positions from at on. */
  predicate SameOutside<T(==)>(a: seq<T>, b: seq<T>, at: nat, len: nat) {
    |a| == |b| && forall i :: 0 <= i < |a| && !(at <= i < at + len) ==> a[i] == b[i]
  }

  /** A sequence with some of its elements replaced, from a position on. */
  function Patch<T>(s: seq<T>, at: nat, data: seq<T>): (r: seq<T>)
    requires at + |data| <= |s|
    ensures |r| == |s|
  {
    s[..at] + data + s[at + |data|..]
  }
}
