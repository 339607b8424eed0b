/** Definitions shared by the components. */
module Basics {

  type byte = b: int | 0 <= b < 256

  datatype Option<T> = None | Some(value: T)

  /** No element twice. */
  predicate Distinct<T(==)>(s: seq<T>) {
    forall i, j :: 0 <= i < j < |s| ==> s[i] != s[j]
  }

  function NatsBelow(n: nat): (s: set<nat>)
    ensures |s| == n && forall x: nat :: x in s <==> x < n
  {
    if n == 0 then {} else NatsBelow(n - 1) + {n - 1}
  }
}
