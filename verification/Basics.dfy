/** Small notions shared by several components. */
module Basics {

  type byte = x: int | 0 <= x < 256

  datatype Option<T> = None | Some(value: T)

  function Min(a: int, b: int): int { if a < b then a else b }

  function Max(a: int, b: int): int { if a < b then b else a }

  predicate NoDup(s: seq<nat>) { forall i, j :: 0 <= i < j < |s| ==> s[i] != s[j] }
}
