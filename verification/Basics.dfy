/** What several of the models share. */
module Basics {

  datatype Option<T> = None | Some(value: T)

  function Min(a: int, b: int): int { if a < b then a else b }

  function Max(a: int, b: int): int { if a > b then a else b }

  ghost predicate Distinct<T>(s: seq<T>) { forall i, j :: 0 <= i < j < |s| ==> s[i] != s[j] }

  function Reversed<T>(s: seq<T>): (r: seq<T>)
    ensures |r| == |s|
  {
    seq(|s|, i requires 0 <= i < |s| => s[|s| - 1 - i])
  }

  lemma Whole(p: real, q: real)
    requires q != 0.0
    ensures p / q * q == p
  {
  }

  lemma Cancel(p: real, w: real)
    requires w != 0.0 && p * w == 0.0
    ensures p == 0.0
  {
  }
}
