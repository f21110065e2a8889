/** Small facts about integers and sequences that several modules use. */
module Basics {
  function Max(a: int, b: int): int { if a > b then a else b }
  function Min(a: int, b: int): int { if a < b then a else b }

  lemma MulMono(a: int, b: int, c: int)
    requires a <= b && 0 <= c
    ensures a * c <= b * c
  {
  }

  lemma NoMore<T>(a: seq<T>)
    ensures a + [] == a
  {
  }

  lemma Regroup<T>(a: seq<T>, b: seq<T>, c: seq<T>)
    ensures (a + b) + c == a + (b + c)
  {
  }

  /** The lists from number i on, joined. */
  function Joined<T>(xs: seq<seq<T>>, i: int): seq<T>
    requires 0 <= i <= |xs|
    decreases |xs| - i
  {
    if i == |xs| then [] else xs[i] + Joined(xs, i + 1)
  }
}
