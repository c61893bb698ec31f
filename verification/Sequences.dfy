/** Sequences of one value. */
module Sequences {

  function Repeat<T>(x: T, n: nat): (xs: seq<T>)
    ensures |xs| == n
  {
    seq(n, i => x)
  }
}
