/**
 * The random source. A `Source` is the stream of raw values the generator
 * would produce; a position says how many draws have been taken so far.
 * `Intn(src, pos, bound)` is the draw at `pos` brought into `[0, bound)`;
 * the caller moves on to `pos + 1`. Any sequence of in-range draws is
 * produced by some source, so the model covers every run of the generator,
 * without saying anything about its distribution.
 */
module Rand {

  type Source = nat -> nat

  function Intn(src: Source, pos: nat, bound: nat): (d: nat)
    requires bound > 0
    ensures d < bound
  {
    src(pos) % bound
  }

}
