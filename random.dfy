/** The game's random choices, `Math.floor(Math.random() * n)`, stand for
    some index below `n`; an arbitrary natural number `pick` selects which. */
module Random {

  /** The index among `n` candidates that draw `pick` selects. Every index
      below `n` is selected by some draw, namely by itself. */
  function RandomIndex(pick: nat, n: nat): (j: nat)
    requires n > 0
    ensures j < n
    ensures pick < n ==> j == pick
  {
    if pick < n then pick else RandomIndex(pick - n, n)
  }
}
