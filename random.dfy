/** The source draws with `random.choice`; here the draws are an explicit
    oracle: a sequence of raw numbers supplied by the caller and consumed one
    per draw. Nothing is said about their distribution. */
module Random {

  class IndexOracle {
    /** The raw draws still to be consumed. */
    var draws: seq<nat>

    constructor (draws: seq<nat>)
      ensures this.draws == draws
    {
      this.draws := draws;
    }

    /** Picks a position in a list of `size` elements, as `random.choice`
        picks one of its elements; once the draws run out it answers 0. */
    method Choice(size: nat) returns (i: nat)
      requires size > 0
      modifies this
      ensures i < size
      ensures old(draws) == [] ==> i == 0 && draws == []
      ensures old(draws) != [] ==> i == old(draws)[0] % size && draws == old(draws)[1..]
    {
      if draws == [] {
        i := 0;
      } else {
        i := draws[0] % size;
        draws := draws[1..];
      }
    }
  }
}
