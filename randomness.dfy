/** The randomness the generator draws on, as an oracle: a fixed stream of
    naturals stands for java.util.Random, and Collections.shuffle is the
    library's Fisher-Yates pass over that stream. Nothing is claimed about the
    distribution of the stream. */
module Randomness {

  class Random {
    /** The raw values the source would produce, in order. */
    const stream: nat -> nat
    /** How many values have been consumed so far. */
    var drawn: nat

    constructor (stream: nat -> nat)
      ensures this.stream == stream && drawn == 0
    {
      this.stream := stream;
      drawn := 0;
    }

    /** `nextInt(bound)`: some value in [0, bound). */
    method NextInt(bound: nat) returns (r: nat)
      requires bound > 0
      modifies this
      ensures r < bound
      ensures drawn == old(drawn) + 1
    {
      r := stream(drawn) % bound;
      drawn := drawn + 1;
    }
  }

  /** `Collections.shuffle`: swaps position i - 1 with a drawn position below
      i, for i from |s| down to 2. Whatever the draws, the result is a
      permutation of the input. */
  method Shuffle<T>(s: seq<T>, random: Random) returns (r: seq<T>)
    modifies random
    ensures |r| == |s|
    ensures multiset(r) == multiset(s)
  {
    r := s;
    var i := |r|;
    while i > 1
      invariant 0 <= i <= |r| == |s|
      invariant multiset(r) == multiset(s)
    {
      var j := random.NextInt(i);
      r := r[i - 1 := r[j]][j := r[i - 1]];
      i := i - 1;
    }
  }
}
