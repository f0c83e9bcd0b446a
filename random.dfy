/**
  * The random choices the solver and the randomizer make: `shuffle(xs)` followed by `xs[0]`
  * picks one element, `randint(lo, hi)` picks a number in a closed range, and a bare `shuffle`
  * permutes a list. Only the range of each choice matters to what is proved; a linear
  * congruential generator stands in for the interpreter's generator.
  */
module Randoms {

  class Random {
    var seed: nat

    constructor (s: nat)
      ensures seed == s
    {
      seed := s;
    }

    /** A position below n: the element a shuffle brings to the front. */
    method Pick(n: nat) returns (k: nat)
      requires n > 0
      modifies this
      ensures k < n
    {
      seed := (seed * 1103515245 + 12345) % 2147483648;
      k := seed % n;
    }

    /** randint(lo, hi): both ends included. */
    method Between(lo: int, hi: int) returns (k: int)
      requires lo <= hi
      modifies this
      ensures lo <= k <= hi
    {
      var d := Pick(hi - lo + 1);
      k := lo + d;
    }

    /** shuffle: the same elements, as often as before, in some order (Fisher-Yates). */
    method Shuffle<T>(s: seq<T>) returns (r: seq<T>)
      modifies this
      ensures |r| == |s| && multiset(r) == multiset(s)
    {
      r := s;
      var i := |r|;
      while i > 1
        invariant 0 <= i <= |r| && |r| == |s| && multiset(r) == multiset(s)
      {
        var j := Pick(i);
        var x, y := r[i - 1], r[j];
        r := r[i - 1 := y][j := x];
        i := i - 1;
      }
    }
  }
}
