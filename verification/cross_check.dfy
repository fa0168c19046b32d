/**
 * The correctness comparison of the performance script: the sequential
 * finder and the parallel solver are run on the same range and their
 * results compared as sets.
 */
module CrossCheck {
  import opened Wrappers
  import opened Primality
  import opened ParallelPrimeFinder
  import opened SequentialPrimeFinder

  /** `set(xs)` */
  function AsSet(xs: seq<int>): set<int> {
    set x | x in xs
  }

  /** The set of the primes of a range is the set of the primes between its bounds. */
  lemma PrimeSetOfRange(lo: int, hi: int)
    ensures AsSet(PrimesIn(lo, hi)) == set x | lo <= x <= hi && IsPrime(x)
  {
    PrimesInExactly(lo, hi);
  }

  /**
   * `set(seq_primes) == set(par_primes)` after running both finders on
   * [start, end]; None when the solver has no workers and so returns no
   * result to compare. With at least one worker the results always agree.
   */
  method CompareAlgorithms(start: int, end: int, workers: nat) returns (correct: Option<bool>)
    ensures workers == 0 <==> correct == None
    ensures workers >= 1 ==> correct == Some(true)
  {
    var seqPrimes := FindPrimesSequential(start, end);
    var outcome := Solve(start, end, workers);
    if outcome.NoWorkers? {
      return None;
    }
    var parPrimes := outcome.primes;
    correct := Some(AsSet(seqPrimes) == AsSet(parPrimes));
  }
}
