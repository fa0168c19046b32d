/**
 * The sequential finder: the Sieve of Eratosthenes up to the end of the
 * range for ranges shorter than a million numbers, trial division of every
 * number otherwise. Both branches give the ascending primes of the range.
 */
module SequentialPrimeFinder {
  import opened Primality

  /** Ranges with `end - start` below this go through the sieve. */
  const SieveThreshold := 1000000

  /** No d in [2, i) with d*d <= k divides k: what survives the sieve passes for 2..i-1. */
  predicate NoSmallFactor(k: int, i: int) {
    forall d :: 2 <= d < i && d * d <= k ==> k % d != 0
  }

  /** The entries one pass for i strikes out: the multiples of i from i*i on. */
  predicate StruckBy(k: int, i: int)
    requires i > 0
  {
    i * i <= k && k % i == 0
  }

  /** Passing i adds the divisor i to those tried. */
  lemma NoSmallFactorNext(k: int, i: int)
    requires i >= 2
    ensures NoSmallFactor(k, i + 1) <==> NoSmallFactor(k, i) && !StruckBy(k, i)
  {
    if StruckBy(k, i) {
      assert !NoSmallFactor(k, i + 1) by {
        assert 2 <= i < i + 1 && i * i <= k && k % i == 0;
      }
    }
    if NoSmallFactor(k, i) && !StruckBy(k, i) {
      forall d | 2 <= d < i + 1 && d * d <= k ensures k % d != 0 {
        if d == i {
          assert !StruckBy(k, d);
        }
      }
    }
  }

  /**
   * When i itself was struck out (it has a factor d with d*d <= i), its
   * multiples from i*i on were struck out by d already.
   */
  lemma StruckEarlier(k: int, i: int)
    requires i >= 2 && !NoSmallFactor(i, i) && StruckBy(k, i)
    ensures !NoSmallFactor(k, i)
  {
    var d :| 2 <= d < i && d * d <= i && i % d == 0;
    DividesTransitive(d, i, k);
    MulAtLeast(i, i);
  }

  /** After the passes for 2..Isqrt(limit), the survivors from 2 on are exactly the primes. */
  lemma SurvivorsArePrime(k: int, limit: int)
    requires 0 <= k <= limit
    ensures (k >= 2 && NoSmallFactor(k, Isqrt(limit) + 1)) <==> IsPrime(k)
  {
    if IsPrime(k) {
      forall d | 2 <= d < Isqrt(limit) + 1 && d * d <= k ensures k % d != 0 {
        MulMonotone(2, d, d);
      }
    }
    if k >= 2 && !IsPrime(k) {
      var d :| 2 <= d < k && k % d == 0;
      var e := SmallDivisor(k, d);
      if e > Isqrt(limit) {
        AboveIsqrt(limit, e);
      }
      assert !NoSmallFactor(k, Isqrt(limit) + 1);
    }
  }

  /** Below j, the next multiple of i after the multiple j is not a multiple. */
  lemma NextMultiple(i: int, j: int, k: int)
    requires i > 0 && j % i == 0
    ensures (j + i) % i == 0
    ensures j < k < j + i ==> k % i != 0
  {
    ModUnique(j + i, i, j / i + 1, 0);
    if j < k < j + i {
      ModUnique(k, i, j / i, k - j);
    }
  }

  /**
   * `for j in range(i * i, limit + 1, i): is_prime[j] = False`: exactly the
   * multiples of i from i*i on are cleared; entries only ever go from true
   * to false.
   */
  method StrikeMultiples(marks: array<bool>, i: int)
    requires i >= 2
    modifies marks
    ensures forall k :: 0 <= k < marks.Length ==> marks[k] == (old(marks[k]) && !StruckBy(k, i))
    ensures forall k :: 0 <= k < marks.Length && marks[k] ==> old(marks[k])
  {
    var j := i * i;
    MultipleMod(i, i);
    while j < marks.Length
      invariant i * i <= j && j % i == 0
      invariant forall k :: 0 <= k < marks.Length ==> marks[k] == (old(marks[k]) && !(StruckBy(k, i) && k < j))
      decreases marks.Length - j
    {
      marks[j] := false;
      forall k | j < k < j + i ensures k % i != 0 {
        NextMultiple(i, j, k);
      }
      NextMultiple(i, j, j);
      j := j + i;
    }
  }

  /** `[i for i in range(2, hi + 1) if marks[i]]` */
  function Collect(marks: seq<bool>, hi: int): (r: seq<int>)
    requires hi < |marks|
    ensures StrictlyAscending(r)
    ensures forall x :: x in r <==> 2 <= x <= hi && marks[x]
    decreases hi
  {
    if hi < 2 then []
    else
      var smaller := Collect(marks, hi - 1);
      assert forall k :: 0 <= k < |smaller| ==> smaller[k] < hi by {
        forall k | 0 <= k < |smaller| ensures smaller[k] < hi {
          assert smaller[k] in smaller;
        }
      }
      smaller + (if marks[hi] then [hi] else [])
  }

  /** Collecting from marks that are true exactly at the primes gives PrimesIn(2, hi). */
  lemma {:induction false} CollectPrimes(marks: seq<bool>, hi: int)
    requires hi < |marks|
    requires forall k :: 0 <= k <= hi ==> marks[k] == IsPrime(k)
    ensures Collect(marks, hi) == PrimesIn(2, hi)
    decreases hi
  {
    if hi >= 2 {
      CollectPrimes(marks, hi - 1);
    }
  }

  /**
   * sieve_of_eratosthenes(limit): [] below 2; otherwise a boolean array
   * over 0..limit, true except at 0 and 1, from which each i in
   * 2..Isqrt(limit) still marked strikes its multiples from i*i on; the
   * indices left true are collected in order.
   */
  method Sieve(limit: int) returns (primes: seq<int>)
    ensures limit < 2 ==> primes == []
    ensures primes == PrimesIn(2, limit)
  {
    if limit < 2 {
      return [];
    }
    var marks := new bool[limit + 1](_ => true);
    marks[0], marks[1] := false, false;
    var bound := Isqrt(limit) + 1;
    IsqrtBelow(limit);
    for i := 2 to bound
      invariant forall k :: 0 <= k < marks.Length ==> marks[k] == (k >= 2 && NoSmallFactor(k, i))
    {
      if marks[i] {
        StrikeMultiples(marks, i);
      } else {
        forall k | 0 <= k < marks.Length && StruckBy(k, i) ensures !NoSmallFactor(k, i) {
          StruckEarlier(k, i);
        }
      }
      forall k | 0 <= k < marks.Length ensures NoSmallFactor(k, i + 1) <==> NoSmallFactor(k, i) && !StruckBy(k, i) {
        NoSmallFactorNext(k, i);
      }
    }
    forall k | 0 <= k <= limit ensures marks[k] == IsPrime(k) {
      SurvivorsArePrime(k, limit);
    }
    CollectPrimes(marks[..], limit);
    primes := Collect(marks[..], limit);
  }

  /** `[p for p in s if p >= lo]` */
  function AtLeast(s: seq<int>, lo: int): (r: seq<int>)
    ensures forall x :: x in r <==> x in s && x >= lo
  {
    if |s| == 0 then []
    else
      var init := s[..|s| - 1];
      assert forall x :: x in s <==> x in init || x == s[|s| - 1] by {
        assert s == init + [s[|s| - 1]];
      }
      AtLeast(init, lo) + (if s[|s| - 1] >= lo then [s[|s| - 1]] else [])
  }

  /** Filtering the primes from 2 up by `p >= lo` gives the primes of [lo, hi]. */
  lemma {:induction false} AtLeastPrimes(lo: int, hi: int)
    ensures AtLeast(PrimesIn(2, hi), lo) == PrimesIn(lo, hi)
    decreases hi
  {
    if hi < 2 {
      PrimesInBelowTwo(lo, hi);
    } else {
      AtLeastPrimes(lo, hi - 1);
      var s := PrimesIn(2, hi);
      if IsPrime(hi) {
        assert s[..|s| - 1] == PrimesIn(2, hi - 1);
      } else {
        assert s == PrimesIn(2, hi - 1);
      }
    }
  }

  /**
   * find_primes_sequential(start, end) without the timing: the sieve up to
   * end filtered to start and above when end - start < 1000000, trial
   * division of start..end otherwise; either way the ascending primes of
   * [start, end], none when start > end or end < 2.
   */
  method FindPrimesSequential(start: int, end: int) returns (primes: seq<int>)
    ensures primes == PrimesIn(start, end)
    ensures start > end || end < 2 ==> primes == []
  {
    if end - start < SieveThreshold {
      var all := Sieve(end);
      primes := AtLeast(all, start);
      AtLeastPrimes(start, end);
    } else {
      primes := [];
      for num := start to end + 1
        invariant primes == PrimesIn(start, num - 1)
      {
        var prime := TrialDivision(num);
        if prime {
          primes := primes + [num];
        }
      }
    }
    if end < 2 {
      PrimesInBelowTwo(start, end);
    }
  }
}
