/**
 * Number theory shared by the three prime finders: what a prime is, the
 * integer square root that bounds trial division, the ascending list of the
 * primes of an inclusive range, and the trial-division test `is_prime`, which
 * the repository repeats word for word in all three core files.
 */
module Primality {

  /** n is prime: at least 2 and without a divisor in 2..n-1. */
  predicate IsPrime(n: int) {
    n >= 2 && forall d :: 2 <= d < n ==> n % d != 0
  }

  /** The integer square root; it stands in for `int(math.sqrt(n))`. */
  function Isqrt(n: nat): nat {
    if n == 0 then 0
    else
      var s := Isqrt(n - 1);
      if (s + 1) * (s + 1) <= n then s + 1 else s
  }

  /** Isqrt(n) is the largest r with r*r <= n. */
  lemma {:induction false} IsqrtBounds(n: nat)
    ensures Isqrt(n) * Isqrt(n) <= n < (Isqrt(n) + 1) * (Isqrt(n) + 1)
  {
    if n > 0 {
      IsqrtBounds(n - 1);
      var s := Isqrt(n - 1);
      assert (s + 2) * (s + 2) == (s + 1) * (s + 1) + 2 * s + 3;
    }
  }

  /** Multiplying by a non-negative number keeps the order. */
  lemma {:induction false} MulMonotone(a: int, b: int, c: int)
    requires a <= b && c >= 0
    ensures a * c <= b * c
    decreases c
  {
    if c > 0 {
      MulMonotone(a, b, c - 1);
      assert a * c == a * (c - 1) + a;
      assert b * c == b * (c - 1) + b;
    }
  }

  /** Whatever is at least the square root's successor squares beyond n. */
  lemma AboveIsqrt(n: nat, e: int)
    requires e > Isqrt(n)
    ensures e * e > n
  {
    var r := Isqrt(n);
    IsqrtBounds(n);
    MulMonotone(r + 1, e, r + 1);
    MulMonotone(r + 1, e, e);
  }

  /** From 2 on, the square root lies strictly below the number. */
  lemma IsqrtBelow(n: nat)
    requires n >= 2
    ensures Isqrt(n) < n
  {
    var r := Isqrt(n);
    IsqrtBounds(n);
    if r >= n {
      MulMonotone(2, r, r);
      assert false;
    }
  }

  /** A divisor d and its cofactor multiply back to n. */
  lemma DivisorCofactor(n: int, d: int)
    requires d > 0 && n % d == 0
    ensures n == d * (n / d)
  {
  }

  /** Divisibility is transitive. */
  lemma DividesTransitive(a: int, b: int, c: int)
    requires a > 0 && b > 0 && b % a == 0 && c % b == 0
    ensures c % a == 0
  {
    var p := b / a;
    var q := c / b;
    DivisorCofactor(b, a);
    DivisorCofactor(c, b);
    assert c == a * (p * q);
    MultipleMod(a, p * q);
  }

  /** A multiple of d leaves no remainder. */
  lemma MultipleMod(d: int, m: int)
    requires d > 0
    ensures (d * m) % d == 0
  {
    ModUnique(d * m, d, m, 0);
  }

  /** Euclidean division is unique: n == d*q + r with 0 <= r < d fixes q and r. */
  lemma ModUnique(n: int, d: int, q: int, r: int)
    requires d > 0 && 0 <= r < d && n == d * q + r
    ensures n % d == r && n / d == q
  {
    var q' := n / d;
    var r' := n % d;
    assert d * (q - q') == r' - r;
    if q > q' {
      MulAtLeast(d, q - q');
    } else if q < q' {
      MulAtLeast(d, q' - q);
    }
  }

  /** A positive multiple of d is at least d. */
  lemma MulAtLeast(d: int, k: int)
    requires d > 0 && k >= 1
    ensures d * k >= d
  {
    MulMonotone(1, k, d);
  }

  /** Every divisor of an odd number is odd. */
  lemma OddDivisor(n: int, d: int)
    requires d > 0 && n % d == 0 && n % 2 == 1
    ensures d % 2 == 1
  {
    if d % 2 == 0 {
      DividesTransitive(2, d, n);
    }
  }

  /** An even number other than 2 is not prime. */
  lemma EvenNotPrime(n: int)
    requires n % 2 == 0 && n != 2
    ensures !IsPrime(n)
  {
    if n >= 2 {
      assert 2 < n && n % 2 == 0;
    }
  }

  /** A composite number has a divisor no larger than its square root. */
  lemma SmallDivisor(n: int, d: int) returns (e: int)
    requires 2 <= d < n && n % d == 0
    ensures 2 <= e < n && e * e <= n && n % e == 0
    ensures n % 2 == 1 ==> e % 2 == 1
  {
    var q := n / d;
    DivisorCofactor(n, d);
    assert q >= 2 by {
      if q <= 1 {
        MulMonotone(q, 1, d);
        assert false;
      }
    }
    assert n % q == 0 by { ModUnique(n, q, d, 0); }
    if d <= q {
      e := d;
      MulMonotone(d, q, d);
    } else {
      e := q;
      MulMonotone(q, d, q);
      MulMonotone(2, d, q);
    }
    if n % 2 == 1 {
      OddDivisor(n, e);
    }
  }

  /** No odd number in 3..i-1 divides n: what the divisor loop has established before trying i. */
  predicate NoOddDivisorBelow(n: int, i: int) {
    forall d :: 3 <= d < i && d % 2 == 1 ==> n % d != 0
  }

  /** An odd n with no odd divisor among 3..Isqrt(n) is prime. */
  lemma OddWithoutSmallDivisorIsPrime(n: int)
    requires n >= 3 && n % 2 == 1
    requires NoOddDivisorBelow(n, Isqrt(n) + 1)
    ensures IsPrime(n)
  {
    if !IsPrime(n) {
      var d :| 2 <= d < n && n % d == 0;
      var e := SmallDivisor(n, d);
      if e > Isqrt(n) {
        AboveIsqrt(n, e);
      }
      assert false;
    }
  }

  /** A divisor the loop finds, at most the square root, shows n composite. */
  lemma DivisorFound(n: int, i: int)
    requires n >= 2 && 3 <= i <= Isqrt(n) && n % i == 0
    ensures !IsPrime(n)
  {
    IsqrtBelow(n);
  }

  /** Moving from the odd i, which does not divide n, to i + 2 keeps the loop's knowledge. */
  lemma NextOddCandidate(n: int, i: int)
    requires i % 2 == 1 && NoOddDivisorBelow(n, i) && n % i != 0
    ensures (i + 2) % 2 == 1 && NoOddDivisorBelow(n, i + 2)
  {
    ModUnique(i + 1, 2, i / 2 + 1, 0);
    ModUnique(i + 2, 2, i / 2 + 1, 1);
  }

  /**
   * is_prime(n): false below 2, true for 2, false for other even numbers,
   * otherwise trial division by the odd numbers 3, 5, ... below Isqrt(n) + 1,
   * stopping at the first that divides n.
   */
  method TrialDivision(n: int) returns (prime: bool)
    ensures prime <==> IsPrime(n)
  {
    if n < 2 {
      return false;
    }
    if n == 2 {
      return true;
    }
    if n % 2 == 0 {
      EvenNotPrime(n);
      return false;
    }
    var sqrtN := Isqrt(n) + 1;
    var i := 3;
    while i < sqrtN
      invariant 3 <= i && i % 2 == 1
      invariant NoOddDivisorBelow(n, i)
    {
      if n % i == 0 {
        DivisorFound(n, i);
        return false;
      }
      NextOddCandidate(n, i);
      i := i + 2;
    }
    OddWithoutSmallDivisorIsPrime(n);
    return true;
  }

  /** Strictly increasing, hence sorted and free of duplicates. */
  predicate StrictlyAscending(s: seq<int>) {
    forall i, j :: 0 <= i < j < |s| ==> s[i] < s[j]
  }

  /** The primes of the inclusive range [lo, hi], smallest first. */
  function PrimesIn(lo: int, hi: int): seq<int>
    decreases hi - lo
  {
    if hi < lo then [] else PrimesIn(lo, hi - 1) + (if IsPrime(hi) then [hi] else [])
  }

  /** PrimesIn(lo, hi) holds exactly the primes of [lo, hi], in increasing order. */
  lemma {:induction false} PrimesInExactly(lo: int, hi: int)
    ensures StrictlyAscending(PrimesIn(lo, hi))
    ensures forall x :: x in PrimesIn(lo, hi) <==> lo <= x <= hi && IsPrime(x)
    decreases hi - lo
  {
    if hi >= lo {
      PrimesInExactly(lo, hi - 1);
      var smaller := PrimesIn(lo, hi - 1);
      assert forall k :: 0 <= k < |smaller| ==> smaller[k] < hi by {
        forall k | 0 <= k < |smaller| ensures smaller[k] < hi {
          assert smaller[k] in smaller;
        }
      }
    }
  }

  /** Two adjacent ranges contribute their primes one after the other. */
  lemma {:induction false} PrimesInSplit(lo: int, mid: int, hi: int)
    requires lo - 1 <= mid <= hi
    ensures PrimesIn(lo, mid) + PrimesIn(mid + 1, hi) == PrimesIn(lo, hi)
    decreases hi - mid
  {
    if mid < hi {
      PrimesInSplit(lo, mid, hi - 1);
    }
  }

  /** No prime lies below 2. */
  lemma {:induction false} PrimesInBelowTwo(lo: int, hi: int)
    requires hi < 2
    ensures PrimesIn(lo, hi) == []
    decreases hi - lo
  {
    if hi >= lo {
      PrimesInBelowTwo(lo, hi - 1);
    }
  }

  /** The primes of a range begin with 2 exactly when 2 lies in the range. */
  lemma PrimesInStartsWithTwo(lo: int, hi: int)
    ensures (|PrimesIn(lo, hi)| > 0 && PrimesIn(lo, hi)[0] == 2) <==> lo <= 2 <= hi
  {
    PrimesInExactly(lo, hi);
    if lo <= 2 <= hi {
      PrimesInSplit(lo, 1, hi);
      PrimesInBelowTwo(lo, 1);
      PrimesInSplit(2, 2, hi);
      assert PrimesIn(2, 2) == [2] by {
        assert PrimesIn(2, 1) == [];
        assert IsPrime(2);
      }
    } else if |PrimesIn(lo, hi)| > 0 {
      assert PrimesIn(lo, hi)[0] in PrimesIn(lo, hi);
    }
  }
}
