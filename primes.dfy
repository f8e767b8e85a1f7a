/**
 * Primality, the "smallest prime at or above n" function every generator in
 * the shop implements, and the arithmetic facts the generators' proofs rest on.
 * Everything here is specification: the executable generators live in their
 * own modules and are proved against these definitions.
 */
module Primes {

  // ---------------------------------------------------------------------------
  // Integer arithmetic facts (Z3 needs help with non-linear `%` and `/`)
  // ---------------------------------------------------------------------------

  lemma MulMono(p: int, a: int, b: int)
    requires p >= 0 && a <= b
    ensures p * a <= p * b
  {
  }

  /** Quotient and remainder are unique. */
  lemma ModUnique(a: int, b: int, q: int, r: int)
    requires b > 0 && a == b * q + r && 0 <= r < b
    ensures a % b == r && a / b == q
  {
    var x := q - a / b;
    assert b * x == a % b - r;
    if x >= 1 {
      MulMono(b, 1, x);
    } else if x <= -1 {
      MulMono(b, x, -1);
    }
  }

  lemma MulMod(p: int, m: int)
    requires p > 0
    ensures (p * m) % p == 0
  {
    ModUnique(p * m, p, m, 0);
  }

  /** Divisibility is transitive. */
  lemma DivTrans(a: int, b: int, c: int)
    requires b > 0 && c > 0 && a % b == 0 && b % c == 0
    ensures a % c == 0
  {
    var k := a / b;
    var m := b / c;
    assert a == b * k;
    assert b == c * m;
    assert a == c * (m * k);
    MulMod(c, m * k);
  }

  /** A multiple of p plus one is not a multiple of p (for p >= 2). */
  lemma ModSuccOfMultiple(a: int, p: int)
    requires p >= 2 && a % p == 0
    ensures (a + 1) % p == 1
  {
    ModUnique(a + 1, p, a / p, 1);
  }

  /** Two multiples of p that differ by less than p are equal. */
  lemma MultiplesApart(a: int, b: int, p: int)
    requires p > 0 && a % p == 0 && b % p == 0 && a <= b < a + p
    ensures a == b
  {
    var x := b / p - a / p;
    assert b - a == p * x;
    if x >= 1 {
      MulMono(p, 1, x);
    } else if x <= -1 {
      MulMono(p, x, -1);
    }
  }

  lemma SquareMono(a: int, b: int)
    requires 0 <= a <= b
    ensures a * a <= b * b
  {
    MulMono(a, a, b);
    MulMono(b, a, b);
  }

  // ---------------------------------------------------------------------------
  // Primality
  // ---------------------------------------------------------------------------

  /** n is prime: at least 2 and no divisor strictly between 1 and n. */
  ghost predicate IsPrime(n: int)
  {
    n >= 2 && forall d :: 2 <= d < n ==> n % d != 0
  }

  /** No d with 2 <= d < bound and d * d <= n divides n. */
  ghost predicate NoFactorBelow(n: int, bound: int)
  {
    forall d :: 2 <= d < bound && d * d <= n ==> n % d != 0
  }

  /**
   * A number with a proper divisor has one whose square does not exceed it:
   * either the divisor itself or its cofactor.
   */
  lemma SmallFactor(n: int, d: int) returns (e: int)
    requires 2 <= d < n && n % d == 0
    ensures 2 <= e <= d && e * e <= n && n % e == 0
  {
    if d * d <= n {
      e := d;
    } else {
      e := n / d;
      assert n == d * e;
      if e <= 1 {
        MulMono(d, e, 1);
        assert false;
      }
      if e >= d {
        MulMono(d, d, e);
        assert false;
      }
      MulMono(e, e, d);
      MulMod(e, d);
    }
  }

  /** Trial division up to the square root decides primality. */
  lemma PrimeIffNoSmallFactor(n: int, bound: int)
    requires n >= 2 && bound >= 0 && n < bound * bound
    ensures IsPrime(n) <==> NoFactorBelow(n, bound)
  {
    if NoFactorBelow(n, bound) {
      forall d | 2 <= d < n
        ensures n % d != 0
      {
        if n % d == 0 {
          var e := SmallFactor(n, d);
          if e >= bound {
            SquareMono(bound, e);
          }
          assert false;
        }
      }
    }
    if IsPrime(n) {
      forall d | 2 <= d < bound && d * d <= n
        ensures n % d != 0
      {
        MulMono(d, 2, d);
      }
    }
  }

  /** Every number from 2 up has a prime divisor. */
  lemma PrimeDivisor(n: int) returns (p: int)
    requires n >= 2
    ensures IsPrime(p) && p <= n && n % p == 0
    decreases n
  {
    if IsPrime(n) {
      p := n;
      MulMod(n, 1);
    } else {
      var d :| 2 <= d < n && n % d == 0;
      p := PrimeDivisor(d);
      DivTrans(n, d, p);
    }
  }

  /**
   * A composite number has a prime factor whose square does not exceed it;
   * this is why sieving with the primes up to sqrt(n) suffices.
   */
  lemma CompositeHasSmallPrimeFactor(n: int) returns (q: int)
    requires n >= 2 && !IsPrime(n)
    ensures IsPrime(q) && q * q <= n && n % q == 0
  {
    var d :| 2 <= d < n && n % d == 0;
    var e := SmallFactor(n, d);
    q := PrimeDivisor(e);
    SquareMono(q, e);
    DivTrans(n, e, q);
  }

  // ---------------------------------------------------------------------------
  // There is always a next prime
  // ---------------------------------------------------------------------------

  function Factorial(n: nat): (r: nat)
    ensures r >= 1
  {
    if n == 0 then 1 else n * Factorial(n - 1)
  }

  lemma {:induction false} FactorialDivisible(n: nat, d: int)
    requires 1 <= d <= n
    ensures Factorial(n) % d == 0
  {
    var f := Factorial(n - 1);
    if d == n {
      MulMod(n, f);
    } else {
      FactorialDivisible(n - 1, d);
      assert Factorial(n) == d * ((f / d) * n);
      MulMod(d, (f / d) * n);
    }
  }

  /** Euclid: above every bound there is a prime. */
  lemma PrimeAbove(n: nat) returns (p: int)
    ensures IsPrime(p) && p > n
  {
    var f := Factorial(n);
    p := PrimeDivisor(f + 1);
    if p <= n {
      FactorialDivisible(n, p);
      ModSuccOfMultiple(f, p);
      assert false;
    }
  }

  /** p is the smallest prime that is at least lo. */
  ghost predicate IsNextPrime(lo: int, p: int)
  {
    IsPrime(p) && lo <= p && forall k :: lo <= k < p ==> !IsPrime(k)
  }

  lemma {:induction false} NextPrimeBelow(lo: int, bound: int) returns (p: int)
    requires lo <= bound && IsPrime(bound)
    ensures IsNextPrime(lo, p)
    decreases bound - lo
  {
    if IsPrime(lo) {
      p := lo;
    } else {
      p := NextPrimeBelow(lo + 1, bound);
    }
  }

  lemma NextPrimeExists(lo: int)
    ensures exists p :: IsNextPrime(lo, p)
  {
    var bound := PrimeAbove(if lo < 0 then 0 else lo);
    var p := NextPrimeBelow(lo, bound);
  }

  lemma NextPrimeUnique(lo: int, p: int, q: int)
    requires IsNextPrime(lo, p) && IsNextPrime(lo, q)
    ensures p == q
  {
  }

  /** The smallest prime that is at least lo. */
  ghost function NextPrimeFrom(lo: int): (p: int)
    ensures IsNextPrime(lo, p)
  {
    NextPrimeExists(lo);
    var p :| IsNextPrime(lo, p);
    p
  }

  /** Skipping a non-prime does not change the next prime. */
  lemma SkipNonPrime(lo: int, p: int)
    requires p == NextPrimeFrom(lo) && !IsPrime(lo)
    ensures lo < p && NextPrimeFrom(lo + 1) == p
  {
    var q := NextPrimeFrom(lo + 1);
    NextPrimeUnique(lo, p, q);
  }

  /** Below 2 the next prime is 2. */
  lemma NextPrimeOfSmall(lo: int)
    requires lo <= 2
    ensures NextPrimeFrom(lo) == 2
  {
    assert IsPrime(2);
  }

  // ---------------------------------------------------------------------------
  // Runs of consecutive primes, as a stateful generator produces them
  // ---------------------------------------------------------------------------

  /** Where a generator started at lo stands after k calls of "next prime". */
  ghost function Cursor(lo: int, k: nat): int
  {
    if k == 0 then lo else NextPrimeFrom(Cursor(lo, k - 1)) + 1
  }

  /** The k primes a generator started at lo hands out, in order. */
  ghost function PrimesFrom(lo: int, k: nat): seq<int>
  {
    if k == 0 then [] else PrimesFrom(lo, k - 1) + [NextPrimeFrom(Cursor(lo, k - 1))]
  }

  ghost predicate StrictlyIncreasing(s: seq<int>)
  {
    forall i, j :: 0 <= i < j < |s| ==> s[i] < s[j]
  }

  /**
   * The k primes handed out from lo are exactly the primes in
   * [lo, Cursor(lo, k)), listed in ascending order with none skipped.
   */
  lemma {:induction false} PrimesFromSpec(lo: int, k: nat)
    ensures |PrimesFrom(lo, k)| == k
    ensures lo <= Cursor(lo, k)
    ensures StrictlyIncreasing(PrimesFrom(lo, k))
    ensures forall i :: 0 <= i < k ==> IsPrime(PrimesFrom(lo, k)[i])
    ensures forall i :: 0 <= i < k ==> lo <= PrimesFrom(lo, k)[i] < Cursor(lo, k)
    ensures forall n :: lo <= n < Cursor(lo, k) && IsPrime(n) ==> n in PrimesFrom(lo, k)
    ensures k > 0 ==> Cursor(lo, k) == PrimesFrom(lo, k)[k - 1] + 1
  {
    if k > 0 {
      PrimesFromSpec(lo, k - 1);
      var s := PrimesFrom(lo, k - 1);
      var c := Cursor(lo, k - 1);
      var p := NextPrimeFrom(c);
      assert PrimesFrom(lo, k) == s + [p];
      forall n | lo <= n < Cursor(lo, k) && IsPrime(n)
        ensures n in PrimesFrom(lo, k)
      {
        if n < c {
          assert n in s;
        } else {
          assert n == p;
        }
      }
    }
  }

  /** A run inside [lo, mid) followed by a run inside [mid, hi) lies inside [lo, hi). */
  lemma RangeConcat(a: seq<int>, b: seq<int>, lo: int, mid: int, hi: int)
    requires lo <= mid <= hi
    requires forall k :: 0 <= k < |a| ==> lo <= a[k] < mid
    requires forall k :: 0 <= k < |b| ==> mid <= b[k] < hi
    ensures forall k :: 0 <= k < |a + b| ==> lo <= (a + b)[k] < hi
  {
    forall k | 0 <= k < |a + b|
      ensures lo <= (a + b)[k] < hi
    {
      if k >= |a| {
        assert (a + b)[k] == b[k - |a|];
      } else {
        assert (a + b)[k] == a[k];
      }
    }
  }

  /** Two ascending runs, the first wholly below m and the second from m up, concatenate to an ascending run. */
  lemma IncreasingConcat(a: seq<int>, b: seq<int>, m: int)
    requires StrictlyIncreasing(a) && StrictlyIncreasing(b)
    requires forall k :: 0 <= k < |a| ==> a[k] < m
    requires forall k :: 0 <= k < |b| ==> m <= b[k]
    ensures StrictlyIncreasing(a + b)
  {
    var c := a + b;
    forall i, j | 0 <= i < j < |c|
      ensures c[i] < c[j]
    {
      if j < |a| {
        assert c[i] == a[i] && c[j] == a[j];
      } else if i >= |a| {
        assert c[i] == b[i - |a|] && c[j] == b[j - |a|];
      } else {
        assert c[i] == a[i] && c[j] == b[j - |a|];
      }
    }
  }

  /** A strictly increasing sequence has no duplicates, so its set is as large as it is long. */
  lemma {:induction false} IncreasingCard(s: seq<int>)
    requires StrictlyIncreasing(s)
    ensures |set x | x in s| == |s|
  {
    if s != [] {
      var t := s[..|s| - 1];
      IncreasingCard(t);
      var last := s[|s| - 1];
      assert (set x | x in s) == (set x | x in t) + {last};
      assert last !in (set x | x in t);
    }
  }
}
