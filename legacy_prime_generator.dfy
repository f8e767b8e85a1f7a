/**
 * org/example/PrimeNumberGenerator: primality as "n > 1 and no number in
 * [2, floor(sqrt n)] divides n", and an endless iterator whose `next` walks
 * the generator's shared `lowerBound` up to the next prime.
 */
module LegacyPrimeGenerator {
  import opened Primes

  /** The integer square root, found by counting up from r. */
  function SqrtFrom(n: nat, r: nat): (s: nat)
    requires r * r <= n
    ensures s * s <= n < (s + 1) * (s + 1)
    decreases n - r
  {
    MulMono(r + 1, 1, r + 1);
    if (r + 1) * (r + 1) <= n then SqrtFrom(n, r + 1) else r
  }

  /**
   * floor(sqrt n), standing for the `(int) Math.sqrt(number)` of the source,
   * which the source only evaluates once number > 1.
   */
  function ISqrt(n: nat): (s: nat)
    ensures s * s <= n < (s + 1) * (s + 1)
  {
    SqrtFrom(n, 0)
  }

  /** No d in [lo, hi] divides n: `IntStream.rangeClosed(lo, hi).noneMatch(d -> n % d == 0)`. */
  function NoneDivides(n: int, lo: int, hi: int): (b: bool)
    requires lo >= 1
    decreases hi - lo
  {
    lo > hi || (n % lo != 0 && NoneDivides(n, lo + 1, hi))
  }

  lemma {:induction false} NoneDividesMeans(n: int, lo: int, hi: int)
    requires lo >= 1
    ensures NoneDivides(n, lo, hi) <==> forall d :: lo <= d <= hi ==> n % d != 0
    decreases hi - lo
  {
    if lo <= hi {
      NoneDividesMeans(n, lo + 1, hi);
    }
  }

  /** isPrime: `number > 1` and no divisor in [2, floor(sqrt number)]. */
  function IsPrimeBySqrt(number: int): (b: bool)
  {
    number > 1 && NoneDivides(number, 2, ISqrt(number))
  }

  /** The square-root test decides primality exactly. */
  lemma IsPrimeBySqrtCorrect(number: int)
    ensures IsPrimeBySqrt(number) <==> IsPrime(number)
  {
    if number > 1 {
      var s := ISqrt(number);
      NoneDividesMeans(number, 2, s);
      PrimeIffNoSmallFactor(number, s + 1);
      forall d | 2 <= d
        ensures d <= s <==> d * d <= number
      {
        if d <= s {
          SquareMono(d, s);
        } else {
          SquareMono(s + 1, d);
        }
      }
    }
  }

  class PrimeNumberGenerator {
    var lowerBound: int

    constructor (lowerBound: int)
      ensures this.lowerBound == lowerBound
    {
      this.lowerBound := lowerBound;
    }

    /** The iterator's hasNext: the stream of primes never ends. */
    method HasNext() returns (b: bool)
      ensures b
    {
      b := true;
    }

    /**
     * The iterator's next: tests lowerBound, then increments it until a prime
     * turns up, returns that prime and leaves lowerBound one past it. Every
     * iterator reads and writes the generator's own lowerBound.
     */
    method Next() returns (p: int)
      modifies this
      ensures p == NextPrimeFrom(old(lowerBound))
      ensures lowerBound == p + 1
    {
      ghost var target := NextPrimeFrom(lowerBound);
      IsPrimeBySqrtCorrect(lowerBound);
      var prime := IsPrimeBySqrt(lowerBound);
      while !prime
        invariant old(lowerBound) <= lowerBound <= target
        invariant NextPrimeFrom(lowerBound) == target
        invariant prime <==> IsPrime(lowerBound)
        decreases target - lowerBound
      {
        SkipNonPrime(lowerBound, target);
        lowerBound := lowerBound + 1;
        IsPrimeBySqrtCorrect(lowerBound);
        prime := IsPrimeBySqrt(lowerBound);
      }
      p := lowerBound;
      lowerBound := lowerBound + 1;
    }
  }
}
