/**
 * utils/PrimeNumberGenerator: a cursor `current` that `nextPrime` advances to
 * the next prime by 6k +/- 1 trial division, handing out that prime and
 * leaving the cursor just past it.
 */
module TrialDivision {
  import opened Primes

  function Max(a: int, b: int): (m: int)
    ensures m >= a && m >= b && (m == a || m == b)
  {
    if a >= b then a else b
  }

  /** For i = 5 (mod 6), i + 1, i + 3, i + 4 and i + 5 are multiples of 2 or 3. */
  lemma SixKGaps(number: int, i: int)
    requires i >= 5 && i % 6 == 5 && number % 2 != 0 && number % 3 != 0
    ensures number % (i + 1) != 0 && number % (i + 3) != 0
    ensures number % (i + 4) != 0 && number % (i + 5) != 0
  {
    var q := i / 6;
    ModUnique(i + 1, 2, 3 * q + 3, 0);
    ModUnique(i + 3, 2, 3 * q + 4, 0);
    ModUnique(i + 4, 3, 2 * q + 3, 0);
    ModUnique(i + 5, 2, 3 * q + 5, 0);
    if number % (i + 1) == 0 { DivTrans(number, i + 1, 2); }
    if number % (i + 3) == 0 { DivTrans(number, i + 3, 2); }
    if number % (i + 4) == 0 { DivTrans(number, i + 4, 3); }
    if number % (i + 5) == 0 { DivTrans(number, i + 5, 2); }
  }

  /** One round of the loop: no divisor below i, none at i or i + 2, so none below i + 6. */
  lemma SixKStep(number: int, i: int)
    requires i >= 5 && i % 6 == 5 && number % 2 != 0 && number % 3 != 0
    requires forall d :: 2 <= d < i ==> number % d != 0
    requires number % i != 0 && number % (i + 2) != 0
    ensures (i + 6) % 6 == 5
    ensures forall d :: 2 <= d < i + 6 ==> number % d != 0
  {
    SixKGaps(number, i);
    ModUnique(i + 6, 6, i / 6 + 1, 5);
    forall d | i <= d < i + 6
      ensures number % d != 0
    {
      assert d == i || d == i + 1 || d == i + 2 || d == i + 3 || d == i + 4 || d == i + 5;
    }
  }

  /**
   * isPrime: small cases first, then the parity and divisibility-by-3 tests,
   * then candidate divisors i and i + 2 for i = 5, 11, 17, ... while i*i <= number.
   */
  method IsPrimeSixK(number: int) returns (b: bool)
    ensures b <==> IsPrime(number)
  {
    if number <= 3 {
      assert IsPrime(2) && IsPrime(3);
      return number > 1;
    }
    if number % 2 == 0 {
      assert !IsPrime(number) by { assert 2 < number; }
      return false;
    }
    if number % 3 == 0 {
      assert !IsPrime(number) by { assert 3 < number; }
      return false;
    }
    assert number % 4 != 0 by {
      if number % 4 == 0 {
        DivTrans(number, 4, 2);
      }
    }
    var i := 5;
    while i * i <= number
      invariant i >= 5 && i % 6 == 5
      invariant forall d :: 2 <= d < i ==> number % d != 0
      decreases number - i
    {
      MulMono(i, 5, i);
      if number % i == 0 || number % (i + 2) == 0 {
        assert !IsPrime(number) by {
          assert 2 <= i < i + 2 < number;
        }
        return false;
      }
      SixKStep(number, i);
      i := i + 6;
    }
    PrimeIffNoSmallFactor(number, i);
    return true;
  }

  class PrimeNumberGenerator {
    var current: int

    /** The cursor starts at max(2, lowerBound). */
    constructor (lowerBound: int)
      ensures current == Max(2, lowerBound)
    {
      current := Max(2, lowerBound);
    }

    /**
     * nextPrime: steps the cursor until it sits on a prime, returns that
     * prime and moves the cursor one past it.
     */
    method NextPrime() returns (p: int)
      modifies this
      ensures p == NextPrimeFrom(old(current))
      ensures current == p + 1
    {
      ghost var target := NextPrimeFrom(current);
      while true
        invariant old(current) <= current <= target
        invariant NextPrimeFrom(current) == target
        decreases target - current
      {
        var isPrime := IsPrimeSixK(current);
        if isPrime {
          p := current;
          current := current + 1;
          return;
        }
        SkipNonPrime(current, target);
        current := current + 1;
      }
    }

    /** getCurrent: reads the cursor and changes nothing. */
    method GetCurrent() returns (c: int)
      ensures c == current
    {
      c := current;
    }
  }
}
