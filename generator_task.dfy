/**
 * utils/PrimeNumberGeneratorTask: runs a fresh trial-division generator from
 * a lower bound for `needed` steps and reports the set of primes it handed
 * out together with where the generator's cursor stopped.
 */
module GeneratorTask {
  import opened Primes
  import opened TrialDivision

  /** The elements of a sequence, as a set. */
  ghost function Elements(s: seq<int>): set<int>
  {
    set x | x in s
  }

  /**
   * call(): `needed` rounds of nextPrime, each result added to a hash set.
   * A non-positive `needed` runs no round. The result is the set of the
   * first max(0, needed) consecutive primes from max(2, lowerBound), of
   * exactly that size, and the cursor one past the last of them.
   */
  method Call(lowerBound: int, needed: int) returns (primes: set<int>, nextPotentialStart: int)
    ensures primes == Elements(PrimesFrom(Max(2, lowerBound), Max(0, needed)))
    ensures nextPotentialStart == Cursor(Max(2, lowerBound), Max(0, needed))
    ensures |primes| == Max(0, needed)
    ensures forall x :: x in primes ==> IsPrime(x) && lowerBound <= x < nextPotentialStart
    ensures forall n :: Max(2, lowerBound) <= n < nextPotentialStart && IsPrime(n) ==> n in primes
    ensures needed <= 0 ==> nextPotentialStart == Max(2, lowerBound)
    ensures needed > 0 ==> nextPotentialStart - 1 in primes
  {
    ghost var start := Max(2, lowerBound);
    var generator := new PrimeNumberGenerator(lowerBound);
    primes := {};
    var i := 0;
    while i < needed
      invariant 0 <= i && (needed >= 0 ==> i <= needed) && (needed < 0 ==> i == 0)
      invariant generator.current == Cursor(start, i)
      invariant primes == Elements(PrimesFrom(start, i))
    {
      var p := generator.NextPrime();
      assert PrimesFrom(start, i + 1) == PrimesFrom(start, i) + [p];
      assert Elements(PrimesFrom(start, i) + [p]) == Elements(PrimesFrom(start, i)) + {p};
      primes := primes + {p};
      i := i + 1;
    }
    nextPotentialStart := generator.GetCurrent();
    assert i == Max(0, needed);
    RunSize(start, i);
    RunSound(start, i);
    RunComplete(start, i);
    if i > 0 {
      LastIsBelowCursor(start, i);
    }
  }

  /** The k primes of a run are distinct, so their set has k elements. */
  lemma RunSize(start: int, k: nat)
    ensures |Elements(PrimesFrom(start, k))| == k
  {
    PrimesFromSpec(start, k);
    IncreasingCard(PrimesFrom(start, k));
  }

  lemma RunSound(start: int, k: nat)
    ensures forall x :: x in Elements(PrimesFrom(start, k)) ==> IsPrime(x) && start <= x < Cursor(start, k)
  {
    var run := PrimesFrom(start, k);
    var stop := Cursor(start, k);
    PrimesFromSpec(start, k);
    forall x | x in Elements(run)
      ensures IsPrime(x) && start <= x < stop
    {
      var i :| 0 <= i < k && run[i] == x;
    }
  }

  lemma RunComplete(start: int, k: nat)
    ensures forall n :: start <= n < Cursor(start, k) && IsPrime(n) ==> n in Elements(PrimesFrom(start, k))
  {
    PrimesFromSpec(start, k);
  }

  /** The cursor stops one past the last prime handed out. */
  lemma LastIsBelowCursor(start: int, k: nat)
    requires k > 0
    ensures Cursor(start, k) - 1 in Elements(PrimesFrom(start, k))
  {
    var c := Cursor(start, k - 1);
    var p := NextPrimeFrom(c);
    var s := PrimesFrom(start, k - 1);
    assert PrimesFrom(start, k) == s + [p];
    assert Cursor(start, k) == p + 1;
    assert p in s + [p];
  }
}
