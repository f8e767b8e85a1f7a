/**
 * org/example/IDService: a set `primes` of handed-out identifiers fed by the
 * square-root generator started at 1,000,000,000. Deleting is silent, and
 * `getPrimes` copies the set into an array.
 */
module LegacyIdService {
  import opened Primes
  import opened Java
  import LegacyPrimeGenerator

  const LowerBound: int := 1_000_000_000

  class IDService {
    var primes: set<int>
    const generator: LegacyPrimeGenerator.PrimeNumberGenerator

    ghost predicate Valid()
      reads this, generator
    {
      LowerBound <= generator.lowerBound
    }

    constructor ()
      ensures Valid() && fresh(generator)
      ensures primes == {} && generator.lowerBound == LowerBound
    {
      primes := {};
      generator := new LegacyPrimeGenerator.PrimeNumberGenerator(LowerBound);
    }

    /**
     * getNew: the generator's next prime, added to the set. Results of
     * successive calls increase, because the generator's cursor ends past
     * each of them.
     */
    method GetNew() returns (prime: int)
      requires Valid()
      modifies this, generator
      ensures Valid()
      ensures prime == NextPrimeFrom(old(generator.lowerBound))
      ensures IsPrime(prime) && LowerBound <= prime < generator.lowerBound
      ensures primes == old(primes) + {prime}
    {
      prime := generator.Next();
      primes := primes + {prime};
    }

    /** delete: removes the value when present; an absent value is ignored. */
    method Delete(prime: int)
      modifies this
      ensures primes == old(primes) - {prime}
    {
      primes := primes - {prime};
    }

    /**
     * getPrimes: the set's elements, each exactly once, in the set's own
     * (unspecified) iteration order; nothing changes.
     */
    method GetPrimes() returns (a: seq<int>)
      ensures |a| == |primes|
      ensures forall x :: x in a <==> x in primes
      ensures forall i, j :: 0 <= i < j < |a| ==> a[i] != a[j]
    {
      a := [];
      var rest := primes;
      while rest != {}
        invariant rest <= primes
        invariant forall x :: x in a <==> x in primes - rest
        invariant forall i, j :: 0 <= i < j < |a| ==> a[i] != a[j]
        invariant |a| + |rest| == |primes|
        decreases |rest|
      {
        var x := Pick(rest);
        assert x !in a;
        a := a + [x];
        rest := rest - {x};
      }
    }
  }
}
