/**
 * utils/IDService: the set of issued identifiers and a trial-division
 * generator started at 1,000,000,000. `getNew` draws the next prime (drawing
 * again while the draw is already issued) and records it; `delete` releases
 * a recorded identifier.
 */
module IdService {
  import opened Primes
  import opened Java
  import opened TrialDivision

  const LowerBound: int := 1_000_000_000

  class IDService {
    var ids: set<int>
    const generator: PrimeNumberGenerator
    /** Every identifier this instance has ever handed out. */
    ghost var issued: set<int>

    /**
     * Issued identifiers are primes of at least 1,000,000,000, all below the
     * generator's cursor; the ones still managed are among them.
     */
    ghost predicate Valid()
      reads this, generator
    {
      && LowerBound <= generator.current
      && ids <= issued
      && (forall x :: x in issued ==> IsPrime(x) && LowerBound <= x < generator.current)
    }

    constructor ()
      ensures Valid() && fresh(generator)
      ensures ids == {} && issued == {} && generator.current == LowerBound
    {
      ids := {};
      issued := {};
      generator := new PrimeNumberGenerator(LowerBound);
    }

    /**
     * getNew: the next prime from the cursor. It is larger than everything
     * issued before, so a released identifier is never handed out again and
     * the redraw of the do-while never happens.
     */
    method GetNew() returns (prime: int)
      requires Valid()
      modifies this, generator
      ensures Valid()
      ensures prime == NextPrimeFrom(old(generator.current))
      ensures IsPrime(prime) && LowerBound <= prime
      ensures forall x :: x in old(issued) ==> x < prime
      ensures prime !in old(ids)
      ensures ids == old(ids) + {prime}
      ensures issued == old(issued) + {prime}
    {
      prime := generator.NextPrime();
      if prime in ids {
        assert false;
      }
      ids := ids + {prime};
      issued := issued + {prime};
    }

    /** delete: removes a managed identifier, or throws NoSuchElementException. */
    method Delete(id: int) returns (outcome: Outcome)
      requires Valid()
      modifies this
      ensures Valid() && issued == old(issued)
      ensures id in old(ids) ==> outcome == Normal && ids == old(ids) - {id}
      ensures id !in old(ids) ==> outcome == Thrown(NoSuchElement) && ids == old(ids)
    {
      if id !in ids {
        return Thrown(NoSuchElement);
      }
      ids := ids - {id};
      outcome := Normal;
    }
  }
}
