/**
 * utils/IDServiceParallel: identifiers move between an `available` set and
 * an `active` set; batches of consecutive primes from the cursor
 * `primeGeneratorNextStart` refill `available`. The background refill that
 * `getNew` schedules when fewer than 100 remain is taken here as an atomic
 * step that completes before the call returns.
 */
module ParallelIds {
  import opened Primes
  import opened Java
  import opened TrialDivision
  import opened GeneratorTask

  const LowerBound: int := 1_000_000_000
  const ReplenishThreshold: int := 100
  const ReplenishAmount: int := 100
  const DefaultInitialNeeded: int := 10000

  class IDServiceParallel {
    var available: set<int>
    var active: set<int>
    var primeGeneratorNextStart: int

    /**
     * The two sets are disjoint, and every identifier in either is a prime
     * of at least 1,000,000,000 below the cursor.
     */
    ghost predicate Valid()
      reads this
    {
      && LowerBound <= primeGeneratorNextStart
      && available !! active
      && (forall x :: x in available ==> IsPrime(x) && LowerBound <= x < primeGeneratorNextStart)
      && (forall x :: x in active ==> IsPrime(x) && LowerBound <= x < primeGeneratorNextStart)
    }

    /**
     * The constructor runs one task for `initialNeeded` primes from
     * 1,000,000,000 (10,000 for the shared instance) and makes them available.
     */
    constructor (initialNeeded: int)
      ensures Valid()
      ensures available == Elements(PrimesFrom(LowerBound, Max(0, initialNeeded))) && active == {}
      ensures primeGeneratorNextStart == Cursor(LowerBound, Max(0, initialNeeded))
    {
      available := {};
      active := {};
      primeGeneratorNextStart := LowerBound;
      new;
      var primes, nextPotentialStart := Call(LowerBound, initialNeeded);
      available := available + primes;
      if nextPotentialStart > primeGeneratorNextStart {
        primeGeneratorNextStart := nextPotentialStart;
      }
    }

    /**
     * replenish: a task for `amount` primes from the cursor; its primes join
     * `available`, and the cursor moves to where the task stopped when that
     * is further on.
     */
    method Replenish(amount: int)
      requires Valid()
      modifies this
      ensures Valid()
      ensures available == old(available) + Elements(PrimesFrom(old(primeGeneratorNextStart), Max(0, amount)))
      ensures |available| == |old(available)| + Max(0, amount)
      ensures active == old(active)
      ensures primeGeneratorNextStart == Cursor(old(primeGeneratorNextStart), Max(0, amount))
      ensures primeGeneratorNextStart >= old(primeGeneratorNextStart)
    {
      var currentGlobalNextStart := primeGeneratorNextStart;
      var primes, nextPotentialStart := Call(currentGlobalNextStart, amount);
      forall x | x in primes
        ensures x !in available && x !in active
      {
        assert currentGlobalNextStart <= x;
      }
      available := available + primes;
      if nextPotentialStart > primeGeneratorNextStart {
        primeGeneratorNextStart := nextPotentialStart;
      }
    }

    /**
     * getNew: refills first when nothing is available, moves one available
     * identifier to `active` and returns it, then refills when fewer than 100
     * remain. The "replenishment failed" exception cannot occur: a refill of
     * 100 always yields 100 new primes.
     */
    method GetNew() returns (prime: int)
      requires Valid()
      modifies this
      ensures Valid()
      ensures prime !in old(active) && prime in active && prime !in available
      ensures active == old(active) + {prime}
      ensures old(available) != {} ==> prime in old(available)
      ensures old(available) != {} && |old(available)| - 1 >= ReplenishThreshold ==>
        available == old(available) - {prime} && primeGeneratorNextStart == old(primeGeneratorNextStart)
      ensures primeGeneratorNextStart >= old(primeGeneratorNextStart)
    {
      if available == {} {
        Replenish(ReplenishAmount);
        if available == {} {
          assert false;
        }
      }
      prime := Pick(available);
      available := available - {prime};
      active := active + {prime};
      if |available| < ReplenishThreshold {
        Replenish(ReplenishAmount);
      }
    }

    /** delete: moves an active identifier back to `available`, or throws NoSuchElementException. */
    method Delete(id: int) returns (outcome: Outcome)
      requires Valid()
      modifies this
      ensures Valid()
      ensures id in old(active) ==>
        outcome == Normal && active == old(active) - {id} && available == old(available) + {id}
      ensures id !in old(active) ==>
        outcome == Thrown(NoSuchElement) && active == old(active) && available == old(available)
      ensures primeGeneratorNextStart == old(primeGeneratorNextStart)
    {
      if id !in active {
        return Thrown(NoSuchElement);
      }
      active := active - {id};
      available := available + {id};
      outcome := Normal;
    }
  }
}
