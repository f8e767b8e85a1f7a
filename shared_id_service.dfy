/**
 * utils/SharedIDService: a bounded FIFO pool of identifiers (capacity 4096)
 * refilled by an orchestrator that, whenever the pool holds fewer than 2048,
 * lets each searcher claim the next 1,048,576-number segment from a frontier
 * starting at 1,000,000,000, sieves it and puts the survivors into the pool,
 * waiting while the pool is full. Consumers take from the head; released
 * identifiers are offered back and dropped when the pool is full.
 *
 * Each public call and each orchestrator step is one atomic step. The primes
 * the orchestrator holds while it waits for room are the `pending` sequence.
 */
module SharedIds {
  import opened Primes
  import opened Java
  import opened SegmentedSieve

  const LowerBound: int := 1_000_000_000
  const QueueCapacity: int := 4096
  const QueueLowWaterMark: int := 2048
  const SegmentSize: int := 1_048_576
  /** `segmentSize / 15`, the length of each searcher's output array. */
  const EstimatedMaxPrimesPerSegment: int := SegmentSize / 15

  /**
   * What one searcher reports for the segment starting at start: the
   * survivors of the segment sieve, or nothing when they overflow the output
   * array (the sieve throws and the searcher returns an empty list).
   */
  ghost function SegmentOutput(start: int, base: seq<int>): seq<int>
  {
    var s := Survivors(start, start + SegmentSize, base);
    if |s| <= EstimatedMaxPrimesPerSegment then s else []
  }

  /** What w searchers report for the w consecutive segments from start, in claim order. */
  ghost function CycleOutput(start: int, w: nat, base: seq<int>): seq<int>
  {
    if w == 0 then [] else CycleOutput(start, w - 1, base) + SegmentOutput(start + (w - 1) * SegmentSize, base)
  }

  /** The pool after `offer(x)`: x joins the tail while there is room, and is dropped otherwise. */
  function Offer(queue: seq<int>, x: int): seq<int>
  {
    if |queue| < QueueCapacity then queue + [x] else queue
  }

  /** The pool after offering xs, one after the other. */
  function OfferAll(queue: seq<int>, xs: seq<int>): seq<int>
  {
    if xs == [] then queue else Offer(OfferAll(queue, xs[..|xs| - 1]), xs[|xs| - 1])
  }

  /**
   * Offering a batch keeps the pool's order and appends the batch's first
   * elements up to the capacity; the rest are lost.
   */
  lemma {:induction false} OfferAllFillsToCapacity(queue: seq<int>, xs: seq<int>)
    requires |queue| <= QueueCapacity
    ensures var room := QueueCapacity - |queue|;
      OfferAll(queue, xs) == queue + (if |xs| <= room then xs else xs[..room])
  {
    if xs != [] {
      var init := xs[..|xs| - 1];
      OfferAllFillsToCapacity(queue, init);
      var room := QueueCapacity - |queue|;
      if |xs| <= room {
        assert init + [xs[|xs| - 1]] == xs;
      } else {
        assert init[..room] == xs[..room];
      }
    }
  }

  class SharedIDService {
    /** The pool, head first. */
    var idQueue: seq<int>
    /** Primes of the running cycle that the orchestrator has not managed to put yet. */
    var pending: seq<int>
    var nextSieveSegmentStart: int
    const numPrimeSearcherThreads: int
    const primeSieveGenerator: JavaSegmentedSieveGenerator
    /** How many segments have been claimed so far. */
    ghost var claims: nat

    ghost predicate Valid()
      reads this
    {
      && |idQueue| <= QueueCapacity
      && numPrimeSearcherThreads >= 1
      && IsPrimeTable(primeSieveGenerator.basePrimes, MaxBasePrimeLimit)
      && nextSieveSegmentStart == LowerBound + claims * SegmentSize
    }

    /** An empty pool, the frontier at 1,000,000,000 and max(1, processors) searchers. */
    constructor (availableProcessors: int)
      ensures Valid()
      ensures idQueue == [] && pending == [] && nextSieveSegmentStart == LowerBound && claims == 0
      ensures numPrimeSearcherThreads == if availableProcessors >= 1 then availableProcessors else 1
    {
      idQueue := [];
      pending := [];
      nextSieveSegmentStart := LowerBound;
      claims := 0;
      numPrimeSearcherThreads := if availableProcessors >= 1 then availableProcessors else 1;
      primeSieveGenerator := new JavaSegmentedSieveGenerator();
    }

    /** getNew: takes the head of the pool; a caller facing an empty pool waits, so one is required. */
    method GetNew() returns (id: int)
      requires Valid() && |idQueue| > 0
      modifies this
      ensures Valid()
      ensures id == old(idQueue[0]) && idQueue == old(idQueue[1..])
      ensures pending == old(pending) && nextSieveSegmentStart == old(nextSieveSegmentStart) && claims == old(claims)
    {
      id := idQueue[0];
      idQueue := idQueue[1..];
    }

    /** delete: offers any value back to the tail of the pool; a full pool drops it. */
    method Delete(id: int)
      requires Valid()
      modifies this
      ensures Valid()
      ensures old(|idQueue|) < QueueCapacity ==> idQueue == old(idQueue) + [id]
      ensures old(|idQueue|) >= QueueCapacity ==> idQueue == old(idQueue)
      ensures idQueue == Offer(old(idQueue), id)
      ensures pending == old(pending) && nextSieveSegmentStart == old(nextSieveSegmentStart) && claims == old(claims)
    {
      if |idQueue| < QueueCapacity {
        idQueue := idQueue + [id];
      }
    }

    /** getAvailableCount: the pool's size; nothing changes. */
    method GetAvailableCount() returns (n: int)
      ensures n == |idQueue|
    {
      n := |idQueue|;
    }

    /** `nextSieveSegmentStart.getAndAdd(segmentSize)`: claims the next segment. */
    method ClaimSegment() returns (start: int)
      requires Valid()
      modifies this
      ensures Valid()
      ensures start == old(nextSieveSegmentStart) && start == LowerBound + old(claims) * SegmentSize
      ensures nextSieveSegmentStart == start + SegmentSize && claims == old(claims) + 1
      ensures idQueue == old(idQueue) && pending == old(pending)
    {
      start := nextSieveSegmentStart;
      nextSieveSegmentStart := nextSieveSegmentStart + SegmentSize;
      claims := claims + 1;
    }

    /**
     * One searcher task: claims a segment, sieves it into an array of
     * `segmentSize / 15` entries and copies the count reported into a list;
     * the overflow exception yields an empty list. The segment stays claimed
     * either way.
     */
    method SegmentSieveTask() returns (primes: seq<int>)
      requires Valid()
      modifies this
      ensures Valid()
      ensures primes == SegmentOutput(old(nextSieveSegmentStart), primeSieveGenerator.basePrimes)
      ensures nextSieveSegmentStart == old(nextSieveSegmentStart) + SegmentSize && claims == old(claims) + 1
      ensures idQueue == old(idQueue) && pending == old(pending)
    {
      var currentSegmentStart := ClaimSegment();
      var primesInSegmentArray := new int[EstimatedMaxPrimesPerSegment];
      var r := primeSieveGenerator.GeneratePrimes(currentSegmentStart, SegmentSize, primesInSegmentArray);
      if r.Err? {
        return [];
      }
      var primeCountInSegment := r.value;
      primes := [];
      var j := 0;
      while j < primeCountInSegment
        invariant 0 <= j <= primeCountInSegment
        invariant primes == primesInSegmentArray[..j]
      {
        primes := primes + [primesInSegmentArray[j]];
        j := j + 1;
      }
      assert primesInSegmentArray[..primeCountInSegment] == primes;
    }

    /**
     * The orchestrator's blocking puts: moves pending primes to the tail of
     * the pool, in order, while there is room.
     */
    method PutPending()
      requires Valid()
      modifies this
      ensures Valid()
      ensures idQueue + pending == old(idQueue) + old(pending)
      ensures pending == [] || |idQueue| == QueueCapacity
      ensures |idQueue| >= |old(idQueue)|
      ensures nextSieveSegmentStart == old(nextSieveSegmentStart) && claims == old(claims)
    {
      while pending != [] && |idQueue| < QueueCapacity
        invariant Valid()
        invariant idQueue + pending == old(idQueue) + old(pending)
        invariant |idQueue| >= |old(idQueue)|
        invariant nextSieveSegmentStart == old(nextSieveSegmentStart) && claims == old(claims)
        decreases |pending|
      {
        assert idQueue + pending == (idQueue + [pending[0]]) + pending[1..];
        idQueue := idQueue + [pending[0]];
        pending := pending[1..];
      }
    }

    /**
     * One step of the orchestration loop. While primes of the running cycle
     * are still waiting, it goes on putting them. Otherwise, below the low
     * water mark it runs a cycle: one segment per searcher, their results put
     * in claim order; at or above it, it only sleeps.
     */
    method OrchestrationStep()
      requires Valid()
      modifies this
      ensures Valid()
      ensures pending == [] || |idQueue| == QueueCapacity
      ensures old(pending) != [] ==>
        && idQueue + pending == old(idQueue) + old(pending)
        && nextSieveSegmentStart == old(nextSieveSegmentStart) && claims == old(claims)
      ensures old(pending) == [] && old(|idQueue|) < QueueLowWaterMark ==>
        && idQueue + pending == old(idQueue) + CycleOutput(old(nextSieveSegmentStart), numPrimeSearcherThreads, primeSieveGenerator.basePrimes)
        && nextSieveSegmentStart == old(nextSieveSegmentStart) + numPrimeSearcherThreads * SegmentSize
        && claims == old(claims) + numPrimeSearcherThreads
      ensures old(pending) == [] && old(|idQueue|) >= QueueLowWaterMark ==>
        idQueue == old(idQueue) && pending == [] && nextSieveSegmentStart == old(nextSieveSegmentStart) && claims == old(claims)
    {
      if pending != [] {
        PutPending();
        return;
      }
      var currentQueueSize := |idQueue|;
      if currentQueueSize < QueueLowWaterMark {
        var results := LaunchSearchers();
        pending := results;
        PutPending();
      }
    }

    /**
     * The searcher tasks of one cycle, one per searcher thread, with their
     * lists gathered in claim order.
     */
    method LaunchSearchers() returns (results: seq<int>)
      requires Valid()
      modifies this
      ensures Valid()
      ensures results == CycleOutput(old(nextSieveSegmentStart), numPrimeSearcherThreads, primeSieveGenerator.basePrimes)
      ensures nextSieveSegmentStart == old(nextSieveSegmentStart) + numPrimeSearcherThreads * SegmentSize
      ensures claims == old(claims) + numPrimeSearcherThreads
      ensures idQueue == old(idQueue) && pending == old(pending)
    {
      ghost var start := nextSieveSegmentStart;
      var tasksToLaunch := numPrimeSearcherThreads;
      results := [];
      var i := 0;
      while i < tasksToLaunch
        invariant Valid()
        invariant 0 <= i <= tasksToLaunch
        invariant results == CycleOutput(start, i, primeSieveGenerator.basePrimes)
        invariant nextSieveSegmentStart == start + i * SegmentSize && claims == old(claims) + i
        invariant idQueue == old(idQueue) && pending == old(pending)
      {
        var primesFromSegment := SegmentSieveTask();
        results := results + primesFromSegment;
        i := i + 1;
      }
    }
  }

  // ---------------------------------------------------------------------------
  // What a cycle puts into the pool
  // ---------------------------------------------------------------------------

  /** A cycle's output lies in the segments the cycle claimed. */
  lemma {:induction false} CycleOutputBounds(start: int, w: nat, base: seq<int>)
    ensures forall i :: 0 <= i < |CycleOutput(start, w, base)| ==>
      start <= CycleOutput(start, w, base)[i] < start + w * SegmentSize
  {
    if w > 0 {
      var segStart := start + (w - 1) * SegmentSize;
      var prefix := CycleOutput(start, w - 1, base);
      var seg := SegmentOutput(segStart, base);
      var out := prefix + seg;
      assert forall k :: 0 <= k < |prefix| ==> start <= prefix[k] < segStart by {
        CycleOutputBounds(start, w - 1, base);
      }
      assert segStart + SegmentSize == start + w * SegmentSize;
      assert forall k :: 0 <= k < |seg| ==> segStart <= seg[k] < segStart + SegmentSize by {
        SurvivorsSpec(segStart, segStart + SegmentSize, base);
      }
      RangeConcat(prefix, seg, start, segStart, segStart + SegmentSize);
      assert CycleOutput(start, w, base) == out;
    }
  }

  /** A cycle's output is ascending: each segment's numbers lie above the previous segments'. */
  lemma {:induction false} CycleOutputOrdered(start: int, w: nat, base: seq<int>)
    ensures StrictlyIncreasing(CycleOutput(start, w, base))
  {
    if w > 0 {
      var segStart := start + (w - 1) * SegmentSize;
      var prefix := CycleOutput(start, w - 1, base);
      var seg := SegmentOutput(segStart, base);
      assert StrictlyIncreasing(prefix) && forall k :: 0 <= k < |prefix| ==> prefix[k] < segStart by {
        CycleOutputOrdered(start, w - 1, base);
        CycleOutputBounds(start, w - 1, base);
      }
      assert StrictlyIncreasing(seg) && forall k :: 0 <= k < |seg| ==> segStart <= seg[k] by {
        SurvivorsSpec(segStart, segStart + SegmentSize, base);
      }
      IncreasingConcat(prefix, seg, segStart);
      assert CycleOutput(start, w, base) == prefix + seg;
    }
  }

  /** Every number a cycle outputs is one the segment sieve left standing. */
  lemma {:induction false} CycleOutputSurvivors(start: int, w: nat, base: seq<int>)
    ensures forall i :: 0 <= i < |CycleOutput(start, w, base)| ==> Survives(CycleOutput(start, w, base)[i], base)
  {
    if w > 0 {
      var segStart := start + (w - 1) * SegmentSize;
      var prefix := CycleOutput(start, w - 1, base);
      var seg := SegmentOutput(segStart, base);
      var out := prefix + seg;
      assert forall k :: 0 <= k < |prefix| ==> Survives(prefix[k], base) by {
        CycleOutputSurvivors(start, w - 1, base);
      }
      assert forall k :: 0 <= k < |seg| ==> Survives(seg[k], base) by {
        SurvivorsSpec(segStart, segStart + SegmentSize, base);
      }
      SurvivorsAppend(prefix, seg, base);
      assert CycleOutput(start, w, base) == out;
    }
  }

  /** Concatenating two runs of sieve survivors gives a run of sieve survivors. */
  lemma SurvivorsAppend(a: seq<int>, b: seq<int>, base: seq<int>)
    requires forall k :: 0 <= k < |a| ==> Survives(a[k], base)
    requires forall k :: 0 <= k < |b| ==> Survives(b[k], base)
    ensures forall k :: 0 <= k < |a + b| ==> Survives((a + b)[k], base)
  {
    forall k | 0 <= k < |a + b|
      ensures Survives((a + b)[k], base)
    {
      if k >= |a| {
        assert (a + b)[k] == b[k - |a|];
      } else {
        assert (a + b)[k] == a[k];
      }
    }
  }

  /**
   * Every identifier a cycle produces from a frontier at or above
   * 1,000,000,000 is at least 1,000,000,000, and, while the claimed segments
   * end at or below 10^10, prime.
   */
  lemma CycleOutputArePrimeIds(start: int, w: nat, base: seq<int>)
    requires IsPrimeTable(base, MaxBasePrimeLimit)
    requires LowerBound <= start && start + w * SegmentSize <= MaxBasePrimeLimit * MaxBasePrimeLimit
    ensures forall i :: 0 <= i < |CycleOutput(start, w, base)| ==>
      IsPrime(CycleOutput(start, w, base)[i]) && LowerBound <= CycleOutput(start, w, base)[i]
  {
    CycleOutputBounds(start, w, base);
    CycleOutputSurvivors(start, w, base);
    forall i | 0 <= i < |CycleOutput(start, w, base)|
      ensures IsPrime(CycleOutput(start, w, base)[i])
    {
      SurvivorIsPrime(CycleOutput(start, w, base)[i], base);
    }
  }

  /**
   * Claimed segments tile the number line: the k-th claim covers
   * [LowerBound + k * SegmentSize, LowerBound + (k + 1) * SegmentSize), so
   * two different claims never overlap.
   */
  lemma ClaimsDisjoint(k1: nat, k2: nat, n: int)
    requires k1 != k2
    requires LowerBound + k1 * SegmentSize <= n < LowerBound + (k1 + 1) * SegmentSize
    ensures !(LowerBound + k2 * SegmentSize <= n < LowerBound + (k2 + 1) * SegmentSize)
  {
    if k1 < k2 {
      MulMono(SegmentSize, k1 + 1, k2);
    } else {
      MulMono(SegmentSize, k2 + 1, k1);
    }
  }

  /**
   * From a fresh service, the first cycle fills the pool with the primes of
   * [1,000,000,000, ...) in ascending order: provided the first segment's
   * survivors fit the searcher's array, the first k identifiers taken are the
   * k consecutive primes from 1,000,000,000.
   */
  lemma FirstCycleHandsOutConsecutivePrimes(queue: seq<int>, pending: seq<int>, w: nat, base: seq<int>, k: nat)
    requires IsPrimeTable(base, MaxBasePrimeLimit) && w >= 1
    requires queue + pending == CycleOutput(LowerBound, w, base)
    requires pending == [] || |queue| == QueueCapacity
    requires |Survivors(LowerBound, LowerBound + SegmentSize, base)| <= EstimatedMaxPrimesPerSegment
    requires k <= QueueCapacity && k <= |PrimesIn(LowerBound, LowerBound + SegmentSize)|
    ensures k <= |queue| && queue[..k] == PrimesFrom(LowerBound, k)
  {
    var out := CycleOutput(LowerBound, w, base);
    var first := PrimesIn(LowerBound, LowerBound + SegmentSize);
    assert first <= out by {
      SurvivorsArePrimes(LowerBound, LowerBound + SegmentSize, base);
      CycleStartsWithFirstSegment(w, base);
    }
    assert k <= |queue| by {
      if pending == [] {
        assert queue == out;
      }
    }
    assert first[..k] == PrimesFrom(LowerBound, k) by {
      PrimesInStartsWithRun(LowerBound, LowerBound + SegmentSize, k);
    }
    assert queue[..k] == out[..k];
    assert out[..k] == first[..k];
  }

  lemma {:induction false} CycleStartsWithFirstSegment(w: nat, base: seq<int>)
    requires w >= 1
    ensures SegmentOutput(LowerBound, base) <= CycleOutput(LowerBound, w, base)
  {
    if w > 1 {
      CycleStartsWithFirstSegment(w - 1, base);
    }
  }
}
