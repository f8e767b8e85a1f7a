/**
 * JavaSegmentedSieveGenerator: a table of base primes up to 100,000 built
 * once with the sieve of Eratosthenes, and a segment sieve that strikes out
 * the multiples of those base primes inside [segmentStart,
 * segmentStart + segmentSize) and copies the survivors into a caller-supplied
 * fixed-size array.
 */
module SegmentedSieve {
  import opened Primes
  import opened Java

  /** Bound of the base-prime table; 100,000^2 = 10^10. */
  const MaxBasePrimeLimit: int := 100_000

  /** s lists, in ascending order, exactly the primes in [2, limit]. */
  ghost predicate IsPrimeTable(s: seq<int>, limit: int)
  {
    && StrictlyIncreasing(s)
    && (forall i :: 0 <= i < |s| ==> IsPrime(s[i]) && s[i] <= limit)
    && (forall n :: 2 <= n <= limit && IsPrime(n) ==> n in s)
  }

  /** n is a multiple of p no smaller than p * p: the cells the marking loop for p strikes. */
  ghost predicate StruckBy(n: int, p: int)
    requires p > 0
  {
    p * p <= n && n % p == 0
  }

  /** Some base prime q with q * q <= n divides n: the segment sieve strikes n. */
  ghost predicate HasBaseFactor(n: int, base: seq<int>)
  {
    exists i :: 0 <= i < |base| && base[i] > 0 && StruckBy(n, base[i])
  }

  /** n is emitted by the segment sieve: at least 2 and not struck by any base prime. */
  ghost predicate Survives(n: int, base: seq<int>)
  {
    n >= 2 && !HasBaseFactor(n, base)
  }

  /** The numbers in [lo, hi) the segment sieve emits, in ascending order. */
  ghost function Survivors(lo: int, hi: int, base: seq<int>): seq<int>
    decreases hi - lo
  {
    if hi <= lo then []
    else Survivors(lo, hi - 1, base) + (if Survives(hi - 1, base) then [hi - 1] else [])
  }

  /** The primes in [lo, hi), in ascending order. */
  ghost function PrimesIn(lo: int, hi: int): seq<int>
    decreases hi - lo
  {
    if hi <= lo then []
    else PrimesIn(lo, hi - 1) + (if IsPrime(hi - 1) then [hi - 1] else [])
  }

  // ---------------------------------------------------------------------------
  // Base-prime table
  // ---------------------------------------------------------------------------

  /**
   * sieveBasePrimes: classic sieve of Eratosthenes over [0, limit]. Only ever
   * called with 100,000; `limit + 1` cells are allocated and cells 0 and 1
   * cleared, so the Java code needs limit >= 1.
   */
  method SieveBasePrimes(limit: int) returns (primes: seq<int>)
    requires limit >= 1
    ensures IsPrimeTable(primes, limit)
  {
    var isPrime := new bool[limit + 1](_ => true);
    isPrime[0], isPrime[1] := false, false;
    var p := 2;
    while p * p <= limit
      invariant 2 <= p
      invariant (p - 1) * (p - 1) <= limit
      invariant forall k :: 0 <= k <= limit ==> (isPrime[k] <==> k >= 2 && NoFactorBelow(k, p))
    {
      MulMono(p, 2, p);
      if isPrime[p] {
        StrikeMultiples(isPrime, p, limit);
      } else {
        CompositeStrikesNothing(p, limit, isPrime);
      }
      p := p + 1;
    }
    primes := [];
    var n := 2;
    while n <= limit
      invariant 2 <= n <= limit + 1
      invariant limit < p * p
      invariant forall k :: 0 <= k <= limit ==> (isPrime[k] <==> k >= 2 && NoFactorBelow(k, p))
      invariant StrictlyIncreasing(primes)
      invariant forall i :: 0 <= i < |primes| ==> IsPrime(primes[i]) && primes[i] < n
      invariant forall m :: 2 <= m < n && IsPrime(m) ==> m in primes
    {
      PrimeIffNoSmallFactor(n, p);
      if isPrime[n] {
        primes := primes + [n];
      }
      n := n + 1;
    }
  }

  /** Marks i = p*p, p*p + p, ... <= limit as composite (the inner loop of sieveBasePrimes). */
  method StrikeMultiples(isPrime: array<bool>, p: int, limit: int)
    requires isPrime.Length == limit + 1 && 2 <= p && p * p <= limit
    requires forall k :: 0 <= k <= limit ==> (isPrime[k] <==> k >= 2 && NoFactorBelow(k, p))
    modifies isPrime
    ensures forall k :: 0 <= k <= limit ==> (isPrime[k] <==> k >= 2 && NoFactorBelow(k, p + 1))
  {
    var i := p * p;
    MulMod(p, p);
    while i <= limit
      invariant p * p <= i && i % p == 0
      invariant forall k :: 0 <= k <= limit ==>
        (isPrime[k] <==> k >= 2 && NoFactorBelow(k, p) && !(p * p <= k < i && k % p == 0))
    {
      isPrime[i] := false;
      forall k | i < k < i + p && k % p == 0
        ensures false
      {
        MultiplesApart(i, k, p);
      }
      ModUnique(i + p, p, i / p + 1, 0);
      i := i + p;
    }
  }

  /**
   * When p itself is already struck, every multiple k >= p*p has a smaller
   * factor, so skipping p changes nothing.
   */
  lemma CompositeStrikesNothing(p: int, limit: int, isPrime: array<bool>)
    requires 2 <= p && p * p <= limit && isPrime.Length == limit + 1
    requires forall k :: 0 <= k <= limit ==> (isPrime[k] <==> k >= 2 && NoFactorBelow(k, p))
    requires !isPrime[p]
    ensures forall k :: 0 <= k <= limit ==> (isPrime[k] <==> k >= 2 && NoFactorBelow(k, p + 1))
  {
    MulMono(p, 2, p);
    assert !NoFactorBelow(p, p);
    var d :| 2 <= d < p && d * d <= p && p % d == 0;
    forall k | 0 <= k <= limit && p * p <= k && k % p == 0
      ensures !NoFactorBelow(k, p)
    {
      DivTrans(k, p, d);
      MulMono(p, 1, p);
    }
  }

  // ---------------------------------------------------------------------------
  // Segment sieve
  // ---------------------------------------------------------------------------

  /** The class holds only the immutable, statically computed base-prime table. */
  class JavaSegmentedSieveGenerator {
    const basePrimes: seq<int>

    constructor ()
      ensures IsPrimeTable(basePrimes, MaxBasePrimeLimit)
    {
      var table := SieveBasePrimes(MaxBasePrimeLimit);
      basePrimes := table;
    }

    /**
     * generatePrimes: on bad arguments IllegalArgumentException with the
     * array untouched; otherwise the survivors of the segment are written to
     * outPrimes[0..count) and count is returned, the rest of the array kept.
     * When the array is too small it is filled completely with the first
     * survivors and IllegalArgumentException is thrown.
     */
    method GeneratePrimes(segmentStart: int, segmentSize: int, outPrimes: array?<int>) returns (r: Result<int>)
      requires IsPrimeTable(basePrimes, MaxBasePrimeLimit)
      modifies outPrimes
      ensures segmentStart < 0 || segmentSize <= 0 || outPrimes == null ==>
        r == Err(IllegalArgument) && (outPrimes != null ==> outPrimes[..] == old(outPrimes[..]))
      ensures segmentStart >= 0 && segmentSize > 0 && outPrimes != null ==>
        var s := Survivors(segmentStart, segmentStart + segmentSize, basePrimes);
        if |s| <= outPrimes.Length then
          r == Ok(|s|) && outPrimes[..|s|] == s && outPrimes[|s|..] == old(outPrimes[|s|..])
        else
          r == Err(IllegalArgument) && outPrimes[..] == s[..outPrimes.Length]
    {
      if segmentStart < 0 || segmentSize <= 0 || outPrimes == null {
        return Err(IllegalArgument);
      }
      var isCompositeInSegment := new bool[segmentSize](_ => false);
      MarkSegment(isCompositeInSegment, segmentStart);
      r := CollectSurvivors(isCompositeInSegment, segmentStart, outPrimes);
    }

    /**
     * The marking loop over the base primes: afterwards a cell is marked
     * exactly when its number has a base-prime factor whose square does not
     * exceed it.
     */
    method MarkSegment(isCompositeInSegment: array<bool>, segmentStart: int)
      requires IsPrimeTable(basePrimes, MaxBasePrimeLimit)
      requires segmentStart >= 0 && isCompositeInSegment.Length > 0
      requires forall i :: 0 <= i < isCompositeInSegment.Length ==> !isCompositeInSegment[i]
      modifies isCompositeInSegment
      ensures forall i :: 0 <= i < isCompositeInSegment.Length ==>
        (isCompositeInSegment[i] <==> HasBaseFactor(segmentStart + i, basePrimes))
    {
      var segmentSize := isCompositeInSegment.Length;
      var t := 0;
      while t < |basePrimes|
        invariant 0 <= t <= |basePrimes|
        invariant forall i :: 0 <= i < segmentSize ==>
          (isCompositeInSegment[i] <==> HasBaseFactor(segmentStart + i, basePrimes[..t]))
      {
        var p := basePrimes[t];
        var squareP := p * p;
        if squareP > segmentStart + segmentSize - 1 {
          forall n | n < segmentStart + segmentSize
            ensures HasBaseFactor(n, basePrimes[..t]) <==> HasBaseFactor(n, basePrimes)
          {
            LaterPrimesTooLarge(basePrimes, t, n);
          }
          return;
        }
        StrikeSegmentMultiples(isCompositeInSegment, segmentStart, p);
        forall n
          ensures HasBaseFactor(n, basePrimes[..t + 1]) <==> HasBaseFactor(n, basePrimes[..t]) || StruckBy(n, p)
        {
          HasBaseFactorSnoc(n, basePrimes, t);
        }
        t := t + 1;
      }
      assert basePrimes[..t] == basePrimes;
    }

    /**
     * Collects the unmarked numbers >= 2 into outPrimes, counting them, and
     * throws when one more survivor than the array holds turns up.
     */
    method CollectSurvivors(isCompositeInSegment: array<bool>, segmentStart: int, outPrimes: array<int>) returns (r: Result<int>)
      requires segmentStart >= 0
      requires forall i :: 0 <= i < isCompositeInSegment.Length ==>
        (isCompositeInSegment[i] <==> HasBaseFactor(segmentStart + i, basePrimes))
      modifies outPrimes
      ensures var s := Survivors(segmentStart, segmentStart + isCompositeInSegment.Length, basePrimes);
        if |s| <= outPrimes.Length then
          r == Ok(|s|) && outPrimes[..|s|] == s && outPrimes[|s|..] == old(outPrimes[|s|..])
        else
          r == Err(IllegalArgument) && outPrimes[..] == s[..outPrimes.Length]
    {
      var segmentSize := isCompositeInSegment.Length;
      var hi := segmentStart + segmentSize;
      var primeCount := 0;
      var i := 0;
      ghost var collected: seq<int> := [];
      while i < segmentSize
        invariant 0 <= i <= segmentSize
        invariant collected == Survivors(segmentStart, segmentStart + i, basePrimes)
        invariant primeCount == |collected| <= outPrimes.Length
        invariant outPrimes[..primeCount] == collected
        invariant outPrimes[primeCount..] == old(outPrimes[primeCount..])
      {
        SurvivorsStep(isCompositeInSegment[..], segmentStart, i, basePrimes);
        if !isCompositeInSegment[i] {
          var currentNumber := segmentStart + i;
          if currentNumber >= 2 {
            if primeCount >= outPrimes.Length {
              SurvivorsPrefix(segmentStart, segmentStart + i + 1, hi, basePrimes);
              assert outPrimes[..] == outPrimes[..primeCount];
              return Err(IllegalArgument);
            }
            outPrimes[primeCount] := currentNumber;
            primeCount := primeCount + 1;
            assert outPrimes[..primeCount] == collected + [currentNumber];
            collected := collected + [currentNumber];
          }
        }
        i := i + 1;
      }
      r := Ok(primeCount);
    }
  }

  /**
   * One step of the collecting loop: the survivors below segmentStart + i + 1
   * are those below segmentStart + i, followed by segmentStart + i when it is
   * unmarked and at least 2.
   */
  lemma SurvivorsStep(isComposite: seq<bool>, segmentStart: int, i: int, base: seq<int>)
    requires 0 <= i < |isComposite|
    requires forall k :: 0 <= k < |isComposite| ==> (isComposite[k] <==> HasBaseFactor(segmentStart + k, base))
    ensures Survivors(segmentStart, segmentStart + i + 1, base) == Survivors(segmentStart, segmentStart + i, base)
      + (if !isComposite[i] && segmentStart + i >= 2 then [segmentStart + i] else [])
  {
  }

  /**
   * The marking loop for one base prime p: marks j from
   * max(p*p, the first multiple of p >= segmentStart) upwards in steps of p,
   * staying inside the segment.
   */
  method StrikeSegmentMultiples(isCompositeInSegment: array<bool>, segmentStart: int, p: int)
    requires segmentStart >= 0 && p >= 2
    modifies isCompositeInSegment
    ensures forall i :: 0 <= i < isCompositeInSegment.Length ==>
      (isCompositeInSegment[i] <==> old(isCompositeInSegment[i]) || StruckBy(segmentStart + i, p))
  {
    var segmentSize := isCompositeInSegment.Length;
    var squareP := p * p;
    var startMultiple := ((segmentStart + p - 1) / p) * p;
    FirstMultiple(segmentStart, p);
    MulMod(p, p);
    if startMultiple < squareP {
      startMultiple := squareP;
    }
    var j := startMultiple;
    while j < segmentStart + segmentSize
      invariant j >= startMultiple && j % p == 0
      invariant forall i :: 0 <= i < segmentSize ==>
        (isCompositeInSegment[i] <==> old(isCompositeInSegment[i]) || StruckBetween(segmentStart + i, p, startMultiple, j))
    {
      if j >= segmentStart {
        var indexInSegment := j - segmentStart;
        if indexInSegment < segmentSize {
          isCompositeInSegment[indexInSegment] := true;
        }
      }
      StruckStep(j, p, startMultiple);
      j := j + p;
    }
    forall i | 0 <= i < segmentSize
      ensures isCompositeInSegment[i] <==> old(isCompositeInSegment[i]) || StruckBy(segmentStart + i, p)
    {
      StruckFromStart(segmentStart + i, p, segmentStart, startMultiple, j);
    }
  }

  /**
   * Marking from max(p*p, the first multiple of p at or above the segment
   * start) up to j strikes exactly the numbers of the segment below j that
   * StruckBy names.
   */
  lemma StruckFromStart(n: int, p: int, segmentStart: int, startMultiple: int, j: int)
    requires p >= 2 && 0 <= segmentStart <= n < j
    requires var m := ((segmentStart + p - 1) / p) * p;
      startMultiple == if m < p * p then p * p else m
    ensures StruckBetween(n, p, startMultiple, j) <==> StruckBy(n, p)
  {
    var m := ((segmentStart + p - 1) / p) * p;
    var square := p * p;
    FirstMultiple(segmentStart, p);
    assert startMultiple == if m < square then square else m;
    if StruckBetween(n, p, startMultiple, j) {
      assert square <= startMultiple <= n && n % p == 0;
    }
    if StruckBy(n, p) {
      assert square <= n && n % p == 0;
      if n < m {
        MultiplesApart(n, m, p);
      }
      assert startMultiple <= n;
    }
  }

  /** Advancing the marking cursor j by p adds exactly j to the struck range. */
  lemma StruckStep(j: int, p: int, from: int)
    requires p > 0 && j % p == 0 && from <= j
    ensures (j + p) % p == 0
    ensures forall n :: StruckBetween(n, p, from, j + p) <==> StruckBetween(n, p, from, j) || n == j
  {
    ModUnique(j + p, p, j / p + 1, 0);
    forall n
      ensures StruckBetween(n, p, from, j + p) <==> StruckBetween(n, p, from, j) || n == j
    {
      if j < n < j + p && n % p == 0 {
        MultiplesApart(j, n, p);
      }
    }
  }

  /** n is a multiple of p in [from, to). */
  ghost predicate StruckBetween(n: int, p: int, from: int, to: int)
    requires p > 0
  {
    from <= n < to && n % p == 0
  }

  /** ((lo + p - 1) / p) * p is the least multiple of p that is at least lo. */
  lemma FirstMultiple(lo: int, p: int)
    requires lo >= 0 && p >= 1
    ensures var m := ((lo + p - 1) / p) * p;
      lo <= m < lo + p && m % p == 0
  {
    var q := (lo + p - 1) / p;
    assert lo + p - 1 == p * q + (lo + p - 1) % p;
    MulMod(p, q);
  }

  lemma HasBaseFactorSnoc(n: int, base: seq<int>, t: int)
    requires 0 <= t < |base|
    ensures HasBaseFactor(n, base[..t + 1]) <==>
      HasBaseFactor(n, base[..t]) || (base[t] > 0 && StruckBy(n, base[t]))
  {
    var b := base[..t + 1];
    if HasBaseFactor(n, b) {
      var i :| 0 <= i < |b| && b[i] > 0 && StruckBy(n, b[i]);
      if i < t {
        assert base[..t][i] == b[i];
      }
    }
    if HasBaseFactor(n, base[..t]) {
      var i :| 0 <= i < t && base[..t][i] > 0 && StruckBy(n, base[..t][i]);
      assert b[i] == base[..t][i];
    }
    if base[t] > 0 && StruckBy(n, base[t]) {
      assert b[t] == base[t];
    }
  }

  /** Base primes from index t on have squares beyond n once base[t]^2 does. */
  lemma LaterPrimesTooLarge(base: seq<int>, t: int, n: int)
    requires StrictlyIncreasing(base) && 0 <= t < |base| && base[t] >= 0 && base[t] * base[t] > n
    ensures HasBaseFactor(n, base[..t]) <==> HasBaseFactor(n, base)
  {
    if HasBaseFactor(n, base) {
      var i :| 0 <= i < |base| && base[i] > 0 && StruckBy(n, base[i]);
      if i >= t {
        if i > t {
          SquareMono(base[t], base[i]);
        }
        assert false;
      }
      assert base[..t][i] == base[i];
    }
    if HasBaseFactor(n, base[..t]) {
      var i :| 0 <= i < t && base[..t][i] > 0 && StruckBy(n, base[..t][i]);
      assert base[i] == base[..t][i];
    }
  }

  lemma {:induction false} SurvivorsPrefix(lo: int, mid: int, hi: int, base: seq<int>)
    requires lo <= mid <= hi
    ensures Survivors(lo, mid, base) <= Survivors(lo, hi, base)
    decreases hi - mid
  {
    if mid < hi {
      SurvivorsPrefix(lo, mid, hi - 1, base);
    }
  }

  // ---------------------------------------------------------------------------
  // What the segment sieve emits
  // ---------------------------------------------------------------------------

  /** A prime in the segment is never struck, whatever the base primes. */
  lemma PrimeSurvives(n: int, base: seq<int>)
    requires IsPrime(n) && forall i :: 0 <= i < |base| ==> base[i] >= 2
    ensures Survives(n, base)
  {
    if HasBaseFactor(n, base) {
      var i :| 0 <= i < |base| && base[i] > 0 && StruckBy(n, base[i]);
      MulMono(base[i], 2, base[i]);
      assert false;
    }
  }

  /**
   * With base primes up to 100,000, a survivor below 10^10 is prime: a
   * composite number there has a prime factor whose square does not exceed
   * it, and that factor is in the table.
   */
  lemma SurvivorIsPrime(n: int, base: seq<int>)
    requires IsPrimeTable(base, MaxBasePrimeLimit) && n < MaxBasePrimeLimit * MaxBasePrimeLimit
    ensures Survives(n, base) <==> IsPrime(n)
  {
    if IsPrime(n) {
      PrimeSurvives(n, base);
    } else if n >= 2 {
      var q := CompositeHasSmallPrimeFactor(n);
      if q > MaxBasePrimeLimit {
        SquareMono(MaxBasePrimeLimit, q);
        assert false;
      }
      var i :| 0 <= i < |base| && base[i] == q;
    }
  }

  /**
   * For a segment ending at or below 10^10 the segment sieve emits exactly
   * the primes of the segment, in ascending order.
   */
  lemma {:induction false} SurvivorsArePrimes(lo: int, hi: int, base: seq<int>)
    requires IsPrimeTable(base, MaxBasePrimeLimit) && hi <= MaxBasePrimeLimit * MaxBasePrimeLimit
    ensures Survivors(lo, hi, base) == PrimesIn(lo, hi)
    decreases hi - lo
  {
    if lo < hi {
      SurvivorsArePrimes(lo, hi - 1, base);
      SurvivorIsPrime(hi - 1, base);
    }
  }

  /** The primes in [lo, hi): ascending, inside the range, and none missing. */
  lemma {:induction false} PrimesInSpec(lo: int, hi: int)
    ensures StrictlyIncreasing(PrimesIn(lo, hi))
    ensures forall i :: 0 <= i < |PrimesIn(lo, hi)| ==> IsPrime(PrimesIn(lo, hi)[i]) && lo <= PrimesIn(lo, hi)[i] < hi
    ensures forall n :: lo <= n < hi && IsPrime(n) ==> n in PrimesIn(lo, hi)
    decreases hi - lo
  {
    if lo < hi {
      PrimesInSpec(lo, hi - 1);
    }
  }

  /** The survivors of [lo, hi): ascending, inside the range, and each one unstruck. */
  lemma {:induction false} SurvivorsSpec(lo: int, hi: int, base: seq<int>)
    ensures StrictlyIncreasing(Survivors(lo, hi, base))
    ensures forall i :: 0 <= i < |Survivors(lo, hi, base)| ==>
      Survives(Survivors(lo, hi, base)[i], base) && lo <= Survivors(lo, hi, base)[i] < hi
    decreases hi - lo
  {
    if lo < hi {
      SurvivorsSpec(lo, hi - 1, base);
    }
  }

  /** The primes of [lo, hi) are those of [lo, mid) followed by those of [mid, hi). */
  lemma {:induction false} PrimesInSplit(lo: int, mid: int, hi: int)
    requires lo <= mid <= hi
    ensures PrimesIn(lo, hi) == PrimesIn(lo, mid) + PrimesIn(mid, hi)
    decreases hi - mid
  {
    if mid < hi {
      PrimesInSplit(lo, mid, hi - 1);
    }
  }

  /**
   * Listing the primes of a range from lo and running a generator from lo
   * agree: the first k primes of [lo, hi) are the k consecutive primes from lo.
   */
  lemma {:induction false} PrimesInStartsWithRun(lo: int, hi: int, k: nat)
    requires k <= |PrimesIn(lo, hi)|
    ensures PrimesIn(lo, hi)[..k] == PrimesFrom(lo, k)
  {
    var c := Cursor(lo, k);
    PrimesFromSpec(lo, k);
    RunIsPrimesIn(lo, k);
    if k > 0 {
      assert lo < hi;
      if c <= hi {
        PrimesInSplit(lo, c, hi);
      } else {
        PrimesInSplit(lo, hi, c);
      }
    }
  }

  /** The primes a generator hands out from lo are the primes below its cursor. */
  lemma {:induction false} RunIsPrimesIn(lo: int, k: nat)
    ensures lo <= Cursor(lo, k)
    ensures PrimesIn(lo, Cursor(lo, k)) == PrimesFrom(lo, k)
  {
    if k > 0 {
      RunIsPrimesIn(lo, k - 1);
      var c := Cursor(lo, k - 1);
      var p := NextPrimeFrom(c);
      PrimesInSplit(lo, c, p + 1);
      NoPrimesBefore(c, p);
      assert PrimesIn(c, p + 1) == PrimesIn(c, p) + [p];
    }
  }

  /** No prime lies in [c, p) when p is the next prime from c. */
  lemma {:induction false} NoPrimesBefore(c: int, p: int)
    requires IsNextPrime(c, p)
    ensures PrimesIn(c, p) == []
    decreases p - c
  {
    if c < p {
      NoPrimesBeforeUpTo(c, p, p);
    }
  }

  lemma {:induction false} NoPrimesBeforeUpTo(c: int, p: int, hi: int)
    requires IsNextPrime(c, p) && hi <= p
    ensures PrimesIn(c, hi) == []
    decreases hi - c
  {
    if c < hi {
      NoPrimesBeforeUpTo(c, p, hi - 1);
    }
  }

  /** Nothing below 2 is ever emitted, even for segments starting at 0 or 1. */
  lemma {:induction false} SurvivorsAtLeastTwo(lo: int, hi: int, base: seq<int>)
    ensures forall i :: 0 <= i < |Survivors(lo, hi, base)| ==> Survivors(lo, hi, base)[i] >= 2
    decreases hi - lo
  {
    if lo < hi {
      SurvivorsAtLeastTwo(lo, hi - 1, base);
    }
  }

  /**
   * No lower-bound filter: a segment that contains 2 emits 2, far below the
   * identifier bound of 1,000,000,000.
   */
  lemma {:induction false} SmallPrimesEmitted(lo: int, hi: int, base: seq<int>)
    requires lo <= 2 < hi && forall i :: 0 <= i < |base| ==> base[i] >= 2
    ensures 2 in Survivors(lo, hi, base)
    decreases hi - lo
  {
    if hi == 3 {
      assert IsPrime(2);
      PrimeSurvives(2, base);
    } else {
      SmallPrimesEmitted(lo, hi - 1, base);
    }
  }
}
