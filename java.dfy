/**
 * The few pieces of the Java platform the shop relies on: the exceptions its
 * methods throw, a result type standing for "returned normally or threw",
 * and the 32-bit `int` range of the ticket counters.
 */
module Java {

  /** The exception classes the modelled code throws (or lets escape). */
  datatype Exception =
    | IllegalArgument      // java.lang.IllegalArgumentException
    | NoSuchElement        // java.util.NoSuchElementException
    | NullPointer          // java.lang.NullPointerException (Objects.requireNonNull)
    | Runtime              // java.lang.RuntimeException

  /** A call that returns nothing: it completes normally or throws. */
  datatype Outcome = Normal | Thrown(exception: Exception)

  /** A call that returns a value or throws. */
  datatype Result<+T> = Ok(value: T) | Err(exception: Exception)

  /** A reference that may be null. */
  datatype Option<+T> = None | Some(value: T)

  const IntMin: int := -0x8000_0000
  const IntMax: int := 0x7FFF_FFFF

  /** Java `int`. */
  predicate IsInt(x: int)
  {
    IntMin <= x <= IntMax
  }

  /** `x + 1` on a Java `int`: wraps from Integer.MAX_VALUE to Integer.MIN_VALUE. */
  function IntIncrement(x: int): (r: int)
    requires IsInt(x)
    ensures IsInt(r)
    ensures x < IntMax ==> r == x + 1
    ensures x == IntMax ==> r == IntMin
  {
    if x == IntMax then IntMin else x + 1
  }

  /** `x - 1` on a Java `int`: wraps from Integer.MIN_VALUE to Integer.MAX_VALUE. */
  function IntDecrement(x: int): (r: int)
    requires IsInt(x)
    ensures IsInt(r)
    ensures x > IntMin ==> r == x - 1
    ensures x == IntMin ==> r == IntMax
  {
    if x == IntMin then IntMax else x - 1
  }

  /** Incrementing and decrementing undo each other, wrap-around included. */
  lemma IncrementUndoesDecrement(x: int)
    requires IsInt(x)
    ensures IntIncrement(IntDecrement(x)) == x
    ensures IntDecrement(IntIncrement(x)) == x
  {
  }

  /** Runs two checks in order: the first exception wins. */
  function AndThen(first: Outcome, second: Outcome): (o: Outcome)
    ensures o == Normal <==> first == Normal && second == Normal
    ensures o.Thrown? ==> o == first || (first == Normal && o == second)
  {
    if first.Thrown? then first else second
  }

  /** A non-empty set has an element (the one its iterator yields first). */
  lemma AnElement<T>(s: set<T>) returns (x: T)
    requires s != {}
    ensures x in s
  {
    if forall y :: y !in s {
      assert false;
    }
    x :| x in s;
  }

  /** The element an iterator over a non-empty set yields next. */
  method Pick<T>(s: set<T>) returns (x: T)
    requires s != {}
    ensures x in s
  {
    ghost var first := AnElement(s);
    x :| x in s;
  }

  /**
   * `values().toArray(...)` of a HashMap: one entry per key, in the map's
   * own (unspecified) iteration order.
   */
  method ValuesToArray<K, V(==)>(m: map<K, V>) returns (vs: seq<V>)
    ensures |vs| == |m|
    ensures forall v :: v in vs <==> v in m.Values
  {
    vs := [];
    var rest := m.Keys;
    ghost var done: seq<K> := [];
    while rest != {}
      invariant rest <= m.Keys
      invariant |done| == |vs|
      invariant forall i :: 0 <= i < |done| ==> done[i] in m && done[i] !in rest && vs[i] == m[done[i]]
      invariant forall k :: k in m ==> k in rest || k in done
      invariant |vs| + |rest| == |m|
      decreases |rest|
    {
      var k := Pick(rest);
      vs := vs + [m[k]];
      done := done + [k];
      rest := rest - {k};
    }
    forall v | v in m.Values
      ensures v in vs
    {
      var k :| k in m && m[k] == v;
      var i :| 0 <= i < |done| && done[i] == k;
      assert vs[i] == v;
    }
  }
}
