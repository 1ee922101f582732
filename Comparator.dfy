/**
 * The comparator of src/utils/comparator/Comparator.js: a wrapper around a
 * three-way compare function from which the equality and ordering
 * predicates are derived, and whose function can be reversed in place.
 */
module Comparator {
  import opened Wrappers

  /**
   * The natural ordering installed when no compare function is supplied:
   * 0 for equal values, -1 when the first is smaller, 1 otherwise.
   * Modelled over integers, the values the library's callers order by default.
   */
  function DefaultCompare(a: int, b: int): (r: int)
    ensures -1 <= r <= 1
    ensures r == 0 <==> a == b
    ensures r == -1 <==> a < b
    ensures r == 1 <==> a > b
  {
    if a == b then 0 else if a < b then -1 else 1
  }

  /** Reversing the default ordering negates it, so it keeps equal pairs equal. */
  lemma DefaultCompareAntisymmetric(a: int, b: int)
    ensures DefaultCompare(b, a) == -DefaultCompare(a, b)
    ensures DefaultCompare(b, a) == 0 <==> DefaultCompare(a, b) == 0
  {
  }

  class Compare<T> {
    /** The wrapped three-way compare function; negative, zero or positive. */
    var compare: (T, T) -> int

    constructor (compareFunction: (T, T) -> int)
      ensures compare == compareFunction
    {
      compare := compareFunction;
    }

    /** `equal`: neither strictly smaller nor strictly greater. */
    predicate Equal(a: T, b: T)
      reads this
      ensures Equal(a, b) <==> !LessThan(a, b) && !GreaterThan(a, b)
    {
      compare(a, b) == 0
    }

    /** `lessThan`: a negative answer, which excludes both equality and greaterThan. */
    predicate LessThan(a: T, b: T)
      reads this
      ensures LessThan(a, b) ==> compare(a, b) != 0 && !GreaterThan(a, b)
    {
      compare(a, b) < 0
    }

    /** `greaterThan`: a positive answer, which excludes equality. */
    predicate GreaterThan(a: T, b: T)
      reads this
      ensures GreaterThan(a, b) ==> compare(a, b) != 0
    {
      compare(a, b) > 0
    }

    predicate LessThanOrEqual(a: T, b: T)
      reads this
      ensures LessThanOrEqual(a, b) <==> compare(a, b) <= 0
      ensures LessThanOrEqual(a, b) <==> !GreaterThan(a, b)
    {
      LessThan(a, b) || Equal(a, b)
    }

    predicate GreaterThanOrEqual(a: T, b: T)
      reads this
      ensures GreaterThanOrEqual(a, b) <==> compare(a, b) >= 0
      ensures GreaterThanOrEqual(a, b) <==> !LessThan(a, b)
    {
      GreaterThan(a, b) || Equal(a, b)
    }

    /** Whatever the wrapped function, exactly one of the three strict predicates holds. */
    lemma Trichotomy(a: T, b: T)
      ensures LessThan(a, b) || Equal(a, b) || GreaterThan(a, b)
      ensures !(LessThan(a, b) && Equal(a, b))
      ensures !(LessThan(a, b) && GreaterThan(a, b))
      ensures !(Equal(a, b) && GreaterThan(a, b))
    {
    }

    /** Replaces the wrapped function by the same function with its arguments swapped. */
    method Reverse()
      modifies this
      ensures forall a, b :: compare(a, b) == old(compare)(b, a)
      ensures forall a, b :: LessThan(a, b) <==> old(compare)(b, a) < 0
      ensures forall a, b :: GreaterThan(a, b) <==> old(compare)(b, a) > 0
      ensures forall a, b :: Equal(a, b) <==> old(compare)(b, a) == 0
    {
      var compareOriginal := compare;
      compare := (a, b) => compareOriginal(b, a);
    }
  }

  /**
   * Builds a comparator over integers as the constructor does: the supplied
   * compare function if there is one, the natural ordering otherwise.
   */
  method NewIntCompare(compareFunction: Option<(int, int) -> int>) returns (c: Compare<int>)
    ensures fresh(c)
    ensures compareFunction.Some? ==> c.compare == compareFunction.value
    ensures compareFunction.None? ==> c.compare == DefaultCompare
  {
    c := new Compare(if compareFunction.Some? then compareFunction.value else DefaultCompare);
  }

  /**
   * With the natural ordering, the predicates agree with the integer order,
   * so exactly one of lessThan, equal and greaterThan holds.
   */
  lemma DefaultOrdering(c: Compare<int>, a: int, b: int)
    requires c.compare == DefaultCompare
    ensures c.LessThan(a, b) <==> a < b
    ensures c.Equal(a, b) <==> a == b
    ensures c.GreaterThan(a, b) <==> a > b
    ensures c.LessThanOrEqual(a, b) <==> a <= b
    ensures c.GreaterThanOrEqual(a, b) <==> a >= b
  {
  }

  /** Reversing twice gives back the original answer of every predicate on every pair. */
  method ReverseTwice<T(!new)>(c: Compare<T>)
    modifies c
    ensures forall a, b :: c.compare(a, b) == old(c.compare(a, b))
    ensures forall a, b :: c.Equal(a, b) == old(c.Equal(a, b))
    ensures forall a, b :: c.LessThan(a, b) == old(c.LessThan(a, b))
    ensures forall a, b :: c.GreaterThan(a, b) == old(c.GreaterThan(a, b))
  {
    c.Reverse();
    ghost var swapped := c.compare;
    c.Reverse();
    assert forall a, b :: c.compare(a, b) == swapped(b, a);
  }

  /** With the natural ordering, a single reversal leaves equality unchanged. */
  method ReverseKeepsDefaultEquality(c: Compare<int>)
    requires c.compare == DefaultCompare
    modifies c
    ensures forall a, b :: c.Equal(a, b) == old(c.Equal(a, b))
    ensures forall a, b :: c.LessThan(a, b) == old(c.GreaterThan(a, b))
  {
    c.Reverse();
    forall a: int, b: int
      ensures c.Equal(a, b) == old(c.Equal(a, b))
    {
      DefaultCompareAntisymmetric(a, b);
    }
  }
}
