/**
 Numbers as a C program computes with them, but for rounding: a NaN compares as neither
 more nor less, and spreads.  No infinity gets past the reading of a capture.
 */
module Quantities {

  datatype Quantity = NaN | Is(value: real)
  {
    predicate MoreThan(bound: real) { Is? && value > bound }

    predicate LessThan(bound: real) { Is? && value < bound }

    function Plus(q: Quantity): Quantity {
      if Is? && q.Is? then Is(value + q.value) else NaN
    }

    function Times(q: Quantity): Quantity {
      if Is? && q.Is? then Is(value * q.value) else NaN
    }

    /** Division; 0/0 is a NaN, and nothing else is divided by 0 here. */
    function Over(divisor: real): Quantity {
      if Is? && divisor != 0.0 then Is(value / divisor) else NaN
    }

    function Minus(): Quantity {
      if Is? then Is(-value) else NaN
    }
  }

  const ZERO := Is(0.0)

  /** An average that is there whenever the total is, and gives it back. */
  ghost predicate IsAverage(average: Quantity, total: Quantity, over: real) {
    && over != 0.0
    && (average.Is? <==> total.Is?)
    && (total.Is? ==> average.value * over == total.value)
  }

  lemma OverIsAverage(total: Quantity, over: real)
    requires over != 0.0
    ensures IsAverage(total.Over(over), total, over)
  {
    if total.Is? {
      assert total.value / over * over == total.value;
    }
  }
}
