/** The branch-free comparators of contracts/src/math/Provable.ts over
    sign-magnitude `Int64`. Each `Provable.if` of the source is an
    if-expression here; o1js `x.equals(y)` compares values, so it is
    `Value(x) == Value(y)`, and `Sign.mul(...).isPositive()` holds exactly
    when the two signs are equal. */
module Provable {
  import opened SignedInt

  /** provableIsInt64XGreaterThanY, as written: on equal signs the larger
      magnitude (positive) or the smaller one (negative) wins, with equal
      values forced to false; on different signs the positive-signed
      operand wins, with no equality override. The result is ">" on
      values with exactly one exception: +0 is reported greater than -0. */
  function GreaterThan(x: Int64, y: Int64): (r: bool)
    ensures r <==> Value(x) > Value(y) || (x == Zero && y == NegativeZero)
  {
    var isSignsEqual := x.neg == y.neg;
    var isMagnitudeLarger := x.mag > y.mag;
    var isMagnitudeSmaller := x.mag < y.mag;
    var isEqual := Value(x) == Value(y);
    var ifSignsEqual :=
      if isEqual then false
      else if !x.neg then isMagnitudeLarger else isMagnitudeSmaller;
    var ifSignsDiffer := !x.neg;
    if isSignsEqual then ifSignsEqual else ifSignsDiffer
  }

  /** provableIsInt64XEqualToInt64Y, as written: false when both operands
      are zero, otherwise equal magnitudes and equal signs. So it is
      equality of representations, except that every pair of zeros is
      reported unequal. */
  function IsEqual(x: Int64, y: Int64): (r: bool)
    ensures r <==> x == y && x.mag != 0
  {
    var isXandYZero := Value(x) == 0 && Value(y) == 0;
    var isSignAndMagnitudeEqual := x.mag == y.mag && x.neg == y.neg;
    if isXandYZero then false else isSignAndMagnitudeEqual
  }

  /** provableIsInt64XLessThanY: neither greater nor (by value) equal.
      This is "<" on values for every pair of operands: the +0/-0
      exception of GreaterThan is masked by the value-equality test. */
  function LessThan(x: Int64, y: Int64): (r: bool)
    ensures r <==> Value(x) < Value(y)
  {
    !GreaterThan(x, y) && !(Value(x) == Value(y))
  }

  lemma GreaterThanIrreflexive(x: Int64)
    ensures !GreaterThan(x, x)
  {
  }

  /** Different signs: the result is exactly "x has the positive sign". */
  lemma GreaterThanOnDifferentSigns(x: Int64, y: Int64)
    requires x.neg != y.neg
    ensures GreaterThan(x, y) <==> !x.neg
  {
  }

  /** Equal signs: magnitudes decide, in reverse for negative operands. */
  lemma GreaterThanOnEqualSigns(x: Int64, y: Int64)
    requires x.neg == y.neg
    ensures GreaterThan(x, y) <==> if x.neg then x.mag < y.mag else x.mag > y.mag
  {
  }

  /** Hence the documented "x > y" holds whenever y is not -0. */
  lemma GreaterThanMatchesValues(x: Int64, y: Int64)
    requires !IsNegativeZero(y)
    ensures GreaterThan(x, y) <==> Value(x) > Value(y)
  {
  }

  /** The one exception, on equal values. */
  lemma GreaterThanPositiveOverNegativeZero()
    ensures GreaterThan(Zero, NegativeZero) && Value(Zero) == Value(NegativeZero)
  {
  }

  /** LessThan and GreaterThan exclude each other, and LessThan is
      irreflexive. */
  lemma LessThanExcludesGreaterThan(x: Int64, y: Int64)
    ensures !(LessThan(x, y) && GreaterThan(x, y))
    ensures !LessThan(x, x)
  {
  }

  /** LessThan(x, y) and GreaterThan(y, x) agree on every pair except
      (x, y) = (-0, +0). */
  lemma LessThanIsConverseOfGreaterThan(x: Int64, y: Int64)
    ensures LessThan(x, y) == GreaterThan(y, x) <==> !(x == NegativeZero && y == Zero)
  {
  }

  /** On canonical operands (no -0) both orders are "<" on values. */
  lemma CanonicalComparisons(x: Int64, y: Int64)
    requires !IsNegativeZero(x) && !IsNegativeZero(y)
    ensures LessThan(x, y) <==> GreaterThan(y, x)
    ensures GreaterThan(y, x) <==> Value(x) < Value(y)
  {
  }

  /** The zero pairs on which IsEqual is false, the equal pair included. */
  lemma IsEqualRejectsZeros()
    ensures !IsEqual(Zero, Zero) && !IsEqual(Zero, NegativeZero)
  {
  }

  /** IsEqual with the both-zero case selecting true, which makes it
      equality of values as its name says. */
  predicate IsEqualIntended(x: Int64, y: Int64) {
    var isXandYZero := Value(x) == 0 && Value(y) == 0;
    var isSignAndMagnitudeEqual := x.mag == y.mag && x.neg == y.neg;
    if isXandYZero then true else isSignAndMagnitudeEqual
  }

  lemma IsEqualIntendedMatchesValues(x: Int64, y: Int64)
    ensures IsEqualIntended(x, y) <==> Value(x) == Value(y)
  {
  }
}
