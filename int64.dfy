/** Sign-magnitude integers as o1js represents its `Int64`: a magnitude and
    a sign. Zero has two representations, +0 and -0. This module also
    models the few o1js `Int64` operations the containment test performs;
    their source is not part of this model, and they follow o1js: `sub`
    and `add` go through the field and return the canonical
    representation, `mul` and `div` multiply the signs and so may return
    -0. */
module SignedInt {

  datatype Int64 = Int64(mag: nat, neg: bool)

  /** The integer an `Int64` stands for. */
  function Value(x: Int64): int {
    if x.neg then -(x.mag as int) else x.mag
  }

  predicate IsNegativeZero(x: Int64) {
    x.mag == 0 && x.neg
  }

  const Zero: Int64 := Int64(0, false)
  const NegativeZero: Int64 := Int64(0, true)
  const One: Int64 := Int64(1, false)

  function Abs(n: int): nat {
    if n < 0 then -n else n
  }

  /** The canonical representation of `v` (zero is positive). */
  function FromValue(v: int): (r: Int64)
    ensures Value(r) == v && !IsNegativeZero(r)
  {
    Int64(Abs(v), v < 0)
  }

  function Sub(a: Int64, b: Int64): (r: Int64)
    ensures Value(r) == Value(a) - Value(b) && !IsNegativeZero(r)
  {
    FromValue(Value(a) - Value(b))
  }

  function Add(a: Int64, b: Int64): (r: Int64)
    ensures Value(r) == Value(a) + Value(b) && !IsNegativeZero(r)
  {
    FromValue(Value(a) + Value(b))
  }

  /** Magnitude product with the product of the signs. */
  function Mul(a: Int64, b: Int64): (r: Int64)
    ensures Value(r) == Value(a) * Value(b)
  {
    var m := a.mag * b.mag;
    assert Value(a) * Value(b) == if a.neg != b.neg then -m else m;
    Int64(m, a.neg != b.neg)
  }

  /** Integer division truncating toward zero (as in C or Java), as opposed
      to Dafny's Euclidean `/`. Its two ensures determine it uniquely: the
      quotient's magnitude is the floor of |n| / |d| and a nonzero
      quotient has the sign of n * d. */
  function TruncDiv(n: int, d: int): (q: int)
    requires d != 0
    ensures Abs(q) * Abs(d) <= Abs(n) < (Abs(q) + 1) * Abs(d)
    ensures q != 0 ==> ((q < 0) <==> ((n < 0) != (d < 0)))
  {
    var m := Abs(n) / Abs(d);
    var q := if (n < 0) == (d < 0) then m else -m;
    DivBounds(Abs(n), Abs(d), Abs(q));
    q
  }

  lemma DivBounds(n: nat, d: nat, m: nat)
    requires d > 0 && m == n / d
    ensures m * d <= n < (m + 1) * d
  {
    assert n == m * d + n % d;
  }

  /** On operands of equal sign truncation and Euclidean division agree;
      negating the dividend negates the quotient. */
  lemma {:induction false} TruncDivAgainstEuclidean(n: int, d: int)
    requires d != 0
    ensures n >= 0 && d > 0 ==> TruncDiv(n, d) == n / d
    ensures TruncDiv(-n, d) == -TruncDiv(n, d)
  {
  }

  /** Magnitude quotient with the product of the signs: o1js `Int64.div`.
      The divisor must be nonzero (o1js asserts it in `divMod`). */
  function Div(a: Int64, b: Int64): (r: Int64)
    requires b.mag != 0
    ensures Value(r) == TruncDiv(Value(a), Value(b))
  {
    Int64(a.mag / b.mag, a.neg != b.neg)
  }
}
