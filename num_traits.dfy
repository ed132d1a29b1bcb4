/** The scalar element type of a vector, instantiated at mathematical integers.
    The source's `Zero::ZERO` and `One::ONE` are the constants below; the
    operators `+`, `-`, unary `-` and `*` are Dafny's own on `int`, and the
    integer `/` of the source (which truncates toward zero) is `TruncDiv`. */
module NumTraits {

  /** The additive identity `Zero::ZERO`. */
  const ZERO: int := 0

  /** The multiplicative identity `One::ONE`. */
  const ONE: int := 1

  function Abs(x: int): (r: int)
    ensures r >= 0 && (r == x || r == -x)
  {
    if x < 0 then -x else x
  }

  /** `q` is the quotient of `a` by `b` rounded toward zero: the remainder
      `a - q * b` has the sign of the dividend and is smaller than the
      divisor in magnitude. */
  ghost predicate IsTruncQuotient(a: int, b: int, q: int)
  {
    (a >= 0 ==> 0 <= a - q * b < Abs(b)) &&
    (a <= 0 ==> -Abs(b) < a - q * b <= 0)
  }

  /** Integer division as the source's integer element types perform it,
      rounding toward zero. Dafny's own `/` is Euclidean and differs when
      the dividend is negative. A zero divisor makes the source panic; here
      it is excluded. The result is unbounded: signed `MIN / -1`, which
      panics in the source, is not modelled. */
  function TruncDiv(a: int, b: int): (q: int)
    requires b != 0
    ensures IsTruncQuotient(a, b, q)
  {
    if b < 0 then
      var q' := TruncDivByPositive(a, -b);
      MulNegate(q', b);
      -q'
    else
      TruncDivByPositive(a, b)
  }

  function TruncDivByPositive(a: int, b: int): (q: int)
    requires b > 0
    ensures IsTruncQuotient(a, b, q)
  {
    if a >= 0 then
      a / b
    else
      var q' := (-a) / b;
      MulNegate(q', b);
      -q'
  }

  lemma MulNegate(x: int, y: int)
    ensures (-x) * y == -(x * y) && x * (-y) == -(x * y)
  {
  }

  /** A non-zero multiple of `b` is at least `b` in magnitude. */
  lemma MulMagnitude(d: int, b: int)
    requires d != 0
    ensures Abs(d * b) >= Abs(b)
  {
  }

  /** At most one quotient meets the rounding-toward-zero condition. */
  lemma {:induction false} TruncQuotientUnique(a: int, b: int, q1: int, q2: int)
    requires b != 0
    requires IsTruncQuotient(a, b, q1) && IsTruncQuotient(a, b, q2)
    ensures q1 == q2
  {
    if q1 != q2 {
      assert (a - q1 * b) - (a - q2 * b) == (q2 - q1) * b;
      MulMagnitude(q2 - q1, b);
    }
  }

  /** Truncating division is symmetric under negating the dividend, which
      Euclidean division is not. */
  lemma TruncDivNegate(a: int, b: int)
    requires b != 0
    ensures TruncDiv(-a, b) == -TruncDiv(a, b)
  {
  }

  /** Dividing an exact multiple gives back the factor: `(x * s) / s == x`. */
  lemma TruncDivOfMultiple(x: int, s: int)
    requires s != 0
    ensures TruncDiv(x * s, s) == x
  {
    assert IsTruncQuotient(x * s, s, x);
    TruncQuotientUnique(x * s, s, TruncDiv(x * s, s), x);
  }

  /** The difference with Dafny's `/`, on one input: `-7 / 2` rounds to `-3`. */
  lemma TruncDivDiffersFromEuclidean()
    ensures TruncDiv(-7, 2) == -3 && -7 / 2 == -4
  {
  }
}
