/** The value of a vector is its sequence of components. This module gives
    the meaning of every vector operation as a function on component
    sequences, and proves the algebraic laws the operators are meant to
    obey over exact integers. The class in module `Vectors` is proved
    against these functions. */
module VectorSpec {
  import opened NumTraits

  /** `n` copies of `v`: the array expression `[v; N]`. */
  function Filled(n: nat, v: int): (r: seq<int>)
  {
    seq(n, _ => v)
  }

  function Plus(a: seq<int>, b: seq<int>): (r: seq<int>)
    requires |a| == |b|
  {
    seq(|a|, i requires 0 <= i < |a| => a[i] + b[i])
  }

  function Minus(a: seq<int>, b: seq<int>): (r: seq<int>)
    requires |a| == |b|
  {
    seq(|a|, i requires 0 <= i < |a| => a[i] - b[i])
  }

  function Negated(a: seq<int>): (r: seq<int>)
  {
    seq(|a|, i requires 0 <= i < |a| => -a[i])
  }

  function Scaled(a: seq<int>, s: int): (r: seq<int>)
  {
    seq(|a|, i requires 0 <= i < |a| => a[i] * s)
  }

  /** Every component divided by `s`, rounding toward zero. A divisor of
      zero is harmless when there is no component to divide. */
  function Divided(a: seq<int>, s: int): (r: seq<int>)
    requires a != [] ==> s != 0
  {
    seq(|a|, i requires 0 <= i < |a| => TruncDiv(a[i], s))
  }

  /** The sum of the squares of the components, accumulated left to right:
      the square of the last component is the last one added. */
  function SumOfSquares(a: seq<int>): (r: int)
  {
    if a == [] then 0 else SumOfSquares(a[..|a| - 1]) + a[|a| - 1] * a[|a| - 1]
  }

  // Laws of the element-wise operators

  lemma PlusCommutative(a: seq<int>, b: seq<int>)
    requires |a| == |b|
    ensures Plus(a, b) == Plus(b, a)
  {
  }

  lemma PlusAssociative(a: seq<int>, b: seq<int>, c: seq<int>)
    requires |a| == |b| == |c|
    ensures Plus(Plus(a, b), c) == Plus(a, Plus(b, c))
  {
  }

  lemma PlusZero(a: seq<int>)
    ensures Plus(a, Filled(|a|, ZERO)) == a
  {
  }

  lemma MinusSelf(a: seq<int>)
    ensures Minus(a, a) == Filled(|a|, ZERO)
  {
  }

  lemma MinusIsPlusNegated(a: seq<int>, b: seq<int>)
    requires |a| == |b|
    ensures Minus(a, b) == Plus(a, Negated(b))
  {
  }

  lemma NegatedInvolutive(a: seq<int>)
    ensures Negated(Negated(a)) == a
  {
  }

  lemma ScaledDistributes(a: seq<int>, b: seq<int>, s: int)
    requires |a| == |b|
    ensures Scaled(Plus(a, b), s) == Plus(Scaled(a, s), Scaled(b, s))
  {
    forall i | 0 <= i < |a|
      ensures Scaled(Plus(a, b), s)[i] == Plus(Scaled(a, s), Scaled(b, s))[i]
    {
      assert (a[i] + b[i]) * s == a[i] * s + b[i] * s;
    }
  }

  lemma OnesScaledByZero(n: nat)
    ensures Scaled(Filled(n, ONE), ZERO) == Filled(n, ZERO)
  {
  }

  /** Over integers, `(a * s) / s == a` holds exactly for every non-zero `s`. */
  lemma DividedScaled(a: seq<int>, s: int)
    requires s != 0
    ensures Divided(Scaled(a, s), s) == a
  {
    forall i | 0 <= i < |a|
      ensures Divided(Scaled(a, s), s)[i] == a[i]
    {
      TruncDivOfMultiple(a[i], s);
    }
  }

  /** An empty vector divided by zero is the empty vector: no component is
      divided, so nothing panics. */
  lemma DividedEmptyByZero()
    ensures Divided([], ZERO) == []
  {
  }

  // Laws of the sum of squares

  /** The right-to-left reading of the same sum: the first square plus the
      squares of the rest. */
  lemma {:induction false} SumOfSquaresFirst(a: seq<int>)
    requires |a| >= 1
    ensures SumOfSquares(a) == a[0] * a[0] + SumOfSquares(a[1..])
  {
    if |a| > 1 {
      var init := a[..|a| - 1];
      SumOfSquaresFirst(init);
      assert init[1..] == a[1..][..|a[1..]| - 1];
    }
  }

  lemma {:induction false} SumOfSquaresNonNegative(a: seq<int>)
    ensures SumOfSquares(a) >= 0
  {
    if a != [] {
      SumOfSquaresNonNegative(a[..|a| - 1]);
      SquareNonNegative(a[|a| - 1]);
    }
  }

  /** The sum of squares vanishes exactly on the zero vector. */
  lemma {:induction false} SumOfSquaresZeroIff(a: seq<int>)
    ensures SumOfSquares(a) == 0 <==> a == Filled(|a|, ZERO)
  {
    if a != [] {
      var init := a[..|a| - 1];
      var last := a[|a| - 1];
      SumOfSquaresZeroIff(init);
      SumOfSquaresNonNegative(init);
      SquareNonNegative(last);
      assert a == init + [last];
      if last != 0 {
        SquarePositive(last);
      }
    }
  }

  /** Scaling every component by `s` scales the sum of squares by `s * s`. */
  lemma {:induction false} SumOfSquaresScaled(a: seq<int>, s: int)
    ensures SumOfSquares(Scaled(a, s)) == s * s * SumOfSquares(a)
  {
    if a != [] {
      var init := a[..|a| - 1];
      var last := a[|a| - 1];
      SumOfSquaresScaled(init, s);
      assert Scaled(a, s)[..|a| - 1] == Scaled(init, s);
      assert (last * s) * (last * s) == s * s * (last * last);
      assert s * s * SumOfSquares(init) + s * s * (last * last)
          == s * s * (SumOfSquares(init) + last * last);
    }
  }

  /** Negating a vector leaves its sum of squares unchanged. */
  lemma {:induction false} SumOfSquaresNegated(a: seq<int>)
    ensures SumOfSquares(Negated(a)) == SumOfSquares(a)
  {
    if a != [] {
      SumOfSquaresNegated(a[..|a| - 1]);
      assert Negated(a)[..|a| - 1] == Negated(a[..|a| - 1]);
    }
  }

  /** The two-component vector (3, 4) has squared norm 25. */
  lemma SumOfSquaresThreeFour()
    ensures SumOfSquares([3, 4]) == 25
  {
  }

  lemma SquareNonNegative(x: int)
    ensures x * x >= 0
  {
  }

  lemma SquarePositive(x: int)
    requires x != 0
    ensures x * x > 0
  {
    MulMagnitude(x, x);
    SquareNonNegative(x);
  }
}
