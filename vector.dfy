/** The fixed-length vector `Vector<N, T>` at `T = int`. A vector owns a
    buffer of exactly `N` components; `N` is the length of that buffer,
    which is fixed when the vector is made and never changes. The
    compound-assignment operators overwrite the buffer in place, one index
    at a time, and each is proved to leave the components equal to the
    matching function of module `VectorSpec` applied to the old ones. The
    by-value operators copy the left operand (the source's vectors are
    `Copy`) and run the in-place operator on that copy; unary `-`, which
    has no in-place counterpart, negates the copy with its own loop. */
module Vectors {
  import opened NumTraits
  import opened VectorSpec

  class Vector {
    const components: array<int>

    /** The vector's value: its components, in order. */
    function Components(): (r: seq<int>)
      reads components
    {
      components[..]
    }

    /** `Vector::zero()`: `N` components, each `ZERO`. */
    constructor Zero(n: nat)
      ensures fresh(components)
      ensures components.Length == n
      ensures forall i :: 0 <= i < n ==> components[i] == ZERO
      ensures Components() == Filled(n, ZERO)
    {
      components := new int[n](_ => ZERO);
    }

    /** `Vector::ones()`: `N` components, each `ONE`. */
    constructor Ones(n: nat)
      ensures fresh(components)
      ensures components.Length == n
      ensures forall i :: 0 <= i < n ==> components[i] == ONE
      ensures Components() == Filled(n, ONE)
    {
      components := new int[n](_ => ONE);
    }

    /** A vector holding the given components (how the source's struct
        literal and its derived `Copy` make a vector). */
    constructor FromComponents(s: seq<int>)
      ensures fresh(components)
      ensures Components() == s
    {
      components := new int[|s|](i requires 0 <= i < |s| => s[i]);
    }

    /** The copy made when a vector is passed by value. */
    method Copy() returns (r: Vector)
      ensures fresh(r) && fresh(r.components)
      ensures r.Components() == Components()
    {
      r := new Vector.FromComponents(components[..]);
    }

    /** `self += rhs`. The right operand is passed by value in the source,
        so it may be a copy of `self` itself; the components it
        contributes are its components before the call. */
    method AddAssign(rhs: Vector)
      requires rhs.components.Length == components.Length
      modifies components
      ensures Components() == Plus(old(Components()), old(rhs.Components()))
      ensures rhs.components != components ==> rhs.Components() == old(rhs.Components())
    {
      for i := 0 to components.Length
        invariant forall k :: 0 <= k < i ==> components[k] == old(components[k]) + old(rhs.components[k])
        invariant forall k :: i <= k < components.Length ==> components[k] == old(components[k])
        invariant forall k :: i <= k < components.Length ==> rhs.components[k] == old(rhs.components[k])
      {
        components[i] := components[i] + rhs.components[i];
      }
    }

    /** `self -= rhs`, with the same treatment of `rhs` as `AddAssign`. */
    method SubAssign(rhs: Vector)
      requires rhs.components.Length == components.Length
      modifies components
      ensures Components() == Minus(old(Components()), old(rhs.Components()))
      ensures rhs.components != components ==> rhs.Components() == old(rhs.Components())
    {
      for i := 0 to components.Length
        invariant forall k :: 0 <= k < i ==> components[k] == old(components[k]) - old(rhs.components[k])
        invariant forall k :: i <= k < components.Length ==> components[k] == old(components[k])
        invariant forall k :: i <= k < components.Length ==> rhs.components[k] == old(rhs.components[k])
      {
        components[i] := components[i] - rhs.components[i];
      }
    }

    /** `self *= scalar`: every component multiplied by the one scalar. */
    method MulAssign(scalar: int)
      modifies components
      ensures Components() == Scaled(old(Components()), scalar)
    {
      for i := 0 to components.Length
        invariant forall k :: 0 <= k < i ==> components[k] == old(components[k]) * scalar
        invariant forall k :: i <= k < components.Length ==> components[k] == old(components[k])
      {
        components[i] := components[i] * scalar;
      }
    }

    /** `self /= scalar`: every component divided by the one scalar,
        rounding toward zero. The source does not guard the divisor, and
        integer division by zero panics as soon as one component is
        divided, so a zero scalar is excluded unless there is none. */
    method DivAssign(scalar: int)
      requires components.Length > 0 ==> scalar != 0
      modifies components
      ensures Components() == Divided(old(Components()), scalar)
    {
      for i := 0 to components.Length
        invariant forall k :: 0 <= k < i ==> components[k] == TruncDiv(old(components[k]), scalar)
        invariant forall k :: i <= k < components.Length ==> components[k] == old(components[k])
      {
        components[i] := TruncDiv(components[i], scalar);
      }
    }

    /** `self + rhs`: `AddAssign` on a copy of `self`; neither operand changes. */
    method Add(rhs: Vector) returns (r: Vector)
      requires rhs.components.Length == components.Length
      ensures fresh(r) && fresh(r.components)
      ensures r.Components() == Plus(Components(), rhs.Components())
    {
      r := Copy();
      r.AddAssign(rhs);
    }

    /** `self - rhs`: `SubAssign` on a copy of `self`; neither operand changes. */
    method Sub(rhs: Vector) returns (r: Vector)
      requires rhs.components.Length == components.Length
      ensures fresh(r) && fresh(r.components)
      ensures r.Components() == Minus(Components(), rhs.Components())
    {
      r := Copy();
      r.SubAssign(rhs);
    }

    /** `-self`: the copy of `self` has each component negated in place. */
    method Neg() returns (r: Vector)
      ensures fresh(r) && fresh(r.components)
      ensures r.Components() == Negated(Components())
    {
      r := Copy();
      for i := 0 to r.components.Length
        invariant forall k :: 0 <= k < i ==> r.components[k] == -components[k]
        invariant forall k :: i <= k < r.components.Length ==> r.components[k] == components[k]
      {
        r.components[i] := -r.components[i];
      }
    }

    /** `self * scalar`: `MulAssign` on a copy of `self`. */
    method Mul(scalar: int) returns (r: Vector)
      ensures fresh(r) && fresh(r.components)
      ensures r.Components() == Scaled(Components(), scalar)
    {
      r := Copy();
      r.MulAssign(scalar);
    }

    /** `self / scalar`: `DivAssign` on a copy of `self`. */
    method Div(scalar: int) returns (r: Vector)
      requires components.Length > 0 ==> scalar != 0
      ensures fresh(r) && fresh(r.components)
      ensures r.Components() == Divided(Components(), scalar)
    {
      r := Copy();
      r.DivAssign(scalar);
    }

    /** `norm_squared()`: starts from the square of the first component and
        adds the square of each later one, left to right. The source reads
        the first component unconditionally and panics on an empty vector,
        so at least one component is required. The result is the sum of
        squares, hence never negative, and zero only for the zero vector. */
    method NormSquared() returns (acc: int)
      requires components.Length >= 1
      ensures acc == SumOfSquares(Components())
      ensures acc >= 0
      ensures acc == 0 <==> Components() == Filled(components.Length, ZERO)
      ensures components.Length == 1 ==> acc == components[0] * components[0]
    {
      acc := components[0] * components[0];
      assert components[..1][..0] == [];
      for i := 1 to components.Length
        invariant acc == SumOfSquares(components[..i])
      {
        assert components[..i + 1][..i] == components[..i];
        acc := acc + components[i] * components[i];
      }
      assert components[..components.Length] == components[..];
      SumOfSquaresNonNegative(components[..]);
      SumOfSquaresZeroIff(components[..]);
    }
  }
}
