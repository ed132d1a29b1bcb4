# Fixed-length numeric vectors, modelled in Dafny

This project models `Vector<N, T>` from the `vex` crate. It is a struct that wraps an array of exactly `N` components of a numeric type `T`. The model covers:

- its two constructors, `zero()` and `ones()`;
- the element-wise compound-assignment operators `+=`, `-=`, `*= scalar` and `/= scalar`;
- the by-value operators `+`, `-`, unary `-`, `* scalar` and `/ scalar`;
- the `norm_squared` reduction.

The element type is modelled as mathematical `int`. `Zero::ZERO` and `One::ONE` are the constants 0 and 1.

Layout:

- `num_traits.dfy`, module `NumTraits`: the constants `ZERO` and `ONE`, and `TruncDiv`. `TruncDiv` is the integer `/` of the source's element types: it rounds toward zero, unlike Dafny's Euclidean `/`. A helper predicate characterises it by its remainder, which is proved to fix the quotient uniquely.
- `vector_spec.dfy`, module `VectorSpec`: the value of each operation as a function on component sequences (`Filled`, `Plus`, `Minus`, `Negated`, `Scaled`, `Divided`, `SumOfSquares`). It also holds the algebraic laws the operators obey over integers.
- `vector.dfy`, module `Vectors`: class `Vector`, holding a `const components: array<int>`. The array's length is `N`; it is fixed when the vector is made and never changes.
  - The in-place operators loop over the indices and overwrite the buffer, like the source.
  - Each in-place operator is proved to leave `components[..]` equal to the matching `VectorSpec` function of the old components.
  - The by-value operators copy the left operand, because the source's vectors are `Copy`. They then run the in-place operator on the copy, so neither operand changes. Unary `-` has no in-place counterpart: `Neg` negates the copy with its own loop, as the source does.
  - `NormSquared` accumulates from the first component's square, as the source does. It is proved equal to `SumOfSquares`.

Design choices:

- The source passes the right operand of `+=` and `-=` by value. `a += a` is therefore legal, with the right operand being a copy of `a`. `AddAssign` and `SubAssign` are specified against the right operand's components *before* the call. They are verified for the case where that operand shares its buffer with `self`.
- `norm_squared` indexes `components[0]` unconditionally, so it panics when `N == 0` (src/vector.rs:48-49). The model keeps this fail-fast behaviour as the precondition `components.Length >= 1`. It does not return 0 for an empty vector.
- The source does not guard the divisor of `/=` and `/`. Integer division by zero panics as soon as one component is divided, so `DivAssign` and `Div` require a non-zero scalar only when the vector has at least one component. An empty vector divided by zero is returned unchanged, as in the source, whose loop never runs.
- No clock, I/O or randomness appears in this core.

## Model

| member | source | states |
|---|---|---|
| `NumTraits.TruncDiv` | src/vector.rs:157 | the quotient rounds toward zero: the remainder `a - q*b` has the dividend's sign and is smaller than the divisor in magnitude |
| `NumTraits.TruncQuotientUnique` | src/vector.rs:157 | at most one quotient meets that rounding condition, so `TruncDiv` is the integer `/` exactly |
| `NumTraits.TruncDivNegate` | src/vector.rs:157 | negating the dividend negates the quotient (the symmetry of truncation) |
| `NumTraits.TruncDivOfMultiple` | src/vector.rs:157 | `(x * s) / s == x` for every non-zero `s` |
| `NumTraits.TruncDivDiffersFromEuclidean` | src/vector.rs:157 | on `-7 / 2` the source gives `-3` where Dafny's `/` gives `-4` |
| `Vectors.Vector.Zero` | src/vector.rs:25-28 | the new vector has exactly `n` components, each `ZERO` |
| `Vectors.Vector.Ones` | src/vector.rs:36-39 | the new vector has exactly `n` components, each `ONE` |
| `Vectors.Vector.FromComponents` | src/vector.rs:16-19 | a fresh buffer holding exactly the given components |
| `Vectors.Vector.Copy` | src/vector.rs:16-19 | the copy has a fresh buffer with the same components, in order |
| `Vectors.Vector.AddAssign` | src/vector.rs:76-80 | component `i` becomes `old[i] + old(rhs)[i]`; the length stays `N`; a distinct `rhs` is unchanged; this holds also when `rhs` aliases `self` |
| `Vectors.Vector.SubAssign` | src/vector.rs:98-102 | component `i` becomes `old[i] - old(rhs)[i]`; the length stays `N`; a distinct `rhs` is unchanged |
| `Vectors.Vector.MulAssign` | src/vector.rs:133-137 | every component is multiplied by the same scalar |
| `Vectors.Vector.DivAssign` | src/vector.rs:155-159 | every component is divided by the same scalar, rounding toward zero; the scalar must be non-zero only when there is a component to divide |
| `Vectors.Vector.Add` | src/vector.rs:66-69 | a fresh vector holding `AddAssign` applied to a copy of `self`; neither operand changes |
| `Vectors.Vector.Sub` | src/vector.rs:88-91 | a fresh vector holding `SubAssign` applied to a copy of `self`; neither operand changes |
| `Vectors.Vector.Neg` | src/vector.rs:110-115 | a fresh vector with every component negated; `self` is unchanged |
| `Vectors.Vector.Mul` | src/vector.rs:123-126 | a fresh vector holding `MulAssign` applied to a copy of `self`; `self` is unchanged |
| `Vectors.Vector.Div` | src/vector.rs:145-148 | a fresh vector holding `DivAssign` applied to a copy of `self`; `self` is unchanged; an empty vector may be divided by zero |
| `Vectors.Vector.NormSquared` | src/vector.rs:47-54 | the left-to-right accumulation from `c[0]*c[0]` equals the sum of squares; it is non-negative; it is zero exactly for the zero vector; it is `v*v` for one component `v`; it needs `N >= 1` |
| `VectorSpec.PlusCommutative` | src/vector.rs:76-80 | `a + b == b + a` |
| `VectorSpec.PlusAssociative` | src/vector.rs:76-80 | `(a + b) + c == a + (b + c)` |
| `VectorSpec.PlusZero` | src/vector.rs:76-80 | `a + zero() == a` |
| `VectorSpec.MinusSelf` | src/vector.rs:98-102 | `a - a == zero()` |
| `VectorSpec.MinusIsPlusNegated` | src/vector.rs:98-102 | `a - b == a + (-b)` |
| `VectorSpec.NegatedInvolutive` | src/vector.rs:110-115 | `-(-a) == a` |
| `VectorSpec.ScaledDistributes` | src/vector.rs:133-137 | `(a + b) * s == a * s + b * s` |
| `VectorSpec.OnesScaledByZero` | src/vector.rs:36-39 | `ones() * ZERO == zero()` |
| `VectorSpec.DividedScaled` | src/vector.rs:155-159 | `(a * s) / s == a` for every non-zero `s` |
| `VectorSpec.DividedEmptyByZero` | src/vector.rs:155-159 | dividing an empty vector by zero divides no component and gives the empty vector |
| `VectorSpec.SumOfSquaresFirst` | src/vector.rs:49-52 | the left-to-right sum equals the first square plus the sum of squares of the rest |
| `VectorSpec.SumOfSquaresNonNegative` | src/vector.rs:47-54 | the squared norm is never negative |
| `VectorSpec.SumOfSquaresZeroIff` | src/vector.rs:47-54 | the squared norm is zero if and only if every component is `ZERO` |
| `VectorSpec.SumOfSquaresScaled` | src/vector.rs:47-54 | scaling by `s` multiplies the squared norm by `s*s` |
| `VectorSpec.SumOfSquaresNegated` | src/vector.rs:47-54 | negation leaves the squared norm unchanged |
| `VectorSpec.SumOfSquaresThreeFour` | src/vector.rs:47-54 | the squared norm of `(3, 4)` is 25 |

## Left out

- `norm` (src/vector.rs:56-58) and `Scalar::sqrt` (src/num_traits.rs:21, 44-58): these compute a floating-point square root, which the integer model does not have. Only the squared norm is modelled, so the norm of `(3, 4)` is stated as the squared value 25.
- Floating-point elements: rounding, NaN, infinities and signed zero are not modelled. Float vectors are the main real instantiation, and the exact-integer laws above hold for them only up to rounding. This is also why float division by zero is not modelled: it yields an infinity or NaN, where the integer model requires a non-zero divisor when the vector has a component.
- Squared norm over integers: the source offers `norm_squared` only for element types that implement `Scalar`, and `Scalar` is implemented only for `f32` and `f64`. The model states it over integers, as the exact-arithmetic reading of that float computation.
- Machine-integer width: overflow is not modelled. On overflow, `+`, `-`, `*` and unary `-` panic in debug builds and wrap in release builds. Signed `MIN / -1` panics in every build. In all these cases the model, and `TruncDiv` in particular, gives the unbounded integer result.
- Unsigned element types: these have no unary `-`. The integer model stands for the signed types and, apart from negation, for the unsigned ones.
- The trait declarations and macro instantiations in src/num_traits.rs:3-42: these are compile-time capability bounds. Their only runtime content is the constants 0 and 1, modelled as `ZERO` and `ONE`.
- The type aliases `Vector2f`, `Vector3f`, `Vector2d` and `Vector3d` (src/vector.rs:6-14): these are only names.
- The derived `Debug` and `Hash` (src/vector.rs:16): neither has any arithmetic content.
- The derived `PartialEq` and `Eq` (src/vector.rs:16): these are component-wise equality, which is equality of `Components()`.
- The type-level dimension `N`: it is carried as the buffer's length. Binary operators require both buffers to have the same length, a check the source's type system makes at compile time.
