# vec3 and grid factorisation, modelled in Dafny

This project models the header `vec.h`. It holds a small three-component
vector type, `vec3<T>`, and two helpers. `compute_divisor` finds the smallest
divisor of an integer up to its square root. `compute_grid` uses it to split a
count of work units into a grid `(gx, gy, gz)` with `gx * gy * gz` equal to
the count. It peels off smallest divisors and assigns them to the axes in
turn, 0, 1, 2, 0, and so on.

Only the integer instantiation `vec3<int>` is modelled. It has two forms:

- `Vectors.Triple` is the value a `vec3<int>` holds. The free operators
  `* / + - %`, the scalar `*` on either side and the scalar `/` are
  functions on it.
- `Vectors.Vec3` is the struct itself, a class with fields `x`, `y`, `z`. Its
  constructors, its compound operators `+= -= *= /=` and its indexing
  operators work on the object. The const `operator[]` is the function
  `Get`. A write through the mutable `operator[]` is the method `Set`. A bad
  index gives an explicit failure carrying the message "Invalid index"
  instead of an exception.

C++ `/` and `%` on `int` truncate toward zero. Dafny's are Euclidean, so
`IntDiv.Quot` and `IntDiv.Rem` define the C++ operators explicitly.
`IntDiv.QuotRem` proves `(a / b) * b + a % b == a` for them.

`Grid.ComputeDivisor` is the counting loop of `compute_divisor`.
`Grid.ComputeGrid` is the loop of `compute_grid`. It updates a local
`Vec3` through `Get` and `Set`, and then returns its value. Both methods are
proved against specification functions. `Grid.SmallestDivisor` specifies
the search. `Grid.GridFrom` specifies the steps of the loop, and `Grid.GridOf` the grid it returns.
Lemmas about these functions prove the following:

- the product of the grid equals the input;
- every extent is at least 1;
- every divisor found is prime, and the one left at the end is 1 or prime;
- the factors are taken in non-decreasing order;
- the concrete grids for 1, 8, 12, 13, 30 and any prime are as expected.

The loop of `ComputeGrid` keeps two facts as invariants: the axis cursor
stays in 0..2, so no `grid[axis]` access fails; and `gx * gy * gz * num`
stays equal to the input. Its `decreases num` clause proves that `num`
strictly decreases; `Grid.DivisorBounds` shows it at least halves.

## Model

| member | source | states |
|---|---|---|
| `IntDiv.Quot` | vec.h:80-83 | C++ integer `/` (used at lines 54, 82, 107 and 132): the magnitude of the quotient is the magnitude of the dividend divided by that of the divisor, rounded down, and a nonzero quotient is positive exactly when the operands have the same sign, so it rounds toward zero |
| `IntDiv.Rem` | vec.h:92-95 | C++ integer `%` (used at lines 94 and 118): the remainder is smaller than the divisor in magnitude and never has the opposite sign to the dividend |
| `IntDiv.QuotRem` | vec.h:80-95 | C++ truncating quotient and remainder satisfy `(a / b) * b + a % b == a`; the remainder is smaller than the divisor in magnitude and has the dividend's sign |
| `IntDiv.QuotRemNonNegative` | vec.h:115-139 | for a non-negative dividend and a positive divisor, the C++ operators agree with Dafny's, as in `x % i` and `num /= divisor` |
| `IntDiv.QuotOfMultiple` | vec.h:105-108 | dividing `a * s` by a nonzero `s` gives back `a` with remainder 0 |
| `Vectors.Triple.With` | vec.h:66-73 | replacing component `i` sets that component to the new value and leaves the other two as they were |
| `Vectors.Mul` | vec.h:76-79 | each component of `a * b` is the product of the matching components |
| `Vectors.Div` | vec.h:80-83 | each component of `a / b` is the C++ truncating quotient of the matching components, for divisors with no zero component |
| `Vectors.Add` | vec.h:84-87 | each component of `a + b` is the sum of the matching components |
| `Vectors.Sub` | vec.h:88-91 | each component of `a - b` is the difference of the matching components |
| `Vectors.Mod` | vec.h:92-95 | each component of `a % b` is the C++ remainder of the matching components, for divisors with no zero component |
| `Vectors.Scale` | vec.h:97-100 | each component of `a * s` is that component times `s` |
| `Vectors.ScaleLeft` | vec.h:101-104 | each component of `s * a` is that component times `s` |
| `Vectors.DivScalar` | vec.h:105-108 | each component of `a / s` is the C++ quotient of that component by `s` |
| `Vectors.ScaleEitherSide` | vec.h:97-104 | `s * a == a * s`, and both equal the elementwise product with the broadcast vector `(s, s, s)` |
| `Vectors.DivScalarIsBroadcast` | vec.h:105-108 | `a / s` equals elementwise division by `(s, s, s)`: every component is divided by the same scalar |
| `Vectors.SubUndoesAdd` | vec.h:84-91 | `(u + v) - v == u` and `(u - v) + v == u` |
| `Vectors.DivUndoesScale` | vec.h:97-108 | `(u * s) / s == u` exactly for every nonzero integer `s` |
| `Vectors.DivUndoesMul` | vec.h:76-83 | `(u * v) / v == u` and `(u * v) % v == (0, 0, 0)` when `v` has no zero component |
| `Vectors.DivModIdentity` | vec.h:80-95 | `(a / b) * b + a % b == a` holds elementwise for the vector operators |
| `Vectors.Vec3.constructor` | vec.h:29 | `vec3(s)` holds `(s, s, s)`; with the argument omitted it holds `(0, 0, 0)` |
| `Vectors.Vec3.Of` | vec.h:30 | `vec3(a, b, c)` holds `(a, b, c)` |
| `Vectors.Vec3.AddInPlace` | vec.h:33-38 | after `+=` the receiver holds `old receiver + a`, the receiver is returned, and a distinct argument is unchanged |
| `Vectors.Vec3.SubInPlace` | vec.h:39-44 | after `-=` the receiver holds `old receiver - a`, the receiver is returned, and a distinct argument is unchanged |
| `Vectors.Vec3.MulInPlace` | vec.h:45-50 | after `*=` the receiver holds `old receiver * a`, the receiver is returned, and a distinct argument is unchanged |
| `Vectors.Vec3.DivInPlace` | vec.h:51-56 | after `/=` the receiver holds `old receiver / a`, the receiver is returned, and a distinct argument is unchanged |
| `Vectors.Vec3.Get` | vec.h:58-65 | index 0, 1 or 2 succeeds with `x`, `y` or `z`; every other index fails with "Invalid index" |
| `Vectors.Vec3.Set` | vec.h:66-73 | index 0, 1 or 2 succeeds and stores the value into that field only; every other index fails with "Invalid index" and changes nothing |
| `Grid.FloorSqrt` | vec.h:116 | the bound `r` of the divisor search is the integer square root: `r * r <= x < (r + 1) * (r + 1)` |
| `Grid.FloorSqrtUnique` | vec.h:116 | that bound is the only such `r`, which fixes its value for concrete inputs |
| `Grid.SmallestDivisorFrom` | vec.h:117-122 | the upward search from `lo` to `hi`: a result lies in that range, divides `x`, and nothing between `lo` and it divides `x`; no result means nothing in the range divides `x` |
| `Grid.SmallestDivisor` | vec.h:115-124 | a result `d` lies in `2..floor(sqrt(x))`, divides `x`, and no smaller `i >= 2` divides `x`; no result means nothing in that range divides `x` |
| `Grid.SmallestDivisorExactly` | vec.h:115-124 | those properties determine the search result uniquely |
| `Grid.ComputeDivisor` | vec.h:115-124 | returns true exactly when some `i` in `2..floor(sqrt(x))` divides `x`; then the out-parameter is the smallest such `i`; otherwise it is left unchanged |
| `Grid.DivisorBounds` | vec.h:130-133 | after dividing by a found divisor, `num` stays at least 1, is at most half its old value, and times the divisor gives the old value back |
| `Grid.GridFrom` | vec.h:130-137 | the remaining steps of the loop from a state `(num, grid, axis)`: multiply the smallest divisor into the current axis, divide `num` by it and advance the axis mod 3 while a divisor is found; then multiply `num` into the current axis unless it is 1; its properties are stated by `Grid.GridFromProduct` |
| `Grid.GridOf` | vec.h:126-139 | the grid `compute_grid(num)` returns: the loop's steps from `(num, (1, 1, 1), 0)`; its properties are stated by `Grid.GridProduct` and the concrete cases |
| `Grid.GridFromProduct` | vec.h:130-137 | from any loop state, the final grid's product is the current product times the remaining `num`, and positive extents stay positive |
| `Grid.GridProduct` | vec.h:126-139 | for every `num >= 1` the grid's extents are all at least 1 and multiply to `num` |
| `Grid.ComputeGrid` | vec.h:126-139 | returns `GridOf(num)`, with product `num` and all extents at least 1; every `grid[axis]` access in it succeeds |
| `Grid.SmallestDivisorNoneIffPrime` | vec.h:130-136 | for `x >= 2` the search fails exactly when `x` is prime, so the value left after the loop is 1 or a prime |
| `Grid.SmallestDivisorIsPrime` | vec.h:117-120 | the divisor found is always prime |
| `Grid.FactorsNonDecreasing` | vec.h:130-133 | the next divisor found is never smaller than the one just taken |
| `Grid.GridOfOne` | vec.h:126-139 | `compute_grid(1) == (1, 1, 1)` |
| `Grid.GridOfPrime` | vec.h:126-139 | a prime `p` gives `(p, 1, 1)` |
| `Grid.GridOfThirteen` | vec.h:126-139 | `compute_grid(13) == (13, 1, 1)` |
| `Grid.GridOfEight` | vec.h:126-139 | `compute_grid(8) == (2, 2, 2)` |
| `Grid.GridOfTwelve` | vec.h:126-139 | `compute_grid(12) == (2, 2, 3)` |
| `Grid.GridOfThirty` | vec.h:126-139 | `compute_grid(30) == (2, 3, 5)` |

## Left out

- Floating-point instantiations of `vec3<T>` are not modelled; only `int` is.
- The converting constructor `vec3(const vec3<B>&)` (vec.h:31-32) is not modelled. Its use is conversion between numeric types, and only one type is modelled.
- `operator<<` (vec.h:110-113) is not modelled. It is stream output for diagnostics.
- Machine-integer overflow is not modelled; integers are unbounded. `compute_grid` cannot overflow anyway, since its grid's product never exceeds the input.
- `Grid.FloorSqrt`: `std::sqrt` is a floating-point call. It is modelled as the exact integer floor square root, which is what truncating the double gives for every positive 32-bit `int`.
- `Grid.ComputeDivisor` requires `x >= 0`. For a negative `x`, `std::sqrt` gives NaN, and converting NaN to `int` is undefined behaviour.
- `Grid.ComputeGrid` requires `num >= 1`. The code's behaviour for `num <= 0` is outside its contract.
- `Vectors.Div`, `Vectors.Mod`, `Vectors.DivScalar` and `Vectors.Vec3.DivInPlace` require nonzero divisors. Integer division by zero is undefined behaviour in C++, and the model does not give it a meaning.
- `Vectors.Vec3.Get` and `Vectors.Vec3.Set` take the index as a `nat`, because `size_t` cannot be negative. Wrap-around of a negative argument converted to `size_t` is not modelled; such an index is out of range and throws anyway.
- The mutable `operator[]` returns a reference to a field. The model splits each use of it, such as `grid[axis] *= divisor`, into a `Get` followed by a `Set`. A reference that outlives the call is not modelled.
- The compound operators return `*this` by reference. The model returns the receiver object itself.
