/**
 * `compute_divisor` and `compute_grid`: splitting a count of work units
 * into a three-dimensional grid whose extents multiply to the count.
 */
module Grid {
  import opened Wrappers
  import opened Vectors

  /** `d` divides `x` exactly. For positive `d` the C++ test `x % d == 0`
      and Dafny's agree, whatever the sign of `x`. */
  predicate Divides(d: int, x: int) {
    d != 0 && x % d == 0
  }

  /** Every multiple of a positive `e` is divisible by it. */
  lemma MultipleDivisible(e: int, k: int)
    requires e > 0
    ensures Divides(e, e * k)
  {
    var m := e * k;
    var q, r := m / e, m % e;
    assert m == e * q + r && 0 <= r < e;
    var t := k - q;
    assert e * t == r;
    assert t >= 1 ==> e * t >= e * 1;
    assert t <= -1 ==> e * t <= e * -1;
  }

  lemma DividesTransitive(e: int, d: int, x: int)
    requires e > 0 && d > 0 && Divides(e, d) && Divides(d, x)
    ensures Divides(e, x)
  {
    var m, k := d / e, x / d;
    assert d == e * m && x == d * k;
    MultipleDivisible(e, m * k);
    assert x == e * (m * k);
  }

  predicate IsPrime(p: int) {
    p >= 2 && forall d :: 2 <= d < p ==> !Divides(d, p)
  }

  /** Every extent of a grid is at least 1. */
  predicate Positive(g: Triple) {
    g.x >= 1 && g.y >= 1 && g.z >= 1
  }

  /** `std::sqrt(x)` truncated to `int`: the integer floor square root. */
  function FloorSqrt(x: nat): (r: nat)
    ensures r * r <= x < (r + 1) * (r + 1)
  {
    FloorSqrtAtMost(x, x)
  }

  /** The largest `r <= k` with `r * r <= x`, found by counting down. */
  function FloorSqrtAtMost(x: nat, k: nat): (r: nat)
    requires x < (k + 1) * (k + 1)
    ensures r <= k && r * r <= x < (r + 1) * (r + 1)
    decreases k
  {
    if k * k <= x then k else FloorSqrtAtMost(x, k - 1)
  }

  lemma MulMonotone(a: nat, b: nat)
    ensures a <= b ==> a * a <= b * b
  {
    if a <= b {
      assert a * a <= a * b <= b * b;
    }
  }

  lemma ProductAtLeast(m: nat, a: nat, b: nat)
    ensures m <= a && m <= b ==> m * m <= a * b
  {
    if m <= a && m <= b {
      assert m * m <= m * b <= a * b;
    }
  }

  /** The floor square root is the only `r` with `r * r <= x < (r + 1) * (r + 1)`. */
  lemma FloorSqrtUnique(x: nat, r: nat)
    requires r * r <= x < (r + 1) * (r + 1)
    ensures FloorSqrt(x) == r
  {
    var s := FloorSqrt(x);
    if s < r {
      MulMonotone(s + 1, r);
    } else if r < s {
      MulMonotone(r + 1, s);
    }
  }

  /** The smallest `i` in `lo..hi` that divides `x`, if any. */
  function SmallestDivisorFrom(x: nat, lo: int, hi: int): (r: Option<int>)
    requires 2 <= lo
    ensures r.Some? ==> lo <= r.value <= hi && Divides(r.value, x)
    ensures r.Some? ==> forall j :: lo <= j < r.value ==> !Divides(j, x)
    ensures r.None? ==> forall j :: lo <= j <= hi ==> !Divides(j, x)
    decreases hi - lo
  {
    if hi < lo then None
    else if Divides(lo, x) then Some(lo)
    else SmallestDivisorFrom(x, lo + 1, hi)
  }

  /** What `compute_divisor(x, d)` finds: the smallest divisor of `x` in
      `2..floor(sqrt(x))`, or nothing. */
  function SmallestDivisor(x: nat): (r: Option<int>)
    ensures r.Some? ==> 2 <= r.value <= FloorSqrt(x) && Divides(r.value, x)
    ensures r.Some? ==> forall j :: 2 <= j < r.value ==> !Divides(j, x)
    ensures r.None? ==> forall j :: 2 <= j <= FloorSqrt(x) ==> !Divides(j, x)
  {
    SmallestDivisorFrom(x, 2, FloorSqrt(x))
  }

  /** The search result is determined by its defining property. */
  lemma SmallestDivisorExactly(x: nat, d: Option<int>)
    requires d.Some? ==> 2 <= d.value <= FloorSqrt(x) && Divides(d.value, x)
    requires d.Some? ==> forall j :: 2 <= j < d.value ==> !Divides(j, x)
    requires d.None? ==> forall j :: 2 <= j <= FloorSqrt(x) ==> !Divides(j, x)
    ensures SmallestDivisor(x) == d
  {
  }

  /** `compute_divisor`: searches `2..floor(sqrt(x))` upward and stops at the
      first divisor, storing it; when there is none the out-parameter keeps
      the value it came in with. */
  method ComputeDivisor(x: int, divisor: int) returns (found: bool, divisor': int)
    requires x >= 0
    ensures found ==> 2 <= divisor' <= FloorSqrt(x) && Divides(divisor', x)
    ensures found ==> forall i :: 2 <= i < divisor' ==> !Divides(i, x)
    ensures !found ==> divisor' == divisor
    ensures !found ==> forall i :: 2 <= i <= FloorSqrt(x) ==> !Divides(i, x)
    ensures SmallestDivisor(x) == if found then Some(divisor') else None
  {
    var upperBound := FloorSqrt(x);
    var i := 2;
    while i <= upperBound
      invariant 2 <= i && (i <= upperBound + 1 || upperBound < 2)
      invariant forall j :: 2 <= j < i ==> !Divides(j, x)
    {
      if x % i == 0 {
        SmallestDivisorExactly(x, Some(i));
        return true, i;
      }
      i := i + 1;
    }
    SmallestDivisorExactly(x, None);
    return false, divisor;
  }

  /** The steps of `compute_grid` from remaining value `n`, partial grid `g`
      and axis cursor `axis`: peel off the smallest divisor into the current
      axis and move the cursor on, until there is none; then multiply what
      remains, unless it is 1, into the current axis. */
  function GridFrom(n: int, g: Triple, axis: Axis): Triple
    requires n >= 1
    decreases n
  {
    match SmallestDivisor(n)
    case Some(d) =>
      DivisorBounds(n, d);
      GridFrom(n / d, g.With(axis, g.Component(axis) * d), (axis + 1) % 3)
    case None =>
      if n != 1 then g.With(axis, g.Component(axis) * n) else g
  }

  /** The grid `compute_grid(num)` returns. */
  function GridOf(num: int): Triple
    requires num >= 1
  {
    GridFrom(num, Triple(1, 1, 1), 0)
  }

  /** A divisor at most the square root leaves a quotient at least 1 and at
      most half the value divided. */
  lemma DivisorBounds(n: int, d: int)
    requires n >= 1 && 2 <= d <= FloorSqrt(n) && Divides(d, n)
    ensures 1 <= n / d < n && (n / d) * d == n
    ensures 2 * (n / d) <= n
  {
    AtMostSqrt(n, d);
    QuotientBounds(n, d);
  }

  lemma AtMostSqrt(n: nat, d: int)
    requires 1 <= d <= FloorSqrt(n)
    ensures d <= n
  {
    MulMonotone(d, FloorSqrt(n));
    assert d * 1 <= d * d;
  }

  lemma QuotientBounds(n: int, d: int)
    requires 2 <= d <= n && n % d == 0
    ensures 1 <= n / d < n && (n / d) * d == n
    ensures 2 * (n / d) <= n
  {
    var q := n / d;
    assert n == q * d;
    assert q * d >= q * 2;
  }

  /** Multiplying one extent by `d` multiplies the product by `d`. */
  lemma ProductWith(g: Triple, axis: Axis, d: int)
    ensures g.With(axis, g.Component(axis) * d).Product() == g.Product() * d
  {
    var x, y, z := g.x, g.y, g.z;
    if axis == 0 {
      assert (x * d) * y * z == (x * y * z) * d;
    } else if axis == 1 {
      assert x * (y * d) * z == (x * y * z) * d;
    } else {
      assert x * y * (z * d) == (x * y * z) * d;
    }
  }

  /** Multiplying one extent by a positive factor keeps every extent positive. */
  lemma PositiveWith(g: Triple, axis: Axis, d: int)
    requires Positive(g) && d >= 1
    ensures Positive(g.With(axis, g.Component(axis) * d))
  {
    var c := g.Component(axis);
    assert c * d >= c * 1;
  }

  /** The steps from any state multiply the remaining value into the grid:
      the product of the result is the product so far times `n`, and
      positive extents stay positive. */
  lemma {:induction false} GridFromProduct(n: int, g: Triple, axis: Axis)
    requires n >= 1
    ensures GridFrom(n, g, axis).Product() == g.Product() * n
    ensures Positive(g) ==> Positive(GridFrom(n, g, axis))
  {
    match SmallestDivisor(n)
    case Some(d) =>
      DivisorBounds(n, d);
      var q, g', axis' := n / d, g.With(axis, g.Component(axis) * d), (axis + 1) % 3;
      assert GridFrom(n, g, axis) == GridFrom(q, g', axis');
      GridFromProduct(q, g', axis');
      ProductWith(g, axis, d);
      MulAssociates(g.Product(), d, q);
      if Positive(g) {
        PositiveWith(g, axis, d);
      }
    case None =>
      if n != 1 {
        ProductWith(g, axis, n);
        if Positive(g) {
          PositiveWith(g, axis, n);
        }
      }
  }

  lemma MulAssociates(a: int, b: int, c: int)
    ensures (a * b) * c == a * (b * c)
  {
  }

  /** For every `num >= 1` the grid's extents are all at least 1 and
      multiply to `num`. */
  lemma GridProduct(num: int)
    requires num >= 1
    ensures GridOf(num).Product() == num
    ensures Positive(GridOf(num))
  {
    GridFromProduct(num, Triple(1, 1, 1), 0);
  }

  /** `compute_grid`: starts from grid (1, 1, 1) with the cursor on axis 0,
      and every write through `grid[axis]` is at an index in 0..2, so none
      of them throws. */
  method ComputeGrid(num: int) returns (result: Triple)
    requires num >= 1
    ensures result == GridOf(num)
    ensures result.Product() == num
    ensures Positive(result)
  {
    var grid := new Vec3(1);
    var axis := 0;
    var divisor := 0;
    var n := num;
    var found;
    found, divisor := ComputeDivisor(n, divisor);
    while found
      invariant 0 <= axis < 3
      invariant n >= 1
      invariant grid.Value().Product() * n == num
      invariant Positive(grid.Value())
      invariant SmallestDivisor(n) == if found then Some(divisor) else None
      invariant GridFrom(n, grid.Value(), axis) == GridOf(num)
      decreases n
    {
      ghost var g0, n0, axis0 := grid.Value(), n, axis;
      DivisorBounds(n, divisor);
      var current := grid.Get(axis);
      var written := grid.Set(axis, current.value * divisor);
      assert written == Pass;
      n := n / divisor;
      axis := (axis + 1) % 3;
      ProductWith(g0, axis0, divisor);
      PositiveWith(g0, axis0, divisor);
      MulAssociates(g0.Product(), divisor, n);
      assert GridFrom(n0, g0, axis0) == GridFrom(n, grid.Value(), axis);
      found, divisor := ComputeDivisor(n, divisor);
    }
    if n != 1 {
      var current := grid.Get(axis);
      var written := grid.Set(axis, current.value * n);
      assert written == Pass;
    }
    result := grid.Value();
    GridProduct(num);
  }

  lemma SqrtBelow(x: nat)
    requires x >= 2
    ensures FloorSqrt(x) < x
  {
    MulMonotone(x, FloorSqrt(x));
    SquareExceeds(x);
  }

  lemma SquareExceeds(x: int)
    requires x >= 2
    ensures x * x > x
  {
    assert x * x >= x * 2;
  }

  /** A composite value has a factor on each side of its square root. */
  lemma CompositeHasSmallDivisor(x: nat, d: int)
    requires 2 <= d < x && Divides(d, x)
    ensures SmallestDivisor(x).Some?
  {
    var e := x / d;
    assert x == d * e;
    assert e >= 2 by {
      assert e >= 1 ==> d * e >= d;
      assert e <= 0 ==> d * e <= 0;
      assert e == 1 ==> d * e == d;
    }
    MultipleDivisible(e, d);
    assert x == e * d;
    var r := FloorSqrt(x);
    ProductAtLeast(r + 1, d, e);
    assert d <= r || e <= r;
  }

  /** No divisor up to the square root exactly when the value is prime. So
      the value `compute_grid` has left when the search fails is 1 or a prime. */
  lemma SmallestDivisorNoneIffPrime(x: nat)
    requires x >= 2
    ensures SmallestDivisor(x).None? <==> IsPrime(x)
  {
    if IsPrime(x) {
      SqrtBelow(x);
    } else {
      var d :| 2 <= d < x && Divides(d, x);
      CompositeHasSmallDivisor(x, d);
    }
  }

  /** The divisor `compute_divisor` finds is prime, since a smaller factor of
      it would be a smaller divisor of the value. */
  lemma SmallestDivisorIsPrime(x: nat)
    requires SmallestDivisor(x).Some?
    ensures IsPrime(SmallestDivisor(x).value)
  {
    var d := SmallestDivisor(x).value;
    forall e | 2 <= e < d
      ensures !Divides(e, d)
    {
      if Divides(e, d) {
        DividesTransitive(e, d, x);
      }
    }
  }

  /** Factors are peeled off in non-decreasing order: the next divisor found
      is at least the one just taken. */
  lemma FactorsNonDecreasing(n: nat, d: int)
    requires n >= 1 && SmallestDivisor(n) == Some(d)
    ensures SmallestDivisor(n / d).Some? ==> d <= SmallestDivisor(n / d).value
  {
    DivisorBounds(n, d);
    var next := SmallestDivisor(n / d);
    if next.Some? {
      var e := next.value;
      MultipleDivisible(n / d, d);
      assert Divides(n / d, n);
      DividesTransitive(e, n / d, n);
    }
  }

  lemma GridOfOne()
    ensures GridOf(1) == Triple(1, 1, 1)
  {
    FloorSqrtUnique(1, 1);
  }

  /** A prime is assigned whole to axis 0. */
  lemma GridOfPrime(p: int)
    requires IsPrime(p)
    ensures GridOf(p) == Triple(p, 1, 1)
  {
    SmallestDivisorNoneIffPrime(p);
  }

  lemma GridOfThirteen()
    ensures GridOf(13) == Triple(13, 1, 1)
  {
    assert IsPrime(13) by {
      forall d | 2 <= d < 13
        ensures !Divides(d, 13)
      {
        assert d == 2 || d == 3 || d == 4 || d == 5 || d == 6 || d == 7 || d == 8 || d == 9 || d == 10 || d == 11 || d == 12;
      }
    }
    GridOfPrime(13);
  }

  /** 8 = 2 * 2 * 2, one factor per axis. */
  lemma GridOfEight()
    ensures GridOf(8) == Triple(2, 2, 2)
  {
    FloorSqrtUnique(8, 2);
    FloorSqrtUnique(4, 2);
    FloorSqrtUnique(2, 1);
    assert GridFrom(8, Triple(1, 1, 1), 0) == GridFrom(4, Triple(2, 1, 1), 1);
    assert GridFrom(4, Triple(2, 1, 1), 1) == GridFrom(2, Triple(2, 2, 1), 2);
  }

  /** 12: factors 2 and 2 go to axes 0 and 1; the remaining 3 joins axis 2. */
  lemma GridOfTwelve()
    ensures GridOf(12) == Triple(2, 2, 3)
  {
    FloorSqrtUnique(12, 3);
    FloorSqrtUnique(6, 2);
    FloorSqrtUnique(3, 1);
    assert GridFrom(12, Triple(1, 1, 1), 0) == GridFrom(6, Triple(2, 1, 1), 1);
    assert GridFrom(6, Triple(2, 1, 1), 1) == GridFrom(3, Triple(2, 2, 1), 2);
  }

  /** 30: factors 2 and 3 go to axes 0 and 1; the remaining 5 joins axis 2. */
  lemma GridOfThirty()
    ensures GridOf(30) == Triple(2, 3, 5)
  {
    FloorSqrtUnique(30, 5);
    FloorSqrtUnique(15, 3);
    FloorSqrtUnique(5, 2);
    assert GridFrom(30, Triple(1, 1, 1), 0) == GridFrom(15, Triple(2, 1, 1), 1);
    assert GridFrom(15, Triple(2, 1, 1), 1) == GridFrom(5, Triple(2, 3, 1), 2);
  }
}
