/**
 * C++ integer division and remainder. Both truncate toward zero, whereas
 * Dafny's `/` and `%` are Euclidean; the two agree when both operands are
 * non-negative.
 */
module IntDiv {

  function Abs(a: int): nat {
    if a < 0 then -a else a
  }

  /** `a / b` in C++: the quotient of the magnitudes, rounded down, carrying
      the sign of the exact quotient; so it is rounded toward zero. */
  function Quot(a: int, b: int): (q: int)
    requires b != 0
    ensures Abs(q) == Abs(a) / Abs(b)
    ensures q > 0 ==> (a > 0) == (b > 0)
    ensures q < 0 ==> (a > 0) != (b > 0)
  {
    var m := Abs(a) / Abs(b);
    assert a == 0 ==> m == 0;
    if (a >= 0) == (b > 0) then m else -m
  }

  /** `a % b` in C++: the remainder takes the sign of the dividend. */
  function Rem(a: int, b: int): (r: int)
    requires b != 0
    ensures Abs(r) < Abs(b)
    ensures a >= 0 ==> r >= 0
    ensures a < 0 ==> r <= 0
  {
    if a >= 0 then Abs(a) % Abs(b) else -(Abs(a) % Abs(b))
  }

  /** The identity C++ guarantees, `(a / b) * b + a % b == a`, with the
      remainder smaller than the divisor and signed like the dividend. */
  lemma QuotRem(a: int, b: int)
    requires b != 0
    ensures Quot(a, b) * b + Rem(a, b) == a
    ensures Abs(Rem(a, b)) < Abs(b)
    ensures a >= 0 ==> Rem(a, b) >= 0
    ensures a < 0 ==> Rem(a, b) <= 0
  {
    var q, m := Abs(a) / Abs(b), Abs(b);
    assert Abs(a) == q * m + Abs(a) % m;
    SignedProducts(q, m);
  }

  lemma SignedProducts(q: int, m: int)
    ensures (-q) * (-m) == q * m
    ensures (-q) * m == -(q * m)
    ensures q * (-m) == -(q * m)
  {
  }

  /** On non-negative operands the C++ operators are Dafny's. */
  lemma QuotRemNonNegative(a: int, b: int)
    requires a >= 0 && b > 0
    ensures Quot(a, b) == a / b && Rem(a, b) == a % b
  {
  }

  /** Dividing an exact multiple gives the factor back, with no remainder. */
  lemma QuotOfMultiple(a: int, s: int)
    requires s != 0
    ensures Quot(a * s, s) == a && Rem(a * s, s) == 0
  {
    QuotRem(a * s, s);
    var q, r := Quot(a * s, s), Rem(a * s, s);
    assert (q - a) * s == -r;
    if q != a {
      assert Abs((q - a) * s) >= Abs(s) by {
        AbsProduct(q - a, s);
      }
      assert false;
    }
  }

  lemma AbsProduct(m: int, s: int)
    requires m != 0
    ensures Abs(m * s) >= Abs(s)
  {
    if m > 0 {
      if s >= 0 { assert m * s >= s; } else { assert m * s <= s; }
    } else {
      if s >= 0 { assert m * s <= -s; } else { assert m * s >= -s; }
    }
  }
}
