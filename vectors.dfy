/**
 * The integer instantiation `vec3<int>`: its value as the datatype `Triple`,
 * the free operators as functions on values, and the struct itself as the
 * class `Vec3`, whose compound operators and mutable indexing update its
 * fields in place.
 */
module Vectors {
  import opened Wrappers
  import opened IntDiv

  /** The message of the exception `operator[]` throws. */
  const InvalidIndex := "Invalid index"

  /** The indices `operator[]` accepts. */
  type Axis = i: int | 0 <= i < 3

  /** The value held by a `vec3<int>`. */
  datatype Triple = Triple(x: int, y: int, z: int) {

    /** Component 0, 1 or 2 is `x`, `y` or `z`. */
    function Component(i: Axis): int {
      if i == 0 then x else if i == 1 then y else z
    }

    /** This value with component `i` replaced by `v`. */
    function With(i: Axis, v: int): (r: Triple)
      ensures r.Component(i) == v
      ensures forall j: Axis :: j != i ==> r.Component(j) == Component(j)
    {
      if i == 0 then Triple(v, y, z) else if i == 1 then Triple(x, v, z) else Triple(x, y, v)
    }

    function Product(): int {
      x * y * z
    }
  }

  /** No component is zero, so dividing by this value is defined. */
  predicate NonZero(b: Triple) {
    b.x != 0 && b.y != 0 && b.z != 0
  }

  /** `a * b`: elementwise product. */
  function Mul(a: Triple, b: Triple): (r: Triple)
    ensures forall i: Axis :: r.Component(i) == a.Component(i) * b.Component(i)
  {
    Triple(a.x * b.x, a.y * b.y, a.z * b.z)
  }

  /** `a / b`: elementwise C++ quotient. */
  function Div(a: Triple, b: Triple): (r: Triple)
    requires NonZero(b)
    ensures forall i: Axis :: r.Component(i) == Quot(a.Component(i), b.Component(i))
  {
    Triple(Quot(a.x, b.x), Quot(a.y, b.y), Quot(a.z, b.z))
  }

  /** `a + b`: elementwise sum. */
  function Add(a: Triple, b: Triple): (r: Triple)
    ensures forall i: Axis :: r.Component(i) == a.Component(i) + b.Component(i)
  {
    Triple(a.x + b.x, a.y + b.y, a.z + b.z)
  }

  /** `a - b`: elementwise difference. */
  function Sub(a: Triple, b: Triple): (r: Triple)
    ensures forall i: Axis :: r.Component(i) == a.Component(i) - b.Component(i)
  {
    Triple(a.x - b.x, a.y - b.y, a.z - b.z)
  }

  /** `a % b`: elementwise C++ remainder. */
  function Mod(a: Triple, b: Triple): (r: Triple)
    requires NonZero(b)
    ensures forall i: Axis :: r.Component(i) == Rem(a.Component(i), b.Component(i))
  {
    Triple(Rem(a.x, b.x), Rem(a.y, b.y), Rem(a.z, b.z))
  }

  /** `a * s`: every component times the scalar. */
  function Scale(a: Triple, s: int): (r: Triple)
    ensures forall i: Axis :: r.Component(i) == a.Component(i) * s
  {
    Triple(a.x * s, a.y * s, a.z * s)
  }

  /** `s * a`: the scalar on the left. */
  function ScaleLeft(s: int, a: Triple): (r: Triple)
    ensures forall i: Axis :: r.Component(i) == a.Component(i) * s
  {
    Triple(a.x * s, a.y * s, a.z * s)
  }

  /** `a / s`: every component divided by the scalar. */
  function DivScalar(a: Triple, s: int): (r: Triple)
    requires s != 0
    ensures forall i: Axis :: r.Component(i) == Quot(a.Component(i), s)
  {
    Triple(Quot(a.x, s), Quot(a.y, s), Quot(a.z, s))
  }

  /** The scalar gives the same vector on either side, and scaling is
      elementwise multiplication by the broadcast scalar. */
  lemma ScaleEitherSide(a: Triple, s: int)
    ensures ScaleLeft(s, a) == Scale(a, s)
    ensures Scale(a, s) == Mul(a, Triple(s, s, s))
  {
  }

  /** Scalar division is elementwise division by the broadcast scalar. */
  lemma DivScalarIsBroadcast(a: Triple, s: int)
    requires s != 0
    ensures DivScalar(a, s) == Div(a, Triple(s, s, s))
  {
  }

  /** Subtraction undoes addition. */
  lemma SubUndoesAdd(u: Triple, v: Triple)
    ensures Sub(Add(u, v), v) == u
    ensures Add(Sub(u, v), v) == u
  {
  }

  /** Integer division undoes scaling by a nonzero scalar exactly. */
  lemma DivUndoesScale(u: Triple, s: int)
    requires s != 0
    ensures DivScalar(Scale(u, s), s) == u
  {
    QuotOfMultiple(u.x, s);
    QuotOfMultiple(u.y, s);
    QuotOfMultiple(u.z, s);
  }

  /** Elementwise division undoes elementwise multiplication. */
  lemma DivUndoesMul(u: Triple, v: Triple)
    requires NonZero(v)
    ensures Div(Mul(u, v), v) == u
    ensures Mod(Mul(u, v), v) == Triple(0, 0, 0)
  {
    QuotOfMultiple(u.x, v.x);
    QuotOfMultiple(u.y, v.y);
    QuotOfMultiple(u.z, v.z);
  }

  /** `(a / b) * b + a % b == a`, component by component. */
  lemma DivModIdentity(a: Triple, b: Triple)
    requires NonZero(b)
    ensures Add(Mul(Div(a, b), b), Mod(a, b)) == a
  {
    QuotRem(a.x, b.x);
    QuotRem(a.y, b.y);
    QuotRem(a.z, b.z);
  }

  /** The struct `vec3<int>`: three fields updated in place. */
  class Vec3 {
    var x: int
    var y: int
    var z: int

    /** The value the fields currently hold. */
    function Value(): Triple
      reads this
    {
      Triple(x, y, z)
    }

    /** `vec3(s)`: the scalar broadcast to all three fields; `vec3()` is (0, 0, 0). */
    constructor (s: int := 0)
      ensures Value() == Triple(s, s, s)
    {
      x, y, z := s, s, s;
    }

    /** `vec3(a, b, c)`: the three fields as given. */
    constructor Of(a: int, b: int, c: int)
      ensures Value() == Triple(a, b, c)
    {
      x, y, z := a, b, c;
    }

    /** `+=`: the receiver becomes `old + a` and is returned. `a` may be the receiver itself. */
    method AddInPlace(a: Vec3) returns (self: Vec3)
      modifies this
      ensures self == this
      ensures Value() == Add(old(Value()), old(a.Value()))
      ensures a != this ==> a.Value() == old(a.Value())
    {
      x := x + a.x;
      y := y + a.y;
      z := z + a.z;
      self := this;
    }

    /** `-=`: the receiver becomes `old - a` and is returned. */
    method SubInPlace(a: Vec3) returns (self: Vec3)
      modifies this
      ensures self == this
      ensures Value() == Sub(old(Value()), old(a.Value()))
      ensures a != this ==> a.Value() == old(a.Value())
    {
      x := x - a.x;
      y := y - a.y;
      z := z - a.z;
      self := this;
    }

    /** `*=`: the receiver becomes `old * a` and is returned. */
    method MulInPlace(a: Vec3) returns (self: Vec3)
      modifies this
      ensures self == this
      ensures Value() == Mul(old(Value()), old(a.Value()))
      ensures a != this ==> a.Value() == old(a.Value())
    {
      x := x * a.x;
      y := y * a.y;
      z := z * a.z;
      self := this;
    }

    /** `/=`: the receiver becomes `old / a` and is returned. */
    method DivInPlace(a: Vec3) returns (self: Vec3)
      requires NonZero(a.Value())
      modifies this
      ensures self == this
      ensures Value() == Div(old(Value()), old(a.Value()))
      ensures a != this ==> a.Value() == old(a.Value())
    {
      x := Quot(x, a.x);
      y := Quot(y, a.y);
      z := Quot(z, a.z);
      self := this;
    }

    /** The const `operator[]`: index 0, 1 or 2 reads `x`, `y` or `z`;
        any other index fails with "Invalid index". */
    function Get(i: nat): (r: Result<int>)
      reads this
      ensures r.Ok? <==> i < 3
      ensures i < 3 ==> r.value == Value().Component(i)
      ensures 3 <= i ==> r.message == InvalidIndex
    {
      if i == 0 then Ok(x)
      else if i == 1 then Ok(y)
      else if i == 2 then Ok(z)
      else Err(InvalidIndex)
    }

    /** A write through the mutable `operator[]`: index 0, 1 or 2 stores
        `v` into that field alone; any other index fails with
        "Invalid index" and changes nothing. */
    method Set(i: nat, v: int) returns (r: Outcome)
      modifies this
      ensures r.Pass? <==> i < 3
      ensures i < 3 ==> Value() == old(Value()).With(i, v)
      ensures 3 <= i ==> r.message == InvalidIndex && Value() == old(Value())
    {
      if i == 0 {
        x := v;
      } else if i == 1 {
        y := v;
      } else if i == 2 {
        z := v;
      } else {
        return Fail(InvalidIndex);
      }
      r := Pass;
    }
  }
}
