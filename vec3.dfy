/**
 * Three-component vectors (src/math/vec3.rs).
 *
 * `f64` components are modelled as reals. The square root used by `length`
 * is not computable here; every member that needs it takes the root
 * function as a parameter constrained by `IsSqrt`.
 */
module Vec3Math {

  datatype Vec3 = Vec3(x: real, y: real, z: real)

  /** `sqrt` returns the non-negative square root of every non-negative real. */
  ghost predicate IsSqrt(sqrt: real -> real) {
    forall a :: 0.0 <= a ==> 0.0 <= sqrt(a) && sqrt(a) * sqrt(a) == a
  }

  const Zero := Vec3(0.0, 0.0, 0.0)

  /** `Vec3::from_float`: every component equal to `f`. */
  function FromFloat(f: real): Vec3 {
    Vec3(f, f, f)
  }

  function Add(a: Vec3, b: Vec3): Vec3 {
    Vec3(a.x + b.x, a.y + b.y, a.z + b.z)
  }

  function AddFloat(a: Vec3, f: real): Vec3 {
    Vec3(a.x + f, a.y + f, a.z + f)
  }

  function Sub(a: Vec3, b: Vec3): Vec3 {
    Vec3(a.x - b.x, a.y - b.y, a.z - b.z)
  }

  function SubFloat(a: Vec3, f: real): Vec3 {
    Vec3(a.x - f, a.y - f, a.z - f)
  }

  /** Component-wise product. */
  function Mul(a: Vec3, b: Vec3): Vec3 {
    Vec3(a.x * b.x, a.y * b.y, a.z * b.z)
  }

  function Scale(a: Vec3, f: real): Vec3 {
    Vec3(a.x * f, a.y * f, a.z * f)
  }

  predicate NoZeroComponent(v: Vec3) {
    v.x != 0.0 && v.y != 0.0 && v.z != 0.0
  }

  /** Component-wise quotient; a zero component would give an IEEE infinity. */
  function Div(a: Vec3, b: Vec3): Vec3
    requires NoZeroComponent(b)
  {
    Vec3(a.x / b.x, a.y / b.y, a.z / b.z)
  }

  function DivFloat(a: Vec3, f: real): Vec3
    requires f != 0.0
  {
    Vec3(a.x / f, a.y / f, a.z / f)
  }

  function Neg(a: Vec3): Vec3 {
    Vec3(-a.x, -a.y, -a.z)
  }

  function Dot(a: Vec3, b: Vec3): real {
    a.x * b.x + a.y * b.y + a.z * b.z
  }

  /** `squared_length`: the dot product of `v` with itself, never negative. */
  function SquaredLength(v: Vec3): (r: real)
    ensures 0.0 <= r
  {
    v.x * v.x + v.y * v.y + v.z * v.z
  }

  /** `length`: the square root of the squared length. */
  function Length(v: Vec3, sqrt: real -> real): (r: real)
    requires IsSqrt(sqrt)
    ensures 0.0 <= r && r * r == SquaredLength(v)
  {
    sqrt(SquaredLength(v))
  }

  /** A vector of non-zero squared length has a non-zero length. */
  lemma LengthPositive(v: Vec3, sqrt: real -> real)
    requires IsSqrt(sqrt) && 0.0 < SquaredLength(v)
    ensures 0.0 < Length(v, sqrt)
  {
  }

  /**
   * `new_unit_vector`: `v` divided by its length. A vector of length zero
   * has no unit vector (the source would divide by zero).
   */
  function Unit(v: Vec3, sqrt: real -> real): (r: Vec3)
    requires IsSqrt(sqrt) && 0.0 < SquaredLength(v)
    ensures SquaredLength(r) == 1.0
    ensures Scale(r, Length(v, sqrt)) == v
  {
    var len := Length(v, sqrt);
    LengthPositive(v, sqrt);
    UnitScaleLemma(v, len);
    DivFloat(v, len)
  }

  lemma UnitScaleLemma(v: Vec3, len: real)
    requires 0.0 < len && len * len == SquaredLength(v)
    ensures SquaredLength(DivFloat(v, len)) == 1.0
    ensures Scale(DivFloat(v, len), len) == v
  {
    var k := 1.0 / len;
    assert k * len == 1.0;
    assert DivFloat(v, len) == Scale(v, k);
    assert SquaredLength(Scale(v, k)) == SquaredLength(v) * (k * k);
    assert SquaredLength(v) * (k * k) == (len * k) * (len * k);
  }

  /** `vec3::cross`: orthogonal to both arguments. */
  function Cross(a: Vec3, b: Vec3): (r: Vec3)
    ensures Dot(r, a) == 0.0 && Dot(r, b) == 0.0
  {
    Vec3(a.y * b.z - a.z * b.y, -(a.x * b.z - a.z * b.x), a.x * b.y - a.y * b.x)
  }

  /** `vec3::min`: the component-wise minimum, below both arguments. */
  function Min(a: Vec3, b: Vec3): (r: Vec3)
    ensures r.x <= a.x && r.x <= b.x && (r.x == a.x || r.x == b.x)
    ensures r.y <= a.y && r.y <= b.y && (r.y == a.y || r.y == b.y)
    ensures r.z <= a.z && r.z <= b.z && (r.z == a.z || r.z == b.z)
  {
    Vec3(MinReal(a.x, b.x), MinReal(a.y, b.y), MinReal(a.z, b.z))
  }

  /** `vec3::max`: the component-wise maximum, above both arguments. */
  function Max(a: Vec3, b: Vec3): (r: Vec3)
    ensures r.x >= a.x && r.x >= b.x && (r.x == a.x || r.x == b.x)
    ensures r.y >= a.y && r.y >= b.y && (r.y == a.y || r.y == b.y)
    ensures r.z >= a.z && r.z >= b.z && (r.z == a.z || r.z == b.z)
  {
    Vec3(MaxReal(a.x, b.x), MaxReal(a.y, b.y), MaxReal(a.z, b.z))
  }

  /** `f64::min`. */
  function MinReal(a: real, b: real): real {
    if a <= b then a else b
  }

  /** `f64::max`. */
  function MaxReal(a: real, b: real): real {
    if a >= b then a else b
  }

  /** Squared lengths and dot products of differences expand like polynomials. */
  lemma DotOfDifference(a: Vec3, b: Vec3, c: Vec3)
    ensures Dot(a, a) == SquaredLength(a)
    ensures Dot(Sub(a, b), c) == Dot(a, c) - Dot(b, c)
    ensures SquaredLength(Sub(a, b)) == SquaredLength(a) - 2.0 * Dot(a, b) + SquaredLength(b)
  {
  }

  /** Scaling the second argument of a dot product scales the product. */
  lemma DotScaleRight(a: Vec3, b: Vec3, g: real)
    ensures Dot(a, Scale(b, g)) == g * Dot(a, b)
  {
    assert a.x * (b.x * g) == g * (a.x * b.x);
    assert a.y * (b.y * g) == g * (a.y * b.y);
    assert a.z * (b.z * g) == g * (a.z * b.z);
  }

  /** Scaling either argument of a dot product scales the product. */
  lemma DotOfScaled(a: Vec3, b: Vec3, f: real, g: real)
    ensures Dot(a, Scale(b, g)) == g * Dot(a, b)
    ensures Dot(Scale(a, f), Scale(b, g)) == (f * g) * Dot(a, b)
    ensures SquaredLength(Scale(a, f)) == (f * f) * SquaredLength(a)
  {
    DotScaleRight(a, b, g);
    var sa := Scale(a, f);
    DotScaleRight(sa, b, g);
    DotScaleRight(b, a, f);
    assert Dot(sa, b) == Dot(b, sa);
    assert Dot(a, b) == Dot(b, a);
    var d := Dot(a, b);
    assert Dot(sa, Scale(b, g)) == g * (f * d);
    assert g * (f * d) == (f * g) * d;
    DotScaleRight(sa, a, f);
    DotScaleRight(a, a, f);
    assert Dot(sa, a) == Dot(a, sa);
    assert Dot(sa, sa) == f * (f * Dot(a, a));
    assert Dot(sa, sa) == SquaredLength(sa) && Dot(a, a) == SquaredLength(a);
  }

  /** The product of two non-negative reals is non-negative. */
  lemma MulNonNegative(x: real, y: real)
    requires 0.0 <= x && 0.0 <= y
    ensures 0.0 <= x * y
  {
  }

  /** `Vec3::equal` and `PartialEq`: all three components agree. */
  predicate Equal(a: Vec3, b: Vec3) {
    a.x == b.x && a.y == b.y && a.z == b.z
  }

  /** `Index`: 0, 1 and 2 select x, y and z; any other index is unreachable in the source. */
  function Index(v: Vec3, i: nat): real
    requires i < 3
  {
    if i == 0 then v.x else if i == 1 then v.y else v.z
  }

  /** The vector `IndexMut` leaves behind after writing `value` at `i`. */
  function WithIndex(v: Vec3, i: nat, value: real): (r: Vec3)
    requires i < 3
    ensures Index(r, i) == value
    ensures forall k :: 0 <= k < 3 && k != i ==> Index(r, k) == Index(v, k)
  {
    if i == 0 then v.(x := value) else if i == 1 then v.(y := value) else v.(z := value)
  }

  lemma EqualIsIdentity(a: Vec3, b: Vec3)
    ensures Equal(a, b) <==> a == b
  {
  }

  lemma SubUndoesAdd(a: Vec3, b: Vec3)
    ensures Sub(Add(a, b), b) == a
    ensures Add(a, Neg(a)) == Zero
  {
  }

  lemma DivFloatUndoesScale(a: Vec3, f: real)
    requires f != 0.0
    ensures DivFloat(Scale(a, f), f) == a
  {
  }

  lemma DivUndoesMul(a: Vec3, b: Vec3)
    requires NoZeroComponent(b)
    ensures Div(Mul(a, b), b) == a
  {
  }

  lemma FloatOpsAreVectorOps(a: Vec3, f: real)
    ensures AddFloat(a, f) == Add(a, FromFloat(f))
    ensures SubFloat(a, f) == Sub(a, FromFloat(f))
    ensures Scale(a, f) == Mul(a, FromFloat(f))
  {
  }

  lemma DotIsSymmetricAndBilinear(a: Vec3, b: Vec3, c: Vec3, f: real)
    ensures Dot(a, b) == Dot(b, a)
    ensures Dot(Add(a, b), c) == Dot(a, c) + Dot(b, c)
    ensures Dot(Scale(a, f), b) == f * Dot(a, b)
  {
  }

  /** Lagrange's identity: the squared length of a cross product. */
  lemma CrossLength(a: Vec3, b: Vec3)
    ensures SquaredLength(Cross(a, b)) == SquaredLength(a) * SquaredLength(b) - Dot(a, b) * Dot(a, b)
  {
    var c := Cross(a, b);
    var p := a.y * b.z - a.z * b.y;
    var q := a.z * b.x - a.x * b.z;
    var s := a.x * b.y - a.y * b.x;
    assert c == Vec3(p, q, s);
  }

  lemma CrossIsAntisymmetric(a: Vec3, b: Vec3)
    ensures Cross(b, a) == Neg(Cross(a, b))
    ensures Cross(a, a) == Zero
  {
    var c, d := Cross(a, b), Cross(b, a);
    assert d.x == -c.x && d.y == -c.y && d.z == -c.z;
  }

  lemma MinBelowMax(a: Vec3, b: Vec3)
    ensures Min(a, b).x <= Max(a, b).x && Min(a, b).y <= Max(a, b).y && Min(a, b).z <= Max(a, b).z
  {
  }

  /** The unit tests of vec3.rs, as facts about the model. */
  lemma UnitTestFacts()
    ensures Add(Vec3(1.0, 1.0, 1.0), Vec3(1.0, 2.0, 3.0)) == Vec3(2.0, 3.0, 4.0)
    ensures Add(Vec3(1.0, 1.0, 1.0), Vec3(1.0, 1.0, 1.0)) != Vec3(2.0, 3.0, 4.0)
    ensures Add(Vec3(0.0, 0.0, 1.0), Vec3(1.0, 0.0, 0.0)) == Vec3(1.0, 0.0, 1.0)
    ensures AddFloat(Vec3(0.0, 1.0, 2.0), 1.0) == Vec3(1.0, 2.0, 3.0)
    ensures Sub(Vec3(1.0, 1.0, 1.0), Vec3(1.0, 2.0, 3.0)) == Vec3(0.0, -1.0, -2.0)
    ensures Sub(Vec3(0.0, 0.0, 1.0), Vec3(1.0, 0.0, 0.0)) == Vec3(-1.0, 0.0, 1.0)
    ensures SubFloat(Vec3(0.0, 1.0, 2.0), 1.0) == Vec3(-1.0, 0.0, 1.0)
    ensures Mul(Vec3(2.0, 2.0, 2.0), Vec3(1.0, 2.0, 3.0)) == Vec3(2.0, 4.0, 6.0)
    ensures Mul(Vec3(3.0, 0.0, 3.0), Vec3(2.0, 1.0, 3.0)) == Vec3(6.0, 0.0, 9.0)
    ensures Scale(Vec3(0.0, 1.0, 2.0), 2.0) == Vec3(0.0, 2.0, 4.0)
    ensures Div(Vec3(2.0, 2.0, 2.0), Vec3(1.0, 2.0, 4.0)) == Vec3(2.0, 1.0, 0.5)
    ensures Div(Vec3(4.0, 0.0, 9.0), Vec3(2.0, 1.0, 3.0)) == Vec3(2.0, 0.0, 3.0)
    ensures DivFloat(Vec3(0.0, 1.0, 2.0), 2.0) == Vec3(0.0, 0.5, 1.0)
    ensures SquaredLength(Vec3(2.0, 2.0, 2.0)) == 12.0
  {
    var v := Vec3(2.0, 2.0, 2.0);
    assert v.x * v.x == 4.0;
    assert SquaredLength(v) == 4.0 + 4.0 + 4.0;
  }

  /**
   * A vector updated in place: the compound assignment operators
   * (`+=`, `-=`, `*=`, `/=`), `IndexMut` and `make_unit_vector`.
   */
  class Vec3Cell {
    var x: real
    var y: real
    var z: real

    function Value(): Vec3
      reads this
    {
      Vec3(x, y, z)
    }

    constructor (v: Vec3)
      ensures Value() == v
    {
      x, y, z := v.x, v.y, v.z;
    }

    /** `AddAssign`. */
    method AddAssign(rhs: Vec3)
      modifies this
      ensures Value() == Add(old(Value()), rhs)
    {
      x := x + rhs.x;
      y := y + rhs.y;
      z := z + rhs.z;
    }

    /** `AddAssign` by a scalar: added to every component. */
    method AddAssignFloat(f: real)
      modifies this
      ensures Value() == AddFloat(old(Value()), f)
    {
      x := x + f;
      y := y + f;
      z := z + f;
    }

    /** `SubAssign`. */
    method SubAssign(rhs: Vec3)
      modifies this
      ensures Value() == Sub(old(Value()), rhs)
    {
      x := x - rhs.x;
      y := y - rhs.y;
      z := z - rhs.z;
    }

    /** `SubAssign` by a scalar: subtracted from every component. */
    method SubAssignFloat(f: real)
      modifies this
      ensures Value() == SubFloat(old(Value()), f)
    {
      x := x - f;
      y := y - f;
      z := z - f;
    }

    /** `MulAssign` by a vector (component-wise). */
    method MulAssign(rhs: Vec3)
      modifies this
      ensures Value() == Mul(old(Value()), rhs)
    {
      x := x * rhs.x;
      y := y * rhs.y;
      z := z * rhs.z;
    }

    /** `MulAssign` by a scalar. */
    method MulAssignFloat(f: real)
      modifies this
      ensures Value() == Scale(old(Value()), f)
    {
      x := x * f;
      y := y * f;
      z := z * f;
    }

    /** `DivAssign` by a vector (component-wise). */
    method DivAssign(rhs: Vec3)
      requires NoZeroComponent(rhs)
      modifies this
      ensures Value() == Div(old(Value()), rhs)
    {
      x := x / rhs.x;
      y := y / rhs.y;
      z := z / rhs.z;
    }

    /** `DivAssign` by a scalar. */
    method DivAssignFloat(f: real)
      requires f != 0.0
      modifies this
      ensures Value() == DivFloat(old(Value()), f)
    {
      x := x / f;
      y := y / f;
      z := z / f;
    }

    /** `IndexMut`: only the selected component changes. */
    method SetIndex(i: nat, value: real)
      requires i < 3
      modifies this
      ensures Value() == WithIndex(old(Value()), i, value)
    {
      if i == 0 {
        x := value;
      } else if i == 1 {
        y := value;
      } else {
        z := value;
      }
    }

    /** `make_unit_vector`: rescales the vector to length one in place. */
    method MakeUnitVector(sqrt: real -> real)
      requires IsSqrt(sqrt) && 0.0 < SquaredLength(Value())
      modifies this
      ensures Value() == Unit(old(Value()), sqrt)
    {
      var length := Length(Value(), sqrt);
      LengthPositive(Value(), sqrt);
      x := x / length;
      y := y / length;
      z := z / length;
    }
  }
}
