/** Orthonormal bases used to turn local sampling directions into world space (src/onb.rs). */
module Onb {
  import opened Vec3Math

  datatype ONB = ONB(u: Vec3, v: Vec3, w: Vec3)

  /** Three pairwise orthogonal unit vectors. */
  predicate Orthonormal(b: ONB) {
    SquaredLength(b.u) == 1.0 && SquaredLength(b.v) == 1.0 && SquaredLength(b.w) == 1.0 &&
    Dot(b.u, b.v) == 0.0 && Dot(b.v, b.w) == 0.0 && Dot(b.u, b.w) == 0.0
  }

  /** `ONB::new`: the standard basis. */
  function New(): (b: ONB)
    ensures Orthonormal(b)
  {
    ONB(Vec3(1.0, 0.0, 0.0), Vec3(0.0, 1.0, 0.0), Vec3(0.0, 0.0, 1.0))
  }

  function Abs(a: real): real {
    if a < 0.0 then -a else a
  }

  /** The helper axis `build_from_w` crosses with `w`: y when `w` is close to the x axis, otherwise x. */
  function HelperAxis(w: Vec3): (a: Vec3)
    ensures Abs(w.x) > 0.9 ==> a == Vec3(0.0, 1.0, 0.0)
    ensures Abs(w.x) <= 0.9 ==> a == Vec3(1.0, 0.0, 0.0)
  {
    if Abs(w.x) > 0.9 then Vec3(0.0, 1.0, 0.0) else Vec3(1.0, 0.0, 0.0)
  }

  /** Beyond the 0.9 threshold the square exceeds 0.81. */
  lemma SquareAboveThreshold(a: real)
    requires Abs(a) > 0.9
    ensures 0.81 < a * a
  {
    assert a * a - 0.81 == (a - 0.9) * (a + 0.9);
    if 0.9 < a {
      assert 0.0 < (a - 0.9) * (a + 0.9);
    } else {
      assert 0.0 < (0.9 - a) * (-0.9 - a);
    }
  }

  /** Within the 0.9 threshold the square is at most 0.81. */
  lemma SquareWithinThreshold(a: real)
    requires Abs(a) <= 0.9
    ensures a * a <= 0.81
  {
    assert 0.81 - a * a == (0.9 - a) * (0.9 + a);
    MulNonNegative(0.9 - a, 0.9 + a);
  }

  /** The cross product of a unit `w` with its helper axis is never degenerate. */
  lemma HelperCrossNonDegenerate(w: Vec3)
    requires SquaredLength(w) == 1.0
    ensures 0.0 < SquaredLength(Cross(w, HelperAxis(w)))
  {
    var a := HelperAxis(w);
    CrossLength(w, a);
    if Abs(w.x) > 0.9 {
      assert SquaredLength(a) == 1.0 && Dot(w, a) == w.y;
      SquareAboveThreshold(w.x);
      assert w.y * w.y <= 1.0 - w.x * w.x;
    } else {
      assert SquaredLength(a) == 1.0 && Dot(w, a) == w.x;
      SquareWithinThreshold(w.x);
    }
  }

  /** A vector orthogonal to `c` stays orthogonal to any positive rescaling of it. */
  lemma OrthogonalAfterRescale(r: Vec3, c: Vec3, len: real, x: Vec3)
    requires 0.0 < len && Scale(r, len) == c && Dot(c, x) == 0.0
    ensures Dot(r, x) == 0.0
  {
    DotIsSymmetricAndBilinear(r, x, x, len);
    assert len * Dot(r, x) == 0.0;
  }

  /**
   * `ONB::build_from_w`: `w` is `n` normalised, `v` is the normalised cross product
   * of `w` with the helper axis, and `u = w x v`; the result is orthonormal.
   */
  function BuildFromW(n: Vec3, sqrt: real -> real): (b: ONB)
    requires IsSqrt(sqrt) && 0.0 < SquaredLength(n)
    ensures Orthonormal(b)
    ensures Scale(b.w, Length(n, sqrt)) == n
    ensures Dot(b.v, HelperAxis(b.w)) == 0.0
    ensures b.u == Cross(b.w, b.v)
  {
    var w := Unit(n, sqrt);
    HelperCrossNonDegenerate(w);
    var c := Cross(w, HelperAxis(w));
    var v := Unit(c, sqrt);
    LengthPositive(c, sqrt);
    OrthogonalAfterRescale(v, c, Length(c, sqrt), w);
    OrthogonalAfterRescale(v, c, Length(c, sqrt), HelperAxis(w));
    var u := Cross(w, v);
    CrossLength(w, v);
    DotIsSymmetricAndBilinear(u, v, v, 1.0);
    DotIsSymmetricAndBilinear(u, w, w, 1.0);
    DotIsSymmetricAndBilinear(v, w, w, 1.0);
    ONB(u, v, w)
  }

  /** `local`: the world-space vector with coordinates `a` in the basis. */
  function Local(b: ONB, a: Vec3): (r: Vec3)
    ensures r == Vec3(b.u.x * a.x + b.v.x * a.y + b.w.x * a.z,
                      b.u.y * a.x + b.v.y * a.y + b.w.y * a.z,
                      b.u.z * a.x + b.v.z * a.y + b.w.z * a.z)
  {
    Add(Add(Scale(b.u, a.x), Scale(b.v, a.y)), Scale(b.w, a.z))
  }

  /** The standard basis maps every vector to itself. */
  lemma LocalOfStandardBasis(a: Vec3)
    ensures Local(New(), a) == a
  {
    var r := Local(New(), a);
    assert r.x == 1.0 * a.x + 0.0 * a.y + 0.0 * a.z;
    assert r.y == 0.0 * a.x + 1.0 * a.y + 0.0 * a.z;
    assert r.z == 0.0 * a.x + 0.0 * a.y + 1.0 * a.z;
  }

  /** `local` is linear and maps the third coordinate axis to `w`. */
  lemma LocalIsLinear(b: ONB, a: Vec3, c: Vec3, f: real)
    ensures Local(b, Add(a, c)) == Add(Local(b, a), Local(b, c))
    ensures Local(b, Scale(a, f)) == Scale(Local(b, a), f)
    ensures Local(b, Vec3(0.0, 0.0, 1.0)) == b.w
  {
    LocalAdditive(b, a, c);
    LocalHomogeneous(b, a, f);
    var e := Local(b, Vec3(0.0, 0.0, 1.0));
    assert e.x == b.w.x && e.y == b.w.y && e.z == b.w.z;
  }

  lemma LocalAdditive(b: ONB, a: Vec3, c: Vec3)
    ensures Local(b, Add(a, c)) == Add(Local(b, a), Local(b, c))
  {
    calc {
      Local(b, Add(a, c));
      Vec3(b.u.x * (a.x + c.x) + b.v.x * (a.y + c.y) + b.w.x * (a.z + c.z),
           b.u.y * (a.x + c.x) + b.v.y * (a.y + c.y) + b.w.y * (a.z + c.z),
           b.u.z * (a.x + c.x) + b.v.z * (a.y + c.y) + b.w.z * (a.z + c.z));
      { Combination3Additive(b.u.x, b.v.x, b.w.x, a.x, a.y, a.z, c.x, c.y, c.z);
        Combination3Additive(b.u.y, b.v.y, b.w.y, a.x, a.y, a.z, c.x, c.y, c.z);
        Combination3Additive(b.u.z, b.v.z, b.w.z, a.x, a.y, a.z, c.x, c.y, c.z); }
      Vec3((b.u.x * a.x + b.v.x * a.y + b.w.x * a.z) + (b.u.x * c.x + b.v.x * c.y + b.w.x * c.z),
           (b.u.y * a.x + b.v.y * a.y + b.w.y * a.z) + (b.u.y * c.x + b.v.y * c.y + b.w.y * c.z),
           (b.u.z * a.x + b.v.z * a.y + b.w.z * a.z) + (b.u.z * c.x + b.v.z * c.y + b.w.z * c.z));
      Add(Local(b, a), Local(b, c));
    }
  }

  lemma LocalHomogeneous(b: ONB, a: Vec3, f: real)
    ensures Local(b, Scale(a, f)) == Scale(Local(b, a), f)
  {
    calc {
      Local(b, Scale(a, f));
      Vec3(b.u.x * (a.x * f) + b.v.x * (a.y * f) + b.w.x * (a.z * f),
           b.u.y * (a.x * f) + b.v.y * (a.y * f) + b.w.y * (a.z * f),
           b.u.z * (a.x * f) + b.v.z * (a.y * f) + b.w.z * (a.z * f));
      { Combination3Homogeneous(b.u.x, b.v.x, b.w.x, a.x, a.y, a.z, f);
        Combination3Homogeneous(b.u.y, b.v.y, b.w.y, a.x, a.y, a.z, f);
        Combination3Homogeneous(b.u.z, b.v.z, b.w.z, a.x, a.y, a.z, f); }
      Vec3((b.u.x * a.x + b.v.x * a.y + b.w.x * a.z) * f,
           (b.u.y * a.x + b.v.y * a.y + b.w.y * a.z) * f,
           (b.u.z * a.x + b.v.z * a.y + b.w.z * a.z) * f);
      Scale(Local(b, a), f);
    }
  }

  lemma Combination3Additive(p: real, q: real, s: real, x: real, y: real, z: real, x': real, y': real, z': real)
    ensures p * (x + x') + q * (y + y') + s * (z + z') == (p * x + q * y + s * z) + (p * x' + q * y' + s * z')
  {
  }

  lemma Combination3Homogeneous(p: real, q: real, s: real, x: real, y: real, z: real, f: real)
    ensures p * (x * f) + q * (y * f) + s * (z * f) == (p * x + q * y + s * z) * f
  {
  }

  /** In an orthonormal basis, the coordinates of `local(a)` along `u`, `v` and `w` are those of `a`. */
  lemma LocalCoordinates(b: ONB, a: Vec3)
    requires Orthonormal(b)
    ensures Dot(Local(b, a), b.u) == a.x
    ensures Dot(Local(b, a), b.v) == a.y
    ensures Dot(Local(b, a), b.w) == a.z
  {
    var pu := Scale(b.u, a.x);
    var pv := Scale(b.v, a.y);
    var pw := Scale(b.w, a.z);
    forall e | e == b.u || e == b.v || e == b.w
      ensures Dot(Local(b, a), e) == a.x * Dot(b.u, e) + a.y * Dot(b.v, e) + a.z * Dot(b.w, e)
    {
      DotIsSymmetricAndBilinear(Add(pu, pv), pw, e, 1.0);
      DotIsSymmetricAndBilinear(pu, pv, e, 1.0);
      DotIsSymmetricAndBilinear(b.u, e, e, a.x);
      DotIsSymmetricAndBilinear(b.v, e, e, a.y);
      DotIsSymmetricAndBilinear(b.w, e, e, a.z);
    }
    DotIsSymmetricAndBilinear(b.u, b.v, b.w, 1.0);
    DotIsSymmetricAndBilinear(b.v, b.w, b.u, 1.0);
    DotIsSymmetricAndBilinear(b.w, b.u, b.v, 1.0);
  }
}
