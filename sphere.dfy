/** Ray-sphere intersection (src/sphere.rs). */
module SphereShape {
  import opened Vec3Math
  import opened RayMath
  import opened AabbMath
  import opened Options
  import opened Hitable

  datatype Sphere<M> = Sphere(center: Vec3, radius: real, material: M)

  /** A ray parameter whose point lies on the sphere's surface. */
  ghost predicate OnSurface<M>(s: Sphere<M>, r: Ray, t: real) {
    SquaredLength(Sub(PointAt(r, t), s.center)) == s.radius * s.radius
  }

  /** The quadratic `a t^2 + 2 b t + c = 0` with the factors of two cancelled. */
  function CoefA(r: Ray): real {
    Dot(r.direction, r.direction)
  }

  function CoefB<M>(s: Sphere<M>, r: Ray): real {
    Dot(Sub(r.origin, s.center), r.direction)
  }

  function CoefC<M>(s: Sphere<M>, r: Ray): real {
    var oc := Sub(r.origin, s.center);
    Dot(oc, oc) - s.radius * s.radius
  }

  function Discriminant<M>(s: Sphere<M>, r: Ray): real {
    CoefB(s, r) * CoefB(s, r) - CoefA(r) * CoefC(s, r)
  }

  /** A root `(-b +- sqrt(b*b - a*c)) / a`, with `sign` selecting the branch. */
  function Root<M>(s: Sphere<M>, r: Ray, sign: real, sqrt: real -> real): real
    requires IsSqrt(sqrt) && CoefA(r) != 0.0 && 0.0 <= Discriminant(s, r)
  {
    (-CoefB(s, r) + sign * sqrt(Discriminant(s, r))) / CoefA(r)
  }

  /** The record for a hit at `t`: the point on the ray and the outward normal scaled by `1/radius`. */
  function Record<M>(s: Sphere<M>, r: Ray, t: real): HitRecord<M>
    requires s.radius != 0.0
  {
    var p := PointAt(r, t);
    HitRecord(t, 0.0, 0.0, p, DivFloat(Sub(p, s.center), s.radius), s.material)
  }

  /** The near root if it lies strictly inside (`tmin`, `tmax`), otherwise the far root if it does. */
  function PickRoot<M>(s: Sphere<M>, r: Ray, tmin: real, tmax: real, near: real, far: real): (h: Option<HitRecord<M>>)
    requires s.radius != 0.0
    ensures h.Some? ==> tmin < h.value.t < tmax && (h.value.t == near || h.value.t == far)
    ensures h.Some? ==> h.value == Record(s, r, h.value.t)
    ensures tmin < near < tmax ==> h == Some(Record(s, r, near))
    ensures h.None? <==> !(tmin < near < tmax) && !(tmin < far < tmax)
  {
    if near < tmax && near > tmin then Some(Record(s, r, near))
    else if far < tmax && far > tmin then Some(Record(s, r, far))
    else None
  }

  /**
   * `Sphere::hit`: on a positive discriminant, the near root if it lies strictly
   * inside (`tmin`, `tmax`), otherwise the far root if it does, otherwise nothing.
   * A zero-length direction makes both roots infinite or NaN in floating point,
   * which no comparison accepts.
   */
  function Hit<M>(s: Sphere<M>, r: Ray, tmin: real, tmax: real, sqrt: real -> real): (h: Option<HitRecord<M>>)
    requires IsSqrt(sqrt) && s.radius != 0.0
    ensures h.Some? ==> tmin < h.value.t < tmax
    ensures h.Some? ==> h.value == Record(s, r, h.value.t)
    ensures Discriminant(s, r) <= 0.0 ==> h.None?
    ensures Discriminant(s, r) > 0.0 && CoefA(r) != 0.0 ==>
              h == PickRoot(s, r, tmin, tmax, Root(s, r, -1.0, sqrt), Root(s, r, 1.0, sqrt))
  {
    if Discriminant(s, r) > 0.0 && CoefA(r) != 0.0 then
      PickRoot(s, r, tmin, tmax, Root(s, r, -1.0, sqrt), Root(s, r, 1.0, sqrt))
    else None
  }

  lemma DivideMonotone(x: real, y: real, a: real)
    requires 0.0 < a && x <= y
    ensures x / a <= y / a
  {
    assert y / a - x / a == (y - x) * (1.0 / a);
    assert 0.0 < 1.0 / a;
    assert 0.0 <= (y - x) * (1.0 / a);
  }

  /** The near root never exceeds the far root. */
  lemma NearBeforeFar<M>(s: Sphere<M>, r: Ray, sqrt: real -> real)
    requires IsSqrt(sqrt) && CoefA(r) != 0.0 && 0.0 <= Discriminant(s, r)
    ensures Root(s, r, -1.0, sqrt) <= Root(s, r, 1.0, sqrt)
  {
    var a := CoefA(r);
    assert a == SquaredLength(r.direction);
    var sq := sqrt(Discriminant(s, r));
    DivideMonotone(-CoefB(s, r) + -1.0 * sq, -CoefB(s, r) + 1.0 * sq, a);
  }

  /** The expansion of the squared distance from the centre along the ray. */
  lemma SurfaceEquation<M>(s: Sphere<M>, r: Ray, t: real)
    ensures SquaredLength(Sub(PointAt(r, t), s.center)) - s.radius * s.radius
            == CoefA(r) * t * t + 2.0 * CoefB(s, r) * t + CoefC(s, r)
  {
    var oc := Sub(r.origin, s.center);
    var d := r.direction;
    var q := Sub(PointAt(r, t), s.center);
    assert q == Vec3(oc.x + d.x * t, oc.y + d.y * t, oc.z + d.z * t);
    assert q.x * q.x == oc.x * oc.x + 2.0 * oc.x * d.x * t + d.x * d.x * t * t;
    assert q.y * q.y == oc.y * oc.y + 2.0 * oc.y * d.y * t + d.y * d.y * t * t;
    assert q.z * q.z == oc.z * oc.z + 2.0 * oc.z * d.z * t + d.z * d.z * t * t;
  }

  /** Both roots solve `a t^2 + 2 b t + c = 0`. */
  lemma RootSolvesQuadratic(a: real, b: real, c: real, sq: real, sign: real, t: real)
    requires a != 0.0 && sq * sq == b * b - a * c && (sign == 1.0 || sign == -1.0)
    requires t == (-b + sign * sq) / a
    ensures a * t * t + 2.0 * b * t + c == 0.0
  {
    assert a * t == -b + sign * sq;
    var e := a * t * t + 2.0 * b * t + c;
    assert a * e == (a * t) * (a * t) + 2.0 * b * (a * t) + a * c;
    assert sign * sign == 1.0;
    assert (-b + sign * sq) * (-b + sign * sq) == b * b - 2.0 * b * sign * sq + sq * sq;
    assert a * e == 0.0;
  }

  /** Each root of the quadratic is a parameter at which the ray meets the surface. */
  lemma RootIsOnSurface<M>(s: Sphere<M>, r: Ray, sign: real, sqrt: real -> real)
    requires IsSqrt(sqrt) && (sign == 1.0 || sign == -1.0)
    requires CoefA(r) != 0.0 && 0.0 <= Discriminant(s, r)
    ensures OnSurface(s, r, Root(s, r, sign, sqrt))
  {
    var t := Root(s, r, sign, sqrt);
    var a, b, c := CoefA(r), CoefB(s, r), CoefC(s, r);
    var e := a * t * t + 2.0 * b * t + c;
    assert e == 0.0 by {
      RootSolvesQuadratic(a, b, c, sqrt(Discriminant(s, r)), sign, t);
    }
    QuadraticRootIsOnSurface(s, r, t);
  }

  /** A solution of the quadratic is a parameter on the surface. */
  lemma QuadraticRootIsOnSurface<M>(s: Sphere<M>, r: Ray, t: real)
    requires CoefA(r) * t * t + 2.0 * CoefB(s, r) * t + CoefC(s, r) == 0.0
    ensures OnSurface(s, r, t)
  {
    SurfaceEquation(s, r, t);
  }

  /** Every reported hit lies on the sphere's surface. */
  lemma HitIsOnSurface<M>(s: Sphere<M>, r: Ray, tmin: real, tmax: real, sqrt: real -> real)
    requires IsSqrt(sqrt) && s.radius != 0.0
    ensures Hit(s, r, tmin, tmax, sqrt).Some? ==> OnSurface(s, r, Hit(s, r, tmin, tmax, sqrt).value.t)
  {
    if Discriminant(s, r) > 0.0 && CoefA(r) != 0.0 {
      RootIsOnSurface(s, r, -1.0, sqrt);
      RootIsOnSurface(s, r, 1.0, sqrt);
    }
  }

  /** Every solution of the quadratic is one of its two roots. */
  lemma QuadraticHasOnlyTwoRoots(a: real, b: real, c: real, sq: real, t: real)
    requires a != 0.0 && 0.0 <= sq && sq * sq == b * b - a * c
    requires a * t * t + 2.0 * b * t + c == 0.0
    ensures t == (-b + -1.0 * sq) / a || t == (-b + 1.0 * sq) / a
  {
    var u := a * t + b;
    assert u * u == a * (a * t * t + 2.0 * b * t) + b * b;
    assert u * u == sq * sq;
    assert (u - sq) * (u + sq) == 0.0;
    if u == sq {
      assert a * t == -b + 1.0 * sq;
    } else {
      assert u + sq == 0.0 by {
        var d := u - sq;
        assert d * (u + sq) == 0.0;
        assert u + sq == (d * (u + sq)) / d;
      }
      assert a * t == -b + -1.0 * sq;
    }
  }

  /**
   * `Sphere::hit` misses no crossing: when the ray meets the surface at some `t` strictly
   * inside (`tmin`, `tmax`) on a positive discriminant, a hit is reported, and at a
   * parameter no greater than `t`.
   */
  lemma HitIsComplete<M>(s: Sphere<M>, r: Ray, tmin: real, tmax: real, t: real, sqrt: real -> real)
    requires IsSqrt(sqrt) && s.radius != 0.0 && CoefA(r) != 0.0 && Discriminant(s, r) > 0.0
    requires tmin < t < tmax && OnSurface(s, r, t)
    ensures Hit(s, r, tmin, tmax, sqrt).Some? && Hit(s, r, tmin, tmax, sqrt).value.t <= t
  {
    SurfaceEquation(s, r, t);
    QuadraticHasOnlyTwoRoots(CoefA(r), CoefB(s, r), CoefC(s, r), sqrt(Discriminant(s, r)), t);
    NearBeforeFar(s, r, sqrt);
  }

  /**
   * The sphere reports its closest hit: lowering the upper bound to `hi'` keeps the
   * hit when it lies strictly below `hi'` and otherwise finds nothing.
   */
  lemma HitUnderLowerBound<M>(s: Sphere<M>, r: Ray, lo: real, hi: real, hi': real, sqrt: real -> real)
    requires IsSqrt(sqrt) && s.radius != 0.0 && hi' <= hi
    ensures Hit(s, r, lo, hi', sqrt) == Narrowed(Hit(s, r, lo, hi, sqrt), hi', true)
  {
    if Discriminant(s, r) > 0.0 && CoefA(r) != 0.0 {
      NearBeforeFar(s, r, sqrt);
    }
  }

  /** `Sphere::bounding_box`: the cube `center +- radius`, whatever the time interval. */
  function BoundingBox<M>(s: Sphere<M>, t0: real, t1: real): (b: AABB)
    ensures b.max.x - b.min.x == 2.0 * s.radius && b.max.y - b.min.y == 2.0 * s.radius
    ensures b.max.z - b.min.z == 2.0 * s.radius
    ensures Scale(Add(b.min, b.max), 0.5) == s.center
  {
    AABB(Sub(s.center, FromFloat(s.radius)), Add(s.center, FromFloat(s.radius)))
  }
}
