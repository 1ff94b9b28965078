/** Axis-aligned rectangles (src/rect.rs). */
module Rect {
  import opened Vec3Math
  import opened RayMath
  import opened AabbMath
  import opened Options
  import opened Hitable

  /** `AxisAlignedRectAxis`: the axis the rectangle's plane is perpendicular to. */
  datatype Axis = X | Y | Z

  /**
   * `AxisAlignedRect`: the extent `[a0, a1] x [b0, b1]` in the two in-plane axes,
   * the plane coordinate `c`, and the cached sizes of the extent.
   */
  datatype AxisAlignedRect<M> = AxisAlignedRect(material: M, a0: real, a1: real, b0: real, b1: real,
                                                c: real, aSize: real, bSize: real, planeAxis: Axis)

  /** `FLT_TOLERANCE`: how far apart the two corners may be on the plane axis. */
  const FLT_TOLERANCE: real := 0.0000001

  /** The coordinate index of the plane axis. */
  function PlaneIndex(axis: Axis): (i: nat)
    ensures i < 3
  {
    match axis
    case X => 0
    case Y => 1
    case Z => 2
  }

  /** The coordinate indices of the in-plane axes `a` and `b`: X -> (y, z), Y -> (x, z), Z -> (x, y). */
  function AIndex(axis: Axis): (i: nat)
    ensures i < 3 && i != PlaneIndex(axis)
  {
    match axis
    case X => 1
    case Y => 0
    case Z => 0
  }

  function BIndex(axis: Axis): (i: nat)
    ensures i < 3 && i != PlaneIndex(axis) && i != AIndex(axis) && AIndex(axis) < i
  {
    match axis
    case X => 2
    case Y => 2
    case Z => 1
  }

  function Abs(x: real): real {
    if x < 0.0 then -x else x
  }

  /**
   * `AxisAlignedRect::new` from two corners: `None` (a panic in the source) when the
   * corners differ by more than the tolerance on the plane axis; otherwise the plane
   * coordinate comes from `min` and the extent from the in-plane coordinates.
   */
  function New<M>(min: Vec3, max: Vec3, planeAxis: Axis, material: M): (res: Option<AxisAlignedRect<M>>)
    ensures var p := PlaneIndex(planeAxis);
            res.None? <==> Abs(Index(min, p) - Index(max, p)) > FLT_TOLERANCE
    ensures res.Some? ==> var rect := res.value;
            rect.planeAxis == planeAxis && rect.material == material &&
            rect.c == Index(min, PlaneIndex(planeAxis)) &&
            rect.a0 == Index(min, AIndex(planeAxis)) && rect.a1 == Index(max, AIndex(planeAxis)) &&
            rect.b0 == Index(min, BIndex(planeAxis)) && rect.b1 == Index(max, BIndex(planeAxis)) &&
            rect.aSize == rect.a1 - rect.a0 && rect.bSize == rect.b1 - rect.b0
  {
    var fields: Option<(real, real, real, real, real)> :=
      match planeAxis
      case X => if Abs(min.x - max.x) > FLT_TOLERANCE then None else Some((min.x, min.y, min.z, max.y, max.z))
      case Y => if Abs(min.y - max.y) > FLT_TOLERANCE then None else Some((min.y, min.x, min.z, max.x, max.z))
      case Z => if Abs(min.z - max.z) > FLT_TOLERANCE then None else Some((min.z, min.x, min.y, max.x, max.y));
    match fields
    case None => None
    case Some((c, a0, b0, a1, b1)) =>
      Some(AxisAlignedRect(material, a0, a1, b0, b1, c, a1 - a0, b1 - b0, planeAxis))
  }

  /**
   * The rectangle as the box builds it, from the extent and plane coordinate directly
   * (the five-scalar signature the box's call sites use).
   */
  function FromExtent<M>(a0: real, a1: real, b0: real, b1: real, c: real, planeAxis: Axis, material: M): (rect: AxisAlignedRect<M>)
    ensures rect.aSize == a1 - a0 && rect.bSize == b1 - b0
  {
    AxisAlignedRect(material, a0, a1, b0, b1, c, a1 - a0, b1 - b0, planeAxis)
  }

  /** `get_plane_intersection`: the parameter at which the ray reaches the plane. */
  function PlaneIntersection<M>(rect: AxisAlignedRect<M>, r: Ray): (t: real)
    requires Index(r.direction, PlaneIndex(rect.planeAxis)) != 0.0
    ensures var i := PlaneIndex(rect.planeAxis); t == (rect.c - Index(r.origin, i)) / Index(r.direction, i)
  {
    match rect.planeAxis
    case X => (rect.c - r.origin.x) / r.direction.x
    case Y => (rect.c - r.origin.y) / r.direction.y
    case Z => (rect.c - r.origin.z) / r.direction.z
  }

  /** `get_ab_intersection`: the in-plane coordinates of the ray's point at `t`. */
  function ABIntersection<M>(rect: AxisAlignedRect<M>, r: Ray, t: real): (ab: (real, real))
    ensures ab.0 == Index(PointAt(r, t), AIndex(rect.planeAxis))
    ensures ab.1 == Index(PointAt(r, t), BIndex(rect.planeAxis))
  {
    var a := match rect.planeAxis
      case X => r.origin.y + t * r.direction.y
      case Y => r.origin.x + t * r.direction.x
      case Z => r.origin.x + t * r.direction.x;
    var b := match rect.planeAxis
      case X => r.origin.z + t * r.direction.z
      case Y => r.origin.z + t * r.direction.z
      case Z => r.origin.y + t * r.direction.y;
    (a, b)
  }

  /** `get_plane_normal`: the unit vector along the plane axis. */
  function PlaneNormal(axis: Axis): (n: Vec3)
    ensures SquaredLength(n) == 1.0
    ensures Index(n, PlaneIndex(axis)) == 1.0 && Index(n, AIndex(axis)) == 0.0 && Index(n, BIndex(axis)) == 0.0
  {
    match axis
    case X => Vec3(1.0, 0.0, 0.0)
    case Y => Vec3(0.0, 1.0, 0.0)
    case Z => Vec3(0.0, 0.0, 1.0)
  }

  /** A texture coordinate `x / size`; a degenerate extent would give NaN, here 0. */
  function Ratio(x: real, size: real): real {
    if size == 0.0 then 0.0 else x / size
  }

  /** The ray meets the rectangle's plane: its direction has a component along the plane axis. */
  predicate CrossesPlane<M>(rect: AxisAlignedRect<M>, r: Ray) {
    Index(r.direction, PlaneIndex(rect.planeAxis)) != 0.0
  }

  /**
   * `AxisAlignedRect::hit`: the plane parameter must lie in [`tmin`, `tmax`] and the
   * in-plane point in the closed extent; the texture coordinates are the point's
   * offsets relative to the extent's sizes. The model treats a ray parallel to the
   * plane as a miss. In floating point the parameter is then infinite, which the
   * range test rejects, or NaN when the origin lies in the plane, which every
   * rejecting comparison lets through, so the source reports a hit at NaN; NaN is
   * not modelled (see the floating-point line of the README's "Left out").
   */
  function Hit<M>(rect: AxisAlignedRect<M>, r: Ray, tmin: real, tmax: real): (h: Option<HitRecord<M>>)
    ensures h.Some? ==> CrossesPlane(rect, r) && h.value.t == PlaneIntersection(rect, r)
    ensures h.Some? ==> tmin <= h.value.t <= tmax
    ensures h.Some? ==> var (a, b) := ABIntersection(rect, r, h.value.t);
                        rect.a0 <= a <= rect.a1 && rect.b0 <= b <= rect.b1
    ensures h.Some? ==> h.value.p == PointAt(r, h.value.t) && h.value.normal == PlaneNormal(rect.planeAxis)
    ensures h.Some? ==> h.value.mat == rect.material
    ensures (CrossesPlane(rect, r) && tmin <= PlaneIntersection(rect, r) <= tmax &&
             rect.a0 <= ABIntersection(rect, r, PlaneIntersection(rect, r)).0 <= rect.a1 &&
             rect.b0 <= ABIntersection(rect, r, PlaneIntersection(rect, r)).1 <= rect.b1) ==> h.Some?
  {
    if !CrossesPlane(rect, r) then None
    else
      var t := PlaneIntersection(rect, r);
      if t < tmin || t > tmax then None
      else
        var (a, b) := ABIntersection(rect, r, t);
        if a < rect.a0 || a > rect.a1 || b < rect.b0 || b > rect.b1 then None
        else Some(HitRecord(t, Ratio(a - rect.a0, rect.aSize), Ratio(b - rect.b0, rect.bSize),
                            PointAt(r, t), PlaneNormal(rect.planeAxis), rect.material))
  }

  lemma RatioInUnitInterval(x: real, size: real)
    requires 0.0 <= x <= size
    ensures 0.0 <= Ratio(x, size) <= 1.0
  {
    if size != 0.0 {
      var k := 1.0 / size;
      assert 0.0 < k;
      assert x / size == x * k;
      assert size * k == 1.0;
      MulNonNegative(x, k);
      MulNonNegative(size - x, k);
      assert (size - x) * k == size * k - x * k;
    }
  }

  lemma DivThenMul(x: real, d: real)
    requires d != 0.0
    ensures d * (x / d) == x
  {
  }

  /** The hit point lies on the rectangle's plane. */
  lemma HitOnPlane<M>(rect: AxisAlignedRect<M>, r: Ray, tmin: real, tmax: real)
    ensures var h := Hit(rect, r, tmin, tmax);
            h.Some? ==> Index(h.value.p, PlaneIndex(rect.planeAxis)) == rect.c
  {
    var h := Hit(rect, r, tmin, tmax);
    if h.Some? {
      var i := PlaneIndex(rect.planeAxis);
      var t := h.value.t;
      var d := Index(r.direction, i);
      var o := Index(r.origin, i);
      DivThenMul(rect.c - o, d);
      IndexOfPointAt(r, t, i);
    }
  }

  /** For a rectangle with its cached sizes, the texture coordinates of a hit lie in [0, 1]. */
  lemma HitTextureCoordinates<M>(rect: AxisAlignedRect<M>, r: Ray, tmin: real, tmax: real)
    requires rect.aSize == rect.a1 - rect.a0 && rect.bSize == rect.b1 - rect.b0
    ensures var h := Hit(rect, r, tmin, tmax);
            h.Some? ==> 0.0 <= h.value.u <= 1.0 && 0.0 <= h.value.v <= 1.0
  {
    var h := Hit(rect, r, tmin, tmax);
    if h.Some? {
      var (a, b) := ABIntersection(rect, r, h.value.t);
      RatioInUnitInterval(a - rect.a0, rect.aSize);
      RatioInUnitInterval(b - rect.b0, rect.bSize);
    }
  }

  /** The rectangle reports its only hit: lowering the upper bound keeps it unless it lies beyond the bound. */
  lemma HitUnderLowerBound<M>(rect: AxisAlignedRect<M>, r: Ray, lo: real, hi: real, hi': real)
    requires hi' <= hi
    ensures Hit(rect, r, lo, hi') == Narrowed(Hit(rect, r, lo, hi), hi', false)
  {
  }

  /** `AxisAlignedRect::bounding_box`: the extent, padded by 0.0001 on either side of the plane. */
  function BoundingBox<M>(rect: AxisAlignedRect<M>, t0: real, t1: real): (b: AABB)
    ensures Index(b.min, PlaneIndex(rect.planeAxis)) == rect.c - 0.0001
    ensures Index(b.max, PlaneIndex(rect.planeAxis)) == rect.c + 0.0001
    ensures Index(b.min, AIndex(rect.planeAxis)) == rect.a0 && Index(b.max, AIndex(rect.planeAxis)) == rect.a1
    ensures Index(b.min, BIndex(rect.planeAxis)) == rect.b0 && Index(b.max, BIndex(rect.planeAxis)) == rect.b1
  {
    match rect.planeAxis
    case X => AABB(Vec3(rect.c - 0.0001, rect.a0, rect.b0), Vec3(rect.c + 0.0001, rect.a1, rect.b1))
    case Y => AABB(Vec3(rect.a0, rect.c - 0.0001, rect.b0), Vec3(rect.a1, rect.c + 0.0001, rect.b1))
    case Z => AABB(Vec3(rect.a0, rect.b0, rect.c - 0.0001), Vec3(rect.a1, rect.b1, rect.c + 0.0001))
  }

  /** Every hit point lies inside the rectangle's bounding box. */
  lemma HitInsideBoundingBox<M>(rect: AxisAlignedRect<M>, r: Ray, tmin: real, tmax: real, t0: real, t1: real)
    ensures var h := Hit(rect, r, tmin, tmax);
            h.Some? ==> InBox(BoundingBox(rect, t0, t1), h.value.p)
  {
    HitOnPlane(rect, r, tmin, tmax);
  }
}
