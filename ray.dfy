/** Rays with an origin, a direction and a time stamp (src/math/ray.rs). */
module RayMath {
  import opened Vec3Math

  datatype Ray = Ray(origin: Vec3, direction: Vec3, time: real)

  /** `point_at_parameter`: the point reached after travelling `t` directions from the origin. */
  function PointAt(r: Ray, t: real): (p: Vec3)
    ensures Sub(p, r.origin) == Scale(r.direction, t)
  {
    Add(r.origin, Scale(r.direction, t))
  }

  /** Moving along the ray is additive in the parameter. */
  lemma PointAtIsAffine(r: Ray, s: real, t: real)
    ensures PointAt(r, 0.0) == r.origin
    ensures PointAt(r, s + t) == Add(PointAt(r, s), Scale(r.direction, t))
    ensures Sub(PointAt(r, t), PointAt(r, s)) == Scale(r.direction, t - s)
  {
  }
}
