/**
 * A participating medium of constant density inside a boundary (src/volume.rs).
 * The boundary is any value with a hit oracle; the uniform draw the source takes the
 * logarithm of is a parameter (`lnDraw`, the logarithm itself).
 */
module Volume {
  import opened Vec3Math
  import opened RayMath
  import opened Options
  import opened Hitable
  import opened Materials

  /** `std::f64::MAX`. */
  const F64_MAX: real := 179769313486231570814527423731704356798070567525844996598917476803157260780028538760589558632766878171540458953514382464234321326889464182768467546703537516986049910576551282076245490090389328944075868508455133942304583236903222948165808559332123348274797826204144723168738177180919299881250404026184124858368.0

  /** How far past the entry point the exit point is searched from. */
  const EXIT_SEARCH_OFFSET: real := 0.0001

  datatype ConstantMedium<B> = ConstantMedium(boundary: B, density: real, phaseFunction: Material)

  /** `ConstantMedium::new`: the phase function is isotropic with the given texture. */
  function New<B>(boundary: B, density: real, texture: Vec3): (m: ConstantMedium<B>)
    ensures m.boundary == boundary && m.density == density && m.phaseFunction == Isotropic(texture)
  {
    ConstantMedium(boundary, density, Isotropic(texture))
  }

  /**
   * Where the ray crosses the boundary: the first hit along the whole line, then the
   * first hit a little beyond it.
   */
  function Crossings<B, M>(m: ConstantMedium<B>, boundaryHit: (B, Ray, real, real) -> Option<HitRecord<M>>, r: Ray): (res: Option<(real, real)>)
    ensures res.Some? <==> (boundaryHit(m.boundary, r, -F64_MAX, F64_MAX).Some? &&
      boundaryHit(m.boundary, r, boundaryHit(m.boundary, r, -F64_MAX, F64_MAX).value.t + EXIT_SEARCH_OFFSET, F64_MAX).Some?)
  {
    match boundaryHit(m.boundary, r, -F64_MAX, F64_MAX)
    case None => None
    case Some(rec1) =>
      match boundaryHit(m.boundary, r, rec1.t + EXIT_SEARCH_OFFSET, F64_MAX)
      case None => None
      case Some(rec2) => Some((rec1.t, rec2.t))
  }

  /** The sampled free path length, `-(1/density) * ln(draw)`; a zero density never scatters. */
  function HitDistance(density: real, lnDraw: real): (d: real)
    requires density != 0.0
    ensures density * d == -lnDraw
  {
    assert density * (1.0 / density) == 1.0;
    -(1.0 / density) * lnDraw
  }

  /**
   * `ConstantMedium::hit`: clip the boundary crossings to `[tmin, tmax]`, sample a
   * free path and scatter inside the medium if it is shorter than the distance
   * through it. With zero density the free path is infinite (or NaN), so the ray
   * always passes through.
   */
  function Hit<B, M>(m: ConstantMedium<B>, boundaryHit: (B, Ray, real, real) -> Option<HitRecord<M>>, r: Ray,
                     tmin: real, tmax: real, lnDraw: real, sqrt: real -> real): (res: Option<HitRecord<Material>>)
    requires IsSqrt(sqrt) && 0.0 < SquaredLength(r.direction)
    ensures Crossings(m, boundaryHit, r).None? || m.density == 0.0 ==> res.None?
    ensures res.Some? ==> var (t1, t2) := Crossings(m, boundaryHit, r).value;
      MaxReal(t1, tmin) < MinReal(t2, tmax) &&
      HitDistance(m.density, lnDraw) < (MinReal(t2, tmax) - MaxReal(t1, tmin)) * Length(r.direction, sqrt) &&
      res.value.t == MaxReal(t1, tmin) + HitDistance(m.density, lnDraw) / Length(r.direction, sqrt)
    ensures res.Some? ==> (res.value.p == PointAt(r, res.value.t) && res.value.u == 0.0 && res.value.v == 0.0 &&
      res.value.normal == Vec3(1.0, 0.0, 0.0) && res.value.mat == m.phaseFunction)
  {
    match Crossings(m, boundaryHit, r)
    case None => None
    case Some((entry, exit)) =>
      var t1 := MaxReal(entry, tmin);
      var t2 := MinReal(exit, tmax);
      if t1 >= t2 then None
      else if m.density == 0.0 then None
      else
        var rayLength := Length(r.direction, sqrt);
        var distanceInsideBoundary := (t2 - t1) * rayLength;
        var hitDistance := HitDistance(m.density, lnDraw);
        if hitDistance < distanceInsideBoundary then
          var time := t1 + hitDistance / rayLength;
          Some(HitRecord(time, 0.0, 0.0, PointAt(r, time), Vec3(1.0, 0.0, 0.0), m.phaseFunction))
        else None
  }

  /** Advancing by a non-negative distance shorter than the segment stays inside it. */
  lemma StepStaysInSegment(t1: real, t2: real, hd: real, len: real)
    requires 0.0 < len && 0.0 <= hd && hd < (t2 - t1) * len
    ensures t1 <= t1 + hd / len < t2
  {
    var q := hd / len;
    assert q * len == hd;
    assert (t2 - t1 - q) * len > 0.0;
    MulNonNegative(hd, 1.0 / len);
    assert q == hd * (1.0 / len);
  }

  /** A positive density and a non-positive logarithm give a non-negative free path. */
  lemma FreePathNonNegative(density: real, lnDraw: real)
    requires 0.0 < density && lnDraw <= 0.0
    ensures 0.0 <= HitDistance(density, lnDraw)
  {
    MulNonNegative(1.0 / density, -lnDraw);
  }

  lemma MulPreservesOrder(a: real, b: real, c: real)
    requires 0.0 < c
    ensures a < b <==> a * c < b * c
  {
    if a < b {
      assert (b - a) * c > 0.0;
    } else {
      MulNonNegative(a - b, c);
    }
  }

  /**
   * For a positive density and a draw in (0, 1] (non-positive logarithm) the free
   * path is non-negative, so a scattering point lies in the clipped segment.
   */
  lemma ScatterPointInsideMedium<B, M>(m: ConstantMedium<B>, boundaryHit: (B, Ray, real, real) -> Option<HitRecord<M>>, r: Ray,
                                       tmin: real, tmax: real, lnDraw: real, sqrt: real -> real)
    requires IsSqrt(sqrt) && 0.0 < SquaredLength(r.direction)
    requires 0.0 < m.density && lnDraw <= 0.0
    requires Hit(m, boundaryHit, r, tmin, tmax, lnDraw, sqrt).Some?
    ensures var t := Hit(m, boundaryHit, r, tmin, tmax, lnDraw, sqrt).value.t;
            var (entry, exit) := Crossings(m, boundaryHit, r).value;
            tmin <= t < tmax && entry <= t < exit
  {
    var (entry, exit) := Crossings(m, boundaryHit, r).value;
    LengthPositive(r.direction, sqrt);
    FreePathNonNegative(m.density, lnDraw);
    StepStaysInSegment(MaxReal(entry, tmin), MinReal(exit, tmax), HitDistance(m.density, lnDraw), Length(r.direction, sqrt));
  }

  /**
   * The medium scatters exactly when the optical depth `density * distance` exceeds
   * the exponential draw `-ln(draw)` (for a positive density and a clipped segment
   * that is not empty).
   */
  lemma ScattersIffOpticalDepthExceedsDraw<B, M>(m: ConstantMedium<B>, boundaryHit: (B, Ray, real, real) -> Option<HitRecord<M>>, r: Ray,
                                                 tmin: real, tmax: real, lnDraw: real, sqrt: real -> real)
    requires IsSqrt(sqrt) && 0.0 < SquaredLength(r.direction) && 0.0 < m.density
    requires Crossings(m, boundaryHit, r).Some?
    requires var (entry, exit) := Crossings(m, boundaryHit, r).value; MaxReal(entry, tmin) < MinReal(exit, tmax)
    ensures var (entry, exit) := Crossings(m, boundaryHit, r).value;
            var distance := (MinReal(exit, tmax) - MaxReal(entry, tmin)) * Length(r.direction, sqrt);
            Hit(m, boundaryHit, r, tmin, tmax, lnDraw, sqrt).Some? <==> -lnDraw < m.density * distance
  {
    var (entry, exit) := Crossings(m, boundaryHit, r).value;
    var distance := (MinReal(exit, tmax) - MaxReal(entry, tmin)) * Length(r.direction, sqrt);
    var hd := HitDistance(m.density, lnDraw);
    assert hd * m.density == -lnDraw by {
      assert (1.0 / m.density) * m.density == 1.0;
    }
    MulPreservesOrder(hd, distance, m.density);
  }

  /** `ConstantMedium::bounding_box`: the boundary's box. */
  function BoundingBox<B, Box>(m: ConstantMedium<B>, boundaryBox: (B, real, real) -> Box, t0: real, t1: real): (b: Box)
    ensures b == boundaryBox(m.boundary, t0, t1)
  {
    boundaryBox(m.boundary, t0, t1)
  }
}
