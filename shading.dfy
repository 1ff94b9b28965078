/**
 * The colour of a camera ray (`color` in src/trace.rs), the sky it sees when it
 * escapes, and the Reinhard tone curve applied before display.
 *
 * The world is a function giving the closest hit of a ray over (0.001, `f64::MAX`);
 * a material's emission and its scattering (an attenuation and a new ray, or
 * nothing) are functions too, since the material interface `color` calls is not the
 * one src/material.rs defines.
 */
module Shading {
  import opened Vec3Math
  import opened RayMath
  import opened Options
  import opened Hitable
  import opened MathUtil

  /** The horizon-to-zenith sky colour `color` blends towards when looking up. */
  const SKY: Vec3 := Vec3(0.5, 0.7, 1.0)
  const EXPOSURE: real := 1.5

  /** What a material's `scatter` gives `color`: the attenuation and the scattered ray. */
  datatype Scattered = Scattered(attenuation: Vec3, scattered: Ray)

  /** Scattered rays have a direction, so that the sky colour of a scattered ray is defined. */
  ghost predicate ScattersAlongDirections<M(!new)>(scatter: (Ray, HitRecord<M>) -> Option<Scattered>) {
    forall r, h | scatter(r, h).Some? :: 0.0 < SquaredLength(scatter(r, h).value.scattered.direction)
  }

  /**
   * The colour of a ray that hits nothing: white blended towards `SKY` by the unit
   * direction's height `t = (y + 1) / 2`, scaled by the sky brightness.
   */
  function SkyColour(direction: Vec3, skyBrightness: real, sqrt: real -> real): (c: Vec3)
    requires IsSqrt(sqrt) && 0.0 < SquaredLength(direction)
    ensures 0.0 <= skyBrightness ==>
              0.5 * skyBrightness <= c.x <= skyBrightness && 0.7 * skyBrightness <= c.y <= skyBrightness &&
              c.z == skyBrightness
    ensures skyBrightness == 0.0 ==> c == FromFloat(0.0)
  {
    var u := Unit(direction, sqrt);
    UnitComponentBounds(u);
    if 0.0 <= skyBrightness then
      SkyAtBounds(u.y, skyBrightness);
      SkyAt(u.y, skyBrightness)
    else SkyAt(u.y, skyBrightness)
  }

  /** The sky seen along a unit direction of height `y`. */
  function SkyAt(y: real, skyBrightness: real): Vec3 {
    var t := 0.5 * (y + 1.0);
    Scale(LerpVec(FromFloat(1.0), SKY, t), skyBrightness)
  }

  /** A component of a unit vector lies in [-1, 1]. */
  lemma UnitComponentBounds(v: Vec3)
    requires SquaredLength(v) == 1.0
    ensures -1.0 <= v.y <= 1.0
  {
    assert v.y * v.y <= 1.0;
    assert v.y > 1.0 ==> v.y * v.y > 1.0 * v.y;
    assert v.y < -1.0 ==> v.y * v.y > (-1.0) * v.y;
  }

  /** A factor in [lo, 1] scales a non-negative `b` into [lo * b, b]. */
  lemma ScaledBetween(scaled: real, x: real, lo: real, b: real)
    requires scaled == x * b && lo <= x <= 1.0 && 0.0 <= b
    ensures lo * b <= scaled <= b
  {
    MulMonotoneReal(lo, x, b);
    MulMonotoneReal(x, 1.0, b);
  }

  /**
   * Under a non-negative brightness `b` the sky is white-to-blue: red in [0.5b, b],
   * green in [0.7b, b] and blue exactly b.
   */
  lemma SkyAtBounds(y: real, skyBrightness: real)
    requires -1.0 <= y <= 1.0 && 0.0 <= skyBrightness
    ensures var c := SkyAt(y, skyBrightness);
      0.5 * skyBrightness <= c.x <= skyBrightness && 0.7 * skyBrightness <= c.y <= skyBrightness &&
      c.z == skyBrightness
  {
    var t := 0.5 * (y + 1.0);
    var l := LerpVec(FromFloat(1.0), SKY, t);
    assert SkyAt(y, skyBrightness) == Scale(l, skyBrightness);
    assert l == Vec3(Lerp(1.0, 0.5, t), Lerp(1.0, 0.7, t), Lerp(1.0, 1.0, t));
    LerpOfConstants(t);
    var c := SkyAt(y, skyBrightness);
    ScaledBetween(c.x, l.x, 0.5, skyBrightness);
    ScaledBetween(c.y, l.y, 0.7, skyBrightness);
  }

  lemma LerpOfConstants(t: real)
    requires 0.0 <= t <= 1.0
    ensures 0.5 <= Lerp(1.0, 0.5, t) <= 1.0 && 0.7 <= Lerp(1.0, 0.7, t) <= 1.0 && Lerp(1.0, 1.0, t) == 1.0
  {
  }

  /** Straight up the sky is `SKY * b`. */
  lemma SkyAtZenith(skyBrightness: real)
    ensures SkyAt(1.0, skyBrightness) == Scale(SKY, skyBrightness)
  {
    assert LerpVec(FromFloat(1.0), SKY, 1.0) == SKY;
  }

  /** Straight down it is white times `b`. */
  lemma SkyAtNadir(skyBrightness: real)
    ensures SkyAt(-1.0, skyBrightness) == FromFloat(skyBrightness)
  {
    var t := 0.5 * (-1.0 + 1.0);
    assert t == 0.0;
    assert Lerp(1.0, 0.5, t) == 1.0 && Lerp(1.0, 0.7, t) == 1.0 && Lerp(1.0, 1.0, t) == 1.0;
    assert LerpVec(FromFloat(1.0), SKY, t) == FromFloat(1.0);
  }

  /**
   * `color`: a ray that hits something takes the material's emission (zero when
   * emission is disabled) and, while `depth < max_depth`, adds the attenuated colour
   * of the scattered ray one level deeper; a ray that hits nothing sees the sky.
   */
  function Color<M(!new)>(r: Ray, world: Ray -> Option<HitRecord<M>>, emitted: (M, real, real, Vec3) -> Vec3,
                    scatter: (Ray, HitRecord<M>) -> Option<Scattered>, depth: int, skyBrightness: real,
                    disableEmissive: bool, maxDepth: int, sqrt: real -> real): (c: Vec3)
    requires IsSqrt(sqrt) && 0.0 < SquaredLength(r.direction) && ScattersAlongDirections(scatter)
    ensures disableEmissive && skyBrightness == 0.0 ==> c == FromFloat(0.0)
    decreases maxDepth - depth
  {
    match world(r)
    case Some(h) =>
      var colour := if !disableEmissive then emitted(h.mat, h.u, h.v, h.p) else FromFloat(0.0);
      if depth < maxDepth then
        match scatter(r, h)
        case Some(s) =>
          Add(colour, Mul(s.attenuation,
                          Color(s.scattered, world, emitted, scatter, depth + 1, skyBrightness, disableEmissive, maxDepth, sqrt)))
        case None => colour
      else colour
    case None => SkyColour(r.direction, skyBrightness, sqrt)
  }

  /**
   * The number of scattering events `color` follows for a ray: never more than
   * `max_depth - depth`, so a path has at most `max_depth` bounces.
   */
  function Bounces<M>(r: Ray, world: Ray -> Option<HitRecord<M>>, scatter: (Ray, HitRecord<M>) -> Option<Scattered>,
                      depth: int, maxDepth: int): (n: nat)
    ensures n <= if depth < maxDepth then maxDepth - depth else 0
    decreases maxDepth - depth
  {
    match world(r)
    case Some(h) =>
      if depth < maxDepth then
        match scatter(r, h)
        case Some(s) => 1 + Bounces(s.scattered, world, scatter, depth + 1, maxDepth)
        case None => 0
      else 0
    case None => 0
  }

  /**
   * A path that ends before the depth limit (it escapes to the sky or a material absorbs
   * it after fewer than `max_depth - depth` bounces) is not truncated: raising
   * `max_depth` changes neither its colour nor its bounce count.
   */
  lemma {:induction false} ShortPathIgnoresDepthLimit<M(!new)>(r: Ray, world: Ray -> Option<HitRecord<M>>,
                                                          emitted: (M, real, real, Vec3) -> Vec3,
                                                          scatter: (Ray, HitRecord<M>) -> Option<Scattered>,
                                                          depth: int, skyBrightness: real, disableEmissive: bool,
                                                          maxDepth: int, maxDepth': int, sqrt: real -> real)
    requires IsSqrt(sqrt) && 0.0 < SquaredLength(r.direction) && ScattersAlongDirections(scatter)
    requires Bounces(r, world, scatter, depth, maxDepth) < maxDepth - depth && maxDepth <= maxDepth'
    ensures Color(r, world, emitted, scatter, depth, skyBrightness, disableEmissive, maxDepth', sqrt) ==
            Color(r, world, emitted, scatter, depth, skyBrightness, disableEmissive, maxDepth, sqrt)
    ensures Bounces(r, world, scatter, depth, maxDepth') == Bounces(r, world, scatter, depth, maxDepth)
    decreases maxDepth - depth
  {
    if world(r).Some? && scatter(r, world(r).value).Some? {
      var s := scatter(r, world(r).value).value;
      ShortPathIgnoresDepthLimit(s.scattered, world, emitted, scatter, depth + 1, skyBrightness, disableEmissive,
                                 maxDepth, maxDepth', sqrt);
    }
  }

  /** At the depth limit a hit contributes only its own emission; the material is not asked to scatter. */
  lemma ColorAtDepthLimit<M(!new)>(r: Ray, world: Ray -> Option<HitRecord<M>>, emitted: (M, real, real, Vec3) -> Vec3,
                             scatter: (Ray, HitRecord<M>) -> Option<Scattered>,
                             scatter': (Ray, HitRecord<M>) -> Option<Scattered>, depth: int, skyBrightness: real,
                             disableEmissive: bool, maxDepth: int, sqrt: real -> real)
    requires IsSqrt(sqrt) && 0.0 < SquaredLength(r.direction)
    requires ScattersAlongDirections(scatter) && ScattersAlongDirections(scatter') && maxDepth <= depth
    ensures Color(r, world, emitted, scatter, depth, skyBrightness, disableEmissive, maxDepth, sqrt) ==
            Color(r, world, emitted, scatter', depth, skyBrightness, disableEmissive, maxDepth, sqrt)
    ensures world(r).Some? && disableEmissive ==>
              Color(r, world, emitted, scatter, depth, skyBrightness, disableEmissive, maxDepth, sqrt) == FromFloat(0.0)
  {
  }

  /** The tone curve on one component after exposure: `e x / (e x + 1)`. */
  function Tone(x: real): real
    requires EXPOSURE * x + 1.0 != 0.0
  {
    (EXPOSURE * x) / (EXPOSURE * x + 1.0)
  }

  /** `reinhard_tonemap`: exposure 1.5, then `c / (c + 1)` component by component. */
  function ReinhardTonemap(colour: Vec3): (r: Vec3)
    requires NoZeroComponent(AddFloat(Scale(colour, EXPOSURE), 1.0))
    ensures r == Vec3(Tone(colour.x), Tone(colour.y), Tone(colour.z))
  {
    var exposed := Scale(colour, EXPOSURE);
    Div(exposed, AddFloat(exposed, 1.0))
  }

  /** A non-negative component maps into [0, 1), zero to zero, and brighter stays brighter. */
  lemma ToneBounds(a: real, b: real)
    requires 0.0 <= a <= b
    ensures 0.0 <= Tone(a) < 1.0 && Tone(0.0) == 0.0
    ensures Tone(a) <= Tone(b)
  {
    var da := EXPOSURE * a + 1.0;
    var db := EXPOSURE * b + 1.0;
    assert Tone(a) == 1.0 - 1.0 / da;
    assert Tone(b) == 1.0 - 1.0 / db;
    assert 1.0 / db <= 1.0 / da by {
      assert (1.0 / db) * db == 1.0;
      assert (1.0 / da) * da == 1.0;
      MulMonotoneReal(da, db, 1.0 / da);
      MulMonotoneReal(1.0 / db, 1.0 / da, db);
    }
  }

  /** A non-negative colour tone-maps into the unit cube without reaching 1. */
  lemma ReinhardInUnitCube(colour: Vec3)
    requires 0.0 <= colour.x && 0.0 <= colour.y && 0.0 <= colour.z
    ensures NoZeroComponent(AddFloat(Scale(colour, EXPOSURE), 1.0))
    ensures var r := ReinhardTonemap(colour);
      0.0 <= r.x < 1.0 && 0.0 <= r.y < 1.0 && 0.0 <= r.z < 1.0
  {
    ToneBounds(colour.x, colour.x);
    ToneBounds(colour.y, colour.y);
    ToneBounds(colour.z, colour.z);
  }
}
