/**
 * Materials, their scattering and emission, and the sampling PDFs (src/material.rs).
 * Textures are constant colours (src/texture.rs), so a texture is its colour.
 * Random draws and the random directions the source samples are parameters.
 */
module Materials {
  import opened Vec3Math
  import opened RayMath
  import opened Options
  import opened Onb
  import opened Hitable

  /** `std::f64::consts::FRAC_1_PI`. */
  const FRAC_1_PI: real := 0.318309886183790671537767526745028724

  datatype Material =
    | DummyMaterial
    | Dielectric(refIdx: real)
    | Metal(albedo: Vec3, fuzz: real)
    | Lambertian(texture: Vec3, emissive: real)
    | DiffuseLight(light: Vec3)
    | Isotropic(phase: Vec3)

  /** The PDFs a scatter result can carry. */
  datatype Pdf = CosinePdf(uvw: ONB) | MixturePdf(pdf0: Pdf, pdf1: Pdf) | DummyPdf

  datatype ScatterResult = ScatterResult(specularRay: Ray, isSpecular: bool, albedo: Vec3, pdf: Pdf)

  /** `Ray::default()`. */
  const DefaultRay := Ray(Zero, Zero, 0.0)

  /** `reflect`: mirror `v` about the plane with normal `n`. */
  function Reflect(v: Vec3, n: Vec3): (r: Vec3)
    ensures Add(r, Scale(n, 2.0 * Dot(v, n))) == v
  {
    Sub(v, Scale(n, 2.0 * Dot(v, n)))
  }

  /** About a unit normal, reflection negates the normal component. */
  lemma ReflectNegatesNormalComponent(v: Vec3, n: Vec3)
    requires SquaredLength(n) == 1.0
    ensures Dot(Reflect(v, n), n) == -Dot(v, n)
  {
    var k := 2.0 * Dot(v, n);
    var r := Reflect(v, n);
    DotIsSymmetricAndBilinear(r, Scale(n, k), n, k);
    DotIsSymmetricAndBilinear(n, n, n, k);
    assert Dot(v, n) == Dot(r, n) + k * Dot(n, n);
  }

  /** About a unit normal, reflecting twice gives the original vector back. */
  lemma ReflectIsInvolution(v: Vec3, n: Vec3)
    requires SquaredLength(n) == 1.0
    ensures Reflect(Reflect(v, n), n) == v
  {
    ReflectNegatesNormalComponent(v, n);
    var k := 2.0 * Dot(v, n);
    var r := Reflect(v, n);
    assert 2.0 * Dot(r, n) == -k;
    assert Reflect(r, n) == Sub(r, Scale(n, -k));
  }

  /** The squared cosine of the refracted angle, by Snell's law, for incidence cosine `dt`. */
  function RefractDiscriminant(dt: real, niOverNt: real): (d: real)
    ensures dt * dt <= 1.0 && niOverNt * niOverNt <= 1.0 ==> dt * dt <= d <= 1.0
    ensures niOverNt * niOverNt == 1.0 ==> d == dt * dt
  {
    var e2, s2 := niOverNt * niOverNt, 1.0 - dt * dt;
    if dt * dt <= 1.0 && e2 <= 1.0 then
      MulNonNegative(s2, 1.0 - e2);
      MulNonNegative(e2, s2);
      assert s2 * (1.0 - e2) == s2 - e2 * s2;
      1.0 - e2 * s2
    else 1.0 - e2 * s2
  }

  /**
   * `refract` as a value: the refracted direction of `v` through a surface with
   * normal `n` and index ratio `niOverNt`, or `None` on total internal reflection.
   */
  function Refracted(v: Vec3, n: Vec3, niOverNt: real, sqrt: real -> real): (res: Option<Vec3>)
    requires IsSqrt(sqrt) && 0.0 < SquaredLength(v)
    ensures res.Some? <==> RefractDiscriminant(Dot(Unit(v, sqrt), n), niOverNt) > 0.0
    ensures res.Some? && SquaredLength(n) == 1.0 ==>
              Dot(res.value, n) == -sqrt(RefractDiscriminant(Dot(Unit(v, sqrt), n), niOverNt)) && Dot(res.value, n) < 0.0
    ensures res.Some? && SquaredLength(n) == 1.0 ==>
              var uv := Unit(v, sqrt);
              Sub(res.value, Scale(n, Dot(res.value, n))) == Scale(Sub(uv, Scale(n, Dot(uv, n))), niOverNt)
  {
    var uv := Unit(v, sqrt);
    var dt := Dot(uv, n);
    var discriminant := RefractDiscriminant(dt, niOverNt);
    if discriminant > 0.0 then
      var s := sqrt(discriminant);
      assert s * s == discriminant;
      if SquaredLength(n) == 1.0 then
        SnellSplit(uv, n, dt, niOverNt, s);
        Some(Sub(Scale(Sub(uv, Scale(n, dt)), niOverNt), Scale(n, s)))
      else Some(Sub(Scale(Sub(uv, Scale(n, dt)), niOverNt), Scale(n, s)))
    else None
  }

  /**
   * Snell's law in components: `eta` times the tangent of `uv` minus `s` times a unit
   * normal has normal component `-s` (negative for `0 < s * s`) and that scaled tangent
   * as its tangential part.
   */
  lemma SnellSplit(uv: Vec3, n: Vec3, dt: real, eta: real, s: real)
    requires SquaredLength(uv) == 1.0 && SquaredLength(n) == 1.0 && dt == Dot(uv, n) && 0.0 <= s && 0.0 < s * s
    ensures var r := Sub(Scale(Sub(uv, Scale(n, dt)), eta), Scale(n, s));
            Dot(r, n) == -s && Dot(r, n) < 0.0 && Sub(r, Scale(n, Dot(r, n))) == Scale(Sub(uv, Scale(n, dt)), eta)
  {
    var a := Sub(uv, Scale(n, dt));
    var r := Sub(Scale(a, eta), Scale(n, s));
    TangentPart(uv, n, dt);
    assert Dot(n, n) == 1.0 by { DotOfDifference(n, n, n); }
    assert Dot(r, n) == -s by {
      DotOfDifference(Scale(a, eta), Scale(n, s), n);
      DotIsSymmetricAndBilinear(a, n, n, eta);
      DotIsSymmetricAndBilinear(n, n, n, s);
    }
    assert 0.0 < s;
    assert Sub(r, Scale(n, -s)) == Scale(a, eta);
  }

  /** Removing the normal part of a unit vector leaves a tangent of squared length `1 - dt^2`. */
  lemma TangentPart(uv: Vec3, n: Vec3, dt: real)
    requires SquaredLength(uv) == 1.0 && SquaredLength(n) == 1.0 && dt == Dot(uv, n)
    ensures Dot(Sub(uv, Scale(n, dt)), n) == 0.0
    ensures SquaredLength(Sub(uv, Scale(n, dt))) == 1.0 - dt * dt
  {
    var sn := Scale(n, dt);
    var nn := Dot(n, n);
    assert nn == 1.0 by { DotOfDifference(n, n, n); }
    assert Dot(sn, n) == dt by {
      DotIsSymmetricAndBilinear(n, n, n, dt);
      assert Dot(sn, n) == dt * nn;
    }
    assert Dot(uv, sn) == dt * dt by { DotOfScaled(uv, n, dt, dt); }
    assert SquaredLength(sn) == dt * dt by {
      DotOfScaled(n, n, dt, dt);
      assert SquaredLength(sn) == (dt * dt) * SquaredLength(n);
    }
    DotOfDifference(uv, sn, n);
  }

  /** Pythagoras for a tangent and a unit normal. */
  lemma OrthogonalSum(a: Vec3, n: Vec3, eta: real, s: real)
    requires Dot(a, n) == 0.0 && SquaredLength(n) == 1.0
    ensures SquaredLength(Sub(Scale(a, eta), Scale(n, s))) == (eta * eta) * SquaredLength(a) + s * s
  {
    DotOfDifference(Scale(a, eta), Scale(n, s), n);
    DotOfScaled(a, n, eta, s);
    DotOfScaled(n, n, s, s);
  }

  /** Refracting through a unit normal gives a unit direction (Snell's law). */
  lemma RefractedIsUnit(v: Vec3, n: Vec3, niOverNt: real, sqrt: real -> real)
    requires IsSqrt(sqrt) && 0.0 < SquaredLength(v) && SquaredLength(n) == 1.0
    requires Refracted(v, n, niOverNt, sqrt).Some?
    ensures SquaredLength(Refracted(v, n, niOverNt, sqrt).value) == 1.0
  {
    var uv := Unit(v, sqrt);
    var dt := Dot(uv, n);
    var disc := RefractDiscriminant(dt, niOverNt);
    assert 0.0 <= disc;
    var s := sqrt(disc);
    assert s * s == disc;
    TangentPart(uv, n, dt);
    OrthogonalSum(Sub(uv, Scale(n, dt)), n, niOverNt, s);
  }

  /** The sines of the two angles: the refracted tangent has `niOverNt^2` times the incoming one's squared length. */
  lemma RefractedTangentLength(v: Vec3, n: Vec3, niOverNt: real, sqrt: real -> real)
    requires IsSqrt(sqrt) && 0.0 < SquaredLength(v) && SquaredLength(n) == 1.0
    requires Refracted(v, n, niOverNt, sqrt).Some?
    ensures var dt := Dot(Unit(v, sqrt), n);
            var r := Refracted(v, n, niOverNt, sqrt).value;
            SquaredLength(Sub(r, Scale(n, Dot(r, n)))) == (niOverNt * niOverNt) * (1.0 - dt * dt)
  {
    var uv := Unit(v, sqrt);
    var dt := Dot(uv, n);
    var a := Sub(uv, Scale(n, dt));
    TangentPart(uv, n, dt);
    ScaledSquaredLength(a, niOverNt, 1.0 - dt * dt);
  }

  lemma ScaledSquaredLength(a: Vec3, f: real, q: real)
    requires SquaredLength(a) == q
    ensures SquaredLength(Scale(a, f)) == (f * f) * q
  {
    DotOfScaled(a, a, f, f);
  }

  /**
   * `refract`: writes the refracted direction into `refracted` and returns true, or
   * returns false and leaves `refracted` as it was.
   */
  method Refract(v: Vec3, n: Vec3, niOverNt: real, refracted: Vec3Cell, sqrt: real -> real) returns (ok: bool)
    requires IsSqrt(sqrt) && 0.0 < SquaredLength(v)
    modifies refracted
    ensures ok <==> Refracted(v, n, niOverNt, sqrt).Some?
    ensures ok ==> refracted.Value() == Refracted(v, n, niOverNt, sqrt).value
    ensures !ok ==> refracted.Value() == old(refracted.Value())
  {
    var uv := Unit(v, sqrt);
    var dt := Dot(uv, n);
    var discriminant := RefractDiscriminant(dt, niOverNt);
    if discriminant > 0.0 {
      var d := Sub(Scale(Sub(uv, Scale(n, dt)), niOverNt), Scale(n, sqrt(discriminant)));
      refracted.x, refracted.y, refracted.z := d.x, d.y, d.z;
      return true;
    } else {
      return false;
    }
  }

  function Pow5(x: real): (p: real)
    ensures 0.0 <= x <= 1.0 ==> 0.0 <= p <= 1.0
    ensures x == 0.0 ==> p == 0.0
    ensures x == 1.0 ==> p == 1.0
  {
    if 0.0 <= x <= 1.0 then
      MulInUnitInterval(x, x);
      MulInUnitInterval(x * x, x);
      MulInUnitInterval(x * x * x, x);
      MulInUnitInterval(x * x * x * x, x);
      x * x * x * x * x
    else x * x * x * x * x
  }

  /** `schlick`'s reflectance at normal incidence, `((1 - n) / (1 + n))^2`. */
  function R0(refIdx: real): (r: real)
    requires refIdx != -1.0
    ensures 0.0 <= r
    ensures refIdx == 1.0 ==> r == 0.0
  {
    var q := (1.0 - refIdx) / (1.0 + refIdx);
    q * q
  }

  /** `schlick`: Schlick's approximation of the reflectance at angle cosine `cosine`. */
  function Schlick(cosine: real, refIdx: real): (r: real)
    requires refIdx != -1.0
    ensures cosine == 1.0 ==> r == R0(refIdx)
  {
    var r0 := R0(refIdx);
    r0 + (1.0 - r0) * Pow5(1.0 - cosine)
  }

  lemma MulInUnitInterval(x: real, y: real)
    requires 0.0 <= x <= 1.0 && 0.0 <= y <= 1.0
    ensures 0.0 <= x * y <= 1.0
  {
    MulNonNegative(x, y);
    MulNonNegative(1.0 - x, y);
    MulNonNegative(1.0 - y, 1.0);
  }

  lemma R0InUnitInterval(refIdx: real)
    requires 0.0 <= refIdx
    ensures 0.0 <= R0(refIdx) <= 1.0
  {
    var q := (1.0 - refIdx) / (1.0 + refIdx);
    QuotientInUnitRange(1.0 - refIdx, 1.0 + refIdx);
    MulNonNegative(1.0 - q, 1.0 + q);
    assert (1.0 - q) * (1.0 + q) == 1.0 - q * q;
  }

  lemma QuotientInUnitRange(a: real, d: real)
    requires 0.0 < d && -d <= a <= d
    ensures -1.0 <= a / d <= 1.0
  {
    assert (a / d) * d == a;
  }

  /** For a non-negative index and a cosine in [0, 1], the reflectance lies between `R0` and 1. */
  lemma SchlickBounds(cosine: real, refIdx: real)
    requires 0.0 <= refIdx && 0.0 <= cosine <= 1.0
    ensures R0(refIdx) <= Schlick(cosine, refIdx) <= 1.0
  {
    R0InUnitInterval(refIdx);
    var x := 1.0 - cosine;
    MulInUnitInterval(x, x);
    MulInUnitInterval(x * x, x);
    MulInUnitInterval(x * x * x, x);
    MulInUnitInterval(x * x * x * x, x);
    var r0 := R0(refIdx);
    MulInUnitInterval(1.0 - r0, Pow5(x));
    MulNonNegative(1.0 - r0, 1.0 - Pow5(x));
    assert (1.0 - r0) * (1.0 - Pow5(x)) == (1.0 - r0) - (1.0 - r0) * Pow5(x);
  }

  /** `Metal::new`: fuzz is capped at 1. */
  function NewMetal(albedo: Vec3, fuzz: real): (m: Material)
    ensures m.Metal? && m.albedo == albedo
    ensures m.fuzz <= 1.0 && (fuzz <= 1.0 ==> m.fuzz == fuzz) && (fuzz > 1.0 ==> m.fuzz == 1.0)
  {
    Metal(albedo, if fuzz <= 1.0 then fuzz else 1.0)
  }

  /** The materials whose parameters the scatter code can divide by. */
  predicate WellFormed(m: Material) {
    m.Dielectric? ==> 0.0 < m.refIdx
  }

  /** The normal the dielectric refracts through: flipped towards the ray when it leaves the surface. */
  function OutwardNormal(rIn: Ray, rec: HitRecord<Material>): (n: Vec3)
    ensures SquaredLength(n) == SquaredLength(rec.normal)
    ensures Dot(rIn.direction, n) <= 0.0
    ensures n == rec.normal || n == Neg(rec.normal)
  {
    if Dot(rIn.direction, rec.normal) > 0.0 then
      assert Dot(rIn.direction, Neg(rec.normal)) == -Dot(rIn.direction, rec.normal);
      Neg(rec.normal)
    else rec.normal
  }

  /** The index ratio: `refIdx` when leaving the surface, its reciprocal when entering. */
  function NiOverNt(refIdx: real, rIn: Ray, rec: HitRecord<Material>): (eta: real)
    requires 0.0 < refIdx
    ensures 0.0 < eta
    ensures Dot(rIn.direction, rec.normal) > 0.0 ==> eta == refIdx
    ensures Dot(rIn.direction, rec.normal) <= 0.0 ==> eta * refIdx == 1.0
  {
    if Dot(rIn.direction, rec.normal) > 0.0 then refIdx else 1.0 / refIdx
  }

  /** The cosine handed to `schlick`: scaled by `refIdx` when leaving the surface. */
  function IncidenceCosine(refIdx: real, rIn: Ray, rec: HitRecord<Material>, sqrt: real -> real): (c: real)
    requires IsSqrt(sqrt) && 0.0 < SquaredLength(rIn.direction)
    ensures Dot(rIn.direction, rec.normal) <= 0.0 ==> c * Length(rIn.direction, sqrt) == -Dot(rIn.direction, rec.normal)
    ensures Dot(rIn.direction, rec.normal) > 0.0 ==>
              c * Length(rIn.direction, sqrt) == refIdx * Dot(rIn.direction, rec.normal)
  {
    var len := Length(rIn.direction, sqrt);
    LengthPositive(rIn.direction, sqrt);
    var d := Dot(rIn.direction, rec.normal);
    if d > 0.0 then refIdx * d / len else -d / len
  }

  /** The refracted direction `Dielectric::scatter` computes, or `None` on total internal reflection. */
  function DielectricRefraction(refIdx: real, rIn: Ray, rec: HitRecord<Material>, sqrt: real -> real): (res: Option<Vec3>)
    requires IsSqrt(sqrt) && 0.0 < refIdx && 0.0 < SquaredLength(rIn.direction)
    ensures res.Some? <==>
              RefractDiscriminant(Dot(Unit(rIn.direction, sqrt), OutwardNormal(rIn, rec)), NiOverNt(refIdx, rIn, rec)) > 0.0
  {
    Refracted(rIn.direction, OutwardNormal(rIn, rec), NiOverNt(refIdx, rIn, rec), sqrt)
  }

  /** The probability of reflection: Schlick's reflectance, or 1 on total internal reflection. */
  function ReflectProb(refIdx: real, rIn: Ray, rec: HitRecord<Material>, sqrt: real -> real): (p: real)
    requires IsSqrt(sqrt) && 0.0 < refIdx && 0.0 < SquaredLength(rIn.direction)
    ensures DielectricRefraction(refIdx, rIn, rec, sqrt).None? ==> p == 1.0
    ensures DielectricRefraction(refIdx, rIn, rec, sqrt).Some? ==>
              p == Schlick(IncidenceCosine(refIdx, rIn, rec, sqrt), refIdx)
  {
    if DielectricRefraction(refIdx, rIn, rec, sqrt).Some? then Schlick(IncidenceCosine(refIdx, rIn, rec, sqrt), refIdx)
    else 1.0
  }

  /**
   * `Dielectric::scatter`. The incoming direction is refracted through the outward
   * normal if possible; the reflected ray is chosen when `draw` is below the
   * reflectance (1 on total internal reflection), otherwise the refracted one. The
   * refracted vector starts as zero, which only a draw of at least 1 can expose.
   */
  function ScatterDielectric(refIdx: real, rIn: Ray, rec: HitRecord<Material>, draw: real, sqrt: real -> real): (s: ScatterResult)
    requires IsSqrt(sqrt) && 0.0 < refIdx && 0.0 < SquaredLength(rIn.direction)
    ensures s.isSpecular && s.albedo == Vec3(1.0, 1.0, 1.0) && s.pdf == DummyPdf
    ensures s.specularRay.origin == rec.p && s.specularRay.time == rIn.time
    ensures draw < ReflectProb(refIdx, rIn, rec, sqrt) ==> s.specularRay.direction == Reflect(rIn.direction, rec.normal)
    ensures draw >= ReflectProb(refIdx, rIn, rec, sqrt) && DielectricRefraction(refIdx, rIn, rec, sqrt).Some? ==>
              s.specularRay.direction == DielectricRefraction(refIdx, rIn, rec, sqrt).value
    ensures draw >= ReflectProb(refIdx, rIn, rec, sqrt) && DielectricRefraction(refIdx, rIn, rec, sqrt).None? ==>
              s.specularRay.direction == Zero
  {
    var reflected := Reflect(rIn.direction, rec.normal);
    var refracted := DielectricRefraction(refIdx, rIn, rec, sqrt);
    var direction := if draw < ReflectProb(refIdx, rIn, rec, sqrt) then reflected
                     else if refracted.Some? then refracted.value else Zero;
    ScatterResult(Ray(rec.p, direction, rIn.time), true, Vec3(1.0, 1.0, 1.0), DummyPdf)
  }

  /** On total internal reflection every draw in [0, 1) picks the reflected ray. */
  lemma DielectricReflectsWithoutRefraction(refIdx: real, rIn: Ray, rec: HitRecord<Material>, draw: real, sqrt: real -> real)
    requires IsSqrt(sqrt) && 0.0 < refIdx && 0.0 < SquaredLength(rIn.direction) && 0.0 <= draw < 1.0
    requires DielectricRefraction(refIdx, rIn, rec, sqrt).None?
    ensures ScatterDielectric(refIdx, rIn, rec, draw, sqrt).specularRay.direction == Reflect(rIn.direction, rec.normal)
  {
  }

  /**
   * Through a unit normal, a transmitted dielectric ray is a unit vector that crosses
   * to the far side of the surface, with its tangential part the incoming one's
   * scaled by the index ratio (Snell's law).
   */
  lemma DielectricTransmits(refIdx: real, rIn: Ray, rec: HitRecord<Material>, draw: real, sqrt: real -> real)
    requires IsSqrt(sqrt) && 0.0 < refIdx && 0.0 < SquaredLength(rIn.direction) && SquaredLength(rec.normal) == 1.0
    requires DielectricRefraction(refIdx, rIn, rec, sqrt).Some? && draw >= ReflectProb(refIdx, rIn, rec, sqrt)
    ensures var dir := ScatterDielectric(refIdx, rIn, rec, draw, sqrt).specularRay.direction;
            var n := OutwardNormal(rIn, rec);
            var uv := Unit(rIn.direction, sqrt);
            SquaredLength(dir) == 1.0 && Dot(dir, n) < 0.0 &&
            Sub(dir, Scale(n, Dot(dir, n))) == Scale(Sub(uv, Scale(n, Dot(uv, n))), NiOverNt(refIdx, rIn, rec))
  {
    var n := OutwardNormal(rIn, rec);
    var eta := NiOverNt(refIdx, rIn, rec);
    RefractedIsUnit(rIn.direction, n, eta, sqrt);
  }

  /**
   * `Material::scatter` for each material. `draw` is the dielectric's uniform draw,
   * `inUnitSphere` the point `random_in_unit_sphere` returns.
   */
  function Scatter(m: Material, rIn: Ray, rec: HitRecord<Material>, draw: real, inUnitSphere: Vec3,
                   sqrt: real -> real): (res: Option<ScatterResult>)
    requires IsSqrt(sqrt) && WellFormed(m) && 0.0 < SquaredLength(rIn.direction)
    requires m.Lambertian? ==> 0.0 < SquaredLength(rec.normal)
    ensures res.None? <==> m.DummyMaterial? || m.DiffuseLight?
    ensures res.Some? ==> (res.value.isSpecular <==> m.Dielectric? || m.Metal?)
    ensures res.Some? && !m.Lambertian? ==> res.value.pdf == DummyPdf
    ensures m.Dielectric? ==> res == Some(ScatterDielectric(m.refIdx, rIn, rec, draw, sqrt))
    ensures m.Metal? ==> res.value.albedo == m.albedo
    ensures m.Metal? ==>
              res.value.specularRay ==
              Ray(rec.p, Add(Reflect(Unit(rIn.direction, sqrt), rec.normal), Scale(inUnitSphere, m.fuzz)), rIn.time)
    ensures m.Lambertian? ==> res.value.albedo == m.texture && res.value.specularRay == DefaultRay
    ensures m.Lambertian? ==> res.value.pdf == CosinePdf(BuildFromW(rec.normal, sqrt)) && Orthonormal(res.value.pdf.uvw)
    ensures m.Isotropic? ==> res.value.albedo == m.phase && res.value.specularRay == Ray(rec.p, inUnitSphere, rIn.time)
  {
    match m
    case DummyMaterial => None
    case Dielectric(refIdx) => Some(ScatterDielectric(refIdx, rIn, rec, draw, sqrt))
    case Metal(albedo, fuzz) =>
      var reflected := Reflect(Unit(rIn.direction, sqrt), rec.normal);
      var outgoing := Add(reflected, Scale(inUnitSphere, fuzz));
      Some(ScatterResult(Ray(rec.p, outgoing, rIn.time), true, albedo, DummyPdf))
    case Lambertian(texture, _) =>
      Some(ScatterResult(DefaultRay, false, texture, CosinePdf(BuildFromW(rec.normal, sqrt))))
    case DiffuseLight(_) => None
    case Isotropic(phase) =>
      Some(ScatterResult(Ray(rec.p, inUnitSphere, rIn.time), false, phase, DummyPdf))
  }

  /** About a unit normal, reflection keeps the squared length. */
  lemma ReflectPreservesLength(v: Vec3, n: Vec3)
    requires SquaredLength(n) == 1.0
    ensures SquaredLength(Reflect(v, n)) == SquaredLength(v)
  {
    var k := 2.0 * Dot(v, n);
    DotOfDifference(v, Scale(n, k), v);
    DotOfScaled(v, n, 1.0, k);
    DotOfScaled(n, n, k, k);
    assert SquaredLength(Scale(n, k)) == k * k;
    assert Dot(v, Scale(n, k)) == k * Dot(v, n);
  }

  /**
   * A metal without fuzz is a mirror: off a unit normal it sends out a unit ray whose
   * normal component is the incoming unit direction's, negated.
   */
  lemma PolishedMetalMirrors(m: Material, rIn: Ray, rec: HitRecord<Material>, draw: real, inUnitSphere: Vec3, sqrt: real -> real)
    requires IsSqrt(sqrt) && m.Metal? && m.fuzz == 0.0 && 0.0 < SquaredLength(rIn.direction)
    requires SquaredLength(rec.normal) == 1.0
    ensures var dir := Scatter(m, rIn, rec, draw, inUnitSphere, sqrt).value.specularRay.direction;
            dir == Reflect(Unit(rIn.direction, sqrt), rec.normal) && SquaredLength(dir) == 1.0 &&
            Dot(dir, rec.normal) == -Dot(Unit(rIn.direction, sqrt), rec.normal)
  {
    var u := Unit(rIn.direction, sqrt);
    assert Add(Reflect(u, rec.normal), Scale(inUnitSphere, 0.0)) == Reflect(u, rec.normal);
    ReflectPreservesLength(u, rec.normal);
    ReflectNegatesNormalComponent(u, rec.normal);
  }

  /** `Material::emitted`: only emissive lambertians and front-lit diffuse lights emit. */
  function Emitted(m: Material, ray: Ray, rec: HitRecord<Material>, u: real, v: real, point: Vec3): (e: Vec3)
    ensures !(m.Lambertian? || m.DiffuseLight?) ==> e == Zero
    ensures m.Lambertian? ==> e == (if m.emissive > 0.0 then Scale(m.texture, m.emissive) else Zero)
    ensures m.DiffuseLight? ==> e == (if Dot(rec.normal, ray.direction) < 0.0 then m.light else Zero)
  {
    match m
    case Lambertian(texture, emissive) => if emissive > 0.0 then Scale(texture, emissive) else FromFloat(0.0)
    case DiffuseLight(light) => if Dot(rec.normal, ray.direction) < 0.0 then light else Zero
    case _ => FromFloat(0.0)
  }

  /** `Material::scattering_pdf`: the clamped cosine over pi for lambertians, zero otherwise. */
  function ScatteringPdf(m: Material, rIn: Ray, rec: HitRecord<Material>, scattered: Ray, sqrt: real -> real): (p: real)
    requires IsSqrt(sqrt) && 0.0 < SquaredLength(scattered.direction)
    ensures 0.0 <= p
    ensures p == 0.0 <== !m.Lambertian? || Dot(rec.normal, Unit(scattered.direction, sqrt)) < 0.0
    ensures m.Lambertian? && Dot(rec.normal, Unit(scattered.direction, sqrt)) >= 0.0 ==>
              p == Dot(rec.normal, Unit(scattered.direction, sqrt)) * FRAC_1_PI
  {
    match m
    case Lambertian(_, _) =>
      var cosine := Dot(rec.normal, Unit(scattered.direction, sqrt));
      if cosine < 0.0 then 0.0 else cosine * FRAC_1_PI
    case _ => 0.0
  }

  /** `PDF::value` for the cosine, mixture and dummy PDFs. */
  function PdfValue(pdf: Pdf, direction: Vec3, sqrt: real -> real): (v: real)
    requires IsSqrt(sqrt) && 0.0 < SquaredLength(direction)
    ensures 0.0 <= v
    ensures pdf.DummyPdf? ==> v == 0.0
    ensures pdf.CosinePdf? ==>
              v == (if Dot(Unit(direction, sqrt), pdf.uvw.w) > 0.0 then Dot(Unit(direction, sqrt), pdf.uvw.w) * FRAC_1_PI else 0.0)
  {
    match pdf
    case CosinePdf(uvw) =>
      var cosine := Dot(Unit(direction, sqrt), uvw.w);
      if cosine > 0.0 then cosine * FRAC_1_PI else 0.0
    case MixturePdf(pdf0, pdf1) => 0.5 * PdfValue(pdf0, direction, sqrt) + 0.5 * PdfValue(pdf1, direction, sqrt)
    case DummyPdf => 0.0
  }

  /** A unit vector is its own unit vector. */
  lemma UnitOfUnit(n: Vec3, sqrt: real -> real)
    requires IsSqrt(sqrt) && SquaredLength(n) == 1.0
    ensures Length(n, sqrt) == 1.0 && Unit(n, sqrt) == n
  {
    var l := Length(n, sqrt);
    var x := l - 1.0;
    assert x * x + 2.0 * x == l * l - 1.0;
    assert 0.0 <= x * x;
    assert l <= 1.0;
    MulNonNegative(l, 1.0 - l);
    assert l * (1.0 - l) == l - l * l;
    assert Scale(Unit(n, sqrt), 1.0) == Unit(n, sqrt);
  }

  /**
   * For a lambertian hit with a unit normal, `scattering_pdf` of the scattered ray equals
   * `PDF::value` of the cosine PDF that `scatter` returns, so their ratio in `color` is 1
   * wherever the direction lies above the surface.
   */
  lemma LambertianPdfsAgree(m: Material, rIn: Ray, rec: HitRecord<Material>, scattered: Ray, draw: real,
                            inUnitSphere: Vec3, sqrt: real -> real)
    requires IsSqrt(sqrt) && m.Lambertian? && 0.0 < SquaredLength(rIn.direction)
    requires SquaredLength(rec.normal) == 1.0 && 0.0 < SquaredLength(scattered.direction)
    ensures ScatteringPdf(m, rIn, rec, scattered, sqrt)
            == PdfValue(Scatter(m, rIn, rec, draw, inUnitSphere, sqrt).value.pdf, scattered.direction, sqrt)
  {
    var b := BuildFromW(rec.normal, sqrt);
    UnitOfUnit(rec.normal, sqrt);
    assert b.w == rec.normal by {
      assert Scale(b.w, 1.0) == rec.normal;
    }
    var u := Unit(scattered.direction, sqrt);
    assert Dot(u, b.w) == Dot(rec.normal, u);
  }

  /** Every PDF value is non-negative, and a mixture of two PDFs with a common bound stays within it. */
  lemma {:induction false} PdfValueBounds(pdf: Pdf, direction: Vec3, sqrt: real -> real)
    requires IsSqrt(sqrt) && 0.0 < SquaredLength(direction)
    ensures 0.0 <= PdfValue(pdf, direction, sqrt)
    ensures pdf.CosinePdf? && Dot(Unit(direction, sqrt), pdf.uvw.w) <= 0.0 ==> PdfValue(pdf, direction, sqrt) == 0.0
    ensures pdf.MixturePdf? ==>
              PdfValue(pdf, direction, sqrt) <= MaxReal(PdfValue(pdf.pdf0, direction, sqrt), PdfValue(pdf.pdf1, direction, sqrt))
  {
    match pdf
    case CosinePdf(uvw) =>
    case MixturePdf(pdf0, pdf1) =>
      PdfValueBounds(pdf0, direction, sqrt);
      PdfValueBounds(pdf1, direction, sqrt);
    case DummyPdf =>
  }

  /** The number of mixture choices a `generate` call may make. */
  function MixtureDepth(pdf: Pdf): nat {
    match pdf
    case MixturePdf(pdf0, pdf1) =>
      1 + (if MixtureDepth(pdf0) >= MixtureDepth(pdf1) then MixtureDepth(pdf0) else MixtureDepth(pdf1))
    case _ => 0
  }

  /**
   * `PDF::generate`: a mixture takes the next draw and picks its first PDF when it is
   * below 0.5; a cosine PDF maps the sampled cosine direction into its basis.
   */
  function Generate(pdf: Pdf, draws: seq<real>, cosineDirection: Vec3): (g: Vec3)
    requires MixtureDepth(pdf) <= |draws|
    ensures ChosenPdf(pdf, draws).CosinePdf? ==> g == Local(ChosenPdf(pdf, draws).uvw, cosineDirection)
    ensures ChosenPdf(pdf, draws).DummyPdf? ==> g == Zero
  {
    match pdf
    case CosinePdf(uvw) => Local(uvw, cosineDirection)
    case MixturePdf(pdf0, pdf1) =>
      if draws[0] < 0.5 then Generate(pdf0, draws[1..], cosineDirection)
      else Generate(pdf1, draws[1..], cosineDirection)
    case DummyPdf => Zero
  }

  /** The PDF `generate` ends up sampling: the cosine or dummy PDF reached by the mixture choices. */
  function ChosenPdf(pdf: Pdf, draws: seq<real>): (p: Pdf)
    requires MixtureDepth(pdf) <= |draws|
    ensures !p.MixturePdf?
  {
    match pdf
    case MixturePdf(pdf0, pdf1) => if draws[0] < 0.5 then ChosenPdf(pdf0, draws[1..]) else ChosenPdf(pdf1, draws[1..])
    case _ => pdf
  }

  /**
   * A generated direction comes from the chosen PDF; from an orthonormal cosine PDF its
   * component along the basis' `w` is the sampled direction's `z`.
   */
  lemma {:induction false} GenerateSamplesChosenPdf(pdf: Pdf, draws: seq<real>, cosineDirection: Vec3)
    requires MixtureDepth(pdf) <= |draws|
    ensures Generate(pdf, draws, cosineDirection) == Generate(ChosenPdf(pdf, draws), [], cosineDirection)
    ensures var c := ChosenPdf(pdf, draws);
            c.CosinePdf? && Orthonormal(c.uvw) ==> Dot(Generate(pdf, draws, cosineDirection), c.uvw.w) == cosineDirection.z
    ensures ChosenPdf(pdf, draws).DummyPdf? ==> Generate(pdf, draws, cosineDirection) == Zero
  {
    match pdf
    case MixturePdf(pdf0, pdf1) =>
      GenerateSamplesChosenPdf(pdf0, draws[1..], cosineDirection);
      GenerateSamplesChosenPdf(pdf1, draws[1..], cosineDirection);
    case CosinePdf(uvw) =>
      if Orthonormal(uvw) {
        LocalCoordinates(uvw, cosineDirection);
      }
    case DummyPdf =>
  }

  /** `MaterialBuilder`: the settings the material constructors read. */
  class MaterialBuilder {
    var texture: Vec3
    var albedo: Vec3
    var emissive: real
    var fuzz: real
    var refractionIndex: real

    /** `MaterialBuilder::new`: black texture and albedo, no emission, no fuzz, index 1. */
    constructor ()
      ensures texture == Zero && albedo == Zero && emissive == 0.0 && fuzz == 0.0 && refractionIndex == 1.0
    {
      texture := FromFloat(0.0);
      albedo := FromFloat(0.0);
      emissive := 0.0;
      fuzz := 0.0;
      refractionIndex := 1.0;
    }

    method WithTexture(t: Vec3)
      modifies this
      ensures texture == t
      ensures albedo == old(albedo) && emissive == old(emissive) && fuzz == old(fuzz)
      ensures refractionIndex == old(refractionIndex)
    {
      texture := t;
    }

    method SetEmissive(e: real)
      modifies this
      ensures emissive == e
      ensures texture == old(texture) && albedo == old(albedo) && fuzz == old(fuzz)
      ensures refractionIndex == old(refractionIndex)
    {
      emissive := e;
    }

    method SetAlbedo(a: Vec3)
      modifies this
      ensures albedo == a
      ensures texture == old(texture) && emissive == old(emissive) && fuzz == old(fuzz)
      ensures refractionIndex == old(refractionIndex)
    {
      albedo := a;
    }

    method SetFuzz(f: real)
      modifies this
      ensures fuzz == f
      ensures texture == old(texture) && albedo == old(albedo) && emissive == old(emissive)
      ensures refractionIndex == old(refractionIndex)
    {
      fuzz := f;
    }

    method SetRefractionIndex(ri: real)
      modifies this
      ensures refractionIndex == ri
      ensures texture == old(texture) && albedo == old(albedo) && emissive == old(emissive) && fuzz == old(fuzz)
    {
      refractionIndex := ri;
    }

    /** `MaterialBuilder::lambertian`. */
    function MakeLambertian(): (m: Material)
      reads this
      ensures m == Lambertian(texture, emissive)
    {
      Lambertian(texture, emissive)
    }

    /** `MaterialBuilder::diffuse_light`. */
    function MakeDiffuseLight(): (m: Material)
      reads this
      ensures m == DiffuseLight(texture)
    {
      DiffuseLight(texture)
    }

    /** `MaterialBuilder::metal`: the albedo with the fuzz capped at 1. */
    function MakeMetal(): (m: Material)
      reads this
      ensures m == NewMetal(albedo, fuzz)
      ensures m.Metal? && m.albedo == albedo && m.fuzz <= 1.0
    {
      NewMetal(albedo, fuzz)
    }

    /** `MaterialBuilder::dielectric`. */
    function MakeDielectric(): (m: Material)
      reads this
      ensures m == Dielectric(refractionIndex)
    {
      Dielectric(refractionIndex)
    }
  }
}
