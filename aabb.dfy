/** Axis-aligned bounding boxes and the slab intersection test (src/math/aabb.rs). */
module AabbMath {
  import opened Vec3Math
  import opened RayMath

  datatype AABB = AABB(min: Vec3, max: Vec3)

  /** `ffmin`: the smaller argument (the second one on a tie). */
  function FfMin(a: real, b: real): (r: real)
    ensures r <= a && r <= b && (r == a || r == b)
  {
    if a < b then a else b
  }

  /** `ffmax`: the larger argument (the second one on a tie). */
  function FfMax(a: real, b: real): (r: real)
    ensures r >= a && r >= b && (r == a || r == b)
  {
    if a > b then a else b
  }

  /** `outer` encloses `inner` on every axis. */
  predicate Encloses(outer: AABB, inner: AABB) {
    outer.min.x <= inner.min.x && outer.min.y <= inner.min.y && outer.min.z <= inner.min.z &&
    inner.max.x <= outer.max.x && inner.max.y <= outer.max.y && inner.max.z <= outer.max.z
  }

  /** `get_union`: the smallest box enclosing both boxes. */
  function Union(b0: AABB, b1: AABB): (r: AABB)
    ensures Encloses(r, b0) && Encloses(r, b1)
    ensures forall b :: Encloses(b, b0) && Encloses(b, b1) ==> Encloses(b, r)
  {
    AABB(Vec3(FfMin(b0.min.x, b1.min.x), FfMin(b0.min.y, b1.min.y), FfMin(b0.min.z, b1.min.z)),
         Vec3(FfMax(b0.max.x, b1.max.x), FfMax(b0.max.y, b1.max.y), FfMax(b0.max.z, b1.max.z)))
  }

  /** A box whose min corner is at or below its max corner on every axis. */
  predicate Ordered(b: AABB) {
    b.min.x <= b.max.x && b.min.y <= b.max.y && b.min.z <= b.max.z
  }

  /** The union is commutative and idempotent, and the union of ordered boxes is ordered. */
  lemma UnionLaws(a: AABB, b: AABB)
    ensures Union(a, b) == Union(b, a)
    ensures Union(a, a) == a
    ensures Ordered(a) && Ordered(b) ==> Ordered(Union(a, b))
  {
  }

  /** The entry and exit parameters of the ray in the slab of axis `i`, ordered as the source orders them. */
  function SlabBounds(b: AABB, r: Ray, i: nat): (ts: (real, real))
    requires i < 3 && NoZeroComponent(r.direction)
  {
    var invD := InvD(r, i);
    var t0 := Crossing(Index(b.min, i), Index(r.origin, i), invD);
    var t1 := Crossing(Index(b.max, i), Index(r.origin, i), invD);
    if invD < 0.0 then (t1, t0) else (t0, t1)
  }

  /** The ray parameter at which the coordinate reaches `bound`, given the reciprocal direction `invD`. */
  function Crossing(bound: real, origin: real, invD: real): real
  {
    (bound - origin) * invD
  }

  /** The reciprocal of the direction component of axis `i`. */
  function InvD(r: Ray, i: nat): real
    requires i < 3 && NoZeroComponent(r.direction)
  {
    1.0 / Index(r.direction, i)
  }

  /**
   * The slab test from axis `i` onwards: each axis narrows the interval
   * (`tmin`, `tmax`); an interval that becomes empty means a miss.
   */
  function SlabsFrom(b: AABB, r: Ray, i: nat, tmin: real, tmax: real): (res: bool)
    requires i <= 3 && NoZeroComponent(r.direction)
    ensures res && i < 3 ==> tmin < tmax
    decreases 3 - i
  {
    if i == 3 then true
    else
      var (t0, t1) := SlabBounds(b, r, i);
      var lo := if t0 > tmin then t0 else tmin;
      var hi := if t1 < tmax then t1 else tmax;
      if hi <= lo then false else SlabsFrom(b, r, i + 1, lo, hi)
  }

  /** The value `AABB::hit` computes. */
  function SlabHit(b: AABB, r: Ray, tmin: real, tmax: real): (res: bool)
    requires NoZeroComponent(r.direction)
    ensures res ==> tmin < tmax
  {
    SlabsFrom(b, r, 0, tmin, tmax)
  }

  /** `AABB::hit`: narrows the parameter interval axis by axis and stops at the first empty one. */
  method Hit(b: AABB, r: Ray, tmin: real, tmax: real) returns (hit: bool)
    requires NoZeroComponent(r.direction)
    ensures hit == SlabHit(b, r, tmin, tmax)
    ensures hit ==> tmin < tmax
  {
    var lo, hi := tmin, tmax;
    for i := 0 to 3
      invariant SlabsFrom(b, r, i, lo, hi) == SlabHit(b, r, tmin, tmax)
      invariant tmin <= lo && hi <= tmax
      invariant 0 < i ==> lo < hi
    {
      var invD := InvD(r, i);
      var t0 := Crossing(Index(b.min, i), Index(r.origin, i), invD);
      var t1 := Crossing(Index(b.max, i), Index(r.origin, i), invD);
      if invD < 0.0 {
        t0, t1 := t1, t0;
      }
      lo := if t0 > lo then t0 else lo;
      hi := if t1 < hi then t1 else hi;
      if hi <= lo {
        return false;
      }
    }
    return true;
  }

  /** For an ordered box the swap leaves the entry parameter at or before the exit parameter. */
  lemma SlabBoundsOrdered(b: AABB, r: Ray, i: nat)
    requires i < 3 && NoZeroComponent(r.direction) && Index(b.min, i) <= Index(b.max, i)
    ensures SlabBounds(b, r, i).0 <= SlabBounds(b, r, i).1
  {
    var invD := InvD(r, i);
    var o := Index(r.origin, i);
    if invD < 0.0 {
      MulAntitone(Index(b.min, i) - o, Index(b.max, i) - o, invD);
    } else {
      MulMonotone(Index(b.min, i) - o, Index(b.max, i) - o, invD);
    }
  }

  /** Coordinate `i` of `p` lies between the box's bounds on that axis. */
  predicate InSlab(b: AABB, p: Vec3, i: nat)
    requires i < 3
  {
    Index(b.min, i) <= Index(p, i) <= Index(b.max, i)
  }

  /** Coordinate `i` of `p` lies strictly between the box's bounds on that axis. */
  predicate InSlabStrictly(b: AABB, p: Vec3, i: nat)
    requires i < 3
  {
    Index(b.min, i) < Index(p, i) < Index(b.max, i)
  }

  /** `p` lies in the closed box. */
  predicate InBox(b: AABB, p: Vec3) {
    InSlab(b, p, 0) && InSlab(b, p, 1) && InSlab(b, p, 2)
  }

  /** `p` lies in the open box. */
  predicate InBoxStrictly(b: AABB, p: Vec3) {
    InSlabStrictly(b, p, 0) && InSlabStrictly(b, p, 1) && InSlabStrictly(b, p, 2)
  }

  lemma IndexOfPointAt(r: Ray, t: real, i: nat)
    requires i < 3
    ensures Index(PointAt(r, t), i) == Index(r.origin, i) + Index(r.direction, i) * t
  {
  }

  /** Comparing a crossing parameter with `t` is comparing coordinates, for a positive direction. */
  lemma CrossingVersusPositive(x: real, o: real, d: real, t: real)
    requires 0.0 < d
    ensures Crossing(x, o, 1.0 / d) <= t <==> x <= o + d * t
    ensures Crossing(x, o, 1.0 / d) < t <==> x < o + d * t
    ensures t <= Crossing(x, o, 1.0 / d) <==> o + d * t <= x
    ensures t < Crossing(x, o, 1.0 / d) <==> o + d * t < x
  {
    var c := (x - o) * (1.0 / d);
    assert c * d == x - o;
    if c <= t { MulMonotone(c, t, d); }
    if x <= o + d * t { MulMonotone(x - o, d * t, 1.0 / d); }
    if t <= c { MulMonotone(t, c, d); }
    if o + d * t <= x { MulMonotone(d * t, x - o, 1.0 / d); }
  }

  /** The same comparison for a negative direction, which reverses it. */
  lemma CrossingVersusNegative(x: real, o: real, d: real, t: real)
    requires d < 0.0
    ensures Crossing(x, o, 1.0 / d) <= t <==> o + d * t <= x
    ensures Crossing(x, o, 1.0 / d) < t <==> o + d * t < x
    ensures t <= Crossing(x, o, 1.0 / d) <==> x <= o + d * t
    ensures t < Crossing(x, o, 1.0 / d) <==> x < o + d * t
  {
    var c := (x - o) * (1.0 / d);
    assert c * d == x - o;
    if c <= t { MulAntitone(c, t, d); }
    if o + d * t <= x { MulAntitone(d * t, x - o, 1.0 / d); }
    if t <= c { MulAntitone(t, c, d); }
    if x <= o + d * t { MulAntitone(x - o, d * t, 1.0 / d); }
  }

  /** Lying within an axis' slab interval is lying within the box's bounds on that axis. */
  lemma SlabBoundsMeaning(b: AABB, r: Ray, i: nat, t: real)
    requires i < 3 && NoZeroComponent(r.direction)
    ensures SlabBounds(b, r, i).0 <= t <= SlabBounds(b, r, i).1 ==> InSlab(b, PointAt(r, t), i)
    ensures InSlabStrictly(b, PointAt(r, t), i) ==> SlabBounds(b, r, i).0 < t < SlabBounds(b, r, i).1
  {
    var lo, hi := Index(b.min, i), Index(b.max, i);
    var o, d := Index(r.origin, i), Index(r.direction, i);
    IndexOfPointAt(r, t, i);
    var x := Index(PointAt(r, t), i);
    assert x == o + d * t;
    AxisSlab(lo, hi, o, d, t);
    var inv := 1.0 / d;
    assert InvD(r, i) == inv;
    assert SlabBounds(b, r, i) ==
           if inv < 0.0 then (Crossing(hi, o, inv), Crossing(lo, o, inv)) else (Crossing(lo, o, inv), Crossing(hi, o, inv));
    assert InSlab(b, PointAt(r, t), i) == (lo <= x <= hi);
    assert InSlabStrictly(b, PointAt(r, t), i) == (lo < x < hi);
  }

  /** `SlabBoundsMeaning` on one axis, with bounds `lo`, `hi`, origin `o` and direction `d`. */
  lemma AxisSlab(lo: real, hi: real, o: real, d: real, t: real)
    requires d != 0.0
    ensures var inv := 1.0 / d;
      var c0, c1 := Crossing(lo, o, inv), Crossing(hi, o, inv);
      var ts := if inv < 0.0 then (c1, c0) else (c0, c1);
      (ts.0 <= t <= ts.1 ==> lo <= o + d * t <= hi) && (lo < o + d * t < hi ==> ts.0 < t < ts.1)
  {
    ReciprocalSign(d);
    if 0.0 < d {
      CrossingVersusPositive(lo, o, d, t);
      CrossingVersusPositive(hi, o, d, t);
    } else {
      CrossingVersusNegative(lo, o, d, t);
      CrossingVersusNegative(hi, o, d, t);
    }
  }

  /** The reciprocal of a non-zero value has its sign. */
  lemma ReciprocalSign(d: real)
    requires d != 0.0
    ensures 0.0 < d ==> 0.0 < 1.0 / d
    ensures d < 0.0 ==> 1.0 / d < 0.0
  {
    assert (1.0 / d) * d == 1.0;
  }

  /** A successful slab test from axis `i` yields a parameter in the open interval inside the remaining slabs. */
  lemma {:induction false} SlabsFromWitness(b: AABB, r: Ray, i: nat, lo: real, hi: real) returns (t: real)
    requires i <= 3 && NoZeroComponent(r.direction)
    requires lo < hi && SlabsFrom(b, r, i, lo, hi)
    ensures lo < t < hi
    ensures forall j | i <= j < 3 :: InSlab(b, PointAt(r, t), j)
    decreases 3 - i
  {
    if i == 3 {
      t := (lo + hi) / 2.0;
    } else {
      var (t0, t1) := SlabBounds(b, r, i);
      var lo' := if t0 > lo then t0 else lo;
      var hi' := if t1 < hi then t1 else hi;
      t := SlabsFromWitness(b, r, i + 1, lo', hi');
      SlabBoundsMeaning(b, r, i, t);
    }
  }

  /** Soundness of `AABB::hit`: a hit means the ray is inside the box somewhere in (`tmin`, `tmax`). */
  lemma SlabHitSound(b: AABB, r: Ray, tmin: real, tmax: real)
    requires NoZeroComponent(r.direction) && SlabHit(b, r, tmin, tmax)
    ensures exists t :: tmin < t < tmax && InBox(b, PointAt(r, t))
  {
    var t := SlabsFromWitness(b, r, 0, tmin, tmax);
    assert InSlab(b, PointAt(r, t), 0);
  }

  /** A parameter inside the open interval and strictly inside the remaining slabs keeps the slab test succeeding. */
  lemma {:induction false} SlabsFromComplete(b: AABB, r: Ray, i: nat, lo: real, hi: real, t: real)
    requires i <= 3 && NoZeroComponent(r.direction)
    requires lo < t < hi
    requires forall j | i <= j < 3 :: InSlabStrictly(b, PointAt(r, t), j)
    ensures SlabsFrom(b, r, i, lo, hi)
    decreases 3 - i
  {
    if i < 3 {
      SlabBoundsMeaning(b, r, i, t);
      var (t0, t1) := SlabBounds(b, r, i);
      var lo' := if t0 > lo then t0 else lo;
      var hi' := if t1 < hi then t1 else hi;
      SlabsFromComplete(b, r, i + 1, lo', hi', t);
    }
  }

  /** Completeness of `AABB::hit`: a ray strictly inside the box somewhere in (`tmin`, `tmax`) hits it. */
  lemma SlabHitComplete(b: AABB, r: Ray, tmin: real, tmax: real, t: real)
    requires NoZeroComponent(r.direction)
    requires tmin < t < tmax && InBoxStrictly(b, PointAt(r, t))
    ensures SlabHit(b, r, tmin, tmax)
  {
    SlabsFromComplete(b, r, 0, tmin, tmax, t);
  }

  lemma MulMonotone(a: real, c: real, k: real)
    requires a <= c && 0.0 <= k
    ensures a * k <= c * k
  {
  }

  lemma MulAntitone(a: real, c: real, k: real)
    requires a <= c && k < 0.0
    ensures c * k <= a * k
  {
  }

  /** On every axis a larger box opens its slab no later and closes it no earlier. */
  lemma SlabBoundsWiden(outer: AABB, inner: AABB, r: Ray, i: nat)
    requires i < 3 && NoZeroComponent(r.direction) && Encloses(outer, inner)
    ensures SlabBounds(outer, r, i).0 <= SlabBounds(inner, r, i).0
    ensures SlabBounds(inner, r, i).1 <= SlabBounds(outer, r, i).1
  {
    var invD := InvD(r, i);
    var o := Index(r.origin, i);
    assert Index(outer.min, i) <= Index(inner.min, i);
    assert Index(inner.max, i) <= Index(outer.max, i);
    assert SlabBounds(outer, r, i).0 == if invD < 0.0 then Crossing(Index(outer.max, i), o, invD) else Crossing(Index(outer.min, i), o, invD);
    if invD < 0.0 {
      MulAntitone(Index(outer.min, i) - o, Index(inner.min, i) - o, invD);
      MulAntitone(Index(inner.max, i) - o, Index(outer.max, i) - o, invD);
    } else {
      assert invD != 0.0;
      MulMonotone(Index(outer.min, i) - o, Index(inner.min, i) - o, invD);
      MulMonotone(Index(inner.max, i) - o, Index(outer.max, i) - o, invD);
    }
  }

  /** If a ray passes through a box it passes through every box enclosing it. */
  lemma {:induction false} SlabsFromEnclosing(outer: AABB, inner: AABB, r: Ray, i: nat,
                                               loO: real, hiO: real, loI: real, hiI: real)
    requires i <= 3 && NoZeroComponent(r.direction) && Encloses(outer, inner)
    requires loO <= loI && hiI <= hiO
    requires SlabsFrom(inner, r, i, loI, hiI)
    ensures SlabsFrom(outer, r, i, loO, hiO)
    decreases 3 - i
  {
    if i < 3 {
      SlabBoundsWiden(outer, inner, r, i);
      var o, n := SlabBounds(outer, r, i), SlabBounds(inner, r, i);
      var lo1 := if o.0 > loO then o.0 else loO;
      var hi1 := if o.1 < hiO then o.1 else hiO;
      var lo2 := if n.0 > loI then n.0 else loI;
      var hi2 := if n.1 < hiI then n.1 else hiI;
      SlabsFromEnclosing(outer, inner, r, i + 1, lo1, hi1, lo2, hi2);
    }
  }

  lemma SlabHitEnclosing(outer: AABB, inner: AABB, r: Ray, tmin: real, tmax: real)
    requires NoZeroComponent(r.direction) && Encloses(outer, inner)
    requires SlabHit(inner, r, tmin, tmax)
    ensures SlabHit(outer, r, tmin, tmax)
  {
    SlabsFromEnclosing(outer, inner, r, 0, tmin, tmax, tmin, tmax);
  }

  /** Enclosure is transitive, so a box enclosing a union encloses both parts. */
  lemma EnclosesTransitive(a: AABB, b: AABB, c: AABB)
    requires Encloses(a, b) && Encloses(b, c)
    ensures Encloses(a, c)
  {
  }
}
