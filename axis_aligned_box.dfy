/** Boxes built from six axis-aligned rectangles (src/axis_aligned_box.rs). */
module AxisAlignedBox {
  import opened Vec3Math
  import opened RayMath
  import opened AabbMath
  import opened Options
  import opened Hitable
  import opened Rect

  /** A face of the box: a rectangle as it is, or wrapped in `FlipNormals`. */
  datatype Face<M> = Plain(rect: AxisAlignedRect<M>) | Flipped(rect: AxisAlignedRect<M>)

  datatype AxisAlignedBox<M> = AxisAlignedBox(pmin: Vec3, pmax: Vec3, faces: seq<Face<M>>)

  /** The plane axis of face `i` in push order: two faces each for z, y and x. */
  function FaceAxis(i: nat): Axis
    requires i < 6
  {
    if i < 2 then Z else if i < 4 then Y else X
  }

  /**
   * `AxisAlignedBox::new`: pushes, for z, y and x in turn, the face at the `pmax`
   * coordinate and then the face at the `pmin` coordinate wrapped in `FlipNormals`;
   * each spans the box's extent in the other two axes.
   */
  method New<M(!new)>(pmin: Vec3, pmax: Vec3, material: M) returns (b: AxisAlignedBox<M>)
    ensures b.pmin == pmin && b.pmax == pmax && |b.faces| == 6
    ensures forall i | 0 <= i < 6 :: b.faces[i].rect.planeAxis == FaceAxis(i) && b.faces[i].rect.material == material
    ensures forall i | 0 <= i < 6 :: b.faces[i].Flipped? <==> i % 2 == 1
    ensures forall i | 0 <= i < 6 :: var rect := b.faces[i].rect;
              rect.c == Index(if b.faces[i].Flipped? then pmin else pmax, PlaneIndex(rect.planeAxis))
    ensures forall i | 0 <= i < 6 :: var rect := b.faces[i].rect;
              rect.a0 == Index(pmin, AIndex(rect.planeAxis)) && rect.a1 == Index(pmax, AIndex(rect.planeAxis)) &&
              rect.b0 == Index(pmin, BIndex(rect.planeAxis)) && rect.b1 == Index(pmax, BIndex(rect.planeAxis))
    ensures forall i | 0 <= i < 6 :: var rect := b.faces[i].rect;
              rect.aSize == rect.a1 - rect.a0 && rect.bSize == rect.b1 - rect.b0
  {
    var list: seq<Face<M>> := [];
    list := list + [Plain(FromExtent(pmin.x, pmax.x, pmin.y, pmax.y, pmax.z, Z, material))];
    list := list + [Flipped(FromExtent(pmin.x, pmax.x, pmin.y, pmax.y, pmin.z, Z, material))];
    list := list + [Plain(FromExtent(pmin.x, pmax.x, pmin.z, pmax.z, pmax.y, Y, material))];
    list := list + [Flipped(FromExtent(pmin.x, pmax.x, pmin.z, pmax.z, pmin.y, Y, material))];
    list := list + [Plain(FromExtent(pmin.y, pmax.y, pmin.z, pmax.z, pmax.x, X, material))];
    list := list + [Flipped(FromExtent(pmin.y, pmax.y, pmin.z, pmax.z, pmin.x, X, material))];
    b := AxisAlignedBox(pmin, pmax, list);
  }

  /** A hit on a flipped face, with its normal reversed. */
  function FlipNormal<M(!new)>(h: Option<HitRecord<M>>): (f: Option<HitRecord<M>>)
    ensures TOf(f) == TOf(h)
    ensures f.Some? ==> f.value.normal == Neg(h.value.normal) && f.value.p == h.value.p
  {
    match h
    case None => None
    case Some(rec) => Some(rec.(normal := Neg(rec.normal)))
  }

  /** The hit of one face. */
  function FaceHit<M(!new)>(f: Face<M>, r: Ray, tmin: real, tmax: real): (h: Option<HitRecord<M>>)
    ensures TOf(h) == TOf(Rect.Hit(f.rect, r, tmin, tmax))
    ensures h.Some? ==> h.value.p == Rect.Hit(f.rect, r, tmin, tmax).value.p
    ensures h.Some? && f.Plain? ==> h.value.normal == Rect.Hit(f.rect, r, tmin, tmax).value.normal
    ensures h.Some? && f.Flipped? ==> h.value.normal == Neg(Rect.Hit(f.rect, r, tmin, tmax).value.normal)
  {
    match f
    case Plain(rect) => Rect.Hit(rect, r, tmin, tmax)
    case Flipped(rect) => FlipNormal(Rect.Hit(rect, r, tmin, tmax))
  }

  /** Every face reports its closest (only) hit, so the face list satisfies the list scan's assumption. */
  lemma FacesReportClosestHits<M(!new)>()
    ensures ClosestHitOracle((f: Face<M>, r, lo, hi) => FaceHit(f, r, lo, hi))
  {
    forall f: Face<M>, r: Ray, lo: real, hi: real, hi': real | hi' <= hi
      ensures FaceHit(f, r, lo, hi') == Narrowed(FaceHit(f, r, lo, hi), hi', false)
    {
      Rect.HitUnderLowerBound(f.rect, r, lo, hi, hi');
    }
  }

  /**
   * `AxisAlignedBox::hit`: the face list's hit with the same bounds, which is the
   * nearest face hit within them.
   */
  method Hit<M(!new)>(b: AxisAlignedBox<M>, r: Ray, tmin: real, tmax: real) returns (res: Option<HitRecord<M>>)
    ensures TOf(res) == Closest(b.faces, (f: Face<M>, r, lo, hi) => FaceHit(f, r, lo, hi), r, tmin, tmax)
    ensures res.Some? ==> exists i | 0 <= i < |b.faces| :: FaceHit(b.faces[i], r, tmin, tmax) == res
  {
    FacesReportClosestHits<M>();
    res := ListHit(b.faces, (f: Face<M>, r, lo, hi) => FaceHit(f, r, lo, hi), r, tmin, tmax);
  }

  /** `AxisAlignedBox::bounding_box`: the corners, whatever the time interval. */
  function BoundingBox<M(!new)>(b: AxisAlignedBox<M>, t0: real, t1: real): AABB {
    AABB(b.pmin, b.pmax)
  }

  /** A box with ordered corners, as `New` builds it, encloses every hit on its faces. */
  lemma FaceHitsInsideBoundingBox<M(!new)>(pmin: Vec3, pmax: Vec3, b: AxisAlignedBox<M>, i: nat,
                                    r: Ray, tmin: real, tmax: real)
    requires pmin.x <= pmax.x && pmin.y <= pmax.y && pmin.z <= pmax.z
    requires b.pmin == pmin && b.pmax == pmax && |b.faces| == 6 && i < 6
    requires b.faces[i].Flipped? <==> i % 2 == 1
    requires var rect := b.faces[i].rect;
             rect.c == Index(if b.faces[i].Flipped? then pmin else pmax, PlaneIndex(rect.planeAxis)) &&
             rect.a0 == Index(pmin, AIndex(rect.planeAxis)) && rect.a1 == Index(pmax, AIndex(rect.planeAxis)) &&
             rect.b0 == Index(pmin, BIndex(rect.planeAxis)) && rect.b1 == Index(pmax, BIndex(rect.planeAxis))
    ensures var h := FaceHit(b.faces[i], r, tmin, tmax);
            h.Some? ==> InBox(BoundingBox(b, 0.0, 1.0), h.value.p)
  {
    var rect := b.faces[i].rect;
    var h := Rect.Hit(rect, r, tmin, tmax);
    if h.Some? {
      HitOnPlane(rect, r, tmin, tmax);
      var p := h.value.p;
      var box := BoundingBox(b, 0.0, 1.0);
      assert InSlab(box, p, PlaneIndex(rect.planeAxis));
      assert InSlab(box, p, AIndex(rect.planeAxis));
      assert InSlab(box, p, BIndex(rect.planeAxis));
    }
  }
}
