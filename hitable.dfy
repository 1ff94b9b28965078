/**
 * Hit records and the closest-so-far scan of `HitableList` (src/hitable.rs).
 *
 * A child primitive is any value of a type `T` queried through a hit function
 * `hit(x, ray, tmin, tmax)`; the material a record carries is a type parameter `M`.
 */
module Hitable {
  import opened Vec3Math
  import opened RayMath
  import opened Options

  /** `HitRecord`: distance along the ray, surface coordinates, point, normal and material. */
  datatype HitRecord<M> = HitRecord(t: real, u: real, v: real, p: Vec3, normal: Vec3, mat: M)

  /** The distance of an optional hit. */
  function TOf<M>(h: Option<HitRecord<M>>): (t: Option<real>)
    ensures t.None? <==> h.None?
    ensures h.Some? ==> t == Some(h.value.t)
  {
    match h
    case None => None
    case Some(rec) => Some(rec.t)
  }

  /** The nearer of two optional distances. */
  function MinOpt(a: Option<real>, b: Option<real>): (m: Option<real>)
    ensures m.None? <==> a.None? && b.None?
    ensures m.Some? ==> (m == a || m == b)
    ensures m.Some? && a.Some? ==> m.value <= a.value
    ensures m.Some? && b.Some? ==> m.value <= b.value
  {
    match (a, b)
    case (None, _) => b
    case (_, None) => a
    case (Some(x), Some(y)) => if x <= y then a else b
  }

  /**
   * What a query with a tighter upper bound `hi` keeps of a hit: the same record if
   * it lies below `hi`, or at `hi` for primitives with an inclusive (not `strict`) bound.
   */
  function Narrowed<M>(h: Option<HitRecord<M>>, hi: real, strict: bool): Option<HitRecord<M>> {
    if h.Some? && (h.value.t < hi || (!strict && h.value.t == hi)) then h else None
  }

  /**
   * The hit function reports each primitive's closest hit within its bounds:
   * lowering the upper bound drops exactly the hits beyond it (with either
   * treatment of a hit exactly at the bound).
   */
  ghost predicate ClosestHitOracle<T(!new), M>(hit: (T, Ray, real, real) -> Option<HitRecord<M>>) {
    forall x, r, lo, hi, hi' | hi' <= hi ::
      hit(x, r, lo, hi') == Narrowed(hit(x, r, lo, hi), hi', false) ||
      hit(x, r, lo, hi') == Narrowed(hit(x, r, lo, hi), hi', true)
  }

  /** The brute-force closest distance over all children for the bounds (`lo`, `hi`). */
  function Closest<T(!new), M>(xs: seq<T>, hit: (T, Ray, real, real) -> Option<HitRecord<M>>,
                         r: Ray, lo: real, hi: real): (c: Option<real>)
    ensures c.None? <==> forall x | x in xs :: hit(x, r, lo, hi).None?
  {
    if |xs| == 0 then None else MinOpt(TOf(hit(xs[0], r, lo, hi)), Closest(xs[1..], hit, r, lo, hi))
  }

  /** `Closest` is the minimum: below every child's hit, attained by one, absent only when no child hits. */
  lemma {:induction false} ClosestIsMinimum<T(!new), M>(xs: seq<T>, hit: (T, Ray, real, real) -> Option<HitRecord<M>>,
                                                  r: Ray, lo: real, hi: real)
    ensures Closest(xs, hit, r, lo, hi).None? <==> forall i | 0 <= i < |xs| :: hit(xs[i], r, lo, hi).None?
    ensures forall i | 0 <= i < |xs| && hit(xs[i], r, lo, hi).Some? ::
              Closest(xs, hit, r, lo, hi).Some? && Closest(xs, hit, r, lo, hi).value <= hit(xs[i], r, lo, hi).value.t
    ensures Closest(xs, hit, r, lo, hi).Some? ==>
              exists i | 0 <= i < |xs| :: TOf(hit(xs[i], r, lo, hi)) == Closest(xs, hit, r, lo, hi)
  {
    if |xs| > 0 {
      ClosestIsMinimum(xs[1..], hit, r, lo, hi);
      forall i | 1 <= i < |xs|
        ensures hit(xs[i], r, lo, hi) == hit(xs[1..][i - 1], r, lo, hi)
      {
      }
      var c := Closest(xs, hit, r, lo, hi);
      if c.Some? && c != TOf(hit(xs[0], r, lo, hi)) {
        var j :| 0 <= j < |xs[1..]| && TOf(hit(xs[1..][j], r, lo, hi)) == Closest(xs[1..], hit, r, lo, hi);
        assert TOf(hit(xs[j + 1], r, lo, hi)) == c;
      }
    }
  }

  /**
   * Lowering the bound to `b` cannot change the nearer of `b` and the closest hit:
   * only hits beyond `b` are dropped.
   */
  lemma {:induction false} ClosestUnderLowerBound<T(!new), M>(xs: seq<T>, hit: (T, Ray, real, real) -> Option<HitRecord<M>>,
                                                        r: Ray, lo: real, b: real, hi: real)
    requires ClosestHitOracle(hit) && b <= hi
    ensures MinOpt(Some(b), Closest(xs, hit, r, lo, b)) == MinOpt(Some(b), Closest(xs, hit, r, lo, hi))
  {
    if |xs| > 0 {
      ClosestUnderLowerBound(xs[1..], hit, r, lo, b, hi);
      var h := hit(xs[0], r, lo, hi);
      assert hit(xs[0], r, lo, b) == Narrowed(h, b, false) || hit(xs[0], r, lo, b) == Narrowed(h, b, true);
    }
  }

  /** A closest-hit oracle never reports a hit beyond its upper bound, so neither does `Closest`. */
  lemma ClosestBelowBound<T(!new), M>(xs: seq<T>, hit: (T, Ray, real, real) -> Option<HitRecord<M>>,
                                      r: Ray, lo: real, hi: real)
    requires ClosestHitOracle(hit)
    ensures forall x :: hit(x, r, lo, hi).Some? ==> hit(x, r, lo, hi).value.t <= hi
    ensures Closest(xs, hit, r, lo, hi).Some? ==> Closest(xs, hit, r, lo, hi).value <= hi
  {
    forall x ensures hit(x, r, lo, hi).Some? ==> hit(x, r, lo, hi).value.t <= hi {
      var h := hit(x, r, lo, hi);
      assert h == Narrowed(h, hi, false) || h == Narrowed(h, hi, true);
    }
    ClosestIsMinimum(xs, hit, r, lo, hi);
  }

  /** The closest hit over two lists is the nearer of their closest hits. */
  lemma {:induction false} ClosestAppend<T(!new), M>(xs: seq<T>, ys: seq<T>, hit: (T, Ray, real, real) -> Option<HitRecord<M>>,
                                                     r: Ray, lo: real, hi: real)
    ensures Closest(xs + ys, hit, r, lo, hi) == MinOpt(Closest(xs, hit, r, lo, hi), Closest(ys, hit, r, lo, hi))
  {
    if |xs| == 0 {
      assert xs + ys == ys;
    } else {
      assert (xs + ys)[1..] == xs[1..] + ys;
      ClosestAppend(xs[1..], ys, hit, r, lo, hi);
    }
  }

  /** The scan `HitableList::hit` performs, with the current bound `closest` and the best record so far. */
  function Scan<T(!new), M>(xs: seq<T>, hit: (T, Ray, real, real) -> Option<HitRecord<M>>,
                      r: Ray, lo: real, closest: real, acc: Option<HitRecord<M>>): (res: Option<HitRecord<M>>)
    ensures acc.Some? ==> res.Some?
    ensures res != acc ==> exists x, hi | x in xs :: hit(x, r, lo, hi) == res
  {
    if |xs| == 0 then acc
    else
      match hit(xs[0], r, lo, closest)
      case Some(h) => Scan(xs[1..], hit, r, lo, h.t, Some(h))
      case None => Scan(xs[1..], hit, r, lo, closest, acc)
  }

  /** The scan finds the nearer of the record so far and the closest child hit within the current bound. */
  lemma {:induction false} ScanFindsClosest<T(!new), M>(xs: seq<T>, hit: (T, Ray, real, real) -> Option<HitRecord<M>>,
                                                  r: Ray, lo: real, closest: real, acc: Option<HitRecord<M>>)
    requires ClosestHitOracle(hit)
    requires acc.Some? ==> acc.value.t == closest
    ensures TOf(Scan(xs, hit, r, lo, closest, acc)) == MinOpt(TOf(acc), Closest(xs, hit, r, lo, closest))
  {
    if |xs| > 0 {
      var h0 := hit(xs[0], r, lo, closest);
      if h0.Some? {
        assert h0 == Narrowed(h0, closest, false) || h0 == Narrowed(h0, closest, true);
        ScanFindsClosest(xs[1..], hit, r, lo, h0.value.t, h0);
        ClosestUnderLowerBound(xs[1..], hit, r, lo, h0.value.t, closest);
      } else {
        ScanFindsClosest(xs[1..], hit, r, lo, closest, acc);
      }
    }
  }

  /** Whatever the scan returns is some child's own closest hit over the original bounds. */
  lemma {:induction false} ScanReturnsChildHit<T(!new), M>(xs: seq<T>, hit: (T, Ray, real, real) -> Option<HitRecord<M>>,
                                                     r: Ray, lo: real, hi: real, closest: real,
                                                     acc: Option<HitRecord<M>>)
    requires ClosestHitOracle(hit) && closest <= hi
    requires acc.Some? ==> acc.value.t == closest
    ensures var res := Scan(xs, hit, r, lo, closest, acc);
            res.Some? && res != acc ==> exists i | 0 <= i < |xs| :: hit(xs[i], r, lo, hi) == res
  {
    if |xs| > 0 {
      var h0 := hit(xs[0], r, lo, closest);
      var hw := hit(xs[0], r, lo, hi);
      assert h0 == Narrowed(hw, closest, false) || h0 == Narrowed(hw, closest, true);
      var res := Scan(xs, hit, r, lo, closest, acc);
      if h0.Some? {
        ScanReturnsChildHit(xs[1..], hit, r, lo, hi, h0.value.t, h0);
        if res.Some? && res != h0 {
          var j :| 0 <= j < |xs[1..]| && hit(xs[1..][j], r, lo, hi) == res;
          assert hit(xs[j + 1], r, lo, hi) == res;
        } else if res.Some? {
          assert hit(xs[0], r, lo, hi) == res;
        }
      } else {
        ScanReturnsChildHit(xs[1..], hit, r, lo, hi, closest, acc);
        if res.Some? && res != acc {
          var j :| 0 <= j < |xs[1..]| && hit(xs[1..][j], r, lo, hi) == res;
          assert hit(xs[j + 1], r, lo, hi) == res;
        }
      }
    }
  }

  /**
   * `HitableList::hit`: queries every child with the distance of the latest hit as
   * its upper bound. With closest-hit children the result is the brute-force closest
   * hit, and it is one of the children's own hits over (`tmin`, `tmax`).
   */
  method ListHit<T(!new), M>(list: seq<T>, hit: (T, Ray, real, real) -> Option<HitRecord<M>>,
                       r: Ray, tmin: real, tmax: real) returns (res: Option<HitRecord<M>>)
    ensures res == Scan(list, hit, r, tmin, tmax, None)
    ensures ClosestHitOracle(hit) ==> TOf(res) == Closest(list, hit, r, tmin, tmax)
    ensures ClosestHitOracle(hit) && res.Some? ==> exists i | 0 <= i < |list| :: hit(list[i], r, tmin, tmax) == res
  {
    var closestSoFar := tmax;
    res := None;
    for i := 0 to |list|
      invariant res.Some? ==> res.value.t == closestSoFar
      invariant Scan(list[i..], hit, r, tmin, closestSoFar, res) == Scan(list, hit, r, tmin, tmax, None)
    {
      assert list[i..][1..] == list[i + 1..];
      var h := hit(list[i], r, tmin, closestSoFar);
      if h.Some? {
        closestSoFar := h.value.t;
        res := h;
      }
    }
    assert list[|list|..] == [];
    if ClosestHitOracle(hit) {
      ScanFindsClosest(list, hit, r, tmin, tmax, None);
      ScanReturnsChildHit(list, hit, r, tmin, tmax, tmax, None);
    }
  }
}
