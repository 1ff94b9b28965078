/**
 * The bounding volume hierarchy (src/bvh.rs): a binary tree built by sorting the
 * primitives on a randomly chosen axis and splitting the list in half, and a
 * traversal that skips subtrees whose box the ray misses.
 *
 * Primitives are values of a type `T` with a box function `bbox(x, t0, t1)` and a
 * hit function `hit(x, ray, tmin, tmax)`. The random axis draws come from a stream
 * `rng`, read in the order the source draws them (a node before its left subtree,
 * the left subtree before the right one).
 */
module Bvh {
  import opened Vec3Math
  import opened RayMath
  import opened AabbMath
  import opened Options
  import opened Hitable

  /**
   * A child of a `BvhNode`: a primitive, or another node with the union box it
   * stores. The source always builds nodes; a primitive is only ever a child.
   */
  datatype Bvh<T> = Prim(item: T) | Node(left: Bvh<T>, right: Bvh<T>, box: AABB)

  /** `bounding_box` of a child: the primitive's own box, or the stored box whatever the times. */
  function BoxOf<T>(b: Bvh<T>, bbox: (T, real, real) -> AABB, t0: real, t1: real): AABB {
    match b
    case Prim(x) => bbox(x, t0, t1)
    case Node(_, _, box) => box
  }

  /** The primitives at the leaves, left to right (a one-element node lists its primitive twice). */
  ghost function Leaves<T>(b: Bvh<T>): seq<T> {
    match b
    case Prim(x) => [x]
    case Node(left, right, _) => Leaves(left) + Leaves(right)
  }

  /** The primitives a node holds, counting a one-element node's shared child once. */
  ghost function Items<T>(b: Bvh<T>): seq<T> {
    match b
    case Prim(x) => [x]
    case Node(left, right, _) => if left == right then Items(left) else Items(left) + Items(right)
  }

  /** Every node stores the union of its children's boxes over (`t0`, `t1`). */
  ghost predicate WellBuilt<T>(b: Bvh<T>, bbox: (T, real, real) -> AABB, t0: real, t1: real) {
    match b
    case Prim(_) => true
    case Node(left, right, box) =>
      box == Union(BoxOf(left, bbox, t0, t1), BoxOf(right, bbox, t0, t1)) &&
      WellBuilt(left, bbox, t0, t1) && WellBuilt(right, bbox, t0, t1)
  }

  /** The number of node levels above the deepest primitive. */
  function Height<T>(b: Bvh<T>): nat {
    match b
    case Prim(_) => 0
    case Node(left, right, _) => 1 + (if Height(left) >= Height(right) then Height(left) else Height(right))
  }

  function Pow2(k: nat): (p: nat)
    ensures 1 <= p
  {
    if k == 0 then 1 else 2 * Pow2(k - 1)
  }

  /**
   * The axis chosen from a uniform draw: `floor(3 * draw)` cast to `u32` (negative
   * values saturate to 0), with every value from 2 up meaning the z axis.
   */
  function AxisOfDraw(draw: real): (axis: nat)
    ensures axis < 3
    ensures 0.0 <= draw < 1.0 ==> axis as real <= 3.0 * draw < axis as real + 1.0
  {
    var f := (3.0 * draw).Floor;
    if f <= 0 then 0 else if f == 1 then 1 else 2
  }

  /** The sort key: the minimum corner of the primitive's box at time 0 on `axis`. */
  function Key<T>(bbox: (T, real, real) -> AABB, axis: nat, x: T): real
    requires axis < 3
  {
    Index(bbox(x, 0.0, 0.0).min, axis)
  }

  predicate SortedOnAxis<T>(xs: seq<T>, bbox: (T, real, real) -> AABB, axis: nat)
    requires axis < 3
  {
    forall i, j | 0 <= i < j < |xs| :: Key(bbox, axis, xs[i]) <= Key(bbox, axis, xs[j])
  }

  /** Inserts `x` into a list sorted by key, before the first element whose key is not below. */
  function InsertOnAxis<T>(x: T, xs: seq<T>, bbox: (T, real, real) -> AABB, axis: nat): (r: seq<T>)
    requires axis < 3 && SortedOnAxis(xs, bbox, axis)
    ensures SortedOnAxis(r, bbox, axis)
    ensures multiset(r) == multiset(xs) + multiset{x}
    ensures |r| == |xs| + 1 && (r[0] == x || (|xs| > 0 && r[0] == xs[0]))
  {
    if |xs| == 0 || Key(bbox, axis, x) <= Key(bbox, axis, xs[0]) then [x] + xs
    else
      var rest := InsertOnAxis(x, xs[1..], bbox, axis);
      assert xs == [xs[0]] + xs[1..];
      [xs[0]] + rest
  }

  /**
   * The list ordered by key, as `sort_unstable_by` with the comparator of
   * src/bvh.rs leaves it: sorted and a permutation of the input.
   */
  function SortOnAxis<T(!new)>(xs: seq<T>, bbox: (T, real, real) -> AABB, axis: nat): (r: seq<T>)
    requires axis < 3
    ensures SortedOnAxis(r, bbox, axis)
    ensures multiset(r) == multiset(xs) && |r| == |xs|
    ensures forall x :: x in r <==> x in xs
  {
    assert forall x :: x in xs <==> x in multiset(xs);
    if |xs| == 0 then []
    else
      assert xs == [xs[0]] + xs[1..];
      InsertOnAxis(xs[0], SortOnAxis(xs[1..], bbox, axis), bbox, axis)
  }

  /** A node over two children, storing the union of their boxes. */
  function MakeNode<T>(left: Bvh<T>, right: Bvh<T>, bbox: (T, real, real) -> AABB, time0: real, time1: real): (n: Bvh<T>)
    ensures n.Node? && n.left == left && n.right == right
    ensures Encloses(n.box, BoxOf(left, bbox, time0, time1)) && Encloses(n.box, BoxOf(right, bbox, time0, time1))
    ensures WellBuilt(left, bbox, time0, time1) && WellBuilt(right, bbox, time0, time1) ==> WellBuilt(n, bbox, time0, time1)
  {
    Node(left, right, Union(BoxOf(left, bbox, time0, time1), BoxOf(right, bbox, time0, time1)))
  }

  /**
   * `BvhNode::from_list`: draws an axis, sorts the list on it and builds the node
   * from the sorted list. The list must not be empty (the source would recurse
   * without end). Returns the node and the index of the next unused draw.
   *
   * The leaves are exactly the list's primitives; a one-element list gives that
   * primitive as both children, a two-element list its two primitives in key order on
   * the drawn axis, and a longer list two sub-trees with no primitive of the left
   * keyed above any of the right.
   */
  function FromList<T(!new)>(list: seq<T>, bbox: (T, real, real) -> AABB, time0: real, time1: real,
                             rng: nat -> real, next: nat): (res: (Bvh<T>, nat))
    requires 1 <= |list|
    ensures res.0.Node? && next < res.1
    ensures WellBuilt(res.0, bbox, time0, time1)
    ensures Height(res.0) <= Levels(|list|)
    ensures forall x :: x in Leaves(res.0) <==> x in list
    ensures |list| == 1 ==> res.0.left == res.0.right == Prim(list[0])
    ensures |list| == 2 ==> (res.0.left.Prim? && res.0.right.Prim? &&
      multiset{res.0.left.item, res.0.right.item} == multiset(list) &&
      Key(bbox, AxisOfDraw(rng(next)), res.0.left.item) <= Key(bbox, AxisOfDraw(rng(next)), res.0.right.item))
    ensures |list| > 2 ==> (res.0.left.Node? && res.0.right.Node? &&
      forall x, y | x in Leaves(res.0.left) && y in Leaves(res.0.right) ::
        Key(bbox, AxisOfDraw(rng(next)), x) <= Key(bbox, AxisOfDraw(rng(next)), y))
    decreases |list|, 1
  {
    var axis := AxisOfDraw(rng(next));
    var sorted := SortOnAxis(list, bbox, axis);
    assert |list| == 1 ==> sorted[0] in multiset(list);
    assert |list| == 2 ==> sorted == [sorted[0], sorted[1]] && list == [list[0], list[1]];
    BuildSorted(sorted, bbox, axis, time0, time1, rng, next + 1)
  }

  /**
   * The node over a list already sorted on `axis`: the single primitive twice, the two
   * primitives, or nodes built from the halves split at `len / 2`, with the union of
   * the children's boxes. Further draws start at `next`.
   */
  function BuildSorted<T(!new)>(sorted: seq<T>, bbox: (T, real, real) -> AABB, axis: nat, time0: real, time1: real,
                                rng: nat -> real, next: nat): (res: (Bvh<T>, nat))
    requires 1 <= |sorted| && axis < 3 && SortedOnAxis(sorted, bbox, axis)
    ensures res.0.Node? && next <= res.1
    ensures WellBuilt(res.0, bbox, time0, time1)
    ensures Height(res.0) <= Levels(|sorted|)
    ensures forall x :: x in Leaves(res.0) <==> x in sorted
    ensures |sorted| == 1 ==> res.0.left == res.0.right == Prim(sorted[0])
    ensures |sorted| == 2 ==> res.0.left == Prim(sorted[0]) && res.0.right == Prim(sorted[1])
    ensures |sorted| > 2 ==> (res.0.left.Node? && res.0.right.Node? &&
      forall x, y | x in Leaves(res.0.left) && y in Leaves(res.0.right) :: Key(bbox, axis, x) <= Key(bbox, axis, y))
    decreases |sorted|, 0
  {
    if |sorted| == 1 then (MakeNode(Prim(sorted[0]), Prim(sorted[0]), bbox, time0, time1), next)
    else if |sorted| == 2 then (MakeNode(Prim(sorted[0]), Prim(sorted[1]), bbox, time0, time1), next)
    else
      var half := |sorted| / 2;
      var lower, upper := sorted[..half], sorted[half..];
      assert sorted == lower + upper;
      var left := FromList(lower, bbox, time0, time1, rng, next);
      var right := FromList(upper, bbox, time0, time1, rng, left.1);
      SortedHalves(sorted, half, bbox, axis);
      LevelsOfSplit(|sorted|, |lower|, |upper|, Height(left.0), Height(right.0));
      var node := MakeNode(left.0, right.0, bbox, time0, time1);
      (node, right.1)
  }

  /** In a sorted list, every key of the prefix is at most every key of the suffix. */
  lemma SortedHalves<T>(sorted: seq<T>, half: nat, bbox: (T, real, real) -> AABB, axis: nat)
    requires axis < 3 && SortedOnAxis(sorted, bbox, axis) && half <= |sorted|
    ensures forall x, y | x in sorted[..half] && y in sorted[half..] :: Key(bbox, axis, x) <= Key(bbox, axis, y)
  {
    forall x, y | x in sorted[..half] && y in sorted[half..]
      ensures Key(bbox, axis, x) <= Key(bbox, axis, y)
    {
      var i :| 0 <= i < half && sorted[..half][i] == x;
      var j :| 0 <= j < |sorted| - half && sorted[half..][j] == y;
      assert sorted[i] == x && sorted[half + j] == y;
    }
  }

  lemma LeavesNonEmpty<T>(b: Bvh<T>)
    ensures |Leaves(b)| > 0 && |Items(b)| > 0
  {
    match b
    case Prim(_) =>
    case Node(left, right, _) =>
      LeavesNonEmpty(left);
      LeavesNonEmpty(right);
  }

  /** The height a build over `n` primitives can reach: one level, plus those of the larger half. */
  function Levels(n: nat): (l: nat)
    ensures 1 <= l
  {
    if n <= 2 then 1 else 1 + Levels(n - n / 2)
  }

  lemma {:induction false} LevelsMonotone(m: nat, n: nat)
    requires m <= n
    ensures Levels(m) <= Levels(n)
  {
    if 2 < m {
      LevelsMonotone(m - m / 2, n - n / 2);
    }
  }

  /** A node over halves within their level bounds is within the bound of the whole. */
  lemma LevelsOfSplit(n: nat, lower: nat, upper: nat, hl: nat, hr: nat)
    requires 2 < n && lower == n / 2 && upper == n - lower
    requires hl <= Levels(lower) && hr <= Levels(upper)
    ensures 1 + (if hl >= hr then hl else hr) <= Levels(n)
  {
    LevelsMonotone(lower, upper);
  }

  /** Both halves of a list of at most `2p` elements have at most `p`. */
  lemma HalvesFit(n: nat, p: nat)
    requires n <= 2 * p
    ensures n / 2 <= p && n - n / 2 <= p
  {
  }

  /** `Levels(n)` is at most `k` for `n <= 2^k` (`k >= 1`): it is `ceil(log2 n)` for `n >= 2`. */
  lemma {:induction false} LevelsLogarithmic(n: nat, k: nat)
    requires n <= Pow2(k) && 1 <= k
    ensures Levels(n) <= k
  {
    if 2 < n {
      assert k != 1;
      HalvesFit(n, Pow2(k - 1));
      LevelsLogarithmic(n - n / 2, k - 1);
    }
  }

  /** Splitting in halves keeps the tree balanced: at most `2^k` primitives give height at most `k`. */
  lemma FromListHeight<T(!new)>(list: seq<T>, bbox: (T, real, real) -> AABB, time0: real, time1: real,
                                rng: nat -> real, next: nat, k: nat)
    requires 1 <= |list| <= Pow2(k) && 1 <= k
    ensures Height(FromList(list, bbox, time0, time1, rng, next).0) <= k
  {
    LevelsLogarithmic(|list|, k);
  }

  /** No primitive occurs twice. */
  ghost predicate Distinct<T>(xs: seq<T>) {
    forall x | x in multiset(xs) :: multiset(xs)[x] == 1
  }

  /**
   * Each primitive of a list without repeats is held exactly once by the built tree,
   * the shared child of a one-element node counting once.
   */
  lemma {:induction false} FromListHoldsEachOnce<T(!new)>(list: seq<T>, bbox: (T, real, real) -> AABB, time0: real, time1: real,
                                                          rng: nat -> real, next: nat)
    requires 1 <= |list| && Distinct(list)
    ensures multiset(Items(FromList(list, bbox, time0, time1, rng, next).0)) == multiset(list)
    decreases |list|, 1
  {
    var axis := AxisOfDraw(rng(next));
    BuildSortedHoldsEachOnce(SortOnAxis(list, bbox, axis), bbox, axis, time0, time1, rng, next + 1);
  }

  lemma {:induction false} BuildSortedHoldsEachOnce<T(!new)>(sorted: seq<T>, bbox: (T, real, real) -> AABB, axis: nat,
                                                             time0: real, time1: real, rng: nat -> real, next: nat)
    requires 1 <= |sorted| && axis < 3 && SortedOnAxis(sorted, bbox, axis) && Distinct(sorted)
    ensures multiset(Items(BuildSorted(sorted, bbox, axis, time0, time1, rng, next).0)) == multiset(sorted)
    decreases |sorted|, 0
  {
    if |sorted| == 1 {
      assert sorted == [sorted[0]];
    } else if |sorted| == 2 {
      assert sorted == [sorted[0], sorted[1]];
      assert sorted[0] != sorted[1] by {
        assert multiset(sorted)[sorted[0]] == 1;
      }
    } else {
      var half := |sorted| / 2;
      var lower, upper := sorted[..half], sorted[half..];
      DistinctHalves(sorted, half);
      var left := FromList(lower, bbox, time0, time1, rng, next);
      var right := FromList(upper, bbox, time0, time1, rng, left.1);
      FromListHoldsEachOnce(lower, bbox, time0, time1, rng, next);
      FromListHoldsEachOnce(upper, bbox, time0, time1, rng, left.1);
      DisjointTreesDiffer(left.0, right.0);
    }
  }

  /** The halves of a list without repeats have no repeats and no primitive in common. */
  lemma DistinctHalves<T>(sorted: seq<T>, half: nat)
    requires half <= |sorted| && Distinct(sorted)
    ensures sorted == sorted[..half] + sorted[half..]
    ensures multiset(sorted) == multiset(sorted[..half]) + multiset(sorted[half..])
    ensures Distinct(sorted[..half]) && Distinct(sorted[half..])
    ensures forall x | x in multiset(sorted[..half]) :: x !in multiset(sorted[half..])
  {
    var lower, upper := sorted[..half], sorted[half..];
    assert sorted == lower + upper;
    forall x ensures multiset(sorted)[x] == multiset(lower)[x] + multiset(upper)[x] {
    }
  }

  /** Trees holding no primitive in common are different trees. */
  lemma DisjointTreesDiffer<T>(a: Bvh<T>, b: Bvh<T>)
    requires forall x | x in multiset(Items(a)) :: x !in multiset(Items(b))
    ensures a != b
  {
    LeavesNonEmpty(a);
    assert Items(a)[0] in multiset(Items(a));
  }
  /**
   * `BvhNode::hit`: a node whose box the ray misses reports nothing without querying
   * its children. Otherwise the left child is queried over (`tmin`, `tmax`) and the
   * right one up to the left hit's distance when there is one; a right hit takes
   * precedence over the left one.
   */
  function Hit<T(!new), M>(b: Bvh<T>, hit: (T, Ray, real, real) -> Option<HitRecord<M>>,
                           r: Ray, tmin: real, tmax: real): (res: Option<HitRecord<M>>)
    requires NoZeroComponent(r.direction)
    ensures b.Node? && !SlabHit(b.box, r, tmin, tmax) ==> res.None?
    ensures res.Some? ==> exists x, hi' | x in Leaves(b) :: hit(x, r, tmin, hi') == res
  {
    match b
    case Prim(x) => hit(x, r, tmin, tmax)
    case Node(left, right, box) =>
      if !SlabHit(box, r, tmin, tmax) then None
      else
        match Hit(left, hit, r, tmin, tmax)
        case Some(leftHit) =>
          (match Hit(right, hit, r, tmin, leftHit.t)
           case Some(rightHit) => Some(rightHit)
           case None => Some(leftHit))
        case None => Hit(right, hit, r, tmin, tmax)
  }

  /** Every primitive's box reports a hit for every query the primitive itself hits. */
  ghost predicate BoxesBound<T(!new), M>(hit: (T, Ray, real, real) -> Option<HitRecord<M>>,
                                         bbox: (T, real, real) -> AABB, t0: real, t1: real) {
    forall x: T, r: Ray, lo: real, hi: real | NoZeroComponent(r.direction) && hit(x, r, lo, hi).Some? :: SlabHit(bbox(x, t0, t1), r, lo, hi)
  }

  /** A well-built node's box encloses the boxes of all its primitives. */
  lemma {:induction false} BoxEnclosesLeaves<T>(b: Bvh<T>, bbox: (T, real, real) -> AABB, t0: real, t1: real)
    requires WellBuilt(b, bbox, t0, t1)
    ensures forall x | x in Leaves(b) :: Encloses(BoxOf(b, bbox, t0, t1), bbox(x, t0, t1))
  {
    match b
    case Prim(x) =>
    case Node(left, right, box) =>
      BoxEnclosesLeaves(left, bbox, t0, t1);
      BoxEnclosesLeaves(right, bbox, t0, t1);
      forall x | x in Leaves(b) ensures Encloses(box, bbox(x, t0, t1)) {
        if x in Leaves(left) {
          EnclosesTransitive(box, BoxOf(left, bbox, t0, t1), bbox(x, t0, t1));
        } else {
          EnclosesTransitive(box, BoxOf(right, bbox, t0, t1), bbox(x, t0, t1));
        }
      }
  }

  /** When a node's box is missed, none of its primitives is hit. */
  lemma MissedBoxHidesLeaves<T(!new), M>(b: Bvh<T>, hit: (T, Ray, real, real) -> Option<HitRecord<M>>,
                                         bbox: (T, real, real) -> AABB, t0: real, t1: real, r: Ray, lo: real, hi: real)
    requires NoZeroComponent(r.direction) && WellBuilt(b, bbox, t0, t1) && BoxesBound(hit, bbox, t0, t1)
    ensures !SlabHit(BoxOf(b, bbox, t0, t1), r, lo, hi) ==> Closest(Leaves(b), hit, r, lo, hi).None?
  {
    BoxEnclosesLeaves(b, bbox, t0, t1);
    var leaves := Leaves(b);
    forall i | 0 <= i < |leaves| && hit(leaves[i], r, lo, hi).Some?
      ensures SlabHit(BoxOf(b, bbox, t0, t1), r, lo, hi)
    {
      SlabHitEnclosing(BoxOf(b, bbox, t0, t1), bbox(leaves[i], t0, t1), r, lo, hi);
    }
    ClosestIsMinimum(leaves, hit, r, lo, hi);
  }

  /**
   * The traversal finds the closest hit: with closest-hit primitives whose boxes bound
   * their hits, a well-built tree reports the distance of the nearest hit over all its
   * primitives, exactly as querying every primitive would.
   */
  lemma {:induction false} HitIsClosest<T(!new), M>(b: Bvh<T>, hit: (T, Ray, real, real) -> Option<HitRecord<M>>,
                                                     bbox: (T, real, real) -> AABB, t0: real, t1: real,
                                                     r: Ray, lo: real, hi: real)
    requires NoZeroComponent(r.direction) && ClosestHitOracle(hit)
    requires WellBuilt(b, bbox, t0, t1) && BoxesBound(hit, bbox, t0, t1)
    ensures TOf(Hit(b, hit, r, lo, hi)) == Closest(Leaves(b), hit, r, lo, hi)
  {
    match b
    case Prim(x) =>
      assert [x][1..] == [];
    case Node(left, right, box) =>
      ClosestAppend(Leaves(left), Leaves(right), hit, r, lo, hi);
      HitIsClosest(left, hit, bbox, t0, t1, r, lo, hi);
      HitIsClosest(right, hit, bbox, t0, t1, r, lo, hi);
      if !SlabHit(box, r, lo, hi) {
        MissedBoxHidesLeaves(b, hit, bbox, t0, t1, r, lo, hi);
      } else {
        var leftHit := Hit(left, hit, r, lo, hi);
        if leftHit.Some? {
          var b' := leftHit.value.t;
          HitIsClosest(right, hit, bbox, t0, t1, r, lo, b');
          LeftHitNarrowsRight(Leaves(left), Leaves(right), hit, r, lo, b', hi);
          assert Hit(b, hit, r, lo, hi) ==
                 (match Hit(right, hit, r, lo, b') case Some(rightHit) => Some(rightHit) case None => leftHit);
        }
      }
  }

  /**
   * Once the left primitives' closest hit is at `b`, querying the right ones only up to
   * `b` and preferring their hit yields the closest hit over both lists.
   */
  lemma LeftHitNarrowsRight<T(!new), M>(ls: seq<T>, rs: seq<T>, hit: (T, Ray, real, real) -> Option<HitRecord<M>>,
                                        r: Ray, lo: real, b: real, hi: real)
    requires ClosestHitOracle(hit) && Closest(ls, hit, r, lo, hi) == Some(b)
    ensures var narrow := Closest(rs, hit, r, lo, b);
      (if narrow.Some? then narrow else Some(b)) == MinOpt(Some(b), Closest(rs, hit, r, lo, hi))
  {
    ClosestBelowBound(ls, hit, r, lo, hi);
    ClosestBelowBound(rs, hit, r, lo, b);
    ClosestUnderLowerBound(rs, hit, r, lo, b, hi);
  }

  /** Whatever the traversal reports is one of its primitives' own closest hit over the query bounds. */
  lemma {:induction false} HitIsLeafHit<T(!new), M>(b: Bvh<T>, hit: (T, Ray, real, real) -> Option<HitRecord<M>>,
                                                     r: Ray, lo: real, hi: real)
    requires NoZeroComponent(r.direction) && ClosestHitOracle(hit)
    ensures Hit(b, hit, r, lo, hi).Some? ==>
              exists x | x in Leaves(b) :: hit(x, r, lo, hi) == Hit(b, hit, r, lo, hi)
  {
    match b
    case Prim(x) =>
      assert x in Leaves(b);
    case Node(left, right, box) =>
      HitIsLeafHit(left, hit, r, lo, hi);
      HitIsLeafHit(right, hit, r, lo, hi);
      var leftHit := Hit(left, hit, r, lo, hi);
      if SlabHit(box, r, lo, hi) && leftHit.Some? {
        var b' := leftHit.value.t;
        var xl :| xl in Leaves(left) && hit(xl, r, lo, hi) == leftHit;
        ClosestBelowBound([xl], hit, r, lo, hi);
        HitIsLeafHit(right, hit, r, lo, b');
        var rightHit := Hit(right, hit, r, lo, b');
        if rightHit.Some? {
          var xr :| xr in Leaves(right) && hit(xr, r, lo, b') == rightHit;
          var wide := hit(xr, r, lo, hi);
          assert rightHit == Narrowed(wide, b', false) || rightHit == Narrowed(wide, b', true);
          assert xr in Leaves(b);
        } else {
          assert xl in Leaves(b);
        }
      } else if SlabHit(box, r, lo, hi) && Hit(right, hit, r, lo, hi).Some? {
        var xr :| xr in Leaves(right) && hit(xr, r, lo, hi) == Hit(right, hit, r, lo, hi);
        assert xr in Leaves(b);
      }
  }
}
