# Path tracer core in Dafny

A model of the rendering core of a small Rust path tracer (SimpsonGSD/path-tracer).
It covers:

- the vector type and its operators;
- rays, axis-aligned bounding boxes and the slab test;
- the hitable list and the bounding volume hierarchy (BVH);
- spheres, axis-aligned rectangles and boxes, and constant-density media;
- the materials and their probability density functions, and an orthonormal basis;
- the scene builder;
- the per-tile trace job with its running-mean accumulation into the shared frame buffer;
- the `color` recursion with its sky and Reinhard tone curve;
- the tiling of the image into jobs;
- the RGB/BGR/RGBA to PPM byte conversions and the gamma-corrected byte conversion;
- the uniform-buffer layout of the tonemapping pass.

Conventions of the model:

- `f64` is `real`. Square roots, logarithms and random draws are parameters:
  - a square root function `sqrt` with `IsSqrt(sqrt)`;
  - a draw stream `rng`;
  - the values `lnDraw` and `draw`.
- Shape intersection routines that the code reaches through `dyn Hitable` become hit oracles, passed as function parameters.
  - `ClosestHitOracle` states what a hitable promises about the interval `(t_min, t_max)`.
  - Under it, the list scan and the BVH are proved to return the closest hit of all their leaves.
- Integer widths are modelled where they matter:
  - `usize` wrap-around of the remaining-tasks counter;
  - the `u32` rounding helpers;
  - the saturating `as u8` casts.
- Panics are `None` results.

Each module is one Rust file:

| Dafny file | Rust file |
|---|---|
| `vec3.dfy` | `src/math/vec3.rs` |
| `ray.dfy` | `src/math/ray.rs` |
| `aabb.dfy` | `src/math/aabb.rs` |
| `math_util.dfy` | `src/math/mod.rs` |
| `onb.dfy` | `src/onb.rs` |
| `hitable.dfy` | `src/hitable.rs` |
| `bvh.dfy` | `src/bvh.rs` |
| `sphere.dfy` | `src/sphere.rs` |
| `rect.dfy` | `src/rect.rs` |
| `axis_aligned_box.dfy` | `src/axis_aligned_box.rs` |
| `volume.dfy` | `src/volume.rs` |
| `material.dfy` | `src/material.rs` |
| `scene.dfy` | `src/scene.rs` |
| `trace.dfy` | the job of `src/trace.rs` |
| `shading.dfy` | `color` and `reinhard_tonemap` in `src/trace.rs` |
| `tiles.dfy` | the tiling in `src/lib.rs` |
| `image_bytes.dfy` | the byte conversions in `src/lib.rs` |
| `tonemap_settings.dfy` | `src/node/tonemap.rs` |

`options.dfy` holds the `Option` type.

## Model

| member | source | states |
|---|---|---|
| Vec3Math.SquaredLength | src/math/vec3.rs:51-53 | the squared length is never negative |
| Vec3Math.Length | src/math/vec3.rs:47-49 | the length is non-negative and squares to the squared length |
| Vec3Math.LengthPositive | src/math/vec3.rs:47-49 | a vector of positive squared length has positive length |
| Vec3Math.Unit | src/math/vec3.rs:31-33 | `new_unit_vector` has length 1, and scaling it back by the original length gives the original vector |
| Vec3Math.UnitScaleLemma | src/math/vec3.rs:122-128 | dividing by the length gives a unit vector that scales back to the input |
| Vec3Math.Cross | src/math/vec3.rs:137-143 | the cross product is orthogonal to both operands |
| Vec3Math.CrossLength | src/math/vec3.rs:137-143 | Lagrange's identity: \|a×b\|² = \|a\|²\|b\|² − (a·b)² |
| Vec3Math.CrossIsAntisymmetric | src/math/vec3.rs:137-143 | b×a = −(a×b), and a×a = 0 |
| Vec3Math.DotIsSymmetricAndBilinear | src/math/vec3.rs:145-147 | `Dot` is symmetric, additive in its first argument and homogeneous under scaling |
| Vec3Math.DotOfDifference | src/math/vec3.rs:145-147 | a·a is the squared length, and \|a−b\|² expands to \|a\|² − 2a·b + \|b\|² |
| Vec3Math.DotScaleRight | src/math/vec3.rs:145-147 | scaling the second operand scales the dot product |
| Vec3Math.DotOfScaled | src/math/vec3.rs:145-147 | scaling both operands multiplies the dot product, and the squared length, by the product of the factors |
| Vec3Math.Min | src/math/vec3.rs:149-151 | each component is the smaller of the two inputs' components |
| Vec3Math.Max | src/math/vec3.rs:153-155 | each component is the larger of the two inputs' components |
| Vec3Math.MinBelowMax | src/math/vec3.rs:149-155 | the component-wise minimum never exceeds the maximum |
| Vec3Math.WithIndex | src/math/vec3.rs:169-178 | writing component `i` changes that component only, and `Index` reads it back |
| Vec3Math.EqualIsIdentity | src/math/vec3.rs:62-64 | `Equal` holds exactly when the vectors are the same; `eq` at 180-184 is the same test |
| Vec3Math.SubUndoesAdd | src/math/vec3.rs:66-90 | `Sub` undoes `Add` (subtracting what was added gives the vector back), and `a + Neg(a)` is 0 |
| Vec3Math.DivFloatUndoesScale | src/math/vec3.rs:106-128 | `DivFloat` by a non-zero float undoes `Scale` by it |
| Vec3Math.DivUndoesMul | src/math/vec3.rs:98-120 | component-wise `Div` by a vector with no zero component undoes component-wise `Mul` |
| Vec3Math.FloatOpsAreVectorOps | src/math/vec3.rs:74-112 | `AddFloat`, `SubFloat` and `Scale` act as `Add`, `Sub` and `Mul` with that float in all three components |
| Vec3Math.UnitTestFacts | src/math/vec3.rs:496-567 | the results the module's unit tests expect of addition, subtraction, multiplication and division (vector and float operands, including the compound-assignment cases), and a squared length of 12 for (2, 2, 2) |
| Vec3Math.Vec3Cell.constructor | src/math/vec3.rs:11-17 | a new vector holds the given components |
| Vec3Math.Vec3Cell.AddAssign | src/math/vec3.rs:234-240 | `+=` leaves the sum of the old value and the operand |
| Vec3Math.Vec3Cell.AddAssignFloat | src/math/vec3.rs:242-248 | `+= f` adds `f` to every component |
| Vec3Math.Vec3Cell.SubAssign | src/math/vec3.rs:298-304 | `-=` leaves the difference |
| Vec3Math.Vec3Cell.SubAssignFloat | src/math/vec3.rs:306-312 | `-= f` subtracts `f` from every component |
| Vec3Math.Vec3Cell.MulAssign | src/math/vec3.rs:394-400 | `*=` leaves the component-wise product |
| Vec3Math.Vec3Cell.MulAssignFloat | src/math/vec3.rs:402-408 | `*= f` leaves the vector scaled by `f` |
| Vec3Math.Vec3Cell.DivAssign | src/math/vec3.rs:458-464 | `/=` leaves the component-wise quotient |
| Vec3Math.Vec3Cell.DivAssignFloat | src/math/vec3.rs:466-472 | `/= f` leaves the vector divided by `f` |
| Vec3Math.Vec3Cell.SetIndex | src/math/vec3.rs:169-178 | `v[i] = x` replaces component `i` and keeps the other two |
| Vec3Math.Vec3Cell.MakeUnitVector | src/math/vec3.rs:55-60 | `make_unit_vector` leaves the unit vector of the old value |
| RayMath.PointAt | src/math/ray.rs:30-32 | `point_at_parameter(t)` lies `t` directions away from the origin |
| RayMath.PointAtIsAffine | src/math/ray.rs:30-32 | the point at 0 is the origin; points at `s+t` and `s` differ by `t` directions; points at `t` and `s` differ by `t−s` directions |
| AabbMath.FfMin | src/math/aabb.rs:65-67 | `ffmin` is the smaller argument |
| AabbMath.FfMax | src/math/aabb.rs:61-63 | `ffmax` is the larger argument |
| AabbMath.Union | src/math/aabb.rs:49-56 | `get_union` encloses both boxes and is enclosed by every box that encloses both (the least enclosing box) |
| AabbMath.UnionLaws | src/math/aabb.rs:49-56 | the union is commutative and idempotent and keeps boxes ordered (min ≤ max) |
| AabbMath.Hit | src/math/aabb.rs:27-47 | the slab loop returns the slab test, and a hit implies the narrowed interval is non-empty |
| AabbMath.SlabBoundsOrdered | src/math/aabb.rs:29-35 | on an ordered axis, the entry parameter is at most the exit parameter |
| AabbMath.SlabsFrom | src/math/aabb.rs:27-47 | from any axis on, the test succeeds only on a non-empty interval `t_min < t_max` |
| AabbMath.SlabHit | src/math/aabb.rs:27-47 | the value `AABB::hit` returns; an empty interval `t_max ≤ t_min` never hits |
| AabbMath.SlabBoundsMeaning | src/math/aabb.rs:29-35 | a parameter between the two slab crossings puts the ray point inside that slab, and a point strictly inside lies strictly between them |
| AabbMath.SlabHitSound | src/math/aabb.rs:27-47 | a hit means some point of the ray with `t_min < t < t_max` lies in the box |
| AabbMath.SlabHitComplete | src/math/aabb.rs:27-47 | if some point of the ray in `(t_min, t_max)` lies strictly inside the box, the test hits |
| AabbMath.SlabHitEnclosing | src/math/aabb.rs:27-56 | whatever ray hits a box also hits every box that encloses it, which the BVH relies on |
| AabbMath.EnclosesTransitive | src/math/aabb.rs:49-56 | enclosing is transitive |
| MathUtil.Lerp | src/math/mod.rs:15-20 | `lerp(a, b, t)` moves from `a` by `t` times `b − a` |
| MathUtil.LerpVec | src/math/mod.rs:15-20 | on vectors, `lerp` is the scalar `lerp` component by component |
| MathUtil.LerpEndPoints | src/math/mod.rs:15-20 | `lerp` gives `a` at 0 and `b` at 1, and stays between them for `t` in [0, 1] |
| MathUtil.Clamp | src/math/mod.rs:22-26 | the result is the input or a bound; it lies within ordered bounds, and an input already inside is kept |
| MathUtil.ClampIdempotent | src/math/mod.rs:22-26 | clamping twice is clamping once |
| MathUtil.RoundDownBounds | src/math/mod.rs:28-31 | for a request `0 < r ≤ n` the result lies in [r, 2r), its multiple by `n / r` stays within `n`, and an exact divisor is kept |
| MathUtil.RoundDownToClosestFactor | src/math/mod.rs:28-31 | `None` (the division by zero) exactly when `r > n`, or when both are 0; a result never exceeds `n` |
| MathUtil.RoundUpToClosestFactor | src/math/mod.rs:33-36 | a result never exceeds `n`; when it panics is `RoundUpPanics` |
| MathUtil.RoundUpPanics | src/math/mod.rs:33-36 | `round_up_to_closest_factor` divides by zero exactly when `2n < r` |
| MathUtil.RoundUpBounds | src/math/mod.rs:33-36 | for `0 < r ≤ 2n` the result times the rounded factor stays within `n`, and an exact divisor is kept |
| MathUtil.RoundDownNotAFactor | src/math/mod.rs:28-31 | the counterexample of the first finding: rounding 3 against 7 gives 3, which does not divide 7 |
| MathUtil.DividingFactorFrom | src/math/mod.rs:28-31 | the least divisor of `n` that is at least `r` (the intended meaning) |
| MathUtil.RoundToDividingFactor | src/math/mod.rs:28-31 | corrected rounding: fails exactly where the original panics or returns 0; otherwise it returns a divisor of `n` in [r, n], the least such, and `r` itself when `r` divides `n` |
| MathUtil.RoundingAgreesOnDefaultImage | src/lib.rs:323-327 | on the 1280×720 image with 120×120 requests, both roundings give 128 and 120 |
| Onb.New | src/onb.rs:10-16 | the default basis is orthonormal |
| Onb.HelperAxis | src/onb.rs:18-33 | the helper axis is y when \|w.x\| > 0.9 and x otherwise |
| Onb.HelperCrossNonDegenerate | src/onb.rs:18-33 | for a unit `w` the cross product with the helper axis is never zero, so the normalisation is defined |
| Onb.BuildFromW | src/onb.rs:18-33 | `build_from_w` gives an orthonormal basis whose `w` is the normalised input, with `v` orthogonal to the helper axis and `u = w × v` |
| Onb.Local | src/onb.rs:35-37 | `local` maps coordinates to the combination a.x·u + a.y·v + a.z·w, written out per component |
| Onb.LocalOfStandardBasis | src/onb.rs:10-16 | in the default basis `local` is the identity |
| Onb.LocalIsLinear | src/onb.rs:35-37 | `local` is linear and maps (0, 0, 1) to `w` |
| Onb.LocalAdditive | src/onb.rs:35-37 | `local` of a sum is the sum of the `local`s |
| Onb.LocalHomogeneous | src/onb.rs:35-37 | `local` of a scaled vector is the scaled `local` |
| Onb.LocalCoordinates | src/onb.rs:35-37 | in an orthonormal basis, projecting `local(a)` onto u, v and w recovers a.x, a.y and a.z |
| Hitable.TOf | src/hitable.rs:15-24 | the hit distance of an optional record |
| Hitable.MinOpt | src/hitable.rs:43-54 | the smaller of two optional distances, `None` only when both are |
| Hitable.Closest | src/hitable.rs:43-54 | the brute-force closest distance is `None` exactly when no child hits |
| Hitable.ClosestIsMinimum | src/hitable.rs:43-54 | the closest distance is `None` exactly when no child hits; otherwise it is at most every child's hit and equal to one of them |
| Hitable.ClosestUnderLowerBound | src/hitable.rs:43-54 | narrowing the far bound does not change the closest hit below the new bound |
| Hitable.ClosestBelowBound | src/hitable.rs:43-54 | hits reported for a far bound never lie beyond it |
| Hitable.ClosestAppend | src/hitable.rs:43-54 | the closest hit of a concatenation is the minimum of the parts' closest hits |
| Hitable.Scan | src/hitable.rs:43-54 | once the scan holds a hit it keeps one; a result other than the seed is one child's own record for some far bound |
| Hitable.ScanFindsClosest | src/hitable.rs:43-54 | the scan that narrows `closest_so_far` ends at the minimum of the seed and the closest child hit |
| Hitable.ScanReturnsChildHit | src/hitable.rs:43-54 | a new result of the scan is the record some child reports over the whole interval |
| Hitable.ListHit | src/hitable.rs:43-54 | `HitableList::hit` returns the closest hit among all children, and that hit is one child's own record |
| Bvh.AxisOfDraw | src/bvh.rs:15 | `(rand * 3).floor() as u32` picks axis 0, 1 or 2 (anything else sorts on z), the floor of 3·draw for a draw in [0, 1) |
| Bvh.InsertOnAxis | src/bvh.rs:19-41 | insertion keeps the list sorted on the axis and adds exactly the new element |
| Bvh.SortOnAxis | src/bvh.rs:19-41 | the sort by the time-0 box minimum on the axis is sorted and a permutation of the input |
| Bvh.MakeNode | src/bvh.rs:60-68 | a node's box encloses both children's boxes, and a node over well-built children is well built |
| Bvh.FromList | src/bvh.rs:13-69 | `from_list` builds a well-built node over exactly the input elements; 1 element duplicates the leaf, 2 are ordered on the drawn axis, more split into halves with every left leaf ordered before every right leaf; the height is bounded by `Levels` |
| Bvh.BuildSorted | src/bvh.rs:43-68 | the split of a sorted list has the same properties on the chosen axis |
| Bvh.SortedHalves | src/bvh.rs:54-57 | after sorting, every element of the first half precedes every element of the second on the axis |
| Bvh.LeavesNonEmpty | src/bvh.rs:13-69 | every tree has at least one leaf |
| Bvh.LevelsMonotone | src/bvh.rs:46-58 | the height bound grows with the list length |
| Bvh.LevelsOfSplit | src/bvh.rs:46-58 | splitting into halves keeps the height within the bound |
| Bvh.LevelsLogarithmic | src/bvh.rs:46-58 | a list of at most 2^k elements (k ≥ 1) has height bound at most k |
| Bvh.FromListHeight | src/bvh.rs:13-69 | the tree over at most 2^k elements has height at most k |
| Bvh.FromListHoldsEachOnce | src/bvh.rs:13-69 | over distinct elements, the tree holds every input element exactly once (the one-element duplicate counted once) |
| Bvh.BuildSortedHoldsEachOnce | src/bvh.rs:43-68 | the same for the sorted split |
| Bvh.DistinctHalves | src/bvh.rs:54-57 | the two halves of a distinct list are distinct and share no element |
| Bvh.DisjointTreesDiffer | src/bvh.rs:46-58 | trees over disjoint elements are different trees, so only the one-element node has equal children |
| Bvh.BoxEnclosesLeaves | src/bvh.rs:60-68 | in a well-built tree every node's box encloses the boxes of all leaves below it |
| Bvh.Hit | src/bvh.rs:74-102 | a node whose box the ray misses reports nothing; any hit is the record some primitive below reports for the query's near bound and some far bound |
| Bvh.MissedBoxHidesLeaves | src/bvh.rs:74-102 | when the node box is missed, no leaf below is hit, given that leaves are hit only inside their boxes |
| Bvh.HitIsClosest | src/bvh.rs:74-102 | the BVH `hit` finds the same closest distance as testing every leaf |
| Bvh.LeftHitNarrowsRight | src/bvh.rs:84-90 | querying the right child only up to the left hit's distance, and preferring its hit, gives the nearer of the two children's closest hits |
| Bvh.HitIsLeafHit | src/bvh.rs:74-102 | a BVH hit is the record some leaf reports |
| SphereShape.PickRoot | src/sphere.rs:23-56 | the near root is taken when it lies in `(t_min, t_max)`, else the far root; the record is built at that root; `None` exactly when neither root lies inside |
| SphereShape.Hit | src/sphere.rs:23-56 | a hit lies strictly inside the interval and its record is built at its distance; a non-positive discriminant never hits; on a positive one the near root is taken if it lies inside, else the far root |
| SphereShape.NearBeforeFar | src/sphere.rs:29-40 | the minus root is at most the plus root |
| SphereShape.SurfaceEquation | src/sphere.rs:29-40 | the squared distance from the centre minus r² is the quadratic a·t² + 2b·t + c the code solves |
| SphereShape.RootSolvesQuadratic | src/sphere.rs:29-40 | (−b ± √(b² − ac)) / a solves a·t² + 2b·t + c = 0 |
| SphereShape.RootIsOnSurface | src/sphere.rs:29-40 | both roots are points on the sphere |
| SphereShape.QuadraticRootIsOnSurface | src/sphere.rs:29-40 | every solution of the quadratic lies on the sphere |
| SphereShape.HitIsOnSurface | src/sphere.rs:23-56 | every hit point lies on the sphere |
| SphereShape.QuadraticHasOnlyTwoRoots | src/sphere.rs:29-40 | with a non-negative discriminant, every solution of the quadratic is one of the two roots `(−b ± √(b² − ac)) / a` |
| SphereShape.HitIsComplete | src/sphere.rs:23-56 | a sphere point on the ray strictly inside `(t_min, t_max)` is never missed: the sphere reports a hit at that distance or nearer |
| SphereShape.HitUnderLowerBound | src/sphere.rs:23-56 | lowering the far bound only drops hits at or beyond it, which makes the sphere a closest-hit oracle |
| SphereShape.BoundingBox | src/sphere.rs:58-60 | the box is 2r wide on each axis and centred on the sphere |
| Rect.PlaneIndex | src/rect.rs:28-67 | the plane axis is a component index |
| Rect.AIndex | src/rect.rs:78-94 | the first in-plane axis differs from the plane axis |
| Rect.BIndex | src/rect.rs:78-94 | the second in-plane axis differs from both and follows the first |
| Rect.New | src/rect.rs:28-67 | construction panics exactly when min and max differ by more than the tolerance on the plane axis; otherwise the rectangle spans min..max on the two in-plane axes at the plane coordinate of `min` |
| Rect.FromExtent | src/rect.rs:28-67 | the stored sizes are the extents |
| Rect.PlaneIntersection | src/rect.rs:69-76 | the distance at which the ray reaches the plane |
| Rect.ABIntersection | src/rect.rs:78-94 | the in-plane coordinates of the ray point at `t` |
| Rect.PlaneNormal | src/rect.rs:96-103 | the normal is the unit vector along the plane axis |
| Rect.Hit | src/rect.rs:107-124 | a hit exactly when the ray crosses the plane within [t_min, t_max] inside the rectangle; the record carries that point, the plane normal and the material |
| Rect.RatioInUnitInterval | src/rect.rs:107-124 | an in-range offset divided by the size lies in [0, 1] |
| Rect.HitOnPlane | src/rect.rs:107-124 | the hit point lies on the plane |
| Rect.HitTextureCoordinates | src/rect.rs:107-124 | the texture coordinates u, v lie in [0, 1] |
| Rect.HitUnderLowerBound | src/rect.rs:107-124 | lowering the far bound only drops hits beyond it (closest-hit oracle) |
| Rect.BoundingBox | src/rect.rs:126-133 | the box spans the rectangle and is padded by 0.0001 around the plane |
| Rect.HitInsideBoundingBox | src/rect.rs:107-133 | every hit point lies in the bounding box |
| AxisAlignedBox.New | src/axis_aligned_box.rs:15-29 | the six faces: a max-side and a flipped min-side rectangle per axis, spanning pmin..pmax, sharing the material |
| AxisAlignedBox.FlipNormal | src/axis_aligned_box.rs:18-22 | the `FlipNormals` wrapper the min-side faces are built with: it keeps the wrapped hit's distance and point and negates its normal |
| AxisAlignedBox.FaceHit | src/axis_aligned_box.rs:15-35 | a face hit has the rectangle's distance and point; a plain face keeps the rectangle's normal and a flipped one negates it |
| AxisAlignedBox.FacesReportClosestHits | src/axis_aligned_box.rs:33-35 | plain and flipped faces are closest-hit oracles |
| AxisAlignedBox.Hit | src/axis_aligned_box.rs:33-35 | the box's hit is the closest hit among its faces, and one face's record |
| AxisAlignedBox.FaceHitsInsideBoundingBox | src/axis_aligned_box.rs:37-39 | every face hit lies in `AABB(pmin, pmax)` |
| Volume.New | src/volume.rs:14-21 | the medium keeps its boundary and density and an isotropic phase function of the texture |
| Volume.Crossings | src/volume.rs:25-65 | the entry and exit exist exactly when the boundary is hit over the whole line and again past the entry plus 0.0001 |
| Volume.HitDistance | src/volume.rs:42 | the sampled free path times the density is −ln(draw): the optical depth the draw selects |
| Volume.Hit | src/volume.rs:25-65 | no hit without two crossings or at zero density; a hit lies at the clipped entry plus −ln(draw)/density along the ray, strictly before the clipped exit; its record has the isotropic material, normal (1, 0, 0) and u = v = 0 |
| Volume.FreePathNonNegative | src/volume.rs:25-65 | the free path −ln(draw)/density is non-negative |
| Volume.ScatterPointInsideMedium | src/volume.rs:25-65 | a scattering point lies inside both the query interval and the medium |
| Volume.ScattersIffOpticalDepthExceedsDraw | src/volume.rs:25-65 | the ray scatters exactly when density × distance inside exceeds −ln(draw) |
| Volume.BoundingBox | src/volume.rs:66-68 | the medium's box is its boundary's box |
| Materials.Reflect | src/material.rs:50-52 | the reflection plus twice the normal component gives `v` back |
| Materials.ReflectNegatesNormalComponent | src/material.rs:50-52 | against a unit normal, reflection negates the normal component |
| Materials.ReflectIsInvolution | src/material.rs:50-52 | reflecting twice gives `v` back |
| Materials.RefractDiscriminant | src/material.rs:54-64 | for \|dt\| ≤ 1 and an index ratio of at most 1 the discriminant lies in [dt², 1], so with η ≤ 1 only grazing incidence (dt = 0) can fail to refract; with η² = 1 it is dt² |
| Materials.Refracted | src/material.rs:54-64 | a refracted direction exists exactly when the discriminant 1 − η²(1 − dt²) is positive; against a unit normal it obeys Snell's law: its normal component is −√discriminant, so it crosses the surface, and its tangential part is the unit incoming direction's tangential part times η |
| Materials.RefractedIsUnit | src/material.rs:54-64 | against a unit normal the refracted direction has unit length (Snell's law preserves length) |
| Materials.RefractedTangentLength | src/material.rs:54-64 | the refracted tangent's squared length is η²(1 − dt²): sin θ_t = η sin θ_i |
| Materials.Refract | src/material.rs:54-64 | returns true exactly when the ray refracts, writes the refracted direction then, and leaves the output untouched otherwise |
| Materials.Pow5 | src/material.rs:66-70 | the fifth power maps [0, 1] into [0, 1], 0 to 0 and 1 to 1 |
| Materials.R0 | src/material.rs:66-70 | the normal-incidence reflectance is non-negative, and 0 for an index of 1 |
| Materials.Schlick | src/material.rs:66-70 | at normal incidence Schlick's approximation is r0 |
| Materials.R0InUnitInterval | src/material.rs:66-70 | r0 lies in [0, 1] for a non-negative index |
| Materials.SchlickBounds | src/material.rs:66-70 | the reflection probability lies in [r0, 1] |
| Materials.NewMetal | src/material.rs:221-226 | fuzz is capped at 1 and kept when smaller |
| Materials.OutwardNormal | src/material.rs:177-212 | the normal the dielectric refracts through is the hit normal or its negation, of the same length, and faces against the incoming ray |
| Materials.NiOverNt | src/material.rs:177-212 | the index ratio is positive: the refraction index when leaving the surface and its reciprocal when entering |
| Materials.IncidenceCosine | src/material.rs:177-212 | the cosine handed to `schlick` is −d·n/\|d\| when entering and `ref_idx`·d·n/\|d\| when leaving |
| Materials.DielectricRefraction | src/material.rs:177-212 | the dielectric refracts exactly when the discriminant for the outward normal and index ratio is positive |
| Materials.ReflectProb | src/material.rs:177-212 | the reflection probability is 1 on total internal reflection and Schlick's reflectance of the incidence cosine otherwise |
| Materials.ScatterDielectric | src/material.rs:177-212 | a dielectric scatters specularly with white attenuation from the hit point at the ray's time; a draw below the reflection probability gives the mirror direction, any other the refracted direction (or zero when there is none) |
| Materials.DielectricReflectsWithoutRefraction | src/material.rs:177-212 | under total internal reflection every draw in [0, 1) gives the mirror direction |
| Materials.DielectricTransmits | src/material.rs:177-212 | a transmitted ray through a unit normal is a unit vector that crosses to the far side of the surface, with its tangential part the incoming one's times the index ratio |
| Materials.Scatter | src/material.rs:141-351 | `DummyMaterial` and `DiffuseLight` do not scatter; a dielectric scatters as `ScatterDielectric`; a metal scatters specularly with its albedo along the reflected unit direction plus fuzz times the in-sphere point; a Lambertian scatters with its texture and the cosine PDF of the orthonormal basis built from the normal; an isotropic medium scatters with its phase colour towards the in-sphere point |
| Materials.ReflectPreservesLength | src/material.rs:50-52 | reflection about a unit normal keeps the squared length |
| Materials.PolishedMetalMirrors | src/material.rs:229-241 | a metal with no fuzz is a mirror: off a unit normal it sends out a unit ray whose normal component is the incoming unit direction's, negated |
| Materials.Emitted | src/material.rs:145-331 | only Lambertian (when emissive) and diffuse lights emit; a light emits only on the side facing against the ray |
| Materials.ScatteringPdf | src/material.rs:268-275 | the scattering density is non-negative; zero for non-Lambertian materials or directions below the surface; cos θ/π otherwise |
| Materials.PdfValue | src/material.rs:375-442 | PDF values are non-negative; the dummy PDF is 0; the cosine PDF is cos θ/π above the surface and 0 below |
| Materials.LambertianPdfsAgree | src/material.rs:268-275 | for a unit normal, `scattering_pdf` of a Lambertian equals the value of the cosine PDF its `scatter` returns, so their ratio in the rendering equation is 1 |
| Materials.PdfValueBounds | src/material.rs:375-442 | PDF values are non-negative; the cosine PDF is 0 below the surface; a mixture never exceeds the larger part |
| Materials.ChosenPdf | src/material.rs:427-433 | the draws pick a non-mixture PDF |
| Materials.Generate | src/material.rs:383-445 | a generated direction is the chosen cosine PDF's `local` of the cosine sample, or zero for the dummy PDF |
| Materials.GenerateSamplesChosenPdf | src/material.rs:383-445 | a mixture generates from the PDF its draws select; the cosine PDF places the sample's z along `w`; the dummy PDF gives zero |
| Materials.MaterialBuilder.constructor | src/material.rs:81-89 | the builder starts with zero texture, albedo, emission and fuzz, and refraction index 1 |
| Materials.MaterialBuilder.WithTexture | src/material.rs:91-94 | sets the texture and keeps the other fields |
| Materials.MaterialBuilder.SetEmissive | src/material.rs:96-99 | sets the emission and keeps the other fields |
| Materials.MaterialBuilder.SetAlbedo | src/material.rs:101-104 | sets the albedo and keeps the other fields |
| Materials.MaterialBuilder.SetFuzz | src/material.rs:106-109 | sets the fuzz and keeps the other fields |
| Materials.MaterialBuilder.SetRefractionIndex | src/material.rs:111-114 | sets the refraction index and keeps the other fields |
| Materials.MaterialBuilder.MakeLambertian | src/material.rs:116-118 | a Lambertian of the current texture and emission |
| Materials.MaterialBuilder.MakeDiffuseLight | src/material.rs:120-122 | a diffuse light of the current texture |
| Materials.MaterialBuilder.MakeMetal | src/material.rs:124-126 | the metal `Metal::new` makes of the current albedo and fuzz (fuzz capped at 1) |
| Materials.MaterialBuilder.MakeDielectric | src/material.rs:128-130 | a dielectric of the current refraction index |
| Scene.Wrap | src/scene.rs:41-63 | a wrapper holds the wrapped shape |
| Scene.WrapLast | src/scene.rs:41-63 | only the last entry is replaced by its wrapped form; the rest are kept |
| Scene.WrapAfterAdd | src/scene.rs:36-63 | adding then wrapping wraps the added shape |
| Scene.WrapTwice | src/scene.rs:41-63 | two wrappings nest, the later one outermost |
| Scene.SceneBuilder.constructor | src/scene.rs:13-17 | a new builder is empty |
| Scene.SceneBuilder.AddHitable | src/scene.rs:36-39 | appends the shape and keeps the earlier ones |
| Scene.SceneBuilder.WrapLastEntry | src/scene.rs:41-63 | wraps the last entry |
| Scene.SceneBuilder.FlipNormals | src/scene.rs:41-47 | the last entry becomes its normal-flipped wrapper |
| Scene.SceneBuilder.Translate | src/scene.rs:49-55 | the last entry becomes its translated wrapper |
| Scene.SceneBuilder.RotateY | src/scene.rs:57-63 | the last entry becomes its y-rotated wrapper |
| Scene.SceneBuilder.AsHitable | src/scene.rs:31-34 | the last shape added, or `None` (a panic) on an empty scene |
| Scene.SceneBuilder.AsBvh | src/scene.rs:19-25 | a well-built BVH over exactly the scene's shapes for times 0 to 1 |
| Trace.WrappingDecrement | src/trace.rs:36-38 | `fetch_sub(1)` counts down by one modulo 2^64; it wraps only from 0 |
| Trace.CountdownReachesZero | src/trace.rs:36-38 | `n` completions from `n` tasks leave 0, and it reaches 0 at exactly the n-th |
| Trace.Bump | src/trace.rs:142 | the per-pixel frame counter grows by one until it passes 1000, then stays |
| Trace.CountAfterSaturates | src/trace.rs:142 | after `k` frames the counter is `k`, capped at 1001 |
| Trace.Blend | src/trace.rs:163-169 | the first sample of a pixel replaces what the buffer held |
| Trace.Accumulate | src/trace.rs:142-169 | after one frame the buffer holds that frame's sample, whatever it held before |
| Trace.BlendRunningMean | src/trace.rs:163-169 | blending the n-th sample into the mean of n−1 samples gives the mean of all n |
| Trace.AccumulateIsMean | src/trace.rs:142-169 | up to 1001 frames, the buffer holds the mean of the pixel's frame colours, whatever it held before |
| Trace.TileRect.LocalIndex | src/trace.rs:141 | the local pixel index is below the tile size and maps back to the pixel |
| Trace.TileRect.PixelOfLocal | src/trace.rs:128-141 | a local index names a pixel of the tile |
| Trace.LocalIndexRoundTrip | src/trace.rs:141 | local index and pixel are inverse |
| Trace.BufferIndex | src/trace.rs:130-161 | channel `c` of pixel (i, j) sits at 4(j·w + i) + c, which decodes back to (i, j, c) |
| Trace.PixelOfIndex | src/trace.rs:130-161 | a buffer index decodes to a column below the width and a channel below 4 |
| Trace.PixelOfIndexRoundTrip | src/trace.rs:130-161 | decoding and encoding a buffer index are inverse |
| Trace.WritesStayInRowSlice | src/trace.rs:130-169 | a write for a tile pixel lands inside the row slice `start..start + stride` |
| Trace.SkipChances | src/trace.rs:17-18 | with a skip chance of 0 no task is skipped; outside realtime mode no pixel is skipped |
| Trace.WritesOnlyTileColour | src/trace.rs:128-171 | a frame writes exactly the colour channels of the tile's unskipped pixels, and never the fourth channel |
| Trace.SceneOutput.constructor | src/trace.rs:27-34 | the output holds the buffer and the number of remaining tasks |
| Trace.SceneOutput.NotifyTaskCompletion | src/trace.rs:36-38 | decrements the remaining-task counter with wrap-around |
| Trace.TraceSceneBatchJob.constructor | src/trace.rs:85-110 | the pixel count is end − start, the image start is flipped to `image_h − end_y`, no frames yet, and every per-pixel counter is 0 |
| Trace.TraceSceneBatchJob.ClearBuffer | src/trace.rs:112-115 | resets the frame count and every per-pixel counter to 0 |
| Trace.TraceSceneBatchJob.Trace | src/trace.rs:117-176 | one frame: bumps the frame count and decrements the remaining-tasks counter. A skipped task changes nothing else. Otherwise every unskipped tile pixel has its counter bumped and its colour blended in, and every other buffer entry is kept |
| Trace.TraceSceneBatchJob.TraceTile | src/trace.rs:128-172 | the row loop over the tile, bottom row first, leaves every pixel's counter and buffer channels as `Trace` states |
| Trace.TraceSceneBatchJob.TraceRow | src/trace.rs:130-171 | one row extends the counter and buffer state by the row's pixels |
| Trace.TraceSceneBatchJob.TracePixel | src/trace.rs:137-169 | one pixel is skipped, or its counter is bumped and its three channels are blended |
| Trace.TraceSceneBatchJob.BlendPixel | src/trace.rs:163-169 | the three channels at the pixel's offset become running averages with the new sample; every other buffer entry is unchanged |
| Trace.TraceSceneBatchJob.PixelInBuffer | src/trace.rs:130-133 | every tile pixel's channels lie within the shared buffer |
| Shading.SkyAtBounds | src/trace.rs:195-203 | the sky is white-to-blue: red in [0.5b, b], green in [0.7b, b], blue b |
| Shading.SkyAtZenith | src/trace.rs:195-203 | looking straight up gives `(0.5, 0.7, 1) · b` |
| Shading.SkyAtNadir | src/trace.rs:195-203 | looking straight down gives white times `b` |
| Shading.SkyColour | src/trace.rs:195-203 | for a non-negative brightness b, the sky an escaping ray sees has red in [0.5b, b], green in [0.7b, b] and blue b; at brightness 0 it is black |
| Shading.Bounces | src/trace.rs:185-204 | a path scatters at most `max_depth − depth` times |
| Shading.Color | src/trace.rs:185-204 | with emission disabled and a zero sky brightness every ray is black, at every depth |
| Shading.ShortPathIgnoresDepthLimit | src/trace.rs:185-204 | a path with fewer bounces than the remaining depth is not truncated: raising `max_depth` changes neither its colour nor its bounce count |
| Shading.ColorAtDepthLimit | src/trace.rs:185-194 | at the depth limit the material's scatter is never consulted, and a hit with emission disabled is black |
| Shading.ReinhardTonemap | src/trace.rs:206-212 | each component becomes 1.5x / (1.5x + 1) |
| Shading.ToneBounds | src/trace.rs:206-212 | the tone curve maps non-negative values into [0, 1), 0 to 0, and keeps order |
| Shading.ReinhardInUnitCube | src/trace.rs:206-212 | a non-negative colour tone-maps into [0, 1)³ and never divides by zero |
| TileGrid.TaskDims | src/lib.rs:323-326 | the rounded task size panics for a request larger than the image; a valid request gives a size in [r, 2r) within the image |
| TileGrid.NumTasks | src/lib.rs:326 | the number of tasks per axis is the number of whole tasks that fit: n·d ≤ W < n·d + d |
| TileGrid.TileAt | src/lib.rs:341-352 | the job at (tx, ty) covers exactly the pixels whose coordinates divide down to (tx, ty) |
| TileGrid.PlanTiles | src/lib.rs:341-352 | fails exactly when the rounding panics; otherwise the jobs come row by row, job k being tile (k mod nx, k div nx) |
| TileGrid.BuildGrid | src/lib.rs:341-352 | the outer loop produces all nx·ny jobs in row-major order |
| TileGrid.PushTaskRow | src/lib.rs:342-351 | the inner loop appends row `ty` |
| TileGrid.RowMajor | src/lib.rs:341-352 | job `ty·nx + tx` is tile (tx, ty) |
| TileGrid.GridTilesInsideImage | src/lib.rs:341-352 | every job lies inside the image |
| TileGrid.GridJobsFitBuffer | src/lib.rs:151 | every job meets the trace job's bounds on the `nx·ny·4` buffer |
| TileGrid.GridWritesDisjoint | src/lib.rs:341-352 | two jobs that write the same buffer entry are the same job, so the jobs never race |
| TileGrid.GridCoversSpan | src/lib.rs:341-352 | every pixel inside `n·d` lies in its job |
| TileGrid.RoundDownGridMissesColumn | src/lib.rs:323-352 | the counterexample of the first finding: a 7-pixel-wide image with request 3 gets two 3-wide jobs, and column 6 is traced by none |
| TileGrid.DividingTaskDims | src/lib.rs:324-326 | corrected task size: fails exactly for a zero or oversized request, and otherwise divides the image |
| TileGrid.DividingGridCoversImage | src/lib.rs:324-352 | with the corrected size the jobs tile the image exactly, and every pixel lies in its job |
| TileGrid.ExactGridCovers | src/lib.rs:341-352 | when the task sizes divide the image, the task counts times the sizes are the image size and each pixel lies in the task its coordinates divide down to |
| TileGrid.DefaultGrid | src/lib.rs:323-326 | the 1280×720 image is cut into 10×6 jobs of 128×120 |
| ImageBytes.ReadsUpToLastRead | src/lib.rs:588-661 | every read offset lies between 0 and the layout's farthest read, which the last pixel of the input's top row reaches |
| ImageBytes.OutOfBoundsPanics | src/lib.rs:588-661 | on a non-empty image outside `InBounds`, the last write or the farthest read is out of range, so the source panics |
| ImageBytes.ReadOffset | src/lib.rs:588-661 | within `InBounds`, every offset the conversion loops read lies inside the input |
| ImageBytes.OutPixel | src/lib.rs:588-661 | an output index decodes to a pixel and channel, within the image when below 3wh |
| ImageBytes.OutIndex | src/lib.rs:588-661 | output channel `c` of pixel (i, j) at 3(j·w + i) + c decodes back, and lies below 3wh |
| ImageBytes.FlippedPixels | src/lib.rs:588-661 | the converted image holds, at each output pixel, the layout's channel of the vertically flipped input pixel, and zeros after 3wh |
| ImageBytes.FlipRows | src/lib.rs:589-600 | the row loop produces the whole flipped image |
| ImageBytes.FlipRow | src/lib.rs:592-599 | one row of the loop extends the flipped prefix by `w` pixels |
| ImageBytes.WritePixel | src/lib.rs:593-598 | writing one pixel's three channels extends the flipped prefix by exactly that pixel |
| ImageBytes.SaveBgrTextureAsPpm | src/lib.rs:583-610 | `None` (a panic) exactly outside `InBounds`; otherwise the output has the input's length, output pixel (i, j) is input pixel (i, h−1−j) with B and R swapped, and the tail is 0 |
| ImageBytes.SaveRgbTextureAsPpm | src/lib.rs:613-640 | `None` (a panic) exactly outside `InBounds`; otherwise output pixel (i, j) is input pixel (i, h−1−j) in the same channel order, and the tail is 0 |
| ImageBytes.SaveRgbaTextureAsPpm | src/lib.rs:643-671 | as written: `None` (a panic) exactly outside `InBounds`; otherwise channel c of output pixel (i, j) is read at 3w(h−1−j) + 4i + c |
| ImageBytes.RgbBytesOverrunRgbaWriter | src/lib.rs:562-565 | on the 3wh bytes its one caller passes (the output of src/lib.rs:305-315), the RGBA writer stays in bounds only for images at most one pixel wide |
| ImageBytes.SaveRgbaTextureAsPpmCorrected | src/lib.rs:643-671 | corrected: output pixel (i, j) is the RGB of RGBA input pixel (i, h−1−j) at 4(w(h−1−j) + i) + c |
| ImageBytes.RgbaReadsSkipAlpha | src/lib.rs:643-671 | the corrected reads never touch an alpha byte, and the corrected bounds imply the as-written bounds |
| ImageBytes.RgbaStrideDrift | src/lib.rs:654-655 | the as-written offset falls short of the correct one by w·(h−1−j); they agree only on the first row read |
| ImageBytes.RgbaStrideCounterexample | src/lib.rs:654-655 | on a 2×2 image, pixel (1, 0) is read from offset 10 (a blue byte) instead of 12 |
| ImageBytes.FlipTwice | src/lib.rs:583-640 | converting an RGB or BGR image of exactly 3wh bytes twice gives it back |
| ImageBytes.CastToU8 | src/lib.rs:311-313 | `as u8` is the floor on [0, 256) |
| ImageBytes.GammaByte | src/lib.rs:311-313 | a non-positive value gives 0; a value in [0, 1) gives ⌊255.99·√v⌋ without saturating |
| ImageBytes.SqrtMonotone | src/lib.rs:311-313 | the square root is monotone and stays below 1 below 1 |
| ImageBytes.GammaByteOfUnit | src/lib.rs:311-313 | gamma bytes map 0 to 0, keep order, and equal ⌊255.99·√v⌋ (no saturation) on [0, 1) |
| ImageBytes.ChunkBytes | src/lib.rs:305-315 | each 4-float chunk yields 3 bytes |
| ImageBytes.ConvertToRgbU8AndGammaCorrect | src/lib.rs:305-315 | the closure yields 3 bytes per chunk of 4 floats: the gamma bytes of the tone-mapped colour, in z, y, x order |
| ImageBytes.ConvertNonNegative | src/lib.rs:305-315 | a non-negative buffer converts without dividing by zero; each chunk gives ⌊255.99·√t⌋ per tone-mapped component, and black gives (0, 0, 0) |
| TonemapSettings.Settings.BufferFrameSize | src/node/tonemap.rs:84-86 | zero alignment divides by zero; otherwise the least multiple of the alignment holding the 16 uniform bytes |
| TonemapSettings.Settings.UniformOffset | src/node/tonemap.rs:88-91 | every frame's offset is aligned |
| TonemapSettings.UniformRangesDisjoint | src/node/tonemap.rs:225-270 | the uniform ranges of different frames never overlap and all fit in the `frame size × frames` buffer |
| TonemapSettings.TypicalAlignment | src/node/tonemap.rs:84-91 | alignment 256 gives 256-byte frames with frame 2 at 512; alignment 1 gives 16 |

## Left out

- Floating point: `f64` and `f32` are modelled as exact reals. IEEE rounding, infinities and NaN are not modelled. Divisions that would give an infinity instead require a non-zero divisor:
  - `Vec3Math.Div`, `Vec3Math.DivFloat`, `Vec3Cell.DivAssign`, `Vec3Cell.DivAssignFloat`;
  - the slab inverse direction in `AabbMath.Hit`;
  - the sphere radius and quadratic;
  - `Shading.ReinhardTonemap` and `ImageBytes.Convertible`;
  - the medium density.
- Rect.Hit: a ray parallel to the rectangle's plane is a miss. When its origin also lies in the plane, the source computes the parameter 0/0 = NaN, which passes the range tests, and reports a hit at NaN; the model does not.
- The `f32` frame buffer is a buffer of reals. The `as f32` narrowing of each sample is not modelled.
- Square root, `ln`, `sin`/`cos` and `rand` are parameters. The random unit-sphere, unit-disc and cosine samplers of src/material.rs:10-48 are not modelled; the cosine direction and the in-sphere point are inputs.
- Scene.SceneBuilder.FlipNormals, Translate and RotateY record the wrapper only. The source of the `FlipNormals`, `Translate` and `RotateY` types is not part of this model. The one wrapper behaviour modelled is the normal flip of the box faces, `AxisAlignedBox.FlipNormal`, taken as the decorator that negates the wrapped hit's normal and keeps the rest of the record.
- `as_hitable_list` and `as_bvh_node` (src/scene.rs:23-29) only change the container type, and are not modelled separately from `AsBvh`/`AsHitable`.
- `HittablePDF` (src/material.rs:388-409) calls into a hitable's PDF, which is not part of this model.
- Hitable.ListHit: `HitableList::bounding_box` (src/hitable.rs:55-57) is `unimplemented!` and is left out.
- Bvh.FromList: the list is sorted and split as values. The in-place `sort_unstable_by` and `split_off` are not modelled, and neither is the order in which equal keys end up.
- Bvh.FromList: the sort's comparator (src/bvh.rs:20-40) returns `Less` when `a.min - b.min < 0.0` and `Greater` otherwise, never `Equal`. The model sorts by that key and leaves the order of equal keys open.
- Bvh.FromList: requires a non-empty list, and so does `Scene.SceneBuilder.AsBvh`. On an empty list the source takes `half = 0`, `split_off(0)` leaves the list empty, and `from_list` calls itself on it again without end (src/bvh.rs:46-58). The model excludes that input rather than modelling the non-termination.
- The per-sample averaging, the camera and `get_ray` (src/trace.rs:144-159) are not modelled. `Trace.TraceSceneBatchJob.Trace` takes the pixel's averaged colour as a parameter `colour`, so the model does not capture how that colour is computed.
- Shading.Color: `color` calls `emitted(u, v, p)` and `scatter` returning an attenuation and a ray. That interface differs from the one in src/material.rs, so emission and scattering are parameters of `Color`.
- Threads, locks, the job system and `MultiSliceReadWriteLock` are not modelled. `TileGrid.GridWritesDisjoint` shows the jobs write disjoint entries instead.
- The window, swap chain and GPU passes of src/node/tonemap.rs are not modelled, apart from the uniform layout. Shader code is not part of this model.
- File output of the PPM savers (header, `File::create`, timing) is not modelled; the methods return the converted bytes.
- Trace.TraceSceneBatchJob.Trace: requires that the tile lies within the image width and that its rows fit the buffer. A tile wider than the image does not panic in the source: its row slice runs on into the next image row and the writes land there. Rows past the end of the buffer do panic. The model covers neither case. Every job the tiling builds meets both bounds (`TileGrid.GridTilesInsideImage`, `TileGrid.GridJobsFitBuffer`).
- Trace.TraceSceneBatchJob.Trace: requires `num_frames < i32::MAX`. The `i32` overflow after 2^31 frames is not modelled.
- ImageBytes.SaveRgbaTextureAsPpm: its one call (src/lib.rs:562-565) is switched off by `OUTPUT_IMAGE_ON_CLOSE = false` (src/lib.rs:84), so the model states the writer on any input rather than at that call.
- Bvh.HitIsClosest: assumes `BoxesBound`, that each primitive is hit only where its box's slab test also succeeds. This is not proved for the shapes of this model. The slab test rejects a degenerate interval, so a ray that meets a rectangle exactly at an edge or a corner need not satisfy it.
- ImageBytes.SaveRgbTextureAsPpm: the `u32` arithmetic of the offsets is assumed not to overflow (3wh < 2^32). The same holds for `SaveBgrTextureAsPpm`, `SaveRgbaTextureAsPpm` and `SaveRgbaTextureAsPpmCorrected`.
- TileGrid.PlanTiles: builds the jobs' tile rectangles rather than job objects. Each job's construction is `Trace.TraceSceneBatchJob.constructor`.
- MathUtil.RoundDownToClosestFactor: the `f64` quotient `n / r` floors to the integer quotient for all `u32` values, since the gap to the next integer is above the `f64` precision. The model takes the integer quotient directly.

## Findings

| source | as written | input that shows it | evidently intended | confidence | as-written member | corrected member |
|---|---|---|---|---|---|---|
| src/lib.rs:323-326 with src/math/mod.rs:28-31 | The rounded tile size is `n / floor(n / r)`, which need not divide the image. `nx / task_dim` then drops the remainder, so the right-most columns (or top rows) belong to no job and are never traced. | An image 7 pixels wide with a requested task width of 3: the rounded width is 3, there are 2 tasks, and column 6 is in neither. The shipped 1280×720 image with 120×120 requests is not affected (`TileGrid.DefaultGrid`). | As the comment at line 324 says, a task size that divides the image exactly, so the jobs cover every pixel. | not executed | MathUtil.RoundDownNotAFactor, TileGrid.RoundDownGridMissesColumn | MathUtil.RoundToDividingFactor, TileGrid.DividingTaskDims, TileGrid.DividingGridCoversImage |
| src/lib.rs:654-655 | `save_rgba_texture_as_ppm` reads source row `j_flipped` at `j_flipped * w * 3`: a 3-byte row stride over 4-byte pixels. Every row but the last one read comes from the wrong place. | w = h = 2, output pixel (1, 0): the red byte is read from offset 10, the blue byte of input pixel (0, 1), instead of offset 12. | An RGBA image read at `4(w·j_flipped + i) + c`, a row stride of `w * 4`. The one caller (src/lib.rs:562-565, disabled by `OUTPUT_IMAGE_ON_CLOSE = false` at src/lib.rs:84) passes the 3wh RGB bytes of the gamma conversion instead; for that input the fix is a column stride of 3 (the RGB saver's reads), and as written any image wider than one pixel reads out of range and panics (`ImageBytes.RgbBytesOverrunRgbaWriter`). The model corrects the RGBA reading. | not executed | ImageBytes.SaveRgbaTextureAsPpm, ImageBytes.RgbaStrideCounterexample, ImageBytes.RgbBytesOverrunRgbaWriter | ImageBytes.SaveRgbaTextureAsPpmCorrected, ImageBytes.RgbaReadsSkipAlpha, ImageBytes.RgbaStrideDrift |
