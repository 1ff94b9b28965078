/**
 * How `run` (src/lib.rs) cuts the image into tile jobs: the requested 120x120 task
 * size is rounded per axis by `round_down_to_closest_factor`, the image holds
 * `n / dim` tasks along each axis, and the jobs are built row of tasks by row of tasks,
 * each owning the rectangle `[dim * t, dim * t + dim)` along both axes.
 */
module TileGrid {
  import opened Options
  import opened MathUtil
  import opened Trace

  /** The tile size `run` asks for before rounding. */
  const REQUESTED_TASK_DIM: (U32, U32) := (120, 120)
  /** The image `run` renders. */
  const IMAGE_SIZE: (U32, U32) := (1280, 720)

  /** A coordinate lies in the `t`-th block of `d` exactly when it divides down to `t`. */
  lemma InBlock(x: nat, d: nat, t: nat)
    requires 0 < d
    ensures d * t <= x < d * t + d <==> x / d == t
  {
    if d * t <= x < d * t + d {
      DivOfMultiplePlus(t, d, x - d * t);
    }
    if x / d == t {
      assert x == t * d + x % d;
    }
  }

  /** One axis of the rounding: never above the extent, a panic above it, and within [r, 2r) below it. */
  lemma RoundedAxis(r: U32, n: U32)
    ensures RoundDownToClosestFactor(r, n).Some? ==> RoundDownToClosestFactor(r, n).value <= n
    ensures n < r ==> RoundDownToClosestFactor(r, n).None?
    ensures 0 < r <= n ==>
              RoundDownToClosestFactor(r, n).Some? && r <= RoundDownToClosestFactor(r, n).value < 2 * r
  {
    var factor: int := if r == 0 then (if n == 0 then 0 else U32_MAX) else n / r;
    if factor != 0 {
      MulMonotoneInt(1, factor, n / factor);
      assert n / factor * factor <= n;
    }
    if 0 < r <= n {
      RoundDownBounds(r, n);
    }
  }

  /**
   * The rounded task size: both axes rounded by `round_down_to_closest_factor`.
   * A rounding that panics, or a zero size by which `n / dim` then divides, is `None`.
   */
  function TaskDims(imageSize: (U32, U32), requested: (U32, U32)): (dim: Option<Pair>)
    ensures dim.Some? ==> 0 < dim.value.0 <= imageSize.0 && 0 < dim.value.1 <= imageSize.1
    ensures imageSize.0 < requested.0 || imageSize.1 < requested.1 ==> dim.None?
    ensures 0 < requested.0 <= imageSize.0 && 0 < requested.1 <= imageSize.1 ==>
              dim.Some? && requested.0 <= dim.value.0 < 2 * requested.0 && requested.1 <= dim.value.1 < 2 * requested.1
  {
    RoundedAxis(requested.0, imageSize.0);
    RoundedAxis(requested.1, imageSize.1);
    match (RoundDownToClosestFactor(requested.0, imageSize.0), RoundDownToClosestFactor(requested.1, imageSize.1))
    case (Some(dx), Some(dy)) =>
      if dx == 0 || dy == 0 then None
      else
        Some((dx as nat, dy as nat))
    case _ => None
  }

  /** `num_tasks_xy = (nx / dim.0, ny / dim.1)`: the most whole tasks that fit along each axis. */
  function NumTasks(imageSize: Pair, dim: Pair): (n: Pair)
    requires 0 < dim.0 && 0 < dim.1
    ensures n.0 * dim.0 <= imageSize.0 < n.0 * dim.0 + dim.0
    ensures n.1 * dim.1 <= imageSize.1 < n.1 * dim.1 + dim.1
  {
    DivOfMultiplePlus(imageSize.0 / dim.0, dim.0, imageSize.0 % dim.0);
    DivOfMultiplePlus(imageSize.1 / dim.1, dim.1, imageSize.1 % dim.1);
    (imageSize.0 / dim.0, imageSize.1 / dim.1)
  }

  /**
   * The rectangle of task (`tx`, `ty`): `start = dim * t`, `end = start + dim`. A pixel
   * belongs to it exactly when its coordinates divide down to (`tx`, `ty`), so no pixel
   * belongs to two tasks.
   */
  function TileAt(dim: Pair, tx: nat, ty: nat): (tile: TileRect)
    requires 0 < dim.0 && 0 < dim.1
    ensures tile.Ordered() && tile.Width() == dim.0 && tile.Height() == dim.1
    ensures forall i: nat, j: nat :: tile.Contains(i, j) <==> i / dim.0 == tx && j / dim.1 == ty
  {
    var tile := TileRect((dim.0 * tx, dim.1 * ty), (dim.0 * tx + dim.0, dim.1 * ty + dim.1));
    forall i: nat, j: nat
      ensures tile.Contains(i, j) <==> i / dim.0 == tx && j / dim.1 == ty
    {
      InBlock(i, dim.0, tx);
      InBlock(j, dim.1, ty);
    }
    tile
  }

  /**
   * The job rectangles `run` builds, or `None` where it panics: `task_y` outer,
   * `task_x` inner, one job per task, pushed in that order.
   */
  method PlanTiles(imageSize: (U32, U32), requested: (U32, U32)) returns (tiles: Option<seq<TileRect>>)
    ensures tiles.None? <==> TaskDims(imageSize, requested).None?
    ensures tiles.Some? ==>
              var dim := TaskDims(imageSize, requested).value;
              var n := NumTasks(imageSize, dim);
              |tiles.value| == n.0 * n.1 &&
              forall k | 0 <= k < |tiles.value| :: tiles.value[k] == TileAt(dim, k % n.0, k / n.0)
  {
    var dims := TaskDims(imageSize, requested);
    if dims.None? {
      return None;
    }
    var dim := dims.value;
    var n := NumTasks(imageSize, dim);
    var batches := BuildGrid(dim, n);
    tiles := Some(batches);
  }

  /** The two loops of the grid: rows of tasks bottom-up, each row's tasks left to right. */
  method BuildGrid(dim: Pair, n: Pair) returns (batches: seq<TileRect>)
    requires 0 < dim.0 && 0 < dim.1
    ensures |batches| == n.0 * n.1
    ensures forall k | 0 <= k < |batches| :: batches[k] == TileAt(dim, k % n.0, k / n.0)
  {
    batches := [];
    var ty := 0;
    while ty < n.1
      invariant 0 <= ty <= n.1
      invariant |batches| == ty * n.0
      invariant forall k | 0 <= k < |batches| :: batches[k] == TileAt(dim, k % n.0, k / n.0)
    {
      batches := PushTaskRow(batches, dim, n, ty);
      ty := ty + 1;
    }
  }

  /** The inner loop of the grid: row `ty` of tasks, left to right, pushed after the rows before it. */
  method PushTaskRow(batches: seq<TileRect>, dim: Pair, n: Pair, ty: nat) returns (out: seq<TileRect>)
    requires 0 < dim.0 && 0 < dim.1
    requires |batches| == ty * n.0
    requires forall k | 0 <= k < |batches| :: batches[k] == TileAt(dim, k % n.0, k / n.0)
    ensures |out| == (ty + 1) * n.0
    ensures forall k | 0 <= k < |out| :: out[k] == TileAt(dim, k % n.0, k / n.0)
  {
    out := batches;
    var tx := 0;
    while tx < n.0
      invariant 0 <= tx <= n.0
      invariant |out| == ty * n.0 + tx
      invariant forall k | 0 <= k < |out| :: out[k] == TileAt(dim, k % n.0, k / n.0)
    {
      var start := (dim.0 * tx, dim.1 * ty);
      var end := (start.0 + dim.0, start.1 + dim.1);
      DivOfMultiplePlus(ty, n.0, tx);
      out := out + [TileRect(start, end)];
      tx := tx + 1;
    }
  }

  /** A list laid out row-major holds task (`tx`, `ty`) at `ty * n.0 + tx`. */
  lemma RowMajor(tiles: seq<TileRect>, dim: Pair, n: Pair)
    requires 0 < dim.0 && 0 < dim.1
    requires |tiles| == n.0 * n.1
    requires forall k | 0 <= k < |tiles| :: tiles[k] == TileAt(dim, k % n.0, k / n.0)
    ensures forall tx, ty | 0 <= tx < n.0 && 0 <= ty < n.1 :: ty * n.0 + tx < |tiles| && tiles[ty * n.0 + tx] == TileAt(dim, tx, ty)
  {
    forall tx, ty | 0 <= tx < n.0 && 0 <= ty < n.1
      ensures ty * n.0 + tx < |tiles| && tiles[ty * n.0 + tx] == TileAt(dim, tx, ty)
    {
      DivOfMultiplePlus(ty, n.0, tx);
      MulMonotoneInt(ty + 1, n.1, n.0);
    }
  }

  /** Every task of the grid lies inside the image. */
  lemma GridTilesInsideImage(imageSize: Pair, dim: Pair, tx: nat, ty: nat)
    requires 0 < dim.0 && 0 < dim.1
    requires tx < NumTasks(imageSize, dim).0 && ty < NumTasks(imageSize, dim).1
    ensures TileAt(dim, tx, ty).end.0 <= imageSize.0 && TileAt(dim, tx, ty).end.1 <= imageSize.1
  {
    var n := NumTasks(imageSize, dim);
    MulMonotoneInt(tx + 1, n.0, dim.0);
    MulMonotoneInt(ty + 1, n.1, dim.1);
  }

  /**
   * Each grid task meets what a job's `trace` demands of it: its end corner inside
   * the image and its last row's slice inside the `nx * ny * 4` shared buffer.
   */
  lemma GridJobsFitBuffer(imageSize: Pair, dim: Pair, tx: nat, ty: nat)
    requires 0 < dim.0 && 0 < dim.1
    requires tx < NumTasks(imageSize, dim).0 && ty < NumTasks(imageSize, dim).1
    ensures var tile := TileAt(dim, tx, ty);
      tile.Ordered() && tile.end.0 <= imageSize.0 && tile.end.1 <= imageSize.1 &&
      tile.start.1 < tile.end.1 &&
      4 * ((tile.end.1 - 1) * imageSize.0 + tile.end.0) <= 4 * (imageSize.0 * imageSize.1)
  {
    var tile := TileAt(dim, tx, ty);
    GridTilesInsideImage(imageSize, dim, tx, ty);
    MulMonotoneInt(tile.end.1 - 1, imageSize.1 - 1, imageSize.0);
    assert (imageSize.1 - 1) * imageSize.0 + imageSize.0 == imageSize.0 * imageSize.1;
  }

  /**
   * Two jobs of the grid never write the same position of the shared buffer, whatever
   * their random draws: a position written by both belongs to the same task.
   */
  lemma GridWritesDisjoint(imageW: nat, dim: Pair, a: Pair, b: Pair, drawsA: FrameDraws, drawsB: FrameDraws, idx: nat)
    requires 0 < dim.0 && 0 < dim.1
    requires Writes(TileAt(dim, a.0, a.1), imageW, drawsA, idx) && Writes(TileAt(dim, b.0, b.1), imageW, drawsB, idx)
    ensures a == b
  {
    var p := PixelOfIndex(imageW, idx);
    assert TileAt(dim, a.0, a.1).Contains(p.0, p.1);
    assert TileAt(dim, b.0, b.1).Contains(p.0, p.1);
  }

  /** Every pixel of the `n * dim` corner the grid spans belongs to one of its tasks. */
  lemma GridCoversSpan(imageSize: Pair, dim: Pair, i: nat, j: nat)
    requires 0 < dim.0 && 0 < dim.1
    requires i < NumTasks(imageSize, dim).0 * dim.0 && j < NumTasks(imageSize, dim).1 * dim.1
    ensures i / dim.0 < NumTasks(imageSize, dim).0 && j / dim.1 < NumTasks(imageSize, dim).1
    ensures TileAt(dim, i / dim.0, j / dim.1).Contains(i, j)
  {
    var n := NumTasks(imageSize, dim);
    MulMonotoneInt(n.0, i / dim.0, dim.0);
    assert i / dim.0 * dim.0 <= i;
    MulMonotoneInt(n.1, j / dim.1, dim.1);
    assert j / dim.1 * dim.1 <= j;
  }

  /**
   * As written, the rounded size need not divide the image, and the columns past the
   * last whole task belong to no job: a 7-pixel-wide image asked for 3-pixel tasks gets
   * two tasks, and column 6 is never traced.
   */
  lemma RoundDownGridMissesColumn()
    ensures TaskDims((7, 1), (3, 1)) == Some((3, 1))
    ensures NumTasks((7, 1), (3, 1)) == (2, 1)
    ensures forall tx | 0 <= tx < 2 :: !TileAt((3, 1), tx, 0).Contains(6, 0)
  {
    assert RoundDownToClosestFactor(1, 1) == Some(1);
  }

  /** The tile size the rounding evidently intends: the smallest divisor of the extent at least the request. */
  function DividingTaskDims(imageSize: (U32, U32), requested: (U32, U32)): (dim: Option<Pair>)
    ensures dim.None? <==> requested.0 == 0 || imageSize.0 < requested.0 || requested.1 == 0 || imageSize.1 < requested.1
    ensures dim.Some? ==> 0 < dim.value.0 && 0 < dim.value.1
    ensures dim.Some? ==> imageSize.0 % dim.value.0 == 0 && imageSize.1 % dim.value.1 == 0
  {
    match (RoundToDividingFactor(requested.0, imageSize.0), RoundToDividingFactor(requested.1, imageSize.1))
    case (Some(dx), Some(dy)) => Some((dx as nat, dy as nat))
    case _ => None
  }

  /**
   * The grid of `dim`-sized tasks spans the image exactly, and pixel (`i`, `j`) lies in
   * the task its coordinates divide down to, which is one of the grid's.
   */
  ghost predicate GridCoversPixel(imageSize: Pair, dim: Pair, i: nat, j: nat)
    requires 0 < dim.0 && 0 < dim.1
  {
    var n := NumTasks(imageSize, dim);
    n.0 * dim.0 == imageSize.0 && n.1 * dim.1 == imageSize.1 &&
    i / dim.0 < n.0 && j / dim.1 < n.1 && TileAt(dim, i / dim.0, j / dim.1).Contains(i, j)
  }

  /** With dividing task sizes the grid covers the whole image: every pixel belongs to a task. */
  lemma DividingGridCoversImage(imageSize: (U32, U32), requested: (U32, U32), i: nat, j: nat)
    requires DividingTaskDims(imageSize, requested).Some?
    requires i < imageSize.0 && j < imageSize.1
    ensures GridCoversPixel(imageSize, DividingTaskDims(imageSize, requested).value, i, j)
  {
    var dim := DividingTaskDims(imageSize, requested).value;
    ExactGridCovers(imageSize, dim, i, j);
  }

  /** A grid of tasks whose sizes divide the image spans it exactly, so it holds every pixel. */
  lemma ExactGridCovers(imageSize: Pair, dim: Pair, i: nat, j: nat)
    requires 0 < dim.0 && 0 < dim.1 && imageSize.0 % dim.0 == 0 && imageSize.1 % dim.1 == 0
    requires i < imageSize.0 && j < imageSize.1
    ensures GridCoversPixel(imageSize, dim, i, j)
  {
    var n := NumTasks(imageSize, dim);
    ExactQuotient(imageSize.0, dim.0);
    ExactQuotient(imageSize.1, dim.1);
    assert n == (imageSize.0 / dim.0, imageSize.1 / dim.1);
    GridCoversSpan(imageSize, dim, i, j);
  }

  /** A multiple of `d` is `d` times its quotient by `d`. */
  lemma ExactQuotient(m: nat, d: nat)
    requires 0 < d && m % d == 0
    ensures (m / d) * d == m
  {
    assert m == (m / d) * d + m % d;
  }

  /** For the renderer's own image the grid is 10 by 6 tasks of 128x120 pixels covering all of it. */
  lemma DefaultGrid()
    ensures TaskDims(IMAGE_SIZE, REQUESTED_TASK_DIM) == Some((128, 120))
    ensures NumTasks((1280, 720), (128, 120)) == (10, 6)
    ensures 10 * 128 == 1280 && 6 * 120 == 720
  {
    RoundingAgreesOnDefaultImage();
  }
}
