/**
 * The tile jobs of src/trace.rs: each job owns a rectangle of the image, keeps a
 * frame counter per pixel, and blends every new frame's pixel colours into the shared
 * RGBA buffer as a running mean. A shared counter of outstanding jobs is decremented
 * once per traced frame.
 *
 * The job's random choices (skip the whole task, skip a pixel) arrive as draws in a
 * `FrameDraws` value, and the averaged sample colour of each pixel, which needs the
 * camera and the world, arrives as a function `colour(i, j)`.
 */
module Trace {
  import opened Vec3Math
  import opened MathUtil

  /** `usize` arithmetic wraps modulo 2^64. */
  const USIZE_MODULUS: int := 0x1_0000_0000_0000_0000
  type USize = x: int | 0 <= x < USIZE_MODULUS

  const I32_MAX: int := 0x7FFF_FFFF
  const CHANCE_TO_SKIP_TASK_PER_FRAME: real := 0.0
  const CHANCE_TO_SKIP_PIXEL_PER_FRAME: real := 0.8
  /** A pixel counter stops growing once it has passed this value. */
  const MAX_COUNTED_FRAMES: nat := 1000

  type Pair = (nat, nat)

  /** `AtomicUsize::fetch_sub(1)`: the new value, wrapping from 0 to `usize::MAX`. */
  function WrappingDecrement(n: USize): (r: USize)
    ensures (r + 1) % USIZE_MODULUS == n
    ensures r < n || n == 0
  {
    if n == 0 then USIZE_MODULUS - 1 else n - 1
  }

  /** The counter after `k` completions. */
  function DecrementTimes(n: USize, k: nat): USize {
    if k == 0 then n else WrappingDecrement(DecrementTimes(n, k - 1))
  }

  /**
   * Starting from the number of jobs, the counter reaches zero exactly when every job
   * has reported once.
   */
  lemma {:induction false} CountdownReachesZero(n: USize, k: nat)
    requires k <= n
    ensures DecrementTimes(n, k) == n - k
    ensures DecrementTimes(n, k) == 0 <==> k == n
  {
    if k > 0 {
      CountdownReachesZero(n, k - 1);
    }
  }

  /** The frame counter update: +1 while the counter is at most 1000, unchanged after. */
  function Bump(n: nat): (m: nat)
    ensures 1 <= m
    ensures m == n <==> MAX_COUNTED_FRAMES < n
    ensures n <= MAX_COUNTED_FRAMES + 1 ==> m <= MAX_COUNTED_FRAMES + 1
  {
    if n <= MAX_COUNTED_FRAMES then n + 1 else n
  }

  /** A counter starting at zero, after `k` visits. */
  function CountAfter(k: nat): nat {
    if k == 0 then 0 else Bump(CountAfter(k - 1))
  }

  /** The counter counts visits up to 1001 and then stays there. */
  lemma {:induction false} CountAfterSaturates(k: nat)
    ensures CountAfter(k) == if k <= MAX_COUNTED_FRAMES + 1 then k else MAX_COUNTED_FRAMES + 1
  {
    if k > 0 {
      CountAfterSaturates(k - 1);
    }
  }

  /**
   * The blend of a new sample into a pixel whose counter is now `n`: weight `1/n` for the
   * sample and `1 - 1/n` for what the buffer held. A zero counter never occurs (`Bump`
   * is at least 1); it is given the previous value here.
   */
  function Blend(prev: real, sample: real, n: nat): (r: real)
    ensures n == 1 ==> r == sample
  {
    if n == 0 then prev
    else
      var weight := 1.0 / n as real;
      sample * weight + prev * (1.0 - weight)
  }

  function Sum(xs: seq<real>): real {
    if |xs| == 0 then 0.0 else Sum(xs[..|xs| - 1]) + xs[|xs| - 1]
  }

  function Mean(xs: seq<real>): real
    requires 1 <= |xs|
  {
    Sum(xs) / |xs| as real
  }

  /** Blending the `n+1`-th sample into the mean of `n` samples gives the mean of all `n+1`. */
  lemma BlendRunningMean(xs: seq<real>, x: real)
    requires 1 <= |xs|
    ensures Blend(Mean(xs), x, |xs| + 1) == Mean(xs + [x])
  {
    assert (xs + [x])[..|xs|] == xs;
    var n := |xs| as real;
    var s := Sum(xs);
    var w := 1.0 / (n + 1.0);
    assert 1.0 - w == n * w;
    assert (s / n) * (n * w) == s * w;
    assert Blend(s / n, x, |xs| + 1) == x * w + s * w;
    assert Mean(xs + [x]) == (s + x) * w;
  }

  /** What a pixel channel holds after the samples `xs` of successive frames were blended into `init`. */
  function Accumulate(init: real, xs: seq<real>): (a: real)
    ensures |xs| == 1 ==> a == xs[0]
  {
    if |xs| == 0 then init else Blend(Accumulate(init, xs[..|xs| - 1]), xs[|xs| - 1], CountAfter(|xs|))
  }

  /**
   * Until the counter saturates, the buffer holds exactly the mean of every frame's
   * sample, whatever it held before the first frame.
   */
  lemma {:induction false} AccumulateIsMean(init: real, xs: seq<real>)
    requires 1 <= |xs| <= MAX_COUNTED_FRAMES + 1
    ensures Accumulate(init, xs) == Mean(xs)
  {
    CountAfterSaturates(|xs|);
    if |xs| == 1 {
      assert xs[..0] == [];
      assert Sum(xs) == Sum(xs[..0]) + xs[0];
    } else {
      var front := xs[..|xs| - 1];
      AccumulateIsMean(init, front);
      BlendRunningMean(front, xs[|xs| - 1]);
      assert front + [xs[|xs| - 1]] == xs;
    }
  }

  /** A job's tile: the pixel columns `[start.0, end.0)` and rows `[start.1, end.1)`. */
  datatype TileRect = TileRect(start: Pair, end: Pair) {
    predicate Ordered() {
      start.0 <= end.0 && start.1 <= end.1
    }

    function Width(): nat
      requires Ordered()
    {
      end.0 - start.0
    }

    function Height(): nat
      requires Ordered()
    {
      end.1 - start.1
    }

    predicate Contains(i: nat, j: nat) {
      start.0 <= i < end.0 && start.1 <= j < end.1
    }

    /**
     * `local_pixel_idx`: the pixel's place in visiting order, rows from the tile's top
     * row `end.1 - 1` down, each row left to right.
     */
    function LocalIndex(i: nat, j: nat): (k: nat)
      requires Contains(i, j)
      ensures k < Width() * Height()
      ensures PixelOfLocal(k) == (i, j)
    {
      var row := end.1 - 1 - j;
      var col := i - start.0;
      MulMonotoneInt(row, Height() - 1, Width());
      DivOfMultiplePlus(row, Width(), col);
      row * Width() + col
    }

    /** The pixel visited in place `k`. */
    function PixelOfLocal(k: nat): (p: Pair)
      requires Ordered() && k < Width() * Height()
      ensures Contains(p.0, p.1)
    {
      var row := k / Width();
      assert row < Height() by {
        if row >= Height() {
          MulMonotoneInt(Height(), row, Width());
        }
      }
      (start.0 + k % Width(), end.1 - 1 - row)
    }
  }

  /** Every place in visiting order belongs to one pixel and back. */
  lemma LocalIndexRoundTrip(tile: TileRect, k: nat)
    requires tile.Ordered() && k < tile.Width() * tile.Height()
    ensures tile.LocalIndex(tile.PixelOfLocal(k).0, tile.PixelOfLocal(k).1) == k
  {
  }

  /** The RGBA buffer position of channel `c` of pixel (`i`, `j`) in an image `imageW` pixels wide. */
  function BufferIndex(imageW: nat, i: nat, j: nat, c: nat): (idx: nat)
    requires i < imageW && c < 4
    ensures PixelOfIndex(imageW, idx) == (i, j, c)
  {
    DivOfMultiplePlus(j * imageW + i, 4, c);
    DivOfMultiplePlus(j, imageW, i);
    4 * (j * imageW + i) + c
  }

  /** The pixel column, row and channel a buffer position belongs to. */
  function PixelOfIndex(imageW: nat, idx: nat): (p: (nat, nat, nat))
    requires 0 < imageW
    ensures p.0 < imageW && p.2 < 4
  {
    ((idx / 4) % imageW, (idx / 4) / imageW, idx % 4)
  }

  lemma PixelOfIndexRoundTrip(imageW: nat, idx: nat)
    requires 0 < imageW
    ensures BufferIndex(imageW, PixelOfIndex(imageW, idx).0, PixelOfIndex(imageW, idx).1, PixelOfIndex(imageW, idx).2) == idx
  {
  }

  /**
   * Row `j`'s slice of a tile starts at `4 * (start.0 + j * imageW)` and is `4 * width`
   * long; the channels of the tile's pixels on that row stay inside it.
   */
  lemma WritesStayInRowSlice(tile: TileRect, imageW: nat, i: nat, j: nat, c: nat)
    requires tile.Contains(i, j) && i < imageW && c < 4
    ensures 4 * (tile.start.0 + j * imageW) <= BufferIndex(imageW, i, j, c)
    ensures BufferIndex(imageW, i, j, c) < 4 * (tile.start.0 + j * imageW) + 4 * tile.Width()
  {
  }

  /** The random choices of one `trace` call. */
  datatype FrameDraws = FrameDraws(realtime: bool, task: real, pixel: (nat, nat) -> real) {
    /** Skip the whole task: realtime mode and a draw below 0.0, which a draw from [0, 1) never is. */
    predicate SkipsTask() {
      realtime && task < CHANCE_TO_SKIP_TASK_PER_FRAME
    }

    predicate SkipsPixel(i: nat, j: nat) {
      realtime && pixel(i, j) < CHANCE_TO_SKIP_PIXEL_PER_FRAME
    }
  }

  /** With uniform draws the whole task is never skipped, and outside realtime mode no pixel is. */
  lemma SkipChances(draws: FrameDraws, i: nat, j: nat)
    ensures 0.0 <= draws.task ==> !draws.SkipsTask()
    ensures !draws.realtime ==> !draws.SkipsPixel(i, j)
  {
  }

  /** Whether `trace` writes buffer position `idx`: a colour channel of a tile pixel that was not skipped. */
  predicate Writes(tile: TileRect, imageW: nat, draws: FrameDraws, idx: nat) {
    0 < imageW && !draws.SkipsTask() &&
    var p := PixelOfIndex(imageW, idx);
    p.2 < 3 && tile.Contains(p.0, p.1) && !draws.SkipsPixel(p.0, p.1)
  }

  /** The place in visiting order of the pixel a written position belongs to. */
  function LocalOfIndex(tile: TileRect, imageW: nat, draws: FrameDraws, idx: nat): (k: nat)
    requires Writes(tile, imageW, draws, idx)
    ensures k < tile.Width() * tile.Height()
  {
    var p := PixelOfIndex(imageW, idx);
    tile.LocalIndex(p.0, p.1)
  }

  /** The alpha channel and every pixel outside the tile are never written. */
  lemma WritesOnlyTileColour(tile: TileRect, imageW: nat, draws: FrameDraws, i: nat, j: nat, c: nat)
    requires i < imageW && c < 4
    ensures Writes(tile, imageW, draws, BufferIndex(imageW, i, j, c)) ==> c < 3 && tile.Contains(i, j)
    ensures Writes(tile, imageW, draws, BufferIndex(imageW, i, j, c)) <==>
              (c < 3 && tile.Contains(i, j) && !draws.SkipsTask() && !draws.SkipsPixel(i, j))
  {
  }

  /** The colour component a written buffer position receives. */
  function SampleAt(imageW: nat, colour: (nat, nat) -> Vec3, idx: nat): real
    requires 0 < imageW && PixelOfIndex(imageW, idx).2 < 3
  {
    var p := PixelOfIndex(imageW, idx);
    Index(colour(p.0, p.1), p.2)
  }

  /** The counters once the first `done` pixels in visiting order have been traced from `before`. */
  ghost predicate CountersAfter(tile: TileRect, draws: FrameDraws, before: seq<nat>, counts: seq<nat>, done: nat)
    requires tile.Ordered() && |before| == tile.Width() * tile.Height()
  {
    |counts| == |before| &&
    forall k | 0 <= k < |before| ::
      counts[k] ==
        (if k < done && !draws.SkipsPixel(tile.PixelOfLocal(k).0, tile.PixelOfLocal(k).1)
         then Bump(before[k]) else before[k])
  }

  /** The buffer once the first `done` pixels in visiting order have been traced from `before`. */
  ghost predicate BufferAfter(tile: TileRect, imageW: nat, draws: FrameDraws, colour: (nat, nat) -> Vec3,
                              before: seq<real>, counts: seq<nat>, buf: seq<real>, done: nat)
    requires tile.Ordered() && |counts| == tile.Width() * tile.Height()
  {
    |buf| == |before| &&
    forall idx | 0 <= idx < |before| ::
      buf[idx] ==
        (if Writes(tile, imageW, draws, idx) && LocalOfIndex(tile, imageW, draws, idx) < done
         then Blend(before[idx], SampleAt(imageW, colour, idx), counts[LocalOfIndex(tile, imageW, draws, idx)])
         else before[idx])
  }

  /** Visiting pixel `done` bumps its counter unless it is skipped, and touches no other counter. */
  lemma CountersStep(tile: TileRect, draws: FrameDraws, before: seq<nat>, counts: seq<nat>, done: nat, i: nat, j: nat)
    requires tile.Ordered() && |before| == tile.Width() * tile.Height() && done < |before|
    requires CountersAfter(tile, draws, before, counts, done) && tile.PixelOfLocal(done) == (i, j)
    ensures CountersAfter(tile, draws, before, if draws.SkipsPixel(i, j) then counts else counts[done := Bump(counts[done])], done + 1)
  {
  }

  /** A written position belongs to pixel `done` only when it is one of that pixel's channels. */
  lemma OnlyPixelChannels(tile: TileRect, imageW: nat, draws: FrameDraws, done: nat, i: nat, j: nat, idx: nat)
    requires tile.Ordered() && done < tile.Width() * tile.Height() && tile.PixelOfLocal(done) == (i, j)
    requires Writes(tile, imageW, draws, idx) && LocalOfIndex(tile, imageW, draws, idx) == done
    ensures i < imageW && !draws.SkipsPixel(i, j)
    ensures idx == BufferIndex(imageW, i, j, PixelOfIndex(imageW, idx).2)
  {
    var p := PixelOfIndex(imageW, idx);
    assert (p.0, p.1) == tile.PixelOfLocal(done);
    PixelOfIndexRoundTrip(imageW, idx);
  }

  /** A skipped pixel leaves the buffer as it is. */
  lemma BufferStepSkip(tile: TileRect, imageW: nat, draws: FrameDraws, colour: (nat, nat) -> Vec3,
                       before: seq<real>, counts: seq<nat>, buf: seq<real>, done: nat, i: nat, j: nat)
    requires tile.Ordered() && |counts| == tile.Width() * tile.Height() && done < |counts|
    requires tile.PixelOfLocal(done) == (i, j) && draws.SkipsPixel(i, j)
    requires BufferAfter(tile, imageW, draws, colour, before, counts, buf, done)
    ensures BufferAfter(tile, imageW, draws, colour, before, counts, buf, done + 1)
  {
    forall idx | 0 <= idx < |before| && Writes(tile, imageW, draws, idx)
      ensures LocalOfIndex(tile, imageW, draws, idx) != done
    {
      if LocalOfIndex(tile, imageW, draws, idx) == done {
        OnlyPixelChannels(tile, imageW, draws, done, i, j, idx);
      }
    }
  }

  /** Blending the three channels of pixel `done`, whose counter became `n`, extends the traced prefix by one. */
  lemma BufferStepWrite(tile: TileRect, imageW: nat, draws: FrameDraws, colour: (nat, nat) -> Vec3,
                        before: seq<real>, counts: seq<nat>, buf: seq<real>, done: nat, i: nat, j: nat,
                        n: nat, next: seq<real>)
    requires tile.Ordered() && |counts| == tile.Width() * tile.Height() && done < |counts|
    requires tile.PixelOfLocal(done) == (i, j) && !draws.SkipsPixel(i, j) && !draws.SkipsTask() && i < imageW
    requires BufferAfter(tile, imageW, draws, colour, before, counts, buf, done)
    requires |next| == |buf| && BufferIndex(imageW, i, j, 2) < |buf|
    requires forall idx | 0 <= idx < |buf| ::
      next[idx] == (if BufferIndex(imageW, i, j, 0) <= idx <= BufferIndex(imageW, i, j, 2)
                    then Blend(buf[idx], Index(colour(i, j), idx - BufferIndex(imageW, i, j, 0)), n)
                    else buf[idx])
    ensures BufferAfter(tile, imageW, draws, colour, before, counts[done := n], next, done + 1)
  {
    var base := BufferIndex(imageW, i, j, 0);
    LocalIndexRoundTrip(tile, done);
    forall idx | 0 <= idx < |before|
      ensures next[idx] ==
        (if Writes(tile, imageW, draws, idx) && LocalOfIndex(tile, imageW, draws, idx) < done + 1
         then Blend(before[idx], SampleAt(imageW, colour, idx), counts[done := n][LocalOfIndex(tile, imageW, draws, idx)])
         else before[idx])
    {
      if base <= idx <= base + 2 {
        var c := idx - base;
        assert idx == BufferIndex(imageW, i, j, c);
        assert Writes(tile, imageW, draws, idx);
        assert LocalOfIndex(tile, imageW, draws, idx) == done;
      } else if Writes(tile, imageW, draws, idx) && LocalOfIndex(tile, imageW, draws, idx) == done {
        OnlyPixelChannels(tile, imageW, draws, done, i, j, idx);
      }
    }
  }

  /** `SceneOutput`: the shared image buffer and the number of jobs still to report. */
  class SceneOutput {
    const buffer: array<real>
    var remainingTasks: USize

    constructor (buffer: array<real>, remainingTasks: USize)
      ensures this.buffer == buffer && this.remainingTasks == remainingTasks
    {
      this.buffer := buffer;
      this.remainingTasks := remainingTasks;
    }

    /** `notify_task_completion`: one decrement, wrapping like the atomic it models. */
    method NotifyTaskCompletion()
      modifies this
      ensures remainingTasks == WrappingDecrement(old(remainingTasks))
    {
      remainingTasks := WrappingDecrement(remainingTasks);
    }
  }

  /** `TraceSceneBatchJob`: a tile, its per-pixel frame counters and the shared output. */
  class TraceSceneBatchJob {
    const numSamples: nat
    const startXY: Pair
    const endXY: Pair
    const imageSize: Pair
    const numPixelsXY: Pair
    const imageStartXY: Pair
    const output: SceneOutput
    const realtime: bool
    var numFrames: int
    var numFramesPerPixel: seq<nat>

    function Tile(): TileRect {
      TileRect(startXY, endXY)
    }

    ghost predicate Valid()
      reads this
    {
      Tile().Ordered() && endXY.1 <= imageSize.1 &&
      numPixelsXY == (Tile().Width(), Tile().Height()) &&
      imageStartXY == (startXY.0, imageSize.1 - endXY.1) &&
      |numFramesPerPixel| == numPixelsXY.0 * numPixelsXY.1 &&
      0 <= numFrames &&
      forall k | 0 <= k < |numFramesPerPixel| :: numFramesPerPixel[k] <= MAX_COUNTED_FRAMES + 1
    }

    /**
     * `new`: the tile's size, its first row counted from the top of the image
     * (`image_h - end_y`), and zeroed counters. The unsigned subtractions need the
     * end corner at or after the start corner and the tile inside the image height.
     */
    constructor (numSamples: nat, startXY: Pair, endXY: Pair, imageSize: Pair, output: SceneOutput, realtime: bool)
      requires startXY.0 <= endXY.0 && startXY.1 <= endXY.1 <= imageSize.1
      ensures Valid()
      ensures this.startXY == startXY && this.endXY == endXY && this.imageSize == imageSize
      ensures this.output == output && this.numSamples == numSamples && this.realtime == realtime
      ensures numPixelsXY == (endXY.0 - startXY.0, endXY.1 - startXY.1)
      ensures imageStartXY == (startXY.0, imageSize.1 - endXY.1)
      ensures numFrames == 0
      ensures numFramesPerPixel == seq((endXY.0 - startXY.0) * (endXY.1 - startXY.1), _ => 0)
    {
      this.numSamples := numSamples;
      this.startXY := startXY;
      this.endXY := endXY;
      this.imageSize := imageSize;
      this.output := output;
      this.realtime := realtime;
      var numPixels := (endXY.0 - startXY.0, endXY.1 - startXY.1);
      this.numPixelsXY := numPixels;
      this.imageStartXY := (startXY.0, imageSize.1 - startXY.1 - numPixels.1);
      this.numFrames := 0;
      this.numFramesPerPixel := seq(numPixels.0 * numPixels.1, _ => 0);
    }

    /** `clear_buffer`: zero frames and every counter back to zero, one per tile pixel. */
    method ClearBuffer()
      requires Valid()
      modifies this
      ensures Valid()
      ensures numFrames == 0
      ensures numFramesPerPixel == seq(numPixelsXY.0 * numPixelsXY.1, _ => 0)
    {
      numFrames := 0;
      numFramesPerPixel := seq(numPixelsXY.0 * numPixelsXY.1, _ => 0);
    }

    /**
     * `trace`: counts the frame, then either skips this job for the frame or visits the tile's rows
     * from the top down and each row's pixels left to right; a visited pixel's counter
     * is bumped and its three colour channels blended with weight `1/counter`. Either
     * way the job reports completion exactly once.
     */
    method Trace(draws: FrameDraws, colour: (nat, nat) -> Vec3)
      requires Valid() && numFrames < I32_MAX
      requires endXY.0 <= imageSize.0
      requires startXY.1 < endXY.1 ==> 4 * ((endXY.1 - 1) * imageSize.0 + endXY.0) <= output.buffer.Length
      modifies this, output, output.buffer
      ensures Valid()
      ensures numFrames == old(numFrames) + 1
      ensures output.remainingTasks == WrappingDecrement(old(output.remainingTasks))
      ensures draws.SkipsTask() ==> numFramesPerPixel == old(numFramesPerPixel) && output.buffer[..] == old(output.buffer[..])
      ensures CountersAfter(Tile(), draws, old(numFramesPerPixel), numFramesPerPixel,
                            if draws.SkipsTask() then 0 else numPixelsXY.0 * numPixelsXY.1)
      ensures BufferAfter(Tile(), imageSize.0, draws, colour, old(output.buffer[..]), numFramesPerPixel, output.buffer[..],
                          numPixelsXY.0 * numPixelsXY.1)
    {
      numFrames := numFrames + 1;
      if draws.SkipsTask() {
        output.NotifyTaskCompletion();
        return;
      }
      TraceTile(draws, colour);
      output.NotifyTaskCompletion();
    }

    /** The row and column loops of `trace`, for a frame that is not skipped. */
    method TraceTile(draws: FrameDraws, colour: (nat, nat) -> Vec3)
      requires Valid() && !draws.SkipsTask()
      requires endXY.0 <= imageSize.0
      requires startXY.1 < endXY.1 ==> 4 * ((endXY.1 - 1) * imageSize.0 + endXY.0) <= output.buffer.Length
      modifies this, output.buffer
      ensures Valid() && numFrames == old(numFrames) && unchanged(output)
      ensures CountersAfter(Tile(), draws, old(numFramesPerPixel), numFramesPerPixel, numPixelsXY.0 * numPixelsXY.1)
      ensures BufferAfter(Tile(), imageSize.0, draws, colour, old(output.buffer[..]), numFramesPerPixel, output.buffer[..],
                          numPixelsXY.0 * numPixelsXY.1)
    {
      ghost var counts := numFramesPerPixel;
      ghost var buf := output.buffer[..];
      var w := numPixelsXY.0;
      var h := numPixelsXY.1;
      var rowIdx := 0;
      while rowIdx < h
        invariant 0 <= rowIdx <= h
        invariant Valid() && output.buffer.Length == |buf|
        invariant CountersAfter(Tile(), draws, counts, numFramesPerPixel, rowIdx * w)
        invariant BufferAfter(Tile(), imageSize.0, draws, colour, buf, numFramesPerPixel, output.buffer[..], rowIdx * w)
        invariant numFrames == old(numFrames) && unchanged(output)
      {
        TraceRow(draws, colour, counts, buf, rowIdx);
        NextRowStart(rowIdx, w);
        rowIdx := rowIdx + 1;
      }
      assert h * w == w * h;
    }

    /** Row `r + 1` of a `w`-wide tile starts one row after row `r`. */
    lemma NextRowStart(r: nat, w: nat)
      ensures r * w + w == (r + 1) * w
    {
    }

    /** One row of `trace`: row `end_y - 1 - rowIdx`, its pixels left to right. */
    method TraceRow(draws: FrameDraws, colour: (nat, nat) -> Vec3, ghost counts: seq<nat>, ghost buf: seq<real>, rowIdx: nat)
      requires Valid() && output.buffer.Length == |buf| && |counts| == |numFramesPerPixel| && !draws.SkipsTask()
      requires endXY.0 <= imageSize.0 && rowIdx < numPixelsXY.1
      requires 4 * ((endXY.1 - 1) * imageSize.0 + endXY.0) <= output.buffer.Length
      requires CountersAfter(Tile(), draws, counts, numFramesPerPixel, rowIdx * numPixelsXY.0)
      requires BufferAfter(Tile(), imageSize.0, draws, colour, buf, numFramesPerPixel, output.buffer[..], rowIdx * numPixelsXY.0)
      modifies this, output.buffer
      ensures Valid() && output.buffer.Length == |buf|
      ensures CountersAfter(Tile(), draws, counts, numFramesPerPixel, rowIdx * numPixelsXY.0 + numPixelsXY.0)
      ensures BufferAfter(Tile(), imageSize.0, draws, colour, buf, numFramesPerPixel, output.buffer[..], rowIdx * numPixelsXY.0 + numPixelsXY.0)
      ensures numFrames == old(numFrames) && unchanged(output)
    {
      var j := endXY.1 - 1 - rowIdx;
      var start := startXY.0 * 4 + j * imageSize.0 * 4;
      var colIdx := 0;
      while colIdx < numPixelsXY.0
        invariant 0 <= colIdx <= numPixelsXY.0
        invariant Valid() && output.buffer.Length == |buf|
        invariant CountersAfter(Tile(), draws, counts, numFramesPerPixel, rowIdx * numPixelsXY.0 + colIdx)
        invariant BufferAfter(Tile(), imageSize.0, draws, colour, buf, numFramesPerPixel, output.buffer[..], rowIdx * numPixelsXY.0 + colIdx)
        invariant numFrames == old(numFrames) && unchanged(output)
      {
        var i := startXY.0 + colIdx;
        TracePixel(draws, colour, counts, buf, rowIdx, colIdx, i, j, start);
        colIdx := colIdx + 1;
      }
    }

    /** One pixel of `trace`'s inner loop: the pixel in place `rowIdx * w + colIdx`. */
    method TracePixel(draws: FrameDraws, colour: (nat, nat) -> Vec3, ghost counts: seq<nat>, ghost buf: seq<real>,
                      rowIdx: nat, colIdx: nat, i: nat, j: nat, start: nat)
      requires Valid() && output.buffer.Length == |buf| && |counts| == |numFramesPerPixel| && !draws.SkipsTask()
      requires endXY.0 <= imageSize.0
      requires 4 * ((endXY.1 - 1) * imageSize.0 + endXY.0) <= output.buffer.Length
      requires rowIdx < numPixelsXY.1 && colIdx < numPixelsXY.0
      requires j == endXY.1 - 1 - rowIdx && i == startXY.0 + colIdx && start == startXY.0 * 4 + j * imageSize.0 * 4
      requires CountersAfter(Tile(), draws, counts, numFramesPerPixel, rowIdx * numPixelsXY.0 + colIdx)
      requires BufferAfter(Tile(), imageSize.0, draws, colour, buf, numFramesPerPixel, output.buffer[..], rowIdx * numPixelsXY.0 + colIdx)
      modifies this, output.buffer
      ensures Valid() && output.buffer.Length == |buf|
      ensures CountersAfter(Tile(), draws, counts, numFramesPerPixel, rowIdx * numPixelsXY.0 + colIdx + 1)
      ensures BufferAfter(Tile(), imageSize.0, draws, colour, buf, numFramesPerPixel, output.buffer[..], rowIdx * numPixelsXY.0 + colIdx + 1)
      ensures numFrames == old(numFrames) && unchanged(output)
    {
      var tile := Tile();
      var k := rowIdx * numPixelsXY.0 + colIdx;
      assert tile.Contains(i, j);
      assert tile.LocalIndex(i, j) == k;
      CountersStep(tile, draws, counts, numFramesPerPixel, k, i, j);
      if draws.SkipsPixel(i, j) {
        BufferStepSkip(tile, imageSize.0, draws, colour, buf, numFramesPerPixel, output.buffer[..], k, i, j);
        return;
      }
      ghost var cur := output.buffer[..];
      numFramesPerPixel := numFramesPerPixel[k := Bump(numFramesPerPixel[k])];
      var c := colour(i, j);
      var index := colIdx * 4;
      var n := numFramesPerPixel[k];
      PixelInBuffer(i, j);
      assert start + index == BufferIndex(imageSize.0, i, j, 0);
      BlendPixel(start + index, c, n);
      BufferStepWrite(tile, imageSize.0, draws, colour, buf, old(numFramesPerPixel), cur, k, i, j, n, output.buffer[..]);
    }

    /** The three writes of the blend: channels `p`, `p + 1` and `p + 2` take the running average with `c`. */
    method BlendPixel(p: nat, c: Vec3, n: nat)
      requires p + 2 < output.buffer.Length
      modifies output.buffer
      ensures forall idx | 0 <= idx < output.buffer.Length ::
        output.buffer[idx] == (if p <= idx <= p + 2 then Blend(old(output.buffer[idx]), Index(c, idx - p), n)
                               else old(output.buffer[idx]))
    {
      output.buffer[p] := Blend(output.buffer[p], c.x, n);
      output.buffer[p + 1] := Blend(output.buffer[p + 1], c.y, n);
      output.buffer[p + 2] := Blend(output.buffer[p + 2], c.z, n);
    }

    /** The last channel of a tile pixel lies inside the buffer. */
    lemma PixelInBuffer(i: nat, j: nat)
      requires Tile().Contains(i, j) && endXY.0 <= imageSize.0
      requires 4 * ((endXY.1 - 1) * imageSize.0 + endXY.0) <= output.buffer.Length
      ensures BufferIndex(imageSize.0, i, j, 2) < output.buffer.Length
    {
      MulMonotoneInt(j, endXY.1 - 1, imageSize.0);
    }
  }
}
