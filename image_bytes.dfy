/**
 * The byte-level image conversions of src/lib.rs: the display conversion of the
 * float RGBA buffer to tone-mapped, gamma-corrected bytes, and the three PPM writers
 * that flip an image upside down (a PPM file starts with the top row, the buffers with
 * the bottom one) while rearranging each pixel's channels into R, G, B.
 *
 * A writer's output buffer is as long as its input; positions past the `3 * w * h`
 * bytes of the image stay 0.
 */
module ImageBytes {
  import opened Vec3Math
  import opened MathUtil
  import opened Shading
  import opened Options

  type U8 = x: int | 0 <= x < 256

  /** The pixel layout a writer reads, and how. */
  datatype Layout =
    | Bgr            // `save_bgr_texture_as_ppm`: 3 bytes a pixel, channels reversed
    | Rgb            // `save_rgb_texture_as_ppm`: 3 bytes a pixel
    | RgbaAsWritten  // `save_rgba_texture_as_ppm` as written: 4 bytes a pixel, but rows 3 bytes a pixel apart
    | Rgba           // the same writer with rows 4 bytes a pixel apart

  /**
   * The input position the writer reads for channel `c` of output pixel (`i`, `j`),
   * which comes from row `h - 1 - j` of the input, whether or not it is in range.
   */
  function RawReadOffset(layout: Layout, w: nat, h: nat, i: nat, j: nat, c: nat): int
    requires j < h
  {
    var flipped := h - 1 - j;
    match layout
    case Bgr => 3 * (flipped * w + i) + (2 - c)
    case Rgb => 3 * (flipped * w + i) + c
    case RgbaAsWritten => flipped * w * 3 + 4 * i + c
    case Rgba => 4 * (flipped * w + i) + c
  }

  /** The farthest input position a writer reads in a non-empty `w` by `h` image. */
  function LastRead(layout: Layout, w: nat, h: nat): int {
    match layout
    case Bgr => 3 * (w * h) - 1
    case Rgb => 3 * (w * h) - 1
    case RgbaAsWritten => 3 * (w * h) + w - 2
    case Rgba => 4 * (w * h) - 2
  }

  /** The channel whose read is the farthest one of a pixel. */
  function LastChannel(layout: Layout): nat {
    if layout == Bgr then 0 else 2
  }

  /**
   * The writer runs to the end without panicking: an empty image touches nothing;
   * any other needs room for the `3 * w * h` bytes it writes into an output as long
   * as its input, and for its farthest read.
   */
  predicate InBounds(layout: Layout, w: nat, h: nat, len: nat) {
    w * h == 0 || (3 * (w * h) <= len && LastRead(layout, w, h) < len)
  }

  /** A pixel's place `row * w + col` in an image of `w * h` pixels. */
  lemma PixelPlace(w: nat, h: nat, i: nat, j: nat)
    requires i < w && j < h
    ensures j * w + i < w * h && j * w + i <= (h - 1) * w + (w - 1)
  {
    MulMonotoneInt(j, h - 1, w);
    assert (h - 1) * w + w == w * h;
  }

  /**
   * Every read lies between 0 and `LastRead`, and the last channel of the last pixel
   * of output row 0 (the input's top row) reads exactly there.
   */
  lemma ReadsUpToLastRead(layout: Layout, w: nat, h: nat, i: nat, j: nat, c: nat)
    requires i < w && j < h && c < 3
    ensures 0 <= RawReadOffset(layout, w, h, i, j, c) <= LastRead(layout, w, h)
    ensures RawReadOffset(layout, w, h, w - 1, 0, LastChannel(layout)) == LastRead(layout, w, h)
  {
    var flipped := h - 1 - j;
    PixelPlace(w, h, i, flipped);
    MulMonotoneInt(flipped, h - 1, w);
    assert (h - 1) * w + w == w * h;
    assert flipped * w * 3 == 3 * (flipped * w);
    assert (h - 1) * w * 3 == 3 * ((h - 1) * w);
  }

  /**
   * `InBounds` is exact: on a non-empty image outside it, the writer's last write or
   * its farthest read is out of range, so the source panics.
   */
  lemma OutOfBoundsPanics(layout: Layout, w: nat, h: nat, len: nat)
    requires 0 < w && 0 < h && !InBounds(layout, w, h, len)
    ensures len <= OutIndex(w, h, w - 1, h - 1, 2) || len <= RawReadOffset(layout, w, h, w - 1, 0, LastChannel(layout))
  {
    ReadsUpToLastRead(layout, w, h, w - 1, 0, 0);
    PixelPlace(w, h, w - 1, h - 1);
    assert (h - 1) * w + (w - 1) + 1 == w * h;
  }

  /** The input position the writer copies into channel `c` of output pixel (`i`, `j`). */
  function ReadOffset(layout: Layout, w: nat, h: nat, len: nat, i: nat, j: nat, c: nat): (r: nat)
    requires InBounds(layout, w, h, len) && i < w && j < h && c < 3
    ensures r < len && r == RawReadOffset(layout, w, h, i, j, c)
  {
    ReadsUpToLastRead(layout, w, h, i, j, c);
    assert 0 < w * h by { MulMonotoneInt(1, h, w); }
    RawReadOffset(layout, w, h, i, j, c)
  }

  /** The output pixel and channel of output position `k`. */
  function OutPixel(w: nat, h: nat, k: nat): (p: (nat, nat, nat))
    requires 0 < w
    ensures p.0 < w && p.2 < 3
    ensures k < 3 * (w * h) ==> p.1 < h
  {
    var q := k / 3;
    assert k < 3 * (w * h) ==> q < w * h;
    MulMonotoneInt(h, q / w, w);
    assert q / w * w <= q;
    (q % w, q / w, k % 3)
  }

  /** `rgb_offset + c`: the output position of channel `c` of pixel (`i`, `j`). */
  function OutIndex(w: nat, h: nat, i: nat, j: nat, c: nat): (k: nat)
    requires i < w && c < 3
    ensures OutPixel(w, h, k) == (i, j, c)
    ensures j < h ==> k < 3 * (w * h)
  {
    DivOfMultiplePlus(j * w + i, 3, c);
    DivOfMultiplePlus(j, w, i);
    var k := 3 * (j * w + i) + c;
    if j < h then PixelPlace(w, h, i, j); k else k
  }

  /** The byte a writer puts at output position `k` of the image part. */
  function Pick(layout: Layout, buffer: seq<U8>, w: nat, h: nat, k: nat): U8
    requires InBounds(layout, w, h, |buffer|) && k < 3 * (w * h)
  {
    var p := OutPixel(w, h, k);
    buffer[ReadOffset(layout, w, h, |buffer|, p.0, p.1, p.2)]
  }

  /** The output once the first `done` pixels, in output order, have been written. */
  function Flipped(layout: Layout, buffer: seq<U8>, w: nat, h: nat, done: nat): (out: seq<U8>)
    requires InBounds(layout, w, h, |buffer|) && done <= w * h
    ensures |out| == |buffer|
  {
    seq(|buffer|, k requires 0 <= k < |buffer| => if k < 3 * done then Pick(layout, buffer, w, h, k) else 0)
  }

  /** Writing pixel `done` puts its three channels in place and touches nothing else. */
  lemma FlippedStep(layout: Layout, buffer: seq<U8>, w: nat, h: nat, i: nat, j: nat)
    requires InBounds(layout, w, h, |buffer|) && i < w && j < h
    ensures j * w + i < w * h
    ensures var k := OutIndex(w, h, i, j, 0);
      k + 2 < |buffer| &&
      Flipped(layout, buffer, w, h, j * w + i + 1) ==
        Flipped(layout, buffer, w, h, j * w + i)
          [k := buffer[ReadOffset(layout, w, h, |buffer|, i, j, 0)]]
          [k + 1 := buffer[ReadOffset(layout, w, h, |buffer|, i, j, 1)]]
          [k + 2 := buffer[ReadOffset(layout, w, h, |buffer|, i, j, 2)]]
  {
    PixelPlace(w, h, i, j);
    var d := j * w + i;
    assert OutIndex(w, h, i, j, 1) == 3 * d + 1 && OutIndex(w, h, i, j, 2) == 3 * d + 2;
  }

  /**
   * The row loops every writer shares: `j` over the output rows, `i` over each row's
   * pixels, three bytes written per pixel into a zeroed buffer as long as the input.
   */
  method FlipRows(layout: Layout, buffer: seq<U8>, w: nat, h: nat) returns (rgb: seq<U8>)
    requires InBounds(layout, w, h, |buffer|)
    ensures rgb == Flipped(layout, buffer, w, h, w * h)
  {
    var out := new U8[|buffer|](_ => 0);
    assert out[..] == Flipped(layout, buffer, w, h, 0);
    var j := 0;
    while j < h
      invariant 0 <= j <= h
      invariant j * w <= w * h
      invariant out[..] == Flipped(layout, buffer, w, h, j * w)
    {
      FlipRow(layout, buffer, w, h, j, out);
      MulMonotoneInt(j + 1, h, w);
      j := j + 1;
    }
    assert h * w == w * h;
    rgb := out[..];
  }

  /** The inner loop: row `j` of the output, left to right. */
  method FlipRow(layout: Layout, buffer: seq<U8>, w: nat, h: nat, j: nat, out: array<U8>)
    requires InBounds(layout, w, h, |buffer|) && j < h && out.Length == |buffer|
    requires j * w <= w * h && out[..] == Flipped(layout, buffer, w, h, j * w)
    modifies out
    ensures (j + 1) * w <= w * h && out[..] == Flipped(layout, buffer, w, h, (j + 1) * w)
  {
    MulMonotoneInt(j + 1, h, w);
    var i := 0;
    while i < w
      invariant 0 <= i <= w
      invariant j * w + i <= w * h
      invariant out[..] == Flipped(layout, buffer, w, h, j * w + i)
    {
      WritePixel(layout, buffer, w, h, i, j, out);
      i := i + 1;
    }
  }

  /** The loop body: the three channels of output pixel (`i`, `j`). */
  method WritePixel(layout: Layout, buffer: seq<U8>, w: nat, h: nat, i: nat, j: nat, out: array<U8>)
    requires InBounds(layout, w, h, |buffer|) && i < w && j < h && out.Length == |buffer|
    requires j * w + i <= w * h && out[..] == Flipped(layout, buffer, w, h, j * w + i)
    modifies out
    ensures j * w + i + 1 <= w * h && out[..] == Flipped(layout, buffer, w, h, j * w + i + 1)
  {
    FlippedStep(layout, buffer, w, h, i, j);
    var k := OutIndex(w, h, i, j, 0);
    out[k] := buffer[ReadOffset(layout, w, h, |buffer|, i, j, 0)];
    out[k + 1] := buffer[ReadOffset(layout, w, h, |buffer|, i, j, 1)];
    out[k + 2] := buffer[ReadOffset(layout, w, h, |buffer|, i, j, 2)];
  }

  /** Output pixel (`i`, `j`) of a finished writer holds what `ReadOffset` points at. */
  lemma FlippedAt(layout: Layout, buffer: seq<U8>, w: nat, h: nat, i: nat, j: nat, c: nat)
    requires InBounds(layout, w, h, |buffer|) && i < w && j < h && c < 3
    ensures OutIndex(w, h, i, j, c) < 3 * (w * h)
    ensures Flipped(layout, buffer, w, h, w * h)[OutIndex(w, h, i, j, c)] ==
            buffer[ReadOffset(layout, w, h, |buffer|, i, j, c)]
  {
    PixelPlace(w, h, i, j);
  }

  /**
   * `rgb` is what a writer of `layout` leaves behind: as long as its input, output
   * pixel (`i`, `j`) holding in channel `c` the byte `ReadOffset` points at, and zeros
   * after the `3 * w * h` bytes of the image.
   */
  ghost predicate WritesFlipped(layout: Layout, buffer: seq<U8>, w: nat, h: nat, rgb: seq<U8>)
    requires InBounds(layout, w, h, |buffer|)
  {
    |rgb| == |buffer| &&
    (forall i, j, c | 0 <= i < w && 0 <= j < h && 0 <= c < 3 ::
       rgb[OutIndex(w, h, i, j, c)] == buffer[ReadOffset(layout, w, h, |buffer|, i, j, c)]) &&
    (forall k | 3 * (w * h) <= k < |rgb| :: rgb[k] == 0)
  }

  /** Every output pixel of a finished writer, and the zeros after the image. */
  lemma FlippedPixels(layout: Layout, buffer: seq<U8>, w: nat, h: nat)
    requires InBounds(layout, w, h, |buffer|)
    ensures WritesFlipped(layout, buffer, w, h, Flipped(layout, buffer, w, h, w * h))
  {
    forall i, j, c | 0 <= i < w && 0 <= j < h && 0 <= c < 3
      ensures Flipped(layout, buffer, w, h, w * h)[OutIndex(w, h, i, j, c)] ==
              buffer[ReadOffset(layout, w, h, |buffer|, i, j, c)]
    {
      FlippedAt(layout, buffer, w, h, i, j, c);
    }
  }

  /**
   * `save_rgb_texture_as_ppm`'s buffer: row `j` of the output is row `h - 1 - j` of
   * the input, byte for byte; `None` where an index runs out of range and the source
   * panics (`OutOfBoundsPanics`).
   */
  method SaveRgbTextureAsPpm(buffer: seq<U8>, bufferSize: (U32, U32)) returns (rgb: Option<seq<U8>>)
    ensures rgb.Some? <==> InBounds(Rgb, bufferSize.0, bufferSize.1, |buffer|)
    ensures rgb.Some? ==> WritesFlipped(Rgb, buffer, bufferSize.0, bufferSize.1, rgb.value)
  {
    if !InBounds(Rgb, bufferSize.0, bufferSize.1, |buffer|) {
      return None;
    }
    var out := FlipRows(Rgb, buffer, bufferSize.0, bufferSize.1);
    FlippedPixels(Rgb, buffer, bufferSize.0, bufferSize.1);
    rgb := Some(out);
  }

  /**
   * `save_bgr_texture_as_ppm`'s buffer: the same flip, with the blue, green, red bytes
   * of each pixel written as red, green, blue.
   */
  method SaveBgrTextureAsPpm(bgrBuffer: seq<U8>, bufferSize: (U32, U32)) returns (rgb: Option<seq<U8>>)
    ensures rgb.Some? <==> InBounds(Bgr, bufferSize.0, bufferSize.1, |bgrBuffer|)
    ensures rgb.Some? ==> WritesFlipped(Bgr, bgrBuffer, bufferSize.0, bufferSize.1, rgb.value)
  {
    if !InBounds(Bgr, bufferSize.0, bufferSize.1, |bgrBuffer|) {
      return None;
    }
    var out := FlipRows(Bgr, bgrBuffer, bufferSize.0, bufferSize.1);
    FlippedPixels(Bgr, bgrBuffer, bufferSize.0, bufferSize.1);
    rgb := Some(out);
  }

  /**
   * `save_rgba_texture_as_ppm` as written: pixel `i` of a row is read 4 bytes a pixel
   * in, but the row itself is found 3 bytes a pixel in (`j_flipped * w * 3`).
   */
  method SaveRgbaTextureAsPpm(rgbaBuffer: seq<U8>, bufferSize: (U32, U32)) returns (rgb: Option<seq<U8>>)
    ensures rgb.Some? <==> InBounds(RgbaAsWritten, bufferSize.0, bufferSize.1, |rgbaBuffer|)
    ensures rgb.Some? ==> WritesFlipped(RgbaAsWritten, rgbaBuffer, bufferSize.0, bufferSize.1, rgb.value)
  {
    if !InBounds(RgbaAsWritten, bufferSize.0, bufferSize.1, |rgbaBuffer|) {
      return None;
    }
    var out := FlipRows(RgbaAsWritten, rgbaBuffer, bufferSize.0, bufferSize.1);
    FlippedPixels(RgbaAsWritten, rgbaBuffer, bufferSize.0, bufferSize.1);
    rgb := Some(out);
  }

  /**
   * The one call of the RGBA writer hands it the `3 * w * h` bytes of the gamma
   * conversion: that input fits only one pixel wide, so any wider image panics.
   */
  lemma RgbBytesOverrunRgbaWriter(w: nat, h: nat)
    requires 0 < h
    ensures InBounds(RgbaAsWritten, w, h, 3 * (w * h)) <==> w <= 1
  {
  }

  /**
   * The RGBA writer as intended: the flip of an RGBA image, keeping red, green and
   * blue of each pixel and dropping alpha.
   */
  method SaveRgbaTextureAsPpmCorrected(rgbaBuffer: seq<U8>, bufferSize: (U32, U32)) returns (rgb: seq<U8>)
    requires InBounds(Rgba, bufferSize.0, bufferSize.1, |rgbaBuffer|)
    ensures WritesFlipped(Rgba, rgbaBuffer, bufferSize.0, bufferSize.1, rgb)
  {
    rgb := FlipRows(Rgba, rgbaBuffer, bufferSize.0, bufferSize.1);
    FlippedPixels(Rgba, rgbaBuffer, bufferSize.0, bufferSize.1);
  }

  /** The corrected RGBA writer never reads an alpha byte, and an RGBA-sized input is enough for the writer as written. */
  lemma RgbaReadsSkipAlpha(w: nat, h: nat, len: nat, i: nat, j: nat, c: nat)
    requires InBounds(Rgba, w, h, len) && i < w && j < h && c < 3
    ensures ReadOffset(Rgba, w, h, len, i, j, c) % 4 == c
    ensures InBounds(RgbaAsWritten, w, h, len)
  {
    DivOfMultiplePlus((h - 1 - j) * w + i, 4, c);
    if 0 < h {
      MulMonotoneInt(1, h, w);
    }
  }

  /**
   * As written, the RGBA writer reads `(h - 1 - j) * w` bytes too early: it agrees
   * with the intended one on the input's first row only.
   */
  lemma RgbaStrideDrift(w: nat, h: nat, len: nat, i: nat, j: nat, c: nat)
    requires InBounds(Rgba, w, h, len) && i < w && j < h && c < 3
    ensures InBounds(RgbaAsWritten, w, h, len)
    ensures ReadOffset(RgbaAsWritten, w, h, len, i, j, c) + (h - 1 - j) * w == ReadOffset(Rgba, w, h, len, i, j, c)
    ensures ReadOffset(RgbaAsWritten, w, h, len, i, j, c) == ReadOffset(Rgba, w, h, len, i, j, c) <==> j == h - 1
  {
    RgbaReadsSkipAlpha(w, h, len, i, j, c);
    var flipped := h - 1 - j;
    assert flipped * w * 3 + flipped * w == 4 * (flipped * w);
    if j != h - 1 {
      MulMonotoneInt(1, flipped, w);
    }
  }

  /**
   * A 2x2 image shows it: the top-right output pixel's red byte is read from position
   * 10, the blue byte of the input's second pixel of its top row, not from 12.
   */
  lemma RgbaStrideCounterexample()
    ensures InBounds(RgbaAsWritten, 2, 2, 16) && InBounds(Rgba, 2, 2, 16)
    ensures ReadOffset(RgbaAsWritten, 2, 2, 16, 1, 0, 0) == 10
    ensures ReadOffset(Rgba, 2, 2, 16, 1, 0, 0) == 12
    ensures 10 % 4 == 2
  {
  }

  /** Flipping an RGB image twice gives it back, and so does the BGR writer, which also swaps the channels twice. */
  lemma {:induction false} FlipTwice(layout: Layout, buffer: seq<U8>, w: nat, h: nat)
    requires layout == Rgb || layout == Bgr
    requires |buffer| == 3 * (w * h)
    ensures Flipped(layout, Flipped(layout, buffer, w, h, w * h), w, h, w * h) == buffer
  {
    var once := Flipped(layout, buffer, w, h, w * h);
    var twice := Flipped(layout, once, w, h, w * h);
    forall k | 0 <= k < |buffer|
      ensures twice[k] == buffer[k]
    {
      var p := OutPixel(w, h, k);
      var i, j, c := p.0, p.1, p.2;
      assert k == OutIndex(w, h, i, j, c) by {
        DivOfMultiplePlus(k / 3, 3, k % 3);
        assert k / 3 == j * w + i;
      }
      var r := ReadOffset(layout, w, h, |buffer|, i, j, c);
      var c' := if layout == Rgb then c else 2 - c;
      assert r == OutIndex(w, h, i, h - 1 - j, c');
      FlippedAt(layout, buffer, w, h, i, h - 1 - j, c');
      assert ReadOffset(layout, w, h, |buffer|, i, h - 1 - j, c') == k;
    }
  }

  /** `x as u8` for a float: NaN and anything not above 0 become 0, 255 and above saturate, the rest truncate. */
  function CastToU8(x: real): (b: U8)
    ensures 0.0 <= x < 256.0 ==> b == x.Floor
  {
    if x <= 0.0 then 0 else if x >= 255.0 then 255 else x.Floor
  }

  /** `(255.99 * v.sqrt()) as u8`: the square root of a negative value is NaN, which casts to 0. */
  function GammaByte(v: real, sqrt: real -> real): (b: U8)
    requires IsSqrt(sqrt)
    ensures v <= 0.0 ==> b == 0
    ensures 0.0 <= v < 1.0 ==> b as int == (255.99 * sqrt(v)).Floor
  {
    if v < 0.0 then 0
    else
      SqrtMonotone(0.0, v, sqrt);
      assert sqrt(0.0) * sqrt(0.0) == 0.0;
      if v < 1.0 then
        MulMonotoneReal(sqrt(v), 1.0, 255.99);
        CastToU8(255.99 * sqrt(v))
      else CastToU8(255.99 * sqrt(v))
  }

  /** Square roots of values in [0, 1) lie in [0, 1), and the root keeps order. */
  lemma SqrtMonotone(a: real, b: real, sqrt: real -> real)
    requires IsSqrt(sqrt) && 0.0 <= a <= b
    ensures sqrt(a) <= sqrt(b)
    ensures b < 1.0 ==> sqrt(b) < 1.0
  {
    var sa, sb := sqrt(a), sqrt(b);
    SquareStrict(sb, sa);
    SquareStrict(sb, 1.0);
    SquareStrict(1.0, sb);
  }

  /** Squaring keeps strict order on non-negative reals. */
  lemma SquareStrict(y: real, x: real)
    ensures 0.0 <= y < x ==> y * y < x * x
  {
    if 0.0 <= y < x {
      var d, e := x - y, x + y;
      assert 0.0 < d && 0.0 < e;
      assert 0.0 < d * e;
      assert x * x - y * y == d * e;
    }
  }

  /**
   * Gamma correction of a tone-mapped component: 0 stays 0, brighter stays at least
   * as bright, and nothing below 1 saturates, so the byte is `floor(255.99 * sqrt v)`.
   */
  lemma GammaByteOfUnit(a: real, b: real, sqrt: real -> real)
    requires IsSqrt(sqrt) && 0.0 <= a <= b < 1.0
    ensures GammaByte(0.0, sqrt) == 0
    ensures GammaByte(a, sqrt) <= GammaByte(b, sqrt)
    ensures GammaByte(b, sqrt) == (255.99 * sqrt(b)).Floor
  {
    SqrtMonotone(a, b, sqrt);
    SqrtMonotone(0.0, 0.0, sqrt);
    assert sqrt(0.0) * sqrt(0.0) == 0.0;
    MulMonotoneReal(sqrt(a), sqrt(b), 255.99);
    MulMonotoneReal(sqrt(b), 1.0, 255.99);
  }

  /** The number of `chunks(4)`: the last chunk may be short. */
  function NumChunks(len: nat): nat {
    (len + 3) / 4
  }

  /** The colour of chunk `n`: its first three floats. */
  function ChunkColour(buffer: seq<real>, n: nat): Vec3
    requires 4 * n + 2 < |buffer|
  {
    Vec3(buffer[4 * n], buffer[4 * n + 1], buffer[4 * n + 2])
  }

  /**
   * What the conversion needs: every chunk has the three floats it reads (a shorter
   * last chunk panics), and no tone-map denominator is zero (which would make a NaN).
   */
  predicate Convertible(buffer: seq<real>) {
    (|buffer| % 4 == 0 || |buffer| % 4 == 3) &&
    forall n | 0 <= n < |buffer| && 4 * n + 2 < |buffer| :: NoZeroComponent(AddFloat(Scale(ChunkColour(buffer, n), EXPOSURE), 1.0))
  }

  /** Every chunk of a convertible buffer holds a colour. */
  lemma ChunkInBuffer(buffer: seq<real>, n: nat)
    requires |buffer| % 4 == 0 || |buffer| % 4 == 3
    requires n < NumChunks(|buffer|)
    ensures 4 * n + 2 < |buffer|
  {
    var q := |buffer| / 4;
    assert |buffer| == 4 * q + |buffer| % 4;
    if |buffer| % 4 == 0 {
      DivOfMultiplePlus(q, 4, 3);
      assert NumChunks(|buffer|) == q;
    } else {
      DivOfMultiplePlus(q + 1, 4, 2);
      assert NumChunks(|buffer|) == q + 1;
    }
  }

  /** The three bytes chunk `n` becomes: blue, green, red after tone mapping and gamma correction. */
  function ChunkBytes(buffer: seq<real>, n: nat, sqrt: real -> real): (bytes: seq<U8>)
    requires IsSqrt(sqrt) && Convertible(buffer) && 4 * n + 2 < |buffer|
    ensures |bytes| == 3
  {
    var t := ReinhardTonemap(ChunkColour(buffer, n));
    [GammaByte(t.z, sqrt), GammaByte(t.y, sqrt), GammaByte(t.x, sqrt)]
  }

  /**
   * `convert_to_rgb_u8_and_gamma_correct`: each chunk of four floats becomes three
   * bytes, pushed in chunk order, so chunk `n` lands at `3 * n`.
   */
  method ConvertToRgbU8AndGammaCorrect(buffer: seq<real>, sqrt: real -> real) returns (output: seq<U8>)
    requires IsSqrt(sqrt) && Convertible(buffer)
    ensures |output| == 3 * NumChunks(|buffer|)
    ensures forall n | 0 <= n < NumChunks(|buffer|) ::
              4 * n + 2 < |buffer| && output[3 * n..3 * n + 3] == ChunkBytes(buffer, n, sqrt)
  {
    output := [];
    var n := 0;
    while n < NumChunks(|buffer|)
      invariant 0 <= n <= NumChunks(|buffer|)
      invariant |output| == 3 * n
      invariant forall m | 0 <= m < n :: 4 * m + 2 < |buffer| && output[3 * m..3 * m + 3] == ChunkBytes(buffer, m, sqrt)
    {
      ChunkInBuffer(buffer, n);
      var colour := ReinhardTonemap(ChunkColour(buffer, n));
      var before := output;
      output := output + [GammaByte(colour.z, sqrt), GammaByte(colour.y, sqrt), GammaByte(colour.x, sqrt)];
      forall m | 0 <= m < n
        ensures output[3 * m..3 * m + 3] == before[3 * m..3 * m + 3]
      {
      }
      n := n + 1;
    }
  }

  /**
   * A non-negative buffer is always convertible when its length allows, and each of
   * its pixels becomes bytes that are 0 for black and never saturate.
   */
  lemma ConvertNonNegative(buffer: seq<real>, n: nat, sqrt: real -> real)
    requires IsSqrt(sqrt) && (|buffer| % 4 == 0 || |buffer| % 4 == 3)
    requires forall k | 0 <= k < |buffer| :: 0.0 <= buffer[k]
    requires n < NumChunks(|buffer|)
    ensures Convertible(buffer)
    ensures 4 * n + 2 < |buffer|
    ensures var t := ReinhardTonemap(ChunkColour(buffer, n));
      ChunkBytes(buffer, n, sqrt) == [(255.99 * sqrt(t.z)).Floor, (255.99 * sqrt(t.y)).Floor, (255.99 * sqrt(t.x)).Floor]
    ensures ChunkColour(buffer, n) == FromFloat(0.0) ==> ChunkBytes(buffer, n, sqrt) == [0, 0, 0]
  {
    forall m | 0 <= m < |buffer| && 4 * m + 2 < |buffer|
      ensures NoZeroComponent(AddFloat(Scale(ChunkColour(buffer, m), EXPOSURE), 1.0))
    {
      ReinhardInUnitCube(ChunkColour(buffer, m));
    }
    ChunkInBuffer(buffer, n);
    var colour := ChunkColour(buffer, n);
    ReinhardInUnitCube(colour);
    var t := ReinhardTonemap(colour);
    GammaByteOfUnit(0.0, t.x, sqrt);
    GammaByteOfUnit(0.0, t.y, sqrt);
    GammaByteOfUnit(0.0, t.z, sqrt);
    if colour == FromFloat(0.0) {
      ToneBounds(0.0, 0.0);
      assert t == FromFloat(0.0);
    }
  }
}
