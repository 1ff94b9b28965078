/** The scalar helpers of src/math/mod.rs: interpolation, clamping and tile-size rounding. */
module MathUtil {
  import opened Vec3Math
  import opened Options

  /** The unsigned 32-bit integers the factor helpers work on. */
  type U32 = x: int | 0 <= x < 0x1_0000_0000

  /** `u32::MAX`, which a float-to-integer cast of +infinity saturates to. */
  const U32_MAX: U32 := 0xFFFF_FFFF

  /** `lerp` on scalars: `a*(1-t) + b*t`. */
  function Lerp(a: real, b: real, t: real): (r: real)
    ensures r - a == (b - a) * t
  {
    a * (1.0 - t) + b * t
  }

  /** `lerp` on vectors, which the colour code uses. */
  function LerpVec(a: Vec3, b: Vec3, t: real): (r: Vec3)
    ensures r == Vec3(Lerp(a.x, b.x, t), Lerp(a.y, b.y, t), Lerp(a.z, b.z, t))
  {
    Add(Scale(a, 1.0 - t), Scale(b, t))
  }

  /** Interpolation hits its end points at 0 and 1 and stays between them in between. */
  lemma LerpEndPoints(a: real, b: real, t: real)
    ensures Lerp(a, b, 0.0) == a && Lerp(a, b, 1.0) == b
    ensures 0.0 <= t <= 1.0 && a <= b ==> a <= Lerp(a, b, t) <= b
  {
    var d := b - a;
    assert Lerp(a, b, t) - a == d * t;
    if 0.0 <= t <= 1.0 && a <= b {
      MulMonotoneReal(t, 1.0, d);
      MulMonotoneReal(0.0, t, d);
      assert t * d == d * t && 1.0 * d == d && 0.0 * d == 0.0;
    }
  }

  lemma MulMonotoneReal(a: real, b: real, c: real)
    ensures 0.0 <= c && a <= b ==> a * c <= b * c
  {
  }

  /** `clamp`: the upper bound is applied first, then the lower bound. */
  function Clamp(a: real, minimum: real, maximum: real): (r: real)
    ensures minimum <= maximum ==> minimum <= r <= maximum
    ensures minimum <= a <= maximum ==> r == a
    ensures r == a || r == minimum || r == maximum
  {
    var b := if a > maximum then maximum else a;
    if b < minimum then minimum else b
  }

  lemma ClampIdempotent(a: real, minimum: real, maximum: real)
    requires minimum <= maximum
    ensures Clamp(Clamp(a, minimum, maximum), minimum, maximum) == Clamp(a, minimum, maximum)
  {
  }

  /**
   * `round_down_to_closest_factor(r, n)`: `n / floor(n / r)`. The quotient of two
   * non-negative integers floors to their integer quotient; `n / 0.0` is +infinity,
   * which the cast saturates to `u32::MAX`, and `0 / 0.0` is NaN, which casts to 0.
   * A zero divisor is a panic, here `None`.
   */
  function RoundDownToClosestFactor(r: U32, n: U32): (res: Option<U32>)
    ensures res.None? <==> (r == 0 && n == 0) || n < r
    ensures res.Some? ==> res.value <= n
  {
    var factor: int := if r == 0 then (if n == 0 then 0 else U32_MAX) else n / r;
    DivIsZero(n, r);
    if factor == 0 then None else DivAtMost(n, factor); Some(n / factor)
  }

  /**
   * `round_up_to_closest_factor(r, n)`: `n / round(n / r)`, where `round` takes halves
   * away from zero, so for non-negative quotients it is `floor(n/r + 1/2)`.
   */
  function RoundUpToClosestFactor(r: U32, n: U32): (res: Option<U32>)
    ensures res.Some? ==> res.value <= n
  {
    var factor: int := if r == 0 then (if n == 0 then 0 else U32_MAX) else (2 * n + r) / (2 * r);
    if factor == 0 then None else DivAtMost(n, factor); Some(n / factor)
  }

  /** An integer quotient is zero exactly when the dividend is below the divisor. */
  lemma DivIsZero(n: nat, d: nat)
    ensures 0 < d ==> (n / d == 0 <==> n < d)
  {
    if 0 < d && n >= d {
      DivAtLeast(n, d, 1);
    }
  }

  /** Dividing by a positive integer never increases a natural number. */
  lemma DivAtMost(n: nat, d: nat)
    requires 0 < d
    ensures 0 <= n / d <= n
  {
    MulMonotoneInt(1, d, n / d);
  }

  lemma MulMonotoneInt(a: int, b: int, c: int)
    ensures 0 <= c && a <= b ==> a * c <= b * c
  {
  }

  /** A multiple of `q` not exceeding `n` is bounded by `n / q` multiples. */
  lemma DivAtLeast(n: nat, q: nat, r: nat)
    requires 0 < q && q * r <= n
    ensures r <= n / q
  {
    var m := n / q;
    assert n < q * (m + 1);
    MulMonotoneInt(m + 1, r, q);
  }

  /**
   * For `0 < r <= n` the rounded size is defined, at least `r` and below `2r`, and
   * `floor(n/r)` tiles of it fit into `n`; a divisor of `n` is kept as it is.
   */
  lemma RoundDownBounds(r: U32, n: U32)
    requires 0 < r <= n
    ensures RoundDownToClosestFactor(r, n).Some?
    ensures r <= RoundDownToClosestFactor(r, n).value < 2 * r
    ensures RoundDownToClosestFactor(r, n).value * (n / r) <= n
    ensures n % r == 0 ==> RoundDownToClosestFactor(r, n).value == r
  {
    var q := n / r;
    DivAtLeast(n, r, 1);
    QuotientBrackets(n, r);
    var d := n / q;
    DivAtLeast(n, q, r);
    QuotientBrackets(n, q);
    BelowTwice(n, q, r, d);
    assert RoundDownToClosestFactor(r, n) == Some(d);
    if n % r == 0 {
      assert n == r * q;
      DivOfMultiplePlus(r, q, 0);
    }
  }

  /** `n / r` whole copies of `r` fit into `n`, one more does not. */
  lemma QuotientBrackets(n: nat, r: nat)
    requires 0 < r
    ensures (n / r) * r <= n < (n / r + 1) * r
  {
    var q := n / r;
    assert n == q * r + n % r;
  }

  /** When `d` copies of `q >= 1` fit below `(q + 1) * r`, `d` is below `2r`. */
  lemma BelowTwice(n: nat, q: nat, r: nat, d: nat)
    requires 1 <= q && d * q <= n < (q + 1) * r
    ensures d < 2 * r
  {
    MulMonotoneInt(q + 1, 2 * q, r);
    assert (2 * q) * r == (2 * r) * q;
    MulMonotoneInt(2 * r, d, q);
  }

  /** Integer division undoes `k*d + m` for a remainder `0 <= m < d`. */
  lemma DivOfMultiplePlus(k: int, d: int, m: int)
    requires 0 < d && 0 <= m < d
    ensures (k * d + m) / d == k && (k * d + m) % d == m
  {
    var x := k * d + m;
    var z := x / d - k;
    assert z * d == m - x % d;
    MulMonotoneInt(1, z, d);
    MulMonotoneInt(z, -1, d);
  }

  /** Rounding to nearest divides by zero exactly when `r > 2n`. */
  lemma RoundUpPanics(r: U32, n: U32)
    requires 0 < r
    ensures RoundUpToClosestFactor(r, n).None? <==> 2 * n < r
  {
    var q := (2 * n + r) / (2 * r);
    if 2 * n < r {
      assert 2 * n + r < 2 * r;
    } else {
      assert 2 * r <= 2 * n + r;
      DivAtLeast(2 * n + r, 2 * r, 1);
    }
  }

  /** When rounding to nearest is defined, that many tiles of the result fit into `n`, and a divisor is kept. */
  lemma RoundUpBounds(r: U32, n: U32)
    requires 0 < r <= 2 * n
    ensures RoundUpToClosestFactor(r, n).Some?
    ensures RoundUpToClosestFactor(r, n).value * ((2 * n + r) / (2 * r)) <= n
    ensures n % r == 0 ==> RoundUpToClosestFactor(r, n).value == r
  {
    RoundUpPanics(r, n);
    var q := (2 * n + r) / (2 * r);
    assert 0 < q;
    assert RoundUpToClosestFactor(r, n).value == n / q;
    assert (n / q) * q <= n;
    if n % r == 0 {
      var k := n / r;
      assert n == k * r;
      assert 2 * n + r == k * (2 * r) + r;
      DivOfMultiplePlus(k, 2 * r, r);
      assert q == k;
      assert n / k == r by {
        DivOfMultiplePlus(r, k, 0);
      }
    }
  }

  /** The smallest divisor of `n` that is at least `r`. */
  function DividingFactorFrom(r: nat, n: nat): (d: nat)
    requires 0 < r <= n
    ensures r <= d <= n && n % d == 0
    ensures forall k | r <= k < d :: n % k != 0
    decreases n - r
  {
    if n % r == 0 then r else DividingFactorFrom(r + 1, n)
  }

  /**
   * The tile size the caller evidently wants ("so the number of tasks divides the
   * image exactly"): the smallest divisor of `n` that is at least `r`, with the same
   * failure cases as the source for a zero or oversized request.
   */
  function RoundToDividingFactor(r: U32, n: U32): (res: Option<U32>)
    ensures res.None? <==> r == 0 || n < r
    ensures res.Some? ==> r <= res.value <= n && n % res.value == 0
    ensures res.Some? ==> forall k | r <= k < res.value :: n % k != 0
    ensures res.Some? && n % r == 0 ==> res.value == r
  {
    if r == 0 || n < r then None else Some(DividingFactorFrom(r, n))
  }

  /** As written, the rounded size need not divide the extent: 7 columns in tiles of 3 leave one out. */
  lemma RoundDownNotAFactor()
    ensures RoundDownToClosestFactor(3, 7) == Some(3)
    ensures 7 % 3 != 0 && (7 / 3) * 3 < 7
    ensures RoundToDividingFactor(3, 7) == Some(7)
  {
    assert DividingFactorFrom(3, 7) == DividingFactorFrom(4, 7);
  }

  /** For the renderer's own 1280x720 image and 120-pixel tiles the two agree. */
  lemma RoundingAgreesOnDefaultImage()
    ensures RoundDownToClosestFactor(120, 1280) == RoundToDividingFactor(120, 1280) == Some(128)
    ensures RoundDownToClosestFactor(120, 720) == RoundToDividingFactor(120, 720) == Some(120)
  {
    assert DividingFactorFrom(120, 1280) == DividingFactorFrom(128, 1280) by {
      assert 1280 % 120 != 0 && 1280 % 121 != 0 && 1280 % 122 != 0 && 1280 % 123 != 0;
      assert 1280 % 124 != 0 && 1280 % 125 != 0 && 1280 % 126 != 0 && 1280 % 127 != 0;
      assert DividingFactorFrom(120, 1280) == DividingFactorFrom(121, 1280);
      assert DividingFactorFrom(121, 1280) == DividingFactorFrom(122, 1280);
      assert DividingFactorFrom(122, 1280) == DividingFactorFrom(123, 1280);
      assert DividingFactorFrom(123, 1280) == DividingFactorFrom(124, 1280);
      assert DividingFactorFrom(124, 1280) == DividingFactorFrom(125, 1280);
      assert DividingFactorFrom(125, 1280) == DividingFactorFrom(126, 1280);
      assert DividingFactorFrom(126, 1280) == DividingFactorFrom(127, 1280);
      assert DividingFactorFrom(127, 1280) == DividingFactorFrom(128, 1280);
    }
  }
}
