/**
 * The uniform-buffer layout of the tonemapping pass (`Settings` in
 * src/node/tonemap.rs): one frame's uniforms occupy the uniform size rounded up to
 * the device's alignment, and frame `i` starts at `i` such frames.
 */
module TonemapSettings {
  import opened Options
  import opened MathUtil

  type U64 = x: int | 0 <= x < 0x1_0000_0000_0000_0000

  /** `size_of::<UniformArgs>()`: an `f32` exposure and three `f32` clear-colour components. */
  const UNIFORM_SIZE: nat := 16

  datatype Settings = Settings(hwAlignment: U64) {
    /**
     * `buffer_frame_size`: `((UNIFORM_SIZE - 1) / hw_alignment + 1) * hw_alignment`, the
     * least multiple of the alignment that holds the uniforms. A zero alignment divides
     * by zero, here `None`.
     */
    function BufferFrameSize(): (size: Option<nat>)
      ensures size.None? <==> hwAlignment == 0
      ensures size.Some? ==> size.value % hwAlignment == 0
      ensures size.Some? ==> UNIFORM_SIZE <= size.value < UNIFORM_SIZE + hwAlignment
      ensures size.Some? ==> forall m: nat | m % hwAlignment == 0 && UNIFORM_SIZE <= m :: size.value <= m
    {
      if hwAlignment == 0 then None
      else
        var q := (UNIFORM_SIZE - 1) / hwAlignment;
        DivOfMultiplePlus(q + 1, hwAlignment, 0);
        assert q * hwAlignment <= UNIFORM_SIZE - 1 < (q + 1) * hwAlignment;
        LeastMultiple(q, hwAlignment);
        Some((q + 1) * hwAlignment)
    }

    /** `uniform_offset(index)`: `index` frames into the buffer. */
    function UniformOffset(index: nat): (offset: Option<nat>)
      ensures offset.None? <==> hwAlignment == 0
      ensures offset.Some? ==> offset.value % hwAlignment == 0
    {
      match BufferFrameSize()
      case None => None
      case Some(size) =>
        DivOfMultiplePlus(index * (size / hwAlignment), hwAlignment, 0);
        assert size * index == index * (size / hwAlignment) * hwAlignment;
        Some(size * index)
    }
  }

  /** When `(q + 1) * a` is the first multiple of `a` past `UNIFORM_SIZE - 1`, no multiple at least `UNIFORM_SIZE` is smaller. */
  lemma LeastMultiple(q: nat, a: nat)
    requires 0 < a && q * a <= UNIFORM_SIZE - 1 < (q + 1) * a
    ensures forall m: nat | m % a == 0 && UNIFORM_SIZE <= m :: (q + 1) * a <= m
  {
    forall m: nat | m % a == 0 && UNIFORM_SIZE <= m
      ensures (q + 1) * a <= m
    {
      var k := m / a;
      assert m == k * a;
      MulMonotoneInt(k, q, a);
      MulMonotoneInt(q + 1, k, a);
    }
  }

  /**
   * The uniforms of different frames in flight never overlap, and all of them fit in
   * the buffer of `buffer_frame_size * frames` bytes the pipeline allocates.
   */
  lemma UniformRangesDisjoint(s: Settings, frames: nat, i: nat, j: nat)
    requires s.hwAlignment != 0 && i < j < frames
    ensures s.UniformOffset(i).value + UNIFORM_SIZE <= s.UniformOffset(j).value
    ensures s.UniformOffset(j).value + UNIFORM_SIZE <= s.BufferFrameSize().value * frames
  {
    var size := s.BufferFrameSize().value;
    assert s.UniformOffset(i) == Some(size * i) && s.UniformOffset(j) == Some(size * j);
    assert UNIFORM_SIZE <= size;
    MulMonotoneInt(i + 1, j, size);
    MulMonotoneInt(j + 1, frames, size);
    assert size * i + size == (i + 1) * size && size * j + size == (j + 1) * size;
  }

  /** With an alignment of 256 bytes, as many devices demand, each frame takes 256 bytes. */
  lemma TypicalAlignment()
    ensures Settings(256).BufferFrameSize() == Some(256)
    ensures Settings(1).BufferFrameSize() == Some(UNIFORM_SIZE)
    ensures Settings(256).UniformOffset(2) == Some(512)
  {
  }
}
