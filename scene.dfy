/**
 * The scene builder (src/scene.rs): a stack of primitives onto which a scene is
 * pushed, where the last primitive pushed can be wrapped in a transform before the
 * next one is added, and which finally becomes one hitable (its last element) or a
 * bounding volume hierarchy over all of them.
 */
module Scene {
  import opened Vec3Math
  import opened AabbMath
  import opened Options
  import opened Bvh

  /**
   * A scene entry: a primitive of type `P` as it was added, or an entry wrapped in
   * `FlipNormals`, `Translate` (by an offset) or `RotateY` (by an angle in degrees).
   * The wrappers' own hit logic is not part of this model, only which wrapper holds what.
   */
  datatype Shape<P> =
    | Primitive(p: P)
    | Flipped(inner: Shape<P>)
    | Translated(inner: Shape<P>, offset: Vec3)
    | RotatedY(inner: Shape<P>, angle: real)

  /** Which wrapper a builder call applies. */
  datatype Wrapper = FlipNormals | Translate(offset: Vec3) | RotateY(angle: real)

  function Wrap<P>(w: Wrapper, s: Shape<P>): (r: Shape<P>)
    ensures !r.Primitive? && r.inner == s
  {
    match w
    case FlipNormals => Flipped(s)
    case Translate(offset) => Translated(s, offset)
    case RotateY(angle) => RotatedY(s, angle)
  }

  /**
   * The list after popping its last entry and pushing it back wrapped: only the last
   * entry changes, and an empty list stays empty.
   */
  function WrapLast<P>(scene: seq<Shape<P>>, w: Wrapper): (r: seq<Shape<P>>)
    ensures |r| == |scene|
    ensures forall i | 0 <= i < |scene| - 1 :: r[i] == scene[i]
    ensures |scene| > 0 ==> !r[|r| - 1].Primitive? && r[|r| - 1].inner == scene[|scene| - 1]
    ensures |scene| > 0 ==> r[|r| - 1] == Wrap(w, scene[|scene| - 1])
  {
    if |scene| == 0 then scene else scene[..|scene| - 1] + [Wrap(w, scene[|scene| - 1])]
  }

  /** Wrapping right after adding wraps exactly the entry just added. */
  lemma WrapAfterAdd<P>(scene: seq<Shape<P>>, s: Shape<P>, w: Wrapper)
    ensures WrapLast(scene + [s], w) == scene + [Wrap(w, s)]
  {
    assert (scene + [s])[..|scene|] == scene;
  }

  /** Wrapping twice nests the second wrapper around the first, leaving the rest alone. */
  lemma WrapTwice<P>(scene: seq<Shape<P>>, w1: Wrapper, w2: Wrapper)
    requires |scene| > 0
    ensures WrapLast(WrapLast(scene, w1), w2) == scene[..|scene| - 1] + [Wrap(w2, Wrap(w1, scene[|scene| - 1]))]
  {
    var once := WrapLast(scene, w1);
    assert once[..|once| - 1] == scene[..|scene| - 1];
  }

  class SceneBuilder<P(!new)> {
    var scene: seq<Shape<P>>

    /** `new`: an empty scene. */
    constructor ()
      ensures scene == []
    {
      scene := [];
    }

    /** `add_hitable`: pushes onto the end, keeping every earlier entry. */
    method AddHitable(hitable: Shape<P>)
      modifies this
      ensures scene == old(scene) + [hitable]
      ensures |scene| == |old(scene)| + 1 && scene[..|old(scene)|] == old(scene)
    {
      scene := scene + [hitable];
    }

    /** Pops the last entry and, when there was one, pushes it back wrapped. */
    method WrapLastEntry(w: Wrapper)
      modifies this
      ensures scene == WrapLast(old(scene), w)
    {
      if |scene| > 0 {
        var last := scene[|scene| - 1];
        scene := scene[..|scene| - 1];
        scene := scene + [Wrap(w, last)];
      }
    }

    /** `flip_normals`: wraps the last entry in `FlipNormals`; nothing happens on an empty builder. */
    method FlipNormals()
      modifies this
      ensures scene == WrapLast(old(scene), Wrapper.FlipNormals)
    {
      WrapLastEntry(Wrapper.FlipNormals);
    }

    /** `translate`: wraps the last entry in `Translate` by `translation`. */
    method Translate(translation: Vec3)
      modifies this
      ensures scene == WrapLast(old(scene), Wrapper.Translate(translation))
    {
      WrapLastEntry(Wrapper.Translate(translation));
    }

    /** `rotate_y`: wraps the last entry in `RotateY` by `angle`. */
    method RotateY(angle: real)
      modifies this
      ensures scene == WrapLast(old(scene), Wrapper.RotateY(angle))
    {
      WrapLastEntry(Wrapper.RotateY(angle));
    }

    /**
     * `as_hitable`: the last entry; unwrapping the pop of an empty builder panics,
     * here `None`.
     */
    method AsHitable() returns (last: Option<Shape<P>>)
      ensures last.None? <==> |scene| == 0
      ensures last.Some? ==> last.value == scene[|scene| - 1] && last.value in scene
    {
      if |scene| == 0 {
        last := None;
      } else {
        last := Some(scene[|scene| - 1]);
      }
    }

    /**
     * `as_bvh` and `as_bvh_node`: a hierarchy over the whole list for the time interval
     * (0, 1). The build needs a non-empty list.
     */
    method AsBvh(bbox: (Shape<P>, real, real) -> AABB, rng: nat -> real, next: nat) returns (tree: Bvh<Shape<P>>, used: nat)
      requires |scene| >= 1
      ensures (tree, used) == FromList(scene, bbox, 0.0, 1.0, rng, next)
      ensures tree.Node? && WellBuilt(tree, bbox, 0.0, 1.0)
      ensures forall s :: s in Leaves(tree) <==> s in scene
    {
      var built := FromList(scene, bbox, 0.0, 1.0, rng, next);
      tree, used := built.0, built.1;
    }
  }
}
