/**
  The operations that set a transform's rest pose and then run UpdateTransform
  on it: transform(t, r, s) and its matrix form, Translate, Rotate, Scale,
  RotateRollPitchYaw, Lerp and CatmullRom. Each marks the transform changed,
  so UpdateTransform then marks its whole subtree changed.
*/
module Poses {
  import opened Wrappers
  import opened Math
  import opened Hierarchy
  import opened Transforms
  import opened Arena
  import opened Updates

  /** The records after `h` takes the record `y` and then runs UpdateTransform. */
  function Reposed(math: MathLib, g: Graph, h: Handle, y: Transform): (n: map<Handle, Transform>)
    requires Linked(g) && Acyclic(g.parent) && h in g.nodes
    ensures n.Keys == g.nodes.Keys
  {
    Updated(math, g.(nodes := g.nodes[h := y]), h)
  }

  /** After taking `y` and updating, `h` keeps `y`'s rest channels, with the rest matrix recomposed from them. */
  lemma ReposedRest(math: MathLib, g: Graph, h: Handle, y: Transform)
    requires Linked(g) && Acyclic(g.parent) && h in g.nodes
    ensures Reposed(math, g, h, y)[h].rest == y.rest.(matrix := RestMatrix(math, y.rest))
  {
    UpdatedValues(math, g.(nodes := g.nodes[h := y]), h);
  }

  /** Taking `y` and updating changes no record outside `h`'s subtree. */
  lemma ReposedFrame(math: MathLib, g: Graph, h: Handle, y: Transform)
    requires Linked(g) && Acyclic(g.parent) && h in g.nodes
    ensures var n := Reposed(math, g, h, y);
            forall d :: d in g.nodes && !InSubtree(g.parent, h, d) ==> n[d] == g.nodes[d]
  {
    var g' := g.(nodes := g.nodes[h := y]);
    UpdatedFrame(math, g', h);
    assert forall d :: d in g.nodes && !InSubtree(g.parent, h, d) ==> d != h;
  }

  /** When `y` is marked changed, taking it and updating marks the whole subtree of `h` changed. */
  lemma ReposedMarksSubtree(math: MathLib, g: Graph, h: Handle, y: Transform)
    requires Linked(g) && Acyclic(g.parent) && h in g.nodes && y.hasChanged
    ensures var n := Reposed(math, g, h, y);
            forall d :: d in g.nodes && InSubtree(g.parent, h, d) ==> n[d].hasChanged
  {
    var g' := g.(nodes := g.nodes[h := y]);
    UpdateKeepsChanged(math, g', h);
    forall d | d in g.nodes && InSubtree(g.parent, h, d) ensures Updated(math, g', h)[d].hasChanged {
      UpdateSpreadsChanged(math, g', h, d);
    }
  }

  /** transform(t, r, s): nudge the rest pose of `h`, then UpdateTransform. */
  function Transformed(math: MathLib, g: Graph, h: Handle, t: Float3, r: Float4, s: Float3): (n: map<Handle, Transform>)
    requires Linked(g) && Acyclic(g.parent) && h in g.nodes
    ensures n.Keys == g.nodes.Keys
  {
    Reposed(math, g, h, Nudged(math, g.nodes[h], t, r, s))
  }

  /**
    After transform(t, r, s): the rest translation of `h` has moved by `t`, its
    rest scale is multiplied componentwise by `s`, and its rest rotation is the
    normalised product with `r`.
  */
  lemma TransformedRest(math: MathLib, g: Graph, h: Handle, t: Float3, r: Float4, s: Float3)
    requires Linked(g) && Acyclic(g.parent) && h in g.nodes
    ensures var n := Transformed(math, g, h, t, r, s); var x := g.nodes[h].rest;
            && n[h].rest.translation == Add3(x.translation, t)
            && n[h].rest.scale == Mul3(x.scale, s)
            && n[h].rest.rotation == math.quatNormalize(math.quatMultiply(x.rotation, r))
  {
    ReposedRest(math, g, h, Nudged(math, g.nodes[h], t, r, s));
  }

  /** After transform(t, r, s) the whole subtree of `h` is marked changed. */
  lemma TransformedMarksSubtree(math: MathLib, g: Graph, h: Handle, t: Float3, r: Float4, s: Float3)
    requires Linked(g) && Acyclic(g.parent) && h in g.nodes
    ensures var n := Transformed(math, g, h, t, r, s);
            forall d :: d in g.nodes && InSubtree(g.parent, h, d) ==> n[d].hasChanged
  {
    ReposedMarksSubtree(math, g, h, Nudged(math, g.nodes[h], t, r, s));
  }

  /** transform(m): on a successful decomposition, transform by its parts; otherwise nothing happens. */
  function TransformedByMatrix(math: MathLib, g: Graph, h: Handle, m: Float4x4): (n: map<Handle, Transform>)
    requires Linked(g) && Acyclic(g.parent) && h in g.nodes
    ensures n.Keys == g.nodes.Keys
    ensures !math.decompose(m).ok ==> n == g.nodes
    ensures var v := math.decompose(m);
            v.ok ==> n == Transformed(math, g, h, v.translation, v.rotation, v.scale)
  {
    var v := math.decompose(m);
    if v.ok then Transformed(math, g, h, v.translation, v.rotation, v.scale) else g.nodes
  }

  /** Translate(v): transform by `v` with no rotation and unit scale. */
  function Translated(math: MathLib, g: Graph, h: Handle, v: Float3): (n: map<Handle, Transform>)
    requires Linked(g) && Acyclic(g.parent) && h in g.nodes
    ensures n.Keys == g.nodes.Keys
  {
    Transformed(math, g, h, v, IdentityQuat, One3)
  }

  /** Rotate(q): transform with no translation and unit scale. */
  function Rotated(math: MathLib, g: Graph, h: Handle, q: Float4): (n: map<Handle, Transform>)
    requires Linked(g) && Acyclic(g.parent) && h in g.nodes
    ensures n.Keys == g.nodes.Keys
  {
    Transformed(math, g, h, Zero3, q, One3)
  }

  /** Scale(v): transform with no translation and no rotation. */
  function Scaled(math: MathLib, g: Graph, h: Handle, v: Float3): (n: map<Handle, Transform>)
    requires Linked(g) && Acyclic(g.parent) && h in g.nodes
    ensures n.Keys == g.nodes.Keys
  {
    Transformed(math, g, h, Zero3, IdentityQuat, v)
  }

  /** Translate leaves the rest scale as it was. */
  lemma TranslateKeepsScale(math: MathLib, g: Graph, h: Handle, v: Float3)
    requires Linked(g) && Acyclic(g.parent) && h in g.nodes
    ensures Translated(math, g, h, v)[h].rest.scale == g.nodes[h].rest.scale
  {
    TransformedRest(math, g, h, v, IdentityQuat, One3);
  }

  /** Rotate leaves the rest translation and the rest scale as they were. */
  lemma RotateKeepsTranslationAndScale(math: MathLib, g: Graph, h: Handle, q: Float4)
    requires Linked(g) && Acyclic(g.parent) && h in g.nodes
    ensures Rotated(math, g, h, q)[h].rest.translation == g.nodes[h].rest.translation
    ensures Rotated(math, g, h, q)[h].rest.scale == g.nodes[h].rest.scale
  {
    TransformedRest(math, g, h, Zero3, q, One3);
  }

  /** Scale leaves the rest translation as it was and multiplies the rest scale by `v`. */
  lemma ScaleKeepsTranslation(math: MathLib, g: Graph, h: Handle, v: Float3)
    requires Linked(g) && Acyclic(g.parent) && h in g.nodes
    ensures Scaled(math, g, h, v)[h].rest.translation == g.nodes[h].rest.translation
    ensures Scaled(math, g, h, v)[h].rest.scale == Mul3(g.nodes[h].rest.scale, v)
  {
    TransformedRest(math, g, h, Zero3, IdentityQuat, v);
  }

  /**
    The rest-pose part of RotateRollPitchYaw(v): the rest rotation q becomes
    normalise(Z * ((X * q) * Y)), with X, Y and Z the rotations about the three
    axes by v.x, v.y and v.z; the node is marked changed.
  */
  function Rolled(math: MathLib, x: Transform, v: Float3): (y: Transform)
    ensures y.hasChanged && y.rest.translation == x.rest.translation && y.rest.scale == x.rest.scale
    ensures var qx := math.rollPitchYaw(v.x, 0.0, 0.0);
            var qy := math.rollPitchYaw(0.0, v.y, 0.0);
            var qz := math.rollPitchYaw(0.0, 0.0, v.z);
            y.rest.rotation == math.quatNormalize(math.quatMultiply(qz, math.quatMultiply(math.quatMultiply(qx, x.rest.rotation), qy)))
    ensures y == x.(hasChanged := true, rest := y.rest) && y.rest.matrix == x.rest.matrix
  {
    var qx := math.rollPitchYaw(v.x, 0.0, 0.0);
    var qy := math.rollPitchYaw(0.0, v.y, 0.0);
    var qz := math.rollPitchYaw(0.0, 0.0, v.z);
    var q := math.quatMultiply(qz, math.quatMultiply(math.quatMultiply(qx, x.rest.rotation), qy));
    x.(hasChanged := true, rest := x.rest.(rotation := math.quatNormalize(q)))
  }

  /**
    The rest-pose part of Lerp(a, b, t): the rest channels become the blends of
    `a`'s and `b`'s world channels (slerp for the rotation); the node is marked
    changed.
  */
  function Blended(math: MathLib, x: Transform, a: Transform, b: Transform, t: real): (y: Transform)
    ensures y.hasChanged && y.id == x.id && y.attachment == x.attachment
    ensures y.rest.translation == math.lerp(a.world.translation, b.world.translation, t)
    ensures y.rest.rotation == math.slerp(a.world.rotation, b.world.rotation, t)
    ensures y.rest.scale == math.lerp(a.world.scale, b.world.scale, t)
    ensures y == x.(hasChanged := true, rest := y.rest) && y.rest.matrix == x.rest.matrix
  {
    x.(hasChanged := true,
       rest := x.rest.(translation := math.lerp(a.world.translation, b.world.translation, t),
                       rotation := math.slerp(a.world.rotation, b.world.rotation, t),
                       scale := math.lerp(a.world.scale, b.world.scale, t)))
  }

  /**
    The rest-pose part of CatmullRom(a, b, c, d, t): the rest channels become
    the Catmull-Rom splines through the four world channels, the rotation
    renormalised; the node is marked changed.
  */
  function Splined(math: MathLib, x: Transform, a: Transform, b: Transform, c: Transform, d: Transform, t: real): (y: Transform)
    ensures y.hasChanged && y.id == x.id && y.attachment == x.attachment
    ensures y.rest.translation == math.catmullRom3(a.world.translation, b.world.translation,
                                                   c.world.translation, d.world.translation, t)
    ensures y.rest.rotation == math.quatNormalize(math.catmullRom4(a.world.rotation, b.world.rotation,
                                                                   c.world.rotation, d.world.rotation, t))
    ensures y.rest.scale == math.catmullRom3(a.world.scale, b.world.scale, c.world.scale, d.world.scale, t)
    ensures y == x.(hasChanged := true, rest := y.rest) && y.rest.matrix == x.rest.matrix
  {
    x.(hasChanged := true,
       rest := x.rest.(translation := math.catmullRom3(a.world.translation, b.world.translation,
                                                       c.world.translation, d.world.translation, t),
                       rotation := math.quatNormalize(math.catmullRom4(a.world.rotation, b.world.rotation,
                                                                       c.world.rotation, d.world.rotation, t)),
                       scale := math.catmullRom3(a.world.scale, b.world.scale, c.world.scale, d.world.scale, t)))
  }
}
