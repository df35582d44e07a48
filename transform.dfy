/**
  One scene-graph transform (wiSceneComponents::Transform, which extends Node)
  as a record, and the operations that change a single record: the channel copy
  done on detach, the additive `transform` update, and one node's step of the
  world-matrix recomputation.
*/
module Transforms {
  import opened Wrappers
  import opened Math

  /**
    A set of pose channels. The source keeps three such sets:
    the rest pose (translation_rest, rotation_rest, scale_rest, world_rest),
    the world pose (translation, rotation, scale, world) and its
    previous-frame shadow (translationPrev, rotationPrev, scalePrev, worldPrev).
  */
  datatype Channels = Channels(translation: Float3, rotation: Float4, scale: Float3, matrix: Float4x4)

  /**
    What a transform records about its parent: the parent's name, the bone
    parent's name, the three copy flags (C `int`s; nonzero means "copy this
    channel") and parent_inv_rest.
  */
  datatype Attachment = Attachment(parentName: string, boneParent: string,
                                   copyT: int, copyR: int, copyS: int, parentInvRest: Float4x4)

  /**
    A transform's own data: its Node part (ID, name, layer mask), what it
    recorded at attach time, its three pose sets and its changed flag. Its
    parent pointer and children set are kept by the scene graph (module Arena).
  */
  datatype Transform = Transform(
    id: nat,
    name: string,
    layerMask: bv32,
    attachment: Attachment,
    rest: Channels,
    world: Channels,
    prev: Channels,
    hasChanged: bool)

  const ClearedPose := Channels(Zero3, IdentityQuat, One3, Identity4x4)

  /**
    A freshly constructed transform with ID `id`: Node::Node sets an empty name
    and the ID; Transform::Transform sets empty parent and bone-parent names and
    clears its pose (the scene graph gives it no parent and no children).
  */
  function NewTransform(id: nat): (t: Transform)
    ensures t.id == id && t.name == ""
    ensures t.attachment.parentName == "" && t.attachment.boneParent == "" && !t.hasChanged
    ensures t.rest == t.world == t.prev == ClearedPose
  {
    Transform(id, "", 0xFFFF_FFFF,
              Attachment("", "", 1, 1, 1, Identity4x4),
              ClearedPose, ClearedPose, ClearedPose, false)
  }

  /**
    getMatrix: the three channel flags are accepted and ignored; the result is
    always the full world matrix.
  */
  function GetMatrix(t: Transform, getTranslation: int, getRotation: int, getScale: int): (m: Float4x4)
    ensures m == t.world.matrix
  {
    t.world.matrix
  }

  /**
    applyTransform: each rest channel whose flag is nonzero is overwritten by its
    world counterpart; the others, the rest matrix and every other field stay as
    they were.
  */
  function ApplyFlags(x: Transform, t: int, r: int, s: int): (y: Transform)
    ensures y.rest.translation == if t != 0 then x.world.translation else x.rest.translation
    ensures y.rest.rotation == if r != 0 then x.world.rotation else x.rest.rotation
    ensures y.rest.scale == if s != 0 then x.world.scale else x.rest.scale
    ensures y.rest.matrix == x.rest.matrix
    ensures y == x.(rest := y.rest)
  {
    var r1 := if t != 0 then x.rest.(translation := x.world.translation) else x.rest;
    var r2 := if r != 0 then r1.(rotation := x.world.rotation) else r1;
    var r3 := if s != 0 then r2.(scale := x.world.scale) else r2;
    x.(rest := r3)
  }

  /**
    The detached node's own record after detach(): the channels it copied from
    its parent are frozen into its rest pose (with the flags stored at attach
    time). What it recorded at attach time stays.
  */
  function Detached(x: Transform): (y: Transform)
    ensures y.attachment == x.attachment
    ensures y.world == x.world && y.prev == x.prev && y.hasChanged == x.hasChanged
    ensures y.id == x.id && y.name == x.name && y.layerMask == x.layerMask
    ensures y.rest == ApplyFlags(x, x.attachment.copyT, x.attachment.copyR, x.attachment.copyS).rest
  {
    ApplyFlags(x, x.attachment.copyT, x.attachment.copyR, x.attachment.copyS)
  }

  /**
    The rest-pose part of transform(t, r, s): the node is marked changed, `t` is
    added to the rest translation, the rest rotation is multiplied by `r` and
    renormalised, and the rest scale is multiplied by `s` componentwise.
  */
  function Nudged(math: MathLib, x: Transform, t: Float3, r: Float4, s: Float3): (y: Transform)
    ensures y.hasChanged
    ensures y.rest.translation == Float3(x.rest.translation.x + t.x, x.rest.translation.y + t.y, x.rest.translation.z + t.z)
    ensures y.rest.scale == Float3(x.rest.scale.x * s.x, x.rest.scale.y * s.y, x.rest.scale.z * s.z)
    ensures y.rest.rotation == math.quatNormalize(math.quatMultiply(x.rest.rotation, r))
    ensures y == x.(hasChanged := true, rest := y.rest) && y.rest.matrix == x.rest.matrix
  {
    x.(hasChanged := true,
       rest := x.rest.(translation := Add3(x.rest.translation, t),
                       rotation := math.quatNormalize(math.quatMultiply(x.rest.rotation, r)),
                       scale := Mul3(x.rest.scale, s)))
  }

  /** The rest matrix Scaling(scale) * Rotation(rotation) * Translation(translation). */
  function RestMatrix(math: MathLib, c: Channels): (m: Float4x4)
    ensures m == math.multiply(math.multiply(math.scaling(c.scale), math.rotationMatrix(c.rotation)),
                               math.translationMatrix(c.translation))
  {
    math.multiply(math.multiply(math.scaling(c.scale), math.rotationMatrix(c.rotation)),
                  math.translationMatrix(c.translation))
  }

  /**
    One node's step of UpdateTransform, given its parent's record as it is at
    that moment. The world channels are saved into the previous-frame shadows;
    the rest matrix is recomposed; a parentless node's world channels become
    its rest channels; a parented node's world matrix is
    worldRest * parentInvRest * parent.world, decomposed into the world
    channels, and it inherits its parent's changed flag. The flag is never
    cleared, and nothing but the pose channels and the flag changes.
  */
  function Refresh(math: MathLib, x: Transform, parent: Option<Transform>): (y: Transform)
    ensures y.prev == x.world
    ensures y.rest == x.rest.(matrix := RestMatrix(math, x.rest))
    ensures parent.None? ==> y.world == y.rest && y.hasChanged == x.hasChanged
    ensures parent.Some? ==>
              && y.world.matrix == math.multiply(math.multiply(y.rest.matrix, x.attachment.parentInvRest),
                                                 parent.value.world.matrix)
              && var v := math.decompose(y.world.matrix);
                 y.world == Channels(v.translation, v.rotation, v.scale, y.world.matrix)
    ensures parent.Some? ==> y.hasChanged == (x.hasChanged || parent.value.hasChanged)
    ensures y == x.(rest := y.rest, world := y.world, prev := y.prev, hasChanged := y.hasChanged)
  {
    var rest := x.rest.(matrix := RestMatrix(math, x.rest));
    match parent
    case Some(p) =>
      var w := math.multiply(math.multiply(rest.matrix, x.attachment.parentInvRest), GetMatrix(p, 1, 1, 1));
      var v := math.decompose(w);
      x.(prev := x.world, rest := rest, world := Channels(v.translation, v.rotation, v.scale, w),
         hasChanged := x.hasChanged || p.hasChanged)
    case None =>
      x.(prev := x.world, rest := rest, world := rest)
  }
}
