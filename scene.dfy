/**
  The transforms of a scene as the engine mutates them. Each method of `Scene`
  performs one member function of wiSceneComponents::Transform on the
  transform with handle `h`, changing the scene's maps step by step as the
  engine changes the transform's fields, and is proved to leave exactly the
  graph that the matching function of Edits, Updates or Poses describes.
*/
module Scenes {
  import opened Wrappers
  import opened Math
  import opened Hierarchy
  import opened OrderedSet
  import opened Transforms
  import opened Arena
  import opened Edits
  import opened Updates
  import opened Poses
  import Queries

  class Scene {
    /** Each live transform's parent pointer. */
    var parent: ParentMap
    /** Each live transform's children set. */
    var kids: KidMap
    /** Each live transform's own fields. */
    var nodes: map<Handle, Transform>
    /** Node::__Unique_ID_Counter: the next ID to hand out. */
    var counter: nat

    /** The scene graph as a value. */
    ghost function State(): Graph
      reads this
    {
      Graph(parent, kids, nodes)
    }

    ghost predicate Valid()
      reads this
    {
      WellFormed(State(), counter)
    }

    /** An empty scene, with the ID counter at zero. */
    constructor ()
      ensures Valid() && nodes == map[] && counter == 0
    {
      parent := map[];
      kids := map[];
      nodes := map[];
      counter := 0;
    }

    /**
      Node::Node and Transform::Transform: the new transform takes the counter's
      value as its ID (which no live transform has) and the counter moves on by
      one; it starts with no parent, no children, empty names and a cleared pose.
    */
    method AddTransform() returns (h: Handle)
      requires Valid()
      modifies this
      ensures Valid()
      ensures h == old(counter) && counter == old(counter) + 1
      ensures h !in old(nodes) && forall k :: k in old(nodes) ==> k < h
      ensures State() == Graph(old(parent)[h := None], old(kids)[h := []], old(nodes)[h := NewTransform(h)])
    {
      h := counter;
      counter := counter + 1;
      AddNode(parent, kids, h);
      parent := parent[h := None];
      kids := kids[h := []];
      nodes := nodes[h := NewTransform(h)];
    }

    /** applyTransform(t, r, s) on `h`: only `h`'s record changes, by ApplyFlags. */
    method ApplyTransform(h: Handle, t: int, r: int, s: int)
      requires Valid() && h in nodes
      modifies this
      ensures Valid() && counter == old(counter)
      ensures State() == old(State()).(nodes := old(nodes)[h := ApplyFlags(old(nodes)[h], t, r, s)])
    {
      nodes := nodes[h := ApplyFlags(nodes[h], t, r, s)];
    }

    /** detach() on `h`. */
    method Detach(h: Handle)
      requires Valid() && h in nodes
      modifies this
      ensures Valid() && counter == old(counter)
      ensures State() == DetachFrom(old(State()), h)
    {
      ghost var g := State();
      if parent[h].Some? {
        var p := parent[h].value;
        if p in kids && h in kids[p] {
          kids := kids[p := Erase(kids[p], h)];
        }
        var x := nodes[h];
        nodes := nodes[h := ApplyFlags(x, x.attachment.copyT, x.attachment.copyR, x.attachment.copyS)];
      }
      parent := parent[h := None];
      DetachKeepsWellFormed(g, counter, h);
    }

    /** attachTo(p, copyT, copyR, copyS) on `h`; `None` stands for a null parent. */
    method AttachTo(math: MathLib, h: Handle, p: Option<Handle>, copyT: int, copyR: int, copyS: int)
      requires Valid() && h in nodes && (p.Some? ==> p.value in nodes)
      modifies this
      ensures Valid() && counter == old(counter)
      ensures State() == AttachedTo(math, old(State()), h, p, copyT, copyR, copyS)
    {
      if p.Some? {
        if parent[h].Some? {
          Detach(h);
        }
        Adopt(math, h, p.value, copyT, copyR, copyS);
      }
    }

    /** The rest of attachTo(p) once `h` has no parent: link `h` and `p` and record what `h` copies from `p`. */
    method Adopt(math: MathLib, h: Handle, p: Handle, copyT: int, copyR: int, copyS: int)
      requires Valid() && h in nodes && p in nodes && parent[h].None?
      modifies this
      ensures Valid() && counter == old(counter)
      ensures State() == Adopted(math, old(State()), h, p, copyT, copyR, copyS)
    {
      AttachKeepsWellFormed(math, State(), counter, h, p, copyT, copyR, copyS);
      parent := parent[h := Some(p)];
      nodes := nodes[h := Attached(math, nodes[h], nodes[p], copyT, copyR, copyS)];
      kids := kids[p := Insert(kids[p], h)];
    }

    /**
      detachChild(child) on `h`: with `None` (a null child) every child is
      detached in turn and the children set is cleared; otherwise `child` is
      detached when it is one of `h`'s children.
    */
    method DetachChild(h: Handle, child: Option<Handle>)
      requires Valid() && h in nodes
      modifies this
      ensures Valid() && counter == old(counter)
      ensures child.None? ==> State() == DetachedChildren(old(State()), h)
      ensures child.Some? ==> State() == DetachedChild(old(State()), h, child.value)
    {
      match child
      case None => DetachChildren(h);
      case Some(c) => DetachOneChild(h, c);
    }

    /** detachChild() with a null child on `h`: detach a copy of the children set, one by one, then clear it. */
    method DetachChildren(h: Handle)
      requires Valid() && h in nodes
      modifies this
      ensures Valid() && counter == old(counter)
      ensures State() == DetachedChildren(old(State()), h)
    {
      ghost var g := State();
      if kids[h] == [] {
        return;
      }
      LinkedChildren(g, h);
      var del := kids[h];
      DetachInTurn(del);
      kids := kids[h := []];
      DetachedChildrenKeepsWellFormed(g, counter, h);
    }

    /** The loop of detachChild(): detach() on each handle of `del`, in order. */
    method DetachInTurn(del: seq<Handle>)
      requires Valid() && forall c :: c in del ==> c in nodes
      modifies this
      ensures Valid() && counter == old(counter)
      ensures State() == DetachEach(old(State()), del)
    {
      ghost var g := State();
      var i := 0;
      while i < |del|
        invariant 0 <= i <= |del|
        invariant Valid() && counter == old(counter)
        invariant State() == DetachEach(g, del[..i])
      {
        DetachEachStep(g, del, i);
        Detach(del[i]);
        i := i + 1;
      }
      assert del[..|del|] == del;
    }

    /** detachChild(c) on `h`: `c` is detached when it is one of `h`'s children. */
    method DetachOneChild(h: Handle, c: Handle)
      requires Valid() && h in nodes
      modifies this
      ensures Valid() && counter == old(counter)
      ensures State() == DetachedChild(old(State()), h, c)
    {
      ghost var g := State();
      DetachedChildEffect(g, counter, h, c);
      if c in kids[h] {
        Detach(c);
      }
    }

    /** The destructor of `h`: detach(), detachChild(), and `h` is gone. */
    method Destroy(h: Handle)
      requires Valid() && h in nodes
      modifies this
      ensures Valid() && counter == old(counter)
      ensures State() == Destroyed(old(State()), h)
    {
      ghost var g := State();
      Detach(h);
      DetachChild(h, None);
      parent := parent - {h};
      kids := kids - {h};
      nodes := nodes - {h};
      DestroyKeepsWellFormed(g, counter, h);
    }

    /** UpdateTransform on `h`: `h` is refreshed, then each child, in set order, updates its subtree. */
    method UpdateTransform(math: MathLib, h: Handle)
      requires Valid() && Acyclic(parent) && h in nodes
      modifies this
      ensures Valid() && counter == old(counter) && parent == old(parent) && kids == old(kids)
      ensures nodes == Updated(math, old(State()), h)
      decreases Span(parent) - Depth(parent, h)
    {
      ghost var g := State();
      LinkedChildrenOf(g, h);
      nodes := nodes[h := Refresh(math, nodes[h], ParentRecord(parent, nodes, h))];
      ghost var g1 := State();
      assert Valid();
      var cs := kids[h];
      var i := 0;
      while i < |cs|
        invariant 0 <= i <= |cs|
        invariant Valid() && counter == old(counter) && parent == g.parent && kids == g.kids
        invariant Queries.ChildrenOf(State(), h, cs[i..])
        invariant UpdatedAmong(math, g1, h, cs) == UpdatedAmong(math, State(), h, cs[i..])
      {
        ParentDepth(parent, cs[i]);
        UpdateTransform(math, cs[i]);
        assert cs[i..][1..] == cs[i + 1..];
        i := i + 1;
      }
    }

    /** The common tail of the pose setters: `h` takes the record `y`, then runs UpdateTransform. */
    method Repose(math: MathLib, h: Handle, y: Transform)
      requires Valid() && Acyclic(parent) && h in nodes && y.id == h
      modifies this
      ensures Valid() && counter == old(counter) && parent == old(parent) && kids == old(kids)
      ensures nodes == Reposed(math, old(State()), h, y)
    {
      nodes := nodes[h := y];
      UpdateTransform(math, h);
    }

    /** transform(t, r, s) on `h`. */
    method TransformBy(math: MathLib, h: Handle, t: Float3, r: Float4, s: Float3)
      requires Valid() && Acyclic(parent) && h in nodes
      modifies this
      ensures Valid() && counter == old(counter) && parent == old(parent) && kids == old(kids)
      ensures nodes == Transformed(math, old(State()), h, t, r, s)
    {
      Repose(math, h, Nudged(math, nodes[h], t, r, s));
    }

    /** transform(m) on `h`: nothing happens when `m` does not decompose. */
    method TransformByMatrix(math: MathLib, h: Handle, m: Float4x4)
      requires Valid() && Acyclic(parent) && h in nodes
      modifies this
      ensures Valid() && counter == old(counter) && parent == old(parent) && kids == old(kids)
      ensures nodes == TransformedByMatrix(math, old(State()), h, m)
    {
      var v := math.decompose(m);
      if v.ok {
        TransformBy(math, h, v.translation, v.rotation, v.scale);
      }
    }

    /** Translate(v) on `h`. */
    method Translate(math: MathLib, h: Handle, v: Float3)
      requires Valid() && Acyclic(parent) && h in nodes
      modifies this
      ensures Valid() && counter == old(counter) && parent == old(parent) && kids == old(kids)
      ensures nodes == Translated(math, old(State()), h, v)
    {
      TransformBy(math, h, v, IdentityQuat, One3);
    }

    /** Rotate(q) on `h`. */
    method Rotate(math: MathLib, h: Handle, q: Float4)
      requires Valid() && Acyclic(parent) && h in nodes
      modifies this
      ensures Valid() && counter == old(counter) && parent == old(parent) && kids == old(kids)
      ensures nodes == Rotated(math, old(State()), h, q)
    {
      TransformBy(math, h, Zero3, q, One3);
    }

    /** Scale(v) on `h`. */
    method Scale(math: MathLib, h: Handle, v: Float3)
      requires Valid() && Acyclic(parent) && h in nodes
      modifies this
      ensures Valid() && counter == old(counter) && parent == old(parent) && kids == old(kids)
      ensures nodes == Scaled(math, old(State()), h, v)
    {
      TransformBy(math, h, Zero3, IdentityQuat, v);
    }

    /** RotateRollPitchYaw(v) on `h`. */
    method RotateRollPitchYaw(math: MathLib, h: Handle, v: Float3)
      requires Valid() && Acyclic(parent) && h in nodes
      modifies this
      ensures Valid() && counter == old(counter) && parent == old(parent) && kids == old(kids)
      ensures nodes == Reposed(math, old(State()), h, Rolled(math, old(nodes)[h], v))
    {
      Repose(math, h, Rolled(math, nodes[h], v));
    }

    /** Lerp(a, b, t) on `h`, with `a` and `b` live transforms (either may be `h` itself). */
    method Lerp(math: MathLib, h: Handle, a: Handle, b: Handle, t: real)
      requires Valid() && Acyclic(parent) && h in nodes && a in nodes && b in nodes
      modifies this
      ensures Valid() && counter == old(counter) && parent == old(parent) && kids == old(kids)
      ensures nodes == Reposed(math, old(State()), h, Blended(math, old(nodes)[h], old(nodes)[a], old(nodes)[b], t))
    {
      Repose(math, h, Blended(math, nodes[h], nodes[a], nodes[b], t));
    }

    /** CatmullRom(a, b, c, d, t) on `h`, with `a` to `d` live transforms. */
    method CatmullRom(math: MathLib, h: Handle, a: Handle, b: Handle, c: Handle, d: Handle, t: real)
      requires Valid() && Acyclic(parent) && h in nodes && a in nodes && b in nodes && c in nodes && d in nodes
      modifies this
      ensures Valid() && counter == old(counter) && parent == old(parent) && kids == old(kids)
      ensures nodes == Reposed(math, old(State()), h,
                               Splined(math, old(nodes)[h], old(nodes)[a], old(nodes)[b], old(nodes)[c], old(nodes)[d], t))
    {
      Repose(math, h, Splined(math, nodes[h], nodes[a], nodes[b], nodes[c], nodes[d], t));
    }
  }
}
