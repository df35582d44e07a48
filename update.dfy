/**
  UpdateTransform: a transform recomputes its own world pose from its rest pose
  and its parent's current world matrix, then every child, in set order, does
  the same for its own subtree. The lemmas say which records this changes
  (exactly the subtree's), what each becomes (its own refresh step, taken from
  its parent's new record, so parents are always refreshed before their
  children) and how the changed flag flows down the subtree.
*/
module Updates {
  import opened Wrappers
  import opened Math
  import opened Hierarchy
  import opened OrderedSet
  import opened Transforms
  import opened Arena
  import opened Queries

  /** UpdateTransform on `h`: the records of the graph afterwards. */
  function Updated(math: MathLib, g: Graph, h: Handle): (r: map<Handle, Transform>)
    requires Linked(g) && Acyclic(g.parent) && h in g.nodes
    ensures r.Keys == g.nodes.Keys
    decreases Span(g.parent) - Depth(g.parent, h), |g.kids[h]| + 1
  {
    var n := g.nodes[h := Refresh(math, g.nodes[h], ParentRecord(g.parent, g.nodes, h))];
    UpdatedAmong(math, g.(nodes := n), h, g.kids[h])
  }

  /** The loop of UpdateTransform over the children `kids` of `h`. */
  function UpdatedAmong(math: MathLib, g: Graph, h: Handle, kids: seq<Handle>): (r: map<Handle, Transform>)
    requires Linked(g) && Acyclic(g.parent) && h in g.nodes && ChildrenOf(g, h, kids)
    ensures r.Keys == g.nodes.Keys
    decreases Span(g.parent) - Depth(g.parent, h), |kids|
  {
    if kids == [] then g.nodes
    else
      ParentDepth(g.parent, kids[0]);
      var n := Updated(math, g, kids[0]);
      UpdatedAmong(math, g.(nodes := n), h, kids[1..])
  }

  /** `d` lies in the subtree of one of `kids`. */
  ghost predicate UnderAny(pm: ParentMap, kids: seq<Handle>, d: Handle)
    requires Acyclic(pm) && d in pm
  {
    exists k :: k in kids && InSubtree(pm, k, d)
  }

  /** Two children of the same node have disjoint subtrees. */
  lemma SiblingsDisjoint(pm: ParentMap, h: Handle, k1: Handle, k2: Handle, d: Handle)
    requires Acyclic(pm) && k1 in pm && k2 in pm && d in pm
    requires pm[k1] == Some(h) && pm[k2] == Some(h)
    requires InSubtree(pm, k1, d) && InSubtree(pm, k2, d)
    ensures k1 == k2
  {
    TowardChild(pm, h, k1, d);
    TowardChild(pm, h, k2, d);
  }

  /** UpdateTransform on `h` changes no record outside `h`'s subtree. */
  lemma {:induction false} UpdatedFrame(math: MathLib, g: Graph, h: Handle)
    requires Linked(g) && Acyclic(g.parent) && h in g.nodes
    ensures var r := Updated(math, g, h);
            forall d :: d in g.nodes && !InSubtree(g.parent, h, d) ==> r[d] == g.nodes[d]
    decreases Span(g.parent) - Depth(g.parent, h), |g.kids[h]| + 1
  {
    var pm := g.parent;
    var n := g.nodes[h := Refresh(math, g.nodes[h], ParentRecord(pm, g.nodes, h))];
    UpdatedAmongFrame(math, g.(nodes := n), h, g.kids[h]);
    forall d | d in g.nodes && !InSubtree(pm, h, d) ensures !UnderAny(pm, g.kids[h], d) {
      forall k | k in g.kids[h] && InSubtree(pm, k, d) ensures false {
        TowardChild(pm, h, k, d);
      }
    }
  }

  /** The loop over `kids` changes no record outside their subtrees. */
  lemma {:induction false} UpdatedAmongFrame(math: MathLib, g: Graph, h: Handle, kids: seq<Handle>)
    requires Linked(g) && Acyclic(g.parent) && h in g.nodes && ChildrenOf(g, h, kids)
    ensures var r := UpdatedAmong(math, g, h, kids);
            forall d :: d in g.nodes && !UnderAny(g.parent, kids, d) ==> r[d] == g.nodes[d]
    decreases Span(g.parent) - Depth(g.parent, h), |kids|
  {
    if kids != [] {
      var pm := g.parent;
      ParentDepth(pm, kids[0]);
      var n := Updated(math, g, kids[0]);
      UpdatedFrame(math, g, kids[0]);
      UpdatedAmongFrame(math, g.(nodes := n), h, kids[1..]);
      forall d | d in g.nodes && !UnderAny(pm, kids, d)
        ensures !InSubtree(pm, kids[0], d) && !UnderAny(pm, kids[1..], d)
      {
        assert kids[0] in kids;
        forall k | k in kids[1..] ensures k in kids {
        }
      }
    }
  }

  /**
    After UpdateTransform on `h`, every record of `h`'s subtree is its old
    record refreshed from its parent's new record: each parent is refreshed
    before its children.
  */
  lemma {:induction false} UpdatedValues(math: MathLib, g: Graph, h: Handle)
    requires Linked(g) && Acyclic(g.parent) && h in g.nodes
    ensures var r := Updated(math, g, h);
            forall d :: d in g.nodes && InSubtree(g.parent, h, d) ==>
              r[d] == Refresh(math, g.nodes[d], ParentRecord(g.parent, r, d))
    decreases Span(g.parent) - Depth(g.parent, h), |g.kids[h]| + 1, 0
  {
    var pm := g.parent;
    var n := g.nodes[h := Refresh(math, g.nodes[h], ParentRecord(pm, g.nodes, h))];
    var r := Updated(math, g, h);
    LinkedChildrenOf(g, h);
    UpdatedAmongFrame(math, g.(nodes := n), h, g.kids[h]);
    UpdatedAmongValues(math, g.(nodes := n), h, g.kids[h]);
    assert !UnderAny(pm, g.kids[h], h) by {
      forall k | k in g.kids[h] && InSubtree(pm, k, h) ensures false {
        ParentDepth(pm, k);
        SubtreeDepth(pm, k, h);
      }
    }
    if pm[h].Some? && pm[h].value in g.nodes {
      var q := pm[h].value;
      assert !UnderAny(pm, g.kids[h], q) by {
        forall k | k in g.kids[h] && InSubtree(pm, k, q) ensures false {
        }
      }
    }
    forall d | d in g.nodes && InSubtree(pm, h, d) && d != h ensures UnderAny(pm, g.kids[h], d) {
      var k := Toward(pm, h, d);
      assert k in g.kids[h];
    }
  }

  /** After the loop over `kids`, every record below one of them is refreshed from its parent's new record. */
  lemma {:induction false} UpdatedAmongValues(math: MathLib, g: Graph, h: Handle, kids: seq<Handle>)
    requires Linked(g) && Acyclic(g.parent) && h in g.nodes && ChildrenOf(g, h, kids) && Sorted(kids)
    ensures var r := UpdatedAmong(math, g, h, kids);
            forall d :: d in g.nodes && UnderAny(g.parent, kids, d) ==>
              r[d] == Refresh(math, g.nodes[d], ParentRecord(g.parent, r, d))
    decreases Span(g.parent) - Depth(g.parent, h), |kids|, 1
  {
    if kids != [] {
      FirstSubtreeValues(math, g, h, kids);
      LaterSubtreesValues(math, g, h, kids);
      forall d | d in g.nodes && UnderAny(g.parent, kids, d) && !InSubtree(g.parent, kids[0], d)
        ensures UnderAny(g.parent, kids[1..], d)
      {
        var k :| k in kids && InSubtree(g.parent, k, d);
        assert k in kids[1..];
      }
    }
  }

  /** The loop's first child refreshes its own subtree, which the later children leave alone. */
  lemma {:induction false} FirstSubtreeValues(math: MathLib, g: Graph, h: Handle, kids: seq<Handle>)
    requires Linked(g) && Acyclic(g.parent) && h in g.nodes && ChildrenOf(g, h, kids) && Sorted(kids) && kids != []
    ensures var r := UpdatedAmong(math, g, h, kids);
            forall d :: d in g.nodes && InSubtree(g.parent, kids[0], d) ==>
              r[d] == Refresh(math, g.nodes[d], ParentRecord(g.parent, r, d))
    decreases Span(g.parent) - Depth(g.parent, h), |kids|, 0
  {
    var pm, k0 := g.parent, kids[0];
    ParentDepth(pm, k0);
    var n := Updated(math, g, k0);
    var r := UpdatedAmong(math, g, h, kids);
    UpdatedValues(math, g, k0);
    LaterChildrenLeaveFirst(math, g, h, kids);
    forall d | d in g.nodes && InSubtree(pm, k0, d) ensures ParentRecord(pm, r, d) == ParentRecord(pm, n, d) {
      if d != k0 {
        assert pm[d].Some? && pm[d].value in g.nodes && InSubtree(pm, k0, pm[d].value);
      }
    }
  }

  /** The later children of the loop leave the first child's subtree and `h` itself as the first child left them. */
  lemma LaterChildrenLeaveFirst(math: MathLib, g: Graph, h: Handle, kids: seq<Handle>)
    requires Linked(g) && Acyclic(g.parent) && h in g.nodes && ChildrenOf(g, h, kids) && Sorted(kids) && kids != []
    ensures var n := Updated(math, g, kids[0]);
            var r := UpdatedAmong(math, g, h, kids);
            r[h] == n[h] && forall d :: d in g.nodes && InSubtree(g.parent, kids[0], d) ==> r[d] == n[d]
  {
    var pm, k0, rest := g.parent, kids[0], kids[1..];
    ParentDepth(pm, k0);
    var n := Updated(math, g, k0);
    var g1 := g.(nodes := n);
    assert UpdatedAmong(math, g1, h, rest) == UpdatedAmong(math, g, h, kids);
    assert forall k :: k in rest ==> k in kids && k != k0;
    UpdatedAmongFrame(math, g1, h, rest);
    forall d | d in g.nodes && InSubtree(pm, k0, d) ensures !UnderAny(pm, rest, d) {
      forall k | k in rest && InSubtree(pm, k, d) ensures false {
        SiblingsDisjoint(pm, h, k0, k, d);
      }
    }
    assert !UnderAny(pm, rest, h) by {
      forall k | k in rest && InSubtree(pm, k, h) ensures false {
        ParentDepth(pm, k);
        SubtreeDepth(pm, k, h);
      }
    }
  }

  /** The later children refresh their subtrees, starting from the records the first child left. */
  lemma {:induction false} LaterSubtreesValues(math: MathLib, g: Graph, h: Handle, kids: seq<Handle>)
    requires Linked(g) && Acyclic(g.parent) && h in g.nodes && ChildrenOf(g, h, kids) && Sorted(kids) && kids != []
    ensures var r := UpdatedAmong(math, g, h, kids);
            forall d :: d in g.nodes && UnderAny(g.parent, kids[1..], d) ==>
              r[d] == Refresh(math, g.nodes[d], ParentRecord(g.parent, r, d))
    decreases Span(g.parent) - Depth(g.parent, h), |kids|, 0
  {
    var pm, k0, rest := g.parent, kids[0], kids[1..];
    ParentDepth(pm, k0);
    var n := Updated(math, g, k0);
    var g1 := g.(nodes := n);
    assert UpdatedAmong(math, g1, h, rest) == UpdatedAmong(math, g, h, kids);
    assert Sorted(rest) && forall k :: k in rest ==> k in kids && k != k0;
    UpdatedFrame(math, g, k0);
    UpdatedAmongValues(math, g1, h, rest);
    forall d | d in g.nodes && UnderAny(pm, rest, d) ensures !InSubtree(pm, k0, d) {
      var k :| k in rest && InSubtree(pm, k, d);
      if InSubtree(pm, k0, d) {
        SiblingsDisjoint(pm, h, k0, k, d);
      }
    }
  }

  /**
    UpdateTransform saves every world pose of the subtree into the
    previous-frame shadows and keeps every rest channel but the rest matrix.
  */
  lemma UpdateSnapshotsPrev(math: MathLib, g: Graph, h: Handle)
    requires Linked(g) && Acyclic(g.parent) && h in g.nodes
    ensures var r := Updated(math, g, h);
            forall d :: d in g.nodes && InSubtree(g.parent, h, d) ==>
              && r[d].prev == g.nodes[d].world
              && r[d].rest == g.nodes[d].rest.(matrix := r[d].rest.matrix)
  {
    UpdatedValues(math, g, h);
  }

  /**
    The changed flag: UpdateTransform never clears it, and a node of the
    subtree ends up changed exactly when it was changed or its parent ends up
    changed.
  */
  lemma UpdateKeepsChanged(math: MathLib, g: Graph, h: Handle)
    requires Linked(g) && Acyclic(g.parent) && h in g.nodes
    ensures var r := Updated(math, g, h);
            && (forall d :: d in g.nodes && g.nodes[d].hasChanged ==> r[d].hasChanged)
            && (forall d :: d in g.nodes && InSubtree(g.parent, h, d) ==>
                  r[d].hasChanged == (g.nodes[d].hasChanged ||
                                      (g.parent[d].Some? && g.parent[d].value in r && r[g.parent[d].value].hasChanged)))
  {
    UpdatedFrame(math, g, h);
    UpdatedValues(math, g, h);
  }

  /** When UpdateTransform leaves `h` changed, it leaves its whole subtree changed. */
  lemma {:induction false} UpdateSpreadsChanged(math: MathLib, g: Graph, h: Handle, d: Handle)
    requires Linked(g) && Acyclic(g.parent) && h in g.nodes && d in g.nodes && InSubtree(g.parent, h, d)
    requires Updated(math, g, h)[h].hasChanged
    ensures Updated(math, g, h)[d].hasChanged
    decreases Depth(g.parent, d)
  {
    if d != h {
      var q := g.parent[d].value;
      ParentDepth(g.parent, d);
      UpdateSpreadsChanged(math, g, h, q);
      UpdateKeepsChanged(math, g, h);
    }
  }

  /** UpdateTransform changes no ID: every transform stays under its own. */
  lemma UpdateKeepsIds(math: MathLib, g: Graph, h: Handle)
    requires Linked(g) && Acyclic(g.parent) && h in g.nodes
    ensures var r := Updated(math, g, h); forall d :: d in r ==> r[d].id == g.nodes[d].id
  {
    UpdatedFrame(math, g, h);
    UpdatedValues(math, g, h);
  }

  /** The children of `h` in a linked graph are its children, in order. */
  lemma LinkedChildrenOf(g: Graph, h: Handle)
    requires Linked(g) && h in g.nodes
    ensures ChildrenOf(g, h, g.kids[h]) && Sorted(g.kids[h])
  {
  }
}
