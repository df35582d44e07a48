/**
  The scene graph after each structural edit of wiTransform.cpp: detach,
  attachTo, detachChild (one child or all) and the destructor, as functions of
  the graph before it. The Scene methods perform these edits step by step and
  are proved to produce exactly these graphs; the lemmas here say, map by map,
  what each edit changes, and that the edits keep the graph well formed and,
  where they can, acyclic.
*/
module Edits {
  import opened Wrappers
  import opened Math
  import opened Hierarchy
  import opened OrderedSet
  import opened Transforms
  import opened Arena

  /**
    detach(): a node with a parent is erased from the parent's children (when it
    is found there), freezes its flagged channels and loses its parent. A node
    without a parent is left as it is.
  */
  function DetachFrom(g: Graph, h: Handle): (r: Graph)
    requires Aligned(g) && h in g.nodes
    ensures Aligned(r) && r.nodes.Keys == g.nodes.Keys
  {
    match g.parent[h]
    case None => g
    case Some(p) =>
      var kids := if p in g.kids && h in g.kids[p] then g.kids[p := Erase(g.kids[p], h)] else g.kids;
      Graph(g.parent[h := None], kids, g.nodes[h := Detached(g.nodes[h])])
  }

  /** detach() clears the parent link of `h` and no other. */
  lemma DetachClearsParent(g: Graph, h: Handle)
    requires Aligned(g) && h in g.nodes
    ensures DetachFrom(g, h).parent == g.parent[h := None]
  {
  }

  /** detach() makes a node that had a parent freeze its flagged channels; no other record changes. */
  lemma DetachFreezes(g: Graph, h: Handle)
    requires Aligned(g) && h in g.nodes
    ensures DetachFrom(g, h).nodes == if g.parent[h].Some? then g.nodes[h := Detached(g.nodes[h])] else g.nodes
  {
  }

  /**
    detach() erases `h` from its parent's children, which stay in order, and
    changes no other children set.
  */
  lemma DetachErases(g: Graph, h: Handle)
    requires Aligned(g) && h in g.nodes
    ensures var r := DetachFrom(g, h);
            && (forall k :: k in g.kids && g.parent[h] != Some(k) ==> r.kids[k] == g.kids[k])
            && (g.parent[h].Some? && g.parent[h].value in g.kids ==>
                  var p := g.parent[h].value;
                  && (forall y :: y in r.kids[p] <==> y in g.kids[p] && y != h)
                  && (Sorted(g.kids[p]) ==> Sorted(r.kids[p])))
  {
  }

  /** detach() keeps the parent and children links consistent. */
  lemma DetachKeepsLinked(g: Graph, h: Handle)
    requires Linked(g) && h in g.nodes
    ensures Linked(DetachFrom(g, h))
  {
    if g.parent[h].Some? {
      CutLink(g.parent, g.kids, h);
    }
  }

  /** detach() keeps the graph well formed. */
  lemma DetachKeepsWellFormed(g: Graph, counter: nat, h: Handle)
    requires WellFormed(g, counter) && h in g.nodes
    ensures WellFormed(DetachFrom(g, h), counter)
  {
    DetachKeepsLinked(g, h);
    DetachFreezes(g, h);
  }

  /** After detach() the node is nobody's child. */
  lemma DetachUnlists(g: Graph, h: Handle)
    requires Linked(g) && h in g.nodes
    ensures var r := DetachFrom(g, h); forall y :: y in r.kids ==> h !in r.kids[y]
  {
    DetachKeepsLinked(g, h);
    var r := DetachFrom(g, h);
    DetachClearsParent(g, h);
    OrphanIsNoChild(r.parent, r.kids, h);
  }

  /** detach() keeps an acyclic graph acyclic. */
  lemma DetachKeepsArenaAcyclic(g: Graph, h: Handle)
    requires Aligned(g) && Acyclic(g.parent) && h in g.nodes
    ensures Acyclic(DetachFrom(g, h).parent)
  {
    DetachClearsParent(g, h);
    PrunedKeepsAcyclic(g.parent, g.parent[h := None]);
  }

  /**
    attachTo(p, t, r, s): with no parent given nothing happens. Otherwise a node
    that has a parent is first detached; then it records `p` as its parent,
    `p`'s name, the three copy flags and the inverse of `p`'s world matrix (the
    flags do not filter it: getMatrix ignores them), and `p` adds it to its
    children.
  */
  function AttachedTo(math: MathLib, g: Graph, h: Handle, p: Option<Handle>,
                      copyT: int, copyR: int, copyS: int): (r: Graph)
    requires Aligned(g) && h in g.nodes && (p.Some? ==> p.value in g.nodes)
    ensures Aligned(r) && r.nodes.Keys == g.nodes.Keys
  {
    match p
    case None => g
    case Some(q) => Adopted(math, if g.parent[h].Some? then DetachFrom(g, h) else g, h, q, copyT, copyR, copyS)
  }

  /** The second half of attachTo(p): `h` records `p` as its parent, and `p` adds `h` to its children. */
  function Adopted(math: MathLib, g: Graph, h: Handle, p: Handle, copyT: int, copyR: int, copyS: int): (r: Graph)
    requires Aligned(g) && h in g.nodes && p in g.nodes
    ensures Aligned(r) && r.nodes.Keys == g.nodes.Keys
  {
    Graph(g.parent[h := Some(p)], g.kids[p := Insert(g.kids[p], h)],
          g.nodes[h := Attached(math, g.nodes[h], g.nodes[p], copyT, copyR, copyS)])
  }

  /** The attaching node's own record after attachTo(p): what it records about `p` is set, nothing else changes. */
  function Attached(math: MathLib, x: Transform, parent: Transform, copyT: int, copyR: int, copyS: int): (y: Transform)
    ensures y.attachment.parentName == parent.name
    ensures y.attachment.copyT == copyT && y.attachment.copyR == copyR && y.attachment.copyS == copyS
    ensures y.attachment.parentInvRest == math.inverse(parent.world.matrix)
    ensures y.attachment.boneParent == x.attachment.boneParent
    ensures y == x.(attachment := y.attachment)
  {
    x.(attachment := x.attachment.(parentName := parent.name, copyT := copyT, copyR := copyR, copyS := copyS,
                                   parentInvRest := math.inverse(GetMatrix(parent, copyT, copyR, copyS))))
  }

  /** attachTo(p) sets the parent link of `h` to `p` and no other. */
  lemma AttachSetsParent(math: MathLib, g: Graph, h: Handle, p: Handle, copyT: int, copyR: int, copyS: int)
    requires Aligned(g) && h in g.nodes && p in g.nodes
    ensures AttachedTo(math, g, h, Some(p), copyT, copyR, copyS).parent == g.parent[h := Some(p)]
  {
    DetachClearsParent(g, h);
  }

  /** attachTo(p) keeps the parent and children links consistent. */
  lemma AttachKeepsLinked(math: MathLib, g: Graph, h: Handle, p: Handle, copyT: int, copyR: int, copyS: int)
    requires Linked(g) && h in g.nodes && p in g.nodes
    ensures Linked(AttachedTo(math, g, h, Some(p), copyT, copyR, copyS))
  {
    var g1 := if g.parent[h].Some? then DetachFrom(g, h) else g;
    DetachKeepsLinked(g, h);
    DetachClearsParent(g, h);
    AddLink(g1.parent, g1.kids, h, p);
  }

  /** attachTo(p) keeps the graph well formed. */
  lemma AttachKeepsWellFormed(math: MathLib, g: Graph, counter: nat, h: Handle, p: Handle,
                              copyT: int, copyR: int, copyS: int)
    requires WellFormed(g, counter) && h in g.nodes && p in g.nodes
    ensures WellFormed(AttachedTo(math, g, h, Some(p), copyT, copyR, copyS), counter)
  {
    AttachKeepsLinked(math, g, h, p, copyT, copyR, copyS);
    AttachKeepsIds(math, g, h, p, copyT, copyR, copyS);
  }

  /** attachTo(p) changes no node's ID. */
  lemma AttachKeepsIds(math: MathLib, g: Graph, h: Handle, p: Handle, copyT: int, copyR: int, copyS: int)
    requires Aligned(g) && h in g.nodes && p in g.nodes
    ensures var r := AttachedTo(math, g, h, Some(p), copyT, copyR, copyS);
            forall k :: k in g.nodes ==> r.nodes[k].id == g.nodes[k].id
  {
    DetachFreezes(g, h);
  }

  /** After attachTo(p) the node is among `p`'s children, which otherwise keep their members, and nobody else's. */
  lemma AttachLists(math: MathLib, g: Graph, h: Handle, p: Handle, copyT: int, copyR: int, copyS: int)
    requires Linked(g) && h in g.nodes && p in g.nodes
    ensures var r := AttachedTo(math, g, h, Some(p), copyT, copyR, copyS);
            && (forall y :: y in r.kids[p] <==> y in g.kids[p] || y == h)
            && (forall y :: y in r.kids && y != p ==> h !in r.kids[y])
  {
    DetachUnlists(g, h);
    DetachErases(g, h);
  }

  /**
    After attachTo(p) the node holds `p`'s name, the flags and the inverse of
    `p`'s full world matrix; no other record changes, except that a node that
    had a parent froze its flagged channels first.
  */
  lemma AttachRecords(math: MathLib, g: Graph, h: Handle, p: Handle, copyT: int, copyR: int, copyS: int)
    requires Aligned(g) && h in g.nodes && p in g.nodes
    ensures var r := AttachedTo(math, g, h, Some(p), copyT, copyR, copyS);
            var x := if g.parent[h].Some? then Detached(g.nodes[h]) else g.nodes[h];
            && r.nodes[h].attachment == x.attachment.(parentName := g.nodes[p].name,
                 copyT := copyT, copyR := copyR, copyS := copyS,
                 parentInvRest := math.inverse(g.nodes[p].world.matrix))
            && r.nodes[h] == x.(attachment := r.nodes[h].attachment)
            && forall k :: k in g.nodes && k != h ==> r.nodes[k] == g.nodes[k]
  {
    var g1 := if g.parent[h].Some? then DetachFrom(g, h) else g;
    DetachFreezes(g, h);
    assert g1.nodes[p].name == g.nodes[p].name && g1.nodes[p].world == g.nodes[p].world;
  }

  /**
    attachTo(p) keeps an acyclic graph acyclic exactly when `p` is not in the
    node's own subtree; attaching a node below itself (or to itself) creates a
    cycle, which the engine does not guard against.
  */
  lemma AttachAcyclicIff(math: MathLib, g: Graph, h: Handle, p: Handle, copyT: int, copyR: int, copyS: int)
    requires Aligned(g) && Acyclic(g.parent) && h in g.nodes && p in g.nodes
    ensures Acyclic(AttachedTo(math, g, h, Some(p), copyT, copyR, copyS).parent) <==> !InSubtree(g.parent, h, p)
  {
    AttachSetsParent(math, g, h, p, copyT, copyR, copyS);
    if InSubtree(g.parent, h, p) {
      AttachIntoOwnSubtreeMakesCycle(g.parent, h, p);
    } else {
      AttachKeepsAcyclic(g.parent, h, p);
    }
  }

  /** The loop of detachChild(): detach each handle of `cs`, in order. */
  function DetachEach(g: Graph, cs: seq<Handle>): (r: Graph)
    requires Aligned(g) && forall c :: c in cs ==> c in g.nodes
    ensures Aligned(r) && r.nodes.Keys == g.nodes.Keys
    decreases |cs|
  {
    if cs == [] then g
    else DetachFrom(DetachEach(g, cs[..|cs| - 1]), cs[|cs| - 1])
  }

  /** One more step of the loop: detaching the first `i + 1` handles is detaching the first `i`, then the next. */
  lemma DetachEachStep(g: Graph, cs: seq<Handle>, i: nat)
    requires Aligned(g) && i < |cs| && forall c :: c in cs ==> c in g.nodes
    ensures DetachEach(g, cs[..i + 1]) == DetachFrom(DetachEach(g, cs[..i]), cs[i])
  {
    assert cs[..i + 1][..i] == cs[..i];
  }

  /** Splitting a sorted sequence at its last element. */
  lemma SortedLast(cs: seq<Handle>)
    requires Sorted(cs) && cs != []
    ensures var init := cs[..|cs| - 1];
            Sorted(init) && cs[|cs| - 1] !in init && forall c :: c in init ==> c in cs
  {
    var init := cs[..|cs| - 1];
    forall i | 0 <= i < |init| ensures init[i] != cs[|cs| - 1] {
      assert init[i] == cs[i];
    }
  }

  /** Detaching the nodes of `cs` one after another clears exactly their parent links. */
  lemma {:induction false} DetachEachParents(g: Graph, cs: seq<Handle>)
    requires Aligned(g) && forall c :: c in cs ==> c in g.nodes
    ensures var r := DetachEach(g, cs);
            forall k :: k in g.parent ==> r.parent[k] == if k in cs then None else g.parent[k]
    decreases |cs|
  {
    if cs != [] {
      var init := cs[..|cs| - 1];
      assert cs == init + [cs[|cs| - 1]];
      DetachEachParents(g, init);
      DetachClearsParent(DetachEach(g, init), cs[|cs| - 1]);
    }
  }

  /**
    Detaching distinct nodes `cs`, each of which has a parent, one after another:
    each of them freezes its flagged channels; no other record changes.
  */
  lemma {:induction false} DetachEachRecords(g: Graph, cs: seq<Handle>)
    requires Aligned(g) && Sorted(cs) && forall c :: c in cs ==> c in g.nodes && g.parent[c].Some?
    ensures var r := DetachEach(g, cs);
            forall k :: k in g.nodes ==> r.nodes[k] == if k in cs then Detached(g.nodes[k]) else g.nodes[k]
    decreases |cs|
  {
    if cs != [] {
      var init := cs[..|cs| - 1];
      SortedLast(cs);
      DetachEachParents(g, init);
      DetachEachRecords(g, init);
      DetachFreezes(DetachEach(g, init), cs[|cs| - 1]);
    }
  }

  /** Detaching children `cs` of `h` one after another changes no children set but `h`'s. */
  lemma {:induction false} DetachEachKids(g: Graph, h: Handle, cs: seq<Handle>)
    requires Aligned(g) && Sorted(cs) && forall c :: c in cs ==> c in g.nodes && g.parent[c] == Some(h)
    ensures var r := DetachEach(g, cs);
            forall k :: k in g.kids && k != h ==> r.kids[k] == g.kids[k]
    decreases |cs|
  {
    if cs != [] {
      var init := cs[..|cs| - 1];
      SortedLast(cs);
      DetachEachParents(g, init);
      DetachEachKids(g, h, init);
      DetachErases(DetachEach(g, init), cs[|cs| - 1]);
    }
  }

  /**
    detachChild() with no argument: every child is detached, in order, and the
    children set is cleared.
  */
  function DetachedChildren(g: Graph, h: Handle): (r: Graph)
    requires Aligned(g) && h in g.nodes && forall c :: c in g.kids[h] ==> c in g.nodes
    ensures Aligned(r) && r.nodes.Keys == g.nodes.Keys
  {
    if g.kids[h] == [] then g
    else
      var n := DetachEach(g, g.kids[h]);
      n.(kids := n.kids[h := []])
  }

  /** The children of `h` are live, point back at `h` and are kept in order. */
  ghost predicate ChildrenLinked(g: Graph, h: Handle)
    requires Aligned(g) && h in g.nodes
  {
    Sorted(g.kids[h]) && forall c :: c in g.kids[h] ==> c in g.nodes && g.parent[c] == Some(h)
  }

  lemma LinkedChildren(g: Graph, h: Handle)
    requires Linked(g) && h in g.nodes
    ensures ChildrenLinked(g, h)
  {
  }

  /** After detachChild() the node has no children and no other children set changed. */
  lemma DetachedChildrenKids(g: Graph, h: Handle)
    requires Aligned(g) && h in g.nodes && ChildrenLinked(g, h)
    ensures DetachedChildren(g, h).kids == g.kids[h := []]
  {
    var cs := g.kids[h];
    if cs != [] {
      DetachEachKids(g, h, cs);
      var n := DetachEach(g, cs);
      assert n.kids[h := []] == g.kids[h := []];
    }
  }

  /** After detachChild() exactly the former children have lost their parent. */
  lemma DetachedChildrenParents(g: Graph, h: Handle)
    requires Aligned(g) && h in g.nodes && ChildrenLinked(g, h)
    ensures var r := DetachedChildren(g, h);
            forall k :: k in g.parent ==> r.parent[k] == if k in g.kids[h] then None else g.parent[k]
  {
    if g.kids[h] != [] {
      DetachEachParents(g, g.kids[h]);
    }
  }

  /** After detachChild() exactly the former children have frozen their flagged channels. */
  lemma DetachedChildrenRecords(g: Graph, h: Handle)
    requires Aligned(g) && h in g.nodes && ChildrenLinked(g, h)
    ensures var r := DetachedChildren(g, h);
            forall k :: k in g.nodes ==> r.nodes[k] == if k in g.kids[h] then Detached(g.nodes[k]) else g.nodes[k]
  {
    if g.kids[h] != [] {
      DetachEachRecords(g, g.kids[h]);
    }
  }

  /** Clearing a node's children together with their parent links keeps the links consistent. */
  lemma ClearChildrenLinked(pm: ParentMap, km: KidMap, pm': ParentMap, h: Handle)
    requires LinkedMaps(pm, km) && h in km && pm'.Keys == pm.Keys
    requires forall k :: k in pm ==> pm'[k] == if k in km[h] then None else pm[k]
    ensures LinkedMaps(pm', km[h := []])
  {
    ClearKeepsParentsListed(pm, km, pm', h);
    ClearKeepsChildrenPointing(pm, km, pm', h);
  }

  lemma ClearKeepsParentsListed(pm: ParentMap, km: KidMap, pm': ParentMap, h: Handle)
    requires pm.Keys == km.Keys && ParentsList(pm, km) && h in km && pm'.Keys == pm.Keys
    requires forall k :: k in pm ==> pm'[k] == if k in km[h] then None else pm[k]
    ensures ParentsList(pm', km[h := []])
  {
    forall k | k in pm' && pm'[k].Some? ensures pm'[k].value in km[h := []] && k in km[h := []][pm'[k].value] {
      assert k !in km[h];
    }
  }

  lemma ClearKeepsChildrenPointing(pm: ParentMap, km: KidMap, pm': ParentMap, h: Handle)
    requires pm.Keys == km.Keys && ChildrenPoint(pm, km) && h in km && pm'.Keys == pm.Keys
    requires forall k :: k in pm ==> pm'[k] == if k in km[h] then None else pm[k]
    ensures ChildrenPoint(pm', km[h := []])
  {
    forall y, c | y in km[h := []] && c in km[h := []][y] ensures c in pm' && pm'[c] == Some(y) {
      assert y != h && c in km[y] && pm[c] == Some(y);
    }
  }

  /** detachChild() keeps the parent and children links consistent. */
  lemma DetachedChildrenKeepsLinked(g: Graph, h: Handle)
    requires Linked(g) && h in g.nodes
    ensures Linked(DetachedChildren(g, h))
  {
    LinkedChildren(g, h);
    DetachedChildrenKids(g, h);
    DetachedChildrenParents(g, h);
    ClearChildrenLinked(g.parent, g.kids, DetachedChildren(g, h).parent, h);
  }

  /** detachChild() keeps the graph well formed. */
  lemma DetachedChildrenKeepsWellFormed(g: Graph, counter: nat, h: Handle)
    requires WellFormed(g, counter) && h in g.nodes
    ensures WellFormed(DetachedChildren(g, h), counter)
  {
    DetachedChildrenKeepsLinked(g, h);
    LinkedChildren(g, h);
    DetachedChildrenRecords(g, h);
  }

  /** detachChild() keeps an acyclic graph acyclic. */
  lemma DetachedChildrenKeepsAcyclic(g: Graph, h: Handle)
    requires Linked(g) && Acyclic(g.parent) && h in g.nodes
    ensures Acyclic(DetachedChildren(g, h).parent)
  {
    LinkedChildren(g, h);
    DetachedChildrenParents(g, h);
    PrunedKeepsAcyclic(g.parent, DetachedChildren(g, h).parent);
  }

  /** In an acyclic graph detachChild() never detaches the node itself: its own parent link is kept. */
  lemma DetachedChildrenKeepOwnParent(g: Graph, h: Handle)
    requires Linked(g) && Acyclic(g.parent) && h in g.nodes
    ensures DetachedChildren(g, h).parent[h] == g.parent[h]
  {
    LinkedChildren(g, h);
    DetachedChildrenParents(g, h);
    AcyclicNoSelfChild(g.parent, g.kids, h);
  }

  /** detachChild(c): `c` is detached when it is one of the node's children; otherwise nothing happens. */
  function DetachedChild(g: Graph, h: Handle, c: Handle): (r: Graph)
    requires Aligned(g) && h in g.nodes && forall k :: k in g.kids[h] ==> k in g.nodes
    ensures Aligned(r) && r.nodes.Keys == g.nodes.Keys
  {
    if c in g.kids[h] then DetachFrom(g, c) else g
  }

  /**
    After detachChild(c): a child `c` loses its parent and `h` loses exactly
    that child; anything else leaves the graph as it was. The graph stays well
    formed.
  */
  lemma DetachedChildEffect(g: Graph, counter: nat, h: Handle, c: Handle)
    requires WellFormed(g, counter) && h in g.nodes
    ensures var r := DetachedChild(g, h, c);
            && WellFormed(r, counter)
            && (c !in g.kids[h] ==> r == g)
            && (c in g.kids[h] ==>
                  && r.parent == g.parent[c := None]
                  && (forall y :: y in r.kids[h] <==> y in g.kids[h] && y != c))
  {
    if c in g.kids[h] {
      DetachKeepsWellFormed(g, counter, c);
      DetachClearsParent(g, c);
      DetachErases(g, c);
    }
  }

  /**
    The destructor: detach(), then detachChild(), then the transform is gone
    from the graph.
  */
  function Destroyed(g: Graph, h: Handle): (r: Graph)
    requires Linked(g) && h in g.nodes
    ensures Aligned(r) && r.nodes.Keys == g.nodes.Keys - {h}
  {
    DetachKeepsLinked(g, h);
    var g2 := DetachedChildren(DetachFrom(g, h), h);
    Graph(g2.parent - {h}, g2.kids - {h}, g2.nodes - {h})
  }

  /** The graph after detach() inside the destructor: linked, and `h` keeps its children other than itself. */
  lemma DestroyFirstStep(g: Graph, h: Handle)
    requires Linked(g) && h in g.nodes
    ensures var g1 := DetachFrom(g, h);
            && Linked(g1) && ChildrenLinked(g1, h)
            && (forall k :: k in g1.parent && k != h ==> g1.parent[k] == g.parent[k] && g1.nodes[k] == g.nodes[k])
            && (forall k :: k != h ==> (k in g1.kids[h] <==> k in g.kids[h]))
  {
    DetachKeepsLinked(g, h);
    LinkedChildren(DetachFrom(g, h), h);
    DetachClearsParent(g, h);
    DetachFreezes(g, h);
    DetachErases(g, h);
  }

  /** After the destructor exactly the former children of `h` have lost their parent. */
  lemma DestroyParents(g: Graph, h: Handle)
    requires Linked(g) && h in g.nodes
    ensures var r := Destroyed(g, h);
            forall k :: k in r.parent ==> r.parent[k] == if k in g.kids[h] then None else g.parent[k]
  {
    DestroyFirstStep(g, h);
    DetachedChildrenParents(DetachFrom(g, h), h);
  }

  /** After the destructor `h` is erased from its parent's children; no other children set changes. */
  lemma DestroyKids(g: Graph, h: Handle)
    requires Linked(g) && h in g.nodes
    ensures var r := Destroyed(g, h);
            forall k :: k in r.kids ==> r.kids[k] == DetachFrom(g, h).kids[k]
  {
    DestroyFirstStep(g, h);
    DetachedChildrenKids(DetachFrom(g, h), h);
  }

  /** After the destructor exactly the former children of `h` have frozen their flagged channels. */
  lemma DestroyRecords(g: Graph, h: Handle)
    requires Linked(g) && h in g.nodes
    ensures var r := Destroyed(g, h);
            forall k :: k in r.nodes ==> r.nodes[k] == if k in g.kids[h] then Detached(g.nodes[k]) else g.nodes[k]
  {
    DestroyFirstStep(g, h);
    DetachedChildrenRecords(DetachFrom(g, h), h);
  }

  /** The destructor keeps the parent and children links consistent, and no link refers to `h` any more. */
  lemma DestroyKeepsLinked(g: Graph, h: Handle)
    requires Linked(g) && h in g.nodes
    ensures var r := Destroyed(g, h);
            && Linked(r)
            && forall y :: y in r.kids ==> h !in r.kids[y] && r.parent[y] != Some(h)
  {
    var g1 := DetachFrom(g, h);
    DestroyFirstStep(g, h);
    DetachClearsParent(g, h);
    DetachedChildrenKeepsLinked(g1, h);
    DetachedChildrenKids(g1, h);
    DetachedChildrenParents(g1, h);
    var g2 := DetachedChildren(g1, h);
    OrphanIsNoChild(g2.parent, g2.kids, h);
    DropNode(g2.parent, g2.kids, h);
  }

  /** The destructor keeps the graph well formed. */
  lemma DestroyKeepsWellFormed(g: Graph, counter: nat, h: Handle)
    requires WellFormed(g, counter) && h in g.nodes
    ensures WellFormed(Destroyed(g, h), counter)
  {
    DestroyKeepsLinked(g, h);
    DestroyRecords(g, h);
  }

  /** The destructor keeps an acyclic graph acyclic. */
  lemma DestroyKeepsAcyclic(g: Graph, h: Handle)
    requires Linked(g) && Acyclic(g.parent) && h in g.nodes
    ensures Acyclic(Destroyed(g, h).parent)
  {
    DestroyParents(g, h);
    PrunedKeepsAcyclic(g.parent, Destroyed(g, h).parent);
  }
}
