/**
  The read-only walks over the hierarchy: GetRoot and GetLayerMask follow parent
  links up, find (by name or by ID) searches the subtree down, in pre-order,
  visiting children in set order. Each needs the graph to be acyclic, which the
  engine takes for granted and never checks.
*/
module Queries {
  import opened Wrappers
  import opened Hierarchy
  import opened Transforms
  import opened Arena

  /** GetRoot: the parentless transform at the top of `h`'s parent chain. */
  function GetRoot(pm: ParentMap, h: Handle): (r: Handle)
    requires Acyclic(pm) && h in pm
    ensures r in pm && pm[r].None? && InSubtree(pm, r, h)
    decreases Depth(pm, h)
  {
    match pm[h]
    case None => h
    case Some(p) =>
      ParentDepth(pm, h);
      GetRoot(pm, p)
  }

  /** Every node has exactly one root: the only parentless node above it. */
  lemma {:induction false} RootIsUnique(pm: ParentMap, h: Handle, r: Handle)
    requires Acyclic(pm) && h in pm && r in pm
    requires pm[r].None? && InSubtree(pm, r, h)
    ensures GetRoot(pm, h) == r
    decreases Depth(pm, h)
  {
    if h != r {
      ParentDepth(pm, h);
      RootIsUnique(pm, pm[h].value, r);
    }
  }

  /** GetLayerMask: the node's own layer mask ANDed with its parent's effective mask. */
  function GetLayerMask(g: Graph, h: Handle): (m: bv32)
    requires Aligned(g) && Acyclic(g.parent) && h in g.nodes
    ensures m & g.nodes[h].layerMask == m
    decreases Depth(g.parent, h)
  {
    match g.parent[h]
    case None => g.nodes[h].layerMask
    case Some(p) =>
      ParentDepth(g.parent, h);
      GetLayerMask(g, p) & g.nodes[h].layerMask
  }

  /** The effective mask has no bit that any ancestor's (or the node's own) mask lacks. */
  lemma {:induction false} LayerMaskWithinAncestors(g: Graph, h: Handle, a: Handle)
    requires Aligned(g) && Acyclic(g.parent) && h in g.nodes && InSubtree(g.parent, a, h)
    ensures a in g.nodes && GetLayerMask(g, h) & g.nodes[a].layerMask == GetLayerMask(g, h)
    decreases Depth(g.parent, h)
  {
    SubtreeDepth(g.parent, a, h);
    if h != a {
      ParentDepth(g.parent, h);
      LayerMaskWithinAncestors(g, g.parent[h].value, a);
    }
  }

  /**
    The effective mask keeps every bit that the node and all its ancestors
    share: together with LayerMaskWithinAncestors, it is exactly the AND of the
    masks along the parent chain.
  */
  lemma {:induction false} LayerMaskKeepsSharedBits(g: Graph, h: Handle, bits: bv32)
    requires Aligned(g) && Acyclic(g.parent) && h in g.nodes
    requires forall a :: a in g.nodes && InSubtree(g.parent, a, h) ==> bits & g.nodes[a].layerMask == bits
    ensures bits & GetLayerMask(g, h) == bits
    decreases Depth(g.parent, h)
  {
    var pm := g.parent;
    assert InSubtree(pm, h, h);
    if pm[h].Some? {
      var p := pm[h].value;
      ParentDepth(pm, h);
      forall a | a in g.nodes && InSubtree(pm, a, p) ensures bits & g.nodes[a].layerMask == bits {
        assert InSubtree(pm, a, h);
      }
      LayerMaskKeepsSharedBits(g, p, bits);
    }
  }

  /** What find looks for: a name or an ID. */
  datatype Key = ByName(name: string) | ById(id: nat)

  predicate Matches(t: Transform, key: Key) {
    match key
    case ByName(n) => t.name == n
    case ById(i) => t.id == i
  }

  /** Every handle in `kids` is a node whose parent is `h`. */
  ghost predicate ChildrenOf(g: Graph, h: Handle, kids: seq<Handle>) {
    forall k :: k in kids ==> k in g.parent && g.parent[k] == Some(h)
  }

  /**
    find: `h` itself if it matches, otherwise the first match found by
    searching each child's subtree in turn. A result always matches and lies in
    `h`'s subtree.
  */
  function Search(g: Graph, h: Handle, key: Key): (r: Option<Handle>)
    requires Linked(g) && Acyclic(g.parent) && h in g.nodes
    ensures r.Some? ==> r.value in g.nodes && Matches(g.nodes[r.value], key) && InSubtree(g.parent, h, r.value)
    decreases Span(g.parent) - Depth(g.parent, h), |g.kids[h]| + 1
  {
    if Matches(g.nodes[h], key) then Some(h)
    else SearchAmong(g, h, g.kids[h], key)
  }

  /** The loop of find over the children `kids` of `h`. */
  function SearchAmong(g: Graph, h: Handle, kids: seq<Handle>, key: Key): (r: Option<Handle>)
    requires Linked(g) && Acyclic(g.parent) && h in g.nodes && ChildrenOf(g, h, kids)
    ensures r.Some? ==> r.value in g.nodes && Matches(g.nodes[r.value], key) && InSubtree(g.parent, h, r.value)
    decreases Span(g.parent) - Depth(g.parent, h), |kids|
  {
    if kids == [] then None
    else
      ParentDepth(g.parent, kids[0]);
      match Search(g, kids[0], key)
      case Some(f) =>
        TowardChild(g.parent, h, kids[0], f);
        Some(f)
      case None => SearchAmong(g, h, kids[1..], key)
  }

  /** find(name). */
  function FindByName(g: Graph, h: Handle, name: string): (r: Option<Handle>)
    requires Linked(g) && Acyclic(g.parent) && h in g.nodes
    ensures r.Some? ==> r.value in g.nodes && g.nodes[r.value].name == name && InSubtree(g.parent, h, r.value)
  {
    Search(g, h, ByName(name))
  }

  /** find(id). */
  function FindById(g: Graph, h: Handle, id: nat): (r: Option<Handle>)
    requires Linked(g) && Acyclic(g.parent) && h in g.nodes
    ensures r.Some? ==> r.value in g.nodes && g.nodes[r.value].id == id && InSubtree(g.parent, h, r.value)
  {
    Search(g, h, ById(id))
  }

  /** The pre-order listing of `h`'s subtree: `h`, then each child's listing in set order. */
  ghost function PreOrder(g: Graph, h: Handle): seq<Handle>
    requires Linked(g) && Acyclic(g.parent) && h in g.nodes
    decreases Span(g.parent) - Depth(g.parent, h), |g.kids[h]| + 1
  {
    [h] + PreOrderAmong(g, h, g.kids[h])
  }

  ghost function PreOrderAmong(g: Graph, h: Handle, kids: seq<Handle>): seq<Handle>
    requires Linked(g) && Acyclic(g.parent) && h in g.nodes && ChildrenOf(g, h, kids)
    decreases Span(g.parent) - Depth(g.parent, h), |kids|
  {
    if kids == [] then []
    else
      ParentDepth(g.parent, kids[0]);
      PreOrder(g, kids[0]) + PreOrderAmong(g, h, kids[1..])
  }

  /** The first handle of `s` whose node matches `key`. */
  function FirstMatch(nodes: map<Handle, Transform>, s: seq<Handle>, key: Key): (r: Option<Handle>)
    requires forall d :: d in s ==> d in nodes
    ensures r.Some? <==> exists d :: d in s && Matches(nodes[d], key)
  {
    if s == [] then None
    else if Matches(nodes[s[0]], key) then Some(s[0])
    else FirstMatch(nodes, s[1..], key)
  }

  lemma {:induction false} FirstMatchAppend(nodes: map<Handle, Transform>, s: seq<Handle>, t: seq<Handle>, key: Key)
    requires forall d :: d in s + t ==> d in nodes
    ensures FirstMatch(nodes, s + t, key) ==
            if FirstMatch(nodes, s, key).Some? then FirstMatch(nodes, s, key) else FirstMatch(nodes, t, key)
  {
    if s == [] {
      assert s + t == t;
    } else {
      assert (s + t)[0] == s[0] && (s + t)[1..] == s[1..] + t;
      FirstMatchAppend(nodes, s[1..], t, key);
    }
  }

  /** The pre-order listing holds exactly the nodes of the subtree. */
  lemma {:induction false} PreOrderIsSubtree(g: Graph, h: Handle)
    requires Linked(g) && Acyclic(g.parent) && h in g.nodes
    ensures forall d :: d in PreOrder(g, h) <==> d in g.nodes && InSubtree(g.parent, h, d)
    decreases Span(g.parent) - Depth(g.parent, h), |g.kids[h]| + 1
  {
    PreOrderAmongIsSubtrees(g, h, g.kids[h]);
    forall d | d in g.nodes && InSubtree(g.parent, h, d) && d != h
      ensures d in PreOrderAmong(g, h, g.kids[h])
    {
      var k := Toward(g.parent, h, d);
      assert k in g.kids[h];
    }
  }

  lemma {:induction false} PreOrderAmongIsSubtrees(g: Graph, h: Handle, kids: seq<Handle>)
    requires Linked(g) && Acyclic(g.parent) && h in g.nodes && ChildrenOf(g, h, kids)
    ensures forall d :: d in PreOrderAmong(g, h, kids) <==>
              d in g.nodes && InSubtree(g.parent, h, d) && d != h && Toward(g.parent, h, d) in kids
    decreases Span(g.parent) - Depth(g.parent, h), |kids|
  {
    var pm := g.parent;
    if kids != [] {
      var k := kids[0];
      ParentDepth(pm, k);
      PreOrderIsSubtree(g, k);
      PreOrderAmongIsSubtrees(g, h, kids[1..]);
      forall d | d in g.nodes && InSubtree(pm, k, d) ensures InSubtree(pm, h, d) && d != h && Toward(pm, h, d) == k {
        TowardChild(pm, h, k, d);
      }
      forall d | d in g.nodes && InSubtree(pm, h, d) && d != h && Toward(pm, h, d) == k ensures InSubtree(pm, k, d) {
      }
    }
  }

  /** find returns exactly the pre-order-first match of the subtree. */
  lemma {:induction false} SearchIsPreOrderFirst(g: Graph, h: Handle, key: Key)
    requires Linked(g) && Acyclic(g.parent) && h in g.nodes
    ensures forall d :: d in PreOrder(g, h) ==> d in g.nodes
    ensures Search(g, h, key) == FirstMatch(g.nodes, PreOrder(g, h), key)
    decreases Span(g.parent) - Depth(g.parent, h), |g.kids[h]| + 1
  {
    PreOrderIsSubtree(g, h);
    var rest := PreOrderAmong(g, h, g.kids[h]);
    SearchAmongIsPreOrderFirst(g, h, g.kids[h], key);
    assert PreOrder(g, h)[1..] == rest;
  }

  lemma {:induction false} SearchAmongIsPreOrderFirst(g: Graph, h: Handle, kids: seq<Handle>, key: Key)
    requires Linked(g) && Acyclic(g.parent) && h in g.nodes && ChildrenOf(g, h, kids)
    ensures forall d :: d in PreOrderAmong(g, h, kids) ==> d in g.nodes
    ensures SearchAmong(g, h, kids, key) == FirstMatch(g.nodes, PreOrderAmong(g, h, kids), key)
    decreases Span(g.parent) - Depth(g.parent, h), |kids|
  {
    PreOrderAmongIsSubtrees(g, h, kids);
    if kids != [] {
      ParentDepth(g.parent, kids[0]);
      SearchIsPreOrderFirst(g, kids[0], key);
      SearchAmongIsPreOrderFirst(g, h, kids[1..], key);
      FirstMatchAppend(g.nodes, PreOrder(g, kids[0]), PreOrderAmong(g, h, kids[1..]), key);
    }
  }

  /** find returns nothing exactly when no node of the subtree matches. */
  lemma SearchFailsOnlyWithoutMatch(g: Graph, h: Handle, key: Key)
    requires Linked(g) && Acyclic(g.parent) && h in g.nodes
    ensures Search(g, h, key).None? <==>
            forall d :: d in g.nodes && InSubtree(g.parent, h, d) ==> !Matches(g.nodes[d], key)
  {
    SearchIsPreOrderFirst(g, h, key);
    PreOrderIsSubtree(g, h);
  }

  /** Since every transform is stored under its ID, find(id) finds `id` exactly when it is in the subtree. */
  lemma FindByIdIsSubtreeMembership(g: Graph, counter: nat, h: Handle, id: nat)
    requires WellFormed(g, counter) && Acyclic(g.parent) && h in g.nodes
    ensures FindById(g, h, id) == if id in g.nodes && InSubtree(g.parent, h, id) then Some(id) else None
  {
    SearchFailsOnlyWithoutMatch(g, h, ById(id));
  }
}
