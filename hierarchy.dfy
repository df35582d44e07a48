/**
  The parent links of a scene graph, abstracted to a map from each transform's
  handle to its parent's handle. The engine never checks for parenting cycles;
  this module says what "acyclic" means, gives every node its depth, and proves
  which re-parentings keep the graph acyclic and which create a cycle.
*/
module Hierarchy {
  import opened Wrappers

  /** A transform's handle in the scene arena (it is the transform's unique ID). */
  type Handle = nat

  /** Each transform's parent, if it has one. */
  type ParentMap = map<Handle, Option<Handle>>

  /** Following parent links from `h` reaches a parentless node in at most `n` links, all inside `pm`. */
  ghost predicate RootedWithin(pm: ParentMap, h: Handle, n: nat)
    decreases n
  {
    h in pm && (pm[h].None? || (n > 0 && RootedWithin(pm, pm[h].value, n - 1)))
  }

  ghost predicate AcyclicWithin(pm: ParentMap, n: nat) {
    forall h :: h in pm ==> RootedWithin(pm, h, n)
  }

  /** No chain of parent links loops: every node's chain ends at a root. */
  ghost predicate Acyclic(pm: ParentMap) {
    exists n: nat :: AcyclicWithin(pm, n)
  }

  /** A bound on the length of every parent chain. */
  ghost function Span(pm: ParentMap): (n: nat)
    requires Acyclic(pm)
    ensures AcyclicWithin(pm, n)
  {
    var n: nat :| AcyclicWithin(pm, n); n
  }

  /** The number of parent links from `h` to its root. */
  ghost function DepthWithin(pm: ParentMap, h: Handle, n: nat): (d: nat)
    requires RootedWithin(pm, h, n)
    ensures d <= n
    decreases n
  {
    if pm[h].None? then 0 else 1 + DepthWithin(pm, pm[h].value, n - 1)
  }

  /** The depth does not depend on the bound used to compute it. */
  lemma {:induction false} DepthWithinAnyBound(pm: ParentMap, h: Handle, n: nat, m: nat)
    requires RootedWithin(pm, h, n) && RootedWithin(pm, h, m)
    ensures DepthWithin(pm, h, n) == DepthWithin(pm, h, m)
    decreases n
  {
    if pm[h].Some? {
      DepthWithinAnyBound(pm, pm[h].value, n - 1, m - 1);
    }
  }

  ghost function Depth(pm: ParentMap, h: Handle): (d: nat)
    requires Acyclic(pm) && h in pm
    ensures d <= Span(pm)
  {
    DepthWithin(pm, h, Span(pm))
  }

  /** A parent exists in the graph and sits exactly one level above its child. */
  lemma ParentDepth(pm: ParentMap, h: Handle)
    requires Acyclic(pm) && h in pm && pm[h].Some?
    ensures pm[h].value in pm && Depth(pm, pm[h].value) + 1 == Depth(pm, h)
  {
    var n, p := Span(pm), pm[h].value;
    assert RootedWithin(pm, h, n);
    assert RootedWithin(pm, p, n - 1);
    assert RootedWithin(pm, p, n);
    DepthWithinAnyBound(pm, p, n - 1, n);
  }

  /** `h` lies in the subtree rooted at `top`: `top` is `h` or one of its ancestors. */
  ghost predicate InSubtree(pm: ParentMap, top: Handle, h: Handle)
    requires Acyclic(pm) && h in pm
    decreases Depth(pm, h)
  {
    h == top || (pm[h].Some? && (ParentDepth(pm, h); InSubtree(pm, top, pm[h].value)))
  }

  /** An ancestor is in the graph and is no deeper than its descendant, strictly less deep when distinct. */
  lemma {:induction false} SubtreeDepth(pm: ParentMap, top: Handle, h: Handle)
    requires Acyclic(pm) && h in pm && InSubtree(pm, top, h)
    ensures top in pm && Depth(pm, top) <= Depth(pm, h)
    ensures top != h ==> Depth(pm, top) < Depth(pm, h)
    decreases Depth(pm, h)
  {
    if h != top {
      ParentDepth(pm, h);
      SubtreeDepth(pm, top, pm[h].value);
    }
  }

  /** Subtrees nest: a node below `mid`, itself below `top`, is below `top`. */
  lemma {:induction false} SubtreeTransitive(pm: ParentMap, top: Handle, mid: Handle, h: Handle)
    requires Acyclic(pm) && mid in pm && h in pm
    requires InSubtree(pm, top, mid) && InSubtree(pm, mid, h)
    ensures InSubtree(pm, top, h)
    decreases Depth(pm, h)
  {
    if h != mid {
      ParentDepth(pm, h);
      SubtreeTransitive(pm, top, mid, pm[h].value);
    }
  }

  /** The child of `top` on the way from `top` down to `h`. */
  ghost function Toward(pm: ParentMap, top: Handle, h: Handle): (k: Handle)
    requires Acyclic(pm) && h in pm && InSubtree(pm, top, h) && h != top
    ensures k in pm && pm[k] == Some(top) && InSubtree(pm, k, h)
    decreases Depth(pm, h)
  {
    ParentDepth(pm, h);
    var p := pm[h].value;
    if p == top then h else Toward(pm, top, p)
  }

  /** Every node below a child `k` of `top` is below `top`, and `k` is the child of `top` leading to it. */
  lemma {:induction false} TowardChild(pm: ParentMap, top: Handle, k: Handle, h: Handle)
    requires Acyclic(pm) && k in pm && h in pm && pm[k] == Some(top)
    requires InSubtree(pm, k, h)
    ensures InSubtree(pm, top, h) && h != top && Toward(pm, top, h) == k
    decreases Depth(pm, h)
  {
    ParentDepth(pm, k);
    SubtreeDepth(pm, k, h);
    ParentDepth(pm, h);
    if h != k {
      TowardChild(pm, top, k, pm[h].value);
    }
  }

  lemma {:induction false} MoreBound(pm: ParentMap, h: Handle, n: nat, m: nat)
    requires RootedWithin(pm, h, n) && n <= m
    ensures RootedWithin(pm, h, m)
    decreases n
  {
    if pm[h].Some? {
      MoreBound(pm, pm[h].value, n - 1, m - 1);
    }
  }

  /**
    `pm'` keeps some nodes of `pm` and, for each, either clears its parent link
    or keeps it; a kept link never points to a node that was dropped.
  */
  ghost predicate Pruned(pm: ParentMap, pm': ParentMap) {
    && pm'.Keys <= pm.Keys
    && forall k :: k in pm' ==> pm'[k].None? || (pm'[k] == pm[k] && (pm[k].value in pm ==> pm[k].value in pm'))
  }

  /** Pruning only shortens chains. */
  lemma {:induction false} PrunedKeepsRooted(pm: ParentMap, pm': ParentMap, h: Handle, n: nat)
    requires Pruned(pm, pm') && h in pm' && RootedWithin(pm, h, n)
    ensures RootedWithin(pm', h, n)
    decreases n
  {
    if pm'[h].Some? {
      PrunedKeepsRooted(pm, pm', pm[h].value, n - 1);
    }
  }

  /** Clearing parent links and dropping nodes nobody kept points to keeps the graph acyclic. */
  lemma PrunedKeepsAcyclic(pm: ParentMap, pm': ParentMap)
    requires Acyclic(pm) && Pruned(pm, pm')
    ensures Acyclic(pm')
  {
    var n := Span(pm);
    forall h | h in pm' ensures RootedWithin(pm', h, n) {
      PrunedKeepsRooted(pm, pm', h, n);
    }
    assert AcyclicWithin(pm', n);
  }

  /** A chain that never passes through `c` is not affected by re-linking `c`. */
  lemma {:induction false} AvoidingChainKept(pm: ParentMap, c: Handle, p: Handle, h: Handle, n: nat)
    requires Acyclic(pm) && c in pm && RootedWithin(pm, h, n) && !InSubtree(pm, c, h)
    ensures RootedWithin(pm[c := Some(p)], h, n)
    decreases n
  {
    if pm[h].Some? {
      ParentDepth(pm, h);
      AvoidingChainKept(pm, c, p, pm[h].value, n - 1);
    }
  }

  lemma {:induction false} AttachKeepsRooted(pm: ParentMap, c: Handle, p: Handle, h: Handle, n: nat)
    requires Acyclic(pm) && c in pm && p in pm && !InSubtree(pm, c, p) && RootedWithin(pm, h, n)
    ensures RootedWithin(pm[c := Some(p)], h, n + Span(pm) + 1)
    decreases n
  {
    var pm' := pm[c := Some(p)];
    if h == c {
      AvoidingChainKept(pm, c, p, p, Span(pm));
      MoreBound(pm', p, Span(pm), n + Span(pm));
    } else if pm[h].Some? {
      AttachKeepsRooted(pm, c, p, pm[h].value, n - 1);
    }
  }

  /** Re-linking `c` under a `p` outside `c`'s own subtree keeps the graph acyclic. */
  lemma AttachKeepsAcyclic(pm: ParentMap, c: Handle, p: Handle)
    requires Acyclic(pm) && c in pm && p in pm && !InSubtree(pm, c, p)
    ensures Acyclic(pm[c := Some(p)])
  {
    var n, pm' := Span(pm), pm[c := Some(p)];
    forall h | h in pm' ensures RootedWithin(pm', h, n + n + 1) {
      AttachKeepsRooted(pm, c, p, h, n);
    }
    assert AcyclicWithin(pm', n + n + 1);
  }

  /** Following exactly `k` parent links from `x` lands on `y`. */
  ghost predicate LinksTo(pm: ParentMap, x: Handle, y: Handle, k: nat)
    decreases k
  {
    x in pm && (if k == 0 then x == y else pm[x].Some? && LinksTo(pm, pm[x].value, y, k - 1))
  }

  lemma {:induction false} RootedAlong(pm: ParentMap, x: Handle, y: Handle, k: nat, n: nat)
    requires LinksTo(pm, x, y, k) && RootedWithin(pm, x, n)
    ensures k <= n && RootedWithin(pm, y, n - k)
    decreases k
  {
    if k > 0 {
      RootedAlong(pm, pm[x].value, y, k - 1, n - 1);
    }
  }

  /** A node that leads back to itself is never rooted. */
  lemma {:induction false} LoopNeverRooted(pm: ParentMap, c: Handle, k: nat, n: nat)
    requires LinksTo(pm, c, c, k) && k > 0
    ensures !RootedWithin(pm, c, n)
    decreases n
  {
    if RootedWithin(pm, c, n) {
      RootedAlong(pm, c, c, k, n);
      LoopNeverRooted(pm, c, k, n - k);
    }
  }

  /** Re-linking `c` leaves intact every chain from below `c` up to `c`. */
  lemma {:induction false} ChainToTopKept(pm: ParentMap, c: Handle, p: Handle, h: Handle) returns (k: nat)
    requires Acyclic(pm) && h in pm && InSubtree(pm, c, h)
    ensures LinksTo(pm[c := Some(p)], h, c, k)
    decreases Depth(pm, h)
  {
    if h == c {
      k := 0;
    } else {
      ParentDepth(pm, h);
      var k' := ChainToTopKept(pm, c, p, pm[h].value);
      k := k' + 1;
    }
  }

  /**
    Re-linking `c` under a node of its own subtree (itself included) creates a
    cycle: this is what the engine does not guard against.
  */
  lemma AttachIntoOwnSubtreeMakesCycle(pm: ParentMap, c: Handle, p: Handle)
    requires Acyclic(pm) && c in pm && p in pm && InSubtree(pm, c, p)
    ensures !Acyclic(pm[c := Some(p)])
  {
    var pm' := pm[c := Some(p)];
    var k := ChainToTopKept(pm, c, p, p);
    assert LinksTo(pm', c, c, k + 1);
    if Acyclic(pm') {
      assert RootedWithin(pm', c, Span(pm'));
      LoopNeverRooted(pm', c, k + 1, Span(pm'));
    }
  }
}
