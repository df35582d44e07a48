/**
  The scene graph. Every live transform sits under its handle; the parent
  pointer and the children set of every transform are kept as two maps beside
  the transforms' own records. The invariant the engine maintains through
  attach and detach is `Linked`: a node lists `c` among its children exactly
  when `c`'s parent is that node.
*/
module Arena {
  import opened Wrappers
  import opened Hierarchy
  import opened OrderedSet
  import opened Transforms

  /** Each transform's children set. */
  type KidMap = map<Handle, seq<Handle>>

  /** The live transforms: each one's parent, children and own record, under its handle. */
  datatype Graph = Graph(parent: ParentMap, kids: KidMap, nodes: map<Handle, Transform>)

  /** The three maps cover the same handles. */
  predicate Aligned(g: Graph) {
    g.parent.Keys == g.nodes.Keys && g.kids.Keys == g.nodes.Keys
  }

  /** Every node with a parent is among that parent's children. */
  ghost predicate ParentsList(pm: ParentMap, km: KidMap) {
    forall h :: h in pm && pm[h].Some? ==> pm[h].value in km && h in km[pm[h].value]
  }

  /** Every child of a node has that node as its parent. */
  ghost predicate ChildrenPoint(pm: ParentMap, km: KidMap) {
    forall h, c :: h in km && c in km[h] ==> c in pm && pm[c] == Some(h)
  }

  /** Every children set is kept in order. */
  ghost predicate AllSorted(km: KidMap) {
    forall h :: h in km ==> Sorted(km[h])
  }

  /** Parent and children links agree and point inside the graph, and children are kept in order. */
  ghost predicate LinkedMaps(pm: ParentMap, km: KidMap) {
    pm.Keys == km.Keys && ParentsList(pm, km) && ChildrenPoint(pm, km) && AllSorted(km)
  }

  ghost predicate Linked(g: Graph) {
    Aligned(g) && LinkedMaps(g.parent, g.kids)
  }

  /** Every live transform is stored under its own ID, and every ID was drawn from the counter. */
  ghost predicate Identified(nodes: map<Handle, Transform>, counter: nat) {
    forall h :: h in nodes ==> nodes[h].id == h && h < counter
  }

  ghost predicate WellFormed(g: Graph, counter: nat) {
    Identified(g.nodes, counter) && Linked(g)
  }

  /** The record of `d`'s parent in `nodes`, if `d` has a parent. */
  function ParentRecord(pm: ParentMap, nodes: map<Handle, Transform>, d: Handle): (r: Option<Transform>)
    requires d in pm
    ensures r.Some? <==> pm[d].Some? && pm[d].value in nodes
    ensures r.Some? ==> r.value == nodes[pm[d].value]
  {
    match pm[d]
    case Some(q) => if q in nodes then Some(nodes[q]) else None
    case None => None
  }

  /** In linked maps, a parentless node is nobody's child. */
  lemma OrphanIsNoChild(pm: ParentMap, km: KidMap, h: Handle)
    requires ChildrenPoint(pm, km) && h in pm && pm[h].None?
    ensures forall y :: y in km ==> h !in km[y]
  {
  }

  /** In an acyclic graph no node is its own child. */
  lemma AcyclicNoSelfChild(pm: ParentMap, km: KidMap, h: Handle)
    requires ChildrenPoint(pm, km) && Acyclic(pm) && h in km
    ensures h !in km[h]
  {
    if h in km[h] {
      ParentDepth(pm, h);
    }
  }

  /** Cutting `h` from its parent on both sides keeps the links consistent. */
  lemma CutLink(pm: ParentMap, km: KidMap, h: Handle)
    requires LinkedMaps(pm, km) && h in pm && pm[h].Some?
    ensures var p := pm[h].value;
            LinkedMaps(pm[h := None], km[p := Erase(km[p], h)])
  {
    CutKeepsParentsListed(pm, km, h);
    CutKeepsChildrenPointing(pm, km, h);
  }

  lemma CutKeepsParentsListed(pm: ParentMap, km: KidMap, h: Handle)
    requires pm.Keys == km.Keys && ParentsList(pm, km) && h in pm && pm[h].Some?
    ensures var p := pm[h].value; ParentsList(pm[h := None], km[p := Erase(km[p], h)])
  {
  }

  lemma CutKeepsChildrenPointing(pm: ParentMap, km: KidMap, h: Handle)
    requires pm.Keys == km.Keys && ParentsList(pm, km) && ChildrenPoint(pm, km) && h in pm && pm[h].Some?
    ensures var p := pm[h].value; ChildrenPoint(pm[h := None], km[p := Erase(km[p], h)])
  {
  }

  /** Linking a parentless `h` under `p` on both sides keeps the links consistent. */
  lemma AddLink(pm: ParentMap, km: KidMap, h: Handle, p: Handle)
    requires LinkedMaps(pm, km) && h in pm && pm[h].None? && p in pm
    ensures LinkedMaps(pm[h := Some(p)], km[p := Insert(km[p], h)])
  {
    AddKeepsParentsListed(pm, km, h, p);
    AddKeepsChildrenPointing(pm, km, h, p);
  }

  lemma AddKeepsParentsListed(pm: ParentMap, km: KidMap, h: Handle, p: Handle)
    requires pm.Keys == km.Keys && ParentsList(pm, km) && h in pm && p in pm
    ensures ParentsList(pm[h := Some(p)], km[p := Insert(km[p], h)])
  {
  }

  lemma AddKeepsChildrenPointing(pm: ParentMap, km: KidMap, h: Handle, p: Handle)
    requires pm.Keys == km.Keys && ParentsList(pm, km) && ChildrenPoint(pm, km) && h in pm && pm[h].None? && p in pm
    ensures ChildrenPoint(pm[h := Some(p)], km[p := Insert(km[p], h)])
  {
    var pm', km' := pm[h := Some(p)], km[p := Insert(km[p], h)];
    forall y, c | y in km' && c in km'[y] ensures c in pm' && pm'[c] == Some(y) {
      if y != p {
        assert c in km[y];
      } else if c != h {
        assert c in km[p];
      }
    }
  }

  /** Removing a parentless, childless `h` keeps the links consistent. */
  lemma DropNode(pm: ParentMap, km: KidMap, h: Handle)
    requires LinkedMaps(pm, km) && h in pm && pm[h].None? && km[h] == []
    ensures LinkedMaps(pm - {h}, km - {h})
  {
    var pm', km' := pm - {h}, km - {h};
    forall y | y in pm' && pm'[y].Some? ensures pm'[y].value in km' && y in km'[pm'[y].value] {
      assert pm[y].value != h;
    }
  }

  /** Adding a new node, with no parent and no children, keeps the links consistent. */
  lemma AddNode(pm: ParentMap, km: KidMap, h: Handle)
    requires LinkedMaps(pm, km) && h !in pm
    ensures LinkedMaps(pm[h := None], km[h := []])
  {
  }
}
