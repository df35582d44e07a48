# Wicked Engine scene-graph transforms, in Dafny

This project models the scene-graph bookkeeping of Wicked Engine's
`wiSceneComponents::Transform` (which extends `Node`), as implemented in
`WickedEngine/wiTransform.cpp`, and proves properties of that model:

- **Node identity.** Each new node draws its ID from a process-wide counter
  that moves on by one. One `Scenes.Scene` object stands for all the
  transforms of the process, so its `counter` field plays the part of that
  single static counter.
- **The hierarchy.** Each transform has a parent pointer and a children set.
  `attachTo`, `detach`, `detachChild` and the destructor keep the two sides
  consistent.
- **Queries.** `find` (by name or by ID), `GetRoot` and `GetLayerMask` walk
  the hierarchy.
- **Channel bookkeeping.** This covers:
  - the rest channels, the world channels and their previous-frame shadows;
  - the flagged copy that `applyTransform` makes on detach;
  - the additive and multiplicative `transform` update and the setters built
    on it (`Translate`, `Rotate`, `Scale`, `RotateRollPitchYaw`, `Lerp`,
    `CatmullRom`);
  - `UpdateTransform`, which refreshes a transform and then its children, in
    order, and spreads the changed flag.

The transforms live in an arena, `Arena.Graph`, which holds three maps keyed
by handle:

- `parent`: each transform's parent pointer, or `None` for a null pointer;
- `kids`: each transform's children set;
- `nodes`: each transform's own fields, as a `Transforms.Transform` record.

A handle is the transform's unique ID. A children set (`std::set<Transform*>`)
is a strictly increasing sequence of handles, so handle order stands in for
pointer order.

The modules are:

- **`Scenes.Scene`** is the class whose methods change the scene in place, as
  the engine's member functions do. Each method is proved to leave exactly the
  graph that its contract describes, and to keep the graph well formed. For
  most methods that graph is a function of `Edits`, `Updates` or `Poses`.
  `AddTransform` and `ApplyTransform` instead state their new maps directly. Well formed means three things: links agree in both
  directions, children are kept in order, and every transform is stored under
  its own ID, which is below the counter.
- **`Edits`** holds the hierarchy edits.
- **`Updates`** holds UpdateTransform.
- **`Poses`** holds the pose setters.
- **`Queries`** holds the read-only walks.
- **`Hierarchy`** defines acyclicity and depth over the parent links.
- **`Transforms`** holds the single-record operations.

The DirectXMath calls are opaque. They are the function fields of a
`Math.MathLib` value that the operations take as a parameter, so every
property holds whatever those calls compute. Floats are modelled as reals.

The copy flags in `getMatrix(t, r, s)` might suggest that it returns a
flag-filtered matrix, but the code ignores them and returns `world`
(WickedEngine/wiTransform.cpp:44-46). So the `parent_inv_rest` that
`attachTo` stores is always the inverse of the parent's full world matrix. The
model follows the code (`Transforms.GetMatrix`, `Edits.Attached`).

## Model

| member | source | states |
|---|---|---|
| Scenes.Scene.constructor | WickedEngine/wiTransform.cpp:10 | the scene starts empty and well formed, with the ID counter at zero |
| Scenes.Scene.AddTransform | WickedEngine/wiTransform.cpp:12-15 | the new transform gets the counter's value as its ID, which is above every live ID; the counter moves on by one; the new transform has no parent, no children and a fresh record; the scene stays well formed |
| Transforms.NewTransform | WickedEngine/wiTransform.cpp:31-36 | a new transform carries the given ID, empty name, parent name and bone-parent name, a cleared pose and no changed flag |
| Arena.AddNode | WickedEngine/wiTransform.cpp:31-36 | adding a node with no parent and no children keeps parent and children links consistent |
| Scenes.Scene.ApplyTransform | WickedEngine/wiTransform.cpp:132-139 | only the transform's own record changes, by ApplyFlags; the scene stays well formed |
| Transforms.ApplyFlags | WickedEngine/wiTransform.cpp:132-139 | each rest channel is overwritten by its world counterpart exactly when its flag is nonzero; the rest matrix and every other field are unchanged |
| Transforms.Detached | WickedEngine/wiTransform.cpp:128 | detaching applies the stored copy flags to the rest channels and changes nothing else about the record |
| Scenes.Scene.Detach | WickedEngine/wiTransform.cpp:123-131 | the scene becomes `Edits.DetachFrom` of the old scene and stays well formed |
| Edits.DetachFrom | WickedEngine/wiTransform.cpp:123-131 | the three maps stay aligned and the set of live transforms is unchanged |
| Edits.DetachClearsParent | WickedEngine/wiTransform.cpp:130 | detach clears the node's parent link and no other |
| Edits.DetachFreezes | WickedEngine/wiTransform.cpp:124-129 | a node with a parent freezes its flagged channels; a node without one keeps every record as it was |
| Edits.DetachErases | WickedEngine/wiTransform.cpp:125-127 | the old parent's children set loses exactly this node and stays ordered; no other children set changes |
| Edits.DetachUnlists | WickedEngine/wiTransform.cpp:123-131 | after detach the node is in no children set |
| Edits.DetachKeepsLinked | WickedEngine/wiTransform.cpp:123-131 | detach keeps parent and children links consistent and children ordered |
| Edits.DetachKeepsWellFormed | WickedEngine/wiTransform.cpp:123-131 | detach keeps the graph well formed |
| Edits.DetachKeepsArenaAcyclic | WickedEngine/wiTransform.cpp:123-131 | detach keeps an acyclic graph acyclic |
| Arena.CutLink | WickedEngine/wiTransform.cpp:123-131 | cutting a node from its parent on both sides keeps links consistent |
| Arena.OrphanIsNoChild | WickedEngine/wiTransform.cpp:123-131 | in linked maps, a parentless node is nobody's child |
| OrderedSet.Erase | WickedEngine/wiTransform.cpp:126 | `std::set::erase`: the result holds exactly the old members other than `x`, stays ordered and is no longer |
| OrderedSet.Insert | WickedEngine/wiTransform.cpp:60 | `std::set::insert`: the result holds exactly the old members and `x`, and stays ordered |
| Scenes.Scene.AttachTo | WickedEngine/wiTransform.cpp:48-62 | the scene becomes `Edits.AttachedTo` of the old scene and stays well formed; a null parent changes nothing |
| Scenes.Scene.Adopt | WickedEngine/wiTransform.cpp:54-60 | a parentless node takes the new parent, and the parent lists it; the scene stays well formed |
| Edits.AttachedTo | WickedEngine/wiTransform.cpp:48-62 | the three maps stay aligned and the set of live transforms is unchanged |
| Edits.Adopted | WickedEngine/wiTransform.cpp:54-60 | the three maps stay aligned and the set of live transforms is unchanged |
| Transforms.GetMatrix | WickedEngine/wiTransform.cpp:44-46 | getMatrix returns the world matrix and ignores all three flag arguments |
| Edits.Attached | WickedEngine/wiTransform.cpp:55-59 | the node records the parent's name, the three copy flags and the inverse of the parent's full world matrix; its bone-parent name and every other field are unchanged |
| Edits.AttachSetsParent | WickedEngine/wiTransform.cpp:54 | attachTo(p) sets the node's parent link to `p` and changes no other parent link |
| Edits.AttachLists | WickedEngine/wiTransform.cpp:48-62 | afterwards the node is in `p`'s children, which otherwise keep their members, and in no other children set |
| Edits.AttachRecords | WickedEngine/wiTransform.cpp:50-59 | the node's record is its old record, frozen first if it had a parent, with `p`'s name, the flags and the inverse of `p`'s world matrix; no other record changes |
| Edits.AttachKeepsIds | WickedEngine/wiTransform.cpp:48-62 | attachTo changes no node's ID |
| Edits.AttachKeepsLinked | WickedEngine/wiTransform.cpp:48-62 | attachTo keeps parent and children links consistent |
| Edits.AttachKeepsWellFormed | WickedEngine/wiTransform.cpp:48-62 | attachTo keeps the graph well formed |
| Edits.AttachAcyclicIff | WickedEngine/wiTransform.cpp:48-62 | attachTo(p) keeps an acyclic graph acyclic if and only if `p` is not in the node's own subtree |
| Hierarchy.AttachKeepsAcyclic | WickedEngine/wiTransform.cpp:54 | re-linking a node under a parent outside its own subtree keeps the parent links acyclic |
| Hierarchy.AttachIntoOwnSubtreeMakesCycle | WickedEngine/wiTransform.cpp:54 | re-linking a node under itself or one of its descendants creates a cycle |
| Arena.AddLink | WickedEngine/wiTransform.cpp:54-60 | linking a parentless node under a parent on both sides keeps links consistent |
| Scenes.Scene.DetachChild | WickedEngine/wiTransform.cpp:102-121 | with a null child the scene becomes `Edits.DetachedChildren`, otherwise `Edits.DetachedChild`; the scene stays well formed |
| Scenes.Scene.DetachChildren | WickedEngine/wiTransform.cpp:103-114 | the scene becomes `Edits.DetachedChildren` of the old scene and stays well formed |
| Scenes.Scene.DetachInTurn | WickedEngine/wiTransform.cpp:108-113 | the loop leaves the scene as `Edits.DetachEach` of the old scene and the handles; the scene stays well formed |
| Scenes.Scene.DetachOneChild | WickedEngine/wiTransform.cpp:116-120 | the scene becomes `Edits.DetachedChild` of the old scene and stays well formed |
| Edits.DetachEach | WickedEngine/wiTransform.cpp:108-113 | detaching handles in turn keeps the maps aligned and the set of live transforms |
| Edits.DetachEachStep | WickedEngine/wiTransform.cpp:109-113 | detaching the first `i + 1` handles is detaching the first `i`, then the next |
| Edits.DetachEachParents | WickedEngine/wiTransform.cpp:108-113 | detaching handles in turn clears exactly their parent links |
| Edits.DetachEachRecords | WickedEngine/wiTransform.cpp:108-113 | detaching distinct parented handles in turn freezes exactly their records |
| Edits.DetachEachKids | WickedEngine/wiTransform.cpp:108-113 | detaching children of `h` in turn changes no children set but `h`'s |
| Edits.DetachedChildren | WickedEngine/wiTransform.cpp:103-114 | the maps stay aligned and the set of live transforms is unchanged |
| Edits.DetachedChildrenKids | WickedEngine/wiTransform.cpp:114 | afterwards `h` has no children and every other children set is as before |
| Edits.DetachedChildrenParents | WickedEngine/wiTransform.cpp:108-113 | exactly the former children become parentless |
| Edits.DetachedChildrenRecords | WickedEngine/wiTransform.cpp:108-113 | exactly the former children freeze their flagged channels |
| Edits.ClearChildrenLinked | WickedEngine/wiTransform.cpp:108-114 | clearing the parent links of all children of `h`, and then `h`'s children set, keeps links consistent |
| Edits.DetachedChildrenKeepsLinked | WickedEngine/wiTransform.cpp:102-115 | detachChild() keeps links consistent |
| Edits.DetachedChildrenKeepsWellFormed | WickedEngine/wiTransform.cpp:102-115 | detachChild() keeps the graph well formed |
| Edits.DetachedChildrenKeepOwnParent | WickedEngine/wiTransform.cpp:102-115 | in an acyclic graph, detachChild() never detaches the node itself: its own parent link is kept |
| Arena.AcyclicNoSelfChild | WickedEngine/wiTransform.cpp:102-115 | in an acyclic graph whose children point back at their parent, no node is its own child |
| Edits.DetachedChildrenKeepsAcyclic | WickedEngine/wiTransform.cpp:102-115 | detachChild() keeps an acyclic graph acyclic |
| Edits.DetachedChild | WickedEngine/wiTransform.cpp:116-120 | the maps stay aligned and the set of live transforms is unchanged |
| Edits.DetachedChildEffect | WickedEngine/wiTransform.cpp:116-120 | detachChild(c) is a no-op when `c` is not a child; otherwise `c` alone loses its parent and `h` loses exactly `c`; the graph stays well formed |
| Scenes.Scene.Destroy | WickedEngine/wiTransform.cpp:37-41 | the scene becomes `Edits.Destroyed` of the old scene and stays well formed |
| Edits.Destroyed | WickedEngine/wiTransform.cpp:37-41 | the maps stay aligned and exactly the destroyed transform is gone |
| Edits.DestroyFirstStep | WickedEngine/wiTransform.cpp:39 | after detach() the node still lists its children in order, and they still point at it |
| Edits.DestroyParents | WickedEngine/wiTransform.cpp:37-41 | exactly the former children become parentless |
| Edits.DestroyKids | WickedEngine/wiTransform.cpp:37-41 | every remaining children set is as detach() left it |
| Edits.DestroyRecords | WickedEngine/wiTransform.cpp:37-41 | exactly the former children freeze their flagged channels |
| Edits.DestroyKeepsLinked | WickedEngine/wiTransform.cpp:37-41 | links stay consistent, and no remaining link refers to the destroyed node |
| Edits.DestroyKeepsWellFormed | WickedEngine/wiTransform.cpp:37-41 | the destructor keeps the graph well formed |
| Edits.DestroyKeepsAcyclic | WickedEngine/wiTransform.cpp:37-41 | the destructor keeps an acyclic graph acyclic |
| Arena.DropNode | WickedEngine/wiTransform.cpp:37-41 | removing a parentless, childless node keeps links consistent |
| Hierarchy.PrunedKeepsAcyclic | WickedEngine/wiTransform.cpp:102-131 | clearing parent links, and dropping nodes nobody points to, keeps the graph acyclic |
| Queries.GetRoot | WickedEngine/wiTransform.cpp:337-344 | the result is parentless and lies above the node |
| Queries.RootIsUnique | WickedEngine/wiTransform.cpp:337-344 | the only parentless node above a node is its root |
| Queries.GetLayerMask | WickedEngine/wiTransform.cpp:345-352 | the effective mask has no bit that the node's own mask lacks |
| Queries.LayerMaskWithinAncestors | WickedEngine/wiTransform.cpp:345-352 | the effective mask has no bit that any ancestor's mask lacks |
| Queries.LayerMaskKeepsSharedBits | WickedEngine/wiTransform.cpp:345-352 | every bit that the node and all its ancestors share is in the effective mask, so the mask is the AND along the parent chain |
| Queries.Search | WickedEngine/wiTransform.cpp:63-100 | a result matches the key and lies in the subtree |
| Queries.SearchAmong | WickedEngine/wiTransform.cpp:63-100 | a result of the children loop matches the key and lies in the subtree |
| Queries.FindByName | WickedEngine/wiTransform.cpp:63-81 | a result has the requested name and lies in the subtree |
| Queries.FindById | WickedEngine/wiTransform.cpp:82-100 | a result has the requested ID and lies in the subtree |
| Queries.FirstMatch | WickedEngine/wiTransform.cpp:63-100 | there is a first match exactly when some listed node matches |
| Queries.FirstMatchAppend | WickedEngine/wiTransform.cpp:70-79 | the first match of two listings in a row comes from the first if it has one, otherwise from the second |
| Queries.PreOrderIsSubtree | WickedEngine/wiTransform.cpp:63-100 | the pre-order listing holds exactly the nodes of the subtree |
| Queries.PreOrderAmongIsSubtrees | WickedEngine/wiTransform.cpp:70-79 | the listing of the children holds exactly the nodes below them |
| Queries.SearchIsPreOrderFirst | WickedEngine/wiTransform.cpp:63-100 | find returns exactly the first match of the subtree in pre-order |
| Queries.SearchAmongIsPreOrderFirst | WickedEngine/wiTransform.cpp:63-100 | the children loop returns exactly the first match of their listings |
| Queries.SearchFailsOnlyWithoutMatch | WickedEngine/wiTransform.cpp:63-100 | find returns null if and only if no node of the subtree matches |
| Queries.FindByIdIsSubtreeMembership | WickedEngine/wiTransform.cpp:82-100 | find(id) returns `id` exactly when that transform is live and in the subtree, and null otherwise |
| Scenes.Scene.UpdateTransform | WickedEngine/wiTransform.cpp:168-209 | the records become `Updates.Updated` of the old scene; links and counter are unchanged; the scene stays well formed |
| Transforms.Refresh | WickedEngine/wiTransform.cpp:170-203 | one node's step: the world pose is saved as previous; the rest matrix is recomposed; a parentless node's world pose is its rest pose; a parented node's world matrix is rest x parent_inv_rest x the parent's world matrix, its channels are the decomposition, and it is changed exactly when it or its parent was |
| Transforms.RestMatrix | WickedEngine/wiTransform.cpp:175-183 | the rest matrix is Scaling(scale), then Rotation(rotation), then Translation(translation), multiplied in that order |
| Arena.ParentRecord | WickedEngine/wiTransform.cpp:185-195 | there is a parent record exactly when the node has a live parent, and it is that parent's record |
| Updates.Updated | WickedEngine/wiTransform.cpp:168-209 | UpdateTransform keeps the set of live transforms |
| Updates.UpdatedAmong | WickedEngine/wiTransform.cpp:204-208 | the children loop keeps the set of live transforms |
| Updates.UpdatedFrame | WickedEngine/wiTransform.cpp:168-209 | no record outside the subtree changes |
| Updates.UpdatedAmongFrame | WickedEngine/wiTransform.cpp:204-208 | the children loop changes no record outside their subtrees |
| Updates.UpdatedValues | WickedEngine/wiTransform.cpp:168-209 | every record of the subtree is its old record refreshed from its parent's new record, so parents are refreshed before their children |
| Updates.UpdatedAmongValues | WickedEngine/wiTransform.cpp:204-208 | after the loop every record below a child is refreshed from its parent's new record |
| Updates.SiblingsDisjoint | WickedEngine/wiTransform.cpp:204-208 | two children of the same node have disjoint subtrees |
| Updates.UpdateSnapshotsPrev | WickedEngine/wiTransform.cpp:170-183 | every node of the subtree saves its old world pose as previous and keeps its rest channels |
| Updates.UpdateKeepsChanged | WickedEngine/wiTransform.cpp:194 | the changed flag is never cleared, and a node of the subtree ends changed exactly when it was changed or its parent ends changed |
| Updates.UpdateSpreadsChanged | WickedEngine/wiTransform.cpp:194-208 | when the top node ends changed, every node of its subtree ends changed |
| Updates.UpdateKeepsIds | WickedEngine/wiTransform.cpp:168-209 | UpdateTransform changes no ID |
| Scenes.Scene.Repose | WickedEngine/wiTransform.cpp:140-155 | the records become `Poses.Reposed` of the old scene; links and counter are unchanged; the scene stays well formed |
| Poses.Reposed | WickedEngine/wiTransform.cpp:140-155 | setting a record and updating keeps the set of live transforms |
| Poses.ReposedRest | WickedEngine/wiTransform.cpp:140-155 | the node keeps the new rest channels, with the rest matrix recomposed from them |
| Poses.ReposedFrame | WickedEngine/wiTransform.cpp:140-155 | no record outside the node's subtree changes |
| Poses.ReposedMarksSubtree | WickedEngine/wiTransform.cpp:140-155 | when the new record is changed, the whole subtree ends changed |
| Scenes.Scene.TransformBy | WickedEngine/wiTransform.cpp:140-155 | the records become `Poses.Transformed` of the old scene and the scene stays well formed |
| Transforms.Nudged | WickedEngine/wiTransform.cpp:142-152 | sets the changed flag, adds `t` to the rest translation, multiplies the rest scale by `s` and sets the rest rotation to the normalized product with `r`; nothing else changes |
| Poses.Transformed | WickedEngine/wiTransform.cpp:140-155 | transform(t, r, s) keeps the set of live transforms |
| Poses.TransformedRest | WickedEngine/wiTransform.cpp:140-155 | afterwards the rest translation has moved by `t`, the rest scale is multiplied by `s` and the rest rotation is the normalized product with `r` |
| Poses.TransformedMarksSubtree | WickedEngine/wiTransform.cpp:140-155 | afterwards the whole subtree is changed |
| Scenes.Scene.TransformByMatrix | WickedEngine/wiTransform.cpp:156-167 | the records become `Poses.TransformedByMatrix` of the old scene |
| Poses.TransformedByMatrix | WickedEngine/wiTransform.cpp:156-167 | keeps the set of live transforms; a matrix that does not decompose changes nothing; otherwise the result is transform(t, r, s) with the decomposition's translation, rotation and scale |
| Scenes.Scene.Translate | WickedEngine/wiTransform.cpp:210-213 | the records become `Poses.Translated` of the old scene |
| Poses.Translated | WickedEngine/wiTransform.cpp:210-213 | keeps the set of live transforms |
| Poses.TranslateKeepsScale | WickedEngine/wiTransform.cpp:210-213 | Translate leaves the rest scale unchanged |
| Scenes.Scene.Rotate | WickedEngine/wiTransform.cpp:233-236 | the records become `Poses.Rotated` of the old scene |
| Poses.Rotated | WickedEngine/wiTransform.cpp:233-236 | keeps the set of live transforms |
| Poses.RotateKeepsTranslationAndScale | WickedEngine/wiTransform.cpp:233-236 | Rotate leaves the rest translation and the rest scale unchanged |
| Scenes.Scene.Scale | WickedEngine/wiTransform.cpp:237-240 | the records become `Poses.Scaled` of the old scene |
| Poses.Scaled | WickedEngine/wiTransform.cpp:237-240 | keeps the set of live transforms |
| Poses.ScaleKeepsTranslation | WickedEngine/wiTransform.cpp:237-240 | Scale leaves the rest translation unchanged and multiplies the rest scale by its argument |
| Scenes.Scene.RotateRollPitchYaw | WickedEngine/wiTransform.cpp:214-232 | the records become `Poses.Reposed` of the old scene with the record `Poses.Rolled` |
| Poses.Rolled | WickedEngine/wiTransform.cpp:214-231 | the node is marked changed; the rest rotation q becomes normalize(Z * ((X * q) * Y)), with X, Y and Z the roll-pitch-yaw rotations about each axis, in that uneven order; rest translation, scale and matrix and every other field are kept |
| Scenes.Scene.Lerp | WickedEngine/wiTransform.cpp:241-249 | the records become `Poses.Reposed` of the old scene with the record `Poses.Blended` |
| Poses.Blended | WickedEngine/wiTransform.cpp:241-248 | the node is marked changed; its rest translation and scale become the lerp, and its rest rotation the slerp, of `a`'s and `b`'s WORLD channels; the rest matrix and every other field (world, prev, name, layer mask, ID, attachment) are kept |
| Scenes.Scene.CatmullRom | WickedEngine/wiTransform.cpp:250-335 | the records become `Poses.Reposed` of the old scene with the record `Poses.Splined` |
| Poses.Splined | WickedEngine/wiTransform.cpp:250-333 | the node is marked changed; its rest translation and scale become the Catmull-Rom splines through the four WORLD channels, and its rest rotation the normalized spline of the four world rotations; the rest matrix and every other field are kept |

## Left out

- The DirectXMath and wiMath numerics are left out. This covers decompose,
  inverse, matrix and quaternion products, normalize, roll-pitch-yaw, lerp,
  slerp and Catmull-Rom. They are uninterpreted fields of `Math.MathLib`, and
  floating point is modelled as reals. No property depends on what they
  compute.
- `Node::Serialize` and `Transform::Serialize` (WickedEngine/wiTransform.cpp:18-28, 353-386) are left out: they are archive I/O through `wiArchive`, which is not part of this model.
- The atomic `fetch_add` on the ID counter (WickedEngine/wiTransform.cpp:10) is left out: the model is sequential, and the counter is a plain field of `Scenes.Scene`.
- Scenes.Scene.AddTransform: the counter is an unbounded `nat`, while the source's counter is a `uint64_t` that wraps after 2^64 IDs. So "the new ID is above every live ID" matches the source only while fewer than 2^64 nodes have been made.
- The source counter is a single static that is never reset. The model keeps it as a field of one `Scenes.Scene`, set to zero by the constructor, and that one object stands for the whole process. Two `Scene` objects would hand out the same IDs, which the source cannot do.
- `wiTransform.h` is not part of this model. Its values are taken to be as
  follows:
  - `ClearTransform` gives an identity pose, copy flags 1, a full layer mask
    and no changed flag;
  - the default arguments of `transform(t, r, s)` are an identity rotation and
    unit scale, which `Translate` and `Rotate` rely on;
  - `GetLayerMask` and `GetID` of `Node` read the stored fields;
  - the default arguments of `applyTransform` (editor code calls it with none)
    are not modelled: `Scenes.Scene.ApplyTransform` always takes the three
    flags.
- Pointer order of the children set is not modelled. `std::set<Transform*>`
  orders children by address; the model orders them by handle. The order shows
  in which child `find` searches first and which child `UpdateTransform`
  refreshes first.
- The null-pointer checks on children (WickedEngine/wiTransform.cpp:71, 90, 110) are left out: a handle is never null, so a children set never holds null.
- Fields are not stored per object. The parent pointer and the children set of
  each transform live in `Arena.Graph`'s maps rather than in the record.
  Aliasing between transforms is not modelled; the model writes each link by
  handle.
- Direct writes to public fields (`name`, `layerMask`, the bone-parent name)
  by code outside this file are left out.
- Queries.GetRoot, Queries.Search, Queries.FindByName, Queries.FindById, Queries.GetLayerMask, Updates.Updated and Scenes.Scene.UpdateTransform: require the parent links of the whole graph to be acyclic. The engine takes this for granted but never checks it, and it needs only the part it walks to be acyclic. `Edits.AttachAcyclicIff` shows which `attachTo` calls keep the graph acyclic.
- Scenes.Scene.Repose, Scenes.Scene.TransformBy, Scenes.Scene.TransformByMatrix, Scenes.Scene.Translate, Scenes.Scene.Rotate, Scenes.Scene.Scale, Scenes.Scene.RotateRollPitchYaw, Scenes.Scene.Lerp, Scenes.Scene.CatmullRom and every `Poses` function built on `Updates.Updated`: inherit the same requirement. The whole graph must be acyclic, not only the subtree that UpdateTransform walks.
- Scenes.Scene.Lerp, Scenes.Scene.CatmullRom and Scenes.Scene.RotateRollPitchYaw: the new rest channels are stated as the opaque math calls applied to the source's inputs (`Poses.Blended`, `Poses.Splined`, `Poses.Rolled`), so nothing is proved about the numbers they compute.
- The editor code (`Editor/Translator.cpp`, `Editor/Translator.h`, `Editor/WorldWindow.cpp`) is left out. It is GUI, rendering and input glue.
