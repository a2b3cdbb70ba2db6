# XenDX entity, scene and path core in Dafny

This project models the discrete core of the XenDX engine:

- `x::EntityId`, a 64-bit handle whose largest value is the invalid sentinel;
- `x::ComponentManager<T>`, a dense, swap-compacting store of one component
  type, keyed by entity, with its iterators;
- `x::GameState`, the entity id counter together with the transform store;
- `x::TransformComponent`, with its position, rotation and scale, its cached
  matrix and its dirty flag;
- `x::Scene`, a hierarchy of scene nodes over a private copy of a game
  state. It supports create, cascading remove, attach, detach, set-world and
  unload, and it propagates world matrices top-down;
- `x::Filesystem::Path` on POSIX: normalisation, `==`, extensions, join and
  parent;
- the `ShaderStages` bitmask of the Direct3D 11 buffer wrapper, with
  `HasStage` and `SupportsBinding`.

Imperative code is modelled as classes with `modifies` clauses:
`ComponentManager`, `GameState`, `Scene`, the `TransformComponent` object and
the two loops of `Path::Normalize`. Each method is specified against a pure
function, and the lemmas are proved about that function. Code that is pure in
the source is modelled with datatypes and functions: `EntityId`, `Path` and
`ShaderStages`.

Files:

| file | module | models |
|---|---|---|
| `wrappers.dfy` | `Wrappers` | `Option`, the null pointer / empty optional |
| `entity_id.dfy` | `Entities` | `u64`, `EntityId` |
| `math.dfy` | `XMath` | `XMMATRIX` as an abstract type, `XMFLOAT3` |
| `transform_component.dfy` | `Transforms` | `TransformComponent` |
| `component_manager.dfy` | `Components` | `ComponentManager<T>` and its iterators |
| `game_state.dfy` | `Game` | `GameState` |
| `scene_graph.dfy` | `SceneGraph` | scene nodes as an arena keyed by entity; subtrees; propagated worlds |
| `scene.dfy` | `Scenes` | `Scene` |
| `filesystem.dfy` | `Filesystem` | `Path` string logic |
| `shader_stages.dfy` | `DxBuffer` | `ShaderStages`, `SupportsBinding` |

How the pieces are represented:

- **Scene nodes.** The scene keeps its nodes in a map from entity to `Node`.
  A `Node` stores the child entities in order, the parent entity if any, and
  the local and world matrices. The `shared_ptr` and `weak_ptr` links become
  keys into this map.
- **The scene invariant, `Valid`.** Four things hold:
  - the links agree in both directions;
  - child lists hold no duplicates;
  - there is no cycle, witnessed by a ghost rank that falls from parent to
    child;
  - the scene is either empty or has a parentless root above every node, and
    no id exceeds the counter.
- **World consistency, `Consistent`.** This is the design's scene invariant:
  every node's world is its parent's world, or the identity at a parentless
  node, times its local transform. Attach, detach, set-world, remove and
  unload keep it. `CreateEntity` as written does not: a new node gets the
  identity world under any parent (see Findings).
- **Matrices.** `XMMatrixMultiply`, `XMMatrixInverse`, the identity and the
  decomposition of a world matrix into position, Euler angles and scale are
  fixed but unknown functions. Keeping the world pose across a re-parenting
  is proved under the group laws that it needs: associativity, a left-neutral
  identity and an invertible parent.

## Model

| member | source | states |
|---|---|---|
| Entities.Default | Code/XenEngine/EntityId.hpp:14 | the default constructor: the id holding the u64 maximum; see DefaultIsInvalid |
| Entities.Invalid | Code/XenEngine/EntityId.hpp:53-55 | `Invalid()`: the default id; see DefaultIsInvalid and ValidIffNotSentinel |
| Entities.EntityId.Value | Code/XenEngine/EntityId.hpp:17-19 | `value()` returns the stored raw value; see ValueRoundTrip |
| Entities.EntityId.Deref | Code/XenEngine/EntityId.hpp:45-47 | `operator*` returns the same raw value as `value()`; see ValueRoundTrip |
| Entities.EntityId.Valid | Code/XenEngine/EntityId.hpp:49-51 | `valid()` compares the raw value with the sentinel; see ValidIffNotSentinel |
| Entities.EntityId.Eq | Code/XenEngine/EntityId.hpp:21-23 | `==` compares raw values; see EqualityIsIdentity |
| Entities.EntityId.Ne | Code/XenEngine/EntityId.hpp:25-27 | `!=` compares raw values; see EqualityIsIdentity |
| Entities.EntityId.Lt | Code/XenEngine/EntityId.hpp:29-31 | `<` compares raw values; see OrderIsTotal |
| Entities.EntityId.Gt | Code/XenEngine/EntityId.hpp:33-35 | `>` compares raw values; see OrderIsTotal |
| Entities.EntityId.Le | Code/XenEngine/EntityId.hpp:37-39 | `<=` compares raw values; see OrderIsTotal |
| Entities.EntityId.Ge | Code/XenEngine/EntityId.hpp:41-43 | `>=` compares raw values; see OrderIsTotal |
| Entities.Hash | Code/XenEngine/EntityId.hpp:73-78 | the `std::hash` specialisation: the u64 hash, taken as a parameter, of `value()`; see HashRespectsEquality |
| Entities.DefaultIsInvalid | Code/XenEngine/EntityId.hpp:53-55 | the default id and `Invalid()` are the same id, and neither is valid |
| Entities.ValidIffNotSentinel | Code/XenEngine/EntityId.hpp:49-59 | `valid()` is false exactly when the raw value is the u64 maximum, that is exactly for `Invalid()` |
| Entities.ValueRoundTrip | Code/XenEngine/EntityId.hpp:15-19 | `value()` and `operator*` both return the value the id was built from |
| Entities.EqualityIsIdentity | Code/XenEngine/EntityId.hpp:21-27 | `==` holds exactly for the same id, `!=` exactly when `==` does not |
| Entities.OrderIsTotal | Code/XenEngine/EntityId.hpp:29-43 | `<` is irreflexive, transitive and total; `>`, `<=`, `>=` are its converse and reflexive closures |
| Entities.HashRespectsEquality | Code/XenEngine/EntityId.hpp:73-78 | equal ids hash alike whatever the u64 hash is |
| XMath.Vec3.Add | Code/XenEngine/TransformComponent.cpp:46-65 | `XMVectorAdd`: lane-wise sum of two vectors; see AddMonoid |
| XMath.AddMonoid | Code/XenEngine/TransformComponent.cpp:46-51 | the lane-wise `XMVectorAdd` groups either way and has zero as its unit, so successive deltas add up to one summed delta |
| XMath.Reparent | Code/XenEngine/Scene.cpp:80-84 | `parent * (inverse(parent) * world) == world` under associativity, a left-neutral identity and an invertible parent |
| Transforms.Compose | Code/XenEngine/TransformComponent.cpp:71-77 | scale, then rotation, then translation multiplied in that order; see Transform.UpdateTransformMatrix and UpdateAfterTranslate |
| Transforms.Transform.InverseMatrix | Code/XenEngine/TransformComponent.cpp:42-44 | `XMMatrixInverse` of the cached matrix; see TransformComponent.GetInverseTransformMatrix |
| Transforms.New | Code/XenEngine/TransformComponent.cpp:10-12 | a new component has position zero, rotation zero, scale one, the identity matrix and the dirty flag set |
| Transforms.Transform.SetPosition | Code/XenEngine/TransformComponent.cpp:14-16 | only the position changes; the dirty flag is untouched |
| Transforms.Transform.SetRotation | Code/XenEngine/TransformComponent.cpp:18-20 | only the rotation changes; the dirty flag is untouched |
| Transforms.Transform.SetScale | Code/XenEngine/TransformComponent.cpp:22-24 | only the scale changes; the dirty flag is untouched |
| Transforms.Transform.Translate | Code/XenEngine/TransformComponent.cpp:46-51 | the position moves by the delta, the dirty flag is set, nothing else changes |
| Transforms.Transform.Rotate | Code/XenEngine/TransformComponent.cpp:53-58 | as written: the position becomes rotation + delta, rotation and scale stay, the flag is set |
| Transforms.Transform.Scale | Code/XenEngine/TransformComponent.cpp:60-65 | as written: the position becomes scale + delta, rotation and scale stay, the flag is set |
| Transforms.Transform.RotateIntended | Code/XenEngine/TransformComponent.cpp:53-58 | corrected: the rotation grows by the delta and only the rotation and the flag change |
| Transforms.Transform.ScaleIntended | Code/XenEngine/TransformComponent.cpp:60-65 | corrected: the scale grows by the delta and only the scale and the flag change |
| Transforms.Transform.UpdateTransformMatrix | Code/XenEngine/TransformComponent.cpp:71-77 | the matrix becomes scale·rotation·translation of the current fields and the flag is cleared |
| Transforms.Transform.Update | Code/XenEngine/TransformComponent.cpp:67-69 | a clean component is unchanged; a dirty one is rebuilt; afterwards it is clean |
| Transforms.Transform.WithPose | Code/XenEngine/Scene.cpp:196-198 | the three setters together install the pose and leave matrix and flag alone |
| Transforms.UpdateIdempotent | Code/XenEngine/TransformComponent.cpp:67-77 | a second `Update` changes nothing |
| Transforms.UpdateAfterTranslate | Code/XenEngine/TransformComponent.cpp:46-51 | after `Translate` the next `Update` rebuilds the matrix from the moved position |
| Transforms.SettersLeaveMatrixStale | Code/XenEngine/TransformComponent.cpp:14-24 | setters on a clean component leave `Update` keeping the old matrix |
| Transforms.WithPoseOverwrites | Code/XenEngine/Scene.cpp:196-198 | the later of two written poses wins |
| Transforms.RotateWritesPosition | Code/XenEngine/TransformComponent.cpp:53-58 | as written, rotating a new component by (90,0,0) leaves its rotation at zero and sets its position; the corrected one rotates it |
| Transforms.ScaleWritesPosition | Code/XenEngine/TransformComponent.cpp:60-65 | as written, scaling a new component by one leaves its scale at one and sets its position to (2,2,2); the corrected one scales it |
| Transforms.RotateIntendedAccumulates | Code/XenEngine/TransformComponent.cpp:53-58 | corrected rotations compose: rotating by a then b is rotating by a + b |
| Transforms.TranslateAccumulates | Code/XenEngine/TransformComponent.cpp:46-51 | translating by a then b is translating by a + b |
| Transforms.TransformComponent.Value | Code/XenEngine/TransformComponent.cpp:10-77 | the component's fields as one `Transform` value; every method of the class is stated against it |
| Transforms.TransformComponent.constructor | Code/XenEngine/TransformComponent.cpp:10-12 | the object's state is `New()` |
| Transforms.TransformComponent.SetPosition | Code/XenEngine/TransformComponent.cpp:14-16 | the object's new state is the value-level `SetPosition` of its old state |
| Transforms.TransformComponent.SetRotation | Code/XenEngine/TransformComponent.cpp:18-20 | the new state is `SetRotation` of the old |
| Transforms.TransformComponent.SetScale | Code/XenEngine/TransformComponent.cpp:22-24 | the new state is `SetScale` of the old |
| Transforms.TransformComponent.GetPosition | Code/XenEngine/TransformComponent.cpp:26-28 | returns the stored position |
| Transforms.TransformComponent.GetRotation | Code/XenEngine/TransformComponent.cpp:30-32 | returns the stored rotation |
| Transforms.TransformComponent.GetScale | Code/XenEngine/TransformComponent.cpp:34-36 | returns the stored scale |
| Transforms.TransformComponent.GetTransformMatrix | Code/XenEngine/TransformComponent.cpp:38-40 | returns the cached matrix |
| Transforms.TransformComponent.GetInverseTransformMatrix | Code/XenEngine/TransformComponent.cpp:42-44 | returns the inverse of the cached matrix |
| Transforms.TransformComponent.Translate | Code/XenEngine/TransformComponent.cpp:46-51 | the new state is `Translate(delta)` of the old |
| Transforms.TransformComponent.Rotate | Code/XenEngine/TransformComponent.cpp:53-58 | the new state is the as-written `Rotate(delta)` of the old |
| Transforms.TransformComponent.Scale | Code/XenEngine/TransformComponent.cpp:60-65 | the new state is the as-written `Scale(delta)` of the old |
| Transforms.TransformComponent.Update | Code/XenEngine/TransformComponent.cpp:67-69 | the new state is `Update()` of the old |
| Transforms.TransformComponent.UpdateTransformMatrix | Code/XenEngine/TransformComponent.cpp:71-77 | the new state is `UpdateTransformMatrix()` of the old |
| Components.SwapRemoved | Code/XenEngine/ComponentManager.hpp:142-152 | a swap-with-last removal represents the old entity-to-component map minus the removed entity |
| Components.ComponentManager.constructor | Code/XenEngine/ComponentManager.hpp:14-16 | an empty store satisfies the bidirectional index invariant |
| Components.ComponentManager.ReleaseResources | Code/XenEngine/ComponentManager.hpp:19-25 | every component is released in place when the type has `Release`, otherwise nothing changes; the invariant is kept |
| Components.ComponentManager.AddComponent | Code/XenEngine/ComponentManager.hpp:131-137 | a default component is appended at the old size, the entity maps to it, every existing slot and mapping stays; the map gains exactly the entity |
| Components.ComponentManager.RemoveComponent | Code/XenEngine/ComponentManager.hpp:139-154 | an absent entity changes nothing; otherwise the size drops by one, the entity loses its mapping, the former last entity takes the removed slot with its component, every other slot and mapping stays, and the map loses exactly the entity |
| Components.ComponentManager.GetComponent | Code/XenEngine/ComponentManager.hpp:156-160 | some component exactly when the entity has one, and it is that entity's component |
| Components.ComponentManager.GetComponentMutable | Code/XenEngine/ComponentManager.hpp:162-166 | a slot exactly when the entity has a component, and that slot holds it and records the entity |
| Components.ComponentManager.Write | Code/XenEngine/ComponentManager.hpp:162-166 | a write through the returned pointer changes that slot only, so only that entity's component |
| Components.ComponentManager.GetEntity | Code/XenEngine/ComponentManager.hpp:168-172 | an in-range slot gives the entity stored there, anything else gives `EntityId{0}` |
| Components.ComponentManager.BeginMutable | Code/XenEngine/ComponentManager.hpp:95-97 | a new iterator at slot zero of this store |
| Components.ComponentManager.EndMutable | Code/XenEngine/ComponentManager.hpp:99-101 | a new iterator at the slot past the last |
| Components.ComponentManager.Begin | Code/XenEngine/ComponentManager.hpp:123-125 | a new const iterator at slot zero |
| Components.ComponentManager.End | Code/XenEngine/ComponentManager.hpp:127-129 | a new const iterator past the last slot |
| Components.ComponentManager.Traverse | Code/XenEngine/ComponentManager.hpp:77-88 | a range-for over the store yields `(indexToEntity[i], components[i])` for every slot, in dense order |
| Components.ComponentManager.CopyOf | Code/XenEngine/GameState.hpp:79 | a member-wise copy of the three structures |
| Components.ComponentManager.Assign | Code/XenEngine/GameState.hpp:30 | copy assignment: the three structures equal the other store's |
| Components.Iterator.constructor | Code/XenEngine/ComponentManager.hpp:44-45 | the cursor records its store and slot |
| Components.Iterator.Deref | Code/XenEngine/ComponentManager.hpp:47-49 | the view holds the slot's entity and designates that slot |
| Components.Iterator.Next | Code/XenEngine/ComponentManager.hpp:51-54 | the slot advances by one |
| Components.Iterator.NotEqual | Code/XenEngine/ComponentManager.hpp:56-58 | `operator!=` compares only the slot indices, not the managers, as written; Traverse loops while it holds |
| Components.Iterator.Equal | Code/XenEngine/ComponentManager.hpp:60-62 | `operator==` compares only the slot indices, as written |
| Components.ConstIterator.constructor | Code/XenEngine/ComponentManager.hpp:72-75 | the cursor records its store and slot |
| Components.ConstIterator.Deref | Code/XenEngine/ComponentManager.hpp:77-79 | the view holds the slot's entity and component |
| Components.ConstIterator.Next | Code/XenEngine/ComponentManager.hpp:81-84 | the slot advances by one |
| Components.ConstIterator.NotEqual | Code/XenEngine/ComponentManager.hpp:86-88 | `operator!=` compares only the slot indices, not the managers, as written |
| Components.ConstIterator.Equal | Code/XenEngine/ComponentManager.hpp:90-92 | `operator==` compares only the slot indices, as written |
| Game.Successor | Code/XenEngine/GameState.hpp:19 | `++_nextId` on a u64: one more below the maximum, zero at it |
| Game.Allocations | Code/XenEngine/GameState.hpp:18-21 | `count` creations return `count` ids |
| Game.AllocationValues | Code/XenEngine/GameState.hpp:18-21 | without wrap-around the i-th created id is start + i + 1 |
| Game.AllocationsIncreaseAndAreValid | Code/XenEngine/GameState.hpp:18-21 | while the counter stays below the maximum, created ids strictly increase (none is reused) and none is the invalid sentinel |
| Game.FirstAllocationIsOne | Code/XenEngine/GameState.hpp:18-21 | a state whose counter is at its initial zero hands out id 1 first |
| Game.GameState.constructor | Code/XenEngine/GameState.hpp:77-79 | the counter is zero and the store is empty |
| Game.GameState.CopyOf | Code/XenEngine/GameState.hpp:77-79 | the implicit copy constructor: same counter, an equal but new store |
| Game.GameState.CreateEntity | Code/XenEngine/GameState.hpp:18-21 | the counter is incremented (wrapping) and the new value is returned as the id |
| Game.GameState.DestroyEntity | Code/XenEngine/GameState.hpp:23-25 | the store loses exactly the entity's component, the counter stays |
| Game.GameState.Clone | Code/XenEngine/GameState.hpp:27-32 | a new state and a new store with the same counter and equal contents, so later changes do not cross over |
| Game.GameState.ReleaseAllResources | Code/XenEngine/GameState.hpp:34-36 | nothing changes |
| Game.GameState.ReleaseComponentResources | Code/XenEngine/GameState.hpp:81-86 | the transform store releases its components only when the type has `Release` |
| Game.GameState.GetComponent | Code/XenEngine/GameState.hpp:38-45 | the store's lookup: some component exactly when the entity has one |
| Game.GameState.GetComponentMutable | Code/XenEngine/GameState.hpp:47-54 | the store's slot lookup: a slot exactly when the entity has a component |
| Game.GameState.AddComponent | Code/XenEngine/GameState.hpp:56-63 | the store gains exactly a default transform for the entity |
| SceneGraph.Without | Code/XenEngine/Scene.cpp:47 | `erase_if` on a child list keeps exactly the other entities |
| SceneGraph.WithoutDistinct | Code/XenEngine/Scene.cpp:47 | erasing from a duplicate-free child list keeps it duplicate-free |
| SceneGraph.WorldsKeys | Code/XenEngine/Scene.cpp:160-204 | the propagation from a node writes the worlds of exactly that node's subtree |
| SceneGraph.WorldsAtTop | Code/XenEngine/Scene.cpp:162 | the node the propagation starts at gets `parentTransform * local` |
| SceneGraph.WorldsPropagate | Code/XenEngine/Scene.cpp:201-203 | after propagation every child in the subtree has its parent's new world times its own local |
| SceneGraph.WorldsOfRestrict | Code/XenEngine/Scene.cpp:201-203 | the subtrees of different children do not overwrite each other's worlds |
| SceneGraph.WithWorlds | Code/XenEngine/Scene.cpp:162 | writing worlds keeps every node, child list and local, and changes the worlds named and no other |
| SceneGraph.WithWorldsTwice | Code/XenEngine/Scene.cpp:201-203 | two successive world writes are one write in which the later wins |
| SceneGraph.Posed | Code/XenEngine/Scene.cpp:163-199 | writing decomposed worlds into the transform store keeps its set of entities |
| SceneGraph.PosedTwice | Code/XenEngine/Scene.cpp:163-199 | two successive pose writes are one write in which the later wins |
| SceneGraph.RootCovers | Code/XenEngine/Scene.hpp:41-42 | in a scene with a root, the root's subtree is every node |
| SceneGraph.ParentlessOutside | Code/XenEngine/Scene.cpp:105 | a parentless node (the root) is never below a node that has a parent |
| SceneGraph.Placed | Code/XenEngine/Scene.cpp:12-32 | creating adds exactly the new node |
| SceneGraph.PlacedShape | Code/XenEngine/Scene.cpp:12-32 | the new node is a leaf with identity transforms and the chosen parent; only that parent's child list changes, by appending the new entity |
| SceneGraph.PlacedTree | Code/XenEngine/Scene.cpp:12-32 | placing a fresh entity as root of an empty scene or below a live node keeps the scene a tree |
| SceneGraph.Unlinked | Code/XenEngine/Scene.cpp:45-48 | unlinking from the parent's child list keeps every node |
| SceneGraph.Pruned | Code/XenEngine/Scene.cpp:36-53 | removing an entity removes exactly its subtree from the map |
| SceneGraph.RemovalStart | Code/XenEngine/Scene.cpp:41-43 | before the child loop of `RemoveEntity` nothing is removed |
| SceneGraph.RemovalStep | Code/XenEngine/Scene.cpp:41-43 | removing the next child's subtree extends the removed part by exactly that subtree |
| SceneGraph.RemovalFinish | Code/XenEngine/Scene.cpp:41-52 | after the child loop the node is a leaf, and removing it completes the removal of its whole subtree |
| SceneGraph.LeafRemoval | Code/XenEngine/Scene.cpp:45-52 | unlinking a leaf and erasing it is the removal of its subtree and keeps a tree, without root if the leaf was the root |
| SceneGraph.Relinked | Code/XenEngine/Scene.cpp:69-84 | re-parenting keeps every node |
| SceneGraph.RelinkedChildren | Code/XenEngine/Scene.cpp:69-84 | the child leaves its old parent's list and ends the new parent's, records the new parent; no other list or parent changes |
| SceneGraph.RelinkedTree | Code/XenEngine/Scene.cpp:69-78 | moving a non-root node below a node outside its subtree keeps a tree and keeps the moved subtree |
| SceneGraph.WithWorldsTree | Code/XenEngine/Scene.cpp:160-204 | writing worlds keeps the tree shape |
| SceneGraph.Relocal | Code/XenEngine/Scene.cpp:145-149 | a new local transform changes no node and no child list |
| SceneGraph.RelocalTree | Code/XenEngine/Scene.cpp:145-149 | a new local transform keeps the tree shape |
| SceneGraph.ParentOutsideSub | Code/XenEngine/Scene.cpp:160-204 | the parent of a subtree's top, or of a node outside the subtree, lies outside it, so propagating into the subtree changes no world a node outside it inherits |
| SceneGraph.PropagatedConsistent | Code/XenEngine/Scene.cpp:160-204 | propagating from a node with the world its parent passes down makes every world equal to its parent's world (the identity at the root) times its local, when that held at every other node |
| SceneGraph.PropagatedConsistentAt | Code/XenEngine/Scene.cpp:160-204 | the same, for one node at a time |
| SceneGraph.PrunedKeeps | Code/XenEngine/Scene.cpp:36-53 | removal changes no world, local or parent of a node that stays |
| SceneGraph.PrunedConsistent | Code/XenEngine/Scene.cpp:36-53 | removing a subtree keeps every remaining world consistent with its parent's |
| SceneGraph.RelinkedKeeps | Code/XenEngine/Scene.cpp:69-84 | re-parenting changes no world, and no parent or local except the moved node's |
| SceneGraph.EditedConsistent | Code/XenEngine/Scene.cpp:69-84 | an edit that changes no world and only one node's parent and local leaves every other node consistent |
| SceneGraph.RelinkedConsistent | Code/XenEngine/Scene.cpp:55-115 | attaching or detaching with any local transform, followed by propagation from the moved node with its new parent's world, keeps every world consistent |
| SceneGraph.RelocalKeeps | Code/XenEngine/Scene.cpp:145-149 | a new local transform changes no world and no parent, and no other local |
| SceneGraph.RelocalConsistent | Code/XenEngine/Scene.cpp:139-152 | a new local transform followed by propagation with the inherited world keeps every world consistent |
| SceneGraph.PlacedInconsistent | Code/XenEngine/Scene.cpp:12-32 | as written, a node created below a parent whose world is not the identity has the identity world, so the scene is no longer consistent |
| SceneGraph.PlacedIntended | Code/XenEngine/Scene.cpp:12-32 | corrected creation: the same nodes as `Placed`, with the new leaf's world the inherited world times its identity local |
| SceneGraph.PlacedIntendedKeeps | Code/XenEngine/Scene.cpp:12-32 | corrected creation keeps every old node's world, local and parent, and gives the new leaf its parent, identity local and inherited world |
| SceneGraph.PlacedIntendedConsistent | Code/XenEngine/Scene.cpp:12-32 | corrected creation keeps the scene a tree and keeps every world consistent |
| SceneGraph.RangeForErasing | Code/XenEngine/Scene.cpp:41-47 | as written: the range-for only visits children that were in the list |
| SceneGraph.RangeForSkipsSecondChild | Code/XenEngine/Scene.cpp:41-47 | as written, with two leaf children the first is removed, the second is never visited and the loop reads past the live end |
| SceneGraph.OddPositions | Code/XenEngine/Scene.cpp:41-47 | the children at odd positions, those the loop has stepped over: `i` of them, in order |
| SceneGraph.WithoutAfterPrefix | Code/XenEngine/Scene.cpp:47 | erasing an id absent from a prefix only changes the suffix |
| SceneGraph.ErasingAtEvenPosition | Code/XenEngine/Scene.cpp:41-47 | after `i` visits the slot at position `i` holds child `2i`, and erasing it leaves the skipped children before the untouched tail |
| SceneGraph.RangeForFrom | Code/XenEngine/Scene.cpp:41-47 | as written, from visit `i` on the loop visits children `2i, 2i+2, …` and then reads past the live end |
| SceneGraph.RangeForSkipsOddChildren | Code/XenEngine/Scene.cpp:41-47 | as written, with two or more leaf children exactly those at even positions are visited, the second is never visited, and the loop reads past the live end |
| Scenes.Placement | Code/XenEngine/Scene.cpp:19-30 | below a valid given parent, otherwise below the root (none in an empty scene) |
| Scenes.Creation | Code/XenEngine/Scene.cpp:12-34 | the new id is not in the scene and placing it keeps a tree whose ids are at most the counter |
| Scenes.Moving | Code/XenEngine/Scene.cpp:69-84 | a node not above the new parent has a parent, and moving it keeps a tree with the same ids |
| Scenes.Detaching | Code/XenEngine/Scene.cpp:104-114 | a node with a parent is not the root, and the root is not below it, so the first branch is always taken |
| Scenes.Rewriting | Code/XenEngine/Scene.cpp:160-204 | rewriting worlds keeps the tree and its ids |
| Scenes.Propagated | Code/XenEngine/Scene.cpp:80-87 | after propagation the tree and its ids are kept; a node given local `inverse(P)·W` and propagated with P gets world W back under the group laws |
| Scenes.Propagating | Code/XenEngine/Scene.cpp:201-203 | one turn of the child loop: propagating into the next child after the worlds so far is writing one more child's worlds |
| Scenes.Emptied | Code/XenEngine/Scene.cpp:135-136 | an empty scene without a root is a tree |
| Scenes.Unloading | Code/XenEngine/Scene.cpp:125-137 | without a root the scene is empty; otherwise the root's subtree is every node |
| Scenes.Parented | Code/XenEngine/Scene.cpp:144-151 | the parent of a node is a node of the scene |
| Scenes.Relocating | Code/XenEngine/Scene.cpp:145-149 | a new local transform keeps a tree with the same ids |
| Scenes.Leaving | Code/XenEngine/Scene.cpp:45-52 | dropping a leaf is its subtree's removal and keeps a tree with ids at most the counter |
| Scenes.Scene.constructor | Code/XenEngine/Scene.hpp:15 | the scene owns a new copy of the given state (same counter, equal store) and has no node |
| Scenes.Scene.CreateEntity | Code/XenEngine/Scene.cpp:12-34 | a fresh id from the counter; a leaf with identity transforms, root of an empty scene or appended to the valid parent's or the root's children; the invariant is kept; below a placement whose world is not the identity (with a right-neutral identity) the world invariant no longer holds afterwards |
| Scenes.Scene.RemoveEntity | Code/XenEngine/Scene.cpp:36-53 | an unknown id changes nothing; otherwise the whole subtree leaves the map and the store, the node leaves its parent's list, the root is cleared exactly when it was removed; a scene whose worlds were consistent stays consistent |
| Scenes.Scene.RemoveChildren | Code/XenEngine/Scene.cpp:41-43 | each child's subtree is removed in turn, leaving the node a leaf |
| Scenes.Scene.RemoveLeaf | Code/XenEngine/Scene.cpp:45-52 | the leaf leaves its parent's list, the map and the store; the root is cleared if it was the root |
| Scenes.Scene.UpdateWorldTransforms | Code/XenEngine/Scene.cpp:160-204 | the subtree's worlds become the propagated worlds; only those worlds and the poses of those entities that have a transform change |
| Scenes.Scene.WritePose | Code/XenEngine/Scene.cpp:163-199 | an entity with a transform gets the decomposed world as its pose; the store is otherwise unchanged |
| Scenes.Scene.AttachEntity | Code/XenEngine/Scene.cpp:55-88 | no-op unless both are live; otherwise the child is moved to the end of the parent's list with local `inverse(parentWorld)·childWorld`, worlds propagate from it, and under the group laws its world is unchanged; a scene whose worlds were consistent stays consistent, with no group law needed |
| Scenes.Scene.DetachEntity | Code/XenEngine/Scene.cpp:90-115 | no-op for an unknown or parentless node; otherwise it moves to the end of the root's list with local `inverse(rootWorld)·world`, worlds propagate, and under the group laws its world is unchanged; a scene whose worlds were consistent stays consistent |
| Scenes.Scene.Relink | Code/XenEngine/Scene.cpp:69-84 | the hierarchy edit of attach and detach, keeping the invariant |
| Scenes.Scene.SetWorldTransform | Code/XenEngine/Scene.cpp:139-152 | an unknown id changes nothing; otherwise the local becomes `inverse(parentWorld)·T` (or T without a parent), worlds propagate, and under the group laws the node's world is T; a scene whose worlds were consistent stays consistent |
| Scenes.Scene.Unload | Code/XenEngine/Scene.cpp:125-137 | every node's component is destroyed, the map is emptied and the root cleared; the empty scene is consistent |
| Scenes.Scene.DestroyNode | Code/XenEngine/Scene.cpp:126-132 | destroys the components of exactly the node's subtree |
| Scenes.Scene.GetWorldTransform | Code/XenEngine/Scene.cpp:154-158 | the cached world of a live node, the identity otherwise |
| Filesystem.FindFrom | Code/Common/Filesystem.cpp:421-422 | `find(sep, start)`: the first separator from `start` on, or the end |
| Filesystem.Find | Code/Common/Filesystem.cpp:421-422 | the first separator, or the end |
| Filesystem.FindLast | Code/Common/Filesystem.cpp:314 | `find_last_of`: none exactly when the character is absent, else its last index |
| Filesystem.JoinedSnoc | Code/Common/Filesystem.cpp:431-433 | `result += PATH_SEPARATOR + part` appends one segment to the joined string |
| Filesystem.JoinedPrefix | Code/Common/Filesystem.cpp:431-433 | the second loop's invariant: the result is the join of the segments seen so far |
| Filesystem.ScanFrom | Code/Common/Filesystem.cpp:420-430 | the first loop from any position keeps what scanning the rest of the string keeps |
| Filesystem.NormalForm | Code/Common/Filesystem.cpp:416-441 | what `Normalize` returns: the kept segments joined by `/`, or `/` when none is kept; see Normalize, NormalFormIdempotent and NormalFormShape |
| Filesystem.Normalize | Code/Common/Filesystem.cpp:416-441 | the method with the source's two loops returns the normal form |
| Filesystem.StepCanonical | Code/Common/Filesystem.cpp:424-428 | one segment keeps the kept segments non-empty, not `.`, separator-free, with `..` only in a leading run |
| Filesystem.CollapseCanonical | Code/Common/Filesystem.cpp:420-430 | the whole scan keeps the kept segments in that form |
| Filesystem.JoinedShape | Code/Common/Filesystem.cpp:431-433 | joined segments are empty exactly for no segment, start with a separator and do not end with one |
| Filesystem.RenderCollapse | Code/Common/Filesystem.cpp:416-441 | normalising the rendering of segments in normal form gives back those segments |
| Filesystem.NormalSegments | Code/Common/Filesystem.cpp:416-441 | the segments of any string are in normal form, and a normal string renders its segments |
| Filesystem.NormalFormIdempotent | Code/Common/Filesystem.hpp:136 | normalisation is idempotent and keeps the segments |
| Filesystem.NormalFormShape | Code/Common/Filesystem.cpp:431-440 | a normal form is non-empty, starts with `/`, is `/` exactly when no segment survives, else does not end with `/`, never holds `//`, and its segments have no `.` and `..` only leading |
| Filesystem.ToDecimal | Code/Common/Filesystem.cpp:316 | `std::to_string` of a number gives a non-empty string of digits |
| Filesystem.SeparatorToString | Code/Common/Filesystem.cpp:316 | `std::to_string('/')` is `"47"` |
| Filesystem.FromString | Code/Common/Filesystem.hpp:136 | a path stores a normal string with the segments of the one it was built from |
| Filesystem.Path.Str | Code/Common/Filesystem.cpp:368-370 | `Str()` returns the stored string; see FromOwnString |
| Filesystem.Path.Equals | Code/Common/Filesystem.cpp:376-378 | `operator==` compares the stored strings; see EqualsIffSameNormalForm |
| Filesystem.Path.HasExtension | Code/Common/Filesystem.cpp:344-348 | there is a `.` and no separator after the last one; see HasExtensionOfNormal and ExtensionOf |
| Filesystem.Path.Extension | Code/Common/Filesystem.cpp:350-353 | empty without an extension; otherwise the suffix after the last `.`, holding no `.` or separator |
| Filesystem.EqualsIffSameNormalForm | Code/Common/Filesystem.cpp:376-378 | two paths compare equal exactly when their strings normalise alike, exactly when they are the same path |
| Filesystem.FromOwnString | Code/Common/Filesystem.cpp:368-370 | rebuilding a path from `Str()` gives the same path |
| Filesystem.ExtensionOf | Code/Common/Filesystem.cpp:344-353 | a last segment `x.ext` gives the extension `ext`, and everything before that `.` is what `ReplaceExtension` keeps |
| Filesystem.Path.Kept | Code/Common/Filesystem.cpp:355-358 | the part `ReplaceExtension` keeps: the path up to its last `.` when it has an extension, else all of it; see ReplacedParts and ReplaceExtensionRoundTrip |
| Filesystem.Path.ReplaceExtension | Code/Common/Filesystem.cpp:355-358 | `ReplaceExtension(ext)` as written: the path built from the kept part, `.` and `ext`; see ReplaceExtensionRoundTrip |
| Filesystem.HasExtensionOfNormal | Code/Common/Filesystem.cpp:344-348 | a normal path has an extension exactly when its last segment holds a `.` |
| Filesystem.ReplacedParts | Code/Common/Filesystem.cpp:355-358 | what is kept before `.ext`: the leading segments and the stem of the last one |
| Filesystem.ReplaceExtensionRoundTrip | Code/Common/Filesystem.cpp:355-358 | after `ReplaceExtension(ext)` the path is everything up to the old last `.` followed by `.ext`; it has exactly extension `ext`, keeps that stem on a second replacement, and only its last segment changed (or one was added at the root) |
| Filesystem.JoinStrings | Code/Common/Filesystem.cpp:409-414 | the static `Join` as written, an empty `rhs` giving an empty string; see JoinEmptyGivesRoot and JoinSegment |
| Filesystem.JoinStringsIntended | Code/Common/Filesystem.cpp:409-414 | the static `Join` with an empty `rhs` keeping `lhs`; see JoinIntendedKeeps |
| Filesystem.Path.Join | Code/Common/Filesystem.cpp:360-366 | `Join(subPath)` and `operator/`: the path built from the static join of the string and `subPath`; see JoinSegment, JoinEmptyGivesRoot and ParentOfJoin |
| Filesystem.Path.JoinIntended | Code/Common/Filesystem.cpp:360-366 | `Join(subPath)` over the corrected static join; see JoinIntendedKeeps and ParentIntendedOfJoin |
| Filesystem.JoinSegment | Code/Common/Filesystem.cpp:360-366 | joining a plain segment appends exactly that segment |
| Filesystem.FortySeven | Code/Common/Filesystem.cpp:316 | `Path(std::to_string('/'))` is `/47` |
| Filesystem.Path.Parent | Code/Common/Filesystem.cpp:313-319 | `Parent()` as written: the part before the last separator, or `Path(std::to_string('/'))` when that separator is the first character; see ParentBelowRoot and ParentOfJoin |
| Filesystem.Path.ParentIntended | Code/Common/Filesystem.cpp:313-319 | `Parent()` with the root `/` as the parent of a top-level path; see ParentIntendedOfJoin |
| Filesystem.ParentBelowRoot | Code/Common/Filesystem.cpp:313-319 | as written, the parent of `/name` is `/47`, which is its own parent |
| Filesystem.ParentIntendedOfJoin | Code/Common/Filesystem.cpp:313-319 | corrected: the parent of `p / name` is `p` for every normal `p`, the root included; as written, everywhere but at the root |
| Filesystem.ParentOfJoin | Code/Common/Filesystem.cpp:313-319 | as written, the parent undoes joining one plain segment below the root |
| Filesystem.JoinEmptyGivesRoot | Code/Common/Filesystem.cpp:409-414 | as written, joining an empty string gives `/` whatever the path |
| Filesystem.JoinIntendedKeeps | Code/Common/Filesystem.cpp:409-414 | corrected: joining an empty string keeps the path, any other string joins as before |
| DxBuffer.StageBits | Code/XenEngine/DX11/DxBuffer.hpp:17-22 | `None` has no bit; `Vertex`, `Pixel`, `Compute` are the single bits 0, 1, 2 |
| DxBuffer.Or | Code/XenEngine/DX11/DxBuffer.hpp:24-26 | each bit of `a OR b` is set exactly when it is set in a or in b |
| DxBuffer.And | Code/XenEngine/DX11/DxBuffer.hpp:28-30 | each bit of `a & b` is set exactly when it is set in both |
| DxBuffer.HasStage | Code/XenEngine/DX11/DxBuffer.hpp:32-34 | true exactly when the masks share a set bit |
| DxBuffer.NeverHasNone | Code/XenEngine/DX11/DxBuffer.hpp:32-34 | no mask has the `None` stage |
| DxBuffer.HasStageOfOr | Code/XenEngine/DX11/DxBuffer.hpp:24-34 | `HasStage` of the OR of a and b on t exactly when `HasStage(a, t)` or `HasStage(b, t)` |
| DxBuffer.VertexPixelMask | Code/XenEngine/DX11/DxBuffer.hpp:17-34 | The OR of `Vertex` and `Pixel` has the vertex and pixel stages and not the compute stage |
| DxBuffer.SupportsBinding | Code/XenEngine/DX11/DxBuffer.hpp:63-65 | true exactly when the bind flags share a set bit with the requested flag |

## Left out

- File and OS access is not modelled because it consists of system calls: the file readers, writers and streams, and `Path::Exists`, `IsFile`, `IsDirectory`, `Create`, `CreateAll` and `Current`. `CreateAll` matters only through `Parent`, and `Filesystem.ParentBelowRoot` covers that part.
- The asynchronous file wrappers are not modelled because they detach threads.
- The Windows branch of `Normalize` and the `\\` separator are not modelled; only POSIX is.
- `Path::CStr` is not modelled separately: it is `Str()` as a C string.
- Floating point is not modelled. `XMFLOAT3` lanes are reals without rounding. Matrix product, inverse, the three matrix builders and the decomposition into position, Euler angles and scale (including the gimbal-lock branch) are fixed but unknown functions.
- `Camera`, the Direct3D 11 device, buffer and shader plumbing, and the `Resource` base are not modelled. The `release_resources` trait becomes a boolean parameter.
- `Scene::LoadFromFile` and `SaveToFile` are not modelled: they are stubs that return false.
- `ComponentManager::GetMutable` and `MutableView` are not modelled: they only forward to `BeginMutable` and `EndMutable`.
- `ComponentManager::GetRawComponents` and `GameState::GetComponents` are not modelled as members: they return the `components` and `transforms` fields themselves.
- `Entities.Hash`: `std::hash<u64>` is a parameter, and `size_t` is not bounded.
- Node lifetime under `shared_ptr`/`weak_ptr` is not modelled. A node is live exactly when it is in the scene's map.
- Components.ComponentManager.AddComponent: requires that the entity have no component. The source does not guard a second add, which would overwrite the mapping and orphan a slot.
- Game.GameState.AddComponent: requires that the entity have no transform. It models the evident intent, because as written the `ComponentView` returned where a `TransformComponent&` is declared would not compile.
- Scenes.Scene.CreateEntity: requires the counter below the u64 maximum. When the counter is at the maximum minus one, the next id is the invalid sentinel; the model hands it out as the source does. Past that point the source's counter wraps to 0 and then issues 1, 2 and so on again. `_nodes[entity] = node` (Scene.cpp:32) then overwrites the live nodes under those ids, and the model does not cover that.
- Scenes.Scene.CreateEntity: requires that a valid given parent be in the scene. Otherwise `_nodes[*parent]` inserts and dereferences a null node.
- Scenes.Scene.AttachEntity: requires that the parent not lie in the child's subtree, the child included. Otherwise the move closes a cycle and the propagation never ends.
- Scenes.Scene.DetachEntity: its second branch (no root, or the child is the root) is not modelled. Under the scene invariant a node with a parent always has a root above it (`Scenes.Detaching`).
- Scenes.Scene.RemoveEntity: iterates over a copy of the child list, which is the corrected behaviour; the as-written loop is `SceneGraph.RangeForErasing`.
- Transforms.TransformComponent.Rotate and Transforms.TransformComponent.Scale: the object methods keep the as-written behaviour; the corrected value-level functions are beside them.

## Findings

| source | as written | input that shows it | evidently intended | confidence | as-written member | corrected member |
|---|---|---|---|---|---|---|
| Code/XenEngine/Scene.cpp:41-47 | the range-for over `node->children` runs while each recursive call erases the visited child from that same vector | a node with two leaf children a and b | every child's subtree is removed | high, not executed | SceneGraph.RangeForSkipsSecondChild | Scenes.Scene.RemoveEntity |
| Code/Common/Filesystem.cpp:315-316 | a path whose last separator is at index 0 has parent `Path(std::to_string('/'))`, that is `/47` | `Path("/a").Parent()` | the root `/`, where `CreateAll` stops | high, not executed | Filesystem.ParentBelowRoot | Filesystem.ParentIntendedOfJoin |
| Code/Common/Filesystem.cpp:410-411 | `Join` with an empty right-hand side returns that empty string, which normalises to `/` | `Path("/a/b") / ""` | `/a/b` | medium, not executed | Filesystem.JoinEmptyGivesRoot | Filesystem.JoinIntendedKeeps |
| Code/XenEngine/Scene.cpp:15-17 | a new node gets the identity world under any parent, and nothing propagates to it | `CreateEntity(p)` where the world of p is not the identity | the new node's world is the world of p times its identity local, so the world invariant holds | medium, not executed | SceneGraph.PlacedInconsistent | SceneGraph.PlacedIntendedConsistent |
| Code/XenEngine/TransformComponent.cpp:56 | `Rotate` stores rotation + delta into `_position` | a new component rotated by (90, 0, 0) | its rotation becomes (90, 0, 0) and its position stays zero | high, not executed | Transforms.RotateWritesPosition | Transforms.RotateIntendedAccumulates |
| Code/XenEngine/TransformComponent.cpp:63 | `Scale` stores scale + delta into `_position` | a new component scaled by (1, 1, 1) | its scale becomes (2, 2, 2) and its position stays zero | high, not executed | Transforms.ScaleWritesPosition | Transforms.Transform.ScaleIntended |
