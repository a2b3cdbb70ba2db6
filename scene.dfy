/** `x::Scene`: a named hierarchy of entities over a private copy of a game
    state. Each node caches a local and a world matrix; world matrices are
    pushed down the hierarchy and decomposed into the transform components. */
module Scenes {
  import opened Wrappers
  import opened Entities
  import opened XMath
  import Transforms
  import opened Game
  import opened SceneGraph

  /** Where `CreateEntity(parent)` hangs the new node: below a valid given
      parent, otherwise below the root (none when there is no root yet). */
  function Placement(parent: Option<EntityId>, root: Option<EntityId>): (at: Option<EntityId>)
    ensures parent.Some? && parent.value.Valid() ==> at == parent
    ensures (parent.None? || !parent.value.Valid()) ==> at == root
  {
    if parent.Some? && parent.value.Valid() then parent else root
  }

  /** Every id in the arena is at most the counter, so the next id is new. */
  ghost predicate IdsUpTo(nodes: Nodes, nextId: u64) {
    forall e :: e in nodes ==> e.value as int <= nextId as int
  }

  /** What `CreateEntity` needs of the arena: the fresh id is not in it, and
      the placed leaf keeps it a tree whose ids are at most the new counter. */
  lemma Creation(nodes: Nodes, rank: map<EntityId, nat>, root: Option<EntityId>, nextId: u64,
                 parent: Option<EntityId>, entity: EntityId)
    requires Tree(nodes, rank, root) && IdsUpTo(nodes, nextId) && nextId < MaxU64
    requires parent.Some? && parent.value.Valid() ==> parent.value in nodes
    requires entity == EntityId(Successor(nextId))
    ensures var at := Placement(parent, root);
      && entity !in nodes && (at.Some? ==> at.value in nodes)
      && (root.None? ==> nodes == map[]) && (root.Some? ==> root.value in nodes)
      && Tree(Placed(nodes, entity, at), Lifted(nodes, rank, entity), if root.None? then Some(entity) else root)
      && IdsUpTo(Placed(nodes, entity, at), Successor(nextId))
  {
    var at := Placement(parent, root);
    if root.None? {
      assert nodes == map[];
    }
    PlacedTree(nodes, rank, root, entity, at);
  }

  /** What `AttachEntity` and `DetachEntity` need of the arena: a node that
      is not above `np` has a parent (only the root lacks one, and every node
      lies below the root), and moving it below `np` keeps a tree with the
      same ids. */
  lemma Moving(nodes: Nodes, rank: map<EntityId, nat>, root: Option<EntityId>, nextId: u64,
               c: EntityId, np: EntityId, local: Mat)
    requires Tree(nodes, rank, root) && IdsUpTo(nodes, nextId)
    requires c in nodes && np in nodes && np !in Sub(Children(nodes), rank, c)
    ensures nodes[c].parent.Some? && nodes[c].parent.value in nodes && c != np
    ensures RankedBy(Children(nodes), rank)
    ensures var mid, rank' := Relinked(nodes, c, np, local), Rerank(nodes, rank, c);
      && c in mid && mid[c].local == local && RankedBy(Children(mid), rank')
      && Tree(mid, rank', root) && IdsUpTo(mid, nextId)
  {
    if root.Some? {
      RootCovers(nodes, rank, root.value);
    }
    RelinkedTree(nodes, rank, root, c, np, local);
  }

  /** `DetachEntity` moves a node that has a parent below the root: such a
      node is not the root and the root is not below it. */
  lemma Detaching(nodes: Nodes, rank: map<EntityId, nat>, root: Option<EntityId>, c: EntityId)
    requires Tree(nodes, rank, root) && c in nodes && nodes[c].parent.Some?
    ensures root.Some? && root.value in nodes && root.value != c
    ensures root.value !in Sub(Children(nodes), rank, c)
  {
    ParentlessOutside(nodes, rank, c, root.value);
  }

  /** Rewriting worlds keeps the tree and its ids. */
  lemma Rewriting(nodes: Nodes, rank: map<EntityId, nat>, root: Option<EntityId>, nextId: u64, worlds: map<EntityId, Mat>)
    requires Tree(nodes, rank, root) && IdsUpTo(nodes, nextId)
    ensures Tree(WithWorlds(nodes, worlds), rank, root) && IdsUpTo(WithWorlds(nodes, worlds), nextId)
  {
    WithWorldsTree(nodes, rank, root, worlds);
  }

  /** The arena after `UpdateWorldTransforms(c, parentWorld)`: every node
      of the subtree of `c` has the world its parent's world times its
      local gives it. */
  ghost function Propagate(nodes: Nodes, rank: map<EntityId, nat>, c: EntityId, parentWorld: Mat): Nodes
    requires RankedBy(Children(nodes), rank) && c in nodes
  {
    WithWorlds(nodes, Worlds(Children(nodes), Locals(nodes), rank, c, parentWorld))
  }

  /** After `UpdateWorldTransforms(c, parentWorld)` on a tree the arena is
      still a tree with the same ids, and the world of `c` is
      `parentWorld * local`; when its local was `inverse(parentWorld) * world`
      and the group laws hold, its world is `world` again. */
  lemma Propagated(nodes: Nodes, rank: map<EntityId, nat>, root: Option<EntityId>, nextId: u64,
                   c: EntityId, parentWorld: Mat, world: Mat)
    requires Tree(nodes, rank, root) && IdsUpTo(nodes, nextId) && c in nodes
    ensures RankedBy(Children(nodes), rank)
    ensures var r := Propagate(nodes, rank, c, parentWorld);
      Tree(r, rank, root) && IdsUpTo(r, nextId) && c in r
    ensures var r := Propagate(nodes, rank, c, parentWorld);
      nodes[c].local == Mul(Inv(parentWorld), world) && Associative() && LeftNeutral() && RightInverse(parentWorld) ==>
        c in r && r[c].world == world
    ensures var r := Propagate(nodes, rank, c, parentWorld);
      nodes[c].local == world && parentWorld == Identity() && LeftNeutral() ==> c in r && r[c].world == world
  {
    var worlds := Worlds(Children(nodes), Locals(nodes), rank, c, parentWorld);
    Rewriting(nodes, rank, root, nextId, worlds);
    WithWorldsAtTop(nodes, rank, c, parentWorld);
    if nodes[c].local == Mul(Inv(parentWorld), world) && Associative() && LeftNeutral() && RightInverse(parentWorld) {
      Reparent(parentWorld, world);
    }
  }

  /** One turn of the child loop of `UpdateWorldTransforms`: propagating
      into the next child's subtree after the worlds written so far is
      writing the worlds of one more child. */
  lemma Propagating(nodes: Nodes, contents: map<EntityId, Transforms.Transform>, K: Kids, L: map<EntityId, Mat>,
                    rank: map<EntityId, nat>, kids: seq<EntityId>, entity: EntityId, world: Mat, i: nat)
    requires ChildrenOf(K, rank, kids, entity) && K.Keys <= L.Keys && i < |kids|
    ensures ChildrenOf(K, rank, kids[..i], entity) && ChildrenOf(K, rank, kids[..i + 1], entity)
    ensures RankedBy(K, rank) && kids[i] in K && kids[i] in rank && entity in rank && rank[kids[i]] < rank[entity]
    ensures var done := map[entity := world] + WorldsOf(K, L, rank, kids[..i], entity, world);
      var next := Worlds(K, L, rank, kids[i], world);
      var done' := map[entity := world] + WorldsOf(K, L, rank, kids[..i + 1], entity, world);
      && WithWorlds(WithWorlds(nodes, done), next) == WithWorlds(nodes, done')
      && Posed(Posed(contents, done), next) == Posed(contents, done')
  {
    WorldsOfSnoc(K, L, rank, kids, entity, world, map[entity := world], i);
    var done := map[entity := world] + WorldsOf(K, L, rank, kids[..i], entity, world);
    var next := Worlds(K, L, rank, kids[i], world);
    WithWorldsTwice(nodes, done, next);
    PosedTwice(contents, done, next);
  }

  /** An empty arena is a tree without a root. */
  lemma Emptied(nextId: u64)
    ensures Tree(map[], map[], None) && IdsUpTo(map[], nextId)
  {
  }

  /** What `Unload` needs of the arena: without a root it is empty, and
      otherwise the root's subtree is all of it. */
  lemma Unloading(nodes: Nodes, rank: map<EntityId, nat>, root: Option<EntityId>)
    requires Tree(nodes, rank, root)
    ensures root.None? ==> nodes == map[]
    ensures root.Some? ==> root.value in nodes && RankedBy(Children(nodes), rank) && Sub(Children(nodes), rank, root.value) == nodes.Keys
  {
    if root.Some? {
      RootCovers(nodes, rank, root.value);
    }
  }

  /** The parent of a node of a tree is a node of it. */
  lemma Parented(nodes: Nodes, rank: map<EntityId, nat>, root: Option<EntityId>, e: EntityId)
    requires Tree(nodes, rank, root) && e in nodes
    ensures nodes[e].parent.Some? ==> nodes[e].parent.value in nodes
  {
  }

  /** What `SetWorldTransform` needs of the arena: a new local transform
      keeps it a tree with the same ids. */
  lemma Relocating(nodes: Nodes, rank: map<EntityId, nat>, root: Option<EntityId>, nextId: u64, e: EntityId, local: Mat)
    requires Tree(nodes, rank, root) && IdsUpTo(nodes, nextId) && e in nodes
    ensures var r := Relocal(nodes, e, local);
      && e in r && r[e].local == local
      && RankedBy(Children(r), rank) && Tree(r, rank, root) && IdsUpTo(r, nextId)
  {
    RelocalTree(nodes, rank, root, e, local);
  }

  /** What `RemoveEntity` needs of the arena to drop a leaf: `LeafRemoval`,
      and the ids that remain are still at most the counter. */
  lemma Leaving(nodes: Nodes, rank: map<EntityId, nat>, root: Option<EntityId>, nextId: u64, e: EntityId)
    requires Tree(nodes, rank, root) && IdsUpTo(nodes, nextId) && e in nodes && nodes[e].children == []
    ensures var p := nodes[e].parent;
      && (p.Some? ==> p.value in nodes)
      && var r := Unlinked(nodes, p, e) - {e};
      && r == Pruned(nodes, rank, e)
      && Tree(r, rank, if root == Some(e) then None else root)
      && IdsUpTo(r, nextId)
  {
    LeafRemoval(nodes, rank, root, e);
  }

  class Scene {
    const name: string
    const state: GameState
    /** `_nodes`, with each shared node stored under its entity. */
    var nodes: Nodes
    /** `_root`, as the root's entity. */
    var root: Option<EntityId>
    /** A witness that the hierarchy has no cycle. */
    ghost var rank: map<EntityId, nat>

    ghost predicate Valid()
      reads this, state, state.transforms
    {
      && state.Valid()
      && Tree(nodes, rank, root)
      && IdsUpTo(nodes, state.nextId)
    }

    /** `Scene(name, state)`: the scene owns a copy of the given state. */
    constructor (name: string, given: GameState)
      requires given.Valid()
      ensures Valid() && fresh(state) && fresh(state.transforms)
      ensures this.name == name && nodes == map[] && root == None
      ensures state.nextId == given.nextId
      ensures state.transforms.components == given.transforms.components
      ensures state.transforms.entityToIndex == given.transforms.entityToIndex
      ensures state.transforms.indexToEntity == given.transforms.indexToEntity
    {
      this.name := name;
      state := new GameState.CopyOf(given);
      nodes := map[];
      root := None;
      rank := map[];
    }

    /** `CreateEntity(parent)`: allocates an id and adds a leaf with identity
        transforms, as the root of an empty scene, below the given parent,
        or below the root. No component is added and nothing propagates. */
    method CreateEntity(parent: Option<EntityId> := None) returns (entity: EntityId)
      requires Valid()
      requires state.nextId < MaxU64
      requires parent.Some? && parent.value.Valid() ==> parent.value in nodes
      modifies this`nodes, this`root, this`rank, state`nextId
      ensures Valid()
      ensures state.nextId == Successor(old(state.nextId)) && entity == EntityId(state.nextId)
      ensures entity !in old(nodes)
      ensures nodes == Placed(old(nodes), entity, Placement(parent, old(root)))
      ensures root == if old(root).None? then Some(entity) else old(root)
      ensures var at := Placement(parent, old(root));
        && (at.Some? ==> at.value in old(nodes))
        && (at.Some? && RightNeutral() && old(nodes)[at.value].world != Identity() ==> !Consistent(nodes))
    {
      hide Tree, IdsUpTo, Sub, Children, RankedBy, Lifted;
      Creation(nodes, rank, root, state.nextId, parent, EntityId(Successor(state.nextId)));
      var at := Placement(parent, root);
      if at.Some? && RightNeutral() && nodes[at.value].world != Identity() {
        PlacedInconsistent(nodes, EntityId(Successor(state.nextId)), at);
      }
      entity := state.CreateEntity();
      var created := Node(entity, [], None, Identity(), Identity());
      var placed := nodes;
      if parent.None? || !parent.value.Valid() {
        if root.None? {
          root := Some(entity);
        } else {
          created := created.(parent := root);
          var top := placed[root.value];
          placed := placed[root.value := top.(children := top.children + [entity])];
        }
      } else {
        var parentNode := placed[parent.value];
        created := created.(parent := parent);
        placed := placed[parent.value := parentNode.(children := parentNode.children + [entity])];
      }
      placed := placed[entity := created];
      assert placed == Placed(old(nodes), entity, Placement(parent, old(root)));
      nodes := placed;
      rank := Lifted(old(nodes), old(rank), entity);
    }

    /** `RemoveEntity(entity)`: for a node of the scene, removes its whole
        subtree (children first, each through a recursive call), erases it
        from its parent's child list, destroys the transform component of
        every removed entity and clears the root when it was removed. An
        entity that is not in the scene is ignored. */
    method RemoveEntity(entity: EntityId)
      requires Valid()
      modifies this`nodes, this`root, state.transforms
      decreases if entity in rank then rank[entity] else 0, 1
      ensures Valid()
      ensures entity !in old(nodes) ==>
        nodes == old(nodes) && root == old(root) && state.transforms.Contents() == old(state.transforms.Contents())
      ensures entity in old(nodes) ==>
        && nodes == Pruned(old(nodes), old(rank), entity)
        && root == (if old(root) == Some(entity) then None else old(root))
        && state.transforms.Contents() == old(state.transforms.Contents()) - Sub(Children(old(nodes)), old(rank), entity)
      ensures old(Consistent(nodes)) ==> Consistent(nodes)
    {
      if entity !in nodes {
        return;
      }
      if Consistent(nodes) {
        PrunedConsistent(nodes, rank, root, entity);
      }
      RemoveChildren(entity);
      RemoveLeaf(entity);
    }

    /** The loop of `RemoveEntity`: removes the subtree of each child in turn.
        It runs over a copy of the child list, which the recursive calls
        shrink; the range-for of the source runs over the list itself. */
    method RemoveChildren(entity: EntityId)
      requires Valid() && entity in nodes
      modifies this`nodes, this`root, state.transforms
      decreases rank[entity], 0
      ensures Valid() && root == old(root)
      ensures entity in nodes && nodes[entity].children == []
      ensures Pruned(nodes, rank, entity) == Pruned(old(nodes), old(rank), entity)
      ensures state.transforms.Contents() - {entity} ==
        old(state.transforms.Contents()) - Sub(Children(old(nodes)), old(rank), entity)
    {
      ghost var start, contents := nodes, state.transforms.Contents();
      ghost var K := Children(start);
      var kids := nodes[entity].children;
      RemovalStart(start, rank, root, entity, contents);
      hide Tree, Partial, Pruned, Sub, SubOf, Children, ChildrenOf, RankedBy, IdsUpTo;
      var i := 0;
      while i < |kids|
        invariant 0 <= i <= |kids| && ChildrenOf(K, rank, kids[..i], entity)
        invariant Valid() && root == old(root)
        invariant nodes == Partial(start, rank, entity, i)
        invariant state.transforms.Contents() == contents - SubOf(K, rank, kids[..i], entity)
      {
        RemovalStep(start, rank, root, entity, i, contents);
        RemoveEntity(kids[i]);
        i := i + 1;
      }
      RemovalFinish(start, rank, root, entity, contents);
    }

    /** The end of `RemoveEntity` for a node whose children are gone: it
        leaves its parent's child list and the arena, its component is
        destroyed and the root is cleared if it was the root. */
    method RemoveLeaf(entity: EntityId)
      requires Valid() && entity in nodes && nodes[entity].children == []
      modifies this`nodes, this`root, state.transforms
      ensures Valid()
      ensures nodes == Pruned(old(nodes), old(rank), entity)
      ensures root == if old(root) == Some(entity) then None else old(root)
      ensures state.transforms.Contents() == old(state.transforms.Contents()) - {entity}
    {
      hide Tree, Pruned, IdsUpTo, Sub, Children, RankedBy, GameState.Valid;
      Leaving(nodes, rank, root, state.nextId, entity);
      var node := nodes[entity];
      var remaining := nodes;
      if node.parent.Some? {
        var parentNode := remaining[node.parent.value];
        remaining := remaining[node.parent.value := parentNode.(children := Without(parentNode.children, entity))];
      }
      remaining := remaining - {entity};
      assert remaining == Unlinked(nodes, node.parent, entity) - {entity};
      hide Unlinked;
      nodes := remaining;
      state.DestroyEntity(entity);
      if root == Some(entity) {
        root := None;
      }
    }

    /** `UpdateWorldTransforms(node, parentTransform)`: the node's world
        becomes `parentTransform * local`, the decomposed world is written
        into its transform component when it has one, and the children follow
        with the node's new world. */
    method UpdateWorldTransforms(entity: EntityId, parentWorld: Mat)
      requires state.Valid() && RankedBy(Children(nodes), rank) && entity in nodes
      modifies this`nodes, state.transforms`components
      decreases rank[entity]
      ensures state.Valid()
      ensures var worlds := Worlds(Children(old(nodes)), Locals(old(nodes)), old(rank), entity, parentWorld);
        && nodes == WithWorlds(old(nodes), worlds)
        && state.transforms.Contents() == Posed(old(state.transforms.Contents()), worlds)
    {
      ghost var K, L := Children(nodes), Locals(nodes);
      ghost var before := state.transforms.Contents();
      var node := nodes[entity];
      assert K[entity] == node.children && L[entity] == node.local;
      hide Sub, SubOf, Worlds, WorldsOf, WithWorlds, Posed, Children, Locals, Mul, RankedBy, ChildrenOf, GameState.Valid;
      var world := Mul(parentWorld, node.local);
      WithOneWorld(nodes, entity, world);
      nodes := nodes[entity := node.(world := world)];
      WritePose(entity, world);
      var kids := node.children;
      WorldsOfEnds(K, L, rank, entity, parentWorld);
      ChildrenOfNode(K, rank, entity);
      var i := 0;
      while i < |kids|
        invariant 0 <= i <= |kids| && ChildrenOf(K, rank, kids[..i], entity)
        invariant state.Valid() && Children(nodes) == K && Locals(nodes) == L
        invariant nodes == WithWorlds(old(nodes), map[entity := world] + WorldsOf(K, L, rank, kids[..i], entity, world))
        invariant state.transforms.Contents() == Posed(before, map[entity := world] + WorldsOf(K, L, rank, kids[..i], entity, world))
      {
        Propagating(old(nodes), before, K, L, rank, kids, entity, world, i);
        UpdateWorldTransforms(kids[i], world);
        i := i + 1;
      }
    }

    /** The component write of `UpdateWorldTransforms`: when the entity has a
        transform component, the decomposed world becomes its pose. */
    method WritePose(entity: EntityId, world: Mat)
      requires state.Valid()
      modifies state.transforms`components
      ensures state.Valid()
      ensures state.transforms.Contents() == Posed(old(state.transforms.Contents()), map[entity := world])
    {
      PosedOne(state.transforms.Contents(), entity, world);
      var slot := state.GetComponentMutable(entity);
      if slot.Some? {
        var transform := state.transforms.components[slot.value];
        state.transforms.Write(slot.value, transform.WithPose(Decompose(world)));
      }
    }

    /** `AttachEntity(child, parent)`: when both are in the scene, the child
        and its subtree leave the old parent's child list and go to the end
        of the parent's, the child gets the local transform
        `inverse(parentWorld) * childWorld` and worlds are propagated from
        it with the parent's world. The parent must not lie in the child's
        subtree (the child itself included): the source does not check this,
        and the move would close a cycle. */
    method AttachEntity(child: EntityId, parent: EntityId)
      requires Valid()
      requires child in nodes && parent in nodes ==> parent !in Sub(Children(nodes), rank, child)
      modifies this`nodes, this`rank, state.transforms`components
      ensures Valid()
      ensures child !in old(nodes) || parent !in old(nodes) ==>
        && nodes == old(nodes) && rank == old(rank)
        && state.transforms.Contents() == old(state.transforms.Contents())
      ensures child in old(nodes) && parent in old(nodes) ==>
        var pw := old(nodes)[parent].world;
        && child != parent
        && rank == Rerank(old(nodes), old(rank), child)
        && var mid := Relinked(old(nodes), child, parent, Mul(Inv(pw), old(nodes)[child].world));
        && RankedBy(Children(mid), rank)
        && var worlds := Worlds(Children(mid), Locals(mid), rank, child, pw);
        && nodes == WithWorlds(mid, worlds)
        && state.transforms.Contents() == Posed(old(state.transforms.Contents()), worlds)
      ensures child in old(nodes) && parent in old(nodes) ==>
        Associative() && LeftNeutral() && RightInverse(old(nodes)[parent].world) ==>
        child in nodes && nodes[child].world == old(nodes)[child].world
      ensures old(Consistent(nodes)) ==> Consistent(nodes)
    {
      hide Tree, IdsUpTo, Sub, Children, Locals, RankedBy, Rerank, Relinked, Worlds, WithWorlds, Posed, GameState.Valid, Mul, Inv, Associative, LeftNeutral, RightInverse, Consistent;
      if child !in nodes {
        return;
      }
      if parent !in nodes {
        return;
      }
      var childWorld, parentWorld := nodes[child].world, nodes[parent].world;
      if Consistent(nodes) {
        RelinkedConsistent(nodes, rank, root, child, parent, Mul(Inv(parentWorld), childWorld));
      }
      Relink(child, parent, Mul(Inv(parentWorld), childWorld));
      ghost var mid := nodes;
      UpdateWorldTransforms(child, parentWorld);
      Propagated(mid, rank, root, state.nextId, child, parentWorld, childWorld);
    }

    /** `DetachEntity(child)`: a node of the scene that has a parent leaves
        its parent's child list and goes to the end of the root's, with the
        local transform `inverse(rootWorld) * world`, and worlds are
        propagated from it with the root's world. A node without a parent,
        or not in the scene, is left alone. */
    method DetachEntity(child: EntityId)
      requires Valid()
      modifies this`nodes, this`rank, state.transforms`components
      ensures Valid()
      ensures child !in old(nodes) || old(nodes)[child].parent.None? ==>
        && nodes == old(nodes) && rank == old(rank)
        && state.transforms.Contents() == old(state.transforms.Contents())
      ensures child in old(nodes) && old(nodes)[child].parent.Some? ==>
        && root.Some? && root.value in old(nodes) && child != root.value
        && var rw := old(nodes)[root.value].world;
        && rank == Rerank(old(nodes), old(rank), child)
        && var mid := Relinked(old(nodes), child, root.value, Mul(Inv(rw), old(nodes)[child].world));
        && RankedBy(Children(mid), rank)
        && var worlds := Worlds(Children(mid), Locals(mid), rank, child, rw);
        && nodes == WithWorlds(mid, worlds)
        && state.transforms.Contents() == Posed(old(state.transforms.Contents()), worlds)
      ensures child in old(nodes) && old(nodes)[child].parent.Some? ==>
        root.Some? && root.value in old(nodes) &&
        (Associative() && LeftNeutral() && RightInverse(old(nodes)[root.value].world) ==>
        child in nodes && nodes[child].world == old(nodes)[child].world)
      ensures old(Consistent(nodes)) ==> Consistent(nodes)
    {
      hide Tree, IdsUpTo, Sub, Children, Locals, RankedBy, Rerank, Relinked, Worlds, WithWorlds, Posed, GameState.Valid, Mul, Inv, Associative, LeftNeutral, RightInverse, Consistent;
      if child !in nodes {
        return;
      }
      var childNode := nodes[child];
      if childNode.parent.None? {
        return;
      }
      var worldTransform := childNode.world;
      Detaching(nodes, rank, root, child);
      assert root.Some? && child != root.value;
      var rootWorld := nodes[root.value].world;
      if Consistent(nodes) {
        RelinkedConsistent(nodes, rank, root, child, root.value, Mul(Inv(rootWorld), worldTransform));
      }
      Relink(child, root.value, Mul(Inv(rootWorld), worldTransform));
      ghost var mid := nodes;
      UpdateWorldTransforms(child, rootWorld);
      Propagated(mid, rank, root, state.nextId, child, rootWorld, worldTransform);
    }

    /** The hierarchy edit of `AttachEntity` and `DetachEntity`: the child
        leaves its old parent's child list, goes to the end of the new
        parent's, records it as its parent and takes the given local
        transform. */
    method Relink(child: EntityId, parent: EntityId, local: Mat)
      requires Valid() && child in nodes && parent in nodes
      requires parent !in Sub(Children(nodes), rank, child)
      modifies this`nodes, this`rank
      ensures child != parent && Valid() && child in nodes && RankedBy(Children(nodes), rank)
      ensures nodes == Relinked(old(nodes), child, parent, local)
      ensures rank == Rerank(old(nodes), old(rank), child)
      ensures nodes[child].local == local
    {
      hide Tree, IdsUpTo, Sub, Children, RankedBy, Rerank, GameState.Valid;
      Moving(nodes, rank, root, state.nextId, child, parent, local);
      var childNode := nodes[child];
      var moved := nodes;
      if childNode.parent.Some? {
        var oldParent := moved[childNode.parent.value];
        moved := moved[childNode.parent.value := oldParent.(children := Without(oldParent.children, child))];
      }
      var top := moved[parent];
      moved := moved[parent := top.(children := top.children + [child])];
      moved := moved[child := moved[child].(parent := Some(parent), local := local)];
      assert moved == Relinked(nodes, child, parent, local);
      nodes, rank := moved, Rerank(nodes, rank, child);
    }

    /** `SetWorldTransform(entity, transform)`: for a node of the scene, the
        local transform becomes `inverse(parentWorld) * transform` (or the
        transform itself at a node without a parent) and worlds are
        propagated from it with the parent's world (or the identity). */
    method SetWorldTransform(entity: EntityId, transform: Mat)
      requires Valid()
      modifies this`nodes, state.transforms`components
      ensures Valid()
      ensures entity !in old(nodes) ==>
        nodes == old(nodes) && state.transforms.Contents() == old(state.transforms.Contents())
      ensures entity in old(nodes) ==>
        var p := old(nodes)[entity].parent;
        && (p.Some? ==> p.value in old(nodes))
        && var pw := if p.Some? then old(nodes)[p.value].world else Identity();
        && var mid := Relocal(old(nodes), entity, if p.Some? then Mul(Inv(pw), transform) else transform);
        && var worlds := Worlds(Children(mid), Locals(mid), rank, entity, pw);
        && nodes == WithWorlds(mid, worlds)
        && state.transforms.Contents() == Posed(old(state.transforms.Contents()), worlds)
      ensures entity in old(nodes) ==>
        var p := old(nodes)[entity].parent;
        (p.Some? ==> p.value in old(nodes)) &&
        (LeftNeutral() && (p.Some? ==> Associative() && RightInverse(old(nodes)[p.value].world)) ==>
        entity in nodes && nodes[entity].world == transform)
      ensures old(Consistent(nodes)) ==> Consistent(nodes)
    {
      hide Tree, IdsUpTo, Sub, Children, Locals, RankedBy, Rerank, Worlds, WithWorlds, Posed, GameState.Valid, Mul, Inv, Associative, LeftNeutral, RightInverse;
      if entity !in nodes {
        return;
      }
      var node := nodes[entity];
      Parented(nodes, rank, root, entity);
      var parentWorld := Identity();
      var local := transform;
      if node.parent.Some? {
        parentWorld := nodes[node.parent.value].world;
        local := Mul(Inv(parentWorld), transform);
      }
      Relocating(nodes, rank, root, state.nextId, entity, local);
      if Consistent(nodes) {
        RelocalConsistent(nodes, rank, root, entity, local);
        assert ParentWorld(nodes, entity) == parentWorld;
      }
      ghost var mid := Relocal(nodes, entity, local);
      nodes := nodes[entity := node.(local := local)];
      assert nodes == mid;
      hide Relocal;
      UpdateWorldTransforms(entity, parentWorld);
      Propagated(mid, rank, root, state.nextId, entity, parentWorld, transform);
    }

    /** `Unload()`: destroys the transform component of every node below the
        root (children first) and empties the scene. */
    method Unload()
      requires Valid()
      modifies this`nodes, this`root, this`rank, state.transforms
      ensures Valid() && nodes == map[] && root == None && Consistent(nodes)
      ensures state.transforms.Contents() == old(state.transforms.Contents()) - old(nodes).Keys
    {
      hide Tree, IdsUpTo, Sub, Children, RankedBy;
      Emptied(state.nextId);
      Unloading(nodes, rank, root);
      if root.Some? {
        DestroyNode(root.value);
      }
      nodes := map[];
      root := None;
      rank := map[];
    }

    /** The recursive `destroyNode` of `Unload`: destroys the components of
        the children's subtrees in order, then the node's own. */
    method DestroyNode(entity: EntityId)
      requires state.Valid() && RankedBy(Children(nodes), rank) && entity in nodes
      modifies state.transforms
      decreases rank[entity]
      ensures state.Valid()
      ensures state.transforms.Contents() == old(state.transforms.Contents()) - Sub(Children(nodes), rank, entity)
    {
      ghost var K, before := Children(nodes), state.transforms.Contents();
      var kids := nodes[entity].children;
      ChildrenOfNode(K, rank, entity);
      var i := 0;
      while i < |kids|
        invariant 0 <= i <= |kids| && ChildrenOf(K, rank, kids[..i], entity)
        invariant state.Valid()
        invariant state.transforms.Contents() == before - SubOf(K, rank, kids[..i], entity)
      {
        SubOfSnoc(K, rank, kids, entity, i);
        assert kids[i] in kids;
        DestroyNode(kids[i]);
        MinusTwice(before, SubOf(K, rank, kids[..i], entity), Sub(K, rank, kids[i]));
        i := i + 1;
      }
      state.DestroyEntity(entity);
      MinusSub(before, K, rank, entity);
    }

    /** `GetWorldTransform(entity)`: the cached world, or the identity for an
        entity that is not in the scene. */
    function GetWorldTransform(entity: EntityId): (m: Mat)
      reads this
      ensures entity in nodes ==> m == nodes[entity].world
      ensures entity !in nodes ==> m == Identity()
    {
      if entity in nodes then nodes[entity].world else Identity()
    }
  }
}
