/** `x::GameState`: the entity id counter and the transform component store. */
module Game {
  import opened Wrappers
  import opened Entities
  import Transforms
  import opened Components

  /** `++_nextId` on a `u64`: the maximum wraps to zero. */
  function Successor(v: u64): (r: u64)
    ensures v < MaxU64 ==> r as int == v as int + 1
    ensures v == MaxU64 ==> r == 0
  {
    if v == MaxU64 then 0 else v + 1
  }

  /** The ids returned by `count` successive `CreateEntity` calls on a
      counter at `start`. */
  function Allocations(start: u64, count: nat): (ids: seq<EntityId>)
    ensures |ids| == count
    decreases count
  {
    if count == 0 then [] else [EntityId(Successor(start))] + Allocations(Successor(start), count - 1)
  }

  /** Without wrap-around the `i`-th allocation is `start + i + 1`. */
  lemma {:induction false} AllocationValues(start: u64, count: nat)
    requires start as int + count < MaxU64 as int
    ensures forall i :: 0 <= i < count ==> Allocations(start, count)[i].value as int == start as int + i + 1
    decreases count
  {
    if count > 0 {
      AllocationValues(Successor(start), count - 1);
    }
  }

  /** While the counter stays below the maximum, successive ids strictly
      increase (so none is reused) and none is the invalid sentinel. */
  lemma AllocationsIncreaseAndAreValid(start: u64, count: nat)
    requires start as int + count < MaxU64 as int
    ensures forall i, j :: 0 <= i < j < count ==> Allocations(start, count)[i].Lt(Allocations(start, count)[j])
    ensures forall i :: 0 <= i < count ==> Allocations(start, count)[i].Valid()
  {
    AllocationValues(start, count);
  }

  /** A fresh state hands out 1 first. */
  lemma FirstAllocationIsOne()
    ensures Allocations(0, 1) == [EntityId(1)]
  {
  }

  class GameState {
    var nextId: u64
    const transforms: ComponentManager<Transforms.Transform>

    ghost predicate Valid()
      reads this, transforms
    {
      transforms.Valid()
    }

    /** A default state: counter zero, no components. */
    constructor ()
      ensures Valid() && fresh(transforms)
      ensures nextId == 0 && transforms.Contents() == map[] && transforms.components == []
    {
      nextId := 0;
      transforms := new ComponentManager();
    }

    /** The implicit copy constructor: copies the counter and the store. */
    constructor CopyOf(other: GameState)
      requires other.Valid()
      ensures Valid() && fresh(transforms)
      ensures nextId == other.nextId
      ensures transforms.components == other.transforms.components
      ensures transforms.entityToIndex == other.transforms.entityToIndex
      ensures transforms.indexToEntity == other.transforms.indexToEntity
    {
      nextId := other.nextId;
      transforms := new ComponentManager.CopyOf(other.transforms);
    }

    /** `CreateEntity()`: pre-increments the counter and returns it as an id. */
    method CreateEntity() returns (id: EntityId)
      modifies this`nextId
      ensures nextId == Successor(old(nextId))
      ensures id == EntityId(nextId) && [id] == Allocations(old(nextId), 1)
    {
      nextId := Successor(nextId);
      id := EntityId(nextId);
    }

    /** `DestroyEntity(entity)`: drops the entity's transform component;
        the counter and every other component stay. */
    method DestroyEntity(entity: EntityId)
      requires Valid()
      modifies transforms
      ensures Valid()
      ensures transforms.Contents() == old(transforms.Contents()) - {entity}
    {
      transforms.RemoveComponent(entity);
    }

    /** `Clone()`: a new state with the same counter and an equal store. The
        copy and its store are new objects, so later changes to either side
        do not reach the other. */
    method Clone() returns (copy: GameState)
      requires Valid()
      ensures fresh(copy) && fresh(copy.transforms) && copy.Valid()
      ensures copy.nextId == nextId
      ensures copy.transforms.components == transforms.components
      ensures copy.transforms.entityToIndex == transforms.entityToIndex
      ensures copy.transforms.indexToEntity == transforms.indexToEntity
    {
      copy := new GameState();
      copy.nextId := nextId;
      copy.transforms.Assign(transforms);
    }

    /** `ReleaseAllResources()`: its body is empty, so nothing changes. */
    method ReleaseAllResources()
      ensures unchanged(this, transforms)
    {
    }

    /** `ReleaseComponentResources<T>()` for the transform store: the store
        releases its components only when the type has `Release`. */
    method ReleaseComponentResources(hasRelease: bool, release: Transforms.Transform -> Transforms.Transform)
      requires Valid()
      modifies transforms`components
      ensures Valid()
      ensures |transforms.components| == |old(transforms.components)|
      ensures forall i :: 0 <= i < |transforms.components| ==>
        transforms.components[i] == if hasRelease then release(old(transforms.components)[i]) else old(transforms.components)[i]
    {
      if hasRelease {
        transforms.ReleaseResources(hasRelease, release);
      }
    }

    /** `GetComponent<TransformComponent>(entity)` */
    function GetComponent(entity: EntityId): (r: Option<Transforms.Transform>)
      reads this, transforms
      requires Valid()
      ensures r.Some? <==> entity in transforms.Contents()
      ensures r.Some? ==> r.value == transforms.Contents()[entity]
    {
      transforms.GetComponent(entity)
    }

    /** `GetComponentMutable<TransformComponent>(entity)`: the slot of the
        entity's component, or none. */
    function GetComponentMutable(entity: EntityId): (slot: Option<nat>)
      reads this, transforms
      requires Valid()
      ensures slot.Some? <==> entity in transforms.Contents()
      ensures slot.Some? ==> slot.value < |transforms.components| && transforms.indexToEntity[slot.value] == entity
    {
      transforms.GetComponentMutable(entity)
    }

    /** `AddComponent<TransformComponent>(entity)`, as evidently intended: the
        store gains a default component for the entity, and its slot is
        returned. */
    method AddComponent(entity: EntityId) returns (slot: nat)
      requires Valid()
      requires entity !in transforms.entityToIndex
      modifies transforms
      ensures Valid()
      ensures transforms.Contents() == old(transforms.Contents())[entity := Transforms.New()]
      ensures slot < |transforms.components| && transforms.indexToEntity[slot] == entity
    {
      var _, s := transforms.AddComponent(entity, Transforms.New());
      slot := s;
    }
  }
}
