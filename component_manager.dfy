/** `x::ComponentManager<T>`: a dense, swap-compacting store of one component
    type, keyed by entity. Pointers into the dense array are modelled as slot
    indices. */
module Components {
  import opened Wrappers
  import opened Entities

  /** The invariant of the three co-indexed structures: no gaps, and entity `e`
      maps to slot `i` exactly when slot `i` records `e`. */
  ghost predicate Indexed<T>(components: seq<T>, entityToIndex: map<EntityId, nat>, indexToEntity: seq<EntityId>) {
    && |components| == |indexToEntity|
    && (forall e :: e in entityToIndex ==> entityToIndex[e] < |indexToEntity| && indexToEntity[entityToIndex[e]] == e)
    && (forall i :: 0 <= i < |indexToEntity| ==> indexToEntity[i] in entityToIndex && entityToIndex[indexToEntity[i]] == i)
  }

  /** The entity-to-component map that the co-indexed structures represent. */
  ghost function Mapped<T>(components: seq<T>, entityToIndex: map<EntityId, nat>): (m: map<EntityId, T>)
    requires forall e :: e in entityToIndex ==> entityToIndex[e] < |components|
    ensures m.Keys == entityToIndex.Keys
  {
    map e | e in entityToIndex :: components[entityToIndex[e]]
  }

  /** A swap-remove of `entity` loses exactly that entity's component: any
      indexed store whose slots below the new end agree with the old ones,
      except that the removed slot holds the old last component, and whose
      mapping agrees except that the moved entity points to the removed slot,
      represents the old map without the entity. */
  lemma {:induction false} SwapRemoved<T>(components: seq<T>, entityToIndex: map<EntityId, nat>, indexToEntity: seq<EntityId>,
                                          components': seq<T>, entityToIndex': map<EntityId, nat>, indexToEntity': seq<EntityId>,
                                          entity: EntityId)
    requires Indexed(components, entityToIndex, indexToEntity) && entity in entityToIndex
    requires Indexed(components', entityToIndex', indexToEntity')
    requires var i, last := entityToIndex[entity], |components| - 1;
      && |components'| == last
      && entityToIndex'.Keys == entityToIndex.Keys - {entity}
      && (i < last ==> entityToIndex'[indexToEntity[last]] == i && components'[i] == components[last])
      && (forall j :: 0 <= j < last && j != i ==> components'[j] == components[j])
      && (forall e :: e in entityToIndex' && e != indexToEntity[last] ==> entityToIndex'[e] == entityToIndex[e])
    ensures Mapped(components', entityToIndex') == Mapped(components, entityToIndex) - {entity}
  {
    var i, last := entityToIndex[entity], |components| - 1;
    var moved := indexToEntity[last];
    forall e | e in entityToIndex'
      ensures components'[entityToIndex'[e]] == components[entityToIndex[e]]
    {
      if e == moved {
        assert i != last;
      } else {
        var k := entityToIndex[e];
        assert indexToEntity[k] == e;
        assert k != i && k != last;
      }
    }
  }

  class ComponentManager<T> {
    var components: seq<T>
    var entityToIndex: map<EntityId, nat>
    var indexToEntity: seq<EntityId>

    ghost predicate Valid()
      reads this
    {
      Indexed(components, entityToIndex, indexToEntity)
    }

    /** The store seen as a finite map from entity to its component. */
    ghost function Contents(): map<EntityId, T>
      reads this
      requires Valid()
    {
      Mapped(components, entityToIndex)
    }

    constructor ()
      ensures Valid()
      ensures components == [] && indexToEntity == [] && entityToIndex == map[]
    {
      components := [];
      entityToIndex := map[];
      indexToEntity := [];
    }

    /** The member-wise copy made when the owning GameState is copied. */
    constructor CopyOf(other: ComponentManager<T>)
      requires other.Valid()
      ensures Valid()
      ensures components == other.components
      ensures entityToIndex == other.entityToIndex
      ensures indexToEntity == other.indexToEntity
    {
      components := other.components;
      entityToIndex := other.entityToIndex;
      indexToEntity := other.indexToEntity;
    }

    /** Copy assignment from another store. */
    method Assign(other: ComponentManager<T>)
      requires other.Valid()
      modifies this
      ensures Valid()
      ensures components == other.components
      ensures entityToIndex == other.entityToIndex
      ensures indexToEntity == other.indexToEntity
    {
      components := other.components;
      entityToIndex := other.entityToIndex;
      indexToEntity := other.indexToEntity;
    }

    /** `ReleaseResources()`: when the component type has `Release` (the
        `release_resources` trait), every stored component is released in
        dense order; otherwise nothing happens. */
    method ReleaseResources(hasRelease: bool, release: T -> T)
      requires Valid()
      modifies this`components
      ensures Valid()
      ensures |components| == |old(components)|
      ensures forall i :: 0 <= i < |components| ==>
        components[i] == if hasRelease then release(old(components)[i]) else old(components)[i]
    {
      if hasRelease {
        var i := 0;
        while i < |components|
          invariant 0 <= i <= |components| == |old(components)|
          invariant forall j :: 0 <= j < i ==> components[j] == release(old(components)[j])
          invariant forall j :: i <= j < |components| ==> components[j] == old(components)[j]
        {
          components := components[i := release(components[i])];
          i := i + 1;
        }
      }
    }

    /** `AddComponent(entity)`: appends the default-constructed component
        `blank` and maps the entity to the new last slot. The source does not
        guard a second add for the same entity (it would overwrite the mapping
        and orphan a slot), so the entity must be absent. Returns the
        `ComponentView`: the entity and the slot of its component. */
    method AddComponent(entity: EntityId, blank: T) returns (viewEntity: EntityId, slot: nat)
      requires Valid()
      requires entity !in entityToIndex
      modifies this
      ensures Valid()
      ensures components == old(components) + [blank]
      ensures indexToEntity == old(indexToEntity) + [entity]
      ensures entityToIndex == old(entityToIndex)[entity := |old(components)|]
      ensures viewEntity == entity && slot == |old(components)|
      ensures Contents() == old(Contents())[entity := blank]
    {
      var newIndex := |components|;
      components := components + [blank];
      entityToIndex := entityToIndex[entity := newIndex];
      indexToEntity := indexToEntity + [entity];
      viewEntity, slot := entity, newIndex;
    }

    /** `RemoveComponent(entity)`: a no-op for an entity without a component;
        otherwise the last slot is moved into the removed one and the arrays
        shrink by one. */
    method RemoveComponent(entity: EntityId)
      requires Valid()
      modifies this
      ensures Valid()
      ensures entity !in old(entityToIndex) ==>
        components == old(components) && indexToEntity == old(indexToEntity) && entityToIndex == old(entityToIndex)
      ensures entity in old(entityToIndex) ==>
        var i, last := old(entityToIndex)[entity], |old(components)| - 1;
        && |components| == last
        && entity !in entityToIndex
        && entityToIndex.Keys == old(entityToIndex).Keys - {entity}
        && (i < last ==>
              && entityToIndex[old(indexToEntity)[last]] == i
              && indexToEntity[i] == old(indexToEntity)[last]
              && components[i] == old(components)[last])
        && (forall j :: 0 <= j < last && j != i ==>
              components[j] == old(components)[j] && indexToEntity[j] == old(indexToEntity)[j])
        && (forall e :: e in entityToIndex && e != old(indexToEntity)[last] ==>
              entityToIndex[e] == old(entityToIndex)[e])
      ensures Contents() == old(Contents()) - {entity}
    {
      hide Mapped;
      if entity in entityToIndex {
        var indexToRemove := entityToIndex[entity];
        var lastIndex := |components| - 1;
        var dense, slots, owners := components, entityToIndex, indexToEntity;
        if indexToRemove != lastIndex {
          dense := dense[indexToRemove := dense[lastIndex]];
          var movedEntity := owners[lastIndex];
          slots := slots[movedEntity := indexToRemove];
          owners := owners[indexToRemove := movedEntity];
        }
        dense, owners, slots := dense[..lastIndex], owners[..lastIndex], slots - {entity};
        SwapRemoved(components, entityToIndex, indexToEntity, dense, slots, owners, entity);
        components, entityToIndex, indexToEntity := dense, slots, owners;
      }
    }

    /** `GetComponent(entity)`: the entity's component, or none. */
    function GetComponent(entity: EntityId): (r: Option<T>)
      reads this
      requires Valid()
      ensures r.Some? <==> entity in Contents()
      ensures r.Some? ==> r.value == Contents()[entity]
    {
      if entity in entityToIndex then Some(components[entityToIndex[entity]]) else None
    }

    /** `GetComponentMutable(entity)`: the slot the returned pointer designates,
        or none. */
    function GetComponentMutable(entity: EntityId): (slot: Option<nat>)
      reads this
      requires Valid()
      ensures slot.Some? <==> entity in Contents()
      ensures slot.Some? ==>
        slot.value < |components| && indexToEntity[slot.value] == entity && components[slot.value] == Contents()[entity]
    {
      if entity in entityToIndex then Some(entityToIndex[entity]) else None
    }

    /** A write through a pointer obtained from `GetComponentMutable` or from a
        mutable view: only that slot changes. */
    method Write(slot: nat, component: T)
      requires Valid() && slot < |components|
      modifies this`components
      ensures Valid()
      ensures components == old(components)[slot := component]
      ensures Contents() == old(Contents())[indexToEntity[slot] := component]
    {
      components := components[slot := component];
    }

    /** `GetEntity(component)`: `offset` is `component - _components.data()`.
        An in-range slot gives its entity; anything else gives `EntityId{0}`. */
    function GetEntity(offset: int): (r: EntityId)
      reads this
      requires Valid()
      ensures 0 <= offset < |components| ==> r in Contents() && entityToIndex[r] == offset
      ensures !(0 <= offset < |components|) ==> r == EntityId(0)
    {
      if 0 <= offset < |components| then indexToEntity[offset] else EntityId(0)
    }

    /** `BeginMutable()` */
    method BeginMutable() returns (it: Iterator<T>)
      ensures fresh(it) && it.manager == this && it.index == 0
    {
      it := new Iterator(this, 0);
    }

    /** `EndMutable()` */
    method EndMutable() returns (it: Iterator<T>)
      ensures fresh(it) && it.manager == this && it.index == |components|
    {
      it := new Iterator(this, |components|);
    }

    /** `begin() const` */
    method Begin() returns (it: ConstIterator<T>)
      ensures fresh(it) && it.manager == this && it.index == 0
    {
      it := new ConstIterator(this, 0);
    }

    /** `end() const` */
    method End() returns (it: ConstIterator<T>)
      ensures fresh(it) && it.manager == this && it.index == |components|
    {
      it := new ConstIterator(this, |components|);
    }

    /** A `for (auto [entity, component] : manager)` loop: the const iterators
        yield every (entity, component) pair once, in dense order. */
    method Traverse() returns (entries: seq<(EntityId, T)>)
      requires Valid()
      ensures |entries| == |components|
      ensures forall i :: 0 <= i < |entries| ==> entries[i] == (indexToEntity[i], components[i])
    {
      var it := Begin();
      var end := End();
      entries := [];
      while it.NotEqual(end)
        invariant it.manager == this && end.index == |components|
        invariant it.index <= |components| && |entries| == it.index
        invariant forall i :: 0 <= i < |entries| ==> entries[i] == (indexToEntity[i], components[i])
        decreases |components| - it.index
      {
        var entity, component := it.Deref();
        entries := entries + [(entity, component)];
        it.Next();
      }
    }
  }

  /** `ComponentManager::Iterator`: a mutable cursor over the dense slots. */
  class Iterator<T> {
    const manager: ComponentManager<T>
    var index: nat

    constructor (manager: ComponentManager<T>, index: nat)
      ensures this.manager == manager && this.index == index
    {
      this.manager := manager;
      this.index := index;
    }

    /** `operator*`: the `ComponentView` of the current slot (its entity and
        the slot its component reference designates). */
    method Deref() returns (entity: EntityId, slot: nat)
      requires index < |manager.indexToEntity|
      ensures entity == manager.indexToEntity[index] && slot == index
    {
      entity, slot := manager.indexToEntity[index], index;
    }

    /** `operator++` */
    method Next()
      modifies this`index
      ensures index == old(index) + 1
    {
      index := index + 1;
    }

    predicate NotEqual(other: Iterator<T>)
      reads this, other
    {
      index != other.index
    }

    predicate Equal(other: Iterator<T>)
      reads this, other
    {
      index == other.index
    }
  }

  /** `ComponentManager::ConstIterator`: a read-only cursor over the dense slots. */
  class ConstIterator<T> {
    const manager: ComponentManager<T>
    var index: nat

    constructor (manager: ComponentManager<T>, index: nat)
      ensures this.manager == manager && this.index == index
    {
      this.manager := manager;
      this.index := index;
    }

    /** `operator*`: the `ConstComponentView` of the current slot. */
    method Deref() returns (entity: EntityId, component: T)
      requires index < |manager.indexToEntity| == |manager.components|
      ensures entity == manager.indexToEntity[index] && component == manager.components[index]
    {
      entity, component := manager.indexToEntity[index], manager.components[index];
    }

    /** `operator++` */
    method Next()
      modifies this`index
      ensures index == old(index) + 1
    {
      index := index + 1;
    }

    predicate NotEqual(other: ConstIterator<T>)
      reads this, other
    {
      index != other.index
    }

    predicate Equal(other: ConstIterator<T>)
      reads this, other
    {
      index == other.index
    }
  }
}
