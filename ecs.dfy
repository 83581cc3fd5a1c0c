/** The entity-component-system registry of ECS.kt: component descriptors that
    obtain a type index from the world, per-type component pools, entities
    with one slot per type index, and the world that registers types and
    systems, creates entities and drives the per-frame update. */
module Ecs {
  import opened Slots

  /** A user-supplied system, named by an opaque handle; what its `update`
      does is not part of this model. */
  type SystemId = nat

  /** One call `system.update(dt, entities)` made by `World.update`. */
  datatype SystemCall<D> = SystemCall(system: SystemId, dt: D, entities: seq<Entity>)

  /** A component instance. Its payload is user data and is not modelled;
      what the registry uses is the descriptor it belongs to. */
  class Component {
    const descriptor: Descriptor

    constructor (descriptor: Descriptor)
      ensures this.descriptor == descriptor
    {
      this.descriptor := descriptor;
    }

    /** Hands this component back to its type's pool. */
    method Free(world: World)
      requires world.Valid()
      requires 0 <= descriptor.typeIndex < world.nextComponent
      modifies world.componentPools[descriptor.typeIndex]
      ensures world.componentPools[descriptor.typeIndex].freeObjects
           == old(world.componentPools[descriptor.typeIndex].freeObjects) + [this]
    {
      world.FreeComponent(descriptor.typeIndex, this);
    }
  }

  /** The per-type descriptor: knows the type index the world gave it, -1
      until it has been registered, and creates components through the
      world. Its `createObject` factory is modelled as allocating a fresh
      component of this descriptor. */
  class Descriptor {
    var typeIndex: int

    constructor ()
      ensures typeIndex == -1
    {
      typeIndex := -1;
    }

    /** Registers this descriptor's factory and remembers the index. */
    method Init(world: World)
      requires world.Valid() && world.nextComponent < Capacity
      modifies this, world, world.componentPools
      ensures world.Valid()
      ensures typeIndex == old(world.nextComponent) && world.nextComponent == typeIndex + 1
      ensures world.registered == old(world.registered) + [this]
      ensures world.componentPools[typeIndex] != null && world.componentPools[typeIndex].factory == this
      ensures fresh(world.componentPools[typeIndex]) && world.componentPools[typeIndex].freeObjects == []
      ensures forall i :: 0 <= i < Capacity && i != typeIndex ==>
                world.componentPools[i] == old(world.componentPools[i])
      ensures world.systems == old(world.systems) && world.entities == old(world.entities)
    {
      typeIndex := world.Register(this);
    }

    /** A component of this type, recycled or new, from the world's pool.
        When this descriptor is the one registered at its index, as `Init`
        leaves it, a new component belongs to this descriptor. */
    method Create(world: World) returns (c: Component)
      requires world.Valid()
      requires 0 <= typeIndex < world.nextComponent
      modifies world.componentPools[typeIndex]
      ensures var pool := world.componentPools[typeIndex];
              var was := old(pool.freeObjects);
              if was == [] then fresh(c) && c.descriptor == world.registered[typeIndex] && pool.freeObjects == []
              else c == was[|was| - 1] && pool.freeObjects == was[..|was| - 1]
      ensures world.registered[typeIndex] == this && old(world.componentPools[typeIndex].freeObjects) == [] ==>
                c.descriptor == this
    {
      c := world.CreateComponent(typeIndex);
    }
  }

  /** The object pool of one component type: a free list of released
      instances and a factory for new ones. */
  class Pool {
    const factory: Descriptor
    var freeObjects: seq<Component>

    constructor (factory: Descriptor)
      ensures this.factory == factory && freeObjects == []
    {
      this.factory := factory;
      freeObjects := [];
    }

    /** The most recently freed instance if there is one, else a new one. */
    method Obtain() returns (c: Component)
      modifies this
      ensures var was := old(freeObjects);
              if was == [] then fresh(c) && c.descriptor == factory && freeObjects == []
              else c == was[|was| - 1] && freeObjects == was[..|was| - 1]
    {
      if freeObjects == [] {
        c := new Component(factory);
      } else {
        c := freeObjects[|freeObjects| - 1];
        freeObjects := freeObjects[..|freeObjects| - 1];
      }
    }

    /** Makes `c` available to a later `Obtain`. */
    method Free(c: Component)
      modifies this
      ensures freeObjects == old(freeObjects) + [c]
    {
      freeObjects := freeObjects + [c];
    }
  }

  /** An entity: one slot per component-type index. The ghost `history`
      records every write to the slots, and `Valid` says the slots are what
      that history produces. */
  class Entity {
    const components: array<Option<Component>>
    ghost var history: seq<SlotOp<Component>>

    ghost predicate Valid()
      reads this, components
    {
      components.Length == Capacity && ValidOps(history) && components[..] == Run(history)
    }

    constructor ()
      ensures Valid() && fresh(components) && history == []
      ensures components[..] == EmptySlots()
    {
      components := new Option<Component>[Capacity](_ => None);
      history := [];
      new;
      assert components[..] == EmptySlots<Component>();
    }

    /** `hasAllOf(ids)`: every named slot is occupied. Ids after the first
        empty slot are never looked up. */
    function HasAllOf(ids: seq<int>): (r: bool)
      reads components
      requires components.Length == Capacity && AllScanInRange(components[..], ids)
      ensures r <==> forall i :: 0 <= i < |ids| ==> IsSlot(ids[i]) && components[ids[i]].Some?
      ensures ids == [] ==> r
    {
      AllOccupied(components[..], ids)
    }

    /** `hasAnyOf(ids)`: some named slot is occupied. Ids after the first
        occupied slot are never looked up. */
    function HasAnyOf(ids: seq<int>): (r: bool)
      reads components
      requires components.Length == Capacity && AnyScanInRange(components[..], ids)
      ensures r <==> exists i :: 0 <= i < |ids| && IsSlot(ids[i]) && components[ids[i]].Some?
      ensures ids == [] ==> !r
    {
      AnyOccupied(components[..], ids)
    }

    /** Places `c` in the slot of its type, which must be empty. */
    method AddComponent(c: Component)
      requires Valid()
      requires IsSlot(c.descriptor.typeIndex)
      requires components[c.descriptor.typeIndex].None?
      modifies this, components
      ensures Valid()
      ensures history == old(history) + [Add(c.descriptor.typeIndex, c)]
      ensures components[..] == Put(old(components[..]), c.descriptor.typeIndex, c)
    {
      var t := c.descriptor.typeIndex;
      components[t] := Some(c);
      history := history + [Add(t, c)];
      assert components[..] == Put(old(components[..]), t, c);
    }

    /** Empties slot `t`, whether or not it was occupied. */
    method RemoveComponent(t: int)
      requires Valid() && IsSlot(t)
      modifies this, components
      ensures Valid()
      ensures history == old(history) + [Remove(t)]
      ensures components[..] == Clear(old(components[..]), t)
    {
      components[t] := None;
      history := history + [Remove(t)];
      assert components[..] == Clear(old(components[..]), t);
    }

    /** Empties every slot. */
    method Reset()
      requires Valid()
      modifies this, components
      ensures Valid()
      ensures history == old(history) + [SlotOp.Reset]
      ensures components[..] == EmptySlots()
    {
      forall i | 0 <= i < components.Length {
        components[i] := None;
      }
      history := history + [SlotOp.Reset];
      assert components[..] == EmptySlots<Component>();
    }
  }

  /** The registry: the type-index counter, one pool per registered type,
      the systems in registration order and the live entities in creation
      order. */
  class World {
    var nextComponent: int
    var systems: seq<SystemId>
    const componentPools: array<Pool?>
    var entities: seq<Entity>
    /** The factories registered so far, in registration order. */
    ghost var registered: seq<Descriptor>

    /** Exactly the first `nextComponent` pool slots are filled, slot `i`
        with the pool of the `i`-th registered factory. */
    ghost predicate Valid()
      reads this`nextComponent, this`registered, componentPools
    {
      componentPools.Length == Capacity &&
      0 <= nextComponent <= Capacity &&
      |registered| == nextComponent &&
      (forall i :: 0 <= i < Capacity ==> (componentPools[i] != null <==> i < nextComponent)) &&
      forall i :: 0 <= i < nextComponent ==> componentPools[i] != null && componentPools[i].factory == registered[i]
    }

    constructor ()
      ensures Valid() && fresh(componentPools)
      ensures nextComponent == 0 && registered == [] && systems == [] && entities == []
      ensures forall i :: 0 <= i < Capacity ==> componentPools[i] == null
    {
      registered := [];
      nextComponent := 0;
      systems := [];
      componentPools := new Pool?[Capacity](_ => null);
      entities := [];
    }

    /** `register(constructor)`: gives the next type index to a new pool
      bound to `factory` and returns that index. */
    method Register(factory: Descriptor) returns (index: int)
      requires Valid() && nextComponent < Capacity
      modifies this, componentPools
      ensures Valid()
      ensures index == old(nextComponent) && nextComponent == index + 1
      ensures index == |old(registered)| && registered == old(registered) + [factory]
      ensures componentPools[index] != null && fresh(componentPools[index])
      ensures componentPools[index].factory == factory && componentPools[index].freeObjects == []
      ensures forall i :: 0 <= i < Capacity && i != index ==> componentPools[i] == old(componentPools[i])
      ensures systems == old(systems) && entities == old(entities)
    {
      componentPools[nextComponent] := new Pool(factory);
      index := nextComponent;
      nextComponent := nextComponent + 1;
      registered := registered + [factory];
    }

    /** Creates an empty entity and appends it to the live entities. */
    method CreateEntity() returns (e: Entity)
      modifies this`entities
      ensures fresh(e) && fresh(e.components) && e.Valid() && e.history == []
      ensures e.components[..] == EmptySlots()
      ensures entities == old(entities) + [e]
    {
      e := new Entity();
      entities := entities + [e];
    }

    /** A component of registered type `t` from that type's pool. */
    method CreateComponent(t: int) returns (c: Component)
      requires Valid() && 0 <= t < nextComponent
      modifies componentPools[t]
      ensures var pool := componentPools[t];
              var was := old(pool.freeObjects);
              if was == [] then fresh(c) && c.descriptor == registered[t] && pool.freeObjects == []
              else c == was[|was| - 1] && pool.freeObjects == was[..|was| - 1]
    {
      c := componentPools[t].Obtain();
    }

    /** Returns `c` to the pool of registered type `t`. */
    method FreeComponent(t: int, c: Component)
      requires Valid() && 0 <= t < nextComponent
      modifies componentPools[t]
      ensures componentPools[t].freeObjects == old(componentPools[t].freeObjects) + [c]
    {
      componentPools[t].Free(c);
    }

    /** `register(system)`: appends to the systems. */
    method RegisterSystem(s: SystemId)
      modifies this`systems
      ensures systems == old(systems) + [s]
    {
      systems := systems + [s];
    }

    /** One frame: calls every system once, in registration order, with the
      same `dt` and the same live entities. */
    method Update<D>(dt: D) returns (calls: seq<SystemCall<D>>)
      ensures |calls| == |systems|
      ensures forall i :: 0 <= i < |calls| ==> calls[i] == SystemCall(systems[i], dt, entities)
    {
      calls := [];
      for i := 0 to |systems|
        invariant |calls| == i
        invariant forall k :: 0 <= k < i ==> calls[k] == SystemCall(systems[k], dt, entities)
      {
        calls := calls + [SystemCall(systems[i], dt, entities)];
      }
    }
  }

  /** On a valid entity, `hasAllOf(ids)` holds exactly when every named type
      was added and neither removed nor reset since. */
  lemma HasAllOfByHistory(e: Entity, ids: seq<int>)
    requires e.Valid() && AllScanInRange(e.components[..], ids)
    ensures e.HasAllOf(ids) <==> forall i :: 0 <= i < |ids| ==> AddedLast(e.history, ids[i])
  {
    HasAllOfHistory(e.history, ids);
  }

  /** On a valid entity, `hasAnyOf(ids)` holds exactly when some named type
      was added and neither removed nor reset since. */
  lemma HasAnyOfByHistory(e: Entity, ids: seq<int>)
    requires e.Valid() && AnyScanInRange(e.components[..], ids)
    ensures e.HasAnyOf(ids) <==> exists i :: 0 <= i < |ids| && AddedLast(e.history, ids[i])
  {
    HasAnyOfHistory(e.history, ids);
  }
}
