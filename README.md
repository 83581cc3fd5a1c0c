# ECS registry of `ships`, modelled in Dafny

The game prototype `ships` has a small entity-component-system registry in
`core/src/dk/thrane/game/util/ECS.kt`. This project models that registry and
proves properties of it:

- **Component descriptors** (`ComponentDescriptor`) start with type index -1.
  `init()` registers the descriptor's factory with the world and stores the
  index it gets back. `create()` obtains a component from the world.
- **The world** (`object World`) has a counter `nextComponent` that hands out
  dense type indices. It has 64 pool slots, one per type index, filled in
  registration order. It also keeps the systems in registration order and the
  live entities in creation order. `update(dt)` calls every system once, in
  order, with the same `dt` and the same entity list.
- **Entities** (`Entity`) have 64 component slots, one per type index. They
  can add a component into an empty slot, remove one slot, reset all slots,
  and test whether all or any of a list of slots are occupied.

Files:

- `slots.dfy`, module `Slots`: the value semantics of an entity's slot
  array. It has the three writes (put, clear one slot, clear all) and the two
  membership scans written as Kotlin's `all`/`any` evaluate them. A history of
  writes is replayed by `Run`. `AddedLast` is an independent reading of the
  same history, and the lemmas relate the two.
- `ecs.dfy`, module `Ecs`: the classes `Component`, `Descriptor`, `Pool`,
  `Entity` and `World`. Their methods update fields and arrays in place, as
  the source does. Each method's postcondition gives the new state in terms of
  the old one. The `Entity` methods state it through the `Slots` functions
  `Put`, `Clear` and `EmptySlots`. The `World`, `Descriptor`, `Pool` and
  `Component` methods state their fields' new values directly. An entity keeps a ghost `history`
  of its writes, and `Valid()` ties the slot array to `Run(history)`. The world
  keeps a ghost list `registered` of factories in registration order, and
  `Valid()` ties pool slot `i` to the `i`-th of them.
- `client.dfy`, module `EcsClient`: start-up and frame scenarios proved from
  the contracts alone. They show registration order, `init()` followed by
  `create()`, membership after add/remove/reset (including scans that stop
  before an out-of-range id), pool reuse and system order.

Kotlin `assert` calls, and array accesses that would throw, are faults of the
calling program in the source. The model states them as preconditions.
The libGDX `Pool` behind each type's slot is not part of this model. It is
represented by a minimal free list (`Pool`): `Obtain` pops the most recently
freed instance, or else allocates a new component of the pool's factory.
`Free` appends to the free list. No property is claimed about it beyond what
the world passes on to its callers.

The repository contains no implementation of `System`: ECS.kt defines only the
interface, and the game code does not use the registry. So no concrete system
is modelled. libGDX's `Pool.free` also resets an instance before it can be
reused. That step belongs to the library and is not modelled here.

## Model

| member | source | states |
|---|---|---|
| `Slots.EmptySlots` | core/src/dk/thrane/game/util/ECS.kt:29 | a fresh slot array has exactly 64 slots, all empty |
| `Slots.Put` | core/src/dk/thrane/game/util/ECS.kt:37-42 | after adding, slot `t` holds the component and every other slot is as before |
| `Slots.Clear` | core/src/dk/thrane/game/util/ECS.kt:44-46 | after removing, slot `t` is empty and every other slot is as before; removing from an empty slot changes nothing |
| `Slots.AllOccupied` | core/src/dk/thrane/game/util/ECS.kt:31-32 | the left-to-right `all` scan stops at the first empty slot, so only the ids it reaches must name slots; it is true iff every id names an occupied slot, and so true for no ids |
| `Slots.AnyOccupied` | core/src/dk/thrane/game/util/ECS.kt:34-35 | the left-to-right `any` scan stops at the first occupied slot, so only the ids it reaches must name slots; it is true iff some id names an occupied slot, and so false for no ids |
| `Slots.EmptyHasNone` | core/src/dk/thrane/game/util/ECS.kt:48-50 | once every slot is cleared, `hasAnyOf` is false for any ids |
| `Slots.EmptyHasAllOfNothing` | core/src/dk/thrane/game/util/ECS.kt:48-50 | once every slot is cleared, `hasAllOf` is true only for no ids |
| `Slots.ScansStopEarly` | core/src/dk/thrane/game/util/ECS.kt:31-35 | an id after the deciding slot is never looked up: `all` over `[0, 100]` with slot 0 empty is false, and `any` over `[0, 100]` with slot 0 occupied is true |
| `Slots.RunOccupied` | core/src/dk/thrane/game/util/ECS.kt:37-50 | after any history of add/remove/reset, a slot is occupied iff the latest write that touched it was an add; an id that names no slot is never occupied |
| `Slots.HasAllOfHistory` | core/src/dk/thrane/game/util/ECS.kt:31-32 | `hasAllOf(ids)` after a history holds iff every named type was added and not removed or reset since |
| `Slots.HasAnyOfHistory` | core/src/dk/thrane/game/util/ECS.kt:34-35 | `hasAnyOf(ids)` after a history holds iff some named type was added and not removed or reset since |
| `Ecs.HasAllOfByHistory` | core/src/dk/thrane/game/util/ECS.kt:28-50 | on any entity, `hasAllOf(ids)` holds iff each named type was added and not removed or reset since, per the entity's own write history |
| `Ecs.HasAnyOfByHistory` | core/src/dk/thrane/game/util/ECS.kt:28-50 | on any entity, `hasAnyOf(ids)` holds iff some named type was added and not removed or reset since |
| `Ecs.Component.constructor` | core/src/dk/thrane/game/util/ECS.kt:19 | stands in for the user-supplied `createObject()`: a new component belongs to the descriptor that made it |
| `Ecs.Component.Free` | core/src/dk/thrane/game/util/ECS.kt:10-12 | a component is appended to the free list of the pool of its descriptor's type index, which must be registered |
| `Ecs.Descriptor.constructor` | core/src/dk/thrane/game/util/ECS.kt:16-17 | a descriptor's type index is -1 before `init` |
| `Ecs.Descriptor.Init` | core/src/dk/thrane/game/util/ECS.kt:23-25 | the type index becomes the world's old `nextComponent`; the world's counter moves up by one; the new pool slot holds a fresh pool with an empty free list, bound to this descriptor; no other pool slot, system or entity changes |
| `Ecs.Descriptor.Create` | core/src/dk/thrane/game/util/ECS.kt:21 | with a registered type index, yields the pool's most recently freed component (removed from the free list), or a fresh component of the factory registered at that index; when that factory is this descriptor, as after `init()`, the fresh component belongs to this descriptor |
| `Ecs.Pool.constructor` | core/src/dk/thrane/game/util/ECS.kt:67-69 | a new pool is bound to the given factory and starts with an empty free list |
| `Ecs.Pool.Obtain` | core/src/dk/thrane/game/util/ECS.kt:84 | stands in for the pool's `obtain()`: the last freed instance is popped, or a fresh component of the pool's factory is made when the free list is empty |
| `Ecs.Pool.Free` | core/src/dk/thrane/game/util/ECS.kt:91 | stands in for the pool's `free(component)`: the component is appended to the free list |
| `Ecs.Entity.constructor` | core/src/dk/thrane/game/util/ECS.kt:29 | a new entity has 64 slots, all empty, and an empty history |
| `Ecs.Entity.HasAllOf` | core/src/dk/thrane/game/util/ECS.kt:31-32 | only the ids the scan reaches must be slot indices; true iff every id names an occupied slot (true for no ids); reads the slots and changes nothing |
| `Ecs.Entity.HasAnyOf` | core/src/dk/thrane/game/util/ECS.kt:34-35 | only the ids the scan reaches must be slot indices; true iff some id names an occupied slot (false for no ids); reads the slots and changes nothing |
| `Ecs.Entity.AddComponent` | core/src/dk/thrane/game/util/ECS.kt:37-42 | requires the slot of the component's type index to be empty; afterwards that slot holds the component and the other 63 are unchanged |
| `Ecs.Entity.RemoveComponent` | core/src/dk/thrane/game/util/ECS.kt:44-46 | slot `t` becomes empty and the other slots are unchanged; a no-op on an empty slot |
| `Ecs.Entity.Reset` | core/src/dk/thrane/game/util/ECS.kt:48-50 | all 64 slots become empty whatever they held, so a second reset changes nothing |
| `Ecs.World.constructor` | core/src/dk/thrane/game/util/ECS.kt:61-65 | counter 0, all 64 pool slots empty, no systems, no entities |
| `Ecs.World.Register` | core/src/dk/thrane/game/util/ECS.kt:64-71 | requires fewer than 64 registered types; returns the old counter, which goes up by exactly one (the k-th registration returns k); writes a fresh empty pool for the factory only at that index; every other pool slot, the systems and the entities are unchanged |
| `Ecs.World.CreateEntity` | core/src/dk/thrane/game/util/ECS.kt:73-77 | appends exactly one fresh, all-empty entity to the end of the live entities, keeping earlier entries in order; nothing else in the world changes |
| `Ecs.World.CreateComponent` | core/src/dk/thrane/game/util/ECS.kt:79-85 | requires `0 <= type < nextComponent` (so the pool exists); yields that pool's last freed component, or a fresh one of the factory registered at `type`; only that pool changes |
| `Ecs.World.FreeComponent` | core/src/dk/thrane/game/util/ECS.kt:87-92 | requires `0 <= type < nextComponent`; appends the component to that type's free list; only that pool changes |
| `Ecs.World.RegisterSystem` | core/src/dk/thrane/game/util/ECS.kt:94-96 | appends the system to the systems; nothing else in the world changes |
| `Ecs.World.Update` | core/src/dk/thrane/game/util/ECS.kt:98-100 | calls each registered system exactly once, in registration order, each with the same `dt` and the same live-entity list |

## Left out

- `Ecs.Entity.AddComponent`: the "slot is empty" check is a Kotlin `assert`, which runs only with JVM assertions enabled. With assertions off, the source overwrites an occupied slot. The model keeps the check as a precondition.
- `Ecs.Descriptor.Create`: promises that a new component belongs to this descriptor only when this descriptor is the one registered at its type index. In the source there is one world, and `init()` always registers the descriptor's own factory, so that always holds there. The model allows several `World` instances and a mutable `typeIndex`, so `Create` cannot know it without that condition. `Init` establishes it.
- The user-supplied `createObject()` (ECS.kt:19) is assumed to allocate a new component of its own descriptor each time it is called. The model builds it as `new Component(factory)`. The `fresh(c)` results of `Ecs.Pool.Obtain`, `Ecs.World.CreateComponent` and `Ecs.Descriptor.Create` rest on this assumption.
- The per-slot type invariant (slot `i` holds a component of type `i`) is not kept across calls. A descriptor's index is mutable (`init()` can run again), so `AddComponent` only states the placement at the component's current index.
- libGDX `Pool` internals are not modelled: the `Poolable.reset` callback on free, the maximum free-list size and the null check. `Pool` is the minimal free list described above.
- `Entity.free()` (ECS.kt:52-54) is an unimplemented `TODO()` and is not modelled.
- The bodies of user-supplied `System.update` are not modelled. A system is an opaque `SystemId`, and `Update` returns the calls it makes. The model assumes that systems do not change the world during a frame.
- `dt: Float` is passed through as an opaque type parameter. No floating point is modelled.
- Component payloads, the generic parameter `T` and the unchecked cast in `createComponent` (ECS.kt:84) are not modelled. A component is represented only by its descriptor.
- The process-wide singleton `object World` is modelled as an explicitly constructed `World` instance.
- `core/src/dk/thrane/ships/ShipsGame.kt` is not part of this model. It covers sprite sheets, the ASCII tile map loaded from a file, and ship physics with `Vector2` floats. It also holds input, camera and rendering code, and it does not use the ECS.
- `desktop/src/dk/thrane/ships/desktop/DesktopLauncher.kt` (application bootstrap) is not part of this model.
