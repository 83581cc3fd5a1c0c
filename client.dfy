/** Start-up and per-frame scenarios as a game would run them, each proved
    from the contracts of the registry alone. */
module EcsClient {
  import opened Slots
  import opened Ecs

  /** Type indices are handed out in registration order, from 0. */
  method RegistrationOrder() {
    var world := new World();
    var position := new Descriptor();
    var velocity := new Descriptor();
    assert position.typeIndex == -1;
    position.Init(world);
    velocity.Init(world);
    assert position.typeIndex == 0 && velocity.typeIndex == 1;
    assert world.registered == [position, velocity];
  }

  /** A fresh entity has no components; adding one fills exactly its slot;
      removing it or resetting the entity empties it again. */
  method Membership(c: Component)
    requires c.descriptor.typeIndex == 0
  {
    var world := new World();
    var e := world.CreateEntity();
    assert !e.HasAnyOf([0, 1]);
    e.AddComponent(c);
    var both := [0, 1];
    assert e.components[both[1]].None?;
    assert e.HasAllOf([0]) && e.HasAnyOf(both) && !e.HasAllOf(both);
    e.RemoveComponent(0);
    assert !e.HasAnyOf([0]);
    // The scans stop at the deciding slot: id 100 is never looked up.
    var probe := [0, 100];
    assert !OccupiedAt(e.components[..], probe[0]);
    assert !e.HasAllOf(probe);
    e.AddComponent(c);
    assert OccupiedAt(e.components[..], probe[0]);
    assert e.HasAnyOf(probe);
    e.Reset();
    assert !e.HasAnyOf([0, 1]);
  }

  /** Right after `init()`, `create()` makes a new component of that
      descriptor. */
  method InitThenCreate(world: World, d: Descriptor)
    requires world.Valid() && world.nextComponent < Capacity
    modifies d, world, world.componentPools
  {
    d.Init(world);
    assert world.componentPools[d.typeIndex].freeObjects == [];
    var c := d.Create(world);
    assert fresh(c) && c.descriptor == d;
  }

  /** A component handed back to its pool is the next one handed out. */
  method PoolReuse(world: World, d: Descriptor)
    requires world.Valid() && 0 <= d.typeIndex < world.nextComponent
    modifies world.componentPools[d.typeIndex]
  {
    var p := d.Create(world);
    world.FreeComponent(d.typeIndex, p);
    var q := d.Create(world);
    assert q == p;
  }

  /** Systems run once each, in registration order, on the live entities. */
  method FrameOrder<D>(dt: D) {
    var world := new World();
    var e := world.CreateEntity();
    world.RegisterSystem(7);
    world.RegisterSystem(3);
    assert world.systems == [7, 3] && world.entities == [e];
    var calls := world.Update(dt);
    assert calls[0] == SystemCall(7, dt, [e]) && calls[1] == SystemCall(3, dt, [e]);
    assert calls == [SystemCall(7, dt, [e]), SystemCall(3, dt, [e])];
  }
}
