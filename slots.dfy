/** The value semantics of an entity's component slots.

    An entity holds one slot per component-type index; a slot is empty or
    holds one component. This module describes the slot array as a sequence,
    the three ways the entity writes it (put, clear one slot, clear all) and
    the two membership tests, and relates the state reached by a history of
    writes to that history. */
module Slots {

  /** The number of component-type indices, and so of slots per entity
      (the size of both 64-element arrays in ECS.kt). */
  const Capacity: nat := 64

  datatype Option<T> = None | Some(value: T)

  predicate IsSlot(t: int) {
    0 <= t < Capacity
  }

  /** A fresh entity's slots: all of them empty. */
  function EmptySlots<C>(): (s: seq<Option<C>>)
    ensures |s| == Capacity
    ensures forall t :: 0 <= t < |s| ==> s[t].None?
  {
    seq(Capacity, _ => None)
  }

  /** Slot `t` now holds `c`; no other slot changes. */
  function Put<C>(slots: seq<Option<C>>, t: int, c: C): (r: seq<Option<C>>)
    requires 0 <= t < |slots|
    ensures |r| == |slots|
    ensures r[t] == Some(c)
    ensures forall i :: 0 <= i < |r| && i != t ==> r[i] == slots[i]
  {
    slots[t := Some(c)]
  }

  /** Slot `t` is now empty; no other slot changes, and clearing an empty
      slot leaves the slots as they were. */
  function Clear<C>(slots: seq<Option<C>>, t: int): (r: seq<Option<C>>)
    requires 0 <= t < |slots|
    ensures |r| == |slots|
    ensures r[t].None?
    ensures forall i :: 0 <= i < |r| && i != t ==> r[i] == slots[i]
    ensures slots[t].None? ==> r == slots
  {
    slots[t := None]
  }

  /** Slot `t` exists and holds a component. */
  predicate OccupiedAt<C>(slots: seq<Option<C>>, t: int) {
    0 <= t < |slots| && slots[t].Some?
  }

  /** Slot `t` exists and is empty. */
  predicate EmptyAt<C>(slots: seq<Option<C>>, t: int) {
    0 <= t < |slots| && slots[t].None?
  }

  /** The `all` scan looks up an id only after every id before it named an
      occupied slot; each id it does look up must name a slot. */
  predicate AllScanInRange<C>(slots: seq<Option<C>>, ids: seq<int>) {
    forall i :: 0 <= i < |ids| && (forall j :: 0 <= j < i ==> OccupiedAt(slots, ids[j])) ==>
      0 <= ids[i] < |slots|
  }

  /** The `any` scan looks up an id only after every id before it named an
      empty slot; each id it does look up must name a slot. */
  predicate AnyScanInRange<C>(slots: seq<Option<C>>, ids: seq<int>) {
    forall i :: 0 <= i < |ids| && (forall j :: 0 <= j < i ==> EmptyAt(slots, ids[j])) ==>
      0 <= ids[i] < |slots|
  }

  /** Kotlin's `ids.all { slots[it] != null }`: scans `ids` left to right and
      stops at the first empty slot, so ids after it are never looked up. */
  function AllOccupied<C>(slots: seq<Option<C>>, ids: seq<int>): (r: bool)
    requires AllScanInRange(slots, ids)
    ensures r <==> forall i :: 0 <= i < |ids| ==> OccupiedAt(slots, ids[i])
    ensures ids == [] ==> r
  {
    if ids == [] then true
    else if slots[ids[0]].None? then false
    else
      assert forall i :: 1 <= i < |ids| ==> ids[i] == ids[1..][i - 1];
      assert AllScanInRange(slots, ids[1..]) by {
        forall i | 0 <= i < |ids[1..]| && (forall j :: 0 <= j < i ==> OccupiedAt(slots, ids[1..][j]))
          ensures 0 <= ids[1..][i] < |slots|
        {
          assert forall j :: 0 <= j < i + 1 ==> OccupiedAt(slots, ids[j]) by {
            forall j | 0 <= j < i + 1 ensures OccupiedAt(slots, ids[j]) {
              if j > 0 { assert ids[j] == ids[1..][j - 1]; }
            }
          }
        }
      }
      AllOccupied(slots, ids[1..])
  }

  /** Kotlin's `ids.any { slots[it] != null }`: scans `ids` left to right and
      stops at the first occupied slot, so ids after it are never looked up. */
  function AnyOccupied<C>(slots: seq<Option<C>>, ids: seq<int>): (r: bool)
    requires AnyScanInRange(slots, ids)
    ensures r <==> exists i :: 0 <= i < |ids| && OccupiedAt(slots, ids[i])
    ensures ids == [] ==> !r
  {
    if ids == [] then false
    else if slots[ids[0]].Some? then true
    else
      assert forall i :: 1 <= i < |ids| ==> ids[i] == ids[1..][i - 1];
      assert AnyScanInRange(slots, ids[1..]) by {
        forall i | 0 <= i < |ids[1..]| && (forall j :: 0 <= j < i ==> EmptyAt(slots, ids[1..][j]))
          ensures 0 <= ids[1..][i] < |slots|
        {
          assert forall j :: 0 <= j < i + 1 ==> EmptyAt(slots, ids[j]) by {
            forall j | 0 <= j < i + 1 ensures EmptyAt(slots, ids[j]) {
              if j > 0 { assert ids[j] == ids[1..][j - 1]; }
            }
          }
        }
      }
      AnyOccupied(slots, ids[1..])
  }

  /** After every slot is cleared, no list of ids finds an occupied slot. */
  lemma EmptyHasNone<C>(ids: seq<int>)
    requires AnyScanInRange(EmptySlots<C>(), ids)
    ensures !AnyOccupied(EmptySlots<C>(), ids)
  {
  }

  /** After every slot is cleared, `all` holds only of the empty list. */
  lemma EmptyHasAllOfNothing<C>(ids: seq<int>)
    requires AllScanInRange(EmptySlots<C>(), ids)
    ensures AllOccupied(EmptySlots<C>(), ids) <==> ids == []
  {
  }

  /** The scans stop early: an id past the deciding slot is never looked up,
      even one that names no slot. */
  lemma ScansStopEarly<C>(c: C)
    ensures !AllOccupied(EmptySlots<C>(), [0, 100])
    ensures AnyOccupied(Put(EmptySlots<C>(), 0, c), [0, 100])
  {
  }

  /** One write an entity makes to its slots. */
  datatype SlotOp<C> = Add(t: int, c: C) | Remove(t: int) | Reset

  predicate ValidOp<C>(op: SlotOp<C>) {
    match op
    case Add(t, _) => IsSlot(t)
    case Remove(t) => IsSlot(t)
    case Reset => true
  }

  predicate ValidOps<C>(ops: seq<SlotOp<C>>) {
    forall k :: 0 <= k < |ops| ==> ValidOp(ops[k])
  }

  /** The slots after one write. */
  function Step<C>(slots: seq<Option<C>>, op: SlotOp<C>): (r: seq<Option<C>>)
    requires |slots| == Capacity && ValidOp(op)
    ensures |r| == Capacity
  {
    match op
    case Add(t, c) => Put(slots, t, c)
    case Remove(t) => Clear(slots, t)
    case Reset => EmptySlots()
  }

  /** The slots of a fresh entity after the writes `ops`, in order. */
  function Run<C>(ops: seq<SlotOp<C>>): (r: seq<Option<C>>)
    requires ValidOps(ops)
    ensures |r| == Capacity
  {
    if ops == [] then EmptySlots()
    else Step(Run(ops[..|ops| - 1]), ops[|ops| - 1])
  }

  /** Read off the history alone: the latest write that touched slot `t`
      (an add or remove naming `t`, or a reset) was an add. */
  function AddedLast<C>(ops: seq<SlotOp<C>>, t: int): bool {
    if ops == [] then false
    else
      match ops[|ops| - 1]
      case Add(u, _) => u == t || AddedLast(ops[..|ops| - 1], t)
      case Remove(u) => u != t && AddedLast(ops[..|ops| - 1], t)
      case Reset => false
  }

  /** A slot is occupied exactly when it was added to and neither removed
      nor reset since; an id that names no slot is never occupied. */
  lemma {:induction false} RunOccupied<C>(ops: seq<SlotOp<C>>, t: int)
    requires ValidOps(ops)
    ensures OccupiedAt(Run(ops), t) <==> AddedLast(ops, t)
  {
    if ops != [] {
      RunOccupied(ops[..|ops| - 1], t);
    }
  }

  /** `hasAllOf(ids)` on an entity with history `ops` holds exactly when every
      named type was added and not removed or reset since. */
  lemma HasAllOfHistory<C>(ops: seq<SlotOp<C>>, ids: seq<int>)
    requires ValidOps(ops) && AllScanInRange(Run(ops), ids)
    ensures AllOccupied(Run(ops), ids) <==> forall i :: 0 <= i < |ids| ==> AddedLast(ops, ids[i])
  {
    forall i | 0 <= i < |ids| {
      RunOccupied(ops, ids[i]);
    }
  }

  /** `hasAnyOf(ids)` on an entity with history `ops` holds exactly when some
      named type was added and not removed or reset since. */
  lemma HasAnyOfHistory<C>(ops: seq<SlotOp<C>>, ids: seq<int>)
    requires ValidOps(ops) && AnyScanInRange(Run(ops), ids)
    ensures AnyOccupied(Run(ops), ids) <==> exists i :: 0 <= i < |ids| && AddedLast(ops, ids[i])
  {
    forall i | 0 <= i < |ids| {
      RunOccupied(ops, ids[i]);
    }
  }
}
