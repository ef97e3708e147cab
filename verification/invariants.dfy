/**
 The numeric and structural invariant of the store: every gate has
 `0 <= remaining <= capacity`, every group has `0 <= spacesLeft <= capacity`
 and points at two distinct gates of its own capacity. Every transaction
 preserves it, provided the capacities it allocates with are non-negative,
 and no transaction changes a `capacity`.
 */
module Invariants {
  import opened Cells
  import opened Gates
  import opened Groups

  predicate GateOfCapacity(s: Store, id: CellId, capacity: int) {
    IsGate(s, id) && s.cells[id].capacity == capacity
  }

  predicate CellOk(s: Store, c: Cell) {
    match c
    case Gate(cap, rem) => 0 <= rem <= cap
    case Group(cap, left, i, o) =>
      && 0 <= left <= cap
      && i != o
      && GateOfCapacity(s, i, cap)
      && GateOfCapacity(s, o, cap)
  }

  predicate Inv(s: Store) {
    forall id :: id in s.cells ==> CellOk(s, s.cells[id])
  }

  lemma NewGatePreservesInv(s: Store, capacity: int)
    requires Inv(s) && 0 <= capacity
    ensures Inv(NewGate(s, capacity).store)
    ensures CapacitiesKept(s, NewGate(s, capacity).store)
  {
  }

  lemma NewGroupPreservesInv(s: Store, capacity: int)
    requires Inv(s) && 0 <= capacity
    ensures Inv(NewGroup(s, capacity).store)
    ensures CapacitiesKept(s, NewGroup(s, capacity).store)
  {
  }

  lemma PassGatePreservesInv(s: Store, g: CellId)
    requires Inv(s) && PassGate(s, g).Committed?
    ensures Inv(PassGate(s, g).store)
    ensures CapacitiesKept(s, PassGate(s, g).store)
  {
  }

  lemma OperateGatePreservesInv(s: Store, g: CellId)
    requires Inv(s) && OperateGate(s, g).Committed?
    ensures Inv(OperateGate(s, g).store)
    ensures CapacitiesKept(s, OperateGate(s, g).store)
  {
  }

  lemma JoinGroupPreservesInv(s: Store, g: CellId)
    requires Inv(s) && JoinGroup(s, g).Committed?
    ensures Inv(JoinGroup(s, g).store)
    ensures CapacitiesKept(s, JoinGroup(s, g).store)
  {
  }

  lemma AwaitGroupPreservesInv(s: Store, g: CellId)
    requires Inv(s) && AwaitGroup(s, g).Committed?
    ensures Inv(AwaitGroup(s, g).store)
    ensures CapacitiesKept(s, AwaitGroup(s, g).store)
  {
  }

  /** Under the invariant, the gates a successful join hands out are gates of
      the group's capacity, so passing them can block but never fault. */
  lemma JoinedGatesArePassable(s: Store, g: CellId)
    requires Inv(s) && JoinGroup(s, g).Committed?
    ensures var p := JoinGroup(s, g).value;
      && p.inGate != p.outGate
      && !PassGate(s, p.inGate).Fault? && !PassGate(s, p.outGate).Fault?
      && !PassGate(JoinGroup(s, g).store, p.inGate).Fault?
      && !PassGate(JoinGroup(s, g).store, p.outGate).Fault?
  {
  }
}
