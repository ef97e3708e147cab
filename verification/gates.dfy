/**
 The Gate: a resettable counting barrier held in one cell. It is created
 closed, each passer consumes one unit of `remaining`, and the controller
 reopens it by restoring `remaining` to `capacity`.
 */
module Gates {
  import opened Cells

  function Remaining(s: Store, g: CellId): int
    requires IsGate(s, g)
  {
    s.cells[g].remaining
  }

  /** Allocates a closed gate: nobody can pass until it is operated. */
  function NewGate(s: Store, capacity: int): (r: Fresh)
    ensures r.id !in s.cells
    ensures r.store.cells == s.cells[r.id := Gate(capacity, 0)]
    ensures PassGate(r.store, r.id).Blocked?
  {
    Allocate(s, Gate(capacity, 0))
  }

  /** One passer goes through: enabled only while the gate has room left. */
  function PassGate(s: Store, g: CellId): (r: Outcome<()>)
    ensures r.Fault? <==> !IsGate(s, g)
    ensures r.Blocked? <==> IsGate(s, g) && Remaining(s, g) <= 0
    ensures r.Committed? ==>
      && IsGate(r.store, g)
      && r.store.cells[g].capacity == s.cells[g].capacity
      && Remaining(r.store, g) == Remaining(s, g) - 1
      && r.store.cells.Keys == s.cells.Keys
      && Preserves(s, r.store, {g})
  {
    if !IsGate(s, g) then Fault
    else
      var gate := s.cells[g];
      if gate.remaining <= 0 then Blocked
      else Committed(Heap(s.cells[g := gate.(remaining := gate.remaining - 1)], s.next), ())
  }

  /** The controller opens the gate for `capacity` passers; never blocks. */
  function OperateGate(s: Store, g: CellId): (r: Outcome<()>)
    ensures r.Fault? <==> !IsGate(s, g)
    ensures !r.Blocked?
    ensures r.Committed? ==>
      && IsGate(r.store, g)
      && r.store.cells[g].capacity == s.cells[g].capacity
      && Remaining(r.store, g) == s.cells[g].capacity
      && r.store.cells.Keys == s.cells.Keys
      && Preserves(s, r.store, {g})
  {
    if !IsGate(s, g) then Fault
    else
      var gate := s.cells[g];
      Committed(Heap(s.cells[g := gate.(remaining := gate.capacity)], s.next), ())
  }

  /** Operating a gate twice is the same as operating it once. */
  lemma OperateGateIdempotent(s: Store, g: CellId)
    requires IsGate(s, g)
    ensures OperateGate(OperateGate(s, g).store, g) == OperateGate(s, g)
  {
  }

  /** Reopening a gate discards every earlier pass through it. */
  lemma OperateGateAfterPass(s: Store, g: CellId)
    requires PassGate(s, g).Committed?
    ensures OperateGate(PassGate(s, g).store, g) == OperateGate(s, g)
  {
  }
}
