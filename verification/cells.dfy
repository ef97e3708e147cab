/**
 The shared store of memory cells that the Gate and Group transactions run
 against. A cell holds either a Gate or a Group; a Group refers to its two
 Gates by cell id. Every transaction of the synchronisation layer is modelled
 as one atomic step from a store to an `Outcome`.
 */
module Cells {

  type CellId = nat

  /** The two payload shapes stored in cells (`Gate` and `Group` in main.go). */
  datatype Cell =
    | Gate(capacity: int, remaining: int)
    | Group(capacity: int, spacesLeft: int, inGate: CellId, outGate: CellId)

  datatype Heap = Heap(cells: map<CellId, Cell>, next: CellId)

  /** A store whose allocator never hands out an id already in use. */
  type Store = h: Heap | forall id :: id in h.cells ==> id < h.next
    witness Heap(map[], 0)

  /** The result of allocating one cell: the grown store and the new id. */
  datatype Fresh = Fresh(store: Store, id: CellId)

  /** The result of one transaction: it commits a new store and a value, it is
      blocked by its guard (and retried later, the store unchanged), or it
      aborts because a cell did not hold the payload the transaction expected. */
  datatype Outcome<T> = Committed(store: Store, value: T) | Blocked | Fault

  /** The gate pair a Group hands out. */
  datatype GatePair = GatePair(inGate: CellId, outGate: CellId)

  predicate IsGate(s: Store, id: CellId) {
    id in s.cells && s.cells[id].Gate?
  }

  predicate IsGroup(s: Store, id: CellId) {
    id in s.cells && s.cells[id].Group?
  }

  /** Every cell of `s` outside `except` is still present in `s'`, unchanged. */
  predicate Preserves(s: Store, s': Store, except: set<CellId>) {
    forall id :: id in s.cells && id !in except ==> id in s'.cells && s'.cells[id] == s.cells[id]
  }

  /** Every cell of `s` is still present in `s'`, of the same kind and capacity. */
  predicate CapacitiesKept(s: Store, s': Store) {
    forall id :: id in s.cells ==>
      && id in s'.cells
      && s'.cells[id].Gate? == s.cells[id].Gate?
      && s'.cells[id].capacity == s.cells[id].capacity
  }

  /** Installs `c` in a cell that was not in use before. */
  function Allocate(s: Store, c: Cell): (r: Fresh)
    ensures r.id !in s.cells
    ensures r.store.cells == s.cells[r.id := c]
  {
    Fresh(Heap(s.cells[s.next := c], s.next + 1), s.next)
  }
}
