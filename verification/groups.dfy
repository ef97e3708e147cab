/**
 The Group: a bounded waiting room held in one cell together with its current
 entry and exit gates. Helpers join while there is space; the controller
 awaits a full group, takes the current gates and re-arms the group with
 fresh closed gates so the next cohort can assemble at once.
 */
module Groups {
  import opened Cells
  import opened Gates

  function SpacesLeft(s: Store, g: CellId): int
    requires IsGroup(s, g)
  {
    s.cells[g].spacesLeft
  }

  function CurrentGates(s: Store, g: CellId): GatePair
    requires IsGroup(s, g)
  {
    GatePair(s.cells[g].inGate, s.cells[g].outGate)
  }

  /** `id` names a closed gate of the given capacity. */
  predicate ClosedGate(s: Store, id: CellId, capacity: int) {
    id in s.cells && s.cells[id] == Gate(capacity, 0)
  }

  /** Allocates an empty group whose two gates are fresh, distinct and closed. */
  function NewGroup(s: Store, capacity: int): (r: Fresh)
    ensures IsGroup(r.store, r.id)
    ensures var grp := r.store.cells[r.id];
      && grp.capacity == capacity
      && grp.spacesLeft == capacity
      && grp.inGate != grp.outGate
      && {r.id, grp.inGate, grp.outGate} !! s.cells.Keys
      && r.id != grp.inGate && r.id != grp.outGate
      && ClosedGate(r.store, grp.inGate, capacity)
      && ClosedGate(r.store, grp.outGate, capacity)
      && r.store.cells.Keys == s.cells.Keys + {r.id, grp.inGate, grp.outGate}
    ensures Preserves(s, r.store, {})
  {
    var i := NewGate(s, capacity);
    var o := NewGate(i.store, capacity);
    Allocate(o.store, Group(capacity, capacity, i.id, o.id))
  }

  /** A helper joins: enabled only while the group has space. It hands back
      the gates the group holds at that moment and touches no gate. */
  function JoinGroup(s: Store, g: CellId): (r: Outcome<GatePair>)
    ensures r.Fault? <==> !IsGroup(s, g)
    ensures r.Blocked? <==> IsGroup(s, g) && SpacesLeft(s, g) <= 0
    ensures r.Committed? ==>
      && r.value == CurrentGates(s, g)
      && IsGroup(r.store, g)
      && r.store.cells[g].capacity == s.cells[g].capacity
      && SpacesLeft(r.store, g) == SpacesLeft(s, g) - 1
      && CurrentGates(r.store, g) == CurrentGates(s, g)
      && r.store.cells.Keys == s.cells.Keys
      && Preserves(s, r.store, {g})
  {
    if !IsGroup(s, g) then Fault
    else
      var grp := s.cells[g];
      if grp.spacesLeft <= 0 then Blocked
      else
        Committed(Heap(s.cells[g := grp.(spacesLeft := grp.spacesLeft - 1)], s.next),
                  GatePair(grp.inGate, grp.outGate))
  }

  /** The controller waits for a full group: enabled only once no space is
      left. It returns the gates held before the call, empties the group and
      installs two freshly allocated closed gates; the returned cells are
      left as they were. */
  function AwaitGroup(s: Store, g: CellId): (r: Outcome<GatePair>)
    ensures r.Fault? <==> !IsGroup(s, g)
    ensures r.Blocked? <==> IsGroup(s, g) && SpacesLeft(s, g) > 0
    ensures r.Committed? ==>
      var cap := s.cells[g].capacity;
      && r.value == CurrentGates(s, g)
      && IsGroup(r.store, g)
      && r.store.cells[g].capacity == cap
      && SpacesLeft(r.store, g) == cap
      && var renewed := CurrentGates(r.store, g);
      && renewed.inGate != renewed.outGate
      && renewed.inGate !in s.cells && renewed.outGate !in s.cells
      && ClosedGate(r.store, renewed.inGate, cap)
      && ClosedGate(r.store, renewed.outGate, cap)
      && r.store.cells.Keys == s.cells.Keys + {renewed.inGate, renewed.outGate}
      && Preserves(s, r.store, {g})
  {
    if !IsGroup(s, g) then Fault
    else
      var grp := s.cells[g];
      if grp.spacesLeft > 0 then Blocked
      else
        var i := NewGate(s, grp.capacity);
        var o := NewGate(i.store, grp.capacity);
        var s' := o.store;
        Committed(Heap(s'.cells[g := grp.(spacesLeft := grp.capacity, inGate := i.id, outGate := o.id)], s'.next),
                  GatePair(grp.inGate, grp.outGate))
  }

  /** The first helper to join after an await receives gates that are never
      the gates the controller has just been handed; those new gates are
      closed, so the helper cannot pass them yet, and opening the new entry
      gate leaves the old cohort's gates exactly as they were.
      `Traces.NoOvertakingInRun` extends this to every later joiner. */
  lemma NoOvertaking(s: Store, g: CellId)
    requires AwaitGroup(s, g).Committed?
    requires var prev := AwaitGroup(s, g).value; IsGate(s, prev.inGate) && IsGate(s, prev.outGate)
    ensures var s1 := AwaitGroup(s, g).store;
      var prev := AwaitGroup(s, g).value;
      JoinGroup(s1, g).Committed? ==>
        var later := JoinGroup(s1, g).value;
        && {later.inGate, later.outGate} !! {prev.inGate, prev.outGate}
        && PassGate(s1, later.inGate).Blocked? && PassGate(s1, later.outGate).Blocked?
        && (OperateGate(s1, later.inGate).Committed? ==>
              Preserves(s1, OperateGate(s1, later.inGate).store, {later.inGate}) &&
              OperateGate(s1, later.inGate).store.cells[prev.inGate] == s.cells[prev.inGate] &&
              OperateGate(s1, later.inGate).store.cells[prev.outGate] == s.cells[prev.outGate])
  {
  }

  /** The guards compare with zero, not with the capacity: on a group created
      with no room (capacity zero, or a negative one, which nothing rejects)
      the first join is blocked, and the controller's await is enabled at once
      and leaves the group as roomless as before.
      `Traces.EmptyGroupNeverAdmits` extends this to every run. */
  lemma EmptyGroupIsAlwaysFull(s: Store, capacity: int)
    requires capacity <= 0
    ensures var f := NewGroup(s, capacity);
      && JoinGroup(f.store, f.id).Blocked?
      && AwaitGroup(f.store, f.id).Committed?
      && SpacesLeft(AwaitGroup(f.store, f.id).store, f.id) == capacity
  {
  }
}
