# Santa Claus Gate / Group synchronisation layer in Dafny

This project models the synchronisation layer of the Santa Claus solution in
`main.go`. The layer is built on a software transactional memory store of
memory cells. A **Gate** is a resettable counting barrier with a fixed
`capacity` and a mutable `remaining`. A **Group** is a bounded waiting room
with a fixed `capacity`, a mutable `spacesLeft`, and the ids of its current
entry gate (`inGate`) and exit gate (`outGate`).

`PassGate`, `OperateGate`, `JoinGroup` and `AwaitGroup` each run as one STM
transaction in Go. Here each one is a pure function from a store to an
`Outcome`:

- `Committed(store, value)`: the transaction commits.
- `Blocked`: the transaction's `Check` guard is false. The Go code retries it
  later, so the store is unchanged.
- `Fault`: the cell does not hold the payload the Go type assertion
  `.(*Gate)` / `.(*Group)` expects, which panics in Go. The type check comes
  before the guard, as in the Go code.

`NewGate` and `NewGroup` are not transactions: they call `MakeMemCell`
directly (main.go:363-369, 272-281). Here they are pure functions that return
a `Fresh` result (the new cell's id and the extended store), and they never
block or fault. Go's `NewGroup` makes three separate allocations; the trace
model (`Traces.Step`) takes them as one `MakeGroup` step, which loses nothing
because no other goroutine can reach the new cells before `NewGroup` returns.

Files:

- `cells.dfy` (module `Cells`): cell payloads, the store, and allocation.
  `Store` is a map from cell id to cell plus an allocation counter. Every id in
  use is below the counter, so `Allocate` (the model of `MakeMemCell`) always
  returns an unused id.
- `gates.dfy` (module `Gates`): `NewGate`, `PassGate`, `OperateGate`, and
  lemmas relating opening and passing.
- `groups.dfy` (module `Groups`): `NewGroup`, `JoinGroup`, `AwaitGroup`, and
  the no-overtaking lemma.
- `invariants.dfy` (module `Invariants`): the store invariant and its
  preservation by every transaction.
  - Every gate has `0 <= remaining <= capacity`.
  - Every group has `0 <= spacesLeft <= capacity`, and its two gates are
    distinct and have the group's capacity.
- `traces.dfy` (module `Traces`): interleavings of transactions, written as
  sequences of actions. This module proves the invariant over whole runs,
  gate and group counting, exactly-N admission, and one cohort walked through
  its gates.

The Go doc comment of `AwaitGroup` (main.go:312-315) says it returns the cells
of the newly created gates. The code returns the gates it captured before
resetting the group (main.go:323-324, 342). The model follows the code:
`AwaitGroup` returns the old gates.

The Go comment at main.go:31-32 also says the entry gate lets Santa know when
the whole cohort is inside. The code has no such wait: `OperateGate`
(main.go:401-412) only sets `remaining` back to `capacity`, and `SantaRun`
(main.go:151-154) opens both gates one after the other and then sleeps. The
model follows the code: `OperateGate` and `Traces.ControllerOpens` never wait
for `remaining` to reach zero.

Go's `int` is 32 or 64 bits wide, depending on the platform; the model uses unbounded `int`. The only
arithmetic is a decrement guarded by `> 0` (`remaining--`, `spacesLeft--`), so
no wrap-around can be reached.

## Model

| member | source | states |
|---|---|---|
| Cells.Allocate | main.go:363-369 | allocating a cell returns an id not in use before and extends the store by exactly that cell |
| Gates.NewGate | main.go:360-369 | a new gate sits in a fresh cell with the requested capacity and `remaining = 0`; no other cell changes; passing it is blocked until it is operated |
| Gates.PassGate | main.go:379-397 | faults when the cell is not a gate; blocks exactly when `remaining <= 0`; otherwise lowers `remaining` by one, keeps `capacity`, and leaves every other cell unchanged |
| Gates.OperateGate | main.go:399-412 | never blocks; faults only on a non-gate cell; sets `remaining` to the gate's `capacity` and leaves `capacity` and every other cell unchanged |
| Gates.OperateGateIdempotent | main.go:401-412 | operating a gate twice gives the same store as operating it once |
| Gates.OperateGateAfterPass | main.go:379-412 | reopening a gate erases any pass made before it: pass then operate equals operate alone |
| Groups.NewGroup | main.go:270-281 | a new group has `spacesLeft = capacity` and two distinct, fresh, closed gates of the same capacity; the group cell is fresh as well; no old cell changes |
| Groups.JoinGroup | main.go:283-310 | faults on a non-group cell; blocks exactly when `spacesLeft <= 0`; otherwise lowers `spacesLeft` by one, returns the group's current gates, and changes no gate or any other cell |
| Groups.AwaitGroup | main.go:312-343 | faults on a non-group cell; blocks exactly when `spacesLeft > 0`; otherwise returns the gates held before the call, restores `spacesLeft` to `capacity`, and installs two new distinct closed gates of that capacity that were not in the store; old gate cells stay untouched |
| Groups.NoOvertaking | main.go:312-315 | right after an await, the next joiner gets gates disjoint from the ones handed to the controller; those gates are closed, so passing them blocks; opening the new entry gate leaves the old cohort's gates as they were |
| Groups.EmptyGroupIsAlwaysFull | main.go:294-329 | with capacity zero or negative, the first join on a new group is blocked, and the controller's await commits at once, back to the same non-positive `spacesLeft` |
| Invariants.NewGatePreservesInv | main.go:363-369 | allocating a gate with non-negative capacity keeps the store invariant and every existing capacity |
| Invariants.NewGroupPreservesInv | main.go:272-281 | allocating a group with non-negative capacity keeps the store invariant and every existing capacity |
| Invariants.PassGatePreservesInv | main.go:379-397 | a committed pass keeps `0 <= remaining <= capacity` everywhere and changes no capacity |
| Invariants.OperateGatePreservesInv | main.go:401-412 | opening a gate keeps the invariant and changes no capacity |
| Invariants.JoinGroupPreservesInv | main.go:289-310 | a committed join keeps `0 <= spacesLeft <= capacity` and the group's gate links, and changes no capacity |
| Invariants.AwaitGroupPreservesInv | main.go:318-343 | a committed await keeps the invariant: the group now points at two distinct gates of its own capacity |
| Invariants.JoinedGatesArePassable | main.go:209-219 | under the invariant, a joiner's two gates are distinct gate cells, so passing them may block but never faults |
| Traces.RunPreservesInv | main.go:349-358 | any run of committed transactions that allocates only with non-negative capacities keeps the invariant |
| Traces.RunKeepsCapacities | main.go:263-268 | no run of committed transactions removes a cell or changes a cell's kind or capacity |
| Traces.PassesConsumeRemaining | main.go:349-358 | between two openings of a gate, the number of passes equals the drop in `remaining` and never exceeds the `remaining` set at the last opening |
| Traces.JoinsConsumeSpaces | main.go:257-262 | between two awaits of a group, the number of joins equals the drop in `spacesLeft`, never exceeds it (and is zero when `spacesLeft` starts at or below zero), and the group's gates at the end of the run are the ones it started with |
| Traces.EmptyGroupNeverAdmits | main.go:289-343 | a group with capacity and `spacesLeft` at or below zero admits no joiner in any successful run, awaits included, and stays without room |
| Traces.JoinReceivesCurrentGates | main.go:209-215 | in any run between two awaits, each join commits where it is reached and hands its helper exactly the gates the group held when the run started |
| Traces.NoOvertakingInRun | main.go:312-343 | after an await that hands the controller two gate cells, and in any interleaving up to the next await, every later joiner gets gates that were not in the store before the await, so they are disjoint from the controller's gates; the controller's gates are still in the store when the joiner arrives, and passing or opening the joiner's gates then leaves them as they were |
| Traces.JoinsEnabledExactly | main.go:289-310 | `k` consecutive joins all commit if and only if `k` is at most `spacesLeft`; afterwards `spacesLeft` has dropped by `k` and the gates are unchanged |
| Traces.PassesEnabledExactly | main.go:379-397 | `k` consecutive passes all commit if and only if `k` is at most `remaining`; afterwards `remaining` has dropped by `k` and no other cell changed |
| Traces.ExactlyNAdmission | main.go:272-343 | from a new group of capacity `n`, exactly `n` consecutive joins are enabled; a further join is enabled only while fewer than `n` have joined; the await is enabled only after all `n`; it returns the original gates and leaves room for `n` more |
| Traces.ControllerOpens | main.go:148-155 | on a group with no space left (`spacesLeft <= 0`), the controller's run (await, then open both returned gates) commits; both old gates hold their capacity; the group is empty again behind gates that were not in the store |
| Traces.MembersPass | main.go:209-219 | with both gates opened for `n`, `n` entry passes then `n` exit passes all commit; both gates end closed; no other cell changes |
| Traces.CohortMembersPassTheirOwnGates | main.go:209-219 | in the cohort run, each of the `n` joins commits and returns exactly the gate pair that the run's members then pass |
| Traces.CohortWalkthrough | main.go:209-219 | a whole cohort completes: `n` joins, the await, opening both gates, then `n` entry passes and `n` exit passes; both old gates end closed, no extra passer gets through, and the group is ready for the next cohort behind different gates |

## Left out

- The `stm` library (transactions, versioning, conflict detection, the retry loop, `MakeMemCell`) is not part of this model. Each transaction is one atomic step on an immutable store.
- `Check` (main.go:420-429) runs a nested transaction. Here it is only the guard that makes a transaction `Blocked`. The nested transaction re-evaluates a closure over a group or gate value read earlier, and whether that ever sees a newer value depends on the library. That dependence is not modelled.
- The Go code changes the value returned by `ReadT` in place before `WriteT`. Whether other transactions can see that change before commit depends on the library, so it is not modelled.
- `AwaitGroup` allocates its new gates with `MakeMemCell` inside the transaction body. If the final write then fails and the body is retried, those allocations would be orphaned cells. The model allocates only on commit.
- `Santa`, `SantaRun` and the channel-based priority between reindeer and elves are not modelled. They are goroutines, unbuffered channels and `time.Sleep`; their point is concurrency. `Traces.ControllerOpens` models only the opening of one group's two gates.
- `Forever`, `NewElf` and `NewReindeer` are goroutine drivers and are not modelled. One helper's cycle (join, pass entry, pass exit) appears only inside the `Traces.CohortWalkthrough` trace.
- `MeetInStudy`, `DeliverToys` and `MySTM.Log` are logging only and are not modelled.
- `getGID` is runtime stack introspection and is not modelled.
- `main`, `Test1`, `TestAssemble1` and `TestAssemble2` are entry points and test scaffolding and are not modelled.
- The invariant lemmas require non-negative capacities. The Go code accepts any capacity, and so do the modelled operations. A negative-capacity gate starts with `remaining = 0 > capacity`, which breaks `remaining <= capacity` from creation on. `Groups.EmptyGroupIsAlwaysFull` states what happens to such a group.
