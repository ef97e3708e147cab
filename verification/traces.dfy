/**
 Runs of transactions. Helpers and the controller interleave their
 transactions in some order; a run is that order, written as a sequence of
 actions, and it succeeds when every action in it commits. The lemmas here
 relate whole runs to the per-transaction contracts: the invariant survives
 any run, a gate admits at most `remaining` passers until it is reopened, a
 group admits exactly `spacesLeft` joiners until it is awaited, and one full
 cohort can be walked through its gates.
 */
module Traces {
  import opened Cells
  import opened Gates
  import opened Groups
  import opened Invariants

  datatype Option<T> = None | Some(value: T)

  datatype Action =
    | MakeGate(capacity: int)
    | MakeGroup(capacity: int)
    | Pass(gate: CellId)
    | Operate(gate: CellId)
    | Join(group: CellId)
    | Await(group: CellId)

  /** The store a transaction commits, if it commits. */
  function Settle<T>(o: Outcome<T>): Option<Store> {
    if o.Committed? then Some(o.store) else None
  }

  function Step(s: Store, a: Action): Option<Store> {
    match a
    case MakeGate(c) => Some(NewGate(s, c).store)
    case MakeGroup(c) => Some(NewGroup(s, c).store)
    case Pass(g) => Settle(PassGate(s, g))
    case Operate(g) => Settle(OperateGate(s, g))
    case Join(g) => Settle(JoinGroup(s, g))
    case Await(g) => Settle(AwaitGroup(s, g))
  }

  /** The store after every action of `acts` has committed in order, or None
      when some action is blocked or faults. */
  function Run(s: Store, acts: seq<Action>): Option<Store>
    decreases |acts|
  {
    if |acts| == 0 then Some(s)
    else
      match Step(s, acts[0])
      case None => None
      case Some(s1) => Run(s1, acts[1..])
  }

  function Repeat(a: Action, k: nat): (r: seq<Action>)
    ensures |r| == k
    ensures forall i :: 0 <= i < k ==> r[i] == a
  {
    if k == 0 then [] else [a] + Repeat(a, k - 1)
  }

  /** How many times `a` occurs in `acts`. */
  function Count(acts: seq<Action>, a: Action): nat {
    if |acts| == 0 then 0
    else (if acts[0] == a then 1 else 0) + Count(acts[1..], a)
  }

  predicate AllocatesNonNegative(a: Action) {
    match a
    case MakeGate(c) => 0 <= c
    case MakeGroup(c) => 0 <= c
    case _ => true
  }

  /** Running two runs back to back is running their concatenation. */
  lemma {:induction false} RunAppend(s: Store, a: seq<Action>, b: seq<Action>)
    ensures Run(s, a + b) == (if Run(s, a).Some? then Run(Run(s, a).value, b) else None)
    decreases |a|
  {
    if |a| == 0 {
      assert a + b == b;
    } else {
      assert (a + b)[0] == a[0];
      assert (a + b)[1..] == a[1..] + b;
      match Step(s, a[0])
      case None =>
      case Some(s1) => RunAppend(s1, a[1..], b);
    }
  }

  lemma StepKeepsCapacities(s: Store, a: Action)
    requires Step(s, a).Some?
    ensures CapacitiesKept(s, Step(s, a).value)
  {
  }

  lemma StepPreservesInv(s: Store, a: Action)
    requires Inv(s) && AllocatesNonNegative(a) && Step(s, a).Some?
    ensures Inv(Step(s, a).value)
  {
    match a
    case MakeGate(c) => NewGatePreservesInv(s, c);
    case MakeGroup(c) => NewGroupPreservesInv(s, c);
    case Pass(g) => PassGatePreservesInv(s, g);
    case Operate(g) => OperateGatePreservesInv(s, g);
    case Join(g) => JoinGroupPreservesInv(s, g);
    case Await(g) => AwaitGroupPreservesInv(s, g);
  }

  /** Every successful run from a well-formed store, allocating only with
      non-negative capacities, ends in a well-formed store. */
  lemma {:induction false} RunPreservesInv(s: Store, acts: seq<Action>)
    requires Inv(s)
    requires forall i :: 0 <= i < |acts| ==> AllocatesNonNegative(acts[i])
    requires Run(s, acts).Some?
    ensures Inv(Run(s, acts).value)
    decreases |acts|
  {
    if |acts| > 0 {
      StepPreservesInv(s, acts[0]);
      RunPreservesInv(Step(s, acts[0]).value, acts[1..]);
    }
  }

  /** No successful run removes a cell or changes a cell's kind or capacity. */
  lemma {:induction false} RunKeepsCapacities(s: Store, acts: seq<Action>)
    requires Run(s, acts).Some?
    ensures CapacitiesKept(s, Run(s, acts).value)
    decreases |acts|
  {
    if |acts| > 0 {
      var s1 := Step(s, acts[0]).value;
      StepKeepsCapacities(s, acts[0]);
      RunKeepsCapacities(s1, acts[1..]);
      var s2 := Run(s, acts).value;
      forall id | id in s.cells
        ensures id in s2.cells
        ensures s2.cells[id].Gate? == s.cells[id].Gate?
        ensures s2.cells[id].capacity == s.cells[id].capacity
      {
        assert id in s1.cells;
      }
    }
  }

  /** An action other than passing or operating gate `g` leaves `g` alone. */
  lemma StepKeepsGate(s: Store, a: Action, g: CellId)
    requires IsGate(s, g) && a != Pass(g) && a != Operate(g) && Step(s, a).Some?
    ensures g in Step(s, a).value.cells && Step(s, a).value.cells[g] == s.cells[g]
  {
  }

  /** An action other than joining or awaiting group `g` leaves `g` alone. */
  lemma StepKeepsGroup(s: Store, a: Action, g: CellId)
    requires IsGroup(s, g) && a != Join(g) && a != Await(g) && Step(s, a).Some?
    ensures g in Step(s, a).value.cells && Step(s, a).value.cells[g] == s.cells[g]
  {
  }

  /** Between two openings a gate lets through exactly as many passers as its
      `remaining` count drops by, and never more than `remaining` of them. */
  lemma {:induction false} PassesConsumeRemaining(s: Store, acts: seq<Action>, g: CellId)
    requires IsGate(s, g) && Operate(g) !in acts && Run(s, acts).Some?
    ensures var s' := Run(s, acts).value;
      && IsGate(s', g)
      && s'.cells[g].capacity == s.cells[g].capacity
      && Remaining(s', g) == Remaining(s, g) - Count(acts, Pass(g))
      && (0 <= Remaining(s, g) ==> 0 <= Remaining(s', g) && Count(acts, Pass(g)) <= Remaining(s, g))
    decreases |acts|
  {
    if |acts| > 0 {
      var s1 := Step(s, acts[0]).value;
      assert Operate(g) !in acts[1..] by {
        forall i | 0 <= i < |acts[1..]| ensures acts[1..][i] != Operate(g) {
          assert acts[1..][i] == acts[i + 1];
        }
      }
      if acts[0] == Pass(g) {
        assert Remaining(s1, g) == Remaining(s, g) - 1 && Remaining(s, g) > 0;
      } else {
        StepKeepsGate(s, acts[0], g);
      }
      PassesConsumeRemaining(s1, acts[1..], g);
    }
  }

  /** Between two awaits a group admits exactly as many joiners as its
      `spacesLeft` count drops by, never more than `spacesLeft`, and its
      gates stay the same; `JoinReceivesCurrentGates` states what each
      joiner is handed. */
  lemma {:induction false} JoinsConsumeSpaces(s: Store, acts: seq<Action>, g: CellId)
    requires IsGroup(s, g) && Await(g) !in acts && Run(s, acts).Some?
    ensures var s' := Run(s, acts).value;
      && IsGroup(s', g)
      && s'.cells[g].capacity == s.cells[g].capacity
      && CurrentGates(s', g) == CurrentGates(s, g)
      && SpacesLeft(s', g) == SpacesLeft(s, g) - Count(acts, Join(g))
      && (0 <= SpacesLeft(s, g) ==> 0 <= SpacesLeft(s', g) && Count(acts, Join(g)) <= SpacesLeft(s, g))
      && (SpacesLeft(s, g) <= 0 ==> Count(acts, Join(g)) == 0)
    decreases |acts|
  {
    if |acts| > 0 {
      var s1 := Step(s, acts[0]).value;
      assert Await(g) !in acts[1..] by {
        forall i | 0 <= i < |acts[1..]| ensures acts[1..][i] != Await(g) {
          assert acts[1..][i] == acts[i + 1];
        }
      }
      if acts[0] == Join(g) {
        assert SpacesLeft(s1, g) == SpacesLeft(s, g) - 1 && SpacesLeft(s, g) > 0;
      } else {
        StepKeepsGroup(s, acts[0], g);
      }
      JoinsConsumeSpaces(s1, acts[1..], g);
    }
  }

  /** Every joiner of a run between two awaits is handed the gates the group
      held when the run started: the `j`-th action, a join, commits at the
      point where it is reached and returns exactly those gates. */
  lemma JoinReceivesCurrentGates(s: Store, acts: seq<Action>, g: CellId, j: nat)
    requires IsGroup(s, g) && Await(g) !in acts && Run(s, acts).Some?
    requires j < |acts| && acts[j] == Join(g)
    ensures Run(s, acts[..j]).Some?
    ensures JoinGroup(Run(s, acts[..j]).value, g).Committed?
    ensures JoinGroup(Run(s, acts[..j]).value, g).value == CurrentGates(s, g)
  {
    assert acts == acts[..j] + acts[j..];
    RunAppend(s, acts[..j], acts[j..]);
    assert Await(g) !in acts[..j] by {
      forall i | 0 <= i < j ensures acts[..j][i] != Await(g) {
        assert acts[..j][i] == acts[i];
      }
    }
    JoinsConsumeSpaces(s, acts[..j], g);
    var sj := Run(s, acts[..j]).value;
    assert acts[j..][0] == Join(g);
    assert Step(sj, Join(g)).Some?;
  }

  /** No overtaking: after the controller's await has handed out a cohort's
      gates, every later joiner, however the following transactions
      interleave (short of the next await), is handed gates that were not in
      the store before the await, and so never the gates of the cohort still
      being walked through; opening or passing those new gates at that point
      leaves the old cohort's gates exactly as they were. */
  lemma NoOvertakingInRun(s: Store, g: CellId, acts: seq<Action>, j: nat)
    requires AwaitGroup(s, g).Committed?
    requires var prev := AwaitGroup(s, g).value; IsGate(s, prev.inGate) && IsGate(s, prev.outGate)
    requires Await(g) !in acts && Run(AwaitGroup(s, g).store, acts).Some?
    requires j < |acts| && acts[j] == Join(g)
    ensures Run(AwaitGroup(s, g).store, acts[..j]).Some?
    ensures JoinGroup(Run(AwaitGroup(s, g).store, acts[..j]).value, g).Committed?
    ensures var s1 := AwaitGroup(s, g).store;
      var prev := AwaitGroup(s, g).value;
      var sj := Run(s1, acts[..j]).value;
      var later := JoinGroup(sj, g).value;
      && later.inGate !in s.cells && later.outGate !in s.cells
      && {later.inGate, later.outGate} !! {prev.inGate, prev.outGate}
      && prev.inGate in sj.cells && prev.outGate in sj.cells
      && (PassGate(sj, later.inGate).Committed? ==>
            var t := PassGate(sj, later.inGate).store;
            t.cells[prev.inGate] == sj.cells[prev.inGate] && t.cells[prev.outGate] == sj.cells[prev.outGate])
      && (PassGate(sj, later.outGate).Committed? ==>
            var t := PassGate(sj, later.outGate).store;
            t.cells[prev.inGate] == sj.cells[prev.inGate] && t.cells[prev.outGate] == sj.cells[prev.outGate])
      && (OperateGate(sj, later.inGate).Committed? ==>
            var t := OperateGate(sj, later.inGate).store;
            t.cells[prev.inGate] == sj.cells[prev.inGate] && t.cells[prev.outGate] == sj.cells[prev.outGate])
      && (OperateGate(sj, later.outGate).Committed? ==>
            var t := OperateGate(sj, later.outGate).store;
            t.cells[prev.inGate] == sj.cells[prev.inGate] && t.cells[prev.outGate] == sj.cells[prev.outGate])
  {
    var s1 := AwaitGroup(s, g).store;
    JoinReceivesCurrentGates(s1, acts, g, j);
    RunKeepsCapacities(s1, acts[..j]);
  }

  /** `k` consecutive joins succeed exactly when the group has room for `k`. */
  lemma {:induction false} JoinsEnabledExactly(s: Store, g: CellId, k: nat)
    requires IsGroup(s, g)
    ensures Run(s, Repeat(Join(g), k)).Some? <==> (k == 0 || k <= SpacesLeft(s, g))
    ensures Run(s, Repeat(Join(g), k)).Some? ==>
      var s' := Run(s, Repeat(Join(g), k)).value;
      IsGroup(s', g) && SpacesLeft(s', g) == SpacesLeft(s, g) - k &&
      s'.cells[g].capacity == s.cells[g].capacity && CurrentGates(s', g) == CurrentGates(s, g) &&
      s'.cells.Keys == s.cells.Keys && Preserves(s, s', {g})
    decreases k
  {
    if k > 0 {
      var acts := Repeat(Join(g), k);
      assert acts[0] == Join(g);
      assert acts[1..] == Repeat(Join(g), k - 1);
      if SpacesLeft(s, g) > 0 {
        JoinsEnabledExactly(JoinGroup(s, g).store, g, k - 1);
      }
    }
  }

  /** `k` consecutive passes succeed exactly when the gate has room for `k`. */
  lemma {:induction false} PassesEnabledExactly(s: Store, g: CellId, k: nat)
    requires IsGate(s, g)
    ensures Run(s, Repeat(Pass(g), k)).Some? <==> (k == 0 || k <= Remaining(s, g))
    ensures Run(s, Repeat(Pass(g), k)).Some? ==>
      var s' := Run(s, Repeat(Pass(g), k)).value;
      IsGate(s', g) && Remaining(s', g) == Remaining(s, g) - k &&
      s'.cells[g].capacity == s.cells[g].capacity && Preserves(s, s', {g}) &&
      s'.cells.Keys == s.cells.Keys
    decreases k
  {
    if k > 0 {
      var acts := Repeat(Pass(g), k);
      assert acts[0] == Pass(g);
      assert acts[1..] == Repeat(Pass(g), k - 1);
      if Remaining(s, g) > 0 {
        PassesEnabledExactly(PassGate(s, g).store, g, k - 1);
      }
    }
  }

  /** Exactly-N admission: a new group of capacity `n` lets exactly `n`
      consecutive joiners in; after `k` of them a further join is enabled
      only while `k < n`, and the controller's await only once `k == n`,
      after which the group is empty again with room for `n` more. */
  lemma ExactlyNAdmission(s: Store, n: int, k: nat)
    requires 0 <= n
    ensures var f := NewGroup(s, n);
      var r := Run(f.store, Repeat(Join(f.id), k));
      && (r.Some? <==> k <= n)
      && (r.Some? ==>
            && (JoinGroup(r.value, f.id).Committed? <==> k < n)
            && (AwaitGroup(r.value, f.id).Committed? <==> k == n))
      && (r.Some? && k == n ==>
            && AwaitGroup(r.value, f.id).value == CurrentGates(f.store, f.id)
            && SpacesLeft(AwaitGroup(r.value, f.id).store, f.id) == n)
  {
    var f := NewGroup(s, n);
    JoinsEnabledExactly(f.store, f.id, k);
  }

  /** One cohort walked through its gates the way the controller drives it:
      `n` joins fill the group, the await hands back the group's original
      gates and re-arms it, the controller opens both old gates, and then
      every member passes the entry gate and the exit gate. The whole run
      commits, both old gates end closed, no extra passer gets through, and
      the group is ready for the next cohort behind different gates. */
  lemma CohortWalkthrough(s: Store, n: int)
    requires 0 <= n
    ensures var f := NewGroup(s, n);
      var p := CurrentGates(f.store, f.id);
      var trace := Repeat(Join(f.id), n) + [Await(f.id), Operate(p.inGate), Operate(p.outGate)]
                   + (Repeat(Pass(p.inGate), n) + Repeat(Pass(p.outGate), n));
      var r := Run(f.store, trace);
      && r.Some?
      && IsGate(r.value, p.inGate) && Remaining(r.value, p.inGate) == 0
      && IsGate(r.value, p.outGate) && Remaining(r.value, p.outGate) == 0
      && PassGate(r.value, p.inGate).Blocked?
      && PassGate(r.value, p.outGate).Blocked?
      && IsGroup(r.value, f.id) && SpacesLeft(r.value, f.id) == n
      && CurrentGates(r.value, f.id).inGate != p.inGate
      && CurrentGates(r.value, f.id).outGate != p.outGate
  {
    var f := NewGroup(s, n);
    var g := f.id;
    var p := CurrentGates(f.store, g);
    var joins := Repeat(Join(g), n);
    var ctl := [Await(g), Operate(p.inGate), Operate(p.outGate)];
    var passes := Repeat(Pass(p.inGate), n) + Repeat(Pass(p.outGate), n);

    // The group fills up; its gates are still the original closed ones.
    JoinsEnabledExactly(f.store, g, n);
    var s1 := Run(f.store, joins).value;
    assert SpacesLeft(s1, g) == 0 && CurrentGates(s1, g) == p;
    assert s1.cells[p.inGate] == Gate(n, 0) && s1.cells[p.outGate] == Gate(n, 0);

    // The controller takes the old gates and opens both.
    ControllerOpens(s1, g);
    var s4 := Run(s1, ctl).value;
    RunAppend(f.store, joins, ctl);

    // Every member passes the entry gate, then the exit gate.
    MembersPass(s4, p.inGate, p.outGate, n);
    RunAppend(f.store, joins + ctl, passes);
    var s6 := Run(s4, passes).value;
    assert g in s4.cells && s6.cells[g] == s4.cells[g];
  }

  /** In the cohort run, the `k`-th member's join commits and hands that
      member exactly the gates the run then makes it pass. */
  lemma CohortMembersPassTheirOwnGates(s: Store, n: int, k: nat)
    requires 0 <= n && k < n
    ensures var f := NewGroup(s, n);
      var p := CurrentGates(f.store, f.id);
      var trace := Repeat(Join(f.id), n) + [Await(f.id), Operate(p.inGate), Operate(p.outGate)]
                   + (Repeat(Pass(p.inGate), n) + Repeat(Pass(p.outGate), n));
      && trace[k] == Join(f.id)
      && Run(f.store, trace[..k]).Some?
      && JoinGroup(Run(f.store, trace[..k]).value, f.id).Committed?
      && JoinGroup(Run(f.store, trace[..k]).value, f.id).value == p
  {
    var f := NewGroup(s, n);
    var p := CurrentGates(f.store, f.id);
    var joins := Repeat(Join(f.id), n);
    var trace := joins + [Await(f.id), Operate(p.inGate), Operate(p.outGate)]
                 + (Repeat(Pass(p.inGate), n) + Repeat(Pass(p.outGate), n));
    JoinsEnabledExactly(f.store, f.id, n);
    assert Await(f.id) !in joins;
    assert trace[..n] == joins;
    assert joins[..k] == trace[..k];
    JoinReceivesCurrentGates(f.store, joins, f.id, k);
  }

  /** `n` members pass the entry gate and then the exit gate, both opened
      for exactly `n`: every pass commits, both gates end closed, and no
      other cell changes. */
  lemma MembersPass(s: Store, i: CellId, o: CellId, n: int)
    requires 0 <= n && i != o
    requires IsGate(s, i) && Remaining(s, i) == n
    requires IsGate(s, o) && Remaining(s, o) == n
    ensures var r := Run(s, Repeat(Pass(i), n) + Repeat(Pass(o), n));
      && r.Some?
      && IsGate(r.value, i) && Remaining(r.value, i) == 0
      && IsGate(r.value, o) && Remaining(r.value, o) == 0
      && r.value.cells.Keys == s.cells.Keys
      && Preserves(s, r.value, {i, o})
  {
    PassesEnabledExactly(s, i, n);
    var s1 := Run(s, Repeat(Pass(i), n)).value;
    PassesEnabledExactly(s1, o, n);
    RunAppend(s, Repeat(Pass(i), n), Repeat(Pass(o), n));
  }

  /** The controller's part of a cohort: await the full group, then open the
      entry gate and the exit gate it was handed. */
  lemma ControllerOpens(s: Store, g: CellId)
    requires IsGroup(s, g) && SpacesLeft(s, g) <= 0
    requires var p := CurrentGates(s, g);
      IsGate(s, p.inGate) && IsGate(s, p.outGate) && p.inGate != p.outGate
    ensures var p := CurrentGates(s, g);
      var r := Run(s, [Await(g), Operate(p.inGate), Operate(p.outGate)]);
      && r.Some?
      && IsGate(r.value, p.inGate) && Remaining(r.value, p.inGate) == s.cells[p.inGate].capacity
      && IsGate(r.value, p.outGate) && Remaining(r.value, p.outGate) == s.cells[p.outGate].capacity
      && r.value.cells[p.inGate].capacity == s.cells[p.inGate].capacity
      && r.value.cells[p.outGate].capacity == s.cells[p.outGate].capacity
      && IsGroup(r.value, g) && SpacesLeft(r.value, g) == s.cells[g].capacity
      && CurrentGates(r.value, g).inGate !in s.cells
      && CurrentGates(r.value, g).outGate !in s.cells
  {
    var p := CurrentGates(s, g);
    var ctl := [Await(g), Operate(p.inGate), Operate(p.outGate)];
    var s2 := AwaitGroup(s, g).store;
    var s3 := OperateGate(s2, p.inGate).store;
    var s4 := OperateGate(s3, p.outGate).store;
    assert p.inGate != g && p.outGate != g;
    assert s2.cells[p.inGate] == s.cells[p.inGate] && s2.cells[p.outGate] == s.cells[p.outGate];
    assert s4.cells[g] == s3.cells[g] == s2.cells[g];
    assert Step(s, Await(g)) == Some(s2);
    assert Step(s2, Operate(p.inGate)) == Some(s3);
    assert Step(s3, Operate(p.outGate)) == Some(s4);
    assert ctl[1..] == [Operate(p.inGate), Operate(p.outGate)];
    assert ctl[1..][1..] == [Operate(p.outGate)];
    assert Run(s4, ctl[1..][1..][1..]) == Some(s4);
    assert Run(s3, ctl[1..][1..]) == Some(s4);
    assert Run(s2, ctl[1..]) == Some(s4);
  }

  /** A group with no room that can never be given any (its capacity is zero
      or negative) admits no joiner in any successful run, awaits included:
      each await puts `spacesLeft` back to that non-positive capacity. */
  lemma {:induction false} EmptyGroupNeverAdmits(s: Store, acts: seq<Action>, g: CellId)
    requires IsGroup(s, g) && SpacesLeft(s, g) <= 0 && s.cells[g].capacity <= 0
    requires Run(s, acts).Some?
    ensures Count(acts, Join(g)) == 0
    ensures var s' := Run(s, acts).value;
      IsGroup(s', g) && SpacesLeft(s', g) <= 0 && s'.cells[g].capacity == s.cells[g].capacity
    decreases |acts|
  {
    if |acts| > 0 {
      var s1 := Step(s, acts[0]).value;
      if acts[0] != Join(g) && acts[0] != Await(g) {
        StepKeepsGroup(s, acts[0], g);
      }
      EmptyGroupNeverAdmits(s1, acts[1..], g);
    }
  }
}
