/**
 Concurrent operations on one tracker: every step that takes the tracker lock or draws
 from the shared counter, in any order.
 */
module OperationRuns {
  import opened Wrappers
  import opened Text
  import opened Inventory
  import opened OperationTracking

  /** How far an operation that has saved its state is. */
  datatype Phase =
    | Executing(ticket: nat, driver: DriverEntry, wasLoaded: bool)
    | Recovering(ticket: nat, driver: DriverEntry, wasLoaded: bool, found: Option<SavedState>)
    | Ended
  {
    ghost predicate InFlight() {
      !Ended?
    }

    ghost function Own(): SavedState
      requires InFlight()
    {
      SavedState(driver, wasLoaded, OperationId(ticket))
    }
  }

  datatype State = State(counter: nat, saved: seq<SavedState>, operations: map<nat, Phase>)

  datatype Step =
    | Draw
    | Save(op: nat, driver: DriverEntry, wasLoaded: bool)
    | Succeed(op: nat)
    | FindForRollback(op: nat)
    | FinishRollback(op: nat)

  const INITIAL := State(0, [], map[])

  ghost predicate InFlight(s: State, op: nat) {
    op in s.operations && s.operations[op].InFlight()
  }

  /** No operation in flight is so old that the 64-bit counter wrapped since its draw. */
  ghost predicate WithinWindow(s: State) {
    forall op | InFlight(s, op) :: s.counter < s.operations[op].ticket + U64_LIMIT
  }

  ghost predicate Enabled(s: State, step: Step) {
    match step
    case Draw => true
    case Save(op, _, _) => op !in s.operations && WithinWindow(s)
    case Succeed(op) => op in s.operations && s.operations[op].Executing?
    case FindForRollback(op) => op in s.operations && s.operations[op].Executing?
    case FinishRollback(op) => op in s.operations && s.operations[op].Recovering?
  }

  /** `FinishRollback` without a state found is the `rollback_failed` branch: it forgets nothing. */
  ghost function Apply(s: State, step: Step): State
    requires Enabled(s, step)
  {
    match step
    case Draw => s.(counter := s.counter + 1)
    case Save(op, driver, wasLoaded) =>
      var phase := Executing(s.counter, driver, wasLoaded);
      State(s.counter + 1, s.saved + [phase.Own()], s.operations[op := phase])
    case Succeed(op) =>
      s.(saved := Without(s.saved, OperationId(s.operations[op].ticket)), operations := s.operations[op := Ended])
    case FindForRollback(op) =>
      var phase := s.operations[op];
      s.(operations := s.operations[op := Recovering(phase.ticket, phase.driver, phase.wasLoaded,
                                                     LookUp(s.saved, OperationId(phase.ticket)))])
    case FinishRollback(op) =>
      var phase := s.operations[op];
      State(s.counter,
            if phase.found.Some? then Without(s.saved, OperationId(phase.ticket)) else s.saved,
            s.operations[op := Ended])
  }

  ghost predicate Possible(s: State, steps: seq<Step>)
    decreases |steps|
  {
    steps == [] || (Enabled(s, steps[0]) && Possible(Apply(s, steps[0]), steps[1..]))
  }

  ghost function Run(s: State, steps: seq<Step>): State
    requires Possible(s, steps)
    decreases |steps|
  {
    if steps == [] then s else Run(Apply(s, steps[0]), steps[1..])
  }

  // ── What every step keeps ──────────────────────────────────────

  ghost predicate DistinctIds(s: State) {
    forall a, b | InFlight(s, a) && InFlight(s, b) && a != b ::
      OperationId(s.operations[a].ticket) != OperationId(s.operations[b].ticket)
  }

  /** The saved states are exactly those of the operations in flight. */
  ghost predicate SavedExactly(s: State) {
    && (forall op | InFlight(s, op) :: s.operations[op].Own() in s.saved)
    && (forall x | x in s.saved :: exists op :: InFlight(s, op) && x == s.operations[op].Own())
  }

  /** A rollback has found the state that its own operation saved. */
  ghost predicate FoundOwn(s: State) {
    forall op | op in s.operations && s.operations[op].Recovering? ::
      s.operations[op].found == Some(s.operations[op].Own())
  }

  ghost predicate Consistent(s: State) {
    && TicketsDrawn(s) && DistinctIds(s) && SavedExactly(s) && FoundOwn(s)
  }

  /** Looking up the id of an operation in flight finds the state it saved. */
  lemma LookUpFindsOwn(s: State, op: nat)
    requires Consistent(s) && InFlight(s, op)
    ensures LookUp(s.saved, OperationId(s.operations[op].ticket)) == Some(s.operations[op].Own())
  {
    var found := LookUp(s.saved, OperationId(s.operations[op].ticket));
    assert s.operations[op].Own() in s.saved;
    var other :| InFlight(s, other) && found.value == s.operations[other].Own();
    assert other == op;
  }

  ghost predicate TicketsDrawn(s: State) {
    forall op | InFlight(s, op) :: s.operations[op].ticket < s.counter
  }

  lemma SaveKeepsSaved(s: State, op: nat, driver: DriverEntry, wasLoaded: bool)
    requires SavedExactly(s) && Enabled(s, Save(op, driver, wasLoaded))
    ensures SavedExactly(Apply(s, Save(op, driver, wasLoaded)))
  {
    var t := Apply(s, Save(op, driver, wasLoaded));
    forall x | x in t.saved ensures exists a :: InFlight(t, a) && x == t.operations[a].Own() {
      if x in s.saved {
        var a :| InFlight(s, a) && x == s.operations[a].Own();
        assert InFlight(t, a) && x == t.operations[a].Own();
      } else {
        assert InFlight(t, op);
      }
    }
    forall a | InFlight(t, a) ensures t.operations[a].Own() in t.saved {
      assert a == op || InFlight(s, a);
    }
  }

  /** Within the counter's window a new id differs from every id in flight. */
  lemma SaveKeepsIds(s: State, op: nat, driver: DriverEntry, wasLoaded: bool)
    requires TicketsDrawn(s) && DistinctIds(s) && Enabled(s, Save(op, driver, wasLoaded))
    ensures DistinctIds(Apply(s, Save(op, driver, wasLoaded)))
    ensures TicketsDrawn(Apply(s, Save(op, driver, wasLoaded)))
  {
    var t := Apply(s, Save(op, driver, wasLoaded));
    forall a | InFlight(s, a) ensures OperationId(s.operations[a].ticket) != OperationId(s.counter) {
      IdsWithinWindowDiffer(s.operations[a].ticket, s.counter);
    }
    assert forall a | InFlight(t, a) && a != op :: InFlight(s, a) && t.operations[a] == s.operations[a];
  }

  /** Ending an operation by forgetting its id forgets exactly its own state. */
  lemma EndKeepsSaved(s: State, op: nat)
    requires SavedExactly(s) && DistinctIds(s) && InFlight(s, op)
    ensures SavedExactly(State(s.counter, Without(s.saved, OperationId(s.operations[op].ticket)),
                               s.operations[op := Ended]))
  {
    var id := OperationId(s.operations[op].ticket);
    var t := State(s.counter, Without(s.saved, id), s.operations[op := Ended]);
    forall x | x in t.saved ensures exists a :: InFlight(t, a) && x == t.operations[a].Own() {
      var a :| InFlight(s, a) && x == s.operations[a].Own();
      assert a != op && InFlight(t, a);
    }
    forall a | InFlight(t, a) ensures t.operations[a].Own() in t.saved {
      assert a != op && InFlight(s, a);
    }
  }

  lemma EndKeepsConsistent(s: State, op: nat)
    requires Consistent(s) && InFlight(s, op)
    ensures Consistent(State(s.counter, Without(s.saved, OperationId(s.operations[op].ticket)),
                             s.operations[op := Ended]))
  {
    EndKeepsSaved(s, op);
    var t := State(s.counter, Without(s.saved, OperationId(s.operations[op].ticket)), s.operations[op := Ended]);
    assert forall a | InFlight(t, a) :: InFlight(s, a) && t.operations[a] == s.operations[a];
  }

  lemma FindKeepsConsistent(s: State, op: nat)
    requires Consistent(s) && Enabled(s, FindForRollback(op))
    ensures Consistent(Apply(s, FindForRollback(op)))
  {
    LookUpFindsOwn(s, op);
    var t := Apply(s, FindForRollback(op));
    assert forall a :: InFlight(t, a) <==> InFlight(s, a);
    forall a | InFlight(s, a)
      ensures t.operations[a].Own() == s.operations[a].Own() && t.operations[a].ticket == s.operations[a].ticket
    {
    }
    forall x | x in t.saved ensures exists a :: InFlight(t, a) && x == t.operations[a].Own() {
      var a :| InFlight(s, a) && x == s.operations[a].Own();
      assert InFlight(t, a);
    }
  }

  lemma StepKeepsConsistent(s: State, step: Step)
    requires Consistent(s) && Enabled(s, step)
    ensures Consistent(Apply(s, step))
  {
    match step
    case Draw =>
      assert forall op :: InFlight(Apply(s, step), op) <==> InFlight(s, op);
    case Save(op, driver, wasLoaded) =>
      SaveKeepsSaved(s, op, driver, wasLoaded);
      SaveKeepsIds(s, op, driver, wasLoaded);
    case Succeed(op) => EndKeepsConsistent(s, op);
    case FinishRollback(op) => EndKeepsConsistent(s, op);
    case FindForRollback(op) => FindKeepsConsistent(s, op);
  }

  /** Every run, in any interleaving, keeps the tracker consistent. */
  lemma {:induction false} RunsStayConsistent(s: State, steps: seq<Step>)
    requires Consistent(s) && Possible(s, steps)
    ensures Consistent(Run(s, steps))
    decreases |steps|
  {
    if steps != [] {
      StepKeepsConsistent(s, steps[0]);
      RunsStayConsistent(Apply(s, steps[0]), steps[1..]);
    }
  }

  /** From the start, no rollback fails, each restores its own snapshot, and nothing is left behind. */
  lemma RollbackNeverFails(steps: seq<Step>, op: nat)
    requires Possible(INITIAL, steps)
    ensures var s := Run(INITIAL, steps);
            && (op in s.operations && s.operations[op].Recovering? ==>
                  s.operations[op].found == Some(s.operations[op].Own()))
            && ((forall a :: !InFlight(s, a)) ==> s.saved == [])
  {
    RunsStayConsistent(INITIAL, steps);
    var s := Run(INITIAL, steps);
    if s.saved != [] {
      assert s.saved[0] in s.saved;
    }
  }
}
