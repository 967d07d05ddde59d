/** The saved states of operations in flight (execution.rs, signals.rs). */
module OperationTracking {
  import opened Wrappers
  import opened Text
  import opened Inventory

  datatype SavedState = SavedState(driver: DriverEntry, wasLoaded: bool, correlationId: string)

  /** The correlation id of the operation that drew ticket `t` from the 64-bit counter. */
  function OperationId(t: nat): string {
    "op-" + Decimal(t % U64_LIMIT)
  }

  /** Two tickets give one id exactly when the counter wrapped a whole number of times between them. */
  lemma IdsCollideExactly(s: nat, t: nat)
    ensures OperationId(s) == OperationId(t) <==> s % U64_LIMIT == t % U64_LIMIT
  {
    var a, b := Decimal(s % U64_LIMIT), Decimal(t % U64_LIMIT);
    if OperationId(s) == OperationId(t) {
      assert a == OperationId(s)[3..] && b == OperationId(t)[3..];
      DecimalInjective(s % U64_LIMIT, t % U64_LIMIT);
    }
  }

  lemma IdsWithinWindowDiffer(s: nat, t: nat)
    requires s < t < s + U64_LIMIT
    ensures OperationId(s) != OperationId(t)
  {
    IdsCollideExactly(s, t);
  }

  // ── The tracker on values ──────────────────────────────────────

  /** First saved state with the id. */
  function LookUp(saved: seq<SavedState>, id: string): (found: Option<SavedState>)
    ensures found.Some? ==> found.value in saved && found.value.correlationId == id
    ensures found.None? ==> forall s | s in saved :: s.correlationId != id
  {
    if saved == [] then None
    else if saved[0].correlationId == id then Some(saved[0])
    else LookUp(saved[1..], id)
  }

  /** `iter().find`: the first state with the id. */
  lemma {:induction false} LookUpIsFirst(saved: seq<SavedState>, id: string, i: nat)
    requires i < |saved| && saved[i].correlationId == id
    requires forall j: nat | j < i :: saved[j].correlationId != id
    ensures LookUp(saved, id) == Some(saved[i])
  {
    if i > 0 {
      assert saved[0].correlationId != id;
      LookUpIsFirst(saved[1..], id, i - 1);
    }
  }

  /** Keep the states with other ids. */
  function Without(saved: seq<SavedState>, id: string): (kept: seq<SavedState>)
    ensures forall s :: s in kept <==> s in saved && s.correlationId != id
  {
    if saved == [] then []
    else (if saved[0].correlationId != id then [saved[0]] else []) + Without(saved[1..], id)
  }

  /** A state saved under a fresh id is the one found. */
  lemma {:induction false} SavedIsFound(saved: seq<SavedState>, s: SavedState)
    requires forall r | r in saved :: r.correlationId != s.correlationId
    ensures LookUp(saved + [s], s.correlationId) == Some(s)
  {
    if saved != [] {
      SavedIsFound(saved[1..], s);
      assert (saved + [s])[1..] == saved[1..] + [s];
    }
  }

  /** Saving under a fresh id and removing that id changes nothing. */
  lemma {:induction false} SaveThenRemove(saved: seq<SavedState>, s: SavedState)
    requires forall r | r in saved :: r.correlationId != s.correlationId
    ensures Without(saved + [s], s.correlationId) == saved
  {
    if saved == [] {
      assert (saved + [s])[1..] == [];
    } else {
      SaveThenRemove(saved[1..], s);
      assert (saved + [s])[1..] == saved[1..] + [s];
      assert [saved[0]] + saved[1..] == saved;
    }
  }

  // ── The tracker object ─────────────────────────────────────────

  class OperationTracker {
    var savedStates: seq<SavedState>

    constructor ()
      ensures savedStates == []
    {
      savedStates := [];
    }

    method SaveState(driver: DriverEntry, wasLoaded: bool, ticket: nat) returns (id: string)
      modifies this
      ensures id == OperationId(ticket)
      ensures savedStates == old(savedStates) + [SavedState(driver, wasLoaded, id)]
    {
      id := OperationId(ticket);
      savedStates := savedStates + [SavedState(driver, wasLoaded, id)];
    }

    function FindState(id: string): Option<SavedState>
      reads this
    {
      LookUp(savedStates, id)
    }

    method RemoveState(id: string)
      modifies this
      ensures savedStates == Without(old(savedStates), id)
    {
      savedStates := Without(savedStates, id);
    }
  }
}
