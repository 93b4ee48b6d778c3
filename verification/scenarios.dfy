/**
 * A concrete state machine in the shape the event tables take: a lifecycle
 * with an `open` event, a two-clause `close` event and a one-clause `finish`
 * event, and what the evaluator does on it.
 */
module Scenarios {
  import opened Wrappers
  import opened State

  datatype Lifecycle = Idle | Open | Closing | Closed

  const OpenEvent: Event<Lifecycle> := Event("open", [Clause([Idle], Open)])
  const CloseEvent: Event<Lifecycle> := Event("close", [Clause([Open], Closing), Clause([Closing], Closed)])
  const FinishEvent: Event<Lifecycle> := Event("finish", [Clause([Idle, Open, Closing], Closed)])

  /**
   * `open` on `Idle` succeeds. Its one clause targets `Open`, so on `Open` it
   * is a no-op, not an invalid transition; on `Closed` it is invalid.
   */
  lemma OpenOutcomes()
    ensures Apply(OpenEvent, Idle) == Ok(Open)
    ensures Apply(OpenEvent, Open) == Err(NoOp(Open))
    ensures Apply(OpenEvent, Closed) == Err(InvalidTransition(Closed, "open"))
  {
    FirstMatchWins(OpenEvent, Idle, 0);
    SingleTargetNoOp("open", Clause([Idle], Open), Open);
    SingleTargetNoOp("open", Clause([Idle], Open), Closed);
  }

  /** `close` on `Closed` is invalid although `Closed` is one of its targets: it has two clauses. */
  lemma CloseFromClosedIsInvalid()
    ensures Apply(CloseEvent, Closed) == Err(InvalidTransition(Closed, "close"))
  {
    MultiClauseAmbiguity(CloseEvent, Closed);
  }

  /** `finish` on `Closed` is a no-op: its single clause already targets `Closed`. */
  lemma FinishFromClosedIsNoOp()
    ensures Apply(FinishEvent, Closed) == Err(NoOp(Closed))
  {
    SingleTargetNoOp("finish", Clause([Idle, Open, Closing], Closed), Closed);
  }

  /** Calling `open` on an `Idle` machine moves it to `Open` and hands one record to the tracing sink. */
  method OpenIdleMachine() returns (m: Machine<Lifecycle>)
    ensures m.state == Open
    ensures m.trace == [Record(Some("open"), Idle, Open)]
  {
    m := new Machine(Idle);
    OpenOutcomes();
    var r := m.Fire(OpenEvent);
  }
}
