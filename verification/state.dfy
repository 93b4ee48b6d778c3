/**
 * The guarded-transition evaluator behind the `transition!`, `event!` and
 * `is!` macros. An event is an ordered list of clauses
 * `A | B | ... => T`; calling it tries the clauses in order, moves to the
 * target of the first clause whose pattern matches, and otherwise reports
 * either a no-op or an invalid transition.
 *
 * The macros expand, per state-machine type, into one method per event; here
 * the table is data and one interpreter (`Apply`, `Machine.Fire`) serves
 * every event.
 */
module State {
  import opened Wrappers

  /** One arm `sources => target` of an event; `sources` is the or-pattern in written order. */
  datatype Clause<S> = Clause(sources: seq<S>, target: S)

  /** An event: its name and its clauses in declaration order. */
  datatype Event<S> = Event(name: string, clauses: seq<Clause<S>>)

  /** The two ways an event can fail; both carry the state it was called on. */
  datatype Error<S> =
    | NoOp(current: S)
    | InvalidTransition(current: S, event: string)

  /** What the tracing sink is handed on a successful transition (the call site is left out). */
  datatype Record<S> = Record(event: Option<string>, prev: S, next: S)

  /** The event name `stringify!(_)` gives the anonymous `transition!(state, p => t)` form. */
  const Anonymous: string := "_"

  /** `matches!(state, A | B | ...)`: the state is one of the listed variants. */
  predicate Matches<S(==)>(state: S, pattern: seq<S>) {
    state in pattern
  }

  /**
   * The `@build` arms of `transition!`: `targets` accumulates the targets of
   * the clauses already tried, `remaining` holds the clauses still to try.
   * `Ok(t)` means the state is overwritten with `t`.
   */
  function Build<S(==)>(targets: seq<S>, event: string, state: S, remaining: seq<Clause<S>>): Result<S, Error<S>>
    decreases |remaining|
  {
    if remaining != [] then
      if Matches(state, remaining[0].sources) then Ok(remaining[0].target)
      else Build(targets + [remaining[0].target], event, state, remaining[1..])
    else if |targets| == 1 && targets[0] == state then Err(NoOp(targets[0]))
    else Err(InvalidTransition(state, event))
  }

  /** The outcome of calling event `e` on `state`: the new state, or the error. */
  function Apply<S(==)>(e: Event<S>, state: S): Result<S, Error<S>> {
    Build([], e.name, state, e.clauses)
  }

  /** The target of every clause, in declaration order. */
  function Targets<S>(clauses: seq<Clause<S>>): seq<S> {
    if clauses == [] then [] else [clauses[0].target] + Targets(clauses[1..])
  }

  /** Every variant named in a source pattern of `clauses`, in declaration order. */
  function Sources<S>(clauses: seq<Clause<S>>): seq<S> {
    if clauses == [] then [] else clauses[0].sources + Sources(clauses[1..])
  }

  /** Clause `k` matches `state` and no earlier clause does. */
  predicate FirstMatchAt<S(==)>(clauses: seq<Clause<S>>, state: S, k: int) {
    && 0 <= k < |clauses|
    && Matches(state, clauses[k].sources)
    && forall j :: 0 <= j < k ==> !Matches(state, clauses[j].sources)
  }

  /** Some clause matches `state`. */
  predicate AnyMatch<S(==)>(clauses: seq<Clause<S>>, state: S) {
    exists k :: 0 <= k < |clauses| && Matches(state, clauses[k].sources)
  }

  /** The field the tracing call reports as the event: none for the anonymous form. */
  function TraceEvent(event: string): Option<string> {
    if event == [] || event == Anonymous then None else Some(event)
  }

  // ----- the evaluator, clause by clause -----

  lemma {:induction false} BuildFirstMatch<S>(targets: seq<S>, event: string, state: S, remaining: seq<Clause<S>>, k: nat)
    requires FirstMatchAt(remaining, state, k)
    ensures Build(targets, event, state, remaining) == Ok(remaining[k].target)
    decreases k
  {
    if k > 0 {
      BuildFirstMatch(targets + [remaining[0].target], event, state, remaining[1..], k - 1);
    }
  }

  lemma {:induction false} BuildNoMatch<S>(targets: seq<S>, event: string, state: S, remaining: seq<Clause<S>>)
    requires !AnyMatch(remaining, state)
    ensures Build(targets, event, state, remaining) == Build(targets + Targets(remaining), event, state, [])
    decreases |remaining|
  {
    if remaining != [] {
      assert !Matches(state, remaining[0].sources);
      assert !AnyMatch(remaining[1..], state) by {
        forall k | 0 <= k < |remaining[1..]|
          ensures !Matches(state, remaining[1..][k].sources)
        {
          assert remaining[1..][k] == remaining[k + 1];
        }
      }
      BuildNoMatch(targets + [remaining[0].target], event, state, remaining[1..]);
      assert targets + [remaining[0].target] + Targets(remaining[1..]) == targets + Targets(remaining);
    }
  }

  lemma {:induction false} FirstMatchExists<S>(clauses: seq<Clause<S>>, state: S) returns (k: nat)
    requires AnyMatch(clauses, state)
    ensures FirstMatchAt(clauses, state, k)
    decreases |clauses|
  {
    if Matches(state, clauses[0].sources) {
      k := 0;
    } else {
      var w :| 0 <= w < |clauses| && Matches(state, clauses[w].sources);
      assert clauses[1..][w - 1] == clauses[w];
      var k' := FirstMatchExists(clauses[1..], state);
      k := k' + 1;
      forall j | 0 < j < k
        ensures !Matches(state, clauses[j].sources)
      {
        assert clauses[1..][j - 1] == clauses[j];
      }
    }
  }

  // ----- the laws of an event call -----

  /**
   * First match wins: when clause `k` is the first whose pattern matches, the
   * event moves to that clause's target, whatever the later clauses say.
   */
  lemma FirstMatchWins<S>(e: Event<S>, state: S, k: nat)
    requires FirstMatchAt(e.clauses, state, k)
    ensures Apply(e, state) == Ok(e.clauses[k].target)
  {
    BuildFirstMatch([], e.name, state, e.clauses, k);
  }

  /** Clauses after the first matching one are never consulted: replacing them changes nothing. */
  lemma LaterClausesIgnored<S>(e: Event<S>, state: S, k: nat, rest: seq<Clause<S>>)
    requires FirstMatchAt(e.clauses, state, k)
    ensures Apply(Event(e.name, e.clauses[..k + 1] + rest), state) == Apply(e, state)
  {
    var e' := Event(e.name, e.clauses[..k + 1] + rest);
    assert forall j :: 0 <= j <= k ==> e'.clauses[j] == e.clauses[j];
    FirstMatchWins(e, state, k);
    FirstMatchWins(e', state, k);
  }

  /** An event succeeds exactly when some clause matches, and then only to one of its targets. */
  lemma {:induction false} SucceedsIffMatched<S>(e: Event<S>, state: S)
    ensures Apply(e, state).Ok? <==> AnyMatch(e.clauses, state)
    ensures Apply(e, state).Ok? ==> Apply(e, state).value in Targets(e.clauses)
  {
    if AnyMatch(e.clauses, state) {
      var k := FirstMatchExists(e.clauses, state);
      FirstMatchWins(e, state, k);
      TargetsAt(e.clauses, k);
    } else {
      BuildNoMatch([], e.name, state, e.clauses);
    }
  }

  lemma {:induction false} TargetsAt<S>(clauses: seq<Clause<S>>, k: nat)
    requires k < |clauses|
    ensures |Targets(clauses)| == |clauses| && Targets(clauses)[k] == clauses[k].target
    decreases k
  {
    if k > 0 {
      TargetsAt(clauses[1..], k - 1);
    } else {
      TargetsLength(clauses);
    }
  }

  lemma {:induction false} TargetsLength<S>(clauses: seq<Clause<S>>)
    ensures |Targets(clauses)| == |clauses|
    decreases |clauses|
  {
    if clauses != [] {
      TargetsLength(clauses[1..]);
    }
  }

  /**
   * Single-target no-op law: an event with one clause, called on a state its
   * pattern does not match, is a no-op exactly when the state already is the
   * target, and an invalid transition otherwise.
   */
  lemma SingleTargetNoOp<S>(name: string, c: Clause<S>, state: S)
    requires !Matches(state, c.sources)
    ensures state == c.target ==> Apply(Event(name, [c]), state) == Err(NoOp(state))
    ensures state != c.target ==> Apply(Event(name, [c]), state) == Err(InvalidTransition(state, name))
  {
    OneClause(name, c, state);
  }

  /** Unfolds `Build` over a one-clause event. */
  lemma OneClause<S>(name: string, c: Clause<S>, state: S)
    ensures !Matches(state, c.sources) ==>
              Apply(Event(name, [c]), state) == Build([c.target], name, state, [])
  {
    assert [c][1..] == [];
    assert [] + [c.target] == [c.target];
  }

  /**
   * Multi-clause ambiguity: with two or more clauses and no match, the event
   * is an invalid transition, even when the state equals one of the targets
   * (the length that counts is the number of clauses, not of distinct targets).
   */
  lemma MultiClauseAmbiguity<S>(e: Event<S>, state: S)
    requires |e.clauses| >= 2
    requires !AnyMatch(e.clauses, state)
    ensures Apply(e, state) == Err(InvalidTransition(state, e.name))
  {
    BuildNoMatch([], e.name, state, e.clauses);
    TargetsLength(e.clauses);
  }

  /**
   * The error taxonomy: every error reports the state the event was called
   * on; an invalid transition reports the event's own name; and a no-op
   * happens exactly for a one-clause event whose pattern misses the state
   * while its target equals it.
   */
  lemma {:induction false} ErrorOutcomes<S>(e: Event<S>, state: S)
    ensures Apply(e, state).Err? ==> Apply(e, state).error.current == state
    ensures Apply(e, state).Err? && Apply(e, state).error.InvalidTransition? ==> Apply(e, state).error.event == e.name
    ensures (Apply(e, state).Err? && Apply(e, state).error.NoOp?) <==>
              (|e.clauses| == 1 && !Matches(state, e.clauses[0].sources) && e.clauses[0].target == state)
  {
    SucceedsIffMatched(e, state);
    if !AnyMatch(e.clauses, state) {
      BuildNoMatch([], e.name, state, e.clauses);
      TargetsLength(e.clauses);
      if |e.clauses| == 1 {
        assert Targets(e.clauses) == [e.clauses[0].target];
      }
    } else {
      var k :| 0 <= k < |e.clauses| && Matches(state, e.clauses[k].sources);
    }
  }

  /**
   * The anonymous form `transition!(state, p => t)` is a one-clause event
   * named `_`: it moves to `t` when `p` matches, is a no-op when the state is
   * already `t`, and otherwise fails reporting the event `"_"`.
   */
  lemma AnonymousTransition<S>(pattern: seq<S>, target: S, state: S)
    ensures Matches(state, pattern) ==> Apply(Event(Anonymous, [Clause(pattern, target)]), state) == Ok(target)
    ensures !Matches(state, pattern) && state == target ==>
              Apply(Event(Anonymous, [Clause(pattern, target)]), state) == Err(NoOp(state))
    ensures !Matches(state, pattern) && state != target ==>
              Apply(Event(Anonymous, [Clause(pattern, target)]), state) == Err(InvalidTransition(state, "_"))
  {
    OneClause(Anonymous, Clause(pattern, target), state);
  }

  lemma {:induction false} InSources<S>(clauses: seq<Clause<S>>, state: S)
    ensures Matches(state, Sources(clauses)) <==> AnyMatch(clauses, state)
    decreases |clauses|
  {
    if clauses != [] {
      InSources(clauses[1..], state);
      if AnyMatch(clauses[1..], state) {
        var k :| 0 <= k < |clauses[1..]| && Matches(state, clauses[1..][k].sources);
        assert clauses[k + 1] == clauses[1..][k];
      }
      if AnyMatch(clauses, state) && !Matches(state, clauses[0].sources) {
        var k :| 0 <= k < |clauses| && Matches(state, clauses[k].sources);
        assert clauses[1..][k - 1] == clauses[k];
      }
    }
  }

  /**
   * Guards: an `is!` predicate listing exactly the source variants of an event
   * holds of a state precisely when that event would succeed from it.
   */
  lemma GuardPredictsEvent<S>(e: Event<S>, state: S)
    ensures Matches(state, Sources(e.clauses)) <==> Apply(e, state).Ok?
  {
    InSources(e.clauses, state);
    SucceedsIffMatched(e, state);
  }

  /**
   * The value a state-machine enum lives in. Only the event methods change
   * it; `trace` is the sequence of records the tracing sink would have
   * received, one per successful transition.
   */
  class Machine<S(==)> {
    var state: S
    ghost var trace: seq<Record<S>>

    constructor (initial: S)
      ensures state == initial && trace == []
    {
      state := initial;
      trace := [];
    }

    /**
     * The method `event!` generates for `e`: tries the clauses in order,
     * overwriting the state only on a match; on failure nothing changes.
     */
    method Fire(e: Event<S>) returns (r: Result<(), Error<S>>)
      modifies this
      ensures Apply(e, old(state)).Ok? ==>
                && r == Ok(())
                && state == Apply(e, old(state)).value
                && trace == old(trace) + [Record(TraceEvent(e.name), old(state), state)]
      ensures Apply(e, old(state)).Err? ==>
                && r == Err(Apply(e, old(state)).error)
                && state == old(state)
                && trace == old(trace)
    {
      var targets: seq<S> := [];
      var i := 0;
      while i < |e.clauses|
        invariant 0 <= i <= |e.clauses|
        invariant state == old(state) && trace == old(trace)
        invariant Build(targets, e.name, state, e.clauses[i..]) == Apply(e, state)
      {
        assert e.clauses[i..][1..] == e.clauses[i + 1..];
        if Matches(state, e.clauses[i].sources) {
          trace := trace + [Record(TraceEvent(e.name), state, e.clauses[i].target)];
          state := e.clauses[i].target;
          return Ok(());
        }
        targets := targets + [e.clauses[i].target];
        i := i + 1;
      }
      if |targets| == 1 && targets[0] == state {
        var current := targets[0];
        return Err(NoOp(current));
      }
      return Err(InvalidTransition(state, e.name));
    }

    /** `transition!(self, pattern => target)`: the anonymous one-clause form. */
    method Transition(pattern: seq<S>, target: S) returns (r: Result<(), Error<S>>)
      modifies this
      ensures Matches(old(state), pattern) ==> r == Ok(()) && state == target
      ensures Matches(old(state), pattern) ==> trace == old(trace) + [Record(None, old(state), target)]
      ensures !Matches(old(state), pattern) ==> state == old(state) && trace == old(trace)
      ensures !Matches(old(state), pattern) && old(state) == target ==> r == Err(NoOp(target))
      ensures !Matches(old(state), pattern) && old(state) != target ==>
                r == Err(InvalidTransition(old(state), Anonymous))
    {
      AnonymousTransition(pattern, target, state);
      r := Fire(Event(Anonymous, [Clause(pattern, target)]));
    }
  }
}
