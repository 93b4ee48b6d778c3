# s2n-quic state-machine evaluator and `CliRange`, modelled in Dafny

This project models two pieces of s2n-quic.

**The state-machine macros** (`quic/s2n-quic-core/src/state.rs`). Protocol
objects (connections, streams, handshake phases) declare their lifecycle as a
table of events. Each event is an ordered list of clauses
`A | B => T`. The `event!` macro turns each event into a method on the state
enum. The method tries the clauses in order. On the first clause whose
pattern matches, it overwrites the state with that clause's target and
returns `Ok(())`. If no clause matches, it returns `NoOp { current }` when
the event has exactly one clause and the state already equals its target.
Otherwise it returns `InvalidTransition { current, event }`. The anonymous
`transition!(state, p => t)` form is a one-clause event named `_`. The `is!`
macro builds guard predicates. Two offline queries read the same table:
`test_transitions` runs every event on every state, and `dot` renders the
table as a graph.

The model is a generic interpreter. The table is data: `State.Clause`
(an or-pattern as a list of variants, plus a target) and `State.Event`
(a name plus clauses). `State.Build` follows the `@build` macro arms one by
one, including the `targets` accumulator. `State.Apply` gives the outcome as
`Result<S, Error<S>>`, which is the same value `test_transitions` records.
`State.Machine` holds the mutable state. Its `Fire` method is the generated
event method, written as a loop over the clauses, and it is proved against
`Apply`. The laws of an event call are lemmas about `Apply`:

- first match wins;
- errors leave the state unchanged;
- the single-clause no-op law;
- multi-clause ambiguity;
- the anonymous form;
- guards.

`Introspect` models `test_transitions` and `dot`. Their in-place sort and
de-duplication live in `Slice`, with `Lexicographic` giving the order Rust
uses on `str`.

**`CliRange`** (`quic/s2n-quic-mc/src/run/range.rs`). This is a command-line
value of the form `"a..b"` or `"a"`. `Range.FromStr` splits the text at the
first `..` and parses each part with a caller-supplied element parser.
`Range.Gen` and `Range.GenDuration` draw a value: exactly `start` when both
ends are equal, a value in `[start, end)` when `start < end`, and a panic
when `start > end`. `Range.GenDuration` returns the nanosecond count cast to
`u64` (`Range.AsU64`), so it equals `start`, or lies in `[start, end)`, only
for counts below 2^64. The random draw is a nondeterministic choice.

`Scenarios` applies the laws to a small lifecycle table.

A one-clause event whose pattern misses the state, called on its own target,
gives `NoOp` rather than `InvalidTransition`: `open: Idle => Open` on `Open`
gives `NoOp(Open)`, because the single collected target equals the state (quic/s2n-quic-core/src/state.rs:50; `Scenarios.OpenOutcomes`).

## Model

| member | source | states |
|---|---|---|
| `State.Matches` | quic/s2n-quic-core/src/state.rs:27 | No contract; it is the definition of `matches!` over a list of variants: the state is one of the listed variants. `State.GuardPredictsEvent` states its law for `is!` guards. |
| `State.Build` | quic/s2n-quic-core/src/state.rs:25-60 | No contract; it is the definition: `Ok(t)` for the first clause whose pattern matches, otherwise `NoOp(targets[0])` when exactly one target was collected and it equals the state, otherwise `InvalidTransition(state, event)`. Its laws are the lemmas below. |
| `State.Apply` | quic/s2n-quic-core/src/state.rs:82-91 | No contract; it is the definition: the outcome of the method `event!` generates is `Build` started with no collected targets. Its laws are `State.FirstMatchWins` through `State.ErrorOutcomes`, and `State.Machine.Fire` is proved equal to it. |
| `State.FirstMatchWins` | quic/s2n-quic-core/src/state.rs:25-44 | If clause `k` is the first whose pattern matches the state, the event's outcome is `Ok` with clause `k`'s target. |
| `State.LaterClausesIgnored` | quic/s2n-quic-core/src/state.rs:25-44 | Once clause `k` matches first, replacing every clause after it leaves the outcome unchanged, so later clauses are never consulted. |
| `State.SucceedsIffMatched` | quic/s2n-quic-core/src/state.rs:25-60 | An event succeeds iff some clause's pattern matches the state. On success, the new state is one of the event's declared targets. |
| `State.SingleTargetNoOp` | quic/s2n-quic-core/src/state.rs:46-59 | For a one-clause event whose pattern misses the state, the outcome is `NoOp(state)` when the state equals the target, and `InvalidTransition(state, name)` otherwise. |
| `State.MultiClauseAmbiguity` | quic/s2n-quic-core/src/state.rs:46-59 | For an event with two or more clauses and no match, the outcome is always `InvalidTransition(state, name)`, even when the state equals a target. |
| `State.ErrorOutcomes` | quic/s2n-quic-core/src/state.rs:46-60 | Every error carries the state the event was called on. An invalid transition carries the event's name. `NoOp` happens iff there is one clause, its pattern misses, and its target equals the state. |
| `State.AnonymousTransition` | quic/s2n-quic-core/src/state.rs:22-24 | `transition!(state, p => t)` gives `Ok(t)` when `p` matches. Otherwise it gives `NoOp` when the state is `t`, and `InvalidTransition` with event `"_"` in every other case. |
| `State.GuardPredictsEvent` | quic/s2n-quic-core/src/state.rs:244-253 | A guard over exactly an event's source variants holds iff that event succeeds from the state. |
| `State.Machine.Fire` | quic/s2n-quic-core/src/state.rs:82-91 | On success, the method returns `Ok(())`, sets the state to `Apply`'s new state and appends one trace record. On either error, it returns that error and leaves both the state and the trace unchanged (atomicity). |
| `State.Machine.Transition` | quic/s2n-quic-core/src/state.rs:22-24 | The anonymous form on a machine: on a match it moves to the target and appends one trace record that names no event, otherwise the state is unchanged and the result is `NoOp(target)` or `InvalidTransition(state, "_")`. |
| `Slice.SortByKey` | quic/s2n-quic-core/src/state.rs:124 | After the call, the array is sorted by key and is a permutation of its old contents. |
| `Slice.PartitionDedup` | quic/s2n-quic-core/src/state.rs:125 | The returned prefix is the input with repeated neighbours dropped. The whole array is a permutation of the input. |
| `Slice.SortDedup` | quic/s2n-quic-core/src/state.rs:211-212 | The result is strictly sorted by key and holds exactly the input's elements. |
| `Slice.StrictlySortedUnique` | quic/s2n-quic-core/src/state.rs:211-212 | Two strictly sorted sequences with the same elements are equal, so the sorted, de-duplicated state list is unique. |
| `Introspect.TableStatesMembership` | quic/s2n-quic-core/src/state.rs:114-122 | The collected list holds a state iff some clause of some event names it as a source or as the target. |
| `Introspect.ApplyAll` | quic/s2n-quic-core/src/state.rs:136-142 | Running each event on a fresh copy of the state records, for every event in order, its name and `Apply`'s outcome. |
| `Introspect.TestTransitions` | quic/s2n-quic-core/src/state.rs:114-161 | The result has one row per state named in the table and every row's state is named in the table. Rows are strictly sorted by name. Each row records every event's outcome, equal to calling the event directly. |
| `Introspect.TransitionTableUnique` | quic/s2n-quic-core/src/state.rs:114-161 | Any two transition tables of the same event table are identical. |
| `Introspect.Dot` | quic/s2n-quic-core/src/state.rs:193-236 | The graph has the given title. Its nodes are strictly sorted and are exactly the names of the table's states. Its edges are `Edges` of the table. |
| `Introspect.EdgeLines` | quic/s2n-quic-core/src/state.rs:218-228 | The edge loop produces one edge per source variant per clause per event, in declaration order. |
| `Introspect.EventEdgeLines` | quic/s2n-quic-core/src/state.rs:219-227 | For one event, the edges follow its clauses in order, and within a clause its source variants in order. |
| `Introspect.EdgesAreDeclared` | quic/s2n-quic-core/src/state.rs:218-228 | An edge `s -> t [label = e]` is in the graph iff some source variant of some clause of event `e` yields it. |
| `Introspect.EdgeEndpointsAreNodes` | quic/s2n-quic-core/src/state.rs:201-228 | Both ends of every edge are node names of the graph. |
| `Introspect.DotUnique` | quic/s2n-quic-core/src/state.rs:193-236 | Any two renderings of the same table are identical. |
| `Range.FirstSeparator` | quic/s2n-quic-mc/src/run/range.rs:41 | Returns the index of the first `..`, and `None` exactly when the text has no `..`. |
| `Range.SplitOnce` | quic/s2n-quic-mc/src/run/range.rs:41 | Returns `None` iff there is no `..`. Otherwise it returns the text before and after the first `..`. |
| `Range.FromStr` | quic/s2n-quic-mc/src/run/range.rs:40-50 | Without a separator, a successful parse has `start == end`. |
| `Range.FromStrWithSeparator` | quic/s2n-quic-mc/src/run/range.rs:41-44 | Cut at the first `..`, `start` comes from the prefix and `end` from the suffix. The prefix's parse error is returned first, then the suffix's. |
| `Range.FromStrWithoutSeparator` | quic/s2n-quic-mc/src/run/range.rs:45-49 | Without `..`, the whole text is parsed once. The result is its error, or a range with both ends equal to its value. |
| `Range.JoinThenParse` | quic/s2n-quic-mc/src/run/range.rs:40-50 | For `a + ".." + b`, where `a` has no `..` and does not end in `.`, parsing gives back the range from `a`'s value to `b`'s value. |
| `Range.Gen` | quic/s2n-quic-mc/src/run/range.rs:14-20 | Returns exactly `start` when `start == end`, a value in `[start, end)` when `start < end`, and a panic on an empty range. |
| `Range.AsU64` | quic/s2n-quic-mc/src/run/range.rs:29-33 | The `as u64` cast: the result is below 2^64, and it is unchanged for counts already below 2^64. |
| `Range.GenDuration` | quic/s2n-quic-mc/src/run/range.rs:24-34 | Returns exactly `start` nanoseconds, cast to `u64`, when the ends are equal. Otherwise it returns the cast of some count in `[start, end)`, which lies in `[start, end)` when `end <= 2^64`. On an empty range it panics. |
| `Scenarios.OpenOutcomes` | quic/s2n-quic-core/src/state.rs:46-59 | For a one-clause `open: Idle => Open`: `Idle` succeeds, `Open` is a no-op and `Closed` is invalid. |
| `Scenarios.CloseFromClosedIsInvalid` | quic/s2n-quic-core/src/state.rs:53-58 | A two-clause `close` called on `Closed` is invalid, even though `Closed` is one of its targets. |
| `Scenarios.FinishFromClosedIsNoOp` | quic/s2n-quic-core/src/state.rs:47-52 | A one-clause event already at its target is a no-op. |
| `Scenarios.OpenIdleMachine` | quic/s2n-quic-core/src/state.rs:25-36 | Firing `open` on an `Idle` machine moves it to `Open` and emits exactly one trace record naming `open`. |

## Left out

- Tracing: the `_debug!` sink, the `state-tracing` feature switch and `Location::caller()` are left out. `Machine.trace` is a ghost list of the records a sink would receive, without the call site.
- Text formats: the exact `Display` text of `Error`, the `Debug` map text of the transition table and the `writeln!` text of the graph are left out. The model keeps their structure: `Row` for the table and `Digraph` with `DotEdge` for the graph. A failed `writeln!` on the formatter is not modelled.
- Lazy formatting: `test_transitions` in the code returns a value whose `Debug` formatting runs the events; the model computes the rows eagerly.
- `type_name::<Self>()`: the graph's title is a parameter.
- Code generation: one generic interpreter replaces the per-event methods the macros generate. Event and variant names (`stringify!`) are strings. The name of each state comes from a caller-supplied `name` function.
- `State.AnonymousTransition`: the anonymous form's pattern (any Rust pattern, such as `_`, `Variant { .. }` or one that binds fields) is modelled as a finite list of state values, so a pattern that matches infinitely many values of a data-carrying variant is not expressible; the same holds for `State.Machine.Transition`. The `event!` form only takes unit-like variant names and is modelled exactly.
- Zero-clause events: the macros reject them when compiling. The interpreter gives such an event `InvalidTransition`.
- `Introspect.TestTransitions`: requires that no two distinct states share a name, which Rust guarantees because enum variants have distinct identifiers. The state type is also restricted to plain values.
- `Slice.SortByKey`: modelled as an insertion sort. The contract says only "sorted and a permutation", which is all an unstable sort promises.
- `Slice.PartitionDedup`: the crate's `slice::partition_dedup` is not part of this model. It is modelled by the usual swap-forward algorithm and specified as "the input with repeated neighbours dropped, in a permutation of the array".
- `CliRange<f64>` and every floating-point sampling are left out. Elements are integers, and durations are nanosecond counts.
- Element parsing: the element type's `FromStr` (integers, `humantime::Duration`) is a parameter of `FromStr`, together with its error type.
- Randomness: the random-number module the samplers call is not part of this model. Its draw is a nondeterministic choice from `[start, end)`, and its behaviour on an empty range is taken to be the `rand` crate's panic.
- `Range.GenDuration`: does not bound the `u128` count `as_nanos` returns; counts are unbounded naturals.
- Other files: `packet/interceptor.rs`, `run/events.rs`, `run.rs`, `main.rs` and the I/O and binding files around them are not part of this model. They are forwarding, telemetry, simulation drivers, network, serialization or foreign code.
