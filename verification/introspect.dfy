/**
 * The two offline queries `event!` generates beside the event methods:
 * `test_transitions`, which runs every event on every state named in the
 * table, and `dot`, which renders the table as a directed graph. Both read
 * only the static table.
 */
module Introspect {
  import opened Wrappers
  import opened Lexicographic
  import opened Slice
  import opened State

  // ----- the states a table names -----

  /** The states one clause names: its source variants, then its target. */
  function ClauseStates<S>(c: Clause<S>): seq<S> {
    c.sources + [c.target]
  }

  /** The states the clauses name, in declaration order. */
  function ClausesStates<S>(clauses: seq<Clause<S>>): seq<S> {
    if clauses == [] then [] else ClauseStates(clauses[0]) + ClausesStates(clauses[1..])
  }

  /** The states the whole table names, in declaration order, repeats included. */
  function TableStates<S>(events: seq<Event<S>>): seq<S> {
    if events == [] then [] else ClausesStates(events[0].clauses) + TableStates(events[1..])
  }

  /** `v` is a source or the target of some clause of some event. */
  ghost predicate NamedInTable<S>(events: seq<Event<S>>, v: S) {
    exists i, k :: 0 <= i < |events| && 0 <= k < |events[i].clauses| && v in ClauseStates(events[i].clauses[k])
  }

  /** The names (`stringify!`) of `states`, in the same order. */
  function Names<S>(states: seq<S>, name: S -> string): seq<string> {
    seq(|states|, k requires 0 <= k < |states| => name(states[k]))
  }

  lemma {:induction false} ClausesStatesMembership<S>(clauses: seq<Clause<S>>, v: S)
    ensures v in ClausesStates(clauses) <==> exists k :: 0 <= k < |clauses| && v in ClauseStates(clauses[k])
    decreases |clauses|
  {
    if clauses != [] {
      ClausesStatesMembership(clauses[1..], v);
      if v in ClausesStates(clauses[1..]) {
        var k :| 0 <= k < |clauses[1..]| && v in ClauseStates(clauses[1..][k]);
        assert clauses[k + 1] == clauses[1..][k];
      }
      if exists k :: 0 <= k < |clauses| && v in ClauseStates(clauses[k]) {
        var k :| 0 <= k < |clauses| && v in ClauseStates(clauses[k]);
        if k > 0 {
          assert clauses[1..][k - 1] == clauses[k];
        }
      }
    }
  }

  /** The collected states are exactly those some clause names. */
  lemma {:induction false} TableStatesMembership<S>(events: seq<Event<S>>, v: S)
    ensures v in TableStates(events) <==> NamedInTable(events, v)
    decreases |events|
  {
    if events != [] {
      TableStatesMembership(events[1..], v);
      ClausesStatesMembership(events[0].clauses, v);
      if NamedInTable(events[1..], v) {
        var i, k :| 0 <= i < |events[1..]| && 0 <= k < |events[1..][i].clauses|
                    && v in ClauseStates(events[1..][i].clauses[k]);
        assert events[i + 1] == events[1..][i];
      }
      if NamedInTable(events, v) {
        var i, k :| 0 <= i < |events| && 0 <= k < |events[i].clauses| && v in ClauseStates(events[i].clauses[k]);
        if i > 0 {
          assert events[1..][i - 1] == events[i];
        }
      }
    }
  }

  // ----- test_transitions -----

  /** One entry of the transition table: a state, its name and the outcome of every event on it. */
  datatype Row<S> = Row(name: string, state: S, outcomes: seq<(string, Result<S, Error<S>>)>)

  /** For every event in order, its name and what calling it on `state` gives. */
  function Outcomes<S(==)>(events: seq<Event<S>>, state: S): seq<(string, Result<S, Error<S>>)> {
    seq(|events|, j requires 0 <= j < |events| => (events[j].name, Apply(events[j], state)))
  }

  /** No two distinct states of the table share a name (enum variants have distinct identifiers). */
  ghost predicate NamesDistinct<S>(events: seq<Event<S>>, name: S -> string) {
    forall v, w :: v in TableStates(events) && w in TableStates(events) && name(v) == name(w) ==> v == w
  }

  /**
   * What `test_transitions` produces: one row per state named in the table,
   * strictly sorted by name, each row recording, for every event in order,
   * what the event method does to a copy of that state.
   */
  ghost predicate IsTransitionTable<S>(rows: seq<Row<S>>, events: seq<Event<S>>, name: S -> string) {
    && (forall i :: 0 < i < |rows| ==> Less(rows[i - 1].name, rows[i].name))
    && (forall i :: 0 <= i < |rows| ==> rows[i].name == name(rows[i].state))
    && (forall v :: v in TableStates(events) ==> exists i :: 0 <= i < |rows| && rows[i].state == v)
    && (forall i :: 0 <= i < |rows| ==> rows[i].state in TableStates(events))
    && (forall i :: 0 <= i < |rows| ==> rows[i].outcomes == Outcomes(events, rows[i].state))
  }

  /**
   * The `apply` closure of `test_transitions`: runs every event on its own
   * copy of `state` and records the copy's new value or the error.
   */
  method ApplyAll<S(==)>(events: seq<Event<S>>, state: S) returns (outcomes: seq<(string, Result<S, Error<S>>)>)
    ensures outcomes == Outcomes(events, state)
  {
    outcomes := [];
    var j := 0;
    while j < |events|
      invariant 0 <= j <= |events|
      invariant outcomes == Outcomes(events[..j], state)
    {
      var copy := new Machine(state);
      var r := copy.Fire(events[j]);
      var outcome := if r.Ok? then Ok(copy.state) else Err(r.error);
      outcomes := outcomes + [(events[j].name, outcome)];
      j := j + 1;
    }
    assert events[..j] == events;
  }

  /**
   * `test_transitions`: collects `(name, state)` for every source and target
   * in the table, sorts by name, drops repeats, and applies every event to
   * every remaining state.
   */
  method TestTransitions<S(==, !new)>(events: seq<Event<S>>, name: S -> string) returns (rows: seq<Row<S>>)
    requires NamesDistinct(events, name)
    ensures IsTransitionTable(rows, events, name)
  {
    var all := TableStates(events);
    var pairs := seq(|all|, k requires 0 <= k < |all| => (name(all[k]), all[k]));
    assert forall p :: p in pairs ==> p.0 == name(p.1) && p.1 in all;
    var states := SortDedup(pairs, (p: (string, S)) => p.0);
    rows := [];
    var i := 0;
    while i < |states|
      invariant 0 <= i <= |states|
      invariant |rows| == i
      invariant forall r :: 0 <= r < i ==> rows[r] == Row(states[r].0, states[r].1, Outcomes(events, states[r].1))
    {
      var outcomes := ApplyAll(events, states[i].1);
      rows := rows + [Row(states[i].0, states[i].1, outcomes)];
      i := i + 1;
    }
    forall r | 0 <= r < |rows|
      ensures rows[r].name == name(rows[r].state) && rows[r].state in all
    {
      assert states[r] in pairs;
    }
    forall v | v in all
      ensures exists r :: 0 <= r < |rows| && rows[r].state == v
    {
      var k :| 0 <= k < |all| && all[k] == v;
      assert pairs[k] == (name(v), v) && pairs[k] in pairs;
      assert (name(v), v) in pairs;
      assert (name(v), v) in states;
      var r :| 0 <= r < |states| && states[r] == (name(v), v);
      assert rows[r].state == v;
    }
  }

  /**
   * The transition table is determined by the event table: any two results
   * of `test_transitions` are identical.
   */
  lemma TransitionTableUnique<S>(rows1: seq<Row<S>>, rows2: seq<Row<S>>, events: seq<Event<S>>, name: S -> string)
    requires IsTransitionTable(rows1, events, name) && IsTransitionTable(rows2, events, name)
    ensures rows1 == rows2
  {
    var key := (r: Row<S>) => r.name;
    assert StrictlySortedBy(rows1, key) && StrictlySortedBy(rows2, key);
    forall x
      ensures x in rows1 <==> x in rows2
    {
      if x in rows1 {
        var i :| 0 <= i < |rows1| && rows1[i] == x;
        assert x.state in TableStates(events);
        var j :| 0 <= j < |rows2| && rows2[j].state == x.state;
        assert rows2[j] == x;
      }
      if x in rows2 {
        var j :| 0 <= j < |rows2| && rows2[j] == x;
        assert x.state in TableStates(events);
        var i :| 0 <= i < |rows1| && rows1[i].state == x.state;
        assert rows1[i] == x;
      }
    }
    StrictlySortedUnique(rows1, rows2, key);
  }

  // ----- dot -----

  /** One line `source -> target [label = event]` of the graph. */
  datatype DotEdge = DotEdge(source: string, target: string, event: string)

  /** The graph `dot` renders: its label, its node lines and its edge lines, in output order. */
  datatype Digraph = Digraph(title: string, nodes: seq<string>, edges: seq<DotEdge>)

  /** One edge per source variant of clause `c`, in the order the pattern lists them. */
  function ClauseEdges<S>(c: Clause<S>, event: string, name: S -> string): seq<DotEdge> {
    seq(|c.sources|, m requires 0 <= m < |c.sources| => DotEdge(name(c.sources[m]), name(c.target), event))
  }

  /** The edges of the clauses of one event, clause by clause. */
  function ClausesEdges<S>(clauses: seq<Clause<S>>, event: string, name: S -> string): seq<DotEdge>
    decreases |clauses|
  {
    if clauses == [] then []
    else ClausesEdges(clauses[..|clauses| - 1], event, name) + ClauseEdges(clauses[|clauses| - 1], event, name)
  }

  /** The edges of the whole table, event by event, in declaration order. */
  function Edges<S>(events: seq<Event<S>>, name: S -> string): seq<DotEdge>
    decreases |events|
  {
    if events == [] then []
    else
      var e := events[|events| - 1];
      Edges(events[..|events| - 1], name) + ClausesEdges(e.clauses, e.name, name)
  }

  /**
   * What `dot` renders for a table: the given label, one node per distinct
   * state name in strictly increasing order, then every edge in declaration
   * order.
   */
  ghost predicate IsDotOf<S>(d: Digraph, title: string, events: seq<Event<S>>, name: S -> string) {
    && d.title == title
    && (forall k :: 0 < k < |d.nodes| ==> Less(d.nodes[k - 1], d.nodes[k]))
    && (forall x :: x in d.nodes <==> x in Names(TableStates(events), name))
    && d.edges == Edges(events, name)
  }

  /**
   * `dot`: sorts and de-duplicates the names of all sources and targets, then
   * writes one edge per source variant per clause per event. `title` stands
   * for the type name the graph is titled with.
   */
  method Dot<S>(title: string, events: seq<Event<S>>, name: S -> string) returns (d: Digraph)
    ensures IsDotOf(d, title, events, name)
  {
    var nodes := SortDedup(Names(TableStates(events), name), (x: string) => x);
    var edges := EdgeLines(events, name);
    d := Digraph(title, nodes, edges);
  }

  /** The edge lines of `dot`: one per source variant per clause per event, in declaration order. */
  method EdgeLines<S>(events: seq<Event<S>>, name: S -> string) returns (edges: seq<DotEdge>)
    ensures edges == Edges(events, name)
  {
    edges := [];
    var i := 0;
    while i < |events|
      invariant 0 <= i <= |events|
      invariant edges == Edges(events[..i], name)
    {
      var e := events[i];
      var more := EventEdgeLines(e.clauses, e.name, name);
      edges := edges + more;
      assert events[..i + 1][..i] == events[..i];
      i := i + 1;
    }
    assert events[..i] == events;
  }

  /** The edge lines of one event, clause by clause and source by source. */
  method EventEdgeLines<S>(clauses: seq<Clause<S>>, event: string, name: S -> string) returns (edges: seq<DotEdge>)
    ensures edges == ClausesEdges(clauses, event, name)
  {
    edges := [];
    var k := 0;
    while k < |clauses|
      invariant 0 <= k <= |clauses|
      invariant edges == ClausesEdges(clauses[..k], event, name)
    {
      var c := clauses[k];
      ghost var before := edges;
      var m := 0;
      while m < |c.sources|
        invariant 0 <= m <= |c.sources|
        invariant edges == before + ClauseEdges(c, event, name)[..m]
      {
        edges := edges + [DotEdge(name(c.sources[m]), name(c.target), event)];
        m := m + 1;
      }
      assert ClauseEdges(c, event, name)[..m] == ClauseEdges(c, event, name);
      assert clauses[..k + 1][..k] == clauses[..k];
      k := k + 1;
    }
    assert clauses[..k] == clauses;
  }

  /** `dot` is a function of the table: any two renderings are identical. */
  lemma DotUnique<S>(d1: Digraph, d2: Digraph, title: string, events: seq<Event<S>>, name: S -> string)
    requires IsDotOf(d1, title, events, name) && IsDotOf(d2, title, events, name)
    ensures d1 == d2
  {
    var key := (x: string) => x;
    assert StrictlySortedBy(d1.nodes, key) && StrictlySortedBy(d2.nodes, key);
    StrictlySortedUnique(d1.nodes, d2.nodes, key);
  }

  /** Source variant `m` of clause `k` of `clauses` (of the event named `event`) gives the edge `d`. */
  ghost predicate ClauseYields<S>(clauses: seq<Clause<S>>, event: string, name: S -> string, d: DotEdge, k: int, m: int) {
    && 0 <= k < |clauses|
    && 0 <= m < |clauses[k].sources|
    && d == DotEdge(name(clauses[k].sources[m]), name(clauses[k].target), event)
  }

  /** Source variant `m` of clause `k` of event `i` gives the edge `d`. */
  ghost predicate DeclaresEdge<S>(events: seq<Event<S>>, name: S -> string, d: DotEdge, i: int, k: int, m: int) {
    0 <= i < |events| && ClauseYields(events[i].clauses, events[i].name, name, d, k, m)
  }

  lemma {:induction false} ClausesEdgesSound<S>(clauses: seq<Clause<S>>, event: string, name: S -> string, d: DotEdge)
    requires d in ClausesEdges(clauses, event, name)
    ensures exists k, m :: ClauseYields(clauses, event, name, d, k, m)
    decreases |clauses|
  {
    var n := |clauses| - 1;
    var prefix := clauses[..n];
    var own := ClauseEdges(clauses[n], event, name);
    if d in own {
      var m :| 0 <= m < |own| && own[m] == d;
      assert ClauseYields(clauses, event, name, d, n, m);
    } else {
      ClausesEdgesSound(prefix, event, name, d);
      var k, m :| ClauseYields(prefix, event, name, d, k, m);
      assert prefix[k] == clauses[k];
      assert ClauseYields(clauses, event, name, d, k, m);
    }
  }

  lemma {:induction false} ClausesEdgesComplete<S>(clauses: seq<Clause<S>>, event: string, name: S -> string, d: DotEdge, k: nat, m: nat)
    requires ClauseYields(clauses, event, name, d, k, m)
    ensures d in ClausesEdges(clauses, event, name)
    decreases |clauses|
  {
    var n := |clauses| - 1;
    var prefix := clauses[..n];
    if k < n {
      assert prefix[k] == clauses[k];
      ClausesEdgesComplete(prefix, event, name, d, k, m);
    } else {
      assert ClauseEdges(clauses[n], event, name)[m] == d;
    }
  }

  /** Every edge of the graph comes from a source variant of a clause of an event. */
  lemma {:induction false} EdgesSound<S>(events: seq<Event<S>>, name: S -> string, d: DotEdge)
    requires d in Edges(events, name)
    ensures exists i, k, m :: DeclaresEdge(events, name, d, i, k, m)
    decreases |events|
  {
    var n := |events| - 1;
    var prefix := events[..n];
    var e := events[n];
    if d in ClausesEdges(e.clauses, e.name, name) {
      ClausesEdgesSound(e.clauses, e.name, name, d);
      var k, m :| ClauseYields(e.clauses, e.name, name, d, k, m);
      assert DeclaresEdge(events, name, d, n, k, m);
    } else {
      EdgesSound(prefix, name, d);
      var i, k, m :| DeclaresEdge(prefix, name, d, i, k, m);
      assert prefix[i] == events[i];
      assert DeclaresEdge(events, name, d, i, k, m);
    }
  }

  /** Every source variant of every clause of every event gives an edge of the graph. */
  lemma {:induction false} EdgesComplete<S>(events: seq<Event<S>>, name: S -> string, d: DotEdge, i: nat, k: nat, m: nat)
    requires DeclaresEdge(events, name, d, i, k, m)
    ensures d in Edges(events, name)
    decreases |events|
  {
    var n := |events| - 1;
    var prefix := events[..n];
    if i < n {
      assert prefix[i] == events[i];
      EdgesComplete(prefix, name, d, i, k, m);
    } else {
      ClausesEdgesComplete(events[n].clauses, events[n].name, name, d, k, m);
    }
  }

  /**
   * The graph's edges are exactly the declared ones: an edge appears iff
   * some source variant of some clause of some event gives it.
   */
  lemma EdgesAreDeclared<S>(events: seq<Event<S>>, name: S -> string, d: DotEdge)
    ensures d in Edges(events, name) <==> exists i, k, m :: DeclaresEdge(events, name, d, i, k, m)
  {
    if d in Edges(events, name) {
      EdgesSound(events, name, d);
    }
    if exists i, k, m :: DeclaresEdge(events, name, d, i, k, m) {
      var i, k, m :| DeclaresEdge(events, name, d, i, k, m);
      EdgesComplete(events, name, d, i, k, m);
    }
  }

  /** Every edge joins two nodes of the graph: its endpoints are names of states the table names. */
  lemma EdgeEndpointsAreNodes<S>(events: seq<Event<S>>, name: S -> string, d: DotEdge)
    requires d in Edges(events, name)
    ensures d.source in Names(TableStates(events), name)
    ensures d.target in Names(TableStates(events), name)
  {
    EdgesSound(events, name, d);
    var i, k, m :| DeclaresEdge(events, name, d, i, k, m);
    var c := events[i].clauses[k];
    assert c.sources[m] in ClauseStates(c) && c.target in ClauseStates(c);
    TableStatesMembership(events, c.sources[m]);
    TableStatesMembership(events, c.target);
    var all := TableStates(events);
    var names := Names(all, name);
    var p :| 0 <= p < |all| && all[p] == c.sources[m];
    var q :| 0 <= q < |all| && all[q] == c.target;
    assert names[p] == d.source && names[q] == d.target;
  }
}
