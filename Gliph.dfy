/** Gliph\Gliph: the static, visitor-driven depth-first traversal over the
    legacy Gliph\DirectedAdjacencyGraph. The traversal only reads the graph
    (a store value here) and reports every hook call as an event; what a
    visitor makes of them is RunVisitor of those events. */
module Gliph {
  import opened Common
  import opened AdjacencyStore
  import opened Visitors
  import opened DfsSpec
  import opened StoreScans
  import DepthFirstSearch

  /** find_sources: collect the heads of the arcs eachEdge yields, then
      give every vertex, in order, one onInitializeVertex, flagged TRUE and
      pushed on the queue exactly when it is the head of no arc. */
  method FindSources<V(==)>(g: Store<V>) returns (queue: seq<V>, events: seq<Event<V>>)
    requires Valid(g)
    ensures queue == Sources(g)
    ensures events == InitEvents(g)
  {
    var edges := CollectArcs(g);
    var incomings := DepthFirstSearch.Incomings(edges);
    DepthFirstSearch.HeadsAreNotSources(g);
    queue, events := PrimeQueue(g, incomings);
  }

  /** The eachVertex pass of find_sources, given the heads of g's arcs. */
  method PrimeQueue<V(==)>(g: Store<V>, incomings: map<V, seq<V>>) returns (queue: seq<V>, events: seq<Event<V>>)
    requires Keyed(g)
    requires forall v {:trigger IsSource(g, v)} :: v in g.order ==> (v in incomings <==> !IsSource(g, v))
    ensures queue == Sources(g)
    ensures events == Inits(g.order, g)
  {
    queue := [];
    events := [];
    var i := 0;
    while i < |g.order|
      invariant 0 <= i <= |g.order|
      invariant queue == SourcesAmong(g.order[..i], g)
      invariant events == Inits(g.order[..i], g)
    {
      var v := g.order[i];
      TakeNext(g.order, i);
      DepthFirstSearch.SourcesStep(g.order[..i], v, g);
      queue, events := PrimeOne(g, incomings, v, queue, events);
      i := i + 1;
    }
    assert g.order[..i] == g.order;
  }

  /** The eachVertex callback of find_sources for one vertex v. */
  method PrimeOne<V(==)>(g: Store<V>, incomings: map<V, seq<V>>, v: V, queue: seq<V>, events: seq<Event<V>>)
    returns (queue': seq<V>, events': seq<Event<V>>)
    requires v in incomings <==> !IsSource(g, v)
    ensures queue' == queue + (if IsSource(g, v) then [v] else [])
    ensures events' == events + [Init(v, IsSource(g, v))]
  {
    var source := v !in incomings;
    queue' := if source then queue + [v] else queue;
    events' := events + [Init(v, source)];
  }

  /** The onExamineEdge events for the vertices hs adjacent to v. */
  function Examines<V>(v: V, hs: seq<V>): seq<Event<V>> {
    seq(|hs|, i requires 0 <= i < |hs| => Examine(v, hs[i]))
  }

  /** One expansion of v by the closure $visit: onStartVertex, an
      onExamineEdge for each vertex eachAdjacent yields, onFinishVertex.
      eachAdjacent throws for a vertex the graph lacks. */
  function Expansion<V>(g: Store<V>, v: V): (seq<Event<V>>, Outcome) {
    match Adjacent(g, v)
    case Err(e) => ([Start(v)], Fail(e))
    case Ok(hs) => ([Start(v)] + Examines(v, hs) + [Finish(v)], Done)
  }

  /** The part of $visit that attaches v to visiting, runs the hooks and
      the eachAdjacent loop, and detaches v again. The code itself does not
      recurse: only a hook could, by calling the $visit it is handed, and
      the hooks here record their event and return. */
  method Expand<V(==)>(g: Store<V>, v: V, visiting: seq<V>) returns (visiting': seq<V>, es: seq<Event<V>>, outcome: Outcome)
    requires v !in visiting
    ensures (es, outcome) == Expansion(g, v)
    ensures visiting' == if outcome == Done then visiting else visiting + [v]
  {
    visiting' := Attach(visiting, v);
    es := [Start(v)];
    if v !in g.adj {
      return visiting', es, Fail(UnexpectedValue);
    }
    var hs := g.adj[v];
    var i := 0;
    while i < |hs|
      invariant 0 <= i <= |hs|
      invariant es == [Start(v)] + Examines(v, hs[..i])
    {
      assert Examines(v, hs[..i + 1]) == Examines(v, hs[..i]) + [Examine(v, hs[i])];
      es := es + [Examine(v, hs[i])];
      i := i + 1;
    }
    assert hs[..i] == hs;
    es := es + [Finish(v)];
    DetachLast(visiting, v);
    visiting' := Detach(visiting', v);
    outcome := Done;
  }

  /** $visit as written: onBackEdge for a vertex in visiting; the expansion
      only for a vertex that is already in visited; nothing otherwise. */
  method VisitAsWritten<V(==)>(g: Store<V>, v: V, visiting: seq<V>, visited: seq<V>)
    returns (visiting': seq<V>, visited': seq<V>, es: seq<Event<V>>, outcome: Outcome)
    ensures visited' == visited
    ensures v in visiting ==> visiting' == visiting && es == [Back(v)] && outcome == Done
    ensures v !in visiting && v !in visited ==> visiting' == visiting && es == [] && outcome == Done
    ensures v !in visiting && v in visited ==>
      (es, outcome) == Expansion(g, v) && visiting' == if outcome == Done then visiting else visiting + [v]
  {
    visited' := visited;
    if v in visiting {
      return visiting, visited', [Back(v)], Done;
    } else if v in visited {
      visiting', es, outcome := Expand(g, v, visiting);
      visited' := Attach(visited, v);
    } else {
      return visiting, visited', [], Done;
    }
  }

  /** depth_first_traverse as written. With no queue, find_sources runs for
      its hooks but its queue is dropped, and the first isEmpty() on NULL is
      fatal. With a queue, every vertex is shifted and passed to $visit, but
      visited starts empty and only the expansion adds to it, so no hook is
      ever called. */
  method DepthFirstTraverseAsWritten<V(==)>(g: Store<V>, queue: Option<seq<V>>)
    returns (events: seq<Event<V>>, outcome: Outcome)
    requires Valid(g)
    ensures queue.None? ==> events == InitEvents(g) && outcome == Fail(NullQueue)
    ensures queue.Some? ==> events == [] && outcome == Done
  {
    if queue.None? {
      var _, inits := FindSources(g);
      return inits, Fail(NullQueue);
    }
    var q := queue.value;
    var visiting: seq<V> := [];
    var visited: seq<V> := [];
    events, outcome := [], Done;
    while q != []
      invariant visiting == [] && visited == [] && events == [] && outcome == Done
    {
      var v := q[0];
      q := q[1..];
      var es;
      visiting, visited, es, outcome := VisitAsWritten(g, v, visiting, visited);
      events := events + es;
    }
  }

  // ---------------------------------------------------------------------
  // The traversal as evidently intended: the expansion for a vertex NOT in
  // visited, and the queue find_sources returns when none is supplied.

  /** $visit with the negation: a vertex not yet visited is expanded and
      then attached to visited. */
  method Visit<V(==)>(g: Store<V>, v: V, visiting: seq<V>, visited: seq<V>)
    returns (visiting': seq<V>, visited': seq<V>, es: seq<Event<V>>, outcome: Outcome)
    ensures v in visiting ==> visiting' == visiting && visited' == visited && es == [Back(v)] && outcome == Done
    ensures v !in visiting && v in visited ==> visiting' == visiting && visited' == visited && es == [] && outcome == Done
    ensures v !in visiting && v !in visited ==>
      && (es, outcome) == Expansion(g, v)
      && visiting' == (if outcome == Done then visiting else visiting + [v])
      && visited' == (if outcome == Done then visited + [v] else visited)
  {
    if v in visiting {
      return visiting, visited, [Back(v)], Done;
    } else if v !in visited {
      visiting', es, outcome := Expand(g, v, visiting);
      visited' := if outcome == Done then Attach(visited, v) else visited;
    } else {
      return visiting, visited, [], Done;
    }
  }

  /** The queue loop with the fixed $visit, from an empty visiting list:
      each vertex not yet visited is expanded once, in queue order, until
      an expansion throws. */
  function Shallow<V(==)>(g: Store<V>, visited: seq<V>, queue: seq<V>): (seq<Event<V>>, Outcome)
    decreases |queue|
  {
    if queue == [] then ([], Done)
    else if queue[0] in visited then Shallow(g, visited, queue[1..])
    else
      var (es, o) := Expansion(g, queue[0]);
      if o.Fail? then (es, o)
      else
        var (rest, o') := Shallow(g, visited + [queue[0]], queue[1..]);
        (es + rest, o')
  }

  /** depth_first_traverse with both fixes: the events findSources reports
      (when no queue is supplied), then those of the queue loop, and the
      exception that ended it, if any. */
  method DepthFirstTraverse<V(==)>(g: Store<V>, queue: Option<seq<V>>)
    returns (events: seq<Event<V>>, outcome: Outcome)
    requires Valid(g)
    ensures queue.None? ==>
      events == InitEvents(g) + Shallow(g, [], Sources(g)).0 && outcome == Shallow(g, [], Sources(g)).1
    ensures queue.Some? ==> (events, outcome) == Shallow(g, [], queue.value)
  {
    var q: seq<V>;
    var inits: seq<Event<V>> := [];
    if queue.None? {
      q, inits := FindSources(g);
    } else {
      q := queue.value;
    }
    var rest;
    rest, outcome := Drain(g, q);
    events := inits + rest;
    assert queue.Some? ==> events == rest;
  }

  /** The while loop of the fixed traversal, from empty visiting and
      visited lists. */
  method Drain<V(==)>(g: Store<V>, queue: seq<V>) returns (events: seq<Event<V>>, outcome: Outcome)
    ensures (events, outcome) == Shallow(g, [], queue)
  {
    var q := queue;
    var visiting: seq<V> := [];
    var visited: seq<V> := [];
    events, outcome := [], Done;
    assert [] + Shallow(g, [], queue).0 == Shallow(g, [], queue).0;
    while q != [] && outcome == Done
      invariant outcome == Done ==>
        && visiting == []
        && (events + Shallow(g, visited, q).0, Shallow(g, visited, q).1) == Shallow(g, [], queue)
      invariant outcome.Fail? ==> (events, outcome) == Shallow(g, [], queue)
      decreases |q|
    {
      var v := q[0];
      ghost var q0, before, visited0 := q, events, visited;
      q := q[1..];
      var es;
      visiting, visited, es, outcome := Visit(g, v, visiting, visited);
      events := events + es;
      if v in visited0 {
        assert events == before;
      } else if outcome == Done {
        var rest := Shallow(g, visited, q);
        assert Shallow(g, visited0, q0) == (es + rest.0, rest.1);
        AppendAssoc(before, es, rest.0);
      } else {
        assert Shallow(g, visited0, q0) == (es, outcome);
      }
    }
    if outcome == Done {
      assert q == [] && events + [] == events;
    }
  }

  // ---------------------------------------------------------------------
  // What the fixed traversal does

  /** The expansions of the vertices of q, one after the other. */
  function Expansions<V>(g: Store<V>, q: seq<V>): seq<Event<V>>
    requires forall v :: v in q ==> v in g.adj
  {
    if q == [] then [] else Expansion(g, q[0]).0 + Expansions(g, q[1..])
  }

  /** A queue of distinct vertices of the graph, none visited yet, is
      expanded vertex by vertex in FIFO order, and nothing throws. */
  lemma {:induction false} ShallowFresh<V>(g: Store<V>, visited: seq<V>, q: seq<V>)
    requires forall v :: v in q ==> v in g.adj && v !in visited
    requires NoDup(q)
    ensures Shallow(g, visited, q) == (Expansions(g, q), Done)
    decreases |q|
  {
    if q != [] {
      forall v | v in q[1..] ensures v in g.adj && v !in visited + [q[0]] {
        var k :| 0 <= k < |q[1..]| && q[1..][k] == v;
        assert q[k + 1] == v && q[0] != q[k + 1];
      }
      assert NoDup(q[1..]) by {
        forall i, j | 0 <= i < j < |q[1..]| ensures q[1..][i] != q[1..][j] {
          assert q[1..][i] == q[i + 1] && q[1..][j] == q[j + 1];
        }
      }
      ShallowFresh(g, visited + [q[0]], q[1..]);
    }
  }

  /** No expansion reports a back edge. */
  lemma {:induction false} ExpansionsNoBackEdge<V>(g: Store<V>, q: seq<V>)
    requires forall v :: v in q ==> v in g.adj
    ensures !HasBackEdge(Expansions(g, q))
    decreases |q|
  {
    if q != [] {
      var head: seq<Event<V>> := Expansion(g, q[0]).0;
      var tail: seq<Event<V>> := Expansions(g, q[1..]);
      ExpansionsNoBackEdge(g, q[1..]);
      forall i | 0 <= i < |head + tail| ensures !(head + tail)[i].Back? {
        if i >= |head| {
          assert (head + tail)[i] == tail[i - |head|];
        }
      }
    }
  }

  /** With no queue supplied, the fixed traversal reports the init events
      and then expands every source exactly once, in vertex order; it never
      throws and never reports a back edge, so even the toposort visitor
      completes. */
  lemma TraverseFromSources<V>(g: Store<V>)
    requires Valid(g)
    ensures Shallow(g, [], Sources(g)) == (Expansions(g, Sources(g)), Done)
    ensures !HasBackEdge(Expansions(g, Sources(g)))
  {
    SourcesAreSources(g);
    ShallowFresh(g, [], Sources(g));
    ExpansionsNoBackEdge(g, Sources(g));
  }

  /** The missing negation in a concrete case: with a supplied queue whose
      first vertex is in the graph, the fixed traversal starts that vertex
      first, while the traversal as written reports nothing at all. */
  lemma FirstQueuedStarts<V>(g: Store<V>, q: seq<V>)
    requires q != [] && q[0] in g.adj
    ensures Shallow(g, [], q).0 != [] && Shallow(g, [], q).0[0] == Start(q[0])
  {
  }
}
