/** Gliph\Traversal\DepthFirstSearch: an object holding the graph, the
    visiting and visited lists and the registered handlers, whose emit
    delivers an event only to a handler registered for its kind. Each method
    is proved to do what the DfsSpec functions say. */
module DepthFirstSearch {
  import opened Common
  import opened AdjacencyStore
  import opened Visitors
  import opened DfsSpec
  import opened StoreScans

  class DepthFirstSearch<V(==)> {
    const graph: Store<V>
    /** The events that have a handler; setHandler is not modelled, so the
        set is fixed at construction. */
    const handlers: set<Kind>
    var visiting: seq<V>
    var visited: seq<V>
    /** The handler calls made, in order, each with its arguments. */
    var calls: seq<Event<V>>
    /** Every event emitted since the current walk began, delivered or not. */
    ghost var trace: seq<Event<V>>
    /** The handler calls made before the current walk. */
    ghost var before: seq<Event<V>>

    ghost function State(): DState<V>
      reads this
    {
      DState(visiting, visited, trace)
    }

    /** The calls made are the earlier ones and then the delivered part of
        the trace. */
    ghost predicate Delivering()
      reads this
    {
      calls == before + Delivered(trace, handlers)
    }

    constructor (g: Store<V>, hs: set<Kind>)
      ensures graph == g && handlers == hs
      ensures visiting == [] && visited == [] && calls == []
      ensures Delivering()
    {
      graph := g;
      handlers := hs;
      visiting := [];
      visited := [];
      calls := [];
      trace := [];
      before := [];
    }

    /** emit: call the handler of the event's kind with its arguments, or do
        nothing when no handler is registered for it. */
    method Emit(e: Event<V>)
      requires Delivering()
      modifies this
      ensures calls == old(calls) + (if KindOf(e) in handlers then [e] else [])
      ensures trace == old(trace) + [e] && before == old(before)
      ensures visiting == old(visiting) && visited == old(visited)
      ensures Delivering()
    {
      FilterAppend(trace, e => KindOf(e) in handlers, e);
      trace := trace + [e];
      if KindOf(e) in handlers {
        calls := calls + [e];
      }
    }

    /** findSources: record which vertices are heads of an arc of t, then
        emit onInitializeVertex for every vertex in order, flagged TRUE and
        queued exactly when no arc ends at it. */
    method FindSources(t: Store<V>) returns (queue: seq<V>)
      requires Valid(t) && Delivering()
      modifies this
      ensures queue == Sources(t)
      ensures trace == old(trace) + InitEvents(t) && before == old(before)
      ensures visiting == old(visiting) && visited == old(visited)
      ensures Delivering()
    {
      var edges := CollectArcs(t);
      var incomings := Incomings(edges);
      HeadsAreNotSources(t);
      queue := PrimeQueue(t, incomings);
    }

    /** The eachVertex pass of findSources, given the heads of t's arcs. */
    method PrimeQueue(t: Store<V>, incomings: map<V, seq<V>>) returns (queue: seq<V>)
      requires Keyed(t) && Delivering()
      requires forall v {:trigger IsSource(t, v)} :: v in t.order ==> (v in incomings <==> !IsSource(t, v))
      modifies this
      ensures queue == Sources(t)
      ensures trace == old(trace) + InitEvents(t) && before == old(before)
      ensures visiting == old(visiting) && visited == old(visited)
      ensures Delivering()
    {
      ghost var t0 := trace;
      queue := [];
      var i := 0;
      while i < |t.order|
        invariant 0 <= i <= |t.order|
        invariant queue == SourcesAmong(t.order[..i], t)
        invariant trace == t0 + Inits(t.order[..i], t) && Delivering()
        invariant before == old(before)
        invariant visiting == old(visiting) && visited == old(visited)
      {
        var v := t.order[i];
        TakeNext(t.order, i);
        SourcesStep(t.order[..i], v, t);
        var source := v !in incomings;
        if source {
          queue := queue + [v];
        }
        AppendAssoc(t0, Inits(t.order[..i], t), [Init(v, source)]);
        Emit(Init(v, source));
        i := i + 1;
      }
      assert t.order[..i] == t.order;
    }

    /** visit: emit onBackEdge for a vertex being visited; skip a visited
        one; otherwise emit onStartVertex, push it, examine and visit each
        adjacent vertex, emit onFinishVertex, and move it to visited. */
    method Visit(t: Store<V>, v: V)
      requires Closed(t) && v in t.adj && Delivering()
      modifies this
      ensures State() == DfsSpec.Visit(t, old(State()), v)
      ensures before == old(before) && Delivering()
      decreases Unvisited(t, visiting, visited), 0
    {
      if v in visiting {
        Emit(Back(v));
      } else if v !in visited {
        ghost var st0 := State();
        Emit(Start(v));
        visiting := visiting + [v];
        ghost var st1 := State();
        assert st1 == DState(st0.visiting + [v], st0.visited, st0.events + [Start(v)]);
        var heads := t.adj[v];
        assert heads[0..] == heads;
        var i := 0;
        while i < |heads|
          invariant 0 <= i <= |heads|
          invariant visiting == st1.visiting
          invariant forall u :: u in st0.visited ==> u in visited
          invariant before == old(before) && Delivering()
          invariant Succs(t, State(), v, heads[i..]) == Succs(t, st1, v, heads)
        {
          var w := heads[i];
          assert heads[i..][0] == w && heads[i..][1..] == heads[i + 1..];
          Emit(Examine(v, w));
          assert Unvisited(t, visiting, visited) < Unvisited(t, st0.visiting, st0.visited) by {
            assert v in Unvisited(t, st0.visiting, st0.visited);
          }
          Visit(t, w);
          i := i + 1;
        }
        Emit(Finish(v));
        visiting := Detach(visiting, v);
        visited := visited + [v];
      }
    }

    /** nextVertex: shift the head of the queue. */
    method NextVertex(queue: seq<V>) returns (v: V, rest: seq<V>)
      requires queue != []
      ensures v == queue[0] && rest == queue[1..]
    {
      v := queue[0];
      rest := queue[1..];
    }

    /** The body of walk after its transpose: prime the queue from t's
        sources, clear both lists, and visit each vertex the queue yields.
        The returned queue is the one findSources primed. */
    method Traverse(t: Store<V>) returns (sources: seq<V>)
      requires Valid(t) && Delivering()
      modifies this
      ensures sources == Sources(t)
      ensures State() == Search(t)
      ensures calls == old(calls) + Delivered(Search(t).events, handlers)
    {
      var queue := Begin(t);
      sources := queue;
      while queue != []
        invariant forall v :: v in queue ==> v in t.adj
        invariant before == old(calls) && Delivering()
        invariant Drive(t, State(), queue) == Search(t)
        decreases |queue|
      {
        var v;
        v, queue := NextVertex(queue);
        Visit(t, v);
      }
    }

    /** The start of a search: a new trace, the sources found and queued,
        and both lists cleared. */
    method Begin(t: Store<V>) returns (queue: seq<V>)
      requires Valid(t)
      modifies this
      ensures queue == Sources(t)
      ensures State() == DState([], [], InitEvents(t))
      ensures before == old(calls) && Delivering()
    {
      before := calls;
      trace := [];
      queue := FindSources(t);
      visiting := [];
      visited := [];
    }

    /** walk: search the transpose of the graph from its own sources. */
    method Walk()
      requires Valid(graph) && Delivering()
      modifies this
      ensures State() == DfsSpec.Walk(graph)
      ensures calls == old(calls) + Delivered(DfsSpec.Walk(graph).events, handlers)
    {
      var t := Transposed(graph);
      TransposedEffect(graph);
      var _ := Traverse(t);
    }
  }

  /** The `$incomings` map of findSources: each head of an arc of es, mapped
      to the tails of its arcs in es order. */
  method Incomings<V>(es: seq<(V, V)>) returns (m: map<V, seq<V>>)
    ensures forall h :: h in m <==> exists j :: 0 <= j < |es| && es[j].1 == h
  {
    m := map[];
    var i := 0;
    while i < |es|
      invariant 0 <= i <= |es|
      invariant forall h :: h in m <==> exists j :: 0 <= j < i && es[j].1 == h
    {
      var e := es[i];
      if e.1 !in m {
        m := m[e.1 := []];
      }
      m := m[e.1 := m[e.1] + [e.0]];
      i := i + 1;
    }
  }

  /** A vertex is a source exactly when no arc eachEdge yields ends at it. */
  lemma HeadsAreNotSources<V>(t: Store<V>)
    requires Valid(t)
    ensures forall v :: v in t.adj ==>
      (IsSource(t, v) <==> !exists j :: 0 <= j < |ArcList(t)| && ArcList(t)[j].1 == v)
  {
    ArcListIsArcs(t);
    forall v | v in t.adj
      ensures IsSource(t, v) <==> !exists j :: 0 <= j < |ArcList(t)| && ArcList(t)[j].1 == v
    {
      PredecessorsAreTails(t, v);
      if exists j :: 0 <= j < |ArcList(t)| && ArcList(t)[j].1 == v {
        var j :| 0 <= j < |ArcList(t)| && ArcList(t)[j].1 == v;
        var u := ArcList(t)[j].0;
        assert ArcList(t)[j] == (u, v);
        ArcsFromMembers(t.order, t.adj, u, v);
        assert u in Predecessors(t, v);
      }
      if !IsSource(t, v) {
        var u := Predecessors(t, v)[0];
        assert u in Predecessors(t, v);
        assert (u, v) in Arcs(t);
        assert (u, v) in ArcList(t);
        var j :| 0 <= j < |ArcList(t)| && ArcList(t)[j] == (u, v);
      }
    }
  }

  lemma SourcesStep<V>(vs: seq<V>, v: V, t: Store<V>)
    ensures SourcesAmong(vs + [v], t) == SourcesAmong(vs, t) + (if IsSource(t, v) then [v] else [])
    ensures Inits(vs + [v], t) == Inits(vs, t) + [Init(v, IsSource(t, v))]
  {
    assert (vs + [v])[..|vs|] == vs;
  }
}
