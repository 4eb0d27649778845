/** The depth-first search of Gliph\Traversal\DepthFirstSearch as functions on
    values: a visit pushes a vertex on the visiting list, examines and visits
    each adjacent vertex, then moves it to the visited list, and every step
    is recorded as an event of the trace. */
module DfsSpec {
  import opened Common
  import opened AdjacencyStore
  import opened Visitors

  /** The two search lists and the events emitted so far. */
  datatype DState<V> = DState(visiting: seq<V>, visited: seq<V>, events: seq<Event<V>>)

  /** The vertices neither being visited nor visited: what a visit can still
      start on. */
  ghost function Unvisited<V>(s: Store<V>, visiting: seq<V>, visited: seq<V>): set<V> {
    set u | u in s.adj && u !in visiting && u !in visited
  }

  /** visit: a vertex being visited closes a back edge; a visited vertex is
      skipped; any other vertex is started, its adjacent vertices are each
      examined and visited, and it is finished and moved to visited. */
  function Visit<V>(s: Store<V>, st: DState<V>, v: V): (r: DState<V>)
    requires Closed(s) && v in s.adj
    ensures r.visiting == st.visiting
    ensures Prefix(st.visited, r.visited) && Prefix(st.events, r.events)
    ensures forall u :: u in st.visited ==> u in r.visited
    ensures v in st.visiting ==> r.visited == st.visited && r.events == st.events + [Back(v)]
    ensures v !in st.visiting ==> v in r.visited
    decreases Unvisited(s, st.visiting, st.visited), 0
  {
    if v in st.visiting then
      st.(events := st.events + [Back(v)])
    else if v in st.visited then
      st
    else
      var st1 := DState(st.visiting + [v], st.visited, st.events + [Start(v)]);
      assert Unvisited(s, st1.visiting, st1.visited) < Unvisited(s, st.visiting, st.visited) by {
        assert v in Unvisited(s, st.visiting, st.visited);
      }
      var st2 := Succs(s, st1, v, s.adj[v]);
      DetachLast(st.visiting, v);
      assert st2.events[..|st.events|] == st2.events[..|st1.events|][..|st.events|];
      DState(Detach(st2.visiting, v), st2.visited + [v], st2.events + [Finish(v)])
  }

  /** The eachAdjacent callback of visit over the vertices ws adjacent to v:
      emit the examined edge, then visit its head. Every head ends up
      visited or closes a back edge. */
  function Succs<V>(s: Store<V>, st: DState<V>, v: V, ws: seq<V>): (r: DState<V>)
    requires Closed(s) && forall w :: w in ws ==> w in s.adj
    ensures r.visiting == st.visiting
    ensures Prefix(st.visited, r.visited) && Prefix(st.events, r.events)
    ensures forall u :: u in st.visited ==> u in r.visited
    ensures forall w :: w in ws ==> w in r.visited || Back(w) in r.events
    decreases Unvisited(s, st.visiting, st.visited), 1, |ws|
  {
    if ws == [] then st
    else
      var st1 := st.(events := st.events + [Examine(v, ws[0])]);
      var st2 := Visit(s, st1, ws[0]);
      var r := Succs(s, st2, v, ws[1..]);
      assert r.events[..|st.events|] == r.events[..|st2.events|][..|st1.events|][..|st.events|];
      assert r.visited[..|st.visited|] == r.visited[..|st2.visited|][..|st.visited|];
      assert Back(ws[0]) in st2.events ==> Back(ws[0]) in r.events by {
        if Back(ws[0]) in st2.events {
          var k :| 0 <= k < |st2.events| && st2.events[k] == Back(ws[0]);
          assert r.events[k] == st2.events[k];
        }
      }
      r
  }

  /** The loop of walk: each vertex shifted off the queue is visited. */
  function Drive<V>(s: Store<V>, st: DState<V>, queue: seq<V>): (r: DState<V>)
    requires Closed(s) && forall v :: v in queue ==> v in s.adj
    ensures r.visiting == st.visiting
    ensures Prefix(st.visited, r.visited) && Prefix(st.events, r.events)
    ensures forall u :: u in st.visited ==> u in r.visited
    ensures st.visiting == [] ==> forall v :: v in queue ==> v in r.visited
    decreases |queue|
  {
    if queue == [] then st
    else
      var st1 := Visit(s, st, queue[0]);
      var r := Drive(s, st1, queue[1..]);
      assert r.events[..|st.events|] == r.events[..|st1.events|][..|st.events|];
      assert r.visited[..|st.visited|] == r.visited[..|st1.visited|][..|st.visited|];
      r
  }

  // ---------------------------------------------------------------------
  // Sources

  /** No arc of the graph ends at v. */
  predicate IsSource<V>(s: Store<V>, v: V) {
    Predecessors(s, v) == []
  }

  /** The queue findSources primes: the sources, in vertex order. */
  function Sources<V>(s: Store<V>): seq<V> {
    SourcesAmong(s.order, s)
  }

  /** The sources among the vertices vs of s, in order. */
  function SourcesAmong<V>(vs: seq<V>, s: Store<V>): (r: seq<V>)
    ensures forall y :: y in r ==> y in vs && IsSource(s, y)
    ensures forall y :: y in vs && IsSource(s, y) ==> y in r
    ensures NoDup(vs) ==> NoDup(r)
  {
    if vs == [] then []
    else
      var vs' := vs[..|vs| - 1];
      var x := vs[|vs| - 1];
      assert vs == vs' + [x];
      var r' := SourcesAmong(vs', s);
      if IsSource(s, x) then
        assert NoDup(vs) ==> NoDup(r' + [x]) by {
          if NoDup(vs) {
            assert x !in vs' by {
              forall k | 0 <= k < |vs'| ensures vs'[k] != x {
                assert vs[k] == vs'[k];
              }
            }
            NoDupConcat(r', [x]);
          }
        }
        r' + [x]
      else
        r'
  }

  /** The onInitializeVertex events findSources emits, one per vertex in
      vertex order, flagged TRUE exactly for the sources. */
  function InitEvents<V>(s: Store<V>): (r: seq<Event<V>>)
    ensures |r| == |s.order|
    ensures forall i :: 0 <= i < |r| ==> r[i] == Init(s.order[i], IsSource(s, s.order[i]))
  {
    Inits(s.order, s)
  }

  /** The onInitializeVertex events for the vertices vs of s. */
  function Inits<V>(vs: seq<V>, s: Store<V>): (r: seq<Event<V>>)
    ensures |r| == |vs|
    ensures forall i :: 0 <= i < |r| ==> r[i] == Init(vs[i], IsSource(s, vs[i]))
  {
    if vs == [] then []
    else
      var r := Inits(vs[..|vs| - 1], s) + [Init(vs[|vs| - 1], IsSource(s, vs[|vs| - 1]))];
      assert forall i :: 0 <= i < |vs| - 1 ==> vs[..|vs| - 1][i] == vs[i];
      r
  }

  lemma SourcesAreSources<V>(s: Store<V>)
    requires Valid(s)
    ensures forall v :: v in Sources(s) ==> v in s.adj && forall u :: (u, v) !in Arcs(s)
    ensures forall v :: v in s.adj && (forall u :: u in s.adj ==> (u, v) !in Arcs(s)) ==> v in Sources(s)
    ensures NoDup(Sources(s))
  {
    forall v | v in Sources(s)
      ensures v in s.adj && forall u :: (u, v) !in Arcs(s)
    {
      PredecessorsAreTails(s, v);
    }
    forall v | v in s.adj && (forall u :: u in s.adj ==> (u, v) !in Arcs(s))
      ensures v in Sources(s)
    {
      forall u | u in s.order
        ensures !(u in s.adj && v in s.adj[u])
      {
        assert (u, v) !in Arcs(s);
      }
      FilterNone(s.order, u => u in s.adj && v in s.adj[u]);
    }
  }

  /** The search from the sources that walk and traverse run. */
  function Search<V>(t: Store<V>): DState<V>
    requires Valid(t)
  {
    Drive(t, DState([], [], InitEvents(t)), Sources(t))
  }

  /** walk: search the transpose of the graph from its own sources. */
  function Walk<V>(g: Store<V>): DState<V>
    requires Valid(g)
  {
    TransposedEffect(g);
    Search(Transposed(g))
  }

  // ---------------------------------------------------------------------
  // What every search state keeps

  /** Visiting and visited hold vertices, each at most once, never in both;
      a back edge was emitted only for a vertex still being or already
      visited; the finish events are exactly the visited list; and each
      visited vertex has all its successors visited earlier, save those
      that closed a back edge. */
  ghost predicate Inv<V>(s: Store<V>, st: DState<V>) {
    && (forall u :: u in st.visiting ==> u in s.adj)
    && (forall u :: u in st.visited ==> u in s.adj)
    && NoDup(st.visiting) && NoDup(st.visited)
    && (forall u :: u in st.visiting ==> u !in st.visited)
    && (forall i :: 0 <= i < |st.events| && st.events[i].Back? ==>
          st.events[i].v in st.visiting || st.events[i].v in st.visited)
    && Finishes(st.events) == st.visited
    && PostOrder(s, st)
  }

  ghost predicate PostOrder<V>(s: Store<V>, st: DState<V>)
    requires forall u :: u in st.visited ==> u in s.adj
  {
    forall i, w :: 0 <= i < |st.visited| && w in s.adj[st.visited[i]] ==>
      w in st.visited[..i] || Back(w) in st.events
  }

  /** Emitting an event that is neither a back edge nor a finish keeps the
      invariant. */
  lemma EventInv<V>(s: Store<V>, st: DState<V>, e: Event<V>)
    requires Inv(s, st) && !e.Back? && !e.Finish?
    ensures Inv(s, st.(events := st.events + [e]))
  {
    FinishesAppend(st.events, e);
  }

  /** A back edge is emitted only on a vertex being visited. */
  lemma BackInv<V>(s: Store<V>, st: DState<V>, v: V)
    requires Inv(s, st) && v in st.visiting
    ensures Inv(s, st.(events := st.events + [Back(v)]))
  {
    FinishesAppend(st.events, Back(v));
  }

  lemma PushInv<V>(s: Store<V>, st: DState<V>, v: V)
    requires Inv(s, st) && v in s.adj && v !in st.visiting && v !in st.visited
    ensures Inv(s, DState(st.visiting + [v], st.visited, st.events + [Start(v)]))
  {
    EventInv(s, st, Start(v));
    NoDupConcat(st.visiting, [v]);
  }

  lemma FinishInv<V>(s: Store<V>, st: DState<V>, st2: DState<V>, v: V)
    requires Inv(s, st2) && v in s.adj && v !in st.visiting
    requires st2.visiting == st.visiting + [v]
    requires forall w :: w in s.adj[v] ==> w in st2.visited || Back(w) in st2.events
    ensures Inv(s, DState(st.visiting, st2.visited + [v], st2.events + [Finish(v)]))
  {
    var r := DState(st.visiting, st2.visited + [v], st2.events + [Finish(v)]);
    assert v !in st2.visited;
    assert NoDup(st.visiting) by {
      forall i, j | 0 <= i < j < |st.visiting|
        ensures st.visiting[i] != st.visiting[j]
      {
        assert st2.visiting[i] == st.visiting[i] && st2.visiting[j] == st.visiting[j];
      }
    }
    NoDupConcat(st2.visited, [v]);
    FinishesAppend(st2.events, Finish(v));
    forall i | 0 <= i < |r.events| && r.events[i].Back?
      ensures r.events[i].v in r.visiting || r.events[i].v in r.visited
    {
      assert r.events[i] == st2.events[i];
    }
    forall i, w | 0 <= i < |r.visited| && w in s.adj[r.visited[i]]
      ensures w in r.visited[..i] || Back(w) in r.events
    {
      if i < |st2.visited| {
        assert r.visited[..i] == st2.visited[..i];
      } else {
        assert r.visited[..i] == st2.visited;
      }
    }
  }

  lemma {:induction false} VisitInv<V>(s: Store<V>, st: DState<V>, v: V)
    requires Closed(s) && v in s.adj && Inv(s, st)
    ensures Inv(s, Visit(s, st, v))
    decreases Unvisited(s, st.visiting, st.visited), 0
  {
    if v in st.visiting {
      BackInv(s, st, v);
    } else if v !in st.visited {
      var st1 := DState(st.visiting + [v], st.visited, st.events + [Start(v)]);
      assert Unvisited(s, st1.visiting, st1.visited) < Unvisited(s, st.visiting, st.visited) by {
        assert v in Unvisited(s, st.visiting, st.visited);
      }
      PushInv(s, st, v);
      SuccsInv(s, st1, v, s.adj[v]);
      var st2 := Succs(s, st1, v, s.adj[v]);
      FinishInv(s, st, st2, v);
      DetachLast(st.visiting, v);
    }
  }

  lemma {:induction false} SuccsInv<V>(s: Store<V>, st: DState<V>, v: V, ws: seq<V>)
    requires Closed(s) && (forall w :: w in ws ==> w in s.adj) && Inv(s, st)
    ensures Inv(s, Succs(s, st, v, ws))
    decreases Unvisited(s, st.visiting, st.visited), 1, |ws|
  {
    if ws != [] {
      var st1 := st.(events := st.events + [Examine(v, ws[0])]);
      EventInv(s, st, Examine(v, ws[0]));
      VisitInv(s, st1, ws[0]);
      SuccsInv(s, Visit(s, st1, ws[0]), v, ws[1..]);
    }
  }

  lemma {:induction false} DriveInv<V>(s: Store<V>, st: DState<V>, queue: seq<V>)
    requires Closed(s) && (forall v :: v in queue ==> v in s.adj) && Inv(s, st)
    ensures Inv(s, Drive(s, st, queue))
    decreases |queue|
  {
    if queue != [] {
      VisitInv(s, st, queue[0]);
      DriveInv(s, Visit(s, st, queue[0]), queue[1..]);
    }
  }

  /** The search starts from the initialization events alone. */
  lemma InitInv<V>(s: Store<V>)
    requires Valid(s)
    ensures Inv(s, DState([], [], InitEvents(s)))
  {
    var es := InitEvents(s);
    assert Finishes(es) == [] by {
      NoFinishes(es);
    }
  }

  lemma {:induction false} NoFinishes<V>(es: seq<Event<V>>)
    requires forall i :: 0 <= i < |es| ==> es[i].Init?
    ensures Finishes(es) == []
  {
    if es != [] {
      NoFinishes(es[1..]);
    }
  }

  /** What a search from the sources leaves behind: nothing is still being
      visited; it starts with the initialization events; the finish events
      list the visited vertices, each once; every source is visited, and so
      is every successor of a visited vertex; and when no back edge was
      emitted, every vertex is finished after all of its successors. */
  lemma SearchFacts<V>(t: Store<V>)
    requires Valid(t)
    ensures Search(t).visiting == []
    ensures Prefix(InitEvents(t), Search(t).events)
    ensures Finishes(Search(t).events) == Search(t).visited
    ensures NoDup(Search(t).visited)
    ensures forall u :: u in Search(t).visited ==> u in t.adj
    ensures forall v :: v in Sources(t) ==> v in Search(t).visited
    ensures forall i, w :: 0 <= i < |Search(t).visited| && w in t.adj[Search(t).visited[i]] ==>
      w in Search(t).visited
    ensures !HasBackEdge(Search(t).events) ==>
      forall i, w :: 0 <= i < |Search(t).visited| && w in t.adj[Search(t).visited[i]] ==>
        w in Search(t).visited[..i]
  {
    InitInv(t);
    DriveInv(t, DState([], [], InitEvents(t)), Sources(t));
    Settled(t, Search(t));
  }

  /** Once nothing is being visited, every back edge was on a visited vertex,
      so the visited list is closed under successors. */
  lemma Settled<V>(s: Store<V>, r: DState<V>)
    requires Inv(s, r) && r.visiting == []
    ensures forall i, w :: 0 <= i < |r.visited| && w in s.adj[r.visited[i]] ==> w in r.visited
    ensures !HasBackEdge(r.events) ==>
      forall i, w :: 0 <= i < |r.visited| && w in s.adj[r.visited[i]] ==> w in r.visited[..i]
  {
    forall i, w | 0 <= i < |r.visited| && w in s.adj[r.visited[i]]
      ensures w in r.visited
    {
      if w !in r.visited[..i] {
        BackSeen(r, w);
      }
    }
    if !HasBackEdge(r.events) {
      forall i, w | 0 <= i < |r.visited| && w in s.adj[r.visited[i]]
        ensures w in r.visited[..i]
      {
        if w !in r.visited[..i] {
          BackSeen(r, w);
        }
      }
    }
  }

  lemma BackSeen<V>(r: DState<V>, w: V)
    requires Back(w) in r.events
    ensures HasBackEdge(r.events)
    ensures (forall i :: 0 <= i < |r.events| && r.events[i].Back? ==>
               r.events[i].v in r.visiting || r.events[i].v in r.visited) ==>
      w in r.visiting || w in r.visited
  {
    var k :| 0 <= k < |r.events| && r.events[k] == Back(w);
    assert r.events[k].Back?;
  }

  /** walk emits its back edges and finishes on the transpose, so without a
      back edge every vertex of the original graph is finished after all of
      its predecessors: the finishing order is a topological order. */
  lemma WalkTopological<V>(g: Store<V>)
    requires Valid(g)
    ensures forall i :: 0 <= i < |Walk(g).visited| ==> Walk(g).visited[i] in Endpoints(Arcs(g))
    ensures !HasBackEdge(Walk(g).events) ==>
      forall i, u :: 0 <= i < |Walk(g).visited| && (u, Walk(g).visited[i]) in Arcs(g) ==>
        u in Walk(g).visited[..i]
  {
    var t := Transposed(g);
    TransposedEffect(g);
    SearchFacts(t);
    var r := Walk(g);
    assert r == Search(t);
    forall i, u | 0 <= i < |r.visited| && (u, r.visited[i]) in Arcs(g)
      ensures !HasBackEdge(r.events) ==> u in r.visited[..i]
    {
      assert (r.visited[i], u) in Reversed(Arcs(g));
    }
  }

  /** A toposort visitor receiving the events of a search throws exactly
      when a back edge was emitted, and otherwise holds the visited list. */
  lemma SearchToposort<V>(t: Store<V>)
    requires Valid(t)
    ensures HasBackEdge(Search(t).events) <==> RunVisitor(Toposort([]), Search(t).events) == Err(Runtime)
    ensures !HasBackEdge(Search(t).events) ==>
      RunVisitor(Toposort([]), Search(t).events) == Ok(Toposort(Search(t).visited))
  {
    SearchFacts(t);
    ToposortCollects([], Search(t).events);
    assert [] + Search(t).visited == Search(t).visited;
  }
}
