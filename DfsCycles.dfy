/** What the depth-first search from the sources says about cycles, and so
    what isAcyclic answers: a back edge is emitted only when the graph has a
    cycle, and without one no cycle is reachable from a source. A cycle
    that no source reaches goes unnoticed. */
module DfsCycles {
  import opened Common
  import opened AdjacencyStore
  import opened StorePaths
  import opened Visitors
  import opened DfsSpec

  /** What the emitted events claim about the graph: a back edge only when
      there is a cycle. */
  ghost predicate Sound<V(!new)>(s: Store<V>, es: seq<Event<V>>) {
    HasBackEdge(es) ==> HasCycle(s)
  }

  lemma HasBackAppend<V>(es: seq<Event<V>>, e: Event<V>)
    ensures HasBackEdge(es + [e]) <==> HasBackEdge(es) || e.Back?
  {
    if HasBackEdge(es) {
      var i :| 0 <= i < |es| && es[i].Back?;
      assert (es + [e])[i] == es[i];
    }
    if HasBackEdge(es + [e]) {
      var i :| 0 <= i < |es + [e]| && (es + [e])[i].Back?;
      if i < |es| {
        assert es[i] == (es + [e])[i];
      }
    }
    if e.Back? {
      assert (es + [e])[|es|] == e;
    }
  }

  /** The vertices from position k of a path to its end, closed by an arc
      back to position k, form a cycle. */
  lemma PathCycle<V(!new)>(s: Store<V>, xs: seq<V>, k: nat)
    requires IsPath(s, xs) && k < |xs| && xs[k] in s.adj[Last(xs)]
    ensures IsCycle(s, xs[k..])
  {
    var q := xs[k..];
    forall i | 0 <= i < |q| - 1 ensures ArcAt(s, q, i) {
      assert ArcAt(s, xs, k + i);
      assert q[i] == xs[k + i] && q[i + 1] == xs[k + i + 1];
    }
    assert q[|q| - 1] == Last(xs);
  }

  /** A path extended by an arc at its end. */
  lemma PathPush<V(!new)>(s: Store<V>, xs: seq<V>, v: V)
    requires xs == [] || IsPath(s, xs)
    requires v in s.adj && (xs != [] ==> v in s.adj[Last(xs)])
    ensures IsPath(s, xs + [v])
  {
    var q := xs + [v];
    forall i | 0 <= i < |q| - 1 ensures ArcAt(s, q, i) {
      if i < |xs| - 1 {
        assert ArcAt(s, xs, i);
      }
      assert q[i] == xs[i];
    }
    forall i | 0 <= i < |q| ensures q[i] in s.adj {
      if i < |xs| { assert q[i] == xs[i]; }
    }
  }

  /** The vertices being visited form a path, each adjacent to the one
      below it, so a back edge to one of them closes a cycle. */
  lemma {:induction false} VisitSound<V(!new)>(s: Store<V>, st: DState<V>, v: V)
    requires Closed(s) && v in s.adj
    requires st.visiting == [] || IsPath(s, st.visiting)
    requires st.visiting != [] ==> v in s.adj[Last(st.visiting)]
    requires Sound(s, st.events)
    ensures Sound(s, Visit(s, st, v).events)
    decreases Unvisited(s, st.visiting, st.visited), 0
  {
    if v in st.visiting {
      var k := IndexOf(st.visiting, v);
      PathCycle(s, st.visiting, k);
      HasBackAppend(st.events, Back(v));
    } else if v !in st.visited {
      var st1 := DState(st.visiting + [v], st.visited, st.events + [Start(v)]);
      assert Unvisited(s, st1.visiting, st1.visited) < Unvisited(s, st.visiting, st.visited) by {
        assert v in Unvisited(s, st.visiting, st.visited);
      }
      PathPush(s, st.visiting, v);
      HasBackAppend(st.events, Start(v));
      SuccsSound(s, st1, v, s.adj[v]);
      var st2 := Succs(s, st1, v, s.adj[v]);
      HasBackAppend(st2.events, Finish(v));
    }
  }

  lemma {:induction false} SuccsSound<V(!new)>(s: Store<V>, st: DState<V>, v: V, ws: seq<V>)
    requires Closed(s) && v in s.adj && forall w :: w in ws ==> w in s.adj[v]
    requires IsPath(s, st.visiting) && Last(st.visiting) == v
    requires Sound(s, st.events)
    ensures Sound(s, Succs(s, st, v, ws).events)
    decreases Unvisited(s, st.visiting, st.visited), 1, |ws|
  {
    if ws != [] {
      var st1 := st.(events := st.events + [Examine(v, ws[0])]);
      HasBackAppend(st.events, Examine(v, ws[0]));
      VisitSound(s, st1, ws[0]);
      SuccsSound(s, Visit(s, st1, ws[0]), v, ws[1..]);
    }
  }

  lemma {:induction false} DriveSound<V(!new)>(s: Store<V>, st: DState<V>, queue: seq<V>)
    requires Closed(s) && (forall v :: v in queue ==> v in s.adj)
    requires st.visiting == [] && Sound(s, st.events)
    ensures Sound(s, Drive(s, st, queue).events)
    decreases |queue|
  {
    if queue != [] {
      VisitSound(s, st, queue[0]);
      DriveSound(s, Visit(s, st, queue[0]), queue[1..]);
    }
  }

  /** A back edge in the search from the sources means the graph has a
      cycle: when isAcyclic answers FALSE on a graph with a source, the
      graph is cyclic. */
  lemma BackEdgeMeansCycle<V(!new)>(s: Store<V>)
    requires Valid(s)
    ensures HasBackEdge(Search(s).events) ==> HasCycle(s)
  {
    var es := InitEvents(s);
    assert !HasBackEdge(es) by {
      forall i | 0 <= i < |es| ensures !es[i].Back? {
        assert es[i].Init?;
      }
    }
    DriveSound(s, DState([], [], es), Sources(s));
  }

  // ---------------------------------------------------------------------
  // Without a back edge

  /** vis holds vertices, and every successor of one of them. */
  ghost predicate ClosedIn<V>(s: Store<V>, vis: seq<V>) {
    && (forall u :: u in vis ==> u in s.adj)
    && (forall k, w :: 0 <= k < |vis| && w in s.adj[vis[k]] ==> w in vis)
  }

  /** vis holds vertices, each once, and every successor of an entry comes
      earlier in it. */
  ghost predicate PostOrdered<V>(s: Store<V>, vis: seq<V>) {
    && NoDup(vis)
    && (forall u :: u in vis ==> u in s.adj)
    && (forall k, w :: 0 <= k < |vis| && w in s.adj[vis[k]] ==> w in vis[..k])
  }

  /** A set of vertices closed under successors keeps every path that
      starts in it. */
  lemma {:induction false} StaysIn<V(!new)>(s: Store<V>, p: seq<V>, vis: seq<V>, i: nat)
    requires IsPath(s, p) && i < |p| && p[0] in vis && ClosedIn(s, vis)
    ensures p[i] in vis
    decreases i
  {
    if i > 0 {
      StaysIn(s, p, vis, i - 1);
      assert ArcAt(s, p, i - 1);
      var k := IndexOf(vis, p[i - 1]);
      assert p[i] in s.adj[vis[k]];
    }
  }

  lemma PostOrderedClosed<V>(s: Store<V>, vis: seq<V>)
    requires PostOrdered(s, vis)
    ensures ClosedIn(s, vis)
  {
    forall k, w | 0 <= k < |vis| && w in s.adj[vis[k]] ensures w in vis {
      assert w in vis[..k];
    }
  }

  /** No cycle passes through an entry of a post-ordered list. */
  lemma NoCycleThrough<V(!new)>(s: Store<V>, p: seq<V>, vis: seq<V>)
    requires PostOrdered(s, vis)
    ensures !(IsCycle(s, p) && p[0] in vis)
  {
    if IsCycle(s, p) && p[0] in vis {
      PostOrderedClosed(s, vis);
      forall i | 0 <= i < |p| ensures p[i] in vis {
        StaysIn(s, p, vis, i);
      }
      var f := (u: V) => if u in vis then IndexOf(vis, u) as int else 0;
      Earlier(s, vis, p[|p| - 1], p[0]);
      forall i | 0 <= i < |p| - 1 ensures f(p[i + 1]) < f(p[i]) {
        assert ArcAt(s, p, i);
        Earlier(s, vis, p[i], p[i + 1]);
      }
      PathMonotone(s, p, f);
    }
  }

  /** An arc out of an entry of a post-ordered list leads to an earlier
      entry. */
  lemma Earlier<V>(s: Store<V>, vis: seq<V>, u: V, w: V)
    requires PostOrdered(s, vis) && u in vis && w in s.adj[u]
    ensures w in vis && IndexOf(vis, w) < IndexOf(vis, u)
  {
    var k := IndexOf(vis, u);
    assert w in vis[..k];
    var j :| 0 <= j < k && vis[..k][j] == w;
    assert vis[j] == w;
    IndexOfUnique(vis, j);
  }

  /** What SearchFacts says about the visited list of the search. */
  lemma SearchVisited<V>(s: Store<V>)
    requires Valid(s)
    ensures ClosedIn(s, Search(s).visited)
    ensures forall v :: v in Sources(s) ==> v in Search(s).visited
    ensures !HasBackEdge(Search(s).events) ==> PostOrdered(s, Search(s).visited)
  {
    SearchFacts(s);
  }

  /** Nothing in a post-ordered list reaches a cycle. */
  lemma CycleUnreachedFrom<V(!new)>(s: Store<V>, p: seq<V>, x: V, vis: seq<V>)
    requires PostOrdered(s, vis) && x in vis && IsCycle(s, p)
    ensures !Reaches(s, x, p[0])
  {
    if Reaches(s, x, p[0]) {
      var q :| IsPath(s, q) && q[0] == x && q[|q| - 1] == p[0];
      PostOrderedClosed(s, vis);
      StaysIn(s, q, vis, |q| - 1);
      NoCycleThrough(s, p, vis);
    }
  }

  /** One cycle and one source: without a back edge the source does not
      reach the cycle. */
  lemma CycleUnreached<V(!new)>(s: Store<V>, p: seq<V>, x: V)
    requires Valid(s) && !HasBackEdge(Search(s).events)
    requires IsCycle(s, p) && x in Sources(s)
    ensures !Reaches(s, x, p[0])
  {
    SearchVisited(s);
    CycleUnreachedFrom(s, p, x, Search(s).visited);
  }

  /** Without a back edge, no cycle is reachable from a source: when
      isAcyclic answers TRUE, every cycle of the graph lies where no source
      leads. */
  lemma NoBackEdgeNoReachableCycle<V(!new)>(s: Store<V>)
    requires Valid(s) && !HasBackEdge(Search(s).events)
    ensures forall p, x :: IsCycle(s, p) && x in Sources(s) ==> !Reaches(s, x, p[0])
  {
    forall p, x | IsCycle(s, p) && x in Sources(s) ensures !Reaches(s, x, p[0]) {
      CycleUnreached(s, p, x);
    }
  }

  // ---------------------------------------------------------------------
  // Sources reach everything in an acyclic graph

  /** A duplicate-free list of members of a set is no longer than the
      set. */
  lemma {:induction false} NoDupCard<V>(q: seq<V>, ks: set<V>)
    requires NoDup(q) && forall i :: 0 <= i < |q| ==> q[i] in ks
    ensures |q| <= |ks|
  {
    if q != [] {
      var rest := q[1..];
      forall i | 0 <= i < |rest| ensures rest[i] in ks - {q[0]} {
        assert rest[i] == q[i + 1];
      }
      NoDupCard(rest, ks - {q[0]});
    }
  }

  /** A vertex that is not a source has an arc into it. */
  lemma SomePredecessor<V>(s: Store<V>, v: V) returns (u: V)
    requires !IsSource(s, v)
    ensures u in s.adj && v in s.adj[u]
  {
    u := Predecessors(s, v)[0];
    assert u in Predecessors(s, v);
  }

  /** An arc into the start of a path from a vertex on it closes a
      cycle. */
  lemma PredecessorInPath<V(!new)>(s: Store<V>, p: seq<V>, u: V)
    requires IsPath(s, p) && u in s.adj && p[0] in s.adj[u]
    ensures u in p ==> HasCycle(s)
  {
    if u in p {
      var k := IndexOf(p, u);
      var c := p[..k + 1];
      forall i | 0 <= i < |c| - 1 ensures ArcAt(s, c, i) {
        assert ArcAt(s, p, i);
      }
      assert IsCycle(s, c);
    }
  }

  /** A path extended backwards by an arc into its start. */
  lemma PathPrepend<V(!new)>(s: Store<V>, p: seq<V>, u: V)
    requires IsPath(s, p) && NoDup(p) && u in s.adj && p[0] in s.adj[u] && u !in p
    ensures IsPath(s, [u] + p) && NoDup([u] + p)
  {
    var q := [u] + p;
    forall i | 0 <= i < |q| - 1 ensures ArcAt(s, q, i) {
      if i > 0 { assert ArcAt(s, p, i - 1); }
    }
    forall i | 0 <= i < |q| ensures q[i] in s.adj {
      if i > 0 { assert q[i] == p[i - 1]; }
    }
    forall i, j | 0 <= i < j < |q| ensures q[i] != q[j] {
      if i > 0 { assert q[i] == p[i - 1]; }
      assert q[j] == p[j - 1];
    }
  }

  /** Walking backwards from the start of a duplicate-free path, along
      arcs into it, ends at a source unless it closes a cycle. */
  lemma {:induction false} BackWalk<V(!new)>(s: Store<V>, p: seq<V>) returns (y: V)
    requires Closed(s) && !HasCycle(s) && IsPath(s, p) && NoDup(p)
    ensures y in s.adj && IsSource(s, y) && Reaches(s, y, p[|p| - 1])
    decreases |s.adj.Keys| - |p|
  {
    NoDupCard(p, s.adj.Keys);
    if IsSource(s, p[0]) {
      y := p[0];
      PathReachesEnd(s, p, 0);
    } else {
      var u := SomePredecessor(s, p[0]);
      PredecessorInPath(s, p, u);
      var q := [u] + p;
      PathPrepend(s, p, u);
      NoDupCard(q, s.adj.Keys);
      y := BackWalk(s, q);
      assert q[|q| - 1] == p[|p| - 1];
    }
  }

  /** In an acyclic graph every vertex is reachable from a source. */
  lemma SourceReaches<V(!new)>(s: Store<V>, x: V) returns (y: V)
    requires Valid(s) && !HasCycle(s) && x in s.adj
    ensures y in Sources(s) && Reaches(s, y, x)
  {
    assert IsPath(s, [x]);
    y := BackWalk(s, [x]);
    assert y in s.order;
  }

  /** A nonempty graph without a source has a cycle: when isAcyclic answers
      FALSE because the traversal has nowhere to start, the graph is
      cyclic, or empty. */
  lemma NoSourceMeansCycle<V(!new)>(s: Store<V>)
    requires Valid(s) && s.order != [] && Sources(s) == []
    ensures HasCycle(s)
  {
    if !HasCycle(s) {
      var y := SourceReaches(s, s.order[0]);
    }
  }

  // ---------------------------------------------------------------------
  // isAcyclic as written, and a whole-graph check

  /** The answer isAcyclic gives for the store s. */
  predicate AnswerAsWritten<V>(s: Store<V>)
    requires Valid(s)
  {
    Sources(s) != [] && !HasBackEdge(Search(s).events)
  }

  /** The three vertices 0, 1 and 2, with 1 and 2 on a cycle of their own
      that the only source, 0, does not reach. */
  function UnreachedCycle(): Store<int> {
    Store([0, 1, 2], map[0 := [], 1 := [2], 2 := [1]])
  }

  /** A vertex no arc enters is a source. */
  lemma NoArcIn<V>(s: Store<V>, v: V)
    requires forall u :: u in s.adj ==> v !in s.adj[u]
    ensures IsSource(s, v)
  {
    FirstIn(Predecessors(s, v));
  }

  lemma FirstIn<T>(r: seq<T>)
    ensures r != [] ==> r[0] in r
  {
  }

  /** A vertex an arc enters is not a source. */
  lemma ArcIn<V>(s: Store<V>, u: V, v: V)
    requires u in s.order && u in s.adj && v in s.adj[u]
    ensures !IsSource(s, v)
  {
    assert u in Predecessors(s, v);
  }

  lemma UnreachedCycleValid()
    ensures Valid(UnreachedCycle())
  {
    assert NoDup(UnreachedCycle().order);
  }

  lemma UnreachedCycleSources()
    ensures Sources(UnreachedCycle()) == [0]
    ensures InitEvents(UnreachedCycle()) == [Init(0, true), Init(1, false), Init(2, false)]
  {
    var s := UnreachedCycle();
    NoArcIn(s, 0);
    ArcIn(s, 2, 1);
    ArcIn(s, 1, 2);
    assert [0, 1, 2][..2] == [0, 1] && [0, 1][..1] == [0] && [0][..0] == [];
    assert SourcesAmong([0], s) == [0];
    assert SourcesAmong([0, 1], s) == [0];
  }

  /** The search starts and finishes 0 and stops there. */
  lemma UnreachedCycleSearch()
    requires Valid(UnreachedCycle())
    ensures Search(UnreachedCycle()).events
         == [Init(0, true), Init(1, false), Init(2, false), Start(0), Finish(0)]
  {
    var s := UnreachedCycle();
    UnreachedCycleSources();
    var st := DState([], [], InitEvents(s));
    var e0 := InitEvents(s) + [Start(0)];
    assert Succs(s, DState([0], [], e0), 0, []) == DState([0], [], e0);
    assert Visit(s, st, 0) == DState([], [0], e0 + [Finish(0)]);
    assert Drive(s, Visit(s, st, 0), []) == Visit(s, st, 0);
  }

  /** isAcyclic answers TRUE on a graph with a cycle that no source
      reaches. */
  lemma AsWrittenMissesUnreachedCycle()
    ensures Valid(UnreachedCycle()) && HasCycle(UnreachedCycle()) && AnswerAsWritten(UnreachedCycle())
  {
    UnreachedCycleValid();
    UnreachedCycleSources();
    UnreachedCycleCycles();
    UnreachedCycleSearch();
    NoBackIn(Search(UnreachedCycle()).events);
  }

  /** 1 and 2 form a cycle. */
  lemma UnreachedCycleCycles()
    ensures HasCycle(UnreachedCycle())
  {
    var s := UnreachedCycle();
    assert ArcAt(s, [1, 2], 0);
    assert IsCycle(s, [1, 2]);
  }

  /** The trace of the search on UnreachedCycle has no back edge. */
  lemma NoBackIn(es: seq<Event<int>>)
    requires es == [Init(0, true), Init(1, false), Init(2, false), Start(0), Finish(0)]
    ensures !HasBackEdge(es)
  {
    forall i | 0 <= i < |es| ensures !es[i].Back? {
      assert es[i] in es;
    }
  }

  /** isAcyclic answers FALSE on the empty graph, which has no cycle: with
      no vertex there is no source. */
  lemma AsWrittenRefusesEmpty()
    ensures Valid(Empty<int>()) && !HasCycle(Empty<int>()) && !AnswerAsWritten(Empty<int>())
  {
  }

  /** The check isAcyclic evidently intends: no back edge, and every vertex
      reached from a source. */
  predicate WholeAcyclic<V>(s: Store<V>)
    requires Valid(s)
  {
    !HasBackEdge(Search(s).events) && forall v :: v in s.order ==> v in Search(s).visited
  }

  /** The whole-graph check answers TRUE exactly when the graph has no
      cycle, the empty graph included. */
  lemma WholeAcyclicCorrect<V(!new)>(s: Store<V>)
    requires Valid(s)
    ensures WholeAcyclic(s) <==> !HasCycle(s)
  {
    if WholeAcyclic(s) && HasCycle(s) {
      var p :| IsCycle(s, p);
      WholeNoCycle(s, p);
    }
    if !HasCycle(s) {
      BackEdgeMeansCycle(s);
      forall v | v in s.order ensures v in Search(s).visited {
        AllReached(s, v);
      }
    }
  }

  lemma WholeNoCycle<V(!new)>(s: Store<V>, p: seq<V>)
    requires Valid(s) && WholeAcyclic(s)
    ensures !IsCycle(s, p)
  {
    SearchVisited(s);
    if IsCycle(s, p) {
      assert p[0] in s.order;
      NoCycleThrough(s, p, Search(s).visited);
    }
  }

  /** In an acyclic graph the search from the sources reaches v. */
  lemma AllReached<V(!new)>(s: Store<V>, v: V)
    requires Valid(s) && !HasCycle(s) && v in s.order
    ensures v in Search(s).visited
  {
    SearchVisited(s);
    var y := SourceReaches(s, v);
    ReachedIn(s, Search(s).visited, y, v);
  }

  /** A set closed under arcs holds all that its members reach. */
  lemma ReachedIn<V(!new)>(s: Store<V>, vis: seq<V>, y: V, v: V)
    requires ClosedIn(s, vis) && y in vis && Reaches(s, y, v)
    ensures v in vis
  {
    var q :| IsPath(s, q) && q[0] == y && q[|q| - 1] == v;
    StaysIn(s, q, vis, |q| - 1);
  }
}
