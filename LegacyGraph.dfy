/** The graph classes of the Graph namespace that the adjacency lists
    replaced: Gliph\Graph\DirectedAdjacencyGraph,
    Gliph\Graph\UndirectedAdjacencyGraph and Gliph\Graph\IncidenceGraph.
    Unlike their Gliph namespace counterparts they refuse to remove a vertex
    they do not hold. The first two extend an AdjacencyGraph base class that
    is not part of this model; what they inherit from it (addVertex,
    hasVertex, eachVertex, eachAdjacent) is taken to be the store's own
    insert-if-absent and lookups. */
module LegacyGraph {
  import opened Common
  import opened AdjacencyStore
  import opened UndirectedStore
  import opened StoreScans
  import opened TarjanSpec
  import LegacyTarjan

  /** Gliph\Graph\DirectedAdjacencyGraph. */
  class DirectedAdjacencyGraph<V(==)> {
    var vertices: Store<V>

    ghost predicate Valid()
      reads this
    {
      AdjacencyStore.Valid(vertices)
    }

    constructor ()
      ensures Valid() && vertices == Empty()
    {
      vertices := Empty();
    }

    /** addDirectedEdge: each endpoint not yet held is added, the tail
        first, and the head is attached to the tail's set. */
    method AddDirectedEdge(from: V, to: V)
      requires Valid()
      modifies this
      ensures Valid() && vertices == AddArc(old(vertices), from, to)
      ensures (from, to) in Arcs(old(vertices)) ==> vertices == old(vertices)
    {
      ghost var s0 := vertices;
      AddArcValid(s0, from, to);
      if from !in vertices.adj {
        vertices := Store(vertices.order + [from], vertices.adj[from := []]);
      }
      if to !in vertices.adj {
        vertices := Store(vertices.order + [to], vertices.adj[to := []]);
      }
      vertices := Store(vertices.order, vertices.adj[from := Attach(vertices.adj[from], to)]);
      if (from, to) in Arcs(s0) {
        assert to in s0.adj[from];
        assert vertices.adj == s0.adj;
      }
    }

    /** removeVertex: a missing vertex raises OutOfBoundsException before
        anything changes; otherwise v is detached from every set and then
        unset. */
    method RemoveVertex(v: V) returns (outcome: Outcome)
      requires Valid()
      modifies this
      ensures Valid()
      ensures v !in old(vertices.adj) ==> outcome == Fail(OutOfBounds) && vertices == old(vertices)
      ensures v in old(vertices.adj) ==>
        outcome == Done && vertices == AdjacencyStore.RemoveVertex(old(vertices), v)
    {
      if v !in vertices.adj {
        return Fail(OutOfBounds);
      }
      RemoveVertexValid(vertices, v);
      var detached := DetachAll(vertices, v);
      vertices := Unset(detached, v);
      outcome := Done;
    }

    /** removeEdge: reading the tail's set fails for a missing tail; the head
        is detached from it and the vertices stay. */
    method RemoveEdge(from: V, to: V) returns (outcome: Outcome)
      requires Valid()
      modifies this
      ensures Valid()
      ensures from !in old(vertices.adj) ==> outcome == Fail(UnexpectedValue) && vertices == old(vertices)
      ensures from in old(vertices.adj) ==> outcome == Done && vertices == DetachArc(old(vertices), from, to)
    {
      if from !in vertices.adj {
        return Fail(UnexpectedValue);
      }
      DetachArcEffect(vertices, from, to);
      vertices := DetachArc(vertices, from, to);
      outcome := Done;
    }

    /** eachEdge: the arcs, tail-major, as two-element arrays. */
    method EachEdge() returns (edges: seq<(V, V)>)
      requires Valid()
      ensures edges == ArcList(vertices)
    {
      edges := CollectArcs(vertices);
    }

    /** transpose: a new graph receives addDirectedEdge(head, tail) for each
        arc eachEdge yields. */
    method Transpose() returns (g: DirectedAdjacencyGraph<V>)
      requires Valid()
      ensures fresh(g) && g.Valid()
      ensures g.vertices == Transposed(vertices)
    {
      var edges := EachEdge();
      g := new DirectedAdjacencyGraph<V>();
      g.AddReversedArcs(edges);
    }

    /** The loop of transpose, run on the new graph. */
    method AddReversedArcs(edges: seq<(V, V)>)
      requires Valid() && vertices == Empty()
      modifies this
      ensures Valid() && vertices == AddReversed(Empty(), edges)
    {
      assert edges[0..] == edges;
      var i := 0;
      while i < |edges|
        invariant 0 <= i <= |edges|
        invariant Valid()
        invariant AddReversed(vertices, edges[i..]) == AddReversed(Empty(), edges)
      {
        var e := edges[i];
        assert edges[i..][0] == e && edges[i..][1..] == edges[i + 1..];
        AddDirectedEdge(e.1, e.0);
        i := i + 1;
      }
    }

    /** getCycles: Gliph\Tarjan's components of more than one vertex, or
        FALSE when there is none. */
    method GetCycles() returns (cycles: Option<seq<seq<V>>>)
      requires Valid()
      ensures cycles.None? <==> MultiVertex(Components(vertices)) == []
      ensures cycles.Some? ==> cycles.value == MultiVertex(Components(vertices))
    {
      var tarjan := new LegacyTarjan.Tarjan<V>();
      var scc := tarjan.GetCycles(vertices);
      if |scc| > 0 {
        cycles := Some(scc);
      } else {
        cycles := None;
      }
    }
  }

  /** Gliph\Graph\UndirectedAdjacencyGraph. */
  class UndirectedAdjacencyGraph<V(==)> {
    var vertices: Store<V>

    /** The store is well formed and every edge is stored both ways. */
    ghost predicate Valid()
      reads this
    {
      AdjacencyStore.Valid(vertices) && Sym(vertices)
    }

    constructor ()
      ensures Valid() && vertices == Empty()
    {
      vertices := Empty();
    }

    /** addEdge: both endpoints are added and each is attached to the
        other's set; symmetry is kept. */
    method AddEdge(from: V, to: V)
      requires Valid()
      modifies this
      ensures Valid() && vertices == UndirectedStore.AddEdge(old(vertices), from, to)
    {
      AddEdgeEffect(vertices, from, to);
      AddEdgeSym(vertices, from, to);
      vertices := Insert(Insert(vertices, from), to);
      var a1 := vertices.adj[from := Attach(vertices.adj[from], to)];
      vertices := Store(vertices.order, a1[to := Attach(a1[to], from)]);
    }

    /** removeVertex: a missing vertex raises OutOfRangeException before
        anything changes; otherwise v leaves each neighbour's set and is
        unset. */
    method RemoveVertex(v: V) returns (outcome: Outcome)
      requires Valid()
      modifies this
      ensures Valid()
      ensures v !in old(vertices.adj) ==> outcome == Fail(OutOfRange) && vertices == old(vertices)
      ensures v in old(vertices.adj) ==> outcome == Done && vertices == RemoveNeighbour(old(vertices), v)
    {
      if v !in vertices.adj {
        return Fail(OutOfRange);
      }
      RemoveNeighbourEffect(vertices, v);
      var detached := DetachNeighbours(vertices, v);
      vertices := Unset(detached, v);
      outcome := Done;
    }

    /** removeEdge: `to` leaves the set of `from`, then `from` leaves the
        set of `to`; reading the set of a missing endpoint fails, and by
        then nothing has changed. */
    method RemoveEdge(from: V, to: V) returns (outcome: Outcome)
      requires Valid()
      modifies this
      ensures Valid()
      ensures UndirectedStore.RemoveEdge(old(vertices), from, to).Err? ==>
        outcome == Fail(UnexpectedValue) && vertices == old(vertices)
      ensures UndirectedStore.RemoveEdge(old(vertices), from, to).Ok? ==>
        outcome == Done && vertices == UndirectedStore.RemoveEdge(old(vertices), from, to).value
    {
      if from !in vertices.adj {
        return Fail(UnexpectedValue);
      }
      ghost var s0 := vertices;
      RemoveEdgeEffect(s0, from, to);
      vertices := DetachArc(vertices, from, to);
      if to !in vertices.adj {
        assert to !in s0.adj[from];
        assert vertices.adj == s0.adj;
        return Fail(UnexpectedValue);
      }
      vertices := DetachArc(vertices, to, from);
      outcome := Done;
    }

    /** eachEdge: each edge once, collected before any callback. */
    method EachEdge() returns (edges: seq<(V, V)>)
      requires Valid()
      ensures edges == EdgeList(vertices)
    {
      edges := CollectEdges(vertices);
    }
  }

  /** Gliph\Graph\IncidenceGraph: the undirected graph that checks both the
      type of a vertex it adds and the presence of one it removes. */
  class IncidenceGraph<V(==)> {
    var vertices: Store<V>

    ghost predicate Valid()
      reads this
    {
      AdjacencyStore.Valid(vertices) && Sym(vertices)
    }

    constructor ()
      ensures Valid() && vertices == Empty()
    {
      vertices := Empty();
    }

    function HasVertex(v: V): (b: bool)
      reads this
      ensures b <==> v in vertices.adj
    {
      AdjacencyStore.HasVertex(vertices, v)
    }

    /** addVertex: a non-object raises OutOfBoundsException before anything
        changes; a new vertex gets an empty set, an existing one keeps its
        own. */
    method AddVertex(c: Candidate<V>) returns (outcome: Outcome)
      requires Valid()
      modifies this
      ensures Valid()
      ensures c.NonObject? ==> outcome == Fail(OutOfBounds) && vertices == old(vertices)
      ensures c.Object? ==> outcome == Done && vertices == Insert(old(vertices), c.obj)
      ensures c.Object? && old(HasVertex(c.obj)) ==> vertices == old(vertices)
    {
      if c.NonObject? {
        return Fail(OutOfBounds);
      }
      var v := c.obj;
      InsertValid(vertices, v);
      if !HasVertex(v) {
        vertices := Store(vertices.order + [v], vertices.adj[v := []]);
      }
      outcome := Done;
    }

    /** addEdge: both endpoints are added, each type-checked, `from` first;
        then each is attached to the other's set. */
    method AddEdge(from: Candidate<V>, to: Candidate<V>) returns (outcome: Outcome)
      requires Valid()
      modifies this
      ensures Valid()
      ensures from.NonObject? ==> outcome == Fail(OutOfBounds) && vertices == old(vertices)
      ensures from.Object? && to.NonObject? ==>
        outcome == Fail(OutOfBounds) && vertices == Insert(old(vertices), from.obj)
      ensures from.Object? && to.Object? ==>
        outcome == Done && vertices == UndirectedStore.AddEdge(old(vertices), from.obj, to.obj)
    {
      ghost var s0 := vertices;
      outcome := AddVertex(from);
      if outcome.Fail? {
        return;
      }
      outcome := AddVertex(to);
      if outcome.Fail? {
        return;
      }
      var u, w := from.obj, to.obj;
      AddEdgeEffect(s0, u, w);
      AddEdgeSym(s0, u, w);
      var a1 := vertices.adj[u := Attach(vertices.adj[u], w)];
      vertices := Store(vertices.order, a1[w := Attach(a1[w], u)]);
    }

    /** removeVertex: a missing vertex raises OutOfRangeException before
        anything changes; otherwise v leaves each neighbour's set and is
        unset. */
    method RemoveVertex(v: V) returns (outcome: Outcome)
      requires Valid()
      modifies this
      ensures Valid()
      ensures v !in old(vertices.adj) ==> outcome == Fail(OutOfRange) && vertices == old(vertices)
      ensures v in old(vertices.adj) ==> outcome == Done && vertices == RemoveNeighbour(old(vertices), v)
    {
      if !HasVertex(v) {
        return Fail(OutOfRange);
      }
      RemoveNeighbourEffect(vertices, v);
      var detached := DetachNeighbours(vertices, v);
      vertices := Unset(detached, v);
      outcome := Done;
    }

    /** removeEdge: as in the other undirected graphs. */
    method RemoveEdge(from: V, to: V) returns (outcome: Outcome)
      requires Valid()
      modifies this
      ensures Valid()
      ensures UndirectedStore.RemoveEdge(old(vertices), from, to).Err? ==>
        outcome == Fail(UnexpectedValue) && vertices == old(vertices)
      ensures UndirectedStore.RemoveEdge(old(vertices), from, to).Ok? ==>
        outcome == Done && vertices == UndirectedStore.RemoveEdge(old(vertices), from, to).value
    {
      if from !in vertices.adj {
        return Fail(UnexpectedValue);
      }
      ghost var s0 := vertices;
      RemoveEdgeEffect(s0, from, to);
      vertices := DetachArc(vertices, from, to);
      if to !in vertices.adj {
        assert to !in s0.adj[from];
        assert vertices.adj == s0.adj;
        return Fail(UnexpectedValue);
      }
      vertices := DetachArc(vertices, to, from);
      outcome := Done;
    }

    method EachAdjacent(v: V) returns (r: Result<seq<V>>)
      ensures r == Adjacent(vertices, v)
    {
      r := EachAdjacentScan(vertices, v);
    }

    method EachVertex() returns (es: seq<(V, seq<V>)>)
      requires Valid()
      ensures es == Entries(vertices)
    {
      es := StoreScans.EachVertex(vertices);
    }

    /** eachEdge: each edge once, collected before any callback. */
    method EachEdge() returns (edges: seq<(V, V)>)
      requires Valid()
      ensures edges == EdgeList(vertices)
    {
      edges := CollectEdges(vertices);
    }
  }

  /** The scenario of the directed tests: after the arcs (a, b) and (a, c)
      the vertices are [a, b, c] and eachEdge yields (a, b) then (a, c). */
  lemma DirectedScenario<V>(a: V, b: V, c: V)
    requires a != b && b != c && a != c
    ensures Keyed(AddArc(AddArc(Empty(), a, b), a, c))
    ensures AddArc(AddArc(Empty(), a, b), a, c).order == [a, b, c]
    ensures ArcList(AddArc(AddArc(Empty(), a, b), a, c)) == [(a, b), (a, c)]
  {
    var s := AddArc(AddArc(Empty(), a, b), a, c);
    ScenarioStore(a, b, c);
    assert Keyed(s) by {
      assert NoDup([a, b, c]);
    }
    ScenarioArcs(s, a, b, c);
  }

  lemma ScenarioStore<V>(a: V, b: V, c: V)
    requires a != b && b != c && a != c
    ensures var s := AddArc(AddArc(Empty(), a, b), a, c);
      s.order == [a, b, c] && s.adj.Keys == {a, b, c} && s.adj[a] == [b, c] && s.adj[b] == [] && s.adj[c] == []
  {
    var s1 := AddArc(Empty(), a, b);
    FirstArc(a, b);
    var i1 := Insert(s1, a);
    assert i1 == s1;
    var i2 := Insert(i1, c);
    assert i2.order == [a, b, c] && i2.adj == s1.adj[c := []];
    assert c != a && Attach([b], c) == [b, c];
  }

  lemma FirstArc<V>(a: V, b: V)
    requires a != b
    ensures var s := AddArc(Empty(), a, b);
      s.order == [a, b] && s.adj.Keys == {a, b} && s.adj[a] == [b] && s.adj[b] == []
  {
    var i1 := Insert(Empty(), a);
    assert i1.order == [a] && i1.adj == map[a := []];
    var i2 := Insert(i1, b);
    assert i2.order == [a, b] && i2.adj == map[a := [], b := []];
  }

  lemma ScenarioArcs<V>(s: Store<V>, a: V, b: V, c: V)
    requires s.order == [a, b, c] && s.adj.Keys == {a, b, c}
    requires s.adj[a] == [b, c] && s.adj[b] == [] && s.adj[c] == []
    ensures ArcsFrom(s.order, s.adj) == [(a, b), (a, c)]
  {
    assert [a, b, c][1..] == [b, c] && [b, c][1..] == [c] && [c][1..] == [];
    assert ArcsFrom([c], s.adj) == [];
    assert ArcsFrom([b, c], s.adj) == [];
    assert Pairs(a, [b, c]) == [(a, b), (a, c)];
  }

  /** ... and the transpose holds its vertices in order of first appearance
      among the reversed arcs, [b, a, c]. */
  lemma TransposeScenario<V>(a: V, b: V, c: V)
    requires a != b && b != c && a != c
    ensures AddReversed(Empty(), [(a, b), (a, c)]).order == [b, a, c]
  {
    var t1 := AddArc(Empty(), b, a);
    assert t1.order == [b, a] && t1.adj.Keys == {a, b};
    var t2 := AddArc(t1, c, a);
    assert t2.order == [b, a, c];
    assert [(a, b), (a, c)][1..] == [(a, c)] && [(a, c)][1..] == [];
    assert AddReversed(Empty(), [(a, b), (a, c)]) == AddReversed(t1, [(a, c)]);
    assert AddReversed(t1, [(a, c)]) == AddReversed(t2, []);
  }
}
