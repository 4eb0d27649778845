/** The two graph classes of the Gliph namespace that predate the Graph
    namespace: Gliph\DirectedAdjacencyGraph and Gliph\IncidenceGraph. Both
    keep the vertex store of AdjacencyStore in their `$vertices` field and
    check nothing: no vertex type and, on removal, no existence beyond what
    SplObjectStorage itself enforces. */
module LegacyGliph {
  import opened Common
  import opened AdjacencyStore
  import opened UndirectedStore
  import opened StoreScans
  import opened TarjanSpec
  import LegacyTarjan

  /** Gliph\DirectedAdjacencyGraph: each vertex maps to the set of heads of
      its outgoing arcs. */
  class DirectedAdjacencyGraph<V(==)> {
    var vertices: Store<V>

    ghost predicate Valid()
      reads this
    {
      AdjacencyStore.Valid(vertices)
    }

    constructor ()
      ensures Valid() && vertices == Empty()
    {
      vertices := Empty();
    }

    function HasVertex(v: V): (b: bool)
      reads this
      ensures b <==> v in vertices.adj
    {
      AdjacencyStore.HasVertex(vertices, v)
    }

    /** addVertex: a new vertex gets an empty set at the end of the order;
        adding a vertex again changes nothing. */
    method AddVertex(v: V)
      requires Valid()
      modifies this
      ensures Valid() && vertices == Insert(old(vertices), v)
      ensures old(HasVertex(v)) ==> vertices == old(vertices)
    {
      InsertValid(vertices, v);
      if !HasVertex(v) {
        vertices := Store(vertices.order + [v], vertices.adj[v := []]);
      }
    }

    /** addDirectedEdge: both endpoints are added, tail first, and the head
        is attached to the tail's set; a repeated arc changes nothing. */
    method AddDirectedEdge(from: V, to: V)
      requires Valid()
      modifies this
      ensures Valid() && vertices == AddArc(old(vertices), from, to)
      ensures (from, to) in Arcs(old(vertices)) ==> vertices == old(vertices)
    {
      ghost var s0 := vertices;
      AddArcValid(s0, from, to);
      AddVertex(from);
      AddVertex(to);
      vertices := Store(vertices.order, vertices.adj[from := Attach(vertices.adj[from], to)]);
      if (from, to) in Arcs(s0) {
        assert to in s0.adj[from];
        assert vertices.adj == s0.adj;
      }
    }

    /** removeVertex: v is unset, then detached from every remaining set.
        Nothing checks that v is a vertex, and for one that is not nothing
        changes. */
    method RemoveVertex(v: V)
      requires Valid()
      modifies this
      ensures Valid() && vertices == AdjacencyStore.RemoveVertex(old(vertices), v)
      ensures v !in old(vertices.adj) ==> vertices == old(vertices)
    {
      ghost var s0 := vertices;
      RemoveVertexValid(s0, v);
      if v !in s0.adj {
        RemoveAbsent(s0, v);
      }
      UnsetKeyed(s0, v);
      UnsetThenDetach(s0, v);
      var unset := Unset(vertices, v);
      vertices := DetachAll(unset, v);
    }

    /** removeEdge: reading the tail's set fails for a missing tail; the head
        is detached from it and nothing else changes. */
    method RemoveEdge(from: V, to: V) returns (outcome: Outcome)
      requires Valid()
      modifies this
      ensures Valid()
      ensures from !in old(vertices.adj) ==> outcome == Fail(UnexpectedValue) && vertices == old(vertices)
      ensures from in old(vertices.adj) ==> outcome == Done && vertices == DetachArc(old(vertices), from, to)
    {
      if from !in vertices.adj {
        return Fail(UnexpectedValue);
      }
      DetachArcEffect(vertices, from, to);
      vertices := DetachArc(vertices, from, to);
      outcome := Done;
    }

    method EachAdjacent(v: V) returns (r: Result<seq<V>>)
      ensures r == Adjacent(vertices, v)
    {
      r := EachAdjacentScan(vertices, v);
    }

    method EachVertex() returns (es: seq<(V, seq<V>)>)
      requires Valid()
      ensures es == Entries(vertices)
    {
      es := StoreScans.EachVertex(vertices);
    }

    /** eachEdge: every arc is collected, tail-major, before any callback. */
    method EachEdge() returns (edges: seq<(V, V)>)
      requires Valid()
      ensures edges == ArcList(vertices)
    {
      edges := CollectArcs(vertices);
    }

    /** transpose: a new graph receives addDirectedEdge(head, tail) for each
        arc eachEdge yields. */
    method Transpose() returns (g: DirectedAdjacencyGraph<V>)
      requires Valid()
      ensures fresh(g) && g.Valid()
      ensures g.vertices == Transposed(vertices)
    {
      var edges := EachEdge();
      g := new DirectedAdjacencyGraph<V>();
      g.AddReversedArcs(edges);
    }

    /** The loop of transpose, run on the new graph. */
    method AddReversedArcs(edges: seq<(V, V)>)
      requires Valid() && vertices == Empty()
      modifies this
      ensures Valid() && vertices == AddReversed(Empty(), edges)
    {
      assert edges[0..] == edges;
      var i := 0;
      while i < |edges|
        invariant 0 <= i <= |edges|
        invariant Valid()
        invariant AddReversed(vertices, edges[i..]) == AddReversed(Empty(), edges)
      {
        var e := edges[i];
        assert edges[i..][0] == e && edges[i..][1..] == edges[i + 1..];
        AddDirectedEdge(e.1, e.0);
        i := i + 1;
      }
    }

    /** getCycles: Gliph\Tarjan's components of more than one vertex, or
        FALSE when there is none. */
    method GetCycles() returns (cycles: Option<seq<seq<V>>>)
      requires Valid()
      ensures cycles.None? <==> MultiVertex(Components(vertices)) == []
      ensures cycles.Some? ==> cycles.value == MultiVertex(Components(vertices))
    {
      var tarjan := new LegacyTarjan.Tarjan<V>();
      var scc := tarjan.GetCycles(vertices);
      if |scc| > 0 {
        cycles := Some(scc);
      } else {
        cycles := None;
      }
    }
  }

  /** Gliph\IncidenceGraph: an undirected graph; each edge is recorded in
      the sets of both endpoints. */
  class IncidenceGraph<V(==)> {
    var vertices: Store<V>

    /** The store is well formed and every edge is stored both ways. */
    ghost predicate Valid()
      reads this
    {
      AdjacencyStore.Valid(vertices) && Sym(vertices)
    }

    constructor ()
      ensures Valid() && vertices == Empty()
    {
      vertices := Empty();
    }

    function HasVertex(v: V): (b: bool)
      reads this
      ensures b <==> v in vertices.adj
    {
      AdjacencyStore.HasVertex(vertices, v)
    }

    /** addVertex: a new vertex gets an empty set; an existing one keeps
        its own. */
    method AddVertex(v: V)
      requires Valid()
      modifies this
      ensures Valid() && vertices == Insert(old(vertices), v)
      ensures old(HasVertex(v)) ==> vertices == old(vertices)
    {
      InsertValid(vertices, v);
      if !HasVertex(v) {
        vertices := Store(vertices.order + [v], vertices.adj[v := []]);
      }
    }

    /** addEdge: both endpoints are added and each is attached to the
        other's set; symmetry is kept. */
    method AddEdge(from: V, to: V)
      requires Valid()
      modifies this
      ensures Valid() && vertices == UndirectedStore.AddEdge(old(vertices), from, to)
    {
      ghost var s0 := vertices;
      AddEdgeEffect(s0, from, to);
      AddEdgeSym(s0, from, to);
      AddVertex(from);
      AddVertex(to);
      var a1 := vertices.adj[from := Attach(vertices.adj[from], to)];
      vertices := Store(vertices.order, a1[to := Attach(a1[to], from)]);
    }

    /** removeVertex: reading the set of a missing vertex fails before
        anything changes; otherwise v leaves each neighbour's set and is
        unset. */
    method RemoveVertex(v: V) returns (outcome: Outcome)
      requires Valid()
      modifies this
      ensures Valid()
      ensures v !in old(vertices.adj) ==> outcome == Fail(UnexpectedValue) && vertices == old(vertices)
      ensures v in old(vertices.adj) ==> outcome == Done && vertices == RemoveNeighbour(old(vertices), v)
    {
      if v !in vertices.adj {
        return Fail(UnexpectedValue);
      }
      RemoveNeighbourEffect(vertices, v);
      var detached := DetachNeighbours(vertices, v);
      vertices := Unset(detached, v);
      outcome := Done;
    }

    /** removeEdge: `to` leaves the set of `from`, then `from` leaves the
        set of `to`; reading the set of a missing endpoint fails, and by
        then nothing has changed. */
    method RemoveEdge(from: V, to: V) returns (outcome: Outcome)
      requires Valid()
      modifies this
      ensures Valid()
      ensures UndirectedStore.RemoveEdge(old(vertices), from, to).Err? ==>
        outcome == Fail(UnexpectedValue) && vertices == old(vertices)
      ensures UndirectedStore.RemoveEdge(old(vertices), from, to).Ok? ==>
        outcome == Done && vertices == UndirectedStore.RemoveEdge(old(vertices), from, to).value
    {
      if from !in vertices.adj {
        return Fail(UnexpectedValue);
      }
      ghost var s0 := vertices;
      RemoveEdgeEffect(s0, from, to);
      vertices := DetachArc(vertices, from, to);
      if to !in vertices.adj {
        assert to !in s0.adj[from];
        assert vertices.adj == s0.adj;
        return Fail(UnexpectedValue);
      }
      vertices := DetachArc(vertices, to, from);
      outcome := Done;
    }

    method EachAdjacent(v: V) returns (r: Result<seq<V>>)
      ensures r == Adjacent(vertices, v)
    {
      r := EachAdjacentScan(vertices, v);
    }

    method EachVertex() returns (es: seq<(V, seq<V>)>)
      requires Valid()
      ensures es == Entries(vertices)
    {
      es := StoreScans.EachVertex(vertices);
    }

    /** eachEdge: each edge once, collected before any callback. */
    method EachEdge() returns (edges: seq<(V, V)>)
      requires Valid()
      ensures edges == EdgeList(vertices)
    {
      edges := CollectEdges(vertices);
    }
  }
}
