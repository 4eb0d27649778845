/** Gliph\Graph\AdjacencyList and its two subclasses. The abstract base keeps
    the vertex store; its operations are the store functions of
    AdjacencyStore and the scans of StoreScans, which both classes call.
    Every mutator states its whole new state, and every class keeps an
    invariant its mutators preserve. */
module AdjacencyLists {
  import opened Common
  import opened AdjacencyStore
  import opened UndirectedStore
  import opened StoreScans
  import opened TarjanSpec
  import ConnectedComponent
  import opened Visitors
  import DfsSpec
  import DepthFirstSearch

  /** Gliph\Graph\DirectedAdjacencyList: a store and the `size` counter of
      arcs added. */
  class DirectedAdjacencyList<V(==)> {
    var vertices: Store<V>
    var size: nat

    /** The store is well formed, and `size`, which removals never lower,
        is at least the number of arcs. */
    ghost predicate Valid()
      reads this
    {
      AdjacencyStore.Valid(vertices) && ArcCount(vertices) <= size
    }

    constructor ()
      ensures Valid() && vertices == Empty() && size == 0
    {
      vertices := Empty();
      size := 0;
    }

    /** addVertex: a non-object is refused before anything changes; a new
        vertex gets an empty set, an existing one keeps its own. */
    method AddVertex(c: Candidate<V>) returns (outcome: Outcome)
      requires Valid()
      modifies this
      ensures Valid() && size == old(size)
      ensures c.NonObject? ==> outcome == Fail(InvalidVertexType) && vertices == old(vertices)
      ensures c.Object? ==> outcome == Done && vertices == Insert(old(vertices), c.obj)
    {
      match AdjacencyStore.AddVertex(vertices, c)
      case Err(e) =>
        outcome := Fail(e);
      case Ok(s) =>
        InsertValid(vertices, c.obj);
        InsertCount(vertices, c.obj);
        vertices := s;
        outcome := Done;
    }

    function HasVertex(v: V): (b: bool)
      reads this
      ensures b <==> v in vertices.adj
    {
      AdjacencyStore.HasVertex(vertices, v)
    }

    method EachAdjacent(v: V) returns (r: Result<seq<V>>)
      ensures r == Adjacent(vertices, v)
    {
      r := EachAdjacentScan(vertices, v);
    }

    method EachVertex() returns (es: seq<(V, seq<V>)>)
      requires Valid()
      ensures es == Entries(vertices)
    {
      es := StoreScans.EachVertex(vertices);
    }

    /** addDirectedEdge: both endpoints are added (each type-checked, the
        tail first), `size` grows when the arc is new, and the head is
        attached to the tail's set. */
    method AddDirectedEdge(tail: Candidate<V>, head: Candidate<V>) returns (outcome: Outcome)
      requires Valid()
      modifies this
      ensures Valid()
      ensures tail.NonObject? ==> outcome == Fail(InvalidVertexType) && vertices == old(vertices) && size == old(size)
      ensures tail.Object? && head.NonObject? ==>
        outcome == Fail(InvalidVertexType) && vertices == Insert(old(vertices), tail.obj) && size == old(size)
      ensures tail.Object? && head.Object? ==>
        && outcome == Done
        && vertices == AddArc(old(vertices), tail.obj, head.obj)
        && size == old(size) + (if (tail.obj, head.obj) in Arcs(old(vertices)) then 0 else 1)
    {
      ghost var s0 := vertices;
      outcome := AddVertex(tail);
      if outcome.Fail? {
        return;
      }
      outcome := AddVertex(head);
      if outcome.Fail? {
        return;
      }
      var t, h := tail.obj, head.obj;
      assert (t, h) in Arcs(s0) <==> h in vertices.adj[t];
      AddArcCount(s0, t, h);
      if h !in vertices.adj[t] {
        size := size + 1;
      }
      vertices := Store(vertices.order, vertices.adj[t := Attach(vertices.adj[t], h)]);
    }

    /** removeVertex: a missing vertex is refused before anything changes;
        otherwise v is detached from every set and then unset. */
    method RemoveVertex(v: V) returns (outcome: Outcome)
      requires Valid()
      modifies this
      ensures Valid() && size == old(size)
      ensures v !in old(vertices.adj) ==> outcome == Fail(NonexistentVertex) && vertices == old(vertices)
      ensures v in old(vertices.adj) ==>
        outcome == Done && vertices == AdjacencyStore.RemoveVertex(old(vertices), v)
    {
      if !HasVertex(v) {
        return Fail(NonexistentVertex);
      }
      RemoveVertexCount(vertices, v);
      var detached := DetachAll(vertices, v);
      vertices := Unset(detached, v);
      outcome := Done;
    }

    /** removeEdge: reading the tail's set fails for a missing tail; the
        head is detached from it, and `size` stays as it is. */
    method RemoveEdge(tail: V, head: V) returns (outcome: Outcome)
      requires Valid()
      modifies this
      ensures Valid() && size == old(size)
      ensures tail !in old(vertices.adj) ==> outcome == Fail(UnexpectedValue) && vertices == old(vertices)
      ensures tail in old(vertices.adj) ==> outcome == Done && vertices == DetachArc(old(vertices), tail, head)
    {
      if tail !in vertices.adj {
        return Fail(UnexpectedValue);
      }
      DetachArcCount(vertices, tail, head);
      vertices := DetachArc(vertices, tail, head);
      outcome := Done;
    }

    method EachEdge() returns (edges: seq<(V, V)>)
      requires Valid()
      ensures edges == ArcList(vertices)
    {
      edges := CollectArcs(vertices);
    }

    /** transpose: a fresh graph receives addDirectedEdge(head, tail) for
        every arc eachEdge yields. Every reversed arc is new to it, so its
        `size` is the arc count. */
    method Transpose() returns (g: DirectedAdjacencyList<V>)
      requires Valid()
      ensures fresh(g) && g.Valid()
      ensures g.vertices == Transposed(vertices)
      ensures g.size == ArcCount(vertices)
    {
      var edges := EachEdge();
      ArcListIsArcs(vertices);
      g := new DirectedAdjacencyList<V>();
      g.AddReversedArcs(edges);
    }

    /** The loop of transpose, on the new graph: addDirectedEdge(head, tail)
        for each listed arc, none of which repeats. */
    method AddReversedArcs(edges: seq<(V, V)>)
      requires Valid() && vertices == Empty() && size == 0 && NoDup(edges)
      modifies this
      ensures Valid() && vertices == AddReversed(Empty(), edges) && size == |edges|
    {
      assert edges[0..] == edges;
      assert ReversesFirst(vertices, edges, 0);
      var i := 0;
      while i < |edges|
        invariant 0 <= i <= |edges|
        invariant Valid() && size == i
        invariant AddReversed(vertices, edges[i..]) == AddReversed(Empty(), edges)
        invariant ReversesFirst(vertices, edges, i)
      {
        var e := edges[i];
        assert edges[i..][0] == e && edges[i..][1..] == edges[i + 1..];
        ReversedStep(vertices, edges, i);
        var outcome := AddDirectedEdge(Object(e.1), Object(e.0));
        i := i + 1;
      }
    }

    /** isAcyclic: a depth-first traversal from the graph's sources with a
        toposort visitor, whose back-edge hook throws; FALSE when it throws,
        or when no source exists to start from. */
    method IsAcyclic() returns (b: bool)
      requires Valid()
      ensures b <==> DfsSpec.Sources(vertices) != [] && !HasBackEdge(DfsSpec.Search(vertices).events)
    {
      var dfs := new DepthFirstSearch.DepthFirstSearch<V>(vertices, {BackEdge});
      var sources := dfs.Traverse(vertices);
      DeliveredBackEdges(DfsSpec.Search(vertices).events);
      b := sources != [] && dfs.calls == [];
    }

    method InDegree(v: V) returns (r: Result<nat>)
      requires Valid()
      ensures r.Ok? <==> v in vertices.adj
      ensures r.Ok? ==> r.value == |Predecessors(vertices, v)|
      ensures r.Err? ==> r.error == NonexistentVertex
    {
      if !HasVertex(v) {
        return Err(NonexistentVertex);
      }
      var n := CountPredecessors(vertices, v);
      r := Ok(n);
    }

    method OutDegree(v: V) returns (r: Result<nat>)
      ensures r.Ok? <==> v in vertices.adj
      ensures r.Ok? ==> r.value == |vertices.adj[v]|
      ensures r.Err? ==> r.error == NonexistentVertex
    {
      if !HasVertex(v) {
        return Err(NonexistentVertex);
      }
      r := Ok(|vertices.adj[v]|);
    }

    /** getCycles: the components of tarjan_scc with more than one vertex. */
    method GetCycles() returns (cycles: seq<seq<V>>)
      requires Valid()
      ensures cycles == MultiVertex(Components(vertices))
    {
      var all := ConnectedComponent.TarjanScc(vertices);
      cycles := MultiVertex(all);
    }
  }

  /** Gliph\Graph\UndirectedAdjacencyList: a symmetric store and the `size`
      counter of edges added. */
  class UndirectedAdjacencyList<V(==)> {
    var vertices: Store<V>
    var size: nat

    /** The store is well formed and every edge is stored both ways. */
    ghost predicate Valid()
      reads this
    {
      AdjacencyStore.Valid(vertices) && Sym(vertices)
    }

    constructor ()
      ensures Valid() && vertices == Empty() && size == 0
    {
      vertices := Empty();
      size := 0;
    }

    method AddVertex(c: Candidate<V>) returns (outcome: Outcome)
      requires Valid()
      modifies this
      ensures Valid() && size == old(size)
      ensures c.NonObject? ==> outcome == Fail(InvalidVertexType) && vertices == old(vertices)
      ensures c.Object? ==> outcome == Done && vertices == Insert(old(vertices), c.obj)
    {
      match AdjacencyStore.AddVertex(vertices, c)
      case Err(e) =>
        outcome := Fail(e);
      case Ok(s) =>
        InsertValid(vertices, c.obj);
        vertices := s;
        outcome := Done;
    }

    function HasVertex(v: V): (b: bool)
      reads this
      ensures b <==> v in vertices.adj
    {
      AdjacencyStore.HasVertex(vertices, v)
    }

    method EachAdjacent(v: V) returns (r: Result<seq<V>>)
      ensures r == Adjacent(vertices, v)
    {
      r := EachAdjacentScan(vertices, v);
    }

    method EachVertex() returns (es: seq<(V, seq<V>)>)
      requires Valid()
      ensures es == Entries(vertices)
    {
      es := StoreScans.EachVertex(vertices);
    }

    /** addEdge: both endpoints are added, `size` grows when the edge is
        new (in either orientation, by symmetry), and each endpoint is
        attached to the other's set. */
    method AddEdge(from: Candidate<V>, to: Candidate<V>) returns (outcome: Outcome)
      requires Valid()
      modifies this
      ensures Valid()
      ensures from.NonObject? ==> outcome == Fail(InvalidVertexType) && vertices == old(vertices) && size == old(size)
      ensures from.Object? && to.NonObject? ==>
        outcome == Fail(InvalidVertexType) && vertices == Insert(old(vertices), from.obj) && size == old(size)
      ensures from.Object? && to.Object? ==>
        && outcome == Done
        && vertices == UndirectedStore.AddEdge(old(vertices), from.obj, to.obj)
        && size == old(size) + (if (from.obj, to.obj) in Arcs(old(vertices)) then 0 else 1)
    {
      ghost var s0 := vertices;
      outcome := AddVertex(from);
      if outcome.Fail? {
        return;
      }
      outcome := AddVertex(to);
      if outcome.Fail? {
        return;
      }
      var u, w := from.obj, to.obj;
      assert (u, w) in Arcs(s0) <==> w in vertices.adj[u];
      AddEdgeSym(s0, u, w);
      AddEdgeEffect(s0, u, w);
      if w !in vertices.adj[u] {
        size := size + 1;
      }
      var a1 := vertices.adj[u := Attach(vertices.adj[u], w)];
      vertices := Store(vertices.order, a1[w := Attach(a1[w], u)]);
    }

    /** removeVertex: a missing vertex is refused before anything changes;
        otherwise v leaves the set of each of its neighbours and is unset. */
    method RemoveVertex(v: V) returns (outcome: Outcome)
      requires Valid()
      modifies this
      ensures Valid() && size == old(size)
      ensures v !in old(vertices.adj) ==> outcome == Fail(NonexistentVertex) && vertices == old(vertices)
      ensures v in old(vertices.adj) ==> outcome == Done && vertices == RemoveNeighbour(old(vertices), v)
    {
      if !HasVertex(v) {
        return Fail(NonexistentVertex);
      }
      RemoveNeighbourEffect(vertices, v);
      var detached := DetachNeighbours(vertices, v);
      vertices := Unset(detached, v);
      outcome := Done;
    }

    /** removeEdge: `to` leaves the set of `from`, then `from` leaves the
        set of `to`; reading the set of a missing endpoint fails, and by
        then nothing has changed. */
    method RemoveEdge(from: V, to: V) returns (outcome: Outcome)
      requires Valid()
      modifies this
      ensures Valid() && size == old(size)
      ensures UndirectedStore.RemoveEdge(old(vertices), from, to).Err? ==>
        outcome == Fail(UnexpectedValue) && vertices == old(vertices)
      ensures UndirectedStore.RemoveEdge(old(vertices), from, to).Ok? ==>
        outcome == Done && vertices == UndirectedStore.RemoveEdge(old(vertices), from, to).value
    {
      if from !in vertices.adj {
        return Fail(UnexpectedValue);
      }
      ghost var s0 := vertices;
      RemoveEdgeEffect(s0, from, to);
      vertices := DetachArc(vertices, from, to);
      if to !in vertices.adj {
        assert to !in s0.adj[from];
        assert vertices.adj == s0.adj;
        return Fail(UnexpectedValue);
      }
      vertices := DetachArc(vertices, to, from);
      outcome := Done;
    }

    method EachEdge() returns (edges: seq<(V, V)>)
      requires Valid()
      ensures edges == EdgeList(vertices)
    {
      edges := CollectEdges(vertices);
    }

    method InDegree(v: V) returns (r: Result<nat>)
      ensures r.Ok? <==> v in vertices.adj
      ensures r.Ok? ==> r.value == |vertices.adj[v]|
      ensures r.Err? ==> r.error == NonexistentVertex
    {
      if !HasVertex(v) {
        return Err(NonexistentVertex);
      }
      r := Ok(|vertices.adj[v]|);
    }

    method OutDegree(v: V) returns (r: Result<nat>)
      ensures r.Ok? <==> v in vertices.adj
      ensures r.Ok? ==> r.value == |vertices.adj[v]|
      ensures r.Err? ==> r.error == NonexistentVertex
    {
      if !HasVertex(v) {
        return Err(NonexistentVertex);
      }
      r := Ok(|vertices.adj[v]|);
    }
  }
}
