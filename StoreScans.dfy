/** The loops the graph classes run over their vertex store, each proved to
    compute the store function that specifies it. */
module StoreScans {
  import opened Common
  import opened AdjacencyStore
  import opened UndirectedStore

  /** fev: one pass over the storage, handing each vertex and its set on. */
  method EachVertex<V>(s: Store<V>) returns (es: seq<(V, seq<V>)>)
    requires Keyed(s)
    ensures es == Entries(s)
  {
    es := [];
    var i := 0;
    while i < |s.order|
      invariant 0 <= i <= |s.order|
      invariant es == Entries(s)[..i]
    {
      var v := s.order[i];
      es := es + [(v, s.adj[v])];
      i := i + 1;
    }
  }

  /** eachAdjacent: the callback receives each member of v's set in attach
      order; reading the set of a missing vertex fails. */
  method EachAdjacentScan<V>(s: Store<V>, v: V) returns (r: Result<seq<V>>)
    ensures r == Adjacent(s, v)
  {
    if v !in s.adj {
      return Err(UnexpectedValue);
    }
    var hs := s.adj[v];
    var calls: seq<V> := [];
    var i := 0;
    while i < |hs|
      invariant 0 <= i <= |hs|
      invariant calls == hs[..i]
    {
      calls := calls + [hs[i]];
      i := i + 1;
    }
    assert hs[..i] == hs;
    r := Ok(calls);
  }

  /** The sets of the vertices in vs with v detached, the others untouched. */
  ghost function DetachIn<V>(adj: map<V, seq<V>>, vs: seq<V>, v: V): map<V, seq<V>> {
    map u | u in adj :: if u in vs then Detach(adj[u], v) else adj[u]
  }

  lemma DetachInStep<V>(adj: map<V, seq<V>>, vs: seq<V>, u: V, v: V)
    requires u in adj && u !in vs
    ensures DetachIn(adj, vs + [u], v) == DetachIn(adj, vs, v)[u := Detach(adj[u], v)]
  {
  }

  /** The loop of the directed removeVertex: v is detached from every set. */
  method DetachAll<V>(s: Store<V>, v: V) returns (r: Store<V>)
    requires Keyed(s)
    ensures r == DetachEverywhere(s, v)
  {
    r := s;
    assert DetachIn(s.adj, s.order[..0], v) == s.adj;
    var i := 0;
    while i < |s.order|
      invariant 0 <= i <= |s.order|
      invariant r == Store(s.order, DetachIn(s.adj, s.order[..i], v))
    {
      var u := s.order[i];
      assert u !in s.order[..i];
      TakeNext(s.order, i);
      DetachInStep(s.adj, s.order[..i], u, v);
      r := Store(r.order, r.adj[u := Detach(r.adj[u], v)]);
      i := i + 1;
    }
    assert s.order[..i] == s.order;
  }

  lemma {:induction false} ArcsFromAppend<V>(vs: seq<V>, adj: map<V, seq<V>>, v: V)
    requires forall u :: u in vs ==> u in adj
    requires v in adj
    ensures ArcsFrom(vs + [v], adj) == ArcsFrom(vs, adj) + Pairs(v, adj[v])
  {
    if vs == [] {
      assert [v][1..] == [];
    } else {
      assert (vs + [v])[1..] == vs[1..] + [v];
      ArcsFromAppend(vs[1..], adj, v);
    }
  }

  /** The directed eachEdge: for each vertex in order, one pair per member
      of its set. */
  method CollectArcs<V>(s: Store<V>) returns (edges: seq<(V, V)>)
    requires Keyed(s)
    ensures edges == ArcList(s)
  {
    edges := [];
    var i := 0;
    while i < |s.order|
      invariant 0 <= i <= |s.order|
      invariant edges == ArcsFrom(s.order[..i], s.adj)
    {
      var t := s.order[i];
      var hs := s.adj[t];
      var j := 0;
      while j < |hs|
        invariant 0 <= j <= |hs|
        invariant edges == ArcsFrom(s.order[..i], s.adj) + Pairs(t, hs[..j])
      {
        assert Pairs(t, hs[..j + 1]) == Pairs(t, hs[..j]) + [(t, hs[j])];
        edges := edges + [(t, hs[j])];
        j := j + 1;
      }
      assert hs[..j] == hs;
      assert s.order[..i + 1] == s.order[..i] + [t];
      ArcsFromAppend(s.order[..i], s.adj, t);
      i := i + 1;
    }
    assert s.order[..i] == s.order;
  }

  /** The inner loop of the undirected eachEdge: the pairs (v, a) for the
      members a of v's set that are not complete. */
  method CollectFresh<V(==)>(v: V, hs: seq<V>, complete: seq<V>) returns (found: seq<(V, V)>)
    ensures found == FreshPairs(v, hs, complete)
  {
    found := [];
    assert hs[0..] == hs;
    var j := 0;
    while j < |hs|
      invariant 0 <= j <= |hs|
      invariant found + FreshPairs(v, hs[j..], complete) == FreshPairs(v, hs, complete)
    {
      assert hs[j..][1..] == hs[j + 1..];
      if hs[j] !in complete {
        found := found + [(v, hs[j])];
      }
      j := j + 1;
    }
  }

  /** The undirected eachEdge: a neighbour is listed unless it is already
      complete, and each vertex becomes complete after its own pass. */
  method CollectEdges<V>(s: Store<V>) returns (edges: seq<(V, V)>)
    requires Keyed(s)
    ensures edges == EdgeList(s)
  {
    edges := [];
    var complete: seq<V> := [];
    var i := 0;
    while i < |s.order|
      invariant 0 <= i <= |s.order|
      invariant complete == s.order[..i]
      invariant edges + EdgesFrom(s, i) == EdgeList(s)
    {
      var v := s.order[i];
      var found := CollectFresh(v, s.adj[v], complete);
      ghost var rest := EdgesFrom(s, i + 1);
      assert EdgesFrom(s, i) == found + rest;
      assert edges + (found + rest) == (edges + found) + rest;
      edges := edges + found;
      assert v !in s.order[..i];
      assert s.order[..i + 1] == s.order[..i] + [v];
      complete := Attach(complete, v);
      i := i + 1;
    }
  }

  /** The loop of the directed inDegree: count the sets holding v. */
  method CountPredecessors<V>(s: Store<V>, v: V) returns (n: nat)
    ensures n == |Predecessors(s, v)|
  {
    n := 0;
    var keep := u => u in s.adj && v in s.adj[u];
    assert s.order[0..] == s.order;
    var i := 0;
    while i < |s.order|
      invariant 0 <= i <= |s.order|
      invariant n + |Filter(s.order[i..], keep)| == |Filter(s.order, keep)|
    {
      var u := s.order[i];
      FilterDrop(s.order, i, keep);
      if keep(u) {
        n := n + 1;
      }
      i := i + 1;
    }
  }

  /** The loop of the undirected removeVertex, over a snapshot of v's set. */
  method DetachNeighbours<V>(s: Store<V>, v: V) returns (r: Store<V>)
    requires Closed(s) && v in s.adj
    ensures r == Store(s.order, DetachFromEach(s.adj, v, s.adj[v]))
  {
    var ns := s.adj[v];
    r := s;
    var i := 0;
    while i < |ns|
      invariant 0 <= i <= |ns|
      invariant r.order == s.order && r.adj.Keys == s.adj.Keys
      invariant DetachFromEach(r.adj, v, ns[i..]) == DetachFromEach(s.adj, v, ns)
    {
      var a := ns[i];
      assert ns[i..][1..] == ns[i + 1..];
      r := Store(r.order, r.adj[a := Detach(r.adj[a], v)]);
      i := i + 1;
    }
  }
}
