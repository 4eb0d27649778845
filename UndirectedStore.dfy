/** The undirected reading of the vertex store: an edge {u, w} is recorded
    as w in u's set and u in w's set. */
module UndirectedStore {
  import opened Common
  import opened AdjacencyStore

  /** Adjacency is symmetric. */
  ghost predicate Sym<V>(s: Store<V>) {
    forall u, w :: u in s.adj && w in s.adj[u] ==> w in s.adj && u in s.adj[w]
  }

  lemma SymArcs<V>(s: Store<V>)
    ensures Sym(s) <==> forall e :: e in Arcs(s) ==> (e.1, e.0) in Arcs(s)
  {
    if forall e :: e in Arcs(s) ==> (e.1, e.0) in Arcs(s) {
      forall u, w | u in s.adj && w in s.adj[u] ensures w in s.adj && u in s.adj[w] {
        assert (u, w) in Arcs(s);
        assert (w, u) in Arcs(s);
      }
    }
  }

  /** addEdge on the store: both endpoints become vertices, then each is
      attached to the other's set (to's set second). */
  function AddEdge<V>(s: Store<V>, u: V, w: V): Store<V> {
    var s1 := Insert(Insert(s, u), w);
    var a1 := s1.adj[u := Attach(s1.adj[u], w)];
    Store(s1.order, a1[w := Attach(a1[w], u)])
  }

  /** addEdge is the arc (u, w) followed by the arc (w, u). */
  lemma AddEdgeIsTwoArcs<V>(s: Store<V>, u: V, w: V)
    ensures AddEdge(s, u, w) == AddArc(AddArc(s, u, w), w, u)
  {
    var d := AddArc(s, u, w);
    assert u in d.adj && w in d.adj;
    assert Insert(Insert(d, w), u) == d;
  }

  /** addEdge adds the edge in both directions and nothing else, keeps the
      store valid and symmetric, and grows the order by the new endpoints. */
  lemma AddEdgeEffect<V>(s: Store<V>, u: V, w: V)
    requires Valid(s)
    ensures var r := AddEdge(s, u, w);
      && Valid(r)
      && Arcs(r) == Arcs(s) + {(u, w), (w, u)}
      && r.adj.Keys == s.adj.Keys + {u, w}
      && r.order == s.order + (if u in s.adj then [] else [u])
                            + (if w in s.adj || w == u then [] else [w])
  {
    AddEdgeIsTwoArcs(s, u, w);
    var d := AddArc(s, u, w);
    AddArcValid(s, u, w);
    AddArcValid(d, w, u);
    AddEdgeArcs(s, u, w);
    AddArcShape(s, u, w);
    AddArcShape(d, w, u);
  }

  lemma AddEdgeArcs<V>(s: Store<V>, u: V, w: V)
    requires Valid(s)
    ensures Arcs(AddEdge(s, u, w)) == Arcs(s) + {(u, w), (w, u)}
  {
    AddEdgeIsTwoArcs(s, u, w);
    var d := AddArc(s, u, w);
    AddArcValid(s, u, w);
    AddArcArcs(s, u, w);
    AddArcArcs(d, w, u);
  }

  lemma AddEdgeSym<V>(s: Store<V>, u: V, w: V)
    requires Valid(s) && Sym(s)
    ensures Sym(AddEdge(s, u, w))
  {
    AddEdgeArcs(s, u, w);
    var r := AddEdge(s, u, w);
    SymArcs(s);
    forall e | e in Arcs(r) ensures (e.1, e.0) in Arcs(r) {
      if e in Arcs(s) {
        assert (e.1, e.0) in Arcs(s);
      }
    }
    SymArcs(r);
  }

  /** Under symmetry the edge is known in either orientation or in neither:
      this is why re-adding an edge reversed does not count it again. */
  lemma EdgeBothWays<V>(s: Store<V>, u: V, w: V)
    requires Sym(s)
    ensures (u, w) in Arcs(s) <==> (w, u) in Arcs(s)
  {
    SymArcs(s);
  }

  /** removeEdge on the store: `$this->vertices[$from]` throws for an absent
      `from` before anything changes; after the first detach, an absent `to`
      throws in turn, but in a closed store that detach changed nothing. */
  function RemoveEdge<V>(s: Store<V>, u: V, w: V): Result<Store<V>> {
    if u !in s.adj then Err(UnexpectedValue)
    else
      var s1 := DetachArc(s, u, w);
      if w !in s1.adj then Err(UnexpectedValue) else Ok(DetachArc(s1, w, u))
  }

  /** removeEdge fails exactly when an endpoint is missing; otherwise both
      directions go, the vertices stay, and symmetry is kept. */
  lemma RemoveEdgeEffect<V>(s: Store<V>, u: V, w: V)
    requires Valid(s)
    ensures RemoveEdge(s, u, w).Err? <==> u !in s.adj || w !in s.adj
    ensures RemoveEdge(s, u, w).Err? ==> RemoveEdge(s, u, w).error == UnexpectedValue
    ensures RemoveEdge(s, u, w).Ok? ==>
      var r := RemoveEdge(s, u, w).value;
      && Valid(r) && r.order == s.order && r.adj.Keys == s.adj.Keys
      && Arcs(r) == Arcs(s) - {(u, w), (w, u)}
      && (Sym(s) ==> Sym(r))
  {
    if u in s.adj && w in s.adj {
      var s1 := DetachArc(s, u, w);
      DetachArcEffect(s, u, w);
      DetachArcEffect(s1, w, u);
      var r := RemoveEdge(s, u, w).value;
      if Sym(s) {
        SymArcs(s);
        SymArcs(r);
      }
    }
  }

  /** The loop of removeVertex: for each neighbour a in the snapshot ns,
      detach v from a's set. */
  function DetachFromEach<V>(adj: map<V, seq<V>>, v: V, ns: seq<V>): (r: map<V, seq<V>>)
    requires forall a :: a in ns ==> a in adj
    ensures r.Keys == adj.Keys
  {
    if ns == [] then adj
    else DetachFromEach(adj[ns[0] := Detach(adj[ns[0]], v)], v, ns[1..])
  }

  lemma {:induction false} DetachFromEachValues<V>(adj: map<V, seq<V>>, v: V, ns: seq<V>, u: V)
    requires forall a :: a in ns ==> a in adj
    requires u in adj
    ensures DetachFromEach(adj, v, ns)[u] == if u in ns then Detach(adj[u], v) else adj[u]
  {
    if ns != [] {
      var adj' := adj[ns[0] := Detach(adj[ns[0]], v)];
      DetachFromEachValues(adj', v, ns[1..], u);
      if u == ns[0] && u in ns[1..] {
        assert v !in Detach(adj[u], v);
      }
    }
  }

  /** Undirected removeVertex on the store: v leaves each neighbour's set,
      then its own entry goes. */
  function RemoveNeighbour<V>(s: Store<V>, v: V): Store<V>
    requires Closed(s) && v in s.adj
  {
    Unset(Store(s.order, DetachFromEach(s.adj, v, s.adj[v])), v)
  }

  /** Scanning only v's neighbours suffices: under symmetry the result is
      the directed removal, which scans every set. */
  lemma RemoveNeighbourIsRemoveVertex<V>(s: Store<V>, v: V)
    requires Valid(s) && Sym(s) && v in s.adj
    ensures RemoveNeighbour(s, v) == RemoveVertex(s, v)
  {
    var m := DetachFromEach(s.adj, v, s.adj[v]);
    var d := DetachEverywhere(s, v);
    forall u | u in s.adj ensures m[u] == d.adj[u] {
      DetachFromEachValues(s.adj, v, s.adj[v], u);
      if u !in s.adj[v] {
        assert v !in s.adj[u];
      }
    }
    assert m == d.adj;
  }

  /** Undirected removeVertex: v is gone from the vertices and from every
      set, exactly the edges not touching v remain, and symmetry is kept. */
  lemma RemoveNeighbourEffect<V>(s: Store<V>, v: V)
    requires Valid(s) && Sym(s) && v in s.adj
    ensures var r := RemoveNeighbour(s, v);
      && Valid(r) && Sym(r)
      && !HasVertex(r, v)
      && (forall u :: u in r.adj ==> v !in r.adj[u])
      && r.adj.Keys == s.adj.Keys - {v}
      && Arcs(r) == set e | e in Arcs(s) && e.0 != v && e.1 != v
  {
    RemoveNeighbourIsRemoveVertex(s, v);
    RemoveVertexEffect(s, v);
    SymArcs(s);
    SymArcs(RemoveNeighbour(s, v));
  }

  // ---------------------------------------------------------------------
  // eachEdge: every vertex in order lists its neighbours that are not yet
  // complete, then becomes complete.

  /** The pairs (v, a), in order, for the members a of hs that are not
      among the complete vertices. */
  function FreshPairs<V(==)>(v: V, hs: seq<V>, complete: seq<V>): seq<(V, V)> {
    if hs == [] then []
    else (if hs[0] in complete then [] else [(v, hs[0])]) + FreshPairs(v, hs[1..], complete)
  }

  lemma {:induction false} FreshPairsMembers<V>(v: V, hs: seq<V>, complete: seq<V>, t: V, h: V)
    ensures (t, h) in FreshPairs(v, hs, complete) <==> t == v && h in hs && h !in complete
  {
    if hs != [] {
      FreshPairsMembers(v, hs[1..], complete, t, h);
      if h != hs[0] && h in hs { assert h in hs[1..]; }
    }
  }

  lemma {:induction false} FreshPairsNoDup<V>(v: V, hs: seq<V>, complete: seq<V>)
    requires NoDup(hs)
    ensures NoDup(FreshPairs(v, hs, complete))
  {
    if hs != [] {
      assert NoDup(hs[1..]) by {
        forall i, j | 0 <= i < j < |hs[1..]| ensures hs[1..][i] != hs[1..][j] {
          assert hs[1..][i] == hs[i + 1] && hs[1..][j] == hs[j + 1];
        }
      }
      FreshPairsNoDup(v, hs[1..], complete);
      var first := if hs[0] in complete then [] else [(v, hs[0])];
      forall e | e in first ensures e !in FreshPairs(v, hs[1..], complete) {
        FreshPairsMembers(v, hs[1..], complete, e.0, e.1);
        assert hs[0] !in hs[1..];
      }
      NoDupConcat(first, FreshPairs(v, hs[1..], complete));
    }
  }

  /** The pairs that the pass over order[i..] yields; the vertices
      order[..i] are the complete ones. */
  function EdgesFrom<V>(s: Store<V>, i: nat): seq<(V, V)>
    requires Keyed(s) && i <= |s.order|
    decreases |s.order| - i
  {
    if i == |s.order| then []
    else
      var v := s.order[i];
      FreshPairs(v, s.adj[v], s.order[..i]) + EdgesFrom(s, i + 1)
  }

  /** What the undirected eachEdge yields. */
  function EdgeList<V>(s: Store<V>): seq<(V, V)>
    requires Keyed(s)
  {
    EdgesFrom(s, 0)
  }

  /** Position of a vertex in the vertex order. */
  function Pos<V>(s: Store<V>, v: V): nat
    requires v in s.order
  {
    IndexOf(s.order, v)
  }

  lemma {:induction false} EdgesFromMembers<V>(s: Store<V>, i: nat, t: V, h: V)
    requires Keyed(s) && i <= |s.order|
    ensures (t, h) in EdgesFrom(s, i) <==>
      t in s.adj && Pos(s, t) >= i && h in s.adj[t] && h !in s.order[..Pos(s, t)]
    decreases |s.order| - i
  {
    if i < |s.order| {
      EdgesFromMembers(s, i + 1, t, h);
      var v := s.order[i];
      IndexOfUnique(s.order, i);
      FreshPairsMembers(v, s.adj[v], s.order[..i], t, h);
      if t in s.adj && Pos(s, t) == i {
        assert t == v;
      }
    }
  }

  lemma {:induction false} EdgesFromNoDup<V>(s: Store<V>, i: nat)
    requires Valid(s) && i <= |s.order|
    ensures NoDup(EdgesFrom(s, i))
    decreases |s.order| - i
  {
    if i < |s.order| {
      EdgesFromNoDup(s, i + 1);
      var v := s.order[i];
      var f := FreshPairs(v, s.adj[v], s.order[..i]);
      FreshPairsNoDup(v, s.adj[v], s.order[..i]);
      IndexOfUnique(s.order, i);
      forall e | e in f ensures e !in EdgesFrom(s, i + 1) {
        FreshPairsMembers(v, s.adj[v], s.order[..i], e.0, e.1);
        EdgesFromMembers(s, i + 1, e.0, e.1);
      }
      NoDupConcat(f, EdgesFrom(s, i + 1));
    }
  }

  /** eachEdge yields an arc exactly when its head is not earlier than its
      tail in the vertex order, and yields nothing twice. */
  lemma EdgeListIsEarlierFirst<V>(s: Store<V>)
    requires Valid(s)
    ensures forall t, h :: (t, h) in EdgeList(s) <==>
      (t, h) in Arcs(s) && Pos(s, t) <= Pos(s, h)
    ensures NoDup(EdgeList(s))
  {
    forall t, h ensures (t, h) in EdgeList(s) <==> (t, h) in Arcs(s) && Pos(s, t) <= Pos(s, h) {
      EdgesFromMembers(s, 0, t, h);
      if t in s.adj && h in s.adj[t] {
        var j := Pos(s, t);
        var k := Pos(s, h);
        if k < j {
          assert s.order[..j][k] == h;
        }
        if h in s.order[..j] {
          var k' :| 0 <= k' < j && s.order[..j][k'] == h;
          IndexOfUnique(s.order, k');
        }
      }
    }
    EdgesFromNoDup(s, 0);
  }

  /** Each undirected edge is listed exactly once: in one orientation, and
      for two distinct endpoints never in both. */
  lemma EachEdgeOnce<V>(s: Store<V>, u: V, w: V)
    requires Valid(s) && Sym(s) && (u, w) in Arcs(s)
    ensures (u, w) in EdgeList(s) || (w, u) in EdgeList(s)
    ensures u != w ==> !((u, w) in EdgeList(s) && (w, u) in EdgeList(s))
  {
    EdgeListIsEarlierFirst(s);
    SymArcs(s);
    if u != w && Pos(s, u) == Pos(s, w) {
      assert s.order[Pos(s, u)] == u && s.order[Pos(s, w)] == w;
    }
  }
}
