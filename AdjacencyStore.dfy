/** The vertex store every adjacency-list graph of the library keeps in its
    `$vertices` field: an SplObjectStorage mapping each vertex, in insertion
    order, to an SplObjectStorage of adjacent vertices, in attach order.
    Here `order` lists the vertices and `adj` maps each to its adjacency list. */
module AdjacencyStore {
  import opened Common

  datatype Store<V> = Store(order: seq<V>, adj: map<V, seq<V>>)

  function Empty<V>(): Store<V> {
    Store([], map[])
  }

  /** `order` lists every key of `adj` exactly once. */
  ghost predicate Keyed<V>(s: Store<V>) {
    && NoDup(s.order)
    && (forall v :: v in s.adj ==> v in s.order)
    && (forall v :: v in s.order ==> v in s.adj)
  }

  /** Every adjacency list is a set. */
  ghost predicate SetLike<V>(s: Store<V>) {
    forall v :: v in s.adj ==> NoDup(s.adj[v])
  }

  /** Every endpoint is itself a vertex. */
  ghost predicate Closed<V>(s: Store<V>) {
    forall v, w :: v in s.adj && w in s.adj[v] ==> w in s.adj
  }

  ghost predicate Valid<V>(s: Store<V>) {
    Keyed(s) && SetLike(s) && Closed(s)
  }

  /** The arcs the store records, as (tail, head) pairs. */
  ghost function Arcs<V>(s: Store<V>): set<(V, V)> {
    set t, h | t in s.adj && h in s.adj[t] :: (t, h)
  }

  predicate HasVertex<V>(s: Store<V>, v: V) {
    v in s.adj
  }

  /** addVertex without the type check: a new vertex gets an empty set at the
      end of the order, an existing one is left alone. */
  function Insert<V>(s: Store<V>, v: V): (r: Store<V>)
    ensures v in r.adj
    ensures forall u :: u in s.adj ==> u in r.adj && r.adj[u] == s.adj[u]
    ensures forall u :: u in r.adj ==> u in s.adj || u == v
  {
    if v in s.adj then s else Store(s.order + [v], s.adj[v := []])
  }

  lemma InsertValid<V>(s: Store<V>, v: V)
    requires Valid(s)
    ensures Valid(Insert(s, v))
  {
    if v !in s.adj {
      NoDupConcat(s.order, [v]);
    }
  }

  /** AdjacencyList::addVertex: the type check comes first. */
  function AddVertex<V>(s: Store<V>, c: Candidate<V>): (r: Result<Store<V>>)
    ensures c.NonObject? <==> r == Err(InvalidVertexType)
    ensures c.Object? ==> r.Ok? && r.value.adj.Keys == s.adj.Keys + {c.obj}
  {
    match c
    case NonObject => Err(InvalidVertexType)
    case Object(v) => Ok(Insert(s, v))
  }

  lemma {:induction false} AddVertexIdempotent<V>(s: Store<V>, v: V)
    requires v in s.adj
    ensures AddVertex(s, Object(v)) == Ok(s)
  {
  }

  lemma AddVertexFresh<V>(s: Store<V>, v: V)
    requires Valid(s) && v !in s.adj
    ensures var r := AddVertex(s, Object(v)).value;
      && Valid(r) && HasVertex(r, v) && r.adj[v] == []
      && r.order == s.order + [v]
      && (forall u :: u in s.adj ==> r.adj[u] == s.adj[u])
  {
    InsertValid(s, v);
  }

  /** AdjacencyList::eachAdjacent: `$this->vertices[$vertex]` throws
      UnexpectedValueException for a vertex not in the storage. */
  function Adjacent<V>(s: Store<V>, v: V): (r: Result<seq<V>>)
    ensures r.Ok? <==> v in s.adj
    ensures r.Ok? ==> r.value == s.adj[v]
    ensures r.Err? ==> r.error == UnexpectedValue
  {
    if v in s.adj then Ok(s.adj[v]) else Err(UnexpectedValue)
  }

  /** What one pass of eachVertex/fev hands its callback: each vertex with
      its adjacency set, in insertion order. */
  function Entries<V>(s: Store<V>): (r: seq<(V, seq<V>)>)
    requires Keyed(s)
  {
    seq(|s.order|, i requires 0 <= i < |s.order| => (s.order[i], s.adj[s.order[i]]))
  }

  lemma EntriesExactlyOnce<V>(s: Store<V>, v: V)
    requires Keyed(s)
    ensures v in s.adj <==> exists i :: 0 <= i < |Entries(s)| && Entries(s)[i].0 == v
    ensures forall i, j :: 0 <= i < j < |Entries(s)| ==> Entries(s)[i].0 != Entries(s)[j].0
    ensures forall i :: 0 <= i < |Entries(s)| && Entries(s)[i].0 == v ==> Entries(s)[i].1 == s.adj[v]
  {
    if v in s.adj {
      var i :| 0 <= i < |s.order| && s.order[i] == v;
      assert Entries(s)[i].0 == v;
    }
  }

  lemma EntriesInInsertionOrder<V>(s: Store<V>, v: V)
    requires Keyed(s) && v !in s.adj
    ensures Entries(Insert(s, v)) == Entries(s) + [(v, [])]
  {
  }

  // ---------------------------------------------------------------------
  // Directed arcs

  /** The pairs (t, h) for h in hs. */
  function Pairs<V>(t: V, hs: seq<V>): (r: seq<(V, V)>)
    ensures |r| == |hs|
    ensures forall k :: 0 <= k < |hs| ==> r[k] == (t, hs[k])
  {
    seq(|hs|, k requires 0 <= k < |hs| => (t, hs[k]))
  }

  /** The arcs of the vertices in vs, tail-major. */
  function ArcsFrom<V>(vs: seq<V>, adj: map<V, seq<V>>): seq<(V, V)>
    requires forall v :: v in vs ==> v in adj
  {
    if vs == [] then [] else Pairs(vs[0], adj[vs[0]]) + ArcsFrom(vs[1..], adj)
  }

  /** What eachEdge yields: every arc, tail-major in vertex order and then in
      adjacency order. */
  function ArcList<V>(s: Store<V>): seq<(V, V)>
    requires Keyed(s)
  {
    ArcsFrom(s.order, s.adj)
  }

  /** The number of arcs, counted list by list. */
  function ArcCount<V>(s: Store<V>): nat
    requires Keyed(s)
  {
    CountFrom(s.order, s.adj)
  }

  function CountFrom<V>(vs: seq<V>, adj: map<V, seq<V>>): nat
    requires forall v :: v in vs ==> v in adj
  {
    if vs == [] then 0 else |adj[vs[0]]| + CountFrom(vs[1..], adj)
  }

  lemma {:induction false} ArcsFromMembers<V>(vs: seq<V>, adj: map<V, seq<V>>, t: V, h: V)
    requires forall v :: v in vs ==> v in adj
    ensures (t, h) in ArcsFrom(vs, adj) <==> t in vs && h in adj[t]
  {
    if vs != [] {
      ArcsFromMembers(vs[1..], adj, t, h);
      if t == vs[0] && h in adj[t] {
        var k :| 0 <= k < |adj[t]| && adj[t][k] == h;
        assert Pairs(t, adj[t])[k] == (t, h);
      }
    }
  }

  lemma {:induction false} ArcsFromCount<V>(vs: seq<V>, adj: map<V, seq<V>>)
    requires forall v :: v in vs ==> v in adj
    ensures |ArcsFrom(vs, adj)| == CountFrom(vs, adj)
  {
    if vs != [] { ArcsFromCount(vs[1..], adj); }
  }

  lemma {:induction false} ArcsFromNoDup<V>(vs: seq<V>, adj: map<V, seq<V>>)
    requires forall v :: v in vs ==> v in adj
    requires NoDup(vs) && forall v :: v in vs ==> NoDup(adj[v])
    ensures NoDup(ArcsFrom(vs, adj))
  {
    if vs != [] {
      var t := vs[0];
      ArcsFromNoDup(vs[1..], adj);
      var p := Pairs(t, adj[t]);
      assert NoDup(p) by {
        forall i, j | 0 <= i < j < |p| ensures p[i] != p[j] {
          assert adj[t][i] != adj[t][j];
        }
      }
      forall e | e in p ensures e !in ArcsFrom(vs[1..], adj) {
        ArcsFromMembers(vs[1..], adj, e.0, e.1);
        assert t !in vs[1..];
      }
      NoDupConcat(p, ArcsFrom(vs[1..], adj));
    }
  }

  /** eachEdge yields every recorded arc, each exactly once, and the
      count of what it yields is ArcCount. */
  lemma ArcListIsArcs<V>(s: Store<V>)
    requires Valid(s)
    ensures forall t, h :: (t, h) in ArcList(s) <==> (t, h) in Arcs(s)
    ensures NoDup(ArcList(s))
    ensures |ArcList(s)| == ArcCount(s)
  {
    forall t, h ensures (t, h) in ArcList(s) <==> (t, h) in Arcs(s) {
      ArcsFromMembers(s.order, s.adj, t, h);
    }
    ArcsFromNoDup(s.order, s.adj);
    ArcsFromCount(s.order, s.adj);
  }

  /** Arc a comes before arc b in tail-major order: its tail is earlier in
      vs, or the tails agree and its head is earlier in their set. */
  ghost predicate Before<V>(vs: seq<V>, adj: map<V, seq<V>>, a: (V, V), b: (V, V)) {
    && a.0 in vs && b.0 in vs
    && (IndexOf(vs, a.0) < IndexOf(vs, b.0)
        || (a.0 == b.0 && a.0 in adj && a.1 in adj[a.0] && b.1 in adj[a.0]
            && IndexOf(adj[a.0], a.1) < IndexOf(adj[a.0], b.1)))
  }

  /** Tail-major order: an arc listed earlier has a tail no later in the
      vertex order, and within one tail the adjacency order is kept. */
  lemma {:induction false} ArcsFromOrdered<V>(vs: seq<V>, adj: map<V, seq<V>>, k: nat, l: nat)
    requires forall v :: v in vs ==> v in adj
    requires NoDup(vs) && forall v :: v in vs ==> NoDup(adj[v])
    requires k < l < |ArcsFrom(vs, adj)|
    ensures Before(vs, adj, ArcsFrom(vs, adj)[k], ArcsFrom(vs, adj)[l])
  {
    var t := vs[0];
    var p := Pairs(t, adj[t]);
    var rest := ArcsFrom(vs[1..], adj);
    assert ArcsFrom(vs, adj) == p + rest;
    var a, b := ArcsFrom(vs, adj)[k], ArcsFrom(vs, adj)[l];
    if l < |p| {
      assert a == (t, adj[t][k]) && b == (t, adj[t][l]);
      IndexOfUnique(adj[t], k);
      IndexOfUnique(adj[t], l);
    } else if k < |p| {
      assert a == (t, adj[t][k]);
      assert b == rest[l - |p|];
      ArcsFromMembers(vs[1..], adj, b.0, b.1);
      TailBefore(vs, b.0);
    } else {
      assert a == rest[k - |p|] && b == rest[l - |p|];
      ArcsFromOrdered(vs[1..], adj, k - |p|, l - |p|);
      ArcsFromMembers(vs[1..], adj, a.0, a.1);
      ArcsFromMembers(vs[1..], adj, b.0, b.1);
      BeforeShift(vs, adj, a, b);
    }
  }

  lemma TailBefore<V>(vs: seq<V>, x: V)
    requires NoDup(vs) && vs != [] && x in vs[1..]
    ensures x in vs && IndexOf(vs, vs[0]) < IndexOf(vs, x)
  {
    assert vs[0] != x by {
      var m :| 0 <= m < |vs[1..]| && vs[1..][m] == x;
      assert vs[m + 1] == x;
    }
  }

  lemma BeforeShift<V>(vs: seq<V>, adj: map<V, seq<V>>, a: (V, V), b: (V, V))
    requires NoDup(vs) && vs != [] && a.0 in vs[1..] && b.0 in vs[1..]
    requires Before(vs[1..], adj, a, b)
    ensures Before(vs, adj, a, b)
  {
    TailBefore(vs, a.0);
    TailBefore(vs, b.0);
  }

  /** addDirectedEdge on the store: both endpoints become vertices (tail
      first), then the head is attached to the tail's set. */
  function AddArc<V>(s: Store<V>, t: V, h: V): Store<V> {
    var s1 := Insert(Insert(s, t), h);
    Store(s1.order, s1.adj[t := Attach(s1.adj[t], h)])
  }

  lemma AddArcValid<V>(s: Store<V>, t: V, h: V)
    requires Valid(s)
    ensures Valid(AddArc(s, t, h))
  {
    InsertValid(s, t);
    InsertValid(Insert(s, t), h);
  }

  /** The arc (t, h) is added and nothing else changes; t and h are
      vertices afterwards; the vertex order grows by the new endpoints only. */
  lemma AddArcEffect<V>(s: Store<V>, t: V, h: V)
    requires Valid(s)
    ensures var r := AddArc(s, t, h);
      && Valid(r)
      && Arcs(r) == Arcs(s) + {(t, h)}
      && r.adj.Keys == s.adj.Keys + {t, h}
      && r.order == s.order + (if t in s.adj then [] else [t])
                            + (if h in s.adj || h == t then [] else [h])
      && (forall u :: u in s.adj && u != t ==> r.adj[u] == s.adj[u])
      && r.adj[t] == Attach(if t in s.adj then s.adj[t] else [], h)
  {
    AddArcValid(s, t, h);
    AddArcArcs(s, t, h);
    AddArcShape(s, t, h);
  }

  lemma AddArcArcs<V>(s: Store<V>, t: V, h: V)
    requires Valid(s)
    ensures Arcs(AddArc(s, t, h)) == Arcs(s) + {(t, h)}
  {
    var r := AddArc(s, t, h);
    forall e | e in Arcs(r) ensures e in Arcs(s) + {(t, h)} {
      var t', h' := e.0, e.1;
      assert t' in r.adj && h' in r.adj[t'];
    }
    forall e | e in Arcs(s) + {(t, h)} ensures e in Arcs(r) {
      if e != (t, h) {
        assert e.0 in s.adj && e.1 in s.adj[e.0];
      }
    }
  }

  lemma AddArcKeys<V>(s: Store<V>, t: V, h: V)
    ensures AddArc(s, t, h).adj.Keys == s.adj.Keys + {t, h}
  {
  }

  lemma AddArcShape<V>(s: Store<V>, t: V, h: V)
    ensures var r := AddArc(s, t, h);
      && r.adj.Keys == s.adj.Keys + {t, h}
      && r.order == s.order + (if t in s.adj then [] else [t])
                            + (if h in s.adj || h == t then [] else [h])
      && (forall u :: u in s.adj && u != t ==> r.adj[u] == s.adj[u])
      && r.adj[t] == Attach(if t in s.adj then s.adj[t] else [], h)
  {
  }

  /** Repeating an addDirectedEdge changes nothing. */
  lemma {:induction false} AddArcIdempotent<V>(s: Store<V>, t: V, h: V)
    ensures AddArc(AddArc(s, t, h), t, h) == AddArc(s, t, h)
  {
    var r := AddArc(s, t, h);
    assert t in r.adj && h in r.adj && h in r.adj[t];
    assert Insert(Insert(r, t), h) == r;
    assert r.adj[t := Attach(r.adj[t], h)] == r.adj;
  }

  lemma {:induction false} CountFromUpdate<V>(vs: seq<V>, adj: map<V, seq<V>>, t: V, l: seq<V>)
    requires forall v :: v in vs ==> v in adj
    requires t in adj && NoDup(vs)
    ensures CountFrom(vs, adj[t := l]) + (if t in vs then |adj[t]| else 0)
         == CountFrom(vs, adj) + (if t in vs then |l| else 0)
  {
    if vs != [] {
      CountFromUpdate(vs[1..], adj, t, l);
      assert vs[0] == t ==> t !in vs[1..];
    }
  }

  lemma {:induction false} CountFromNew<V>(vs: seq<V>, adj: map<V, seq<V>>, v: V, l: seq<V>)
    requires forall u :: u in vs ==> u in adj
    requires v !in vs
    ensures CountFrom(vs, adj[v := l]) == CountFrom(vs, adj)
  {
    if vs != [] { CountFromNew(vs[1..], adj, v, l); }
  }

  lemma {:induction false} CountFromAppend<V>(vs: seq<V>, adj: map<V, seq<V>>, v: V)
    requires forall u :: u in vs ==> u in adj
    requires v in adj
    ensures CountFrom(vs + [v], adj) == CountFrom(vs, adj) + |adj[v]|
  {
    if vs == [] {
      assert [v][1..] == [];
    } else {
      assert (vs + [v])[1..] == vs[1..] + [v];
      CountFromAppend(vs[1..], adj, v);
    }
  }

  lemma InsertCount<V>(s: Store<V>, v: V)
    requires Valid(s)
    ensures Keyed(Insert(s, v)) && ArcCount(Insert(s, v)) == ArcCount(s)
  {
    InsertValid(s, v);
    if v !in s.adj {
      CountFromNew(s.order, s.adj, v, []);
      CountFromAppend(s.order, s.adj[v := []], v);
    }
  }

  /** The arc count grows by one exactly when the arc is new. */
  lemma AddArcCount<V>(s: Store<V>, t: V, h: V)
    requires Valid(s)
    ensures Valid(AddArc(s, t, h))
    ensures ArcCount(AddArc(s, t, h)) == ArcCount(s) + (if (t, h) in Arcs(s) then 0 else 1)
  {
    AddArcValid(s, t, h);
    var s1 := Insert(Insert(s, t), h);
    InsertCount(s, t);
    InsertValid(s, t);
    InsertCount(Insert(s, t), h);
    InsertValid(Insert(s, t), h);
    CountFromUpdate(s1.order, s1.adj, t, Attach(s1.adj[t], h));
    assert (t, h) in Arcs(s) <==> h in s1.adj[t];
  }

  /** removeEdge on the store: detach the head from the tail's set. */
  function DetachArc<V>(s: Store<V>, t: V, h: V): Store<V>
    requires t in s.adj
  {
    Store(s.order, s.adj[t := Detach(s.adj[t], h)])
  }

  lemma DetachArcEffect<V>(s: Store<V>, t: V, h: V)
    requires Valid(s) && t in s.adj
    ensures var r := DetachArc(s, t, h);
      && Valid(r) && r.order == s.order && r.adj.Keys == s.adj.Keys
      && Arcs(r) == Arcs(s) - {(t, h)}
      && (forall u :: u in s.adj && u != t ==> r.adj[u] == s.adj[u])
  {
    var r := DetachArc(s, t, h);
    forall e | e in Arcs(s) - {(t, h)} ensures e in Arcs(r) {
      assert e.0 in s.adj && e.1 in s.adj[e.0];
    }
    forall e | e in Arcs(r) ensures e in Arcs(s) - {(t, h)} {
      assert e.0 in r.adj && e.1 in r.adj[e.0];
    }
  }

  /** removeEdge never adds to the arc count. */
  lemma DetachArcCount<V>(s: Store<V>, t: V, h: V)
    requires Valid(s) && t in s.adj
    ensures Valid(DetachArc(s, t, h))
    ensures ArcCount(DetachArc(s, t, h)) <= ArcCount(s)
  {
    DetachArcEffect(s, t, h);
    CountFromUpdate(s.order, s.adj, t, Detach(s.adj[t], h));
  }

  /** Leaving out a vertex and shrinking the other lists never adds arcs. */
  lemma {:induction false} CountFromShrinks<V>(vs: seq<V>, adj: map<V, seq<V>>, v: V, adj2: map<V, seq<V>>)
    requires forall u :: u in vs ==> u in adj
    requires forall u :: u in vs && u != v ==> u in adj2 && |adj2[u]| <= |adj[u]|
    ensures forall u :: u in Detach(vs, v) ==> u in adj2
    ensures CountFrom(Detach(vs, v), adj2) <= CountFrom(vs, adj)
  {
    if vs != [] {
      CountFromShrinks(vs[1..], adj, v, adj2);
      if vs[0] != v {
        assert Detach(vs, v)[1..] == Detach(vs[1..], v);
      }
    }
  }

  /** removeVertex never adds to the arc count. */
  lemma RemoveVertexCount<V>(s: Store<V>, v: V)
    requires Valid(s)
    ensures Valid(RemoveVertex(s, v))
    ensures ArcCount(RemoveVertex(s, v)) <= ArcCount(s)
  {
    RemoveVertexValid(s, v);
    var r := RemoveVertex(s, v);
    CountFromShrinks(s.order, s.adj, v, r.adj);
  }

  /** The first half of removeVertex: v is detached from every set. */
  function DetachEverywhere<V>(s: Store<V>, v: V): Store<V> {
    Store(s.order, map u | u in s.adj :: Detach(s.adj[u], v))
  }

  /** unset($this->vertices[$v]): the vertex and its own set go. */
  function Unset<V>(s: Store<V>, v: V): Store<V> {
    Store(Detach(s.order, v), s.adj - {v})
  }

  /** Directed removeVertex on the store: every arc touching v goes. */
  function RemoveVertex<V>(s: Store<V>, v: V): Store<V> {
    Unset(DetachEverywhere(s, v), v)
  }

  lemma RemoveVertexValid<V>(s: Store<V>, v: V)
    requires Valid(s)
    ensures var r := RemoveVertex(s, v);
      && Valid(r)
      && r.adj.Keys == s.adj.Keys - {v}
      && r.order == Detach(s.order, v)
      && (forall u :: u in r.adj ==> r.adj[u] == Detach(s.adj[u], v))
  {
    var d := DetachEverywhere(s, v);
    var r := Unset(d, v);
    assert r.adj.Keys == s.adj.Keys - {v};
    forall u | u in r.adj ensures r.adj[u] == Detach(s.adj[u], v) && NoDup(r.adj[u]) {
      assert r.adj[u] == d.adj[u];
    }
    assert Keyed(r) by {
      forall u | u in r.adj ensures u in r.order {
        assert u in s.order && u != v;
      }
      forall u | u in r.order ensures u in r.adj {
        assert u in s.order && u != v;
      }
    }
    forall u, w | u in r.adj && w in r.adj[u] ensures w in r.adj {
      assert w in s.adj[u] && w != v;
    }
  }

  /** After removeVertex(v): v is no vertex and in no set, every other vertex
      remains in its place, and exactly the arcs not touching v remain. */
  lemma RemoveVertexEffect<V>(s: Store<V>, v: V)
    requires Valid(s)
    ensures var r := RemoveVertex(s, v);
      && Valid(r)
      && !HasVertex(r, v)
      && (forall u :: u in r.adj ==> v !in r.adj[u])
      && r.adj.Keys == s.adj.Keys - {v}
      && r.order == Detach(s.order, v)
      && Arcs(r) == set e | e in Arcs(s) && e.0 != v && e.1 != v
  {
    RemoveVertexValid(s, v);
    var r := RemoveVertex(s, v);
    forall e | e in Arcs(s) && e.0 != v && e.1 != v ensures e in Arcs(r) {
      assert e.0 in s.adj && e.1 in s.adj[e.0];
      assert e.1 in r.adj[e.0];
    }
    forall e | e in Arcs(r) ensures e in Arcs(s) && e.0 != v && e.1 != v {
      assert e.0 in r.adj && e.1 in r.adj[e.0];
    }
  }

  /** The order of the Gliph\DirectedAdjacencyGraph removeVertex: unsetting
      v first and then detaching it from the remaining sets gives the same
      store. */
  lemma UnsetThenDetach<V>(s: Store<V>, v: V)
    ensures DetachEverywhere(Unset(s, v), v) == RemoveVertex(s, v)
  {
    var l := DetachEverywhere(Unset(s, v), v);
    var r := RemoveVertex(s, v);
    assert l.order == r.order;
    assert l.adj == r.adj;
  }

  lemma UnsetKeyed<V>(s: Store<V>, v: V)
    requires Keyed(s)
    ensures Keyed(Unset(s, v))
  {
    var u := Unset(s, v);
    forall w | w in u.order ensures w in u.adj {
      assert w in s.order && w != v;
    }
    forall w | w in u.adj ensures w in u.order {
      assert w in s.order && w != v;
    }
  }

  /** Removing a vertex the store does not hold changes nothing. */
  lemma RemoveAbsent<V>(s: Store<V>, v: V)
    requires Valid(s) && v !in s.adj
    ensures RemoveVertex(s, v) == s
  {
    assert v !in s.order;
    forall u | u in s.adj ensures Detach(s.adj[u], v) == s.adj[u] {
      assert v !in s.adj[u];
    }
    assert DetachEverywhere(s, v).adj == s.adj;
  }

  // ---------------------------------------------------------------------
  // Transpose

  /** Adds the reverse of each listed arc, in list order. */
  function AddReversed<V>(acc: Store<V>, es: seq<(V, V)>): Store<V>
    decreases |es|
  {
    if es == [] then acc else AddReversed(AddArc(acc, es[0].1, es[0].0), es[1..])
  }

  /** transpose: a fresh graph built by addDirectedEdge(head, tail) for
      each arc that eachEdge yields. */
  function Transposed<V>(s: Store<V>): Store<V>
    requires Keyed(s)
  {
    AddReversed(Empty(), ArcList(s))
  }

  ghost function Reversed<V>(arcs: set<(V, V)>): set<(V, V)> {
    set e | e in arcs :: (e.1, e.0)
  }

  ghost function Endpoints<V>(arcs: set<(V, V)>): set<V> {
    (set e | e in arcs :: e.0) + (set e | e in arcs :: e.1)
  }

  ghost function ReversedList<V>(es: seq<(V, V)>): set<(V, V)> {
    if es == [] then {} else {(es[0].1, es[0].0)} + ReversedList(es[1..])
  }

  ghost function EndpointsList<V>(es: seq<(V, V)>): set<V> {
    if es == [] then {} else {es[0].0, es[0].1} + EndpointsList(es[1..])
  }

  lemma {:induction false} ListSets<V>(es: seq<(V, V)>)
    ensures forall t, h :: (t, h) in ReversedList(es) <==> (h, t) in es
    ensures forall t, h :: (t, h) in es ==> t in EndpointsList(es) && h in EndpointsList(es)
    ensures forall x :: x in EndpointsList(es) ==> exists t, h :: (t, h) in es && (x == t || x == h)
  {
    if es != [] {
      ListSets(es[1..]);
      forall t, h ensures (t, h) in ReversedList(es) <==> (h, t) in es {
        if (h, t) != es[0] && (h, t) in es { assert (h, t) in es[1..]; }
      }
      forall t, h | (t, h) in es ensures t in EndpointsList(es) && h in EndpointsList(es) {
        if (t, h) != es[0] { assert (t, h) in es[1..]; }
      }
      forall x | x in EndpointsList(es)
        ensures exists t, h :: (t, h) in es && (x == t || x == h)
      {
        if x !in {es[0].0, es[0].1} {
          var t, h :| (t, h) in es[1..] && (x == t || x == h);
          assert (t, h) in es;
        } else {
          assert es[0] == (es[0].0, es[0].1);
        }
      }
    }
  }

  lemma {:induction false} AddReversedEffect<V>(acc: Store<V>, es: seq<(V, V)>)
    requires Valid(acc)
    ensures var r := AddReversed(acc, es);
      && Valid(r)
      && Arcs(r) == Arcs(acc) + ReversedList(es)
      && r.adj.Keys == acc.adj.Keys + EndpointsList(es)
    decreases |es|
  {
    if es != [] {
      var acc' := AddArc(acc, es[0].1, es[0].0);
      AddArcValid(acc, es[0].1, es[0].0);
      AddArcArcs(acc, es[0].1, es[0].0);
      AddArcKeys(acc, es[0].1, es[0].0);
      AddReversedEffect(acc', es[1..]);
      assert AddReversed(acc, es) == AddReversed(acc', es[1..]);
      assert ReversedList(es) == {(es[0].1, es[0].0)} + ReversedList(es[1..]);
      assert EndpointsList(es) == {es[0].0, es[0].1} + EndpointsList(es[1..]);
    }
  }

  /** The arcs of acc are the reversals of the first i listed arcs. */
  ghost predicate ReversesFirst<V>(acc: Store<V>, es: seq<(V, V)>, i: nat)
    requires i <= |es|
  {
    && (forall a :: a in Arcs(acc) ==> (a.1, a.0) in es[..i])
    && (forall e :: e in es[..i] ==> (e.1, e.0) in Arcs(acc))
  }

  /** One step of transpose: when the list has no repeats, the reversal of
      the next listed arc is new and joins the others. */
  lemma ReversedStep<V>(acc: Store<V>, es: seq<(V, V)>, i: nat)
    requires Valid(acc) && NoDup(es) && i < |es|
    requires ReversesFirst(acc, es, i)
    ensures (es[i].1, es[i].0) !in Arcs(acc)
    ensures ReversesFirst(AddArc(acc, es[i].1, es[i].0), es, i + 1)
  {
    AddArcArcs(acc, es[i].1, es[i].0);
    assert es[..i + 1] == es[..i] + [es[i]];
    assert es[i] !in es[..i];
  }

  /** The transpose has exactly the reversed arcs, and its vertices are
      exactly the endpoints of the original's arcs. */
  lemma TransposedEffect<V>(s: Store<V>)
    requires Valid(s)
    ensures Valid(Transposed(s))
    ensures Arcs(Transposed(s)) == Reversed(Arcs(s))
    ensures Transposed(s).adj.Keys == Endpoints(Arcs(s))
  {
    var es := ArcList(s);
    var e0 := Empty<V>();
    assert Valid(e0);
    assert Arcs(e0) == {};
    AddReversedEffect(e0, es);
    ArcListIsArcs(s);
    var r := Transposed(s);
    assert Arcs(r) == ReversedList(es);
    assert r.adj.Keys == EndpointsList(es);
    ReversedMatch(es, Arcs(s));
    EndpointsMatch(es, Arcs(s));
  }

  /** A list with the same arcs as a set has the same reversals. */
  lemma ReversedMatch<V>(es: seq<(V, V)>, arcs: set<(V, V)>)
    requires forall t, h :: (t, h) in es <==> (t, h) in arcs
    ensures ReversedList(es) == Reversed(arcs)
  {
    ListSets(es);
    forall e | e in Reversed(arcs) ensures e in ReversedList(es) {
      var a :| a in arcs && e == (a.1, a.0);
      assert a == (a.0, a.1);
      assert (a.0, a.1) in es;
    }
    forall e | e in ReversedList(es) ensures e in Reversed(arcs) {
      var (t, h) := e;
      assert (t, h) in ReversedList(es);
      assert (h, t) in es;
      assert (h, t) in arcs;
    }
  }

  /** A list with the same arcs as a set has the same endpoints. */
  lemma EndpointsMatch<V>(es: seq<(V, V)>, arcs: set<(V, V)>)
    requires forall t, h :: (t, h) in es <==> (t, h) in arcs
    ensures EndpointsList(es) == Endpoints(arcs)
  {
    ListSets(es);
    forall x | x in Endpoints(arcs) ensures x in EndpointsList(es) {
      var a :| a in arcs && (x == a.0 || x == a.1);
      assert a == (a.0, a.1);
      assert (a.0, a.1) in es;
    }
    forall x | x in EndpointsList(es) ensures x in Endpoints(arcs) {
      var t, h :| (t, h) in es && (x == t || x == h);
      assert (t, h) in arcs;
    }
  }

  /** Transposing twice gives back the original arcs; the vertices are
      those that touch an arc (an isolated vertex does not survive). */
  lemma TransposeTwice<V>(s: Store<V>)
    requires Valid(s)
    ensures Valid(Transposed(s))
    ensures Valid(Transposed(Transposed(s)))
    ensures Arcs(Transposed(Transposed(s))) == Arcs(s)
    ensures Transposed(Transposed(s)).adj.Keys == Endpoints(Arcs(s))
  {
    TransposedEffect(s);
    TransposedEffect(Transposed(s));
    ReversedTwice(Arcs(s));
  }

  lemma ReversedTwice<V>(a: set<(V, V)>)
    ensures Reversed(Reversed(a)) == a
    ensures Endpoints(Reversed(a)) == Endpoints(a)
  {
    assert Reversed(Reversed(a)) == a by {
      forall e | e in a ensures e in Reversed(Reversed(a)) {
        assert (e.1, e.0) in Reversed(a);
      }
    }
    forall x | x in Endpoints(Reversed(a)) ensures x in Endpoints(a) {
      var e :| e in Reversed(a) && (x == e.0 || x == e.1);
      var e' :| e' in a && e == (e'.1, e'.0);
    }
    forall x | x in Endpoints(a) ensures x in Endpoints(Reversed(a)) {
      var e :| e in a && (x == e.0 || x == e.1);
      assert (e.1, e.0) in Reversed(a);
    }
  }

  // ---------------------------------------------------------------------
  // Degrees

  /** The vertices whose set holds v, in vertex order. */
  function Predecessors<V>(s: Store<V>, v: V): seq<V> {
    Filter(s.order, u => u in s.adj && v in s.adj[u])
  }

  lemma PredecessorsAreTails<V>(s: Store<V>, v: V)
    requires Valid(s)
    ensures forall u :: u in Predecessors(s, v) <==> (u, v) in Arcs(s)
    ensures NoDup(Predecessors(s, v))
  {
  }
}
