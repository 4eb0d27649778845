/** Gliph\Graph: the oldest graph class, a directed multigraph. Its HashMap
    is taken as an insertion-ordered map from vertex to a PHP array, the
    vertex's adjacency list; arrays keep duplicates, and each entry carries
    the integer key PHP gave it when it was appended. */
module MultiGraph {
  import opened Common

  /** A PHP list: its entries as (key, value) pairs in order, and the key
      the next `$a[] = ...` will use. */
  datatype PArray<V> = PArray(entries: seq<(nat, V)>, next: nat)

  /** Keys are distinct and all below the next free key. */
  ghost predicate WellKeyed<V>(a: PArray<V>) {
    && (forall i :: 0 <= i < |a.entries| ==> a.entries[i].0 < a.next)
    && (forall i, j :: 0 <= i < j < |a.entries| ==> a.entries[i].0 != a.entries[j].0)
  }

  function Values<V>(a: PArray<V>): (r: seq<V>)
    ensures |r| == |a.entries|
    ensures forall i :: 0 <= i < |r| ==> r[i] == a.entries[i].1
  {
    seq(|a.entries|, i requires 0 <= i < |a.entries| => a.entries[i].1)
  }

  /** `$a[] = $v`. */
  function Append<V>(a: PArray<V>, v: V): PArray<V> {
    PArray(a.entries + [(a.next, v)], a.next + 1)
  }

  /** `unset($a[$k])`: the entry with key k, if any, goes. */
  function Unset<V>(es: seq<(nat, V)>, k: nat): (r: seq<(nat, V)>)
    ensures |r| <= |es|
  {
    if es == [] then []
    else if es[0].0 == k then Unset(es[1..], k)
    else [es[0]] + Unset(es[1..], k)
  }

  /** The key `array_search($v, $a)` finds, with FALSE (v absent) used as
      an array key, which PHP reads as 0. */
  function SearchKey<V(==)>(a: PArray<V>, v: V): nat {
    if v in Values(a) then a.entries[IndexOf(Values(a), v)].0 else 0
  }

  /** Entry i taken out, keys and next free key left as they are. */
  function Cut<V>(a: PArray<V>, i: nat): PArray<V>
    requires i < |a.entries|
  {
    PArray(a.entries[..i] + a.entries[i + 1..], a.next)
  }

  /** The first entry holding v removed, the array unchanged without one. */
  function RemoveFirst<V(==)>(a: PArray<V>, v: V): PArray<V> {
    if v in Values(a) then Cut(a, IndexOf(Values(a), v)) else a
  }

  /** The vertex keys in insertion order and each vertex's list. */
  datatype MGraph<V> = MGraph(keys: seq<V>, lists: map<V, PArray<V>>)

  ghost predicate Valid<V>(g: MGraph<V>) {
    && NoDup(g.keys)
    && (forall v :: v in g.keys ==> v in g.lists)
    && (forall v :: v in g.lists ==> v in g.keys)
    && (forall v :: v in g.lists ==> WellKeyed(g.lists[v]))
  }

  function Empty<V>(): MGraph<V> {
    MGraph([], map[])
  }

  /** addVertex: a vertex without an entry gets an empty list at the end. */
  function WithVertex<V>(g: MGraph<V>, v: V): MGraph<V> {
    if v in g.lists then g else MGraph(g.keys + [v], g.lists[v := PArray([], 0)])
  }

  /** addDirectedEdge: both endpoints added, the head appended to the
      tail's list. */
  function WithArc<V>(g: MGraph<V>, u: V, v: V): MGraph<V> {
    var h := WithVertex(WithVertex(g, u), v);
    h.(lists := h.lists[u := Append(h.lists[u], v)])
  }

  /** removeVertex: v's key and list are unset. */
  function Without<V>(g: MGraph<V>, v: V): MGraph<V> {
    MGraph(Detach(g.keys, v), g.lists - {v})
  }

  /** removeEdge as intended: the first entry v is taken out of u's list. */
  function WithoutArc<V>(g: MGraph<V>, u: V, v: V): MGraph<V> {
    if u in g.lists then g.(lists := g.lists[u := RemoveFirst(g.lists[u], v)]) else g
  }

  /** removeEdge as written: the key array_search returns is unset, so an
      absent head unsets key 0. */
  function WithoutArcAsWritten<V>(g: MGraph<V>, u: V, v: V): MGraph<V> {
    if u in g.lists then
      var a := g.lists[u];
      g.(lists := g.lists[u := PArray(Unset(a.entries, SearchKey(a, v)), a.next)])
    else g
  }

  /** eachAdjacent: the values of v's list; for a vertex with no entry the
      foreach runs over NULL and yields nothing. */
  function Adjacent<V>(g: MGraph<V>, v: V): seq<V> {
    if v in g.lists then Values(g.lists[v]) else []
  }

  /** The pairs (u, h) for the entries h of a list, in order. */
  function Pairs<V>(u: V, hs: seq<V>): (r: seq<(V, V)>)
    ensures |r| == |hs|
    ensures forall i :: 0 <= i < |hs| ==> r[i] == (u, hs[i])
  {
    seq(|hs|, i requires 0 <= i < |hs| => (u, hs[i]))
  }

  /** The pairs eachEdge collects for the vertices of ks, tail-major. */
  function ArcsOver<V>(g: MGraph<V>, ks: seq<V>): seq<(V, V)> {
    if ks == [] then [] else Pairs(ks[0], Adjacent(g, ks[0])) + ArcsOver(g, ks[1..])
  }

  function Arcs<V>(g: MGraph<V>): seq<(V, V)> {
    ArcsOver(g, g.keys)
  }

  // ----- properties -----

  lemma EmptyValid<V>()
    ensures Valid(Empty<V>()) && Empty<V>().lists.Keys == {}
  {
  }

  lemma AppendWellKeyed<V>(a: PArray<V>, v: V)
    requires WellKeyed(a)
    ensures WellKeyed(Append(a, v)) && Values(Append(a, v)) == Values(a) + [v]
  {
  }

  /** addVertex keeps the graph well formed, is idempotent, leaves an
      existing list alone and gives a new vertex an empty list. */
  lemma AddVertexFacts<V>(g: MGraph<V>, v: V)
    requires Valid(g)
    ensures Valid(WithVertex(g, v))
    ensures WithVertex(WithVertex(g, v), v) == WithVertex(g, v)
    ensures v in WithVertex(g, v).lists
    ensures v in g.lists ==> WithVertex(g, v) == g
    ensures v !in g.lists ==> Adjacent(WithVertex(g, v), v) == [] && |WithVertex(g, v).keys| == |g.keys| + 1
    ensures forall x :: x != v ==> (x in WithVertex(g, v).lists <==> x in g.lists)
    ensures forall x :: x != v ==> Adjacent(WithVertex(g, v), x) == Adjacent(g, x)
  {
    if v !in g.lists {
      NoDupConcat(g.keys, [v]);
    }
  }

  lemma AddArcValid<V>(g: MGraph<V>, u: V, v: V)
    requires Valid(g)
    ensures Valid(WithArc(g, u, v))
  {
    AddVertexFacts(g, u);
    AddVertexFacts(WithVertex(g, u), v);
    var h := WithVertex(WithVertex(g, u), v);
    AppendWellKeyed(h.lists[u], v);
  }

  /** addDirectedEdge appends: the head goes at the end of the tail's list
      whether or not it is already there, so one more (u, v) entry exists
      and every other list is unchanged. */
  lemma AddArcAppends<V>(g: MGraph<V>, u: V, v: V)
    ensures u in WithArc(g, u, v).lists && v in WithArc(g, u, v).lists
    ensures Adjacent(WithArc(g, u, v), u) == Adjacent(g, u) + [v]
    ensures multiset(Adjacent(WithArc(g, u, v), u))[v] == multiset(Adjacent(g, u))[v] + 1
    ensures forall x :: x != u ==> Adjacent(WithArc(g, u, v), x) == Adjacent(g, x)
  {
    var h := WithVertex(WithVertex(g, u), v);
    assert Adjacent(h, u) == Adjacent(g, u);
    assert Values(Append(h.lists[u], v)) == Values(h.lists[u]) + [v];
  }

  /** eachEdge lists each (u, v) entry once: the number of times the pair
      occurs is the number of times v is in u's list. */
  lemma ArcMultiplicity<V>(g: MGraph<V>, u: V, v: V)
    requires Valid(g)
    ensures multiset(Arcs(g))[(u, v)] == multiset(Adjacent(g, u))[v]
  {
    ArcsOverMultiplicity(g, g.keys, u, v);
    if u !in g.keys {
      assert Adjacent(g, u) == [];
    }
  }

  lemma {:induction false} ArcsOverMultiplicity<V>(g: MGraph<V>, ks: seq<V>, u: V, v: V)
    requires NoDup(ks)
    ensures multiset(ArcsOver(g, ks))[(u, v)] == if u in ks then multiset(Adjacent(g, u))[v] else 0
  {
    if ks != [] {
      assert NoDup(ks[1..]) by {
        forall i, j | 0 <= i < j < |ks[1..]| ensures ks[1..][i] != ks[1..][j] {
          assert ks[1..][i] == ks[i + 1] && ks[1..][j] == ks[j + 1];
        }
      }
      ArcsOverMultiplicity(g, ks[1..], u, v);
      PairsMultiplicity(ks[0], Adjacent(g, ks[0]), u, v);
      assert ks == [ks[0]] + ks[1..];
      if ks[0] == u {
        assert u !in ks[1..] by {
          forall i | 0 <= i < |ks[1..]| ensures ks[1..][i] != u {
            assert ks[1..][i] == ks[i + 1];
          }
        }
      }
    }
  }

  lemma {:induction false} PairsMultiplicity<V>(x: V, hs: seq<V>, u: V, v: V)
    ensures multiset(Pairs(x, hs))[(u, v)] == if x == u then multiset(hs)[v] else 0
  {
    if hs != [] {
      var n := |hs| - 1;
      assert hs == hs[..n] + [hs[n]];
      assert Pairs(x, hs) == Pairs(x, hs[..n]) + [(x, hs[n])];
      PairsMultiplicity(x, hs[..n], u, v);
    }
  }

  /** So each addDirectedEdge adds one more (u, v) to what eachEdge lists. */
  lemma AddArcAddsPair<V>(g: MGraph<V>, u: V, v: V)
    requires Valid(g)
    ensures multiset(Arcs(WithArc(g, u, v)))[(u, v)] == multiset(Arcs(g))[(u, v)] + 1
  {
    AddArcValid(g, u, v);
    AddArcAppends(g, u, v);
    ArcMultiplicity(g, u, v);
    ArcMultiplicity(WithArc(g, u, v), u, v);
  }

  /** removeVertex unsets v only: v is gone, every other vertex keeps its
      list, entries naming v included. */
  lemma RemoveVertexFacts<V>(g: MGraph<V>, v: V)
    requires Valid(g)
    ensures Valid(Without(g, v))
    ensures v !in Without(g, v).lists
    ensures forall x :: x != v ==> (x in Without(g, v).lists <==> x in g.lists)
    ensures forall x :: x != v ==> Adjacent(Without(g, v), x) == Adjacent(g, x)
    ensures v in g.lists ==> |Without(g, v).keys| == |g.keys| - 1
  {
  }

  lemma RemoveFirstWellKeyed<V>(a: PArray<V>, v: V)
    requires WellKeyed(a)
    ensures WellKeyed(RemoveFirst(a, v))
  {
    if v in Values(a) {
      var k := IndexOf(Values(a), v);
      var b := RemoveFirst(a, v);
      forall i | 0 <= i < |b.entries|
        ensures b.entries[i] == a.entries[if i < k then i else i + 1]
      {
      }
    }
  }

  lemma RemoveEdgeValid<V>(g: MGraph<V>, u: V, v: V)
    requires Valid(g)
    ensures Valid(WithoutArc(g, u, v))
  {
    if u in g.lists {
      RemoveFirstWellKeyed(g.lists[u], v);
    }
  }

  lemma RemoveFirstValues<V>(a: PArray<V>, v: V)
    requires v in Values(a)
    ensures var k := IndexOf(Values(a), v);
      Values(RemoveFirst(a, v)) == Values(a)[..k] + Values(a)[k + 1..]
  {
  }

  lemma DropOne<T>(s: seq<T>, k: nat)
    requires k < |s|
    ensures multiset(s[..k] + s[k + 1..]) == multiset(s) - multiset{s[k]}
  {
    assert s == s[..k] + [s[k]] + s[k + 1..];
  }

  /** removeEdge, as intended, takes out exactly the first v of u's list and
      touches no other list; without a v it changes nothing. */
  lemma RemoveEdgeFacts<V>(g: MGraph<V>, u: V, v: V)
    ensures WithoutArc(g, u, v).keys == g.keys
    ensures forall x :: x != u ==> Adjacent(WithoutArc(g, u, v), x) == Adjacent(g, x)
    ensures v !in Adjacent(g, u) ==> WithoutArc(g, u, v) == g
    ensures v in Adjacent(g, u) ==>
      var k := IndexOf(Adjacent(g, u), v);
      && v !in Adjacent(g, u)[..k]
      && Adjacent(WithoutArc(g, u, v), u) == Adjacent(g, u)[..k] + Adjacent(g, u)[k + 1..]
    ensures multiset(Adjacent(WithoutArc(g, u, v), u)) == multiset(Adjacent(g, u)) - multiset{v}
  {
    if u in g.lists && v in Adjacent(g, u) {
      var hs := Values(g.lists[u]);
      RemoveFirstValues(g.lists[u], v);
      DropOne(hs, IndexOf(hs, v));
    } else {
      var hs := Adjacent(g, u);
      assert multiset(hs)[v] == 0;
      assert multiset(hs) - multiset{v} == multiset(hs);
    }
  }

  /** With distinct keys, unsetting the key of entry i removes entry i. */
  lemma {:induction false} UnsetAt<V>(es: seq<(nat, V)>, i: nat)
    requires i < |es|
    requires forall p, q :: 0 <= p < q < |es| ==> es[p].0 != es[q].0
    ensures Unset(es, es[i].0) == es[..i] + es[i + 1..]
  {
    var k := es[i].0;
    if i == 0 {
      UnsetNone(es[1..], k);
    } else {
      UnsetAt(es[1..], i - 1);
      assert es[1..][i - 1] == es[i];
      assert es[..i] == [es[0]] + es[1..][..i - 1];
      assert es[i + 1..] == es[1..][i..];
    }
  }

  lemma {:induction false} UnsetNone<V>(es: seq<(nat, V)>, k: nat)
    requires forall p :: 0 <= p < |es| ==> es[p].0 != k
    ensures Unset(es, k) == es
  {
    if es != [] {
      UnsetNone(es[1..], k);
    }
  }

  /** When u's list holds v, the code as written does what is intended. */
  lemma RemoveEdgeAsWrittenWhenFound<V>(g: MGraph<V>, u: V, v: V)
    requires Valid(g) && v in Adjacent(g, u)
    ensures WithoutArcAsWritten(g, u, v) == WithoutArc(g, u, v)
  {
    var a := g.lists[u];
    var i := IndexOf(Values(a), v);
    UnsetAt(a.entries, i);
  }

  /** When it does not, the first arc ever added from u is lost: removing
      the absent arc (u, b) from the graph with the single arc (u, a)
      deletes (u, a). */
  lemma RemoveEdgeAsWrittenLosesFirstArc<V>(u: V, a: V, b: V)
    requires a != b
    ensures Adjacent(WithArc(Empty(), u, a), u) == [a]
    ensures Adjacent(WithoutArcAsWritten(WithArc(Empty(), u, a), u, b), u) == []
    ensures Adjacent(WithoutArc(WithArc(Empty(), u, a), u, b), u) == [a]
  {
    var g := WithArc(Empty(), u, a);
    assert g.lists[u].entries == [(0, a)];
    assert Values(g.lists[u]) == [a];
    assert SearchKey(g.lists[u], b) == 0;
    assert Unset([(0, a)], 0) == [];
  }

  // ----- the history of a vertex -----

  /** A call on the graph. */
  datatype Op<V> = AddV(v: V) | AddE(tail: V, head: V) | RemV(v: V) | RemE(tail: V, head: V)

  function Apply<V>(g: MGraph<V>, op: Op<V>): MGraph<V> {
    match op
    case AddV(v) => WithVertex(g, v)
    case AddE(u, v) => WithArc(g, u, v)
    case RemV(v) => Without(g, v)
    case RemE(u, v) => WithoutArc(g, u, v)
  }

  /** The graph after the calls ops on a new one. */
  function Replay<V>(ops: seq<Op<V>>): MGraph<V> {
    if ops == [] then Empty() else Apply(Replay(ops[..|ops| - 1]), ops[|ops| - 1])
  }

  /** op makes v a vertex. */
  predicate Adds<V(==)>(op: Op<V>, v: V) {
    op == AddV(v) || (op.AddE? && (op.tail == v || op.head == v))
  }

  /** Some call added v and no later call removed it. */
  ghost predicate AddedSince<V>(ops: seq<Op<V>>, v: V) {
    exists i :: 0 <= i < |ops| && Adds(ops[i], v) && forall j :: i < j < |ops| ==> ops[j] != RemV(v)
  }

  /** A call that neither adds nor removes v leaves its presence alone. */
  lemma ApplyKeeps<V>(g: MGraph<V>, op: Op<V>, v: V)
    requires !Adds(op, v) && op != RemV(v)
    ensures v in Apply(g, op).lists <==> v in g.lists
  {
    match op
    case AddV(x) =>
    case AddE(x, y) =>
      assert v in WithVertex(g, x).lists <==> v in g.lists;
    case RemV(x) =>
    case RemE(x, y) =>
  }

  lemma ApplyAdds<V>(g: MGraph<V>, op: Op<V>, v: V)
    requires Adds(op, v)
    ensures v in Apply(g, op).lists
  {
    if op.AddE? {
      assert v in WithVertex(WithVertex(g, op.tail), op.head).lists;
    }
  }

  /** How the last call decides whether v counts as added since. */
  lemma AddedSinceLast<V>(ops: seq<Op<V>>, v: V)
    requires ops != []
    ensures var n := |ops| - 1;
      AddedSince(ops, v) <==>
        if ops[n] == RemV(v) then false
        else Adds(ops[n], v) || AddedSince(ops[..n], v)
  {
    var n := |ops| - 1;
    var pre := ops[..n];
    if ops[n] == RemV(v) {
      forall i | 0 <= i < |ops| && Adds(ops[i], v)
        ensures exists j :: i < j < |ops| && ops[j] == RemV(v)
      {
        assert i != n && ops[n] == RemV(v);
      }
    } else if Adds(ops[n], v) {
      assert 0 <= n < |ops| && Adds(ops[n], v);
    } else {
      if AddedSince(pre, v) {
        var i :| 0 <= i < |pre| && Adds(pre[i], v) && forall j :: i < j < |pre| ==> pre[j] != RemV(v);
        assert ops[i] == pre[i];
        forall j | i < j < |ops| ensures ops[j] != RemV(v) {
          if j < n { assert ops[j] == pre[j]; }
        }
      }
      if AddedSince(ops, v) {
        var i :| 0 <= i < |ops| && Adds(ops[i], v) && forall j :: i < j < |ops| ==> ops[j] != RemV(v);
        assert pre[i] == ops[i];
        forall j | i < j < |pre| ensures pre[j] != RemV(v) {
          assert pre[j] == ops[j];
        }
      }
    }
  }

  /** hasVertex(v) holds exactly when v was added and not removed since. */
  lemma {:induction false} HasVertexHistory<V>(ops: seq<Op<V>>, v: V)
    ensures v in Replay(ops).lists <==> AddedSince(ops, v)
  {
    if ops != [] {
      var n := |ops| - 1;
      var op := ops[n];
      HasVertexHistory(ops[..n], v);
      AddedSinceLast(ops, v);
      var g := Replay(ops[..n]);
      assert Replay(ops) == Apply(g, op);
      if op == RemV(v) {
      } else if Adds(op, v) {
        ApplyAdds(g, op, v);
      } else {
        ApplyKeeps(g, op, v);
      }
    }
  }

  // ----- the class -----

  /** Gliph\Graph: the HashMap field `$v`, as the key order and the lists. */
  class Graph<V(==)> {
    var keys: seq<V>
    var lists: map<V, PArray<V>>

    function State(): MGraph<V>
      reads this
    {
      MGraph(keys, lists)
    }

    constructor ()
      ensures State() == Empty()
    {
      keys := [];
      lists := map[];
    }

    /** addVertex: no type check; a present vertex is left alone. */
    method AddVertex(v: V)
      requires Valid(State())
      modifies this
      ensures Valid(State()) && State() == WithVertex(old(State()), v)
    {
      AddVertexFacts(State(), v);
      if v !in lists {
        keys := keys + [v];
        lists := lists[v := PArray([], 0)];
      }
    }

    /** addDirectedEdge: add both endpoints, then append the head to the
        tail's array through the reference `get` returns. */
    method AddDirectedEdge(u: V, v: V)
      requires Valid(State())
      modifies this
      ensures Valid(State()) && State() == WithArc(old(State()), u, v)
    {
      AddArcValid(State(), u, v);
      AddVertex(u);
      AddVertex(v);
      var a := lists[u];
      lists := lists[u := PArray(a.entries + [(a.next, v)], a.next + 1)];
    }

    /** removeVertex: unset v's key and list; nothing else. */
    method RemoveVertex(v: V)
      requires Valid(State())
      modifies this
      ensures Valid(State()) && State() == Without(old(State()), v)
    {
      RemoveVertexFacts(State(), v);
      keys := Detach(keys, v);
      lists := lists - {v};
    }

    /** removeEdge with its array_search result checked: only a found key
        is unset. */
    method RemoveEdge(u: V, v: V)
      requires Valid(State())
      modifies this
      ensures Valid(State()) && State() == WithoutArc(old(State()), u, v)
    {
      ghost var r := WithoutArc(State(), u, v);
      RemoveEdgeValid(State(), u, v);
      if u in lists {
        var a := lists[u];
        var i := Search(a, v);
        if i.Some? {
          lists := lists[u := Cut(a, i.value)];
        }
      }
      assert State() == r;
    }

    /** eachAdjacent: the foreach over v's array. */
    method EachAdjacent(v: V) returns (hs: seq<V>)
      ensures hs == Adjacent(State(), v)
    {
      hs := [];
      if v in lists {
        var es := lists[v].entries;
        var i := 0;
        while i < |es|
          invariant 0 <= i <= |es|
          invariant hs == Values(lists[v])[..i]
        {
          hs := hs + [es[i].1];
          i := i + 1;
        }
      }
    }

    /** eachVertex, through fev: every key in order. */
    method EachVertex() returns (vs: seq<V>)
      ensures vs == keys
    {
      vs := [];
      var i := 0;
      while i < |keys|
        invariant 0 <= i <= |keys|
        invariant vs == keys[..i]
      {
        vs := vs + [keys[i]];
        i := i + 1;
      }
    }

    /** eachEdge: one pair per entry of every list, collected tail-major
        before any callback runs. */
    method EachEdge() returns (edges: seq<(V, V)>)
      requires Valid(State())
      ensures edges == Arcs(State())
    {
      edges := [];
      var i := 0;
      while i < |keys|
        invariant 0 <= i <= |keys|
        invariant edges + ArcsOver(State(), keys[i..]) == Arcs(State())
      {
        var v := keys[i];
        var hs := EachAdjacent(v);
        assert keys[i..][0] == v && keys[i..][1..] == keys[i + 1..];
        AppendAssoc(edges, Pairs(v, hs), ArcsOver(State(), keys[i + 1..]));
        edges := edges + Pairs(v, hs);
        i := i + 1;
      }
    }

    function HasVertex(v: V): (b: bool)
      reads this
      ensures b <==> v in State().lists
    {
      v in lists
    }
  }

  /** array_search with strict identity: the position of the first entry
      holding v. */
  method Search<V(==)>(a: PArray<V>, v: V) returns (i: Option<nat>)
    ensures i.None? <==> v !in Values(a)
    ensures i.Some? ==> i.value == IndexOf(Values(a), v)
  {
    var j := 0;
    while j < |a.entries|
      invariant 0 <= j <= |a.entries|
      invariant v !in Values(a)[..j]
    {
      if a.entries[j].1 == v {
        IndexOfFirst(Values(a), j);
        return Some(j);
      }
      j := j + 1;
    }
    assert Values(a)[..j] == Values(a);
    return None;
  }

  /** The first position holding x is the one IndexOf names. */
  lemma {:induction false} IndexOfFirst<T>(s: seq<T>, j: nat)
    requires j < |s| && s[j] !in s[..j]
    ensures IndexOf(s, s[j]) == j
  {
    if j > 0 {
      assert s[0] in s[..j];
      assert s[1..][..j - 1] == s[1..j];
      assert s[..j] == [s[0]] + s[1..j];
      IndexOfFirst(s[1..], j - 1);
    }
  }
}
