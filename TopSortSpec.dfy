/** The sort of Gliph\Traversal\TopologicalSort as functions on values: a
    depth-first post-order over the multigraph of Gliph\Graph that stops
    with a RuntimeException on reaching a vertex it is still visiting. */
module TopSortSpec {
  import opened Common
  import opened MultiGraph

  /** The `visiting` and `visited` arrays and the `solution` queue. */
  datatype SortState<V> = SortState(visiting: seq<V>, visited: seq<V>, solution: seq<V>)

  function Init<V>(): SortState<V> {
    SortState([], [], [])
  }

  /** Every vertex with an entry and every vertex some list names: all that
      a visit can reach. */
  ghost function Universe<V>(g: MGraph<V>): set<V> {
    UniverseOver(g, g.keys)
  }

  ghost function UniverseOver<V>(g: MGraph<V>, ks: seq<V>): set<V> {
    if ks == [] then {}
    else {ks[0]} + (set w | w in Adjacent(g, ks[0])) + UniverseOver(g, ks[1..])
  }

  lemma {:induction false} InUniverseOver<V>(g: MGraph<V>, ks: seq<V>, v: V)
    requires v in ks
    ensures v in UniverseOver(g, ks)
    ensures forall w :: w in Adjacent(g, v) ==> w in UniverseOver(g, ks)
  {
    if ks[0] != v {
      InUniverseOver(g, ks[1..], v);
    }
  }

  /** What a vertex of the universe has in its list lies in the universe. */
  lemma AdjacentInUniverse<V>(g: MGraph<V>, v: V)
    requires Valid(g)
    ensures forall w :: w in Adjacent(g, v) ==> w in Universe(g)
  {
    if v in g.lists {
      InUniverseOver(g, g.keys, v);
    }
  }

  /** The vertices of the universe that no visit has reached. */
  ghost function Unfinished<V>(g: MGraph<V>, st: SortState<V>): set<V> {
    set u | u in Universe(g) && u !in st.visiting && u !in st.visited
  }

  /** What a visit never undoes: the visited list and the solution only
      grow at their ends, and nothing leaves the visiting list. */
  ghost predicate Keeps<V>(st: SortState<V>, r: SortState<V>) {
    && Prefix(st.visited, r.visited) && Prefix(st.solution, r.solution)
    && (forall u :: u in st.visited ==> u in r.visited)
    && (forall u :: u in st.visiting ==> u in r.visiting)
  }

  lemma KeepsTrans<V>(a: SortState<V>, b: SortState<V>, c: SortState<V>)
    requires Keeps(a, b) && Keeps(b, c)
    ensures Keeps(a, c)
  {
    PrefixTrans(a.visited, b.visited, c.visited);
    PrefixTrans(a.solution, b.solution, c.solution);
  }

  /** visit: a vertex still being visited raises "Cycle detected"; a
      visited one is skipped; any other is pushed on visiting, each entry
      of its list is visited in turn, and it is then taken off visiting
      (at the position array_search finds) and appended to visited and to
      the solution. An exception leaves the state as it was when raised. */
  function Visit<V(==)>(g: MGraph<V>, st: SortState<V>, v: V): (r: (SortState<V>, Outcome))
    requires Valid(g) && v in Universe(g)
    ensures Keeps(st, r.0)
    ensures r.1 == Done ==> r.0.visiting == st.visiting && v in r.0.visited
    ensures r.1.Fail? ==> r.1.error == Runtime
    decreases Unfinished(g, st), 0
  {
    if v in st.visiting then (st, Fail(Runtime))
    else if v in st.visited then (st, Done)
    else
      var st1 := st.(visiting := st.visiting + [v]);
      assert Unfinished(g, st1) < Unfinished(g, st) by {
        assert v in Unfinished(g, st) && v !in Unfinished(g, st1);
      }
      AdjacentInUniverse(g, v);
      var (st2, o) := Succs(g, st1, Adjacent(g, v));
      if o.Fail? then
        (st2, o)
      else
        var k := IndexOf(st2.visiting, v);
        assert k == |st.visiting|;
        var r := SortState(st2.visiting[..k] + st2.visiting[k + 1..], st2.visited + [v], st2.solution + [v]);
        assert r.visiting == st.visiting;
        PrefixTrans(st.visited, st2.visited, r.visited);
        PrefixTrans(st.solution, st2.solution, r.solution);
        (r, Done)
  }

  /** The eachAdjacent loop of visit: each entry visited in order until
      one raises. */
  function Succs<V(==)>(g: MGraph<V>, st: SortState<V>, ws: seq<V>): (r: (SortState<V>, Outcome))
    requires Valid(g) && forall w :: w in ws ==> w in Universe(g)
    ensures Keeps(st, r.0)
    ensures r.1 == Done ==> r.0.visiting == st.visiting
    ensures r.1 == Done ==> forall w :: w in ws ==> w in r.0.visited
    ensures r.1.Fail? ==> r.1.error == Runtime
    decreases Unfinished(g, st), 1, |ws|
  {
    if ws == [] then (st, Done)
    else
      var (st1, o) := Visit(g, st, ws[0]);
      if o.Fail? then
        (st1, o)
      else
        var r := Succs(g, st1, ws[1..]);
        KeepsTrans(st, st1, r.0);
        SplitFirst(ws);
        r
  }

  /** The while loop of getIterator: pop the top of `waiting` and visit it
      until the stack is empty or a visit raises. */
  function Drain<V(==)>(g: MGraph<V>, st: SortState<V>, waiting: seq<V>): (r: (SortState<V>, Outcome))
    requires Valid(g) && forall w :: w in waiting ==> w in Universe(g)
    ensures Keeps(st, r.0)
    ensures r.1 == Done ==> r.0.visiting == st.visiting
    ensures r.1 == Done ==> forall w :: w in waiting ==> w in r.0.visited
    ensures r.1.Fail? ==> r.1.error == Runtime
    decreases |waiting|
  {
    if waiting == [] then (st, Done)
    else
      var n := |waiting| - 1;
      var (st1, o) := Visit(g, st, waiting[n]);
      if o.Fail? then
        (st1, o)
      else
        var r := Drain(g, st1, waiting[..n]);
        KeepsTrans(st, st1, r.0);
        SplitLast(waiting);
        r
  }

  /** The count getIterator stores for v: one per entry of its list, so
      the out-degree, duplicates included. */
  function Count<V>(g: MGraph<V>, v: V): nat {
    |Adjacent(g, v)|
  }

  /** The vertices of ks with a nonzero count, in order: what getIterator
      pushes on `waiting`. */
  function Nonzero<V>(g: MGraph<V>, ks: seq<V>): (r: seq<V>)
    ensures forall v :: v in r ==> v in ks && Count(g, v) != 0
    ensures forall v :: v in ks && Count(g, v) != 0 ==> v in r
  {
    if ks == [] then []
    else (if Count(g, ks[0]) != 0 then [ks[0]] else []) + Nonzero(g, ks[1..])
  }

  /** getIterator: the solution, or the RuntimeException. */
  function Sort<V(==)>(g: MGraph<V>): (r: Result<seq<V>>)
    requires Valid(g)
  {
    InUniverse(g);
    var (st, o) := Drain(g, Init(), Nonzero(g, g.keys));
    if o.Fail? then Err(o.error) else Ok(st.solution)
  }

  lemma InUniverse<V>(g: MGraph<V>)
    requires Valid(g)
    ensures forall v :: v in g.keys ==> v in Universe(g)
  {
    forall v | v in g.keys ensures v in Universe(g) {
      InUniverseOver(g, g.keys, v);
    }
  }

  // ---------------------------------------------------------------------
  // What every state of the sort keeps

  /** The visiting vertices, oldest first, each name the next one in its
      list: they form a path. */
  ghost predicate IsPath<V>(g: MGraph<V>, p: seq<V>) {
    forall k :: 0 <= k < |p| - 1 ==> p[k + 1] in Adjacent(g, p[k])
  }

  /** A path whose last vertex names its first. */
  ghost predicate IsCycle<V>(g: MGraph<V>, p: seq<V>) {
    p != [] && IsPath(g, p) && p[0] in Adjacent(g, p[|p| - 1])
  }

  /** Each vertex of vs comes after every vertex its list names. */
  ghost predicate PostOrder<V>(g: MGraph<V>, vs: seq<V>) {
    forall i, w :: 0 <= i < |vs| && w in Adjacent(g, vs[i]) ==> w in vs[..i]
  }

  /** Visiting is a path of distinct vertices; visited holds each vertex at
      most once, never one still being visited, in post-order; and the
      solution is the visited list. */
  ghost predicate Inv<V>(g: MGraph<V>, st: SortState<V>) {
    && NoDup(st.visiting) && NoDup(st.visited)
    && (forall u :: u in st.visiting ==> u !in st.visited)
    && IsPath(g, st.visiting)
    && PostOrder(g, st.visited)
    && st.solution == st.visited
  }

  /** v may be visited next from st: nothing is being visited, or the last
      vertex being visited names v in its list. */
  ghost predicate Next<V>(g: MGraph<V>, st: SortState<V>, v: V) {
    st.visiting == [] || v in Adjacent(g, st.visiting[|st.visiting| - 1])
  }

  /** A vertex on the visiting path closes a cycle with an arc back to it. */
  lemma CycleFound<V>(g: MGraph<V>, p: seq<V>, v: V) returns (c: seq<V>)
    requires IsPath(g, p) && p != [] && v in p && v in Adjacent(g, p[|p| - 1])
    ensures IsCycle(g, c)
  {
    var k := IndexOf(p, v);
    c := p[k..];
    assert IsPath(g, c) by {
      forall j | 0 <= j < |c| - 1 ensures c[j + 1] in Adjacent(g, c[j]) {
        assert c[j] == p[k + j] && c[j + 1] == p[k + j + 1];
      }
    }
  }

  lemma PushInv<V>(g: MGraph<V>, st: SortState<V>, v: V)
    requires Inv(g, st) && Next(g, st, v) && v !in st.visiting && v !in st.visited
    ensures Inv(g, st.(visiting := st.visiting + [v]))
  {
    NoDupConcat(st.visiting, [v]);
    var p := st.visiting + [v];
    forall k | 0 <= k < |p| - 1 ensures p[k + 1] in Adjacent(g, p[k]) {
      if k < |p| - 2 {
        assert p[k] == st.visiting[k] && p[k + 1] == st.visiting[k + 1];
      }
    }
  }

  lemma FinishInv<V>(g: MGraph<V>, st: SortState<V>, st2: SortState<V>, v: V)
    requires Inv(g, st2) && v !in st.visiting
    requires st2.visiting == st.visiting + [v]
    requires forall w :: w in Adjacent(g, v) ==> w in st2.visited
    ensures Inv(g, SortState(st.visiting, st2.visited + [v], st2.solution + [v]))
  {
    var r := SortState(st.visiting, st2.visited + [v], st2.solution + [v]);
    assert v in st2.visiting;
    NoDupConcat(st.visiting, [v]);
    NoDupConcat(st2.visited, [v]);
    assert IsPath(g, st.visiting) by {
      forall k | 0 <= k < |st.visiting| - 1
        ensures st.visiting[k + 1] in Adjacent(g, st.visiting[k])
      {
        assert st2.visiting[k] == st.visiting[k] && st2.visiting[k + 1] == st.visiting[k + 1];
      }
    }
    forall i, w | 0 <= i < |r.visited| && w in Adjacent(g, r.visited[i])
      ensures w in r.visited[..i]
    {
      if i < |st2.visited| {
        assert r.visited[i] == st2.visited[i];
        assert r.visited[..i] == st2.visited[..i];
      } else {
        assert r.visited[..i] == st2.visited;
      }
    }
  }

  /** Visiting keeps the invariant, leaves v visited unless it raised, and
      raises only on a cycle. */
  lemma {:induction false} VisitInv<V>(g: MGraph<V>, st: SortState<V>, v: V) returns (cycle: seq<V>)
    requires Valid(g) && v in Universe(g) && Inv(g, st) && Next(g, st, v)
    ensures Inv(g, Visit(g, st, v).0)
    ensures Visit(g, st, v).1.Fail? ==> IsCycle(g, cycle)
    decreases Unfinished(g, st), 0
  {
    cycle := [];
    if v in st.visiting {
      cycle := CycleFound(g, st.visiting, v);
    } else if v !in st.visited {
      var st1 := st.(visiting := st.visiting + [v]);
      assert Unfinished(g, st1) < Unfinished(g, st) by {
        assert v in Unfinished(g, st) && v !in Unfinished(g, st1);
      }
      PushInv(g, st, v);
      AdjacentInUniverse(g, v);
      cycle := SuccsInv(g, st1, v, Adjacent(g, v));
      var (st2, o) := Succs(g, st1, Adjacent(g, v));
      if o == Done {
        FinishInv(g, st, st2, v);
      }
    }
  }

  lemma {:induction false} SuccsInv<V>(g: MGraph<V>, st: SortState<V>, v: V, ws: seq<V>) returns (cycle: seq<V>)
    requires Valid(g) && forall w :: w in ws ==> w in Universe(g)
    requires Inv(g, st) && st.visiting != [] && st.visiting[|st.visiting| - 1] == v
    requires forall w :: w in ws ==> w in Adjacent(g, v)
    ensures Inv(g, Succs(g, st, ws).0)
    ensures Succs(g, st, ws).1.Fail? ==> IsCycle(g, cycle)
    decreases Unfinished(g, st), 1, |ws|
  {
    cycle := [];
    if ws != [] {
      cycle := VisitInv(g, st, ws[0]);
      var (st1, o) := Visit(g, st, ws[0]);
      if o == Done {
        assert Unfinished(g, st1) <= Unfinished(g, st);
        cycle := SuccsInv(g, st1, v, ws[1..]);
      }
    }
  }

  lemma {:induction false} DrainInv<V>(g: MGraph<V>, st: SortState<V>, waiting: seq<V>) returns (cycle: seq<V>)
    requires Valid(g) && forall w :: w in waiting ==> w in Universe(g)
    requires Inv(g, st) && st.visiting == []
    ensures Inv(g, Drain(g, st, waiting).0)
    ensures Drain(g, st, waiting).1.Fail? ==> IsCycle(g, cycle)
    decreases |waiting|
  {
    cycle := [];
    if waiting != [] {
      var n := |waiting| - 1;
      cycle := VisitInv(g, st, waiting[n]);
      var (st1, o) := Visit(g, st, waiting[n]);
      if o == Done {
        cycle := DrainInv(g, st1, waiting[..n]);
      }
    }
  }

  // ---------------------------------------------------------------------
  // Which vertices the solution holds

  /** Some path of g leads from u to v; every vertex reaches itself. */
  ghost predicate Reaches<V(!new)>(g: MGraph<V>, u: V, v: V) {
    exists p :: p != [] && IsPath(g, p) && p[0] == u && p[|p| - 1] == v
  }

  /** v is reached from a vertex with an out-going arc: one that
      getIterator pushes on `waiting`. */
  ghost predicate Reached<V(!new)>(g: MGraph<V>, v: V) {
    exists u :: u in g.keys && Count(g, u) != 0 && Reaches(g, u, v)
  }

  /** Every visited vertex is reached from a pushed vertex. */
  ghost predicate Within<V(!new)>(g: MGraph<V>, st: SortState<V>) {
    forall u :: u in st.visited ==> Reached(g, u)
  }

  lemma ReachesSelf<V(!new)>(g: MGraph<V>, u: V)
    ensures Reaches(g, u, u)
  {
    assert IsPath(g, [u]);
  }

  /** A path extends by one entry of the list of its last vertex. */
  lemma ReachesThen<V(!new)>(g: MGraph<V>, u: V, v: V, w: V)
    requires Reaches(g, u, v) && w in Adjacent(g, v)
    ensures Reaches(g, u, w)
  {
    var p :| p != [] && IsPath(g, p) && p[0] == u && p[|p| - 1] == v;
    var q := p + [w];
    forall k | 0 <= k < |q| - 1 ensures q[k + 1] in Adjacent(g, q[k]) {
      if k < |p| - 1 {
        assert q[k] == p[k] && q[k + 1] == p[k + 1];
      }
    }
    assert IsPath(g, q);
  }

  /** A visit adds to visited only vertices reached from a root. */
  lemma {:induction false} VisitWithin<V(!new)>(g: MGraph<V>, st: SortState<V>, v: V)
    requires Valid(g) && v in Universe(g) && Within(g, st) && Reached(g, v)
    ensures Within(g, Visit(g, st, v).0)
    decreases Unfinished(g, st), 0
  {
    if v !in st.visiting && v !in st.visited {
      var st1 := st.(visiting := st.visiting + [v]);
      assert Unfinished(g, st1) < Unfinished(g, st) by {
        assert v in Unfinished(g, st) && v !in Unfinished(g, st1);
      }
      AdjacentInUniverse(g, v);
      var u :| u in g.keys && Count(g, u) != 0 && Reaches(g, u, v);
      forall w | w in Adjacent(g, v) ensures Reached(g, w) {
        ReachesThen(g, u, v, w);
      }
      SuccsWithin(g, st1, Adjacent(g, v));
    }
  }

  lemma {:induction false} SuccsWithin<V(!new)>(g: MGraph<V>, st: SortState<V>, ws: seq<V>)
    requires Valid(g) && forall w :: w in ws ==> w in Universe(g)
    requires Within(g, st) && forall w :: w in ws ==> Reached(g, w)
    ensures Within(g, Succs(g, st, ws).0)
    decreases Unfinished(g, st), 1, |ws|
  {
    if ws != [] {
      assert ws[0] in ws;
      VisitWithin(g, st, ws[0]);
      var (st1, o) := Visit(g, st, ws[0]);
      if o == Done {
        assert Unfinished(g, st1) <= Unfinished(g, st);
        SplitFirst(ws);
        SuccsWithin(g, st1, ws[1..]);
      }
    }
  }

  lemma {:induction false} DrainWithin<V(!new)>(g: MGraph<V>, st: SortState<V>, waiting: seq<V>)
    requires Valid(g) && forall w :: w in waiting ==> w in Universe(g)
    requires Within(g, st) && forall w :: w in waiting ==> Reached(g, w)
    ensures Within(g, Drain(g, st, waiting).0)
    decreases |waiting|
  {
    if waiting != [] {
      var n := |waiting| - 1;
      assert waiting[n] in waiting;
      VisitWithin(g, st, waiting[n]);
      var (st1, o) := Visit(g, st, waiting[n]);
      if o == Done {
        SplitLast(waiting);
        DrainWithin(g, st1, waiting[..n]);
      }
    }
  }

  /** A list in post-order holds everything its members reach. */
  lemma {:induction false} PostOrderCloses<V(!new)>(g: MGraph<V>, vs: seq<V>, p: seq<V>)
    requires PostOrder(g, vs) && p != [] && IsPath(g, p) && p[0] in vs
    ensures p[|p| - 1] in vs
    decreases |p|
  {
    if |p| > 1 {
      var q := p[..|p| - 1];
      assert IsPath(g, q) by {
        forall k | 0 <= k < |q| - 1 ensures q[k + 1] in Adjacent(g, q[k]) {
          assert q[k] == p[k] && q[k + 1] == p[k + 1];
        }
      }
      PostOrderCloses(g, vs, q);
      var i := IndexOf(vs, q[|q| - 1]);
      assert p[|p| - 1] in Adjacent(g, vs[i]);
      assert p[|p| - 1] in vs[..i];
    }
  }

  /** A vertex reached from a vertex of the universe lies in it. */
  lemma {:induction false} ReachedInUniverse<V(!new)>(g: MGraph<V>, p: seq<V>)
    requires Valid(g) && p != [] && IsPath(g, p) && p[0] in Universe(g)
    ensures p[|p| - 1] in Universe(g)
    decreases |p|
  {
    if |p| > 1 {
      var q := p[..|p| - 1];
      assert IsPath(g, q) by {
        forall k | 0 <= k < |q| - 1 ensures q[k + 1] in Adjacent(g, q[k]) {
          assert q[k] == p[k] && q[k + 1] == p[k + 1];
        }
      }
      ReachedInUniverse(g, q);
      AdjacentInUniverse(g, q[|q| - 1]);
    }
  }

  lemma ClosedReach<V(!new)>(g: MGraph<V>, vs: seq<V>, u: V, v: V)
    requires PostOrder(g, vs) && u in vs && Reaches(g, u, v)
    ensures v in vs
  {
    var p :| p != [] && IsPath(g, p) && p[0] == u && p[|p| - 1] == v;
    PostOrderCloses(g, vs, p);
  }

  lemma ReachedIsInUniverse<V(!new)>(g: MGraph<V>, v: V)
    requires Valid(g) && Reached(g, v)
    ensures v in Universe(g)
  {
    var u :| u in g.keys && Count(g, u) != 0 && Reaches(g, u, v);
    var p :| p != [] && IsPath(g, p) && p[0] == u && p[|p| - 1] == v;
    InUniverse(g);
    ReachedInUniverse(g, p);
  }

  /** A post-order list that holds every pushed vertex, and only what the
      pushed vertices reach, holds exactly what they reach, all of it in
      the universe. */
  lemma SolutionExact<V(!new)>(g: MGraph<V>, vs: seq<V>)
    requires Valid(g) && PostOrder(g, vs)
    requires forall w :: w in g.keys && Count(g, w) != 0 ==> w in vs
    requires forall u :: u in vs ==> Reached(g, u)
    ensures forall v :: v in vs <==> Reached(g, v)
    ensures forall v :: v in vs ==> v in Universe(g)
  {
    forall v | Reached(g, v) ensures v in vs {
      var u :| u in g.keys && Count(g, u) != 0 && Reaches(g, u, v);
      ClosedReach(g, vs, u, v);
    }
    forall v | v in vs ensures v in Universe(g) {
      ReachedIsInUniverse(g, v);
    }
  }

  /** What getIterator promises: it raises only on a cycle, which the
      lemma returns; otherwise every vertex appears at most once, after all
      the vertices its list names, every vertex with an out-going arc
      appears, and the solution holds exactly the vertices reached from
      one with an out-going arc, all of them vertices of the graph. */
  lemma SortFacts<V(!new)>(g: MGraph<V>) returns (cycle: seq<V>)
    requires Valid(g)
    ensures Sort(g).Err? ==> Sort(g).error == Runtime && IsCycle(g, cycle)
    ensures Sort(g).Ok? ==> NoDup(Sort(g).value) && PostOrder(g, Sort(g).value)
    ensures Sort(g).Ok? ==> forall v :: v in g.keys && Count(g, v) != 0 ==> v in Sort(g).value
    ensures Sort(g).Ok? ==> forall v :: v in Sort(g).value <==> Reached(g, v)
    ensures Sort(g).Ok? ==> forall v :: v in Sort(g).value ==> v in Universe(g)
  {
    InUniverse(g);
    var roots := Nonzero(g, g.keys);
    cycle := DrainInv(g, Init(), roots);
    forall w | w in roots ensures Reached(g, w) {
      ReachesSelf(g, w);
    }
    DrainWithin(g, Init(), roots);
    var (st, o) := Drain(g, Init(), roots);
    if o == Done {
      SolutionExact(g, st.visited);
    }
  }
}
