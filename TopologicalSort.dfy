/** Gliph\Traversal\TopologicalSort: the object getIterator fills, with the
    HashMap of counts, the `waiting` stack, the `solution` queue and the
    `visiting` and `visited` arrays as fields. Each method is proved to
    compute what the TopSortSpec functions say; the graph is read, never
    changed. */
module TopologicalSort {
  import opened Common
  import opened MultiGraph
  import opened TopSortSpec

  class TopologicalSort<V(==)> {
    const graph: Graph<V>
    /** The `inDegrees` HashMap: its keys in insertion order and its values. */
    var inDegreeKeys: seq<V>
    var inDegrees: map<V, nat>
    /** The SplStack, its top at the end. */
    var waiting: seq<V>
    var solution: seq<V>
    var visiting: seq<V>
    var visited: seq<V>

    ghost function State(): SortState<V>
      reads this
    {
      SortState(visiting, visited, solution)
    }

    constructor (g: Graph<V>)
      ensures graph == g
    {
      graph := g;
      inDegreeKeys := [];
      inDegrees := map[];
      waiting := [];
      solution := [];
      visiting := [];
      visited := [];
    }

    /** getIterator: count each vertex's list entries, push the vertices
        with a nonzero count, then pop and visit until the stack is empty;
        the RuntimeException of a visit ends it. */
    method GetIterator() returns (r: Result<seq<V>>)
      requires Valid(graph.State())
      modifies this
      ensures r == Sort(graph.State())
    {
      ghost var g := graph.State();
      inDegreeKeys := [];
      inDegrees := map[];
      visited := [];
      visiting := [];
      waiting := [];
      solution := [];
      CountDegrees(g);
      waiting := PushNonzero(g, inDegreeKeys, inDegrees);
      InUniverse(g);
      var outcome := DrainWaiting(g);
      if outcome.Fail? {
        r := Err(outcome.error);
      } else {
        r := Ok(solution);
      }
    }

    /** The `while (!$this->waiting->isEmpty())` loop: pop and visit. */
    method DrainWaiting(ghost g: MGraph<V>) returns (outcome: Outcome)
      requires g == graph.State() && Valid(g) && forall w :: w in waiting ==> w in Universe(g)
      modifies this
      ensures (State(), outcome) == Drain(g, old(State()), old(waiting))
    {
      ghost var st0 := State();
      ghost var w0 := waiting;
      outcome := Done;
      while waiting != [] && outcome == Done
        invariant forall w :: w in waiting ==> w in Universe(g)
        invariant outcome == Done ==> Drain(g, State(), waiting) == Drain(g, st0, w0)
        invariant outcome.Fail? ==> (State(), outcome) == Drain(g, st0, w0)
        decreases |waiting|
      {
        SplitLast(waiting);
        var v := waiting[|waiting| - 1];
        waiting := waiting[..|waiting| - 1];
        outcome := Visit(g, v);
      }
    }

    /** The eachVertex pass: each vertex gets a count of 0 the first time
        it is seen, raised by one per entry of its list. */
    method CountDegrees(ghost g: MGraph<V>)
      requires g == graph.State() && Valid(g) && inDegreeKeys == [] && inDegrees == map[]
      modifies this
      ensures inDegreeKeys == g.keys
      ensures forall v :: v in g.lists ==> v in inDegrees
      ensures forall v :: v in inDegrees ==> v in g.lists && inDegrees[v] == Count(g, v)
      ensures waiting == old(waiting) && State() == old(State())
    {
      var vs := graph.EachVertex();
      var i := 0;
      while i < |vs|
        invariant 0 <= i <= |vs|
        invariant inDegreeKeys == vs[..i]
        invariant forall v :: v in inDegrees ==> v in vs[..i] && inDegrees[v] == Count(g, v)
        invariant forall v :: v in vs[..i] ==> v in inDegrees
        invariant waiting == old(waiting) && State() == old(State())
      {
        var v := vs[i];
        assert v !in vs[..i];
        TakeNext(vs, i);
        if v !in inDegrees {
          inDegreeKeys := inDegreeKeys + [v];
          inDegrees := inDegrees[v := 0];
        }
        var hs := graph.EachAdjacent(v);
        var j := 0;
        while j < |hs|
          invariant 0 <= j <= |hs|
          invariant inDegreeKeys == vs[..i + 1]
          invariant v in inDegrees && inDegrees[v] == j
          invariant forall u :: u in inDegrees && u != v ==> u in vs[..i] && inDegrees[u] == Count(g, u)
          invariant forall u :: u in vs[..i + 1] ==> u in inDegrees
          invariant waiting == old(waiting) && State() == old(State())
        {
          inDegrees := inDegrees[v := inDegrees[v] + 1];
          j := j + 1;
        }
        i := i + 1;
      }
      assert vs[..i] == vs;
    }

    /** visit: raise on a vertex being visited; skip a visited one;
        otherwise push v on visiting, visit its list, unset v where
        array_search finds it, and append v to visited and the solution. */
    method Visit(ghost g: MGraph<V>, v: V) returns (outcome: Outcome)
      requires g == graph.State() && Valid(g) && v in Universe(g)
      modifies this
      ensures (State(), outcome) == TopSortSpec.Visit(g, old(State()), v)
      ensures waiting == old(waiting)
      decreases Unfinished(g, State()), 0
    {
      ghost var st0 := State();
      if v in visiting {
        return Fail(Runtime);
      }
      outcome := Done;
      if v !in visited {
        visiting := visiting + [v];
        assert Unfinished(g, State()) < Unfinished(g, st0) by {
          assert v in Unfinished(g, st0) && v !in Unfinished(g, State());
        }
        var hs := graph.EachAdjacent(v);
        AdjacentInUniverse(g, v);
        outcome := Successors(g, hs);
        if outcome.Fail? {
          return;
        }
        var k := IndexOf(visiting, v);
        visiting := visiting[..k] + visiting[k + 1..];
        visited := visited + [v];
        solution := solution + [v];
      }
    }

    /** The eachAdjacent loop of visit, left at the first exception. */
    method Successors(ghost g: MGraph<V>, ws: seq<V>) returns (outcome: Outcome)
      requires g == graph.State() && Valid(g) && forall w :: w in ws ==> w in Universe(g)
      modifies this
      ensures (State(), outcome) == Succs(g, old(State()), ws)
      ensures waiting == old(waiting)
      decreases Unfinished(g, State()), 2
    {
      ghost var st0 := State();
      assert ws[0..] == ws;
      outcome := Done;
      var i := 0;
      while i < |ws| && outcome == Done
        invariant 0 <= i <= |ws|
        invariant outcome == Done ==> Keeps(st0, State()) && visiting == st0.visiting
        invariant outcome == Done ==> Succs(g, State(), ws[i..]) == Succs(g, st0, ws)
        invariant outcome.Fail? ==> (State(), outcome) == Succs(g, st0, ws)
        invariant waiting == old(waiting)
      {
        assert ws[i..][0] == ws[i] && ws[i..][1..] == ws[i + 1..];
        assert Unfinished(g, State()) <= Unfinished(g, st0);
        ghost var sti := State();
        outcome := Visit(g, ws[i]);
        if outcome == Done {
          KeepsTrans(st0, sti, State());
        }
        i := i + 1;
      }
    }
  }

  /** The loop over the counts getIterator stored: a vertex with a nonzero
      count is pushed, in key order. */
  method PushNonzero<V>(ghost g: MGraph<V>, ks: seq<V>, counts: map<V, nat>) returns (pushed: seq<V>)
    requires forall v :: v in ks ==> v in counts && counts[v] == Count(g, v)
    ensures pushed == Nonzero(g, ks)
  {
    pushed := [];
    assert ks[0..] == ks;
    var i := 0;
    while i < |ks|
      invariant 0 <= i <= |ks|
      invariant pushed + Nonzero(g, ks[i..]) == Nonzero(g, ks)
    {
      var v := ks[i];
      assert ks[i..][0] == v && ks[i..][1..] == ks[i + 1..];
      ghost var rest := Nonzero(g, ks[i + 1..]);
      if counts[v] != 0 {
        AppendAssoc(pushed, [v], rest);
        pushed := pushed + [v];
      } else {
        assert [] + rest == rest;
      }
      i := i + 1;
    }
  }
}
