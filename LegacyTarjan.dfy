/** Gliph\Tarjan: the earlier Tarjan implementation, kept as an object whose
    fields the recursive strongconnect updates. It differs from
    ConnectedComponent::tarjan_scc only in what it keeps: a popped component
    is stored only when it has more than one vertex, unless storeNonCycles
    is set. */
module LegacyTarjan {
  import opened Common
  import opened AdjacencyStore
  import opened TarjanSpec

  /** The components getCycles keeps out of all those popped. */
  function Kept<V>(all: seq<seq<V>>, storeNonCycles: bool): seq<seq<V>> {
    if storeNonCycles then all else MultiVertex(all)
  }

  /** Popping one more component keeps it exactly when it has more than one
      vertex or storeNonCycles is set. */
  lemma KeptAppend<V>(all: seq<seq<V>>, c: seq<V>, storeNonCycles: bool)
    ensures Kept(all + [c], storeNonCycles)
      == Kept(all, storeNonCycles) + (if |c| > 1 || storeNonCycles then [c] else [])
  {
    MultiVertexAppend(all, c);
  }

  class Tarjan<V(==)> {
    var vertexIndices: map<V, nat>
    var vertexLowLimits: map<V, nat>
    var scc: seq<seq<V>>
    var stack: seq<V>
    var index: nat
    var graph: Store<V>
    /** The protected flag, FALSE unless a subclass overrides it. */
    const storeNonCycles: bool
    /** Every component popped so far, stored or not. */
    ghost var popped: seq<seq<V>>

    ghost function State(): TState<V>
      reads this
    {
      TState(index, stack, vertexIndices, vertexLowLimits, popped)
    }

    ghost predicate Stored()
      reads this
    {
      scc == Kept(popped, storeNonCycles)
    }

    constructor ()
      ensures !storeNonCycles
    {
      storeNonCycles := false;
    }

    /** getCycles: reset the counter, the result queue and the stack, then
        strongconnect every vertex without an index, in vertex order. The
        result does not depend on any earlier call. */
    method GetCycles(g: Store<V>) returns (cycles: seq<seq<V>>)
      requires Valid(g)
      modifies this
      ensures cycles == Kept(Components(g), storeNonCycles)
    {
      Reset(g);
      assert g.order[0..] == g.order;
      var i := 0;
      while i < |g.order|
        invariant 0 <= i <= |g.order|
        invariant graph == g && Stored()
        invariant Shaped(g, State())
        invariant Drive(g, State(), g.order[i..]) == Run(g)
      {
        var v := g.order[i];
        assert g.order[i..][0] == v && g.order[i..][1..] == g.order[i + 1..];
        if v !in vertexIndices {
          StrongConnect(g, v);
        }
        i := i + 1;
      }
      cycles := scc;
    }

    /** The start of getCycles: nothing indexed, nothing stacked, nothing
        kept, and g as the graph being searched. */
    method Reset(g: Store<V>)
      modifies this
      ensures graph == g && Stored() && State() == Init()
    {
      index := 0;
      scc := [];
      stack := [];
      graph := g;
      vertexIndices := map[];
      vertexLowLimits := map[];
      popped := [];
    }

    /** strongconnect: number the vertex, push it, walk its adjacent
        vertices, and pop its component when its low-link equals its
        index. The ghost g names the graph field, which no call changes. */
    method StrongConnect(ghost g: Store<V>, v: V)
      requires graph == g && Valid(g) && Shaped(g, State()) && Stored()
      requires v in g.adj && v !in vertexIndices
      modifies this
      ensures graph == g && Stored()
      ensures State() == Visit(g, old(State()), v)
      decreases Unindexed(g, State()), 0
    {
      ghost var st0 := State();
      vertexIndices := vertexIndices[v := index];
      vertexLowLimits := vertexLowLimits[v := index];
      index := index + 1;
      stack := stack + [v];
      ghost var st1 := State();
      assert st1 == Push(st0, v);
      assert Unindexed(g, State()) < Unindexed(g, st0) by {
        assert v in Unindexed(g, st0) && v !in Unindexed(g, State());
      }
      EachAdjacent(g, v, graph.adj[v]);
      if vertexIndices[v] == vertexLowLimits[v] {
        assert v in stack by {
          assert stack[..|st1.stack|] == st1.stack;
          assert stack[|st0.stack|] == stack[..|st1.stack|][|st0.stack|];
        }
        PopComponent(v);
      }
    }

    /** eachAdjacent over a snapshot of v's adjacency set. */
    method EachAdjacent(ghost g: Store<V>, v: V, adjacent: seq<V>)
      requires graph == g && Valid(g) && Shaped(g, State()) && Stored()
      requires v in vertexIndices && forall w :: w in adjacent ==> w in g.adj
      modifies this
      ensures graph == g && Stored()
      ensures State() == Succs(g, old(State()), v, adjacent)
      decreases Unindexed(g, State()), 2
    {
      ghost var st1 := State();
      assert adjacent[0..] == adjacent;
      var i := 0;
      while i < |adjacent|
        invariant 0 <= i <= |adjacent|
        invariant graph == g && Stored()
        invariant Shaped(g, State()) && v in vertexIndices
        invariant forall u :: u in st1.index ==> u in vertexIndices
        invariant Succs(g, State(), v, adjacent[i..]) == Succs(g, st1, v, adjacent)
      {
        var to := adjacent[i];
        assert adjacent[i..][0] == to && adjacent[i..][1..] == adjacent[i + 1..];
        Adjacent(g, v, to);
        i := i + 1;
      }
    }

    /** The eachAdjacent callback: a fresh vertex is strongconnected and
        lowers the low-link of v to its own low-link; a vertex found on the
        stack lowers it to that vertex's index. */
    method Adjacent(ghost g: Store<V>, v: V, to: V)
      requires graph == g && Valid(g) && Shaped(g, State()) && Stored()
      requires v in vertexIndices && to in g.adj
      modifies this
      ensures graph == g && Stored()
      ensures State() == Step(g, old(State()), v, to)
      decreases Unindexed(g, State()), 1
    {
      if to !in vertexIndices {
        StrongConnect(g, to);
        vertexLowLimits := vertexLowLimits[v := Min(vertexLowLimits[v], vertexLowLimits[to])];
      } else if to in stack {
        vertexLowLimits := vertexLowLimits[v := Min(vertexLowLimits[v], vertexIndices[to])];
      }
    }

    /** The do/while pop loop and the storeNonCycles filter. */
    method PopComponent(v: V)
      requires v in stack && Stored()
      modifies this
      ensures graph == old(graph) && Stored()
      ensures State() == Pop(old(State()), v)
    {
      var component;
      stack, component := PopLoop(stack, v);
      Keep(component);
    }

    /** The storeNonCycles filter applied to one popped component. */
    method Keep(component: seq<V>)
      requires Stored()
      modifies this
      ensures popped == old(popped) + [component] && Stored()
      ensures graph == old(graph) && index == old(index) && stack == old(stack)
      ensures vertexIndices == old(vertexIndices) && vertexLowLimits == old(vertexLowLimits)
    {
      KeptAppend(popped, component, storeNonCycles);
      popped := popped + [component];
      if |component| > 1 || storeNonCycles {
        scc := scc + [component];
      }
    }
  }
}
