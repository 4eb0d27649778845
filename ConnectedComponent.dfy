/** ConnectedComponent::tarjan_scc: the current Tarjan implementation, whose
    recursive closure captures the counter, the stack and the two index
    storages by reference, and hands every popped component to a visitor.
    Each method is proved to compute what the TarjanSpec functions say. */
module ConnectedComponent {
  import opened Common
  import opened AdjacencyStore
  import opened TarjanSpec

  /** The variables the `$visit` closure shares, with the list of
      components the visitor collects. */
  class SccSearch<V(==)> {
    const graph: Store<V>
    var counter: nat
    var stack: seq<V>
    var indices: map<V, nat>
    var lowlimits: map<V, nat>
    var components: seq<seq<V>>

    function State(): TState<V>
      reads this
    {
      TState(counter, stack, indices, lowlimits, components)
    }

    constructor (g: Store<V>)
      ensures graph == g && State() == Init()
    {
      graph := g;
      counter := 0;
      stack := [];
      indices := map[];
      lowlimits := map[];
      components := [];
    }

    /** The closure `$visit`: number v, push it, walk its successors, and
        pop v's component if v's low-link still equals its index. */
    method Visit(v: V)
      requires Valid(graph) && Shaped(graph, State()) && v in graph.adj && v !in indices
      modifies this
      ensures State() == TarjanSpec.Visit(graph, old(State()), v)
      decreases Unindexed(graph, State()), 0
    {
      ghost var st0 := State();
      indices := indices[v := counter];
      lowlimits := lowlimits[v := counter];
      stack := stack + [v];
      counter := counter + 1;
      ghost var st1 := State();
      assert st1 == Push(st0, v);
      assert Unindexed(graph, State()) < Unindexed(graph, st0) by {
        assert v in Unindexed(graph, st0) && v !in Unindexed(graph, State());
      }
      Successors(v, graph.adj[v]);
      if lowlimits[v] == indices[v] {
        assert v in stack by {
          assert stack[..|st1.stack|] == st1.stack;
          assert stack[|st0.stack|] == stack[..|st1.stack|][|st0.stack|];
        }
        PopComponent(v);
      }
    }

    /** The foreach over the successors of v, a snapshot of its set. */
    method Successors(v: V, heads: seq<V>)
      requires Valid(graph) && Shaped(graph, State()) && v in indices
      requires forall w :: w in heads ==> w in graph.adj
      modifies this
      ensures State() == Succs(graph, old(State()), v, heads)
      decreases Unindexed(graph, State()), 2
    {
      ghost var st1 := State();
      ghost var g := graph;
      assert heads[0..] == heads;
      var i := 0;
      while i < |heads|
        invariant 0 <= i <= |heads|
        invariant Shaped(g, State()) && v in indices
        invariant forall u :: u in st1.index ==> u in indices
        invariant Succs(g, State(), v, heads[i..]) == Succs(g, st1, v, heads)
      {
        var w := heads[i];
        assert heads[i..][0] == w && heads[i..][1..] == heads[i + 1..];
        assert Unindexed(g, State()) <= Unindexed(g, st1);
        Successor(v, w);
        i := i + 1;
      }
    }

    /** One successor w: a fresh w is visited and lowers v's low-link to
        its own; a w found on the stack lowers it to w's index. */
    method Successor(v: V, w: V)
      requires Valid(graph) && Shaped(graph, State()) && v in indices && w in graph.adj
      modifies this
      ensures State() == Step(graph, old(State()), v, w)
      decreases Unindexed(graph, State()), 1
    {
      if w !in indices {
        Visit(w);
        lowlimits := lowlimits[v := Min(lowlimits[v], lowlimits[w])];
      } else if w in stack {
        lowlimits := lowlimits[v := Min(lowlimits[v], indices[w])];
      }
    }

    /** newComponent and the do/while loop: pop into the new component
        until v has been popped. */
    method PopComponent(v: V)
      requires v in stack
      modifies this
      ensures State() == Pop(old(State()), v)
    {
      var comp;
      stack, comp := PopLoop(stack, v);
      components := components + [comp];
    }
  }

  /** tarjan_scc: visit every vertex without an index, in vertex order.
      The result is the visitor's full component list. */
  method TarjanScc<V(==)>(g: Store<V>) returns (components: seq<seq<V>>)
    requires Valid(g)
    ensures components == Components(g)
  {
    var search := new SccSearch(g);
    assert g.order[0..] == g.order;
    var i := 0;
    while i < |g.order|
      invariant 0 <= i <= |g.order|
      invariant search.graph == g
      invariant Shaped(g, search.State())
      invariant Drive(g, search.State(), g.order[i..]) == Run(g)
    {
      var v := g.order[i];
      assert g.order[i..][0] == v && g.order[i..][1..] == g.order[i + 1..];
      if v !in search.indices {
        search.Visit(v);
      }
      i := i + 1;
    }
    components := search.components;
  }
}
