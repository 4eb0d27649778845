/** Tarjan's strongly connected components algorithm as both sources run it:
    depth-first numbering with an index and a low-link per vertex, an
    explicit stack, and a component popped off the stack whenever a vertex
    finishes with low-link equal to its index. */
module TarjanSpec {
  import opened Common
  import opened AdjacencyStore

  /** The working state: the next index, the stack, the index and low-link
      of every numbered vertex, and the components found so far, each in
      pop order. */
  datatype TState<V> = TState(
    counter: nat,
    stack: seq<V>,
    index: map<V, nat>,
    low: map<V, nat>,
    comps: seq<seq<V>>)

  function Init<V>(): TState<V> {
    TState(0, [], map[], map[], [])
  }

  /** What the recursion needs to be well defined. */
  ghost predicate Shaped<V>(s: Store<V>, st: TState<V>) {
    && (forall u :: u in st.index ==> u in st.low && u in s.adj)
    && (forall u :: u in st.low ==> u in st.index)
  }

  ghost function Unindexed<V>(s: Store<V>, st: TState<V>): set<V> {
    s.adj.Keys - st.index.Keys
  }

  /** The do/while pop loop: pop into `comp` until v has been popped.
      Returns the remaining stack and the component. */
  function PopUntil<V(==)>(stack: seq<V>, comp: seq<V>, v: V): (r: (seq<V>, seq<V>))
    requires v in stack
    ensures |r.0| < |stack| && r.0 == stack[..|r.0|]
    ensures stack[|r.0|] == v
    ensures forall k :: 0 <= k < |stack| && stack[k] == v ==> k <= |r.0|
    ensures r.1 == comp + Reverse(stack[|r.0|..])
    decreases |stack|
  {
    var other := stack[|stack| - 1];
    var rest := stack[..|stack| - 1];
    if other != v then
      assert v in rest by {
        var k :| 0 <= k < |stack| && stack[k] == v;
        assert rest[k] == v;
      }
      var r := PopUntil(rest, comp + [other], v);
      assert stack[|r.0|..] == rest[|r.0|..] + [other];
      ReverseAppend(rest[|r.0|..], other);
      r
    else
      assert stack[|rest|..] == [v];
      (rest, comp + [other])
  }

  /** The do/while pop loop on its own: pop into the component until v
      has been popped. */
  method PopLoop<V(==)>(stack: seq<V>, v: V) returns (rest: seq<V>, comp: seq<V>)
    requires v in stack
    ensures (rest, comp) == PopUntil(stack, [], v)
  {
    rest := stack;
    comp := [];
    var done := false;
    while !done
      invariant !done ==> v in rest && PopUntil(rest, comp, v) == PopUntil(stack, [], v)
      invariant done ==> (rest, comp) == PopUntil(stack, [], v)
      decreases |rest|, !done
    {
      ghost var prev := rest;
      var other := rest[|rest| - 1];
      assert prev == prev[..|prev| - 1] + [other];
      rest := rest[..|rest| - 1];
      comp := comp + [other];
      done := other == v;
      if !done {
        assert v in rest by {
          var k :| 0 <= k < |prev| && prev[k] == v;
          assert k < |rest|;
          assert rest[k] == v;
        }
      }
    }
  }

  lemma {:induction false} ReverseAppend<T>(a: seq<T>, x: T)
    ensures Reverse(a + [x]) == [x] + Reverse(a)
  {
  }

  /** newComponent, then the pop loop. */
  function Pop<V(==)>(st: TState<V>, v: V): TState<V>
    requires v in st.stack
  {
    var r := PopUntil(st.stack, [], v);
    st.(stack := r.0, comps := st.comps + [r.1])
  }

  /** v is numbered with the next index and pushed. */
  function Push<V>(st: TState<V>, v: V): TState<V> {
    TState(st.counter + 1, st.stack + [v], st.index[v := st.counter],
           st.low[v := st.counter], st.comps)
  }

  /** The recursive visit of an unnumbered vertex v. */
  function Visit<V(==)>(s: Store<V>, st: TState<V>, v: V): (r: TState<V>)
    requires Valid(s) && Shaped(s, st) && v in s.adj && v !in st.index
    ensures Shaped(s, r)
    ensures v in r.index && forall u :: u in st.index ==> u in r.index
    ensures Prefix(st.stack, r.stack)
    decreases Unindexed(s, st), 0, 0
  {
    var st1 := Push(st, v);
    assert st1.stack[..|st.stack|] == st.stack;
    var st2 := Succs(s, st1, v, s.adj[v]);
    assert v in st2.stack by {
      assert st2.stack[|st.stack|] == st2.stack[..|st1.stack|][|st.stack|];
    }
    if st2.low[v] == st2.index[v] then
      var r := Pop(st2, v);
      assert st2.stack[|st.stack|] == v by {
        assert st2.stack[..|st1.stack|] == st1.stack;
      }
      assert r.stack == st2.stack[..|r.stack|];
      assert |st.stack| <= |r.stack|;
      assert r.stack[..|st.stack|] == st2.stack[..|st.stack|];
      assert st2.stack[..|st.stack|] == st1.stack[..|st.stack|];
      r
    else
      assert st2.stack[..|st.stack|] == st1.stack[..|st.stack|];
      st2
  }

  /** One successor w of v: a fresh w is visited and v's low-link takes the
      minimum with w's low-link; a w still on the stack lowers v's low-link
      to at most w's index; any other w is ignored. */
  function Step<V(==)>(s: Store<V>, st: TState<V>, v: V, w: V): (r: TState<V>)
    requires Valid(s) && Shaped(s, st) && v in st.index && w in s.adj
    ensures Shaped(s, r)
    ensures forall u :: u in st.index ==> u in r.index
    ensures Prefix(st.stack, r.stack)
    decreases Unindexed(s, st), 1, 0
  {
    if w !in st.index then
      var t := Visit(s, st, w);
      t.(low := t.low[v := Min(t.low[v], t.low[w])])
    else if w in st.stack then
      st.(low := st.low[v := Min(st.low[v], st.index[w])])
    else st
  }

  /** The loop over v's successors, in adjacency order. */
  function Succs<V(==)>(s: Store<V>, st: TState<V>, v: V, ws: seq<V>): (r: TState<V>)
    requires Valid(s) && Shaped(s, st) && v in st.index
    requires forall w :: w in ws ==> w in s.adj
    ensures Shaped(s, r)
    ensures forall u :: u in st.index ==> u in r.index
    ensures Prefix(st.stack, r.stack)
    decreases Unindexed(s, st), 1, |ws|
  {
    if ws == [] then st
    else
      var st' := Step(s, st, v, ws[0]);
      var r := Succs(s, st', v, ws[1..]);
      PrefixTrans(st.stack, st'.stack, r.stack);
      r
  }

  function Min(a: nat, b: nat): nat {
    if a <= b then a else b
  }

  /** The driver: every vertex in order that has no index yet is visited. */
  function Drive<V(==)>(s: Store<V>, st: TState<V>, vs: seq<V>): (r: TState<V>)
    requires Valid(s) && Shaped(s, st)
    requires forall v :: v in vs ==> v in s.adj
    ensures Shaped(s, r)
    ensures forall u :: u in st.index ==> u in r.index
    decreases |vs|
  {
    if vs == [] then st
    else Drive(s, if vs[0] in st.index then st else Visit(s, st, vs[0]), vs[1..])
  }

  /** The run from the empty state over all vertices in insertion order. */
  function Run<V(==)>(s: Store<V>): TState<V>
    requires Valid(s)
  {
    Drive(s, Init(), s.order)
  }

  /** The components, every one of them, in the order they were found. */
  function Components<V(==)>(s: Store<V>): seq<seq<V>>
    requires Valid(s)
  {
    Run(s).comps
  }

  /** The components with more than one vertex. */
  function MultiVertex<V>(cs: seq<seq<V>>): (r: seq<seq<V>>)
    ensures |r| <= |cs|
    ensures forall c :: c in r ==> c in cs && |c| > 1
    ensures forall c :: c in cs && |c| > 1 ==> c in r
  {
    if cs == [] then []
    else if |cs[0]| > 1 then [cs[0]] + MultiVertex(cs[1..])
    else MultiVertex(cs[1..])
  }

  lemma {:induction false} MultiVertexAppend<V>(cs: seq<seq<V>>, c: seq<V>)
    ensures MultiVertex(cs + [c]) == MultiVertex(cs) + (if |c| > 1 then [c] else [])
  {
    if cs == [] {
      assert [c][1..] == [];
    } else {
      assert (cs + [c])[1..] == cs[1..] + [c];
      MultiVertexAppend(cs[1..], c);
    }
  }

  // ---------------------------------------------------------------------
  // The invariant

  ghost predicate Numbered<V>(st: TState<V>) {
    && st.counter == |st.index.Keys|
    && (forall u :: u in st.index ==> st.index[u] < st.counter)
    && (forall u, u' :: u in st.index && u' in st.index && u != u' ==> st.index[u] != st.index[u'])
    && (forall u :: u in st.low ==> u in st.index && st.low[u] <= st.index[u])
  }

  ghost predicate StackOrdered<V>(st: TState<V>) {
    && (forall u :: u in st.stack ==> u in st.index)
    && (forall i, j :: 0 <= i < j < |st.stack| ==>
          st.stack[i] in st.index && st.stack[j] in st.index &&
          st.index[st.stack[i]] < st.index[st.stack[j]])
    && (|st.stack| > 0 ==> forall u :: u in st.stack ==>
          u in st.low && st.stack[0] in st.index && st.low[u] >= st.index[st.stack[0]])
  }

  /** Every numbered vertex is on the stack or in exactly one component,
      never both. */
  ghost predicate Partitioned<V>(st: TState<V>) {
    && NoDup(Flatten(st.comps))
    && (forall u :: u in Flatten(st.comps) ==> u !in st.stack && u in st.index)
    && (forall u :: u in st.stack ==> u in st.index)
    && (forall u :: u in st.index ==> u in Flatten(st.comps) || u in st.stack)
  }

  ghost predicate Inv<V>(s: Store<V>, st: TState<V>) {
    Shaped(s, st) && Numbered(st) && StackOrdered(st) && Partitioned(st)
  }

  lemma StackNoDup<V>(st: TState<V>)
    requires StackOrdered(st)
    ensures NoDup(st.stack)
  {
  }

  lemma InitInv<V>(s: Store<V>)
    ensures Inv(s, Init())
  {
  }

  lemma PushNumbered<V>(st: TState<V>, v: V)
    requires Numbered(st) && v !in st.index
    ensures Numbered(Push(st, v))
  {
    var r := Push(st, v);
    assert r.index.Keys == st.index.Keys + {v};
  }

  lemma PushStackOrdered<V>(st: TState<V>, v: V)
    requires Numbered(st) && StackOrdered(st) && v !in st.index
    ensures StackOrdered(Push(st, v))
  {
    var r := Push(st, v);
    forall i, j | 0 <= i < j < |r.stack|
      ensures r.stack[i] in r.index && r.stack[j] in r.index
      ensures r.index[r.stack[i]] < r.index[r.stack[j]]
    {
      assert r.stack[i] == st.stack[i];
      if j < |st.stack| {
        assert r.stack[j] == st.stack[j];
      }
    }
    if |st.stack| > 0 {
      assert r.stack[0] == st.stack[0];
    }
  }

  lemma PushPartitioned<V>(st: TState<V>, v: V)
    requires Partitioned(st) && v !in st.index
    ensures Partitioned(Push(st, v))
  {
  }

  /** Pushing a fresh vertex with the next index keeps the invariant. */
  lemma PushInv<V>(s: Store<V>, st: TState<V>, v: V)
    requires Inv(s, st) && v in s.adj && v !in st.index
    ensures Inv(s, Push(st, v))
  {
    PushNumbered(st, v);
    PushStackOrdered(st, v);
    PushPartitioned(st, v);
  }

  lemma LowerNumbered<V>(st: TState<V>, v: V, x: nat)
    requires Numbered(st) && v in st.low && x <= st.low[v]
    ensures Numbered(st.(low := st.low[v := x]))
  {
  }

  lemma LowerStackOrdered<V>(st: TState<V>, v: V, x: nat)
    requires StackOrdered(st) && v in st.stack && v in st.low && x <= st.low[v]
    requires st.stack[0] in st.index && st.index[st.stack[0]] <= x
    ensures StackOrdered(st.(low := st.low[v := x]))
  {
  }

  /** Lowering the low-link of a stacked vertex to a value that is at least
      the index of the stack bottom keeps the invariant. */
  lemma LowerInv<V>(s: Store<V>, st: TState<V>, v: V, x: nat)
    requires Inv(s, st) && v in st.stack && x <= st.low[v]
    requires st.index[st.stack[0]] <= x
    ensures Inv(s, st.(low := st.low[v := x]))
  {
    var r := st.(low := st.low[v := x]);
    LowerNumbered(st, v, x);
    LowerStackOrdered(st, v, x);
    assert r.comps == st.comps && r.stack == st.stack && r.index == st.index;
    assert Partitioned(r);
    assert Shaped(s, r);
  }

  /** The state after the pop loop removed stack[p..]. */
  function Popped<V>(st: TState<V>, p: nat): TState<V>
    requires p <= |st.stack|
  {
    st.(stack := st.stack[..p], comps := st.comps + [Reverse(st.stack[p..])])
  }

  lemma PopShape<V>(st: TState<V>, v: V, p: nat)
    requires NoDup(st.stack) && p < |st.stack| && st.stack[p] == v
    ensures Pop(st, v) == Popped(st, p)
  {
    var pu := PopUntil(st.stack, [], v);
    assert p <= |pu.0|;
    assert st.stack[|pu.0|] == v;
    assert |pu.0| == p;
    assert pu.1 == [] + Reverse(st.stack[p..]) == Reverse(st.stack[p..]);
  }

  lemma PopStackOrdered<V>(st: TState<V>, p: nat)
    requires StackOrdered(st) && p <= |st.stack|
    ensures StackOrdered(Popped(st, p))
  {
    var r := Popped(st, p);
    if |r.stack| > 0 {
      assert r.stack[0] == st.stack[0];
    }
  }

  lemma ReverseMembers<T>(a: seq<T>)
    ensures NoDup(a) ==> NoDup(Reverse(a))
    ensures forall u :: u in Reverse(a) ==> u in a
    ensures forall u :: u in a ==> u in Reverse(a)
  {
    var c := Reverse(a);
    if NoDup(a) {
      forall i, j | 0 <= i < j < |c| ensures c[i] != c[j] {
        assert c[i] == a[|a| - 1 - i];
        assert c[j] == a[|a| - 1 - j];
      }
    }
    forall u | u in c ensures u in a {
      var i :| 0 <= i < |c| && c[i] == u;
      assert u == a[|a| - 1 - i];
    }
    forall u | u in a ensures u in c {
      var i :| 0 <= i < |a| && a[i] == u;
      assert c[|a| - 1 - i] == u;
    }
  }

  lemma PopPartitioned<V>(st: TState<V>, p: nat)
    requires Partitioned(st) && NoDup(st.stack) && p <= |st.stack|
    ensures Partitioned(Popped(st, p))
  {
    var r := Popped(st, p);
    var top := st.stack[p..];
    var c := Reverse(top);
    FlattenAppend(st.comps, c);
    assert st.stack == st.stack[..p] + top;
    NoDupConcat(st.stack[..p], top);
    ReverseMembers(top);
    forall u | u in Flatten(st.comps) ensures u !in c {
      assert u !in st.stack;
    }
    NoDupConcat(Flatten(st.comps), c);
    forall u | u in Flatten(r.comps) ensures u !in r.stack && u in r.index {
      if u in c {
        assert u in top;
      }
    }
    forall u | u in r.index ensures u in Flatten(r.comps) || u in r.stack {
      if u in st.stack && u !in r.stack {
        assert u in top;
      }
    }
  }

  /** The pop loop removes the stack from v upward into one new component,
      in pop order, and keeps the invariant. */
  lemma PopInv<V>(s: Store<V>, st: TState<V>, v: V, p: nat)
    requires Inv(s, st) && p < |st.stack| && st.stack[p] == v
    ensures var r := Pop(st, v);
      && Inv(s, r)
      && r.stack == st.stack[..p]
      && r.comps == st.comps + [Reverse(st.stack[p..])]
      && r.index == st.index && r.low == st.low && r.counter == st.counter
  {
    StackNoDup(st);
    PopShape(st, v, p);
    PopStackOrdered(st, p);
    PopPartitioned(st, p);
  }

  /** What a successor step, or the whole successor loop, of a stacked v
      keeps besides the invariant: every old index, every old low-link but
      v's, which can only go down, and the stack and components as
      prefixes. */
  ghost predicate Grows<V>(st: TState<V>, v: V, r: TState<V>) {
    && v in st.index && v in r.index
    && (forall u :: u in st.index ==> u in r.index && r.index[u] == st.index[u])
    && (forall u :: u in st.index && u != v ==> u in st.low && u in r.low && r.low[u] == st.low[u])
    && v in st.low && v in r.low && r.low[v] <= st.low[v]
    && Prefix(st.comps, r.comps)
    && Prefix(st.stack, r.stack)
  }

  ghost predicate Extends<V>(s: Store<V>, st: TState<V>, v: V, r: TState<V>) {
    Inv(s, r) && Grows(st, v, r)
  }

  /** What visiting a fresh v does besides keeping the invariant: every old
      index and low-link stays; v gets the next index; and either v's
      component is closed, with the stack restored and the last component
      found ending in v, or v stays on the stack just above the old stack
      with a low-link below its index. */
  ghost predicate Settled<V>(st: TState<V>, v: V, r: TState<V>) {
    && v in r.index && v in r.low
    && (forall u :: u in st.index ==>
          u in st.low && u in r.index && u in r.low && r.index[u] == st.index[u] && r.low[u] == st.low[u])
    && r.index[v] == st.counter
    && Prefix(st.comps, r.comps)
    && Prefix(st.stack, r.stack)
    && (r.low[v] == r.index[v] ==>
          r.stack == st.stack && |r.comps| > |st.comps|
          && |Last(r.comps)| > 0 && Last(Last(r.comps)) == v)
    && (r.low[v] != r.index[v] ==>
          r.low[v] < r.index[v] && |r.stack| > |st.stack| && r.stack[|st.stack|] == v)
  }

  ghost predicate Visited<V>(s: Store<V>, st: TState<V>, v: V, r: TState<V>) {
    Inv(s, r) && Settled(st, v, r)
  }

  lemma GrowsRefl<V>(st: TState<V>, v: V)
    requires v in st.index && v in st.low
    requires forall u :: u in st.index ==> u in st.low
    ensures Grows(st, v, st)
  {
    assert st.comps[..|st.comps|] == st.comps;
    assert st.stack[..|st.stack|] == st.stack;
  }

  lemma GrowsTrans<V>(a: TState<V>, v: V, b: TState<V>, c: TState<V>)
    requires Grows(a, v, b) && Grows(b, v, c)
    ensures Grows(a, v, c)
  {
    assert c.comps[..|a.comps|] == c.comps[..|b.comps|][..|a.comps|];
    assert c.stack[..|a.stack|] == c.stack[..|b.stack|][..|a.stack|];
  }

  /** The closing branch of a visit, apart from the invariant. */
  lemma CloseSettled<V>(st: TState<V>, v: V, st2: TState<V>)
    requires v !in st.index && (forall u :: u in st.index ==> u in st.low)
    requires Grows(Push(st, v), v, st2)
    requires NoDup(st2.stack) && st2.low[v] == st2.index[v]
    ensures |st.stack| < |st2.stack| && st2.stack[|st.stack|] == v
    ensures Settled(st, v, Pop(st2, v))
  {
    PopBack(st.stack, st.comps, st2, v);
  }

  /** Popping down to v, when v sits just above stack0, leaves stack0 and
      adds one component ending in v; the maps are untouched. */
  lemma PopBack<V>(stack0: seq<V>, comps0: seq<seq<V>>, st2: TState<V>, v: V)
    requires Prefix(stack0 + [v], st2.stack) && NoDup(st2.stack) && Prefix(comps0, st2.comps)
    ensures |stack0| < |st2.stack| && st2.stack[|stack0|] == v
    ensures var r := Pop(st2, v);
      && r.stack == stack0 && r.index == st2.index && r.low == st2.low
      && Prefix(comps0, r.comps) && |r.comps| > |comps0|
      && |Last(r.comps)| > 0 && Last(Last(r.comps)) == v
  {
    var p := |stack0|;
    assert st2.stack[p] == st2.stack[..p + 1][p];
    PopShape(st2, v, p);
    var r := Pop(st2, v);
    assert st2.stack[..p] == st2.stack[..p + 1][..p];
    var c := Reverse(st2.stack[p..]);
    assert r.comps == st2.comps + [c];
    assert Last(c) == st2.stack[p..][0];
    assert r.comps[..|comps0|] == st2.comps[..|comps0|];
  }

  /** The closing branch of a visit: v's low-link equals its index after the
      successor loop, so the pop loop takes the stack back to where it was. */
  lemma VisitClose<V>(s: Store<V>, st: TState<V>, v: V, st2: TState<V>)
    requires Inv(s, st) && v !in st.index
    requires Extends(s, Push(st, v), v, st2)
    requires st2.low[v] == st2.index[v]
    ensures v in st2.stack
    ensures Visited(s, st, v, Pop(st2, v))
  {
    StackNoDup(st2);
    CloseSettled(st, v, st2);
    PopInv(s, st2, v, |st.stack|);
  }

  /** The open branch of a visit, apart from the invariant. */
  lemma OpenSettled<V>(st: TState<V>, v: V, st2: TState<V>)
    requires v !in st.index && (forall u :: u in st.index ==> u in st.low)
    requires Grows(Push(st, v), v, st2)
    requires st2.low[v] != st2.index[v]
    ensures Settled(st, v, st2)
  {
    var st1 := Push(st, v);
    var p := |st.stack|;
    assert st2.stack[..|st1.stack|] == st1.stack;
    assert st2.stack[p] == st2.stack[..|st1.stack|][p];
    assert st2.stack[..p] == st2.stack[..|st1.stack|][..p];
    assert st2.low[v] <= st1.low[v] == st.counter;
  }

  /** The open branch of a visit: v's low-link went below its index, so v
      stays on the stack. */
  lemma VisitOpen<V>(s: Store<V>, st: TState<V>, v: V, st2: TState<V>)
    requires Inv(s, st) && v !in st.index
    requires Extends(s, Push(st, v), v, st2)
    requires st2.low[v] != st2.index[v]
    ensures Visited(s, st, v, st2)
  {
    OpenSettled(st, v, st2);
  }

  /** Visit keeps the invariant, as Visited states. */
  lemma {:induction false} VisitInv<V>(s: Store<V>, st: TState<V>, v: V)
    requires Valid(s) && Inv(s, st) && v in s.adj && v !in st.index
    ensures Visited(s, st, v, Visit(s, st, v))
    decreases Unindexed(s, st), 0, 0
  {
    var st1 := Push(st, v);
    PushInv(s, st, v);
    assert st1.stack[|st.stack|] == v;
    SuccsInv(s, st1, v, s.adj[v], |st.stack|);
    var st2 := Succs(s, st1, v, s.adj[v]);
    if st2.low[v] == st2.index[v] {
      VisitClose(s, st, v, st2);
    } else {
      VisitOpen(s, st, v, st2);
    }
  }

  /** After visiting a fresh successor w, the minimum of the low-links of
      v and w is still at least the index of the stack bottom. */
  lemma LowerBound<V>(s: Store<V>, st: TState<V>, v: V, w: V, p: nat, t: TState<V>)
    requires p < |st.stack| && st.stack[p] == v && st.stack[0] in st.index
    requires st.index[st.stack[0]] < st.counter && w !in st.index
    requires Inv(s, t) && Settled(st, w, t)
    ensures v in t.stack && t.stack[0] in t.index && v in t.low && w in t.low
    ensures t.index[t.stack[0]] <= Min(t.low[v], t.low[w])
  {
    assert t.stack[..|st.stack|] == st.stack;
    assert t.stack[p] == v && t.stack[0] == st.stack[0];
    if t.low[w] != t.index[w] {
      assert w in t.stack;
    }
  }

  lemma GrowsAfterLower<V>(st: TState<V>, v: V, w: V, t: TState<V>)
    requires v in st.index && w !in st.index && Settled(st, w, t)
    ensures Grows(st, v, t.(low := t.low[v := Min(t.low[v], t.low[w])]))
  {
  }

  /** After visiting a fresh successor w, v's low-link takes the minimum
      with w's. */
  lemma LowerAfterVisit<V>(s: Store<V>, st: TState<V>, v: V, w: V, p: nat, t: TState<V>)
    requires Inv(s, st) && p < |st.stack| && st.stack[p] == v && w !in st.index
    requires Visited(s, st, w, t)
    ensures Extends(s, st, v, t.(low := t.low[v := Min(t.low[v], t.low[w])]))
  {
    LowerBound(s, st, v, w, p, t);
    LowerInv(s, t, v, Min(t.low[v], t.low[w]));
    GrowsAfterLower(st, v, w, t);
  }

  lemma StackedBound<V>(st: TState<V>, w: V)
    requires StackOrdered(st) && w in st.stack
    ensures st.stack[0] in st.index && w in st.index && st.index[st.stack[0]] <= st.index[w]
  {
    var k :| 0 <= k < |st.stack| && st.stack[k] == w;
    assert k == 0 || st.index[st.stack[0]] < st.index[st.stack[k]];
  }

  /** A successor w still on the stack lowers v's low-link to at most w's
      index. */
  lemma StepStackedInv<V>(s: Store<V>, st: TState<V>, v: V, w: V, p: nat)
    requires Inv(s, st) && p < |st.stack| && st.stack[p] == v && w in st.stack
    ensures Extends(s, st, v, st.(low := st.low[v := Min(st.low[v], st.index[w])]))
  {
    StackedBound(st, w);
    StackedBound(st, v);
    LowerInv(s, st, v, Min(st.low[v], st.index[w]));
    GrowsLower(st, v, Min(st.low[v], st.index[w]));
  }

  lemma GrowsLower<V>(st: TState<V>, v: V, x: nat)
    requires v in st.index && v in st.low && x <= st.low[v]
    requires forall u :: u in st.index ==> u in st.low
    ensures Grows(st, v, st.(low := st.low[v := x]))
  {
    assert st.comps[..|st.comps|] == st.comps;
    assert st.stack[..|st.stack|] == st.stack;
  }

  /** One successor step keeps Extends. */
  lemma {:induction false} StepInv<V>(s: Store<V>, st: TState<V>, v: V, w: V, p: nat)
    requires Valid(s) && Inv(s, st) && p < |st.stack| && st.stack[p] == v && w in s.adj
    ensures Extends(s, st, v, Step(s, st, v, w))
    decreases Unindexed(s, st), 1, 0
  {
    if w !in st.index {
      VisitInv(s, st, w);
      LowerAfterVisit(s, st, v, w, p, Visit(s, st, w));
    } else if w in st.stack {
      StepStackedInv(s, st, v, w, p);
    } else {
      GrowsRefl(st, v);
    }
  }

  /** The successor loop keeps Extends. */
  lemma {:induction false} SuccsInv<V>(s: Store<V>, st: TState<V>, v: V, ws: seq<V>, p: nat)
    requires Valid(s) && Inv(s, st) && p < |st.stack| && st.stack[p] == v
    requires forall w :: w in ws ==> w in s.adj
    ensures Extends(s, st, v, Succs(s, st, v, ws))
    decreases Unindexed(s, st), 1, |ws|
  {
    if ws == [] {
      GrowsRefl(st, v);
    } else {
      StepInv(s, st, v, ws[0], p);
      var st' := Step(s, st, v, ws[0]);
      assert st'.stack[p] == v by {
        assert st'.stack[..|st.stack|] == st.stack;
      }
      SuccsInv(s, st', v, ws[1..], p);
      GrowsTrans(st, v, st', Succs(s, st', v, ws[1..]));
    }
  }

  // ---------------------------------------------------------------------
  // The driver

  /** A visit started from an empty stack always closes its own component:
      the vertex at the stack bottom cannot have a low-link below its own
      index. */
  lemma RootCloses<V>(s: Store<V>, st: TState<V>, v: V, t: TState<V>)
    requires st.stack == [] && Visited(s, st, v, t)
    ensures t.stack == [] && t.low[v] == t.index[v]
  {
  }

  /** Old indices kept, old components a prefix. */
  ghost predicate Keeps<V>(st: TState<V>, r: TState<V>) {
    && (forall u :: u in st.index ==> u in r.index && r.index[u] == st.index[u])
    && Prefix(st.comps, r.comps)
  }

  lemma KeepsTrans<V>(a: TState<V>, b: TState<V>, c: TState<V>)
    requires Keeps(a, b) && Keeps(b, c)
    ensures Keeps(a, c)
  {
    assert c.comps[..|a.comps|] == c.comps[..|b.comps|][..|a.comps|];
  }

  /** One round of the driver loop. */
  lemma DriveStep<V>(s: Store<V>, st: TState<V>, v: V)
    requires Valid(s) && Inv(s, st) && st.stack == [] && v in s.adj
    ensures var t := if v in st.index then st else Visit(s, st, v);
      Inv(s, t) && t.stack == [] && v in t.index && Keeps(st, t)
  {
    if v !in st.index {
      VisitInv(s, st, v);
      RootCloses(s, st, v, Visit(s, st, v));
    } else {
      assert st.comps[..|st.comps|] == st.comps;
    }
  }

  /** The driver keeps the invariant with an empty stack between visits,
      numbers every vertex it is given, and keeps what was found before. */
  lemma {:induction false} DriveInv<V>(s: Store<V>, st: TState<V>, vs: seq<V>)
    requires Valid(s) && Inv(s, st) && st.stack == []
    requires forall v :: v in vs ==> v in s.adj
    ensures var r := Drive(s, st, vs);
      && Inv(s, r) && r.stack == []
      && (forall v :: v in vs ==> v in r.index)
      && Keeps(st, r)
    decreases |vs|
  {
    if vs == [] {
      assert st.comps[..|st.comps|] == st.comps;
    } else {
      var v := vs[0];
      DriveStep(s, st, v);
      var t := if v in st.index then st else Visit(s, st, v);
      DriveInv(s, t, vs[1..]);
      var r := Drive(s, t, vs[1..]);
      KeepsTrans(st, t, r);
      forall u | u in vs ensures u in r.index {
        if u != v { assert u in vs[1..]; }
      }
    }
  }

  /** What the whole run establishes: every vertex is numbered exactly once
      below the final counter, with its low-link at most its index; the
      stack ends empty; and the components partition the vertices, each
      vertex in exactly one of them. */
  lemma RunFacts<V>(s: Store<V>)
    requires Valid(s)
    ensures var r := Run(s);
      && r.stack == []
      && r.counter == |r.index.Keys|
      && (forall v :: v in s.adj ==> v in r.index && v in r.low && r.low[v] <= r.index[v] < r.counter)
      && (forall v :: v in r.index ==> v in s.adj)
      && (forall u, v :: u in r.index && v in r.index && u != v ==> r.index[u] != r.index[v])
      && NoDup(Flatten(r.comps))
      && (forall v :: v in Flatten(r.comps) ==> v in s.adj)
      && (forall v :: v in s.adj ==> v in Flatten(r.comps))
  {
    InitInv(s);
    DriveInv(s, Init(), s.order);
  }
}
