/** What Tarjan's algorithm finds: the components it pops are exactly the
    strongly connected components of the graph, found in reverse
    topological order. The proof follows the recursion of TarjanSpec with a
    second invariant about reachability, carried alongside the set of
    vertices whose visit is still running. */
module TarjanReach {
  import opened Common
  import opened AdjacencyStore
  import opened StorePaths
  import opened TarjanSpec

  /** The position of the first component holding x. */
  function CompOf<V(==)>(cs: seq<seq<V>>, x: V): (i: nat)
    requires x in Flatten(cs)
    ensures i < |cs| && x in cs[i]
    ensures forall j :: 0 <= j < i ==> x !in cs[j]
  {
    if x in cs[0] then 0 else 1 + CompOf(cs[1..], x)
  }

  lemma CompOfAppend<V>(cs: seq<seq<V>>, c: seq<V>, x: V)
    requires x in Flatten(cs) || x in c
    ensures x in Flatten(cs + [c])
    ensures x in Flatten(cs) ==> CompOf(cs + [c], x) == CompOf(cs, x)
    ensures x !in Flatten(cs) ==> CompOf(cs + [c], x) == |cs|
  {
    FlattenAppend(cs, c);
    var k := CompOf(cs + [c], x);
    assert (cs + [c])[k] == if k < |cs| then cs[k] else c;
    if x in Flatten(cs) {
      var i := CompOf(cs, x);
      assert (cs + [c])[i] == cs[i];
      forall j | 0 <= j < i ensures x !in (cs + [c])[j] {
        assert (cs + [c])[j] == cs[j];
      }
    } else {
      InFlatten(cs, x);
      assert k == |cs|;
    }
  }

  /** In a duplicate-free flattening, a vertex lies in one component only. */
  lemma {:induction false} OneComponent<V>(cs: seq<seq<V>>, x: V, i: nat, j: nat)
    requires NoDup(Flatten(cs)) && i < |cs| && j < |cs| && x in cs[i] && x in cs[j]
    ensures i == j
  {
    assert Flatten(cs) == cs[0] + Flatten(cs[1..]);
    NoDupConcat(cs[0], Flatten(cs[1..]));
    if i > 0 && j > 0 {
      assert cs[1..][i - 1] == cs[i] && cs[1..][j - 1] == cs[j];
      OneComponent(cs[1..], x, i - 1, j - 1);
    } else if i > 0 {
      assert cs[1..][i - 1] == cs[i];
      InFlatten(cs[1..], x);
    } else if j > 0 {
      assert cs[1..][j - 1] == cs[j];
      InFlatten(cs[1..], x);
    }
  }

  lemma FlattenPrefix<V>(a: seq<seq<V>>, b: seq<seq<V>>, x: V)
    requires Prefix(a, b) && x in Flatten(a)
    ensures x in Flatten(b) && CompOf(b, x) == CompOf(a, x)
  {
    var i := CompOf(a, x);
    assert b[i] == a[i];
    InFlatten(b, x);
    forall j | 0 <= j < i ensures x !in b[j] {
      assert b[j] == a[j];
    }
  }

  // ---------------------------------------------------------------------
  // The reachability invariant
  //
  // Each quantified fact is stated through a predicate of its own, so that
  // it is used only where a proof names it.

  /** The vertex at stack position i reaches the one at position j. */
  ghost predicate StackPair<V(!new)>(s: Store<V>, st: TState<V>, i: nat, j: nat)
    requires i < |st.stack| && j < |st.stack|
  {
    Reaches(s, st.stack[i], st.stack[j])
  }

  /** Every vertex on the stack reaches every vertex above it. */
  ghost predicate StackReach<V(!new)>(s: Store<V>, st: TState<V>) {
    forall i: nat, j: nat :: i < j < |st.stack| ==> StackPair(s, st, i, j)
  }

  /** The vertex at position k reaches a vertex at or below it whose index
      is k's low-link. */
  ghost predicate WitnessAt<V(!new)>(s: Store<V>, st: TState<V>, k: nat)
    requires k < |st.stack|
  {
    st.stack[k] in st.low &&
    exists m: nat :: m <= k && st.stack[m] in st.index && st.index[st.stack[m]] == st.low[st.stack[k]]
      && Reaches(s, st.stack[k], st.stack[m])
  }

  ghost predicate LowWitnessed<V(!new)>(s: Store<V>, st: TState<V>) {
    forall k: nat :: k < |st.stack| ==> WitnessAt(s, st, k)
  }

  /** The vertex at position k is being visited, or its visit returned with
      a low-link below its index. */
  ghost predicate FinishedAt<V>(st: TState<V>, act: set<V>, k: nat)
    requires k < |st.stack|
  {
    var x := st.stack[k];
    x in act || (x in st.low && x in st.index && st.low[x] < st.index[x])
  }

  ghost predicate FinishedLow<V>(st: TState<V>, act: set<V>) {
    forall k: nat :: k < |st.stack| ==> FinishedAt(st, act, k)
  }

  /** What the finished visit of u established about its arc to w. */
  ghost predicate ArcSettled<V>(st: TState<V>, u: V, w: V) {
    && w in st.index
    && (u in st.stack && w in st.stack ==> u in st.low && st.low[u] <= st.index[w])
    && (u in Flatten(st.comps) ==> w in Flatten(st.comps) && CompOf(st.comps, w) <= CompOf(st.comps, u))
  }

  ghost predicate FinishedArcs<V>(s: Store<V>, st: TState<V>, act: set<V>) {
    forall u, w {:trigger ArcSettled(st, u, w)} ::
      u in st.index && u !in act && u in s.adj && w in s.adj[u] ==> ArcSettled(st, u, w)
  }

  /** x and y, when both in c, reach each other. */
  ghost predicate CompReach<V(!new)>(s: Store<V>, c: seq<V>, x: V, y: V) {
    x in c && y in c ==> Reaches(s, x, y)
  }

  /** Within every component found, each vertex reaches each other. */
  ghost predicate CompsStrong<V(!new)>(s: Store<V>, cs: seq<seq<V>>) {
    forall i: nat, x, y :: i < |cs| ==> CompReach(s, cs[i], x, y)
  }

  ghost predicate ActStacked<V>(st: TState<V>, act: set<V>) {
    forall a :: a in act ==> a in st.stack
  }

  /** The invariant, for `act` the vertices whose visit is running. */
  ghost predicate RInv<V(!new)>(s: Store<V>, st: TState<V>, act: set<V>) {
    && StackReach(s, st) && LowWitnessed(s, st) && FinishedLow(st, act)
    && FinishedArcs(s, st, act) && CompsStrong(s, st.comps) && ActStacked(st, act)
  }

  /** No vertex above position p is being visited. */
  ghost predicate NoneActiveAbove<V>(st: TState<V>, act: set<V>, p: nat) {
    forall k :: p < k < |st.stack| ==> st.stack[k] !in act
  }

  /** Every vertex from position p up has a low-link of at least x. */
  ghost predicate LowAbove<V>(st: TState<V>, p: nat, x: nat) {
    forall k :: p <= k < |st.stack| ==> st.stack[k] in st.low && st.low[st.stack[k]] >= x
  }

  /** What the successor loop of v established about its arc to w. */
  ghost predicate ArcDone<V>(st: TState<V>, v: V, w: V) {
    w in st.index && (w in st.stack ==> v in st.low && st.low[v] <= st.index[w])
  }

  /** Every vertex of xs reaches v. */
  ghost predicate AllReach<V(!new)>(s: Store<V>, xs: seq<V>, v: V) {
    forall k :: 0 <= k < |xs| ==> Reaches(s, xs[k], v)
  }

  lemma InitReach<V(!new)>(s: Store<V>)
    ensures RInv(s, Init(), {})
  {
  }

  /** Stack positions follow index order. */
  lemma StackPos<V>(st: TState<V>, i: nat, j: nat)
    requires StackOrdered(st) && i < |st.stack| && j < |st.stack|
    requires st.index[st.stack[i]] <= st.index[st.stack[j]]
    ensures i <= j
  {
  }

  /** A finished vertex above an entry of the stack reaches that entry:
      its low-link leads to a vertex lower on the stack. */
  lemma {:induction false} AboveReaches<V(!new)>(s: Store<V>, st: TState<V>, act: set<V>, q: nat, k: nat)
    requires StackReach(s, st) && LowWitnessed(s, st) && FinishedLow(st, act)
    requires q < k < |st.stack| && NoneActiveAbove(st, act, q)
    ensures Reaches(s, st.stack[k], st.stack[q])
    decreases k
  {
    var w := st.stack[k];
    assert w !in act;
    assert FinishedAt(st, act, k);
    assert WitnessAt(s, st, k);
    var m: nat :| m <= k && st.stack[m] in st.index && st.index[st.stack[m]] == st.low[w]
      && Reaches(s, w, st.stack[m]);
    if m < q {
      assert StackPair(s, st, m, q);
      ReachTrans(s, w, st.stack[m], st.stack[q]);
    } else if m > q {
      AboveReaches(s, st, act, q, m);
      ReachTrans(s, w, st.stack[m], st.stack[q]);
    }
  }

  /** With nothing active above position p, every vertex on the stack
      reaches the one at p. */
  lemma StackReachesAt<V(!new)>(s: Store<V>, st: TState<V>, act: set<V>, p: nat)
    requires Shaped(s, st) && StackOrdered(st)
    requires StackReach(s, st) && LowWitnessed(s, st) && FinishedLow(st, act)
    requires p < |st.stack| && NoneActiveAbove(st, act, p)
    ensures AllReach(s, st.stack, st.stack[p])
  {
    forall k | 0 <= k < |st.stack| ensures Reaches(s, st.stack[k], st.stack[p]) {
      if k > p {
        AboveReaches(s, st, act, p, k);
      } else if k == p {
        ReachRefl(s, st.stack[p]);
      } else {
        assert StackPair(s, st, k, p);
      }
    }
  }

  /** Every vertex that reaches v reaches v's successor w. */
  lemma AllReachArc<V(!new)>(s: Store<V>, xs: seq<V>, v: V, w: V)
    requires Closed(s) && v in s.adj && w in s.adj[v] && AllReach(s, xs, v)
    ensures AllReach(s, xs, w)
  {
    ReachArc(s, v, w);
    forall k | 0 <= k < |xs| ensures Reaches(s, xs[k], w) {
      ReachTrans(s, xs[k], v, w);
    }
  }

  /** Pushing v, which every vertex on the stack reaches, makes it active. */
  lemma PushReach<V(!new)>(s: Store<V>, st: TState<V>, v: V, act: set<V>)
    requires StackOrdered(st) && RInv(s, st, act) && v in s.adj && v !in st.index
    requires AllReach(s, st.stack, v)
    ensures var r := Push(st, v);
      && RInv(s, r, act + {v}) && NoneActiveAbove(r, act + {v}, |st.stack|)
      && LowAbove(r, |st.stack|, r.low[v])
  {
    var r := Push(st, v);
    var n := |st.stack|;
    forall i: nat, j: nat | i < j < |r.stack| ensures StackPair(s, r, i, j) {
      assert r.stack[i] == st.stack[i];
      if j < n {
        assert r.stack[j] == st.stack[j];
        assert StackPair(s, st, i, j);
      }
    }
    forall k: nat | k < |r.stack| ensures WitnessAt(s, r, k) && FinishedAt(r, act + {v}, k) {
      if k == n {
        ReachRefl(s, v);
        assert r.stack[k] == v;
        assert r.index[r.stack[k]] == r.low[r.stack[k]];
      } else {
        assert r.stack[k] == st.stack[k];
        assert WitnessAt(s, st, k) && FinishedAt(st, act, k);
        var m: nat :| m <= k && st.stack[m] in st.index && st.index[st.stack[m]] == st.low[st.stack[k]]
          && Reaches(s, st.stack[k], st.stack[m]);
        assert r.stack[m] == st.stack[m];
        assert r.index[r.stack[m]] == r.low[r.stack[k]];
      }
    }
    forall u, w | u in r.index && u !in act + {v} && u in s.adj && w in s.adj[u]
      ensures ArcSettled(r, u, w)
    {
      assert ArcSettled(st, u, w);
    }
  }

  /** Lowering the low-link of the active vertex at position p to the index
      of a vertex at or below p that it reaches keeps the invariant. */
  lemma LowerReach<V(!new)>(s: Store<V>, st: TState<V>, p: nat, q: nat, act: set<V>)
    requires RInv(s, st, act) && NoDup(st.stack) && q <= p < |st.stack|
    requires st.stack[p] in act && st.stack[p] in st.low && st.stack[q] in st.index
    requires Reaches(s, st.stack[p], st.stack[q])
    ensures RInv(s, st.(low := st.low[st.stack[p] := st.index[st.stack[q]]]), act)
  {
    var v := st.stack[p];
    var r := st.(low := st.low[v := st.index[st.stack[q]]]);
    forall i: nat, j: nat | i < j < |r.stack| ensures StackPair(s, r, i, j) {
      assert StackPair(s, st, i, j);
    }
    forall k: nat | k < |r.stack| ensures WitnessAt(s, r, k) && FinishedAt(r, act, k) {
      assert FinishedAt(st, act, k);
      if k != p {
        assert st.stack[k] != v;
        assert WitnessAt(s, st, k);
        var m: nat :| m <= k && st.stack[m] in st.index && st.index[st.stack[m]] == st.low[st.stack[k]]
          && Reaches(s, st.stack[k], st.stack[m]);
        assert r.index[r.stack[m]] == r.low[r.stack[k]];
      } else {
        assert r.index[r.stack[q]] == r.low[r.stack[k]];
      }
    }
    forall u, w | u in r.index && u !in act && u in s.adj && w in s.adj[u]
      ensures ArcSettled(r, u, w)
    {
      assert ArcSettled(st, u, w);
    }
  }

  /** Lowering v's low-link keeps a lower bound that v's old one had. */
  lemma LowerAbove<V>(st: TState<V>, p: nat, x: nat)
    requires NoDup(st.stack) && p < |st.stack| && st.stack[p] in st.low && x <= st.low[st.stack[p]]
    requires LowAbove(st, p, st.low[st.stack[p]])
    ensures LowAbove(st.(low := st.low[st.stack[p] := x]), p, x)
  {
  }

  /** An arc the successor loop has handled stays handled. */
  lemma ArcDoneKeeps<V>(s: Store<V>, st: TState<V>, v: V, w: V, r: TState<V>)
    requires Partitioned(st) && Partitioned(r) && Grows(st, v, r) && ArcDone(st, v, w)
    ensures ArcDone(r, v, w)
  {
    if w in r.stack && w !in st.stack {
      assert w in Flatten(st.comps);
      FlattenPrefix(st.comps, r.comps, w);
    }
  }

  /** A successor w already numbered and on the stack: v's low-link takes
      the minimum with w's index. */
  lemma StackedReach<V(!new)>(s: Store<V>, st: TState<V>, v: V, w: V, p: nat, act: set<V>)
    requires Valid(s) && Inv(s, st) && p < |st.stack| && st.stack[p] == v && w in s.adj[v] && w in st.stack
    requires RInv(s, st, act) && v in act && LowAbove(st, p, st.low[v])
    ensures var r := st.(low := st.low[v := Min(st.low[v], st.index[w])]);
      && RInv(s, r, act) && LowAbove(r, p, r.low[v]) && ArcDone(r, v, w)
  {
    StackNoDup(st);
    var x := Min(st.low[v], st.index[w]);
    if x < st.low[v] {
      var q := IndexOf(st.stack, w);
      StackPos(st, q, p);
      ReachArc(s, v, w);
      LowerReach(s, st, p, q, act);
      LowerAbove(st, p, x);
    } else {
      assert st.(low := st.low[v := x]) == st;
    }
  }

  /** After the visit of a fresh successor w: the stack above v holds
      nothing active, and everything from v up has a low-link of at least
      v's new one. */
  lemma AfterVisitAbove<V>(st: TState<V>, v: V, w: V, p: nat, act: set<V>, t: TState<V>)
    requires Numbered(st) && StackOrdered(st) && p < |st.stack| && st.stack[p] == v && w !in st.index
    requires ActStacked(st, act) && NoneActiveAbove(st, act, p) && LowAbove(st, p, st.low[v])
    requires Settled(st, w, t) && NoDup(t.stack)
    requires t.low[w] != t.index[w] ==> LowAbove(t, |st.stack|, t.low[w])
    ensures var r := t.(low := t.low[v := Min(t.low[v], t.low[w])]);
      && NoneActiveAbove(r, act, p) && LowAbove(r, p, r.low[v]) && ArcDone(r, v, w)
  {
    var r := t.(low := t.low[v := Min(t.low[v], t.low[w])]);
    var n := |st.stack|;
    assert t.stack[..n] == st.stack;
    assert t.stack[p] == v;
    forall k | p < k < |r.stack| ensures r.stack[k] !in act {
    }
    forall k | p <= k < |r.stack| ensures r.stack[k] in r.low && r.low[r.stack[k]] >= r.low[v] {
      if p < k < n {
        assert r.stack[k] == st.stack[k];
      } else if k >= n {
        assert t.low[w] != t.index[w];
      }
    }
  }

  /** A successor w not yet numbered: after its visit v's low-link takes
      the minimum with w's. */
  lemma FreshReach<V(!new)>(s: Store<V>, st: TState<V>, v: V, w: V, p: nat, act: set<V>, t: TState<V>)
    requires Closed(s) && Numbered(st) && StackOrdered(st) && p < |st.stack| && st.stack[p] == v
    requires v in s.adj && w in s.adj[v] && w !in st.index && v in act
    requires Settled(st, w, t) && StackOrdered(t) && RInv(s, t, act)
    ensures RInv(s, t.(low := t.low[v := Min(t.low[v], t.low[w])]), act)
  {
    var n := |st.stack|;
    assert t.stack[..n] == st.stack;
    assert t.stack[p] == v;
    if t.low[w] < t.low[v] {
      assert v in st.index by { assert v in st.stack; }
      assert t.low[v] <= t.index[v] < t.index[w];
      assert t.stack[n] == w;
      StackNoDup(t);
      FreshLower(s, t, v, w, p, n, act);
    } else {
      assert t.(low := t.low[v := t.low[v]]) == t;
    }
  }

  /** w stayed on the stack with a low-link below v's, and v reaches w's
      witness through the arc to w. */
  lemma FreshLower<V(!new)>(s: Store<V>, t: TState<V>, v: V, w: V, p: nat, n: nat, act: set<V>)
    requires Closed(s) && RInv(s, t, act) && StackOrdered(t) && NoDup(t.stack)
    requires p < n < |t.stack| && t.stack[p] == v && t.stack[n] == w && v in act && v in s.adj && w in s.adj[v]
    requires v in t.low && w in t.low && v in t.index && t.low[w] < t.low[v] <= t.index[v]
    ensures RInv(s, t.(low := t.low[v := t.low[w]]), act)
  {
    assert WitnessAt(s, t, n);
    var m: nat :| m <= n && t.stack[m] in t.index && t.index[t.stack[m]] == t.low[w]
      && Reaches(s, w, t.stack[m]);
    StackPos(t, m, p);
    ReachArcThen(s, v, w, t.stack[m]);
    LowerReach(s, t, p, m, act);
  }

  /** One successor step of the active v keeps the invariant and handles
      the arc to w. */
  lemma {:induction false} StepReach<V(!new)>(s: Store<V>, st: TState<V>, v: V, w: V, p: nat, act: set<V>)
    requires Valid(s) && Inv(s, st) && p < |st.stack| && st.stack[p] == v && w in s.adj[v]
    requires RInv(s, st, act) && v in act && NoneActiveAbove(st, act, p) && LowAbove(st, p, st.low[v])
    ensures var r := Step(s, st, v, w);
      && RInv(s, r, act) && NoneActiveAbove(r, act, p) && LowAbove(r, p, r.low[v]) && ArcDone(r, v, w)
    decreases Unindexed(s, st), 1, 0
  {
    if w !in st.index {
      StackReachesAt(s, st, act, p);
      AllReachArc(s, st.stack, v, w);
      VisitReach(s, st, w, act);
      VisitInv(s, st, w);
      var t := Visit(s, st, w);
      StackNoDup(t);
      FreshReach(s, st, v, w, p, act, t);
      AfterVisitAbove(st, v, w, p, act, t);
    } else if w in st.stack {
      StackedReach(s, st, v, w, p, act);
    }
  }

  /** The successor loop of the active v keeps the invariant and handles
      every arc it walks. */
  lemma {:induction false} SuccsReach<V(!new)>(s: Store<V>, st: TState<V>, v: V, ws: seq<V>, p: nat, act: set<V>)
    requires Valid(s) && Inv(s, st) && p < |st.stack| && st.stack[p] == v
    requires forall w :: w in ws ==> w in s.adj[v]
    requires RInv(s, st, act) && v in act && NoneActiveAbove(st, act, p) && LowAbove(st, p, st.low[v])
    ensures var r := Succs(s, st, v, ws);
      && RInv(s, r, act) && NoneActiveAbove(r, act, p) && LowAbove(r, p, r.low[v])
      && forall w :: w in ws ==> ArcDone(r, v, w)
    decreases Unindexed(s, st), 1, |ws|
  {
    if ws != [] {
      var w := ws[0];
      StepReach(s, st, v, w, p, act);
      StepInv(s, st, v, w, p);
      var st' := Step(s, st, v, w);
      assert st'.stack[p] == v by {
        assert st'.stack[..|st.stack|] == st.stack;
      }
      SuccsReach(s, st', v, ws[1..], p, act);
      SuccsInv(s, st', v, ws[1..], p);
      var r := Succs(s, st', v, ws[1..]);
      ArcDoneKeeps(s, st', v, w, r);
      SplitFirst(ws);
    }
  }

  /** The vertices from position p up, popped as one component. */
  lemma TopMembers<V>(stack: seq<V>, p: nat, c: seq<V>)
    requires NoDup(stack) && p <= |stack| && c == Reverse(stack[p..])
    ensures forall k :: p <= k < |stack| ==> stack[k] in c
    ensures forall x :: x in c ==> x in stack && p <= IndexOf(stack, x)
    ensures forall x :: x in stack[..p] ==> x !in c
  {
    var top := stack[p..];
    ReverseMembers(top);
    forall k | p <= k < |stack| ensures stack[k] in c {
      assert top[k - p] == stack[k];
    }
    forall x | x in c ensures x in stack && p <= IndexOf(stack, x) {
      var k :| 0 <= k < |top| && top[k] == x;
      assert stack[p + k] == x;
      IndexOfUnique(stack, p + k);
    }
    forall x | x in stack[..p] ensures x !in c {
      var k :| 0 <= k < p && stack[..p][k] == x;
      assert stack[k] == x;
      IndexOfUnique(stack, k);
    }
  }

  /** The popped component: every vertex of it reaches every other, through
      the vertex it was opened with. */
  lemma TopStrong<V(!new)>(s: Store<V>, st2: TState<V>, p: nat, act: set<V>, c: seq<V>)
    requires Shaped(s, st2) && StackOrdered(st2) && NoDup(st2.stack)
    requires StackReach(s, st2) && LowWitnessed(s, st2) && FinishedLow(st2, act)
    requires p < |st2.stack| && NoneActiveAbove(st2, act, p)
    requires c == Reverse(st2.stack[p..])
    ensures forall x, y :: CompReach(s, c, x, y)
  {
    TopMembers(st2.stack, p, c);
    var v := st2.stack[p];
    StackReachesAt(s, st2, act, p);
    forall x, y | x in c && y in c ensures Reaches(s, x, y) {
      var kx := IndexOf(st2.stack, x);
      var ky := IndexOf(st2.stack, y);
      assert Reaches(s, st2.stack[kx], v);
      if ky == p {
        ReachRefl(s, v);
      } else {
        assert StackPair(s, st2, p, ky);
      }
      ReachTrans(s, x, v, y);
    }
  }

  lemma CompsAppend<V(!new)>(s: Store<V>, cs: seq<seq<V>>, c: seq<V>)
    requires CompsStrong(s, cs)
    requires forall x, y :: CompReach(s, c, x, y)
    ensures CompsStrong(s, cs + [c])
  {
    forall i: nat, x, y | i < |cs + [c]| ensures CompReach(s, (cs + [c])[i], x, y) {
      if i < |cs| {
        assert (cs + [c])[i] == cs[i];
        assert CompReach(s, cs[i], x, y);
      } else {
        assert CompReach(s, c, x, y);
      }
    }
  }

  /** The stack below the popped component keeps its reachability facts. */
  lemma BelowReach<V(!new)>(s: Store<V>, st2: TState<V>, p: nat, act: set<V>, r: TState<V>)
    requires NoDup(st2.stack) && p < |st2.stack| && st2.stack[p] !in act
    requires StackReach(s, st2) && LowWitnessed(s, st2) && FinishedLow(st2, act + {st2.stack[p]})
    requires r.stack == st2.stack[..p] && r.index == st2.index && r.low == st2.low
    ensures StackReach(s, r) && LowWitnessed(s, r) && FinishedLow(r, act)
  {
    forall i: nat, j: nat | i < j < |r.stack| ensures StackPair(s, r, i, j) {
      assert StackPair(s, st2, i, j);
      assert r.stack[i] == st2.stack[i] && r.stack[j] == st2.stack[j];
    }
    forall k: nat | k < |r.stack| ensures WitnessAt(s, r, k) && FinishedAt(r, act, k) {
      assert r.stack[k] == st2.stack[k];
      assert st2.stack[k] != st2.stack[p];
      assert WitnessAt(s, st2, k) && FinishedAt(st2, act + {st2.stack[p]}, k);
      var m: nat :| m <= k && st2.stack[m] in st2.index && st2.index[st2.stack[m]] == st2.low[st2.stack[k]]
        && Reaches(s, st2.stack[k], st2.stack[m]);
      assert r.stack[m] == st2.stack[m];
    }
  }

  /** The closing branch: the vertices from v up form one component, each
      reaching each other, and every arc out of them ends in it or in an
      earlier component. */
  lemma CloseReach<V(!new)>(s: Store<V>, st: TState<V>, v: V, st2: TState<V>, act: set<V>)
    requires Valid(s) && Inv(s, st2) && v !in act && ActStacked(st, act)
    requires Prefix(st.stack + [v], st2.stack)
    requires RInv(s, st2, act + {v}) && NoneActiveAbove(st2, act + {v}, |st.stack|)
    requires LowAbove(st2, |st.stack|, st2.low[v]) && st2.low[v] == st2.index[v]
    requires forall w :: w in s.adj[v] ==> ArcDone(st2, v, w)
    ensures v in st2.stack && RInv(s, Pop(st2, v), act)
  {
    var p := |st.stack|;
    assert st2.stack[p] == (st.stack + [v])[p] == v by {
      assert st2.stack[..p + 1] == st.stack + [v];
    }
    assert st2.stack[..p] == st.stack by {
      assert st2.stack[..p] == st2.stack[..p + 1][..p];
    }
    PopInv(s, st2, v, p);
    StackNoDup(st2);
    var r := Pop(st2, v);
    var c := Reverse(st2.stack[p..]);
    assert r.comps == st2.comps + [c];
    TopStrong(s, st2, p, act + {v}, c);
    CompsAppend(s, st2.comps, c);
    BelowReach(s, st2, p, act, r);
    forall u, w | u in r.index && u !in act && u in s.adj && w in s.adj[u]
      ensures ArcSettled(r, u, w)
    {
      CloseArc(s, st2, p, u, w, act, c);
    }
  }

  /** One arc out of a finished vertex, after the close of the component
      opened at position p. */
  lemma CloseArc<V(!new)>(s: Store<V>, st2: TState<V>, p: nat, u: V, w: V, act: set<V>, c: seq<V>)
    requires Inv(s, st2) && NoDup(st2.stack) && p < |st2.stack|
    requires FinishedArcs(s, st2, act + {st2.stack[p]})
    requires st2.low[st2.stack[p]] == st2.index[st2.stack[p]]
    requires LowAbove(st2, p, st2.low[st2.stack[p]])
    requires forall w :: w in s.adj[st2.stack[p]] ==> ArcDone(st2, st2.stack[p], w)
    requires c == Reverse(st2.stack[p..]) && Pop(st2, st2.stack[p]) == Popped(st2, p)
    requires u in st2.index && u !in act && u in s.adj && w in s.adj[u]
    ensures ArcSettled(Pop(st2, st2.stack[p]), u, w)
  {
    var v := st2.stack[p];
    var r := Pop(st2, v);
    TopMembers(st2.stack, p, c);
    assert r.stack == st2.stack[..p] && r.comps == st2.comps + [c];
    FlattenAppend(st2.comps, c);
    if u in Flatten(st2.comps) {
      assert ArcSettled(st2, u, w);
      CompOfAppend(st2.comps, c, u);
      CompOfAppend(st2.comps, c, w);
      assert u !in r.stack;
    } else {
      assert u in st2.stack;
      var ku := IndexOf(st2.stack, u);
      if u == v {
        assert ArcDone(st2, v, w);
      } else {
        assert ArcSettled(st2, u, w);
      }
      assert w in st2.index && (w in st2.stack ==> st2.low[u] <= st2.index[w]);
      if ku < p {
        assert u in r.stack by { assert r.stack[ku] == u; }
        assert u !in c;
        if w in r.stack {
          var kw := IndexOf(r.stack, w);
          assert st2.stack[kw] == w;
        }
      } else {
        assert u in c by { assert st2.stack[ku] == u; }
        CompOfAppend(st2.comps, c, u);
        assert u !in r.stack;
        if w in Flatten(st2.comps) {
          CompOfAppend(st2.comps, c, w);
        } else {
          assert w in st2.stack;
          var kw := IndexOf(st2.stack, w);
          assert st2.low[u] >= st2.low[v] by {
            assert st2.stack[ku] == u;
          }
          StackPos(st2, p, kw);
          assert w in c;
          CompOfAppend(st2.comps, c, w);
        }
      }
    }
  }

  /** The open branch: v stays on the stack, finished, with a low-link
      below its index. */
  lemma OpenReach<V(!new)>(s: Store<V>, v: V, st2: TState<V>, act: set<V>)
    requires Inv(s, st2) && RInv(s, st2, act + {v}) && v in st2.stack
    requires st2.low[v] != st2.index[v]
    requires forall w :: w in s.adj[v] ==> ArcDone(st2, v, w)
    ensures RInv(s, st2, act)
  {
    forall k: nat | k < |st2.stack| ensures FinishedAt(st2, act, k) {
      assert FinishedAt(st2, act + {v}, k);
    }
    forall u, w | u in st2.index && u !in act && u in s.adj && w in s.adj[u]
      ensures ArcSettled(st2, u, w)
    {
      if u == v {
        assert ArcDone(st2, v, w);
        assert v !in Flatten(st2.comps);
      } else {
        assert ArcSettled(st2, u, w);
      }
    }
  }

  /** A visit keeps the invariant; when v stays on the stack, everything
      above where v was pushed has a low-link of at least v's. */
  lemma {:induction false} VisitReach<V(!new)>(s: Store<V>, st: TState<V>, v: V, act: set<V>)
    requires Valid(s) && Inv(s, st) && RInv(s, st, act) && v in s.adj && v !in st.index
    requires AllReach(s, st.stack, v)
    ensures var r := Visit(s, st, v);
      && RInv(s, r, act)
      && (r.low[v] != r.index[v] ==> LowAbove(r, |st.stack|, r.low[v]))
    decreases Unindexed(s, st), 0, 0
  {
    var p := |st.stack|;
    var st1 := Push(st, v);
    PushInv(s, st, v);
    PushReach(s, st, v, act);
    assert st1.stack[p] == v;
    SuccsInv(s, st1, v, s.adj[v], p);
    SuccsReach(s, st1, v, s.adj[v], p, act + {v});
    var st2 := Succs(s, st1, v, s.adj[v]);
    assert v !in act;
    if st2.low[v] == st2.index[v] {
      CloseReach(s, st, v, st2, act);
    } else {
      assert v in st2.stack by {
        assert st2.stack[..|st1.stack|] == st1.stack;
        assert st2.stack[p] == v;
      }
      OpenReach(s, v, st2, act);
    }
  }

  lemma {:induction false} DriveReach<V(!new)>(s: Store<V>, st: TState<V>, vs: seq<V>)
    requires Valid(s) && Inv(s, st) && st.stack == [] && RInv(s, st, {})
    requires forall v :: v in vs ==> v in s.adj
    ensures RInv(s, Drive(s, st, vs), {})
    decreases |vs|
  {
    if vs != [] {
      var v := vs[0];
      DriveStep(s, st, v);
      if v !in st.index {
        VisitReach(s, st, v, {});
      }
      var t := if v in st.index then st else Visit(s, st, v);
      DriveReach(s, t, vs[1..]);
    }
  }

  // ---------------------------------------------------------------------
  // The components are the strongly connected components

  /** The run ends with every vertex in a component, the components
      strongly connected inside, and every arc leading to the same or an
      earlier component. */
  lemma RunReach<V(!new)>(s: Store<V>)
    requires Valid(s)
    ensures var cs := Components(s);
      && NoDup(Flatten(cs))
      && (forall v :: v in s.adj <==> v in Flatten(cs))
      && CompsStrong(s, cs)
      && forall u, w :: u in s.adj && w in s.adj[u] ==>
           CompOf(cs, w) <= CompOf(cs, u)
  {
    RunFacts(s);
    InitInv(s);
    InitReach(s);
    DriveReach(s, Init(), s.order);
    var r := Run(s);
    forall u, w | u in s.adj && w in s.adj[u] ensures CompOf(r.comps, w) <= CompOf(r.comps, u) {
      assert ArcSettled(r, u, w);
    }
  }

  /** A path never leads to a later component. */
  lemma PathComponents<V(!new)>(s: Store<V>, x: V, y: V)
    requires Valid(s) && x in s.adj && Reaches(s, x, y)
    ensures y in s.adj
    ensures x in Flatten(Components(s)) && y in Flatten(Components(s))
    ensures CompOf(Components(s), y) <= CompOf(Components(s), x)
  {
    RunReach(s);
    var cs := Components(s);
    var p :| IsPath(s, p) && p[0] == x && p[|p| - 1] == y;
    var f := (u: V) => if u in Flatten(cs) then CompOf(cs, u) as int else 0;
    forall i | 0 <= i < |p| - 1 ensures f(p[i + 1]) <= f(p[i]) {
      assert ArcAt(s, p, i);
    }
    PathMonotone(s, p, f);
  }

  /** Tarjan's components are the strongly connected components: they
      partition the vertices; two vertices share a component exactly when
      each reaches the other; and no arc leads from a component to a later
      one, so they are found in reverse topological order. */
  lemma ComponentsAreSccs<V(!new)>(s: Store<V>)
    requires Valid(s)
    ensures var cs := Components(s);
      && NoDup(Flatten(cs))
      && (forall v :: v in s.adj <==> v in Flatten(cs))
      && (forall i, x, y :: 0 <= i < |cs| && x in cs[i] && y in cs[i] ==> Strong(s, x, y))
      && (forall i, j, x, y :: 0 <= i < |cs| && 0 <= j < |cs| && x in cs[i] && y in cs[j] && Strong(s, x, y) ==> i == j)
      && (forall i, j, u, w :: 0 <= i < |cs| && 0 <= j < |cs| && u in cs[i] && w in cs[j] && (u, w) in Arcs(s) ==> j <= i)
  {
    RunReach(s);
    var cs := Components(s);
    forall i, x, y | 0 <= i < |cs| && x in cs[i] && y in cs[i] ensures Strong(s, x, y) {
      assert CompReach(s, cs[i], x, y) && CompReach(s, cs[i], y, x);
    }
    forall i, j, x, y | 0 <= i < |cs| && 0 <= j < |cs| && x in cs[i] && y in cs[j] && Strong(s, x, y)
      ensures i == j
    {
      InFlatten(cs, x);
      InFlatten(cs, y);
      PathComponents(s, x, y);
      PathComponents(s, y, x);
      OneComponent(cs, x, i, CompOf(cs, x));
      OneComponent(cs, y, j, CompOf(cs, y));
    }
    forall i, j, u, w | 0 <= i < |cs| && 0 <= j < |cs| && u in cs[i] && w in cs[j] && (u, w) in Arcs(s)
      ensures j <= i
    {
      InFlatten(cs, u);
      InFlatten(cs, w);
      OneComponent(cs, u, i, CompOf(cs, u));
      OneComponent(cs, w, j, CompOf(cs, w));
    }
  }

  /** getCycles keeps the components of more than one vertex: a vertex
      lies in one of them exactly when it shares a strongly connected
      component with another vertex. */
  lemma CyclesAreSccs<V(!new)>(s: Store<V>, x: V)
    requires Valid(s) && x in s.adj
    ensures (exists c :: c in MultiVertex(Components(s)) && x in c) <==>
      exists y :: y in s.adj && y != x && Strong(s, x, y)
  {
    ComponentsAreSccs(s);
    var cs := Components(s);
    if exists c :: c in MultiVertex(cs) && x in c {
      var c :| c in MultiVertex(cs) && x in c;
      MultiHasStrong(s, cs, c, x);
    }
    if exists y :: y in s.adj && y != x && Strong(s, x, y) {
      var y :| y in s.adj && y != x && Strong(s, x, y);
      StrongInMulti(s, cs, x, y);
    }
  }

  /** A vertex of a component of more than one vertex shares it with
      another vertex, which it reaches both ways. */
  lemma MultiHasStrong<V(!new)>(s: Store<V>, cs: seq<seq<V>>, c: seq<V>, x: V)
    requires NoDup(Flatten(cs)) && forall v :: v in s.adj <==> v in Flatten(cs)
    requires forall i, x, y :: 0 <= i < |cs| && x in cs[i] && y in cs[i] ==> Strong(s, x, y)
    requires c in MultiVertex(cs) && x in c
    ensures exists y :: y in s.adj && y != x && Strong(s, x, y)
  {
    InFlatten(cs, x);
    var i :| 0 <= i < |cs| && x in cs[i];
    var j :| 0 <= j < |cs| && cs[j] == c;
    OneComponent(cs, x, i, j);
    ComponentNoDup(cs, i);
    var y := Other(cs[i], x);
    InFlatten(cs, y);
  }

  /** Two distinct vertices that reach each other lie in one component,
      which then has more than one vertex. */
  lemma StrongInMulti<V(!new)>(s: Store<V>, cs: seq<seq<V>>, x: V, y: V)
    requires forall v :: v in s.adj <==> v in Flatten(cs)
    requires forall i, j, x, y :: 0 <= i < |cs| && 0 <= j < |cs| && x in cs[i] && y in cs[j] && Strong(s, x, y) ==> i == j
    requires x in s.adj && y in s.adj && y != x && Strong(s, x, y)
    ensures exists c :: c in MultiVertex(cs) && x in c
  {
    InFlatten(cs, x);
    var i :| 0 <= i < |cs| && x in cs[i];
    InFlatten(cs, y);
    var j :| 0 <= j < |cs| && y in cs[j];
    assert i == j;
    Two(cs[i], x, y);
  }

  lemma {:induction false} ComponentNoDup<V>(cs: seq<seq<V>>, i: nat)
    requires NoDup(Flatten(cs)) && i < |cs|
    ensures NoDup(cs[i])
  {
    assert Flatten(cs) == cs[0] + Flatten(cs[1..]);
    NoDupConcat(cs[0], Flatten(cs[1..]));
    if i > 0 {
      assert cs[1..][i - 1] == cs[i];
      ComponentNoDup(cs[1..], i - 1);
    }
  }

  /** A sequence of more than one element holds something besides x. */
  lemma Other<V>(c: seq<V>, x: V) returns (y: V)
    requires |c| > 1 && NoDup(c)
    ensures y in c && y != x
  {
    if c[0] != x { y := c[0]; } else { y := c[1]; }
  }

  lemma Two<V>(c: seq<V>, x: V, y: V)
    requires x in c && y in c && x != y
    ensures |c| > 1
  {
  }
}
