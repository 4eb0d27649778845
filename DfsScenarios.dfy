/** The depth-first searches of the test suite, worked out step by step:
    the traversal tests' graph with and without its cycle, and the path
    a→b→c that isAcyclic is tried on, with and without the arc that closes
    it. As for the runs of Tarjan's algorithm, each search is unfolded one
    equation at a time, on any store that lists the same arcs. */
module DfsScenarios {
  import opened Common
  import opened AdjacencyStore
  import opened Visitors
  import opened DfsSpec
  import opened DfsCycles
  import TarjanScenarios

  /** A vertex being visited closes a back edge. */
  lemma VisitBack<V>(s: Store<V>, st: DState<V>, v: V)
    requires Closed(s) && v in s.adj && v in st.visiting
    ensures Visit(s, st, v) == st.(events := st.events + [Back(v)])
  {
  }

  /** A visited vertex is passed over. */
  lemma VisitSeen<V>(s: Store<V>, st: DState<V>, v: V)
    requires Closed(s) && v in s.adj && v !in st.visiting && v in st.visited
    ensures Visit(s, st, v) == st
  {
  }

  /** Any other vertex is started, its adjacent vertices are searched and it
      is finished. */
  lemma VisitNew<V>(s: Store<V>, st: DState<V>, v: V, t: DState<V>)
    requires Closed(s) && v in s.adj && v !in st.visiting && v !in st.visited
    requires Succs(s, DState(st.visiting + [v], st.visited, st.events + [Start(v)]), v, s.adj[v]) == t
    ensures Visit(s, st, v) == DState(Detach(t.visiting, v), t.visited + [v], t.events + [Finish(v)])
  {
  }

  lemma SuccsNil<V>(s: Store<V>, st: DState<V>, v: V)
    requires Closed(s)
    ensures Succs(s, st, v, []) == st
  {
  }

  /** The first adjacent vertex is examined and visited, then the others. */
  lemma SuccsCons<V>(s: Store<V>, st: DState<V>, v: V, ws: seq<V>, t: DState<V>)
    requires Closed(s) && ws != [] && forall w :: w in ws ==> w in s.adj
    requires Visit(s, st.(events := st.events + [Examine(v, ws[0])]), ws[0]) == t
    ensures Succs(s, st, v, ws) == Succs(s, t, v, ws[1..])
  {
  }

  lemma DriveNil<V>(s: Store<V>, st: DState<V>)
    requires Closed(s)
    ensures Drive(s, st, []) == st
  {
  }

  /** The head of the queue is visited, then the rest of the queue. */
  lemma DriveCons<V>(s: Store<V>, st: DState<V>, queue: seq<V>, t: DState<V>)
    requires Closed(s) && queue != [] && forall v :: v in queue ==> v in s.adj
    requires Visit(s, st, queue[0]) == t
    ensures Drive(s, st, queue) == Drive(s, t, queue[1..])
  {
  }

  /** The number of events of kind k from the i-th on. */
  function KindsFrom<V>(es: seq<Event<V>>, i: nat, k: Kind): nat
    requires i <= |es|
    decreases |es| - i
  {
    if i == |es| then 0 else (if KindOf(es[i]) == k then 1 else 0) + KindsFrom(es, i + 1, k)
  }

  /** A visitor with a handler for k alone receives one call per event of
      kind k. */
  lemma {:induction false} DeliveredCount<V>(es: seq<Event<V>>, i: nat, k: Kind)
    requires i <= |es|
    ensures |Delivered(es[i..], {k})| == KindsFrom(es, i, k)
    decreases |es| - i
  {
    if i < |es| {
      FilterDrop(es, i, e => KindOf(e) in {k});
      DeliveredCount(es, i + 1, k);
    }
  }

  lemma SecondIn<T>(r: seq<T>)
    ensures |r| > 1 ==> r[1] in r
  {
  }

  /** A store with a single source queues it alone. */
  lemma OnlySource<V>(s: Store<V>, x: V)
    requires NoDup(s.order) && x in s.order && IsSource(s, x)
    requires forall y :: y in s.order && IsSource(s, y) ==> y == x
    ensures Sources(s) == [x]
  {
    var r := Sources(s);
    assert NoDup(r);
    FirstIn(r);
    SecondIn(r);
  }

  /** A store without sources queues nothing. */
  lemma NoSource<V>(s: Store<V>)
    requires forall y :: y in s.order ==> !IsSource(s, y)
    ensures Sources(s) == []
  {
    FirstIn(Sources(s));
  }

  /** The init events, one per vertex with its source flag. */
  lemma InitsAre<V>(s: Store<V>, es: seq<Event<V>>)
    requires |es| == |s.order|
    requires forall i :: 0 <= i < |es| ==> es[i] == Init(s.order[i], IsSource(s, s.order[i]))
    ensures InitEvents(s) == es
  {
  }

  // ---------------------------------------------------------------------
  // The traversal tests

  /** The graph of the depth-first tests: the arcs a→b, b→c, a→c and b→d,
      added in that order, so that the vertices come in the order a, b, c, d. */
  function Dag(): Store<char> {
    Store(['a', 'b', 'c', 'd'],
          map['a' := ['b', 'c'], 'b' := ['c', 'd'], 'c' := [], 'd' := []])
  }

  /** What the search reads of Dag(). */
  ghost predicate DagArcs(s: Store<char>) {
    && Valid(s)
    && s.order == ['a', 'b', 'c', 'd']
    && 'a' in s.adj && 'b' in s.adj && 'c' in s.adj && 'd' in s.adj
    && s.adj['a'] == ['b', 'c']
    && s.adj['b'] == ['c', 'd']
    && s.adj['c'] == []
    && s.adj['d'] == []
  }

  lemma DagDescribed()
    ensures DagArcs(Dag())
  {
    var o := Dag().order;
    assert forall i, j :: 0 <= i < j < |o| ==> o[i] != o[j];
  }

  lemma DagSourceA(s: Store<char>)
    requires DagArcs(s)
    ensures IsSource(s, 'a')
  {
    NoArcIn(s, 'a');
  }

  lemma DagSourceB(s: Store<char>)
    requires DagArcs(s)
    ensures !IsSource(s, 'b')
  {
    ArcIn(s, 'a', 'b');
  }

  lemma DagSourceC(s: Store<char>)
    requires DagArcs(s)
    ensures !IsSource(s, 'c')
  {
    ArcIn(s, 'a', 'c');
  }

  lemma DagSourceD(s: Store<char>)
    requires DagArcs(s)
    ensures !IsSource(s, 'd')
  {
    ArcIn(s, 'b', 'd');
  }

  /** The sources of any store that DagArcs describes. */
  lemma DagSources(s: Store<char>)
    requires DagArcs(s)
    ensures Sources(s) == ['a']
  {
    DagSourceA(s);
    DagSourceB(s);
    DagSourceC(s);
    DagSourceD(s);
    OnlySource(s, 'a');
  }

  /** The init events, from the source flags. */
  lemma DagInitsOf(s: Store<char>)
    requires s.order == ['a', 'b', 'c', 'd']
    requires IsSource(s, 'a') && !IsSource(s, 'b') && !IsSource(s, 'c') && !IsSource(s, 'd')
    ensures InitEvents(s) == [Init('a', true), Init('b', false), Init('c', false), Init('d', false)]
  {
    InitsAre(s, [Init('a', true), Init('b', false), Init('c', false), Init('d', false)]);
  }

  /** Its init events. */
  lemma DagInits(s: Store<char>)
    requires DagArcs(s)
    ensures InitEvents(s) == [Init('a', true), Init('b', false), Init('c', false), Init('d', false)]
  {
    DagSourceA(s);
    DagSourceB(s);
    DagSourceC(s);
    DagSourceD(s);
    DagInitsOf(s);
  }

  /** The search before the first visit: the init events alone. */
  function A0(): DState<char> {
    DState([], [], [Init('a', true), Init('b', false), Init('c', false), Init('d', false)])
  }

  /** a started. */
  function A1(): DState<char> {
    DState(['a'], [], A0().events + [Start('a')])
  }

  /** The edge from a to b examined. */
  function A2(): DState<char> {
    DState(['a'], [], A1().events + [Examine('a', 'b')])
  }

  /** b started. */
  function A3(): DState<char> {
    DState(['a', 'b'], [], A2().events + [Start('b')])
  }

  /** The edge from b to c examined. */
  function A4(): DState<char> {
    DState(['a', 'b'], [], A3().events + [Examine('b', 'c')])
  }

  /** c started. */
  function A5(): DState<char> {
    DState(['a', 'b', 'c'], [], A4().events + [Start('c')])
  }

  /** c finished. */
  function A6(): DState<char> {
    DState(['a', 'b'], ['c'], A5().events + [Finish('c')])
  }

  lemma AVisitCAtA4(s: Store<char>)
    requires DagArcs(s)
    ensures Visit(s, A4(), 'c') == A6()
  {
    SuccsNil(s, A5(), 'c');
    assert A4().visiting + ['c'] == ['a', 'b', 'c'];
    assert Detach(A5().visiting, 'c') == ['a', 'b'];
    assert A5().visited + ['c'] == ['c'];
    VisitNew(s, A4(), 'c', A5());
  }

  /** The edge from b to d examined. */
  function A7(): DState<char> {
    DState(['a', 'b'], ['c'], A6().events + [Examine('b', 'd')])
  }

  /** d started. */
  function A8(): DState<char> {
    DState(['a', 'b', 'd'], ['c'], A7().events + [Start('d')])
  }

  /** d finished. */
  function A9(): DState<char> {
    DState(['a', 'b'], ['c', 'd'], A8().events + [Finish('d')])
  }

  lemma AVisitDAtA7(s: Store<char>)
    requires DagArcs(s)
    ensures Visit(s, A7(), 'd') == A9()
  {
    SuccsNil(s, A8(), 'd');
    assert A7().visiting + ['d'] == ['a', 'b', 'd'];
    assert Detach(A8().visiting, 'd') == ['a', 'b'];
    assert A8().visited + ['d'] == ['c', 'd'];
    VisitNew(s, A7(), 'd', A8());
  }

  lemma ASuccsB1(s: Store<char>)
    requires DagArcs(s)
    ensures Succs(s, A6(), 'b', ['d']) == A9()
  {
    AVisitDAtA7(s);
    SuccsCons(s, A6(), 'b', ['d'], A9());
    assert ['d'][1..] == [];
    SuccsNil(s, A9(), 'b');
  }

  lemma ASuccsB0(s: Store<char>)
    requires DagArcs(s)
    ensures Succs(s, A3(), 'b', ['c', 'd']) == A9()
  {
    AVisitCAtA4(s);
    SuccsCons(s, A3(), 'b', ['c', 'd'], A6());
    assert ['c', 'd'][1..] == ['d'];
    ASuccsB1(s);
  }

  /** b finished. */
  function A10(): DState<char> {
    DState(['a'], ['c', 'd', 'b'], A9().events + [Finish('b')])
  }

  lemma AVisitBAtA2(s: Store<char>)
    requires DagArcs(s)
    ensures Visit(s, A2(), 'b') == A10()
  {
    ASuccsB0(s);
    assert A2().visiting + ['b'] == ['a', 'b'];
    assert Detach(A9().visiting, 'b') == ['a'];
    assert A9().visited + ['b'] == ['c', 'd', 'b'];
    VisitNew(s, A2(), 'b', A9());
  }

  /** The edge from a to c examined. */
  function A11(): DState<char> {
    DState(['a'], ['c', 'd', 'b'], A10().events + [Examine('a', 'c')])
  }

  lemma AVisitCAtA11(s: Store<char>)
    requires DagArcs(s)
    ensures Visit(s, A11(), 'c') == A11()
  {
    VisitSeen(s, A11(), 'c');
  }

  lemma ASuccsA1(s: Store<char>)
    requires DagArcs(s)
    ensures Succs(s, A10(), 'a', ['c']) == A11()
  {
    AVisitCAtA11(s);
    SuccsCons(s, A10(), 'a', ['c'], A11());
    assert ['c'][1..] == [];
    SuccsNil(s, A11(), 'a');
  }

  lemma ASuccsA0(s: Store<char>)
    requires DagArcs(s)
    ensures Succs(s, A1(), 'a', ['b', 'c']) == A11()
  {
    AVisitBAtA2(s);
    SuccsCons(s, A1(), 'a', ['b', 'c'], A10());
    assert ['b', 'c'][1..] == ['c'];
    ASuccsA1(s);
  }

  /** a finished. */
  function A12(): DState<char> {
    DState([], ['c', 'd', 'b', 'a'], A11().events + [Finish('a')])
  }

  lemma AVisitAAtA0(s: Store<char>)
    requires DagArcs(s)
    ensures Visit(s, A0(), 'a') == A12()
  {
    ASuccsA0(s);
    assert A0().visiting + ['a'] == ['a'];
    assert Detach(A11().visiting, 'a') == [];
    assert A11().visited + ['a'] == ['c', 'd', 'b', 'a'];
    VisitNew(s, A0(), 'a', A11());
  }

  lemma ADrive0(s: Store<char>)
    requires DagArcs(s)
    ensures Drive(s, A0(), ['a']) == A12()
  {
    AVisitAAtA0(s);
    DriveCons(s, A0(), ['a'], A12());
    assert ['a'][1..] == [];
    DriveNil(s, A12());
  }

  lemma AWritten()
    ensures A12().events == [Init('a', true), Init('b', false), Init('c', false), Init('d', false), Start('a'), Examine('a', 'b'), Start('b'), Examine('b', 'c'), Start('c'), Finish('c'), Examine('b', 'd'), Start('d'), Finish('d'), Finish('b'), Examine('a', 'c'), Finish('a')]
  {
    assert A1().events == [Init('a', true), Init('b', false), Init('c', false), Init('d', false), Start('a')];
    assert A2().events == [Init('a', true), Init('b', false), Init('c', false), Init('d', false), Start('a'), Examine('a', 'b')];
    assert A3().events == [Init('a', true), Init('b', false), Init('c', false), Init('d', false), Start('a'), Examine('a', 'b'), Start('b')];
    assert A4().events == [Init('a', true), Init('b', false), Init('c', false), Init('d', false), Start('a'), Examine('a', 'b'), Start('b'), Examine('b', 'c')];
    assert A5().events == [Init('a', true), Init('b', false), Init('c', false), Init('d', false), Start('a'), Examine('a', 'b'), Start('b'), Examine('b', 'c'), Start('c')];
    assert A6().events == [Init('a', true), Init('b', false), Init('c', false), Init('d', false), Start('a'), Examine('a', 'b'), Start('b'), Examine('b', 'c'), Start('c'), Finish('c')];
    assert A7().events == [Init('a', true), Init('b', false), Init('c', false), Init('d', false), Start('a'), Examine('a', 'b'), Start('b'), Examine('b', 'c'), Start('c'), Finish('c'), Examine('b', 'd')];
    assert A8().events == [Init('a', true), Init('b', false), Init('c', false), Init('d', false), Start('a'), Examine('a', 'b'), Start('b'), Examine('b', 'c'), Start('c'), Finish('c'), Examine('b', 'd'), Start('d')];
    assert A9().events == [Init('a', true), Init('b', false), Init('c', false), Init('d', false), Start('a'), Examine('a', 'b'), Start('b'), Examine('b', 'c'), Start('c'), Finish('c'), Examine('b', 'd'), Start('d'), Finish('d')];
    assert A10().events == [Init('a', true), Init('b', false), Init('c', false), Init('d', false), Start('a'), Examine('a', 'b'), Start('b'), Examine('b', 'c'), Start('c'), Finish('c'), Examine('b', 'd'), Start('d'), Finish('d'), Finish('b')];
    assert A11().events == [Init('a', true), Init('b', false), Init('c', false), Init('d', false), Start('a'), Examine('a', 'b'), Start('b'), Examine('b', 'c'), Start('c'), Finish('c'), Examine('b', 'd'), Start('d'), Finish('d'), Finish('b'), Examine('a', 'c')];
    assert A12().events == [Init('a', true), Init('b', false), Init('c', false), Init('d', false), Start('a'), Examine('a', 'b'), Start('b'), Examine('b', 'c'), Start('c'), Finish('c'), Examine('b', 'd'), Start('d'), Finish('d'), Finish('b'), Examine('a', 'c'), Finish('a')];
  }

  /** The search on any store that DagArcs describes. */
  lemma DagSearch(s: Store<char>)
    requires DagArcs(s)
    ensures Search(s).events == [Init('a', true), Init('b', false), Init('c', false), Init('d', false), Start('a'), Examine('a', 'b'), Start('b'), Examine('b', 'c'), Start('c'), Finish('c'), Examine('b', 'd'), Start('d'), Finish('d'), Finish('b'), Examine('a', 'c'), Finish('a')]
  {
    DagSources(s);
    DagInits(s);
    ADrive0(s);
    AWritten();
  }

  /** The same graph with the arc d→b added, which closes the cycle b→d→b. */
  function DagBack(): Store<char> {
    Store(['a', 'b', 'c', 'd'],
          map['a' := ['b', 'c'], 'b' := ['c', 'd'], 'c' := [], 'd' := ['b']])
  }

  /** What the search reads of DagBack(). */
  ghost predicate DagBackArcs(s: Store<char>) {
    && Valid(s)
    && s.order == ['a', 'b', 'c', 'd']
    && 'a' in s.adj && 'b' in s.adj && 'c' in s.adj && 'd' in s.adj
    && s.adj['a'] == ['b', 'c']
    && s.adj['b'] == ['c', 'd']
    && s.adj['c'] == []
    && s.adj['d'] == ['b']
  }

  lemma DagBackDescribed()
    ensures DagBackArcs(DagBack())
  {
    var o := DagBack().order;
    assert forall i, j :: 0 <= i < j < |o| ==> o[i] != o[j];
  }

  lemma DagBackSourceA(s: Store<char>)
    requires DagBackArcs(s)
    ensures IsSource(s, 'a')
  {
    NoArcIn(s, 'a');
  }

  lemma DagBackSourceB(s: Store<char>)
    requires DagBackArcs(s)
    ensures !IsSource(s, 'b')
  {
    ArcIn(s, 'a', 'b');
  }

  lemma DagBackSourceC(s: Store<char>)
    requires DagBackArcs(s)
    ensures !IsSource(s, 'c')
  {
    ArcIn(s, 'a', 'c');
  }

  lemma DagBackSourceD(s: Store<char>)
    requires DagBackArcs(s)
    ensures !IsSource(s, 'd')
  {
    ArcIn(s, 'b', 'd');
  }

  /** The sources of any store that DagBackArcs describes. */
  lemma DagBackSources(s: Store<char>)
    requires DagBackArcs(s)
    ensures Sources(s) == ['a']
  {
    DagBackSourceA(s);
    DagBackSourceB(s);
    DagBackSourceC(s);
    DagBackSourceD(s);
    OnlySource(s, 'a');
  }

  /** The init events, from the source flags. */
  lemma DagBackInitsOf(s: Store<char>)
    requires s.order == ['a', 'b', 'c', 'd']
    requires IsSource(s, 'a') && !IsSource(s, 'b') && !IsSource(s, 'c') && !IsSource(s, 'd')
    ensures InitEvents(s) == [Init('a', true), Init('b', false), Init('c', false), Init('d', false)]
  {
    InitsAre(s, [Init('a', true), Init('b', false), Init('c', false), Init('d', false)]);
  }

  /** Its init events. */
  lemma DagBackInits(s: Store<char>)
    requires DagBackArcs(s)
    ensures InitEvents(s) == [Init('a', true), Init('b', false), Init('c', false), Init('d', false)]
  {
    DagBackSourceA(s);
    DagBackSourceB(s);
    DagBackSourceC(s);
    DagBackSourceD(s);
    DagBackInitsOf(s);
  }

  /** The search before the first visit: the init events alone. */
  function B0(): DState<char> {
    DState([], [], [Init('a', true), Init('b', false), Init('c', false), Init('d', false)])
  }

  /** a started. */
  function B1(): DState<char> {
    DState(['a'], [], B0().events + [Start('a')])
  }

  /** The edge from a to b examined. */
  function B2(): DState<char> {
    DState(['a'], [], B1().events + [Examine('a', 'b')])
  }

  /** b started. */
  function B3(): DState<char> {
    DState(['a', 'b'], [], B2().events + [Start('b')])
  }

  /** The edge from b to c examined. */
  function B4(): DState<char> {
    DState(['a', 'b'], [], B3().events + [Examine('b', 'c')])
  }

  /** c started. */
  function B5(): DState<char> {
    DState(['a', 'b', 'c'], [], B4().events + [Start('c')])
  }

  /** c finished. */
  function B6(): DState<char> {
    DState(['a', 'b'], ['c'], B5().events + [Finish('c')])
  }

  lemma BVisitCAtB4(s: Store<char>)
    requires DagBackArcs(s)
    ensures Visit(s, B4(), 'c') == B6()
  {
    SuccsNil(s, B5(), 'c');
    assert B4().visiting + ['c'] == ['a', 'b', 'c'];
    assert Detach(B5().visiting, 'c') == ['a', 'b'];
    assert B5().visited + ['c'] == ['c'];
    VisitNew(s, B4(), 'c', B5());
  }

  /** The edge from b to d examined. */
  function B7(): DState<char> {
    DState(['a', 'b'], ['c'], B6().events + [Examine('b', 'd')])
  }

  /** d started. */
  function B8(): DState<char> {
    DState(['a', 'b', 'd'], ['c'], B7().events + [Start('d')])
  }

  /** The edge from d to b examined. */
  function B9(): DState<char> {
    DState(['a', 'b', 'd'], ['c'], B8().events + [Examine('d', 'b')])
  }

  /** b is being visited: a back edge. */
  function B10(): DState<char> {
    DState(['a', 'b', 'd'], ['c'], B9().events + [Back('b')])
  }

  lemma BVisitBAtB9(s: Store<char>)
    requires DagBackArcs(s)
    ensures Visit(s, B9(), 'b') == B10()
  {
    VisitBack(s, B9(), 'b');
  }

  lemma BSuccsD0(s: Store<char>)
    requires DagBackArcs(s)
    ensures Succs(s, B8(), 'd', ['b']) == B10()
  {
    BVisitBAtB9(s);
    SuccsCons(s, B8(), 'd', ['b'], B10());
    assert ['b'][1..] == [];
    SuccsNil(s, B10(), 'd');
  }

  /** d finished. */
  function B11(): DState<char> {
    DState(['a', 'b'], ['c', 'd'], B10().events + [Finish('d')])
  }

  lemma BVisitDAtB7(s: Store<char>)
    requires DagBackArcs(s)
    ensures Visit(s, B7(), 'd') == B11()
  {
    BSuccsD0(s);
    assert B7().visiting + ['d'] == ['a', 'b', 'd'];
    assert Detach(B10().visiting, 'd') == ['a', 'b'];
    assert B10().visited + ['d'] == ['c', 'd'];
    VisitNew(s, B7(), 'd', B10());
  }

  lemma BSuccsB1(s: Store<char>)
    requires DagBackArcs(s)
    ensures Succs(s, B6(), 'b', ['d']) == B11()
  {
    BVisitDAtB7(s);
    SuccsCons(s, B6(), 'b', ['d'], B11());
    assert ['d'][1..] == [];
    SuccsNil(s, B11(), 'b');
  }

  lemma BSuccsB0(s: Store<char>)
    requires DagBackArcs(s)
    ensures Succs(s, B3(), 'b', ['c', 'd']) == B11()
  {
    BVisitCAtB4(s);
    SuccsCons(s, B3(), 'b', ['c', 'd'], B6());
    assert ['c', 'd'][1..] == ['d'];
    BSuccsB1(s);
  }

  /** b finished. */
  function B12(): DState<char> {
    DState(['a'], ['c', 'd', 'b'], B11().events + [Finish('b')])
  }

  lemma BVisitBAtB2(s: Store<char>)
    requires DagBackArcs(s)
    ensures Visit(s, B2(), 'b') == B12()
  {
    BSuccsB0(s);
    assert B2().visiting + ['b'] == ['a', 'b'];
    assert Detach(B11().visiting, 'b') == ['a'];
    assert B11().visited + ['b'] == ['c', 'd', 'b'];
    VisitNew(s, B2(), 'b', B11());
  }

  /** The edge from a to c examined. */
  function B13(): DState<char> {
    DState(['a'], ['c', 'd', 'b'], B12().events + [Examine('a', 'c')])
  }

  lemma BVisitCAtB13(s: Store<char>)
    requires DagBackArcs(s)
    ensures Visit(s, B13(), 'c') == B13()
  {
    VisitSeen(s, B13(), 'c');
  }

  lemma BSuccsA1(s: Store<char>)
    requires DagBackArcs(s)
    ensures Succs(s, B12(), 'a', ['c']) == B13()
  {
    BVisitCAtB13(s);
    SuccsCons(s, B12(), 'a', ['c'], B13());
    assert ['c'][1..] == [];
    SuccsNil(s, B13(), 'a');
  }

  lemma BSuccsA0(s: Store<char>)
    requires DagBackArcs(s)
    ensures Succs(s, B1(), 'a', ['b', 'c']) == B13()
  {
    BVisitBAtB2(s);
    SuccsCons(s, B1(), 'a', ['b', 'c'], B12());
    assert ['b', 'c'][1..] == ['c'];
    BSuccsA1(s);
  }

  /** a finished. */
  function B14(): DState<char> {
    DState([], ['c', 'd', 'b', 'a'], B13().events + [Finish('a')])
  }

  lemma BVisitAAtB0(s: Store<char>)
    requires DagBackArcs(s)
    ensures Visit(s, B0(), 'a') == B14()
  {
    BSuccsA0(s);
    assert B0().visiting + ['a'] == ['a'];
    assert Detach(B13().visiting, 'a') == [];
    assert B13().visited + ['a'] == ['c', 'd', 'b', 'a'];
    VisitNew(s, B0(), 'a', B13());
  }

  lemma BDrive0(s: Store<char>)
    requires DagBackArcs(s)
    ensures Drive(s, B0(), ['a']) == B14()
  {
    BVisitAAtB0(s);
    DriveCons(s, B0(), ['a'], B14());
    assert ['a'][1..] == [];
    DriveNil(s, B14());
  }

  lemma BWritten()
    ensures B14().events == [Init('a', true), Init('b', false), Init('c', false), Init('d', false), Start('a'), Examine('a', 'b'), Start('b'), Examine('b', 'c'), Start('c'), Finish('c'), Examine('b', 'd'), Start('d'), Examine('d', 'b'), Back('b'), Finish('d'), Finish('b'), Examine('a', 'c'), Finish('a')]
  {
    assert B1().events == [Init('a', true), Init('b', false), Init('c', false), Init('d', false), Start('a')];
    assert B2().events == [Init('a', true), Init('b', false), Init('c', false), Init('d', false), Start('a'), Examine('a', 'b')];
    assert B3().events == [Init('a', true), Init('b', false), Init('c', false), Init('d', false), Start('a'), Examine('a', 'b'), Start('b')];
    assert B4().events == [Init('a', true), Init('b', false), Init('c', false), Init('d', false), Start('a'), Examine('a', 'b'), Start('b'), Examine('b', 'c')];
    assert B5().events == [Init('a', true), Init('b', false), Init('c', false), Init('d', false), Start('a'), Examine('a', 'b'), Start('b'), Examine('b', 'c'), Start('c')];
    assert B6().events == [Init('a', true), Init('b', false), Init('c', false), Init('d', false), Start('a'), Examine('a', 'b'), Start('b'), Examine('b', 'c'), Start('c'), Finish('c')];
    assert B7().events == [Init('a', true), Init('b', false), Init('c', false), Init('d', false), Start('a'), Examine('a', 'b'), Start('b'), Examine('b', 'c'), Start('c'), Finish('c'), Examine('b', 'd')];
    assert B8().events == [Init('a', true), Init('b', false), Init('c', false), Init('d', false), Start('a'), Examine('a', 'b'), Start('b'), Examine('b', 'c'), Start('c'), Finish('c'), Examine('b', 'd'), Start('d')];
    assert B9().events == [Init('a', true), Init('b', false), Init('c', false), Init('d', false), Start('a'), Examine('a', 'b'), Start('b'), Examine('b', 'c'), Start('c'), Finish('c'), Examine('b', 'd'), Start('d'), Examine('d', 'b')];
    assert B10().events == [Init('a', true), Init('b', false), Init('c', false), Init('d', false), Start('a'), Examine('a', 'b'), Start('b'), Examine('b', 'c'), Start('c'), Finish('c'), Examine('b', 'd'), Start('d'), Examine('d', 'b'), Back('b')];
    assert B11().events == [Init('a', true), Init('b', false), Init('c', false), Init('d', false), Start('a'), Examine('a', 'b'), Start('b'), Examine('b', 'c'), Start('c'), Finish('c'), Examine('b', 'd'), Start('d'), Examine('d', 'b'), Back('b'), Finish('d')];
    assert B12().events == [Init('a', true), Init('b', false), Init('c', false), Init('d', false), Start('a'), Examine('a', 'b'), Start('b'), Examine('b', 'c'), Start('c'), Finish('c'), Examine('b', 'd'), Start('d'), Examine('d', 'b'), Back('b'), Finish('d'), Finish('b')];
    assert B13().events == [Init('a', true), Init('b', false), Init('c', false), Init('d', false), Start('a'), Examine('a', 'b'), Start('b'), Examine('b', 'c'), Start('c'), Finish('c'), Examine('b', 'd'), Start('d'), Examine('d', 'b'), Back('b'), Finish('d'), Finish('b'), Examine('a', 'c')];
    assert B14().events == [Init('a', true), Init('b', false), Init('c', false), Init('d', false), Start('a'), Examine('a', 'b'), Start('b'), Examine('b', 'c'), Start('c'), Finish('c'), Examine('b', 'd'), Start('d'), Examine('d', 'b'), Back('b'), Finish('d'), Finish('b'), Examine('a', 'c'), Finish('a')];
  }

  /** The search on any store that DagBackArcs describes. */
  lemma DagBackSearch(s: Store<char>)
    requires DagBackArcs(s)
    ensures Search(s).events == [Init('a', true), Init('b', false), Init('c', false), Init('d', false), Start('a'), Examine('a', 'b'), Start('b'), Examine('b', 'c'), Start('c'), Finish('c'), Examine('b', 'd'), Start('d'), Examine('d', 'b'), Back('b'), Finish('d'), Finish('b'), Examine('a', 'c'), Finish('a')]
  {
    DagBackSources(s);
    DagBackInits(s);
    BDrive0(s);
    BWritten();
  }


  // ---------------------------------------------------------------------
  // The isAcyclic tests

  lemma PathSourceA(s: Store<char>)
    requires TarjanScenarios.PathArcs(s)
    ensures IsSource(s, 'a')
  {
    NoArcIn(s, 'a');
  }

  lemma PathSourceB(s: Store<char>)
    requires TarjanScenarios.PathArcs(s)
    ensures !IsSource(s, 'b')
  {
    ArcIn(s, 'a', 'b');
  }

  lemma PathSourceC(s: Store<char>)
    requires TarjanScenarios.PathArcs(s)
    ensures !IsSource(s, 'c')
  {
    ArcIn(s, 'b', 'c');
  }

  /** The sources of any store that PathArcs describes. */
  lemma PathSources(s: Store<char>)
    requires TarjanScenarios.PathArcs(s)
    ensures Sources(s) == ['a']
  {
    PathSourceA(s);
    PathSourceB(s);
    PathSourceC(s);
    OnlySource(s, 'a');
  }

  /** The init events, from the source flags. */
  lemma PathInitsOf(s: Store<char>)
    requires s.order == ['a', 'b', 'c']
    requires IsSource(s, 'a') && !IsSource(s, 'b') && !IsSource(s, 'c')
    ensures InitEvents(s) == [Init('a', true), Init('b', false), Init('c', false)]
  {
    InitsAre(s, [Init('a', true), Init('b', false), Init('c', false)]);
  }

  /** Its init events. */
  lemma PathInits(s: Store<char>)
    requires TarjanScenarios.PathArcs(s)
    ensures InitEvents(s) == [Init('a', true), Init('b', false), Init('c', false)]
  {
    PathSourceA(s);
    PathSourceB(s);
    PathSourceC(s);
    PathInitsOf(s);
  }

  /** The search before the first visit: the init events alone. */
  function P0(): DState<char> {
    DState([], [], [Init('a', true), Init('b', false), Init('c', false)])
  }

  /** a started. */
  function P1(): DState<char> {
    DState(['a'], [], P0().events + [Start('a')])
  }

  /** The edge from a to b examined. */
  function P2(): DState<char> {
    DState(['a'], [], P1().events + [Examine('a', 'b')])
  }

  /** b started. */
  function P3(): DState<char> {
    DState(['a', 'b'], [], P2().events + [Start('b')])
  }

  /** The edge from b to c examined. */
  function P4(): DState<char> {
    DState(['a', 'b'], [], P3().events + [Examine('b', 'c')])
  }

  /** c started. */
  function P5(): DState<char> {
    DState(['a', 'b', 'c'], [], P4().events + [Start('c')])
  }

  /** c finished. */
  function P6(): DState<char> {
    DState(['a', 'b'], ['c'], P5().events + [Finish('c')])
  }

  lemma PVisitCAtP4(s: Store<char>)
    requires TarjanScenarios.PathArcs(s)
    ensures Visit(s, P4(), 'c') == P6()
  {
    SuccsNil(s, P5(), 'c');
    assert P4().visiting + ['c'] == ['a', 'b', 'c'];
    assert Detach(P5().visiting, 'c') == ['a', 'b'];
    assert P5().visited + ['c'] == ['c'];
    VisitNew(s, P4(), 'c', P5());
  }

  lemma PSuccsB0(s: Store<char>)
    requires TarjanScenarios.PathArcs(s)
    ensures Succs(s, P3(), 'b', ['c']) == P6()
  {
    PVisitCAtP4(s);
    SuccsCons(s, P3(), 'b', ['c'], P6());
    assert ['c'][1..] == [];
    SuccsNil(s, P6(), 'b');
  }

  /** b finished. */
  function P7(): DState<char> {
    DState(['a'], ['c', 'b'], P6().events + [Finish('b')])
  }

  lemma PVisitBAtP2(s: Store<char>)
    requires TarjanScenarios.PathArcs(s)
    ensures Visit(s, P2(), 'b') == P7()
  {
    PSuccsB0(s);
    assert P2().visiting + ['b'] == ['a', 'b'];
    assert Detach(P6().visiting, 'b') == ['a'];
    assert P6().visited + ['b'] == ['c', 'b'];
    VisitNew(s, P2(), 'b', P6());
  }

  lemma PSuccsA0(s: Store<char>)
    requires TarjanScenarios.PathArcs(s)
    ensures Succs(s, P1(), 'a', ['b']) == P7()
  {
    PVisitBAtP2(s);
    SuccsCons(s, P1(), 'a', ['b'], P7());
    assert ['b'][1..] == [];
    SuccsNil(s, P7(), 'a');
  }

  /** a finished. */
  function P8(): DState<char> {
    DState([], ['c', 'b', 'a'], P7().events + [Finish('a')])
  }

  lemma PVisitAAtP0(s: Store<char>)
    requires TarjanScenarios.PathArcs(s)
    ensures Visit(s, P0(), 'a') == P8()
  {
    PSuccsA0(s);
    assert P0().visiting + ['a'] == ['a'];
    assert Detach(P7().visiting, 'a') == [];
    assert P7().visited + ['a'] == ['c', 'b', 'a'];
    VisitNew(s, P0(), 'a', P7());
  }

  lemma PDrive0(s: Store<char>)
    requires TarjanScenarios.PathArcs(s)
    ensures Drive(s, P0(), ['a']) == P8()
  {
    PVisitAAtP0(s);
    DriveCons(s, P0(), ['a'], P8());
    assert ['a'][1..] == [];
    DriveNil(s, P8());
  }

  lemma PWritten()
    ensures P8().events == [Init('a', true), Init('b', false), Init('c', false), Start('a'), Examine('a', 'b'), Start('b'), Examine('b', 'c'), Start('c'), Finish('c'), Finish('b'), Finish('a')]
  {
    assert P1().events == [Init('a', true), Init('b', false), Init('c', false), Start('a')];
    assert P2().events == [Init('a', true), Init('b', false), Init('c', false), Start('a'), Examine('a', 'b')];
    assert P3().events == [Init('a', true), Init('b', false), Init('c', false), Start('a'), Examine('a', 'b'), Start('b')];
    assert P4().events == [Init('a', true), Init('b', false), Init('c', false), Start('a'), Examine('a', 'b'), Start('b'), Examine('b', 'c')];
    assert P5().events == [Init('a', true), Init('b', false), Init('c', false), Start('a'), Examine('a', 'b'), Start('b'), Examine('b', 'c'), Start('c')];
    assert P6().events == [Init('a', true), Init('b', false), Init('c', false), Start('a'), Examine('a', 'b'), Start('b'), Examine('b', 'c'), Start('c'), Finish('c')];
    assert P7().events == [Init('a', true), Init('b', false), Init('c', false), Start('a'), Examine('a', 'b'), Start('b'), Examine('b', 'c'), Start('c'), Finish('c'), Finish('b')];
    assert P8().events == [Init('a', true), Init('b', false), Init('c', false), Start('a'), Examine('a', 'b'), Start('b'), Examine('b', 'c'), Start('c'), Finish('c'), Finish('b'), Finish('a')];
  }

  /** The search on any store that PathArcs describes. */
  lemma PathSearch(s: Store<char>)
    requires TarjanScenarios.PathArcs(s)
    ensures Search(s).events == [Init('a', true), Init('b', false), Init('c', false), Start('a'), Examine('a', 'b'), Start('b'), Examine('b', 'c'), Start('c'), Finish('c'), Finish('b'), Finish('a')]
  {
    PathSources(s);
    PathInits(s);
    PDrive0(s);
    PWritten();
  }

  lemma LoopSourceA(s: Store<char>)
    requires TarjanScenarios.LoopArcs(s)
    ensures !IsSource(s, 'a')
  {
    ArcIn(s, 'c', 'a');
  }

  lemma LoopSourceB(s: Store<char>)
    requires TarjanScenarios.LoopArcs(s)
    ensures !IsSource(s, 'b')
  {
    ArcIn(s, 'a', 'b');
  }

  lemma LoopSourceC(s: Store<char>)
    requires TarjanScenarios.LoopArcs(s)
    ensures !IsSource(s, 'c')
  {
    ArcIn(s, 'b', 'c');
  }

  /** The sources of any store that LoopArcs describes. */
  lemma LoopSources(s: Store<char>)
    requires TarjanScenarios.LoopArcs(s)
    ensures Sources(s) == []
  {
    LoopSourceA(s);
    LoopSourceB(s);
    LoopSourceC(s);
    NoSource(s);
  }

  /** The init events, from the source flags. */
  lemma LoopInitsOf(s: Store<char>)
    requires s.order == ['a', 'b', 'c']
    requires !IsSource(s, 'a') && !IsSource(s, 'b') && !IsSource(s, 'c')
    ensures InitEvents(s) == [Init('a', false), Init('b', false), Init('c', false)]
  {
    InitsAre(s, [Init('a', false), Init('b', false), Init('c', false)]);
  }

  /** Its init events. */
  lemma LoopInits(s: Store<char>)
    requires TarjanScenarios.LoopArcs(s)
    ensures InitEvents(s) == [Init('a', false), Init('b', false), Init('c', false)]
  {
    LoopSourceA(s);
    LoopSourceB(s);
    LoopSourceC(s);
    LoopInitsOf(s);
  }

  lemma ACountInitializeVertex(es: seq<Event<char>>)
    requires es == [Init('a', true), Init('b', false), Init('c', false), Init('d', false), Start('a'), Examine('a', 'b'), Start('b'), Examine('b', 'c'), Start('c'), Finish('c'), Examine('b', 'd'), Start('d'), Finish('d'), Finish('b'), Examine('a', 'c'), Finish('a')]
    ensures KindsFrom(es, 0, InitializeVertex) == 4
  {
    assert KindsFrom(es, 16, InitializeVertex) == 0;
    assert KindsFrom(es, 15, InitializeVertex) == 0;
    assert KindsFrom(es, 14, InitializeVertex) == 0;
    assert KindsFrom(es, 13, InitializeVertex) == 0;
    assert KindsFrom(es, 12, InitializeVertex) == 0;
    assert KindsFrom(es, 11, InitializeVertex) == 0;
    assert KindsFrom(es, 10, InitializeVertex) == 0;
    assert KindsFrom(es, 9, InitializeVertex) == 0;
    assert KindsFrom(es, 8, InitializeVertex) == 0;
    assert KindsFrom(es, 7, InitializeVertex) == 0;
    assert KindsFrom(es, 6, InitializeVertex) == 0;
    assert KindsFrom(es, 5, InitializeVertex) == 0;
    assert KindsFrom(es, 4, InitializeVertex) == 0;
    assert KindsFrom(es, 3, InitializeVertex) == 1;
    assert KindsFrom(es, 2, InitializeVertex) == 2;
    assert KindsFrom(es, 1, InitializeVertex) == 3;
    assert KindsFrom(es, 0, InitializeVertex) == 4;
  }

  lemma ACountStartVertex(es: seq<Event<char>>)
    requires es == [Init('a', true), Init('b', false), Init('c', false), Init('d', false), Start('a'), Examine('a', 'b'), Start('b'), Examine('b', 'c'), Start('c'), Finish('c'), Examine('b', 'd'), Start('d'), Finish('d'), Finish('b'), Examine('a', 'c'), Finish('a')]
    ensures KindsFrom(es, 0, StartVertex) == 4
  {
    assert KindsFrom(es, 16, StartVertex) == 0;
    assert KindsFrom(es, 15, StartVertex) == 0;
    assert KindsFrom(es, 14, StartVertex) == 0;
    assert KindsFrom(es, 13, StartVertex) == 0;
    assert KindsFrom(es, 12, StartVertex) == 0;
    assert KindsFrom(es, 11, StartVertex) == 1;
    assert KindsFrom(es, 10, StartVertex) == 1;
    assert KindsFrom(es, 9, StartVertex) == 1;
    assert KindsFrom(es, 8, StartVertex) == 2;
    assert KindsFrom(es, 7, StartVertex) == 2;
    assert KindsFrom(es, 6, StartVertex) == 3;
    assert KindsFrom(es, 5, StartVertex) == 3;
    assert KindsFrom(es, 4, StartVertex) == 4;
    assert KindsFrom(es, 3, StartVertex) == 4;
    assert KindsFrom(es, 2, StartVertex) == 4;
    assert KindsFrom(es, 1, StartVertex) == 4;
    assert KindsFrom(es, 0, StartVertex) == 4;
  }

  lemma ACountExamineEdge(es: seq<Event<char>>)
    requires es == [Init('a', true), Init('b', false), Init('c', false), Init('d', false), Start('a'), Examine('a', 'b'), Start('b'), Examine('b', 'c'), Start('c'), Finish('c'), Examine('b', 'd'), Start('d'), Finish('d'), Finish('b'), Examine('a', 'c'), Finish('a')]
    ensures KindsFrom(es, 0, ExamineEdge) == 4
  {
    assert KindsFrom(es, 16, ExamineEdge) == 0;
    assert KindsFrom(es, 15, ExamineEdge) == 0;
    assert KindsFrom(es, 14, ExamineEdge) == 1;
    assert KindsFrom(es, 13, ExamineEdge) == 1;
    assert KindsFrom(es, 12, ExamineEdge) == 1;
    assert KindsFrom(es, 11, ExamineEdge) == 1;
    assert KindsFrom(es, 10, ExamineEdge) == 2;
    assert KindsFrom(es, 9, ExamineEdge) == 2;
    assert KindsFrom(es, 8, ExamineEdge) == 2;
    assert KindsFrom(es, 7, ExamineEdge) == 3;
    assert KindsFrom(es, 6, ExamineEdge) == 3;
    assert KindsFrom(es, 5, ExamineEdge) == 4;
    assert KindsFrom(es, 4, ExamineEdge) == 4;
    assert KindsFrom(es, 3, ExamineEdge) == 4;
    assert KindsFrom(es, 2, ExamineEdge) == 4;
    assert KindsFrom(es, 1, ExamineEdge) == 4;
    assert KindsFrom(es, 0, ExamineEdge) == 4;
  }

  lemma ACountFinishVertex(es: seq<Event<char>>)
    requires es == [Init('a', true), Init('b', false), Init('c', false), Init('d', false), Start('a'), Examine('a', 'b'), Start('b'), Examine('b', 'c'), Start('c'), Finish('c'), Examine('b', 'd'), Start('d'), Finish('d'), Finish('b'), Examine('a', 'c'), Finish('a')]
    ensures KindsFrom(es, 0, FinishVertex) == 4
  {
    assert KindsFrom(es, 16, FinishVertex) == 0;
    assert KindsFrom(es, 15, FinishVertex) == 1;
    assert KindsFrom(es, 14, FinishVertex) == 1;
    assert KindsFrom(es, 13, FinishVertex) == 2;
    assert KindsFrom(es, 12, FinishVertex) == 3;
    assert KindsFrom(es, 11, FinishVertex) == 3;
    assert KindsFrom(es, 10, FinishVertex) == 3;
    assert KindsFrom(es, 9, FinishVertex) == 4;
    assert KindsFrom(es, 8, FinishVertex) == 4;
    assert KindsFrom(es, 7, FinishVertex) == 4;
    assert KindsFrom(es, 6, FinishVertex) == 4;
    assert KindsFrom(es, 5, FinishVertex) == 4;
    assert KindsFrom(es, 4, FinishVertex) == 4;
    assert KindsFrom(es, 3, FinishVertex) == 4;
    assert KindsFrom(es, 2, FinishVertex) == 4;
    assert KindsFrom(es, 1, FinishVertex) == 4;
    assert KindsFrom(es, 0, FinishVertex) == 4;
  }

  lemma ACountBackEdge(es: seq<Event<char>>)
    requires es == [Init('a', true), Init('b', false), Init('c', false), Init('d', false), Start('a'), Examine('a', 'b'), Start('b'), Examine('b', 'c'), Start('c'), Finish('c'), Examine('b', 'd'), Start('d'), Finish('d'), Finish('b'), Examine('a', 'c'), Finish('a')]
    ensures KindsFrom(es, 0, BackEdge) == 0
  {
    assert KindsFrom(es, 16, BackEdge) == 0;
    assert KindsFrom(es, 15, BackEdge) == 0;
    assert KindsFrom(es, 14, BackEdge) == 0;
    assert KindsFrom(es, 13, BackEdge) == 0;
    assert KindsFrom(es, 12, BackEdge) == 0;
    assert KindsFrom(es, 11, BackEdge) == 0;
    assert KindsFrom(es, 10, BackEdge) == 0;
    assert KindsFrom(es, 9, BackEdge) == 0;
    assert KindsFrom(es, 8, BackEdge) == 0;
    assert KindsFrom(es, 7, BackEdge) == 0;
    assert KindsFrom(es, 6, BackEdge) == 0;
    assert KindsFrom(es, 5, BackEdge) == 0;
    assert KindsFrom(es, 4, BackEdge) == 0;
    assert KindsFrom(es, 3, BackEdge) == 0;
    assert KindsFrom(es, 2, BackEdge) == 0;
    assert KindsFrom(es, 1, BackEdge) == 0;
    assert KindsFrom(es, 0, BackEdge) == 0;
  }

  lemma BCountBackEdge(es: seq<Event<char>>)
    requires es == [Init('a', true), Init('b', false), Init('c', false), Init('d', false), Start('a'), Examine('a', 'b'), Start('b'), Examine('b', 'c'), Start('c'), Finish('c'), Examine('b', 'd'), Start('d'), Examine('d', 'b'), Back('b'), Finish('d'), Finish('b'), Examine('a', 'c'), Finish('a')]
    ensures KindsFrom(es, 0, BackEdge) == 1
  {
    assert KindsFrom(es, 18, BackEdge) == 0;
    assert KindsFrom(es, 17, BackEdge) == 0;
    assert KindsFrom(es, 16, BackEdge) == 0;
    assert KindsFrom(es, 15, BackEdge) == 0;
    assert KindsFrom(es, 14, BackEdge) == 0;
    assert KindsFrom(es, 13, BackEdge) == 1;
    assert KindsFrom(es, 12, BackEdge) == 1;
    assert KindsFrom(es, 11, BackEdge) == 1;
    assert KindsFrom(es, 10, BackEdge) == 1;
    assert KindsFrom(es, 9, BackEdge) == 1;
    assert KindsFrom(es, 8, BackEdge) == 1;
    assert KindsFrom(es, 7, BackEdge) == 1;
    assert KindsFrom(es, 6, BackEdge) == 1;
    assert KindsFrom(es, 5, BackEdge) == 1;
    assert KindsFrom(es, 4, BackEdge) == 1;
    assert KindsFrom(es, 3, BackEdge) == 1;
    assert KindsFrom(es, 2, BackEdge) == 1;
    assert KindsFrom(es, 1, BackEdge) == 1;
    assert KindsFrom(es, 0, BackEdge) == 1;
  }

  lemma PCountBackEdge(es: seq<Event<char>>)
    requires es == [Init('a', true), Init('b', false), Init('c', false), Start('a'), Examine('a', 'b'), Start('b'), Examine('b', 'c'), Start('c'), Finish('c'), Finish('b'), Finish('a')]
    ensures KindsFrom(es, 0, BackEdge) == 0
  {
    assert KindsFrom(es, 11, BackEdge) == 0;
    assert KindsFrom(es, 10, BackEdge) == 0;
    assert KindsFrom(es, 9, BackEdge) == 0;
    assert KindsFrom(es, 8, BackEdge) == 0;
    assert KindsFrom(es, 7, BackEdge) == 0;
    assert KindsFrom(es, 6, BackEdge) == 0;
    assert KindsFrom(es, 5, BackEdge) == 0;
    assert KindsFrom(es, 4, BackEdge) == 0;
    assert KindsFrom(es, 3, BackEdge) == 0;
    assert KindsFrom(es, 2, BackEdge) == 0;
    assert KindsFrom(es, 1, BackEdge) == 0;
    assert KindsFrom(es, 0, BackEdge) == 0;
  }

  // ---------------------------------------------------------------------
  // What the tests expect

  /** The search on any store that DagArcs describes makes four calls each
      to onInitializeVertex, onStartVertex, onExamineEdge and onFinishVertex,
      and none to onBackEdge. */
  lemma DagCounts(s: Store<char>)
    requires DagArcs(s)
    ensures |Delivered(Search(s).events, {InitializeVertex})| == 4
    ensures |Delivered(Search(s).events, {StartVertex})| == 4
    ensures |Delivered(Search(s).events, {ExamineEdge})| == 4
    ensures |Delivered(Search(s).events, {FinishVertex})| == 4
    ensures |Delivered(Search(s).events, {BackEdge})| == 0
  {
    DagSearch(s);
    var es := Search(s).events;
    DeliveredCount(es, 0, InitializeVertex);
    assert es[0..] == es;
    ACountInitializeVertex(es);
    DeliveredCount(es, 0, StartVertex);
    assert es[0..] == es;
    ACountStartVertex(es);
    DeliveredCount(es, 0, ExamineEdge);
    assert es[0..] == es;
    ACountExamineEdge(es);
    DeliveredCount(es, 0, FinishVertex);
    assert es[0..] == es;
    ACountFinishVertex(es);
    DeliveredCount(es, 0, BackEdge);
    assert es[0..] == es;
    ACountBackEdge(es);
  }

  /** The acyclic traversal test: four calls each to onInitializeVertex,
      onStartVertex, onExamineEdge and onFinishVertex, none to onBackEdge. */
  lemma AcyclicTraversalTest()
    ensures Valid(Dag())
    ensures |Delivered(Search(Dag()).events, {InitializeVertex})| == 4
    ensures |Delivered(Search(Dag()).events, {StartVertex})| == 4
    ensures |Delivered(Search(Dag()).events, {ExamineEdge})| == 4
    ensures |Delivered(Search(Dag()).events, {FinishVertex})| == 4
    ensures |Delivered(Search(Dag()).events, {BackEdge})| == 0
  {
    DagDescribed();
    DagCounts(Dag());
  }

  /** The search on any store that DagBackArcs describes makes one call to
      onBackEdge. */
  lemma DagBackCounts(s: Store<char>)
    requires DagBackArcs(s)
    ensures |Delivered(Search(s).events, {BackEdge})| == 1
  {
    DagBackSearch(s);
    var es := Search(s).events;
    DeliveredCount(es, 0, BackEdge);
    assert es[0..] == es;
    BCountBackEdge(es);
  }

  /** The direct cycle traversal test: once d→b closes a cycle, the search
      makes exactly one onBackEdge call. */
  lemma DirectCycleTraversalTest()
    ensures Valid(DagBack())
    ensures |Delivered(Search(DagBack()).events, {BackEdge})| == 1
  {
    DagBackDescribed();
    DagBackCounts(DagBack());
  }

  /** On any store that PathArcs describes, a is a source and the search
      from it reports no back edge. */
  lemma PathAcyclic(s: Store<char>)
    requires TarjanScenarios.PathArcs(s)
    ensures AnswerAsWritten(s)
  {
    PathSources(s);
    PathSearch(s);
    var es := Search(s).events;
    DeliveredCount(es, 0, BackEdge);
    assert es[0..] == es;
    PCountBackEdge(es);
    DeliveredBackEdges(es);
  }

  /** On any store that LoopArcs describes there is no source. */
  lemma LoopNotAcyclic(s: Store<char>)
    requires TarjanScenarios.LoopArcs(s)
    ensures !AnswerAsWritten(s)
  {
    LoopSources(s);
  }

  /** isAcyclic answers TRUE on the path a→b→c, and FALSE once c→a closes
      it: the search then has no source to start from. */
  lemma IsAcyclicTest()
    ensures Valid(TarjanScenarios.Path()) && AnswerAsWritten(TarjanScenarios.Path())
    ensures Valid(TarjanScenarios.Loop()) && !AnswerAsWritten(TarjanScenarios.Loop())
  {
    TarjanScenarios.PathDescribed();
    TarjanScenarios.LoopDescribed();
    PathAcyclic(TarjanScenarios.Path());
    LoopNotAcyclic(TarjanScenarios.Loop());
  }
}
