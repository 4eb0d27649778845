/** The runs of Tarjan's algorithm on the graphs of the test suite, worked
    out step by step. Vertices are the characters the tests name them by.

    Each run is unfolded one equation at a time: a state function per change
    of the state, and a lemma per Step, Succs, Visit, Pop and Drive call.
    The lemmas take the store through a predicate that lists what the run
    reads of it, rather than as the store literal itself, which the verifier
    would otherwise unfold again at every step. */
module TarjanScenarios {
  import opened AdjacencyStore
  import opened TarjanSpec

  /** Writing a key's own value back leaves a map unchanged. */
  lemma SameValue<K, U>(m: map<K, U>, k: K)
    requires k in m
    ensures m[k := m[k]] == m
  {
  }

  /** One pass of the pop loop that stops: the top is v. */
  lemma PopLast<V>(stack: seq<V>, comp: seq<V>, v: V)
    requires stack != [] && stack[|stack| - 1] == v
    ensures PopUntil(stack, comp, v) == (stack[..|stack| - 1], comp + [v])
  {
  }

  /** Succs on no successors leaves the state as it is. */
  lemma SuccsNil<V>(s: Store<V>, st: TState<V>, v: V)
    requires Valid(s) && Shaped(s, st) && v in st.index
    ensures Succs(s, st, v, []) == st
  {
  }

  /** Succs takes the first successor, then the others from the state
      that leaves. */
  lemma SuccsCons<V>(s: Store<V>, st: TState<V>, v: V, ws: seq<V>, t: TState<V>)
    requires Valid(s) && Shaped(s, st) && v in st.index
    requires ws != [] && forall w :: w in ws ==> w in s.adj
    requires Step(s, st, v, ws[0]) == t
    ensures Succs(s, st, v, ws) == Succs(s, t, v, ws[1..])
  {
  }

  /** A successor without an index is visited; the low-link of v takes the
      minimum with that of w. */
  lemma StepTree<V>(s: Store<V>, st: TState<V>, v: V, w: V, t: TState<V>)
    requires Valid(s) && Shaped(s, st) && v in st.index && w in s.adj
    requires w !in st.index && Visit(s, st, w) == t
    ensures Step(s, st, v, w) == t.(low := t.low[v := Min(t.low[v], t.low[w])])
  {
  }

  /** A successor still on the stack lowers the low-link of v to at most
      its index. */
  lemma StepBack<V>(s: Store<V>, st: TState<V>, v: V, w: V)
    requires Valid(s) && Shaped(s, st) && v in st.index && w in s.adj
    requires w in st.index && w in st.stack
    ensures Step(s, st, v, w) == st.(low := st.low[v := Min(st.low[v], st.index[w])])
  {
  }

  /** A successor already numbered and off the stack is ignored. */
  lemma StepCross<V>(s: Store<V>, st: TState<V>, v: V, w: V)
    requires Valid(s) && Shaped(s, st) && v in st.index && w in s.adj
    requires w in st.index && w !in st.stack
    ensures Step(s, st, v, w) == st
  {
  }

  /** A visit whose low-link stays at its index pops a component. */
  lemma VisitRoot<V>(s: Store<V>, st: TState<V>, v: V, t: TState<V>)
    requires Valid(s) && Shaped(s, st) && v in s.adj && v !in st.index
    requires Succs(s, Push(st, v), v, s.adj[v]) == t
    requires t.low[v] == t.index[v] && v in t.stack
    ensures Visit(s, st, v) == Pop(t, v)
  {
  }

  /** A visit whose low-link dropped leaves v on the stack. */
  lemma VisitInner<V>(s: Store<V>, st: TState<V>, v: V, t: TState<V>)
    requires Valid(s) && Shaped(s, st) && v in s.adj && v !in st.index
    requires Succs(s, Push(st, v), v, s.adj[v]) == t
    requires t.low[v] != t.index[v]
    ensures Visit(s, st, v) == t
  {
  }

  /** The driver at the end of the order. */
  lemma DriveNil<V>(s: Store<V>, st: TState<V>)
    requires Valid(s) && Shaped(s, st)
    ensures Drive(s, st, []) == st
  {
  }

  /** The driver passes over a vertex that already has an index. */
  lemma DriveSeen<V>(s: Store<V>, st: TState<V>, vs: seq<V>)
    requires Valid(s) && Shaped(s, st) && forall v :: v in vs ==> v in s.adj
    requires vs != [] && vs[0] in st.index
    ensures Drive(s, st, vs) == Drive(s, st, vs[1..])
  {
  }

  /** The driver visits a vertex without an index. */
  lemma DriveVisit<V>(s: Store<V>, st: TState<V>, vs: seq<V>, t: TState<V>)
    requires Valid(s) && Shaped(s, st) && forall v :: v in vs ==> v in s.adj
    requires vs != [] && vs[0] !in st.index && Visit(s, st, vs[0]) == t
    ensures Drive(s, st, vs) == Drive(s, t, vs[1..])
  {
  }

  /** One pass of the pop loop that goes on: the top is not v. */
  lemma PopOther<V>(stack: seq<V>, comp: seq<V>, v: V)
    requires stack != [] && stack[|stack| - 1] != v && v in stack[..|stack| - 1]
    ensures PopUntil(stack, comp, v)
         == PopUntil(stack[..|stack| - 1], comp + [stack[|stack| - 1]], v)
  {
  }

  // ---------------------------------------------------------------------
  // tarjan_scc on the eight vertices of its test

  /** The graph of the tarjan_scc test: the arcs a→d, a→b, b→c, c→d, d→a, e→d,
      f→g, g→h and h→f, added in that order, so that the vertices come in
      the order a, d, b, c, e, f, g, h. */
  function Eight(): Store<char> {
    Store(['a', 'd', 'b', 'c', 'e', 'f', 'g', 'h'],
          map['a' := ['d', 'b'], 'd' := ['a'], 'b' := ['c'], 'c' := ['d'], 'e' := ['d'], 'f' := ['g'], 'g' := ['h'], 'h' := ['f']])
  }
  /** What the run reads of Eight(). */
  ghost predicate EightArcs(s: Store<char>) {
    && Valid(s)
    && s.order == ['a', 'd', 'b', 'c', 'e', 'f', 'g', 'h']
    && 'a' in s.adj && 'd' in s.adj && 'b' in s.adj && 'c' in s.adj && 'e' in s.adj && 'f' in s.adj && 'g' in s.adj && 'h' in s.adj
    && s.adj['a'] == ['d', 'b']
    && s.adj['d'] == ['a']
    && s.adj['b'] == ['c']
    && s.adj['c'] == ['d']
    && s.adj['e'] == ['d']
    && s.adj['f'] == ['g']
    && s.adj['g'] == ['h']
    && s.adj['h'] == ['f']
  }
  lemma EightKeyed()
    ensures Keyed(Eight())
  {
    var o := Eight().order;
    assert forall i, j :: 0 <= i < j < |o| ==> o[i] != o[j];
  }
  lemma EightValid()
    ensures Valid(Eight())
  {
    EightKeyed();
  }
  lemma EightDescribed()
    ensures EightArcs(Eight())
  {
    EightValid();
  }
  /** a numbered 0 and pushed. */
  function E1(): TState<char> { Push(Init(), 'a') }

  /** d numbered 1 and pushed. */
  function E2(): TState<char> { Push(E1(), 'd') }

  /** a is on the stack: the low-link of d drops to 0. */
  function E3(): TState<char> { E2().(low := E2().low['d' := 0]) }

  lemma EStepDA(s: Store<char>)
    requires EightArcs(s)
    ensures Shaped(s, E2()) && Step(s, E2(), 'd', 'a') == E3()
  {
    StepBack(s, E2(), 'd', 'a');
  }

  lemma ESuccsD0(s: Store<char>)
    requires EightArcs(s)
    ensures Shaped(s, E2()) && Succs(s, E2(), 'd', ['a']) == E3()
  {
    EStepDA(s);
    SuccsCons(s, E2(), 'd', ['a'], E3());
    assert ['a'][1..] == [];
    SuccsNil(s, E3(), 'd');
  }

  lemma EVisitD(s: Store<char>)
    requires EightArcs(s)
    ensures Shaped(s, E1()) && Visit(s, E1(), 'd') == E3()
  {
    ESuccsD0(s);
    VisitInner(s, E1(), 'd', E3());
  }

  lemma EStepAD(s: Store<char>)
    requires EightArcs(s)
    ensures Shaped(s, E1()) && Step(s, E1(), 'a', 'd') == E3()
  {
    EVisitD(s);
    StepTree(s, E1(), 'a', 'd', E3());
    SameValue(E3().low, 'a');
  }

  /** b numbered 2 and pushed. */
  function E4(): TState<char> { Push(E3(), 'b') }

  /** c numbered 3 and pushed. */
  function E5(): TState<char> { Push(E4(), 'c') }

  /** d is on the stack: the low-link of c drops to 1. */
  function E6(): TState<char> { E5().(low := E5().low['c' := 1]) }

  lemma EStepCD(s: Store<char>)
    requires EightArcs(s)
    ensures Shaped(s, E5()) && Step(s, E5(), 'c', 'd') == E6()
  {
    StepBack(s, E5(), 'c', 'd');
  }

  lemma ESuccsC0(s: Store<char>)
    requires EightArcs(s)
    ensures Shaped(s, E5()) && Succs(s, E5(), 'c', ['d']) == E6()
  {
    EStepCD(s);
    SuccsCons(s, E5(), 'c', ['d'], E6());
    assert ['d'][1..] == [];
    SuccsNil(s, E6(), 'c');
  }

  lemma EVisitC(s: Store<char>)
    requires EightArcs(s)
    ensures Shaped(s, E4()) && Visit(s, E4(), 'c') == E6()
  {
    ESuccsC0(s);
    VisitInner(s, E4(), 'c', E6());
  }

  /** back at b from c: the low-link of b drops to 1. */
  function E7(): TState<char> { E6().(low := E6().low['b' := 1]) }

  lemma EStepBC(s: Store<char>)
    requires EightArcs(s)
    ensures Shaped(s, E4()) && Step(s, E4(), 'b', 'c') == E7()
  {
    EVisitC(s);
    StepTree(s, E4(), 'b', 'c', E6());
  }

  lemma ESuccsB0(s: Store<char>)
    requires EightArcs(s)
    ensures Shaped(s, E4()) && Succs(s, E4(), 'b', ['c']) == E7()
  {
    EStepBC(s);
    SuccsCons(s, E4(), 'b', ['c'], E7());
    assert ['c'][1..] == [];
    SuccsNil(s, E7(), 'b');
  }

  lemma EVisitB(s: Store<char>)
    requires EightArcs(s)
    ensures Shaped(s, E3()) && Visit(s, E3(), 'b') == E7()
  {
    ESuccsB0(s);
    VisitInner(s, E3(), 'b', E7());
  }

  lemma EStepAB(s: Store<char>)
    requires EightArcs(s)
    ensures Shaped(s, E3()) && Step(s, E3(), 'a', 'b') == E7()
  {
    EVisitB(s);
    StepTree(s, E3(), 'a', 'b', E7());
    SameValue(E7().low, 'a');
  }

  lemma ESuccsA1(s: Store<char>)
    requires EightArcs(s)
    ensures Shaped(s, E3()) && Succs(s, E3(), 'a', ['b']) == E7()
  {
    EStepAB(s);
    SuccsCons(s, E3(), 'a', ['b'], E7());
    assert ['b'][1..] == [];
    SuccsNil(s, E7(), 'a');
  }

  lemma ESuccsA0(s: Store<char>)
    requires EightArcs(s)
    ensures Shaped(s, E1()) && Succs(s, E1(), 'a', ['d', 'b']) == E7()
  {
    EStepAD(s);
    SuccsCons(s, E1(), 'a', ['d', 'b'], E3());
    assert ['d', 'b'][1..] == ['b'];
    ESuccsA1(s);
  }

  /** a closes the component c, b, d, a. */
  function E8(): TState<char> { E7().(stack := [], comps := E7().comps + [['c', 'b', 'd', 'a']]) }

  /** The same state, written out. */
  function E9(): TState<char> { TState(4, [],
    map['a' := 0, 'd' := 1, 'b' := 2, 'c' := 3],
    map['a' := 0, 'd' := 0, 'b' := 1, 'c' := 1],
    [['c', 'b', 'd', 'a']]) }

  lemma EWrittenA()
    ensures E8() == E9()
  {
    assert E8().index == E9().index;
    assert E8().low == E9().low;
    assert E8().comps == E9().comps;
  }

  lemma EPopALoop(st: seq<char>)
    requires st == ['a', 'd', 'b', 'c']
    ensures PopUntil(st, [], 'a') == ([], ['c', 'b', 'd', 'a'])
  {
    assert st[..3] == ['a', 'd', 'b'] && [] + ['c'] == ['c'];
    PopOther(st, [], 'a');
    assert st[..3][..2] == ['a', 'd'] && ['c'] + ['b'] == ['c', 'b'];
    PopOther(st[..3], ['c'], 'a');
    assert st[..3][..2][..1] == ['a'] && ['c', 'b'] + ['d'] == ['c', 'b', 'd'];
    PopOther(st[..3][..2], ['c', 'b'], 'a');
    assert st[..3][..2][..1][..0] == [] && ['c', 'b', 'd'] + ['a'] == ['c', 'b', 'd', 'a'];
    PopLast(st[..3][..2][..1], ['c', 'b', 'd'], 'a');
  }

  lemma EPopA()
    ensures Pop(E7(), 'a') == E8()
  {
    EPopALoop(E7().stack);
  }

  lemma EVisitA(s: Store<char>)
    requires EightArcs(s)
    ensures Shaped(s, Init()) && Visit(s, Init(), 'a') == E9()
  {
    ESuccsA0(s);
    VisitRoot(s, Init(), 'a', E7());
    EPopA();
    EWrittenA();
  }

  /** e numbered 4 and pushed. */
  function E10(): TState<char> { Push(E9(), 'e') }

  lemma EStepED(s: Store<char>)
    requires EightArcs(s)
    ensures Shaped(s, E10()) && Step(s, E10(), 'e', 'd') == E10()
  {
    StepCross(s, E10(), 'e', 'd');
  }

  lemma ESuccsE0(s: Store<char>)
    requires EightArcs(s)
    ensures Shaped(s, E10()) && Succs(s, E10(), 'e', ['d']) == E10()
  {
    EStepED(s);
    SuccsCons(s, E10(), 'e', ['d'], E10());
    assert ['d'][1..] == [];
    SuccsNil(s, E10(), 'e');
  }

  /** e closes the component e. */
  function E11(): TState<char> { E10().(stack := [], comps := E10().comps + [['e']]) }

  /** The same state, written out. */
  function E12(): TState<char> { TState(5, [],
    map['a' := 0, 'd' := 1, 'b' := 2, 'c' := 3, 'e' := 4],
    map['a' := 0, 'd' := 0, 'b' := 1, 'c' := 1, 'e' := 4],
    [['c', 'b', 'd', 'a'], ['e']]) }

  lemma EWrittenE()
    ensures E11() == E12()
  {
    assert E11().index == E12().index;
    assert E11().low == E12().low;
    assert E11().comps == E12().comps;
  }

  lemma EPopELoop(st: seq<char>)
    requires st == ['e']
    ensures PopUntil(st, [], 'e') == ([], ['e'])
  {
    assert st[..0] == [] && [] + ['e'] == ['e'];
    PopLast(st, [], 'e');
  }

  lemma EPopE()
    ensures Pop(E10(), 'e') == E11()
  {
    EPopELoop(E10().stack);
  }

  lemma EVisitE(s: Store<char>)
    requires EightArcs(s)
    ensures Shaped(s, E9()) && Visit(s, E9(), 'e') == E12()
  {
    ESuccsE0(s);
    VisitRoot(s, E9(), 'e', E10());
    EPopE();
    EWrittenE();
  }

  /** f numbered 5 and pushed. */
  function E13(): TState<char> { Push(E12(), 'f') }

  /** g numbered 6 and pushed. */
  function E14(): TState<char> { Push(E13(), 'g') }

  /** h numbered 7 and pushed. */
  function E15(): TState<char> { Push(E14(), 'h') }

  /** f is on the stack: the low-link of h drops to 5. */
  function E16(): TState<char> { E15().(low := E15().low['h' := 5]) }

  lemma EStepHF(s: Store<char>)
    requires EightArcs(s)
    ensures Shaped(s, E15()) && Step(s, E15(), 'h', 'f') == E16()
  {
    StepBack(s, E15(), 'h', 'f');
  }

  lemma ESuccsH0(s: Store<char>)
    requires EightArcs(s)
    ensures Shaped(s, E15()) && Succs(s, E15(), 'h', ['f']) == E16()
  {
    EStepHF(s);
    SuccsCons(s, E15(), 'h', ['f'], E16());
    assert ['f'][1..] == [];
    SuccsNil(s, E16(), 'h');
  }

  lemma EVisitH(s: Store<char>)
    requires EightArcs(s)
    ensures Shaped(s, E14()) && Visit(s, E14(), 'h') == E16()
  {
    ESuccsH0(s);
    VisitInner(s, E14(), 'h', E16());
  }

  /** back at g from h: the low-link of g drops to 5. */
  function E17(): TState<char> { E16().(low := E16().low['g' := 5]) }

  lemma EStepGH(s: Store<char>)
    requires EightArcs(s)
    ensures Shaped(s, E14()) && Step(s, E14(), 'g', 'h') == E17()
  {
    EVisitH(s);
    StepTree(s, E14(), 'g', 'h', E16());
  }

  lemma ESuccsG0(s: Store<char>)
    requires EightArcs(s)
    ensures Shaped(s, E14()) && Succs(s, E14(), 'g', ['h']) == E17()
  {
    EStepGH(s);
    SuccsCons(s, E14(), 'g', ['h'], E17());
    assert ['h'][1..] == [];
    SuccsNil(s, E17(), 'g');
  }

  lemma EVisitG(s: Store<char>)
    requires EightArcs(s)
    ensures Shaped(s, E13()) && Visit(s, E13(), 'g') == E17()
  {
    ESuccsG0(s);
    VisitInner(s, E13(), 'g', E17());
  }

  lemma EStepFG(s: Store<char>)
    requires EightArcs(s)
    ensures Shaped(s, E13()) && Step(s, E13(), 'f', 'g') == E17()
  {
    EVisitG(s);
    StepTree(s, E13(), 'f', 'g', E17());
    SameValue(E17().low, 'f');
  }

  lemma ESuccsF0(s: Store<char>)
    requires EightArcs(s)
    ensures Shaped(s, E13()) && Succs(s, E13(), 'f', ['g']) == E17()
  {
    EStepFG(s);
    SuccsCons(s, E13(), 'f', ['g'], E17());
    assert ['g'][1..] == [];
    SuccsNil(s, E17(), 'f');
  }

  /** f closes the component h, g, f. */
  function E18(): TState<char> { E17().(stack := [], comps := E17().comps + [['h', 'g', 'f']]) }

  /** The same state, written out. */
  function E19(): TState<char> { TState(8, [],
    map['a' := 0, 'd' := 1, 'b' := 2, 'c' := 3, 'e' := 4, 'f' := 5, 'g' := 6, 'h' := 7],
    map['a' := 0, 'd' := 0, 'b' := 1, 'c' := 1, 'e' := 4, 'f' := 5, 'g' := 5, 'h' := 5],
    [['c', 'b', 'd', 'a'], ['e'], ['h', 'g', 'f']]) }

  lemma EWrittenF()
    ensures E18() == E19()
  {
    assert E18().index == E19().index;
    assert E18().low == E19().low;
    assert E18().comps == E19().comps;
  }

  lemma EPopFLoop(st: seq<char>)
    requires st == ['f', 'g', 'h']
    ensures PopUntil(st, [], 'f') == ([], ['h', 'g', 'f'])
  {
    assert st[..2] == ['f', 'g'] && [] + ['h'] == ['h'];
    PopOther(st, [], 'f');
    assert st[..2][..1] == ['f'] && ['h'] + ['g'] == ['h', 'g'];
    PopOther(st[..2], ['h'], 'f');
    assert st[..2][..1][..0] == [] && ['h', 'g'] + ['f'] == ['h', 'g', 'f'];
    PopLast(st[..2][..1], ['h', 'g'], 'f');
  }

  lemma EPopF()
    ensures Pop(E17(), 'f') == E18()
  {
    EPopFLoop(E17().stack);
  }

  lemma EVisitF(s: Store<char>)
    requires EightArcs(s)
    ensures Shaped(s, E12()) && Visit(s, E12(), 'f') == E19()
  {
    ESuccsF0(s);
    VisitRoot(s, E12(), 'f', E17());
    EPopF();
    EWrittenF();
  }

  lemma EDrive7(s: Store<char>)
    requires EightArcs(s)
    ensures Shaped(s, E19()) && Drive(s, E19(), ['h']) == E19()
  {
    DriveSeen(s, E19(), ['h']);
    assert ['h'][1..] == [];
    DriveNil(s, E19());
  }

  lemma EDrive6(s: Store<char>)
    requires EightArcs(s)
    ensures Shaped(s, E19()) && Drive(s, E19(), ['g', 'h']) == E19()
  {
    DriveSeen(s, E19(), ['g', 'h']);
    assert ['g', 'h'][1..] == ['h'];
    EDrive7(s);
  }

  lemma EDrive5(s: Store<char>)
    requires EightArcs(s)
    ensures Shaped(s, E12()) && Drive(s, E12(), ['f', 'g', 'h']) == E19()
  {
    EVisitF(s);
    DriveVisit(s, E12(), ['f', 'g', 'h'], E19());
    assert ['f', 'g', 'h'][1..] == ['g', 'h'];
    EDrive6(s);
  }

  lemma EDrive4(s: Store<char>)
    requires EightArcs(s)
    ensures Shaped(s, E9()) && Drive(s, E9(), ['e', 'f', 'g', 'h']) == E19()
  {
    EVisitE(s);
    DriveVisit(s, E9(), ['e', 'f', 'g', 'h'], E12());
    assert ['e', 'f', 'g', 'h'][1..] == ['f', 'g', 'h'];
    EDrive5(s);
  }

  lemma EDrive3(s: Store<char>)
    requires EightArcs(s)
    ensures Shaped(s, E9()) && Drive(s, E9(), ['c', 'e', 'f', 'g', 'h']) == E19()
  {
    DriveSeen(s, E9(), ['c', 'e', 'f', 'g', 'h']);
    assert ['c', 'e', 'f', 'g', 'h'][1..] == ['e', 'f', 'g', 'h'];
    EDrive4(s);
  }

  lemma EDrive2(s: Store<char>)
    requires EightArcs(s)
    ensures Shaped(s, E9()) && Drive(s, E9(), ['b', 'c', 'e', 'f', 'g', 'h']) == E19()
  {
    DriveSeen(s, E9(), ['b', 'c', 'e', 'f', 'g', 'h']);
    assert ['b', 'c', 'e', 'f', 'g', 'h'][1..] == ['c', 'e', 'f', 'g', 'h'];
    EDrive3(s);
  }

  lemma EDrive1(s: Store<char>)
    requires EightArcs(s)
    ensures Shaped(s, E9()) && Drive(s, E9(), ['d', 'b', 'c', 'e', 'f', 'g', 'h']) == E19()
  {
    DriveSeen(s, E9(), ['d', 'b', 'c', 'e', 'f', 'g', 'h']);
    assert ['d', 'b', 'c', 'e', 'f', 'g', 'h'][1..] == ['b', 'c', 'e', 'f', 'g', 'h'];
    EDrive2(s);
  }

  lemma EDrive0(s: Store<char>)
    requires EightArcs(s)
    ensures Shaped(s, Init()) && Drive(s, Init(), ['a', 'd', 'b', 'c', 'e', 'f', 'g', 'h']) == E19()
  {
    EVisitA(s);
    DriveVisit(s, Init(), ['a', 'd', 'b', 'c', 'e', 'f', 'g', 'h'], E9());
    assert ['a', 'd', 'b', 'c', 'e', 'f', 'g', 'h'][1..] == ['d', 'b', 'c', 'e', 'f', 'g', 'h'];
    EDrive1(s);
  }

  /** The run on any store that EightArcs describes. */
  lemma EightRun(s: Store<char>)
    requires EightArcs(s)
    ensures Components(s) == [['c', 'b', 'd', 'a'], ['e'], ['h', 'g', 'f']]
  {
    EDrive0(s);
  }
  lemma EightMulti(cs: seq<seq<char>>)
    requires cs == [['c', 'b', 'd', 'a'], ['e'], ['h', 'g', 'f']]
    ensures MultiVertex(cs) == [['c', 'b', 'd', 'a'], ['h', 'g', 'f']]
  {
    assert cs[1..] == [['e'], ['h', 'g', 'f']];
    assert cs[1..][1..] == [['h', 'g', 'f']];
    assert cs[1..][1..][1..] == [];
    assert MultiVertex(cs[1..][1..]) == [['h', 'g', 'f']];
    assert MultiVertex(cs[1..]) == [['h', 'g', 'f']];
    assert MultiVertex(cs) == [['c', 'b', 'd', 'a'], ['h', 'g', 'f']];
  }

  // ---------------------------------------------------------------------
  // getCycles on a path

  /** The path a→b→c of the getCycles and isAcyclic tests. */
  function Path(): Store<char> {
    Store(['a', 'b', 'c'],
          map['a' := ['b'], 'b' := ['c'], 'c' := []])
  }
  /** What the run reads of Path(). */
  ghost predicate PathArcs(s: Store<char>) {
    && Valid(s)
    && s.order == ['a', 'b', 'c']
    && 'a' in s.adj && 'b' in s.adj && 'c' in s.adj
    && s.adj['a'] == ['b']
    && s.adj['b'] == ['c']
    && s.adj['c'] == []
  }
  lemma PathKeyed()
    ensures Keyed(Path())
  {
    var o := Path().order;
    assert forall i, j :: 0 <= i < j < |o| ==> o[i] != o[j];
  }
  lemma PathValid()
    ensures Valid(Path())
  {
    PathKeyed();
  }
  lemma PathDescribed()
    ensures PathArcs(Path())
  {
    PathValid();
  }
  /** a numbered 0 and pushed. */
  function P1(): TState<char> { Push(Init(), 'a') }

  /** b numbered 1 and pushed. */
  function P2(): TState<char> { Push(P1(), 'b') }

  /** c numbered 2 and pushed. */
  function P3(): TState<char> { Push(P2(), 'c') }

  /** c closes the component c. */
  function P4(): TState<char> { P3().(stack := ['a', 'b'], comps := P3().comps + [['c']]) }

  /** The same state, written out. */
  function P5(): TState<char> { TState(3, ['a', 'b'],
    map['a' := 0, 'b' := 1, 'c' := 2],
    map['a' := 0, 'b' := 1, 'c' := 2],
    [['c']]) }

  lemma PWrittenC()
    ensures P4() == P5()
  {
    assert P4().index == P5().index;
    assert P4().low == P5().low;
    assert P4().comps == P5().comps;
  }

  lemma PPopCLoop(st: seq<char>)
    requires st == ['a', 'b', 'c']
    ensures PopUntil(st, [], 'c') == (['a', 'b'], ['c'])
  {
    assert st[..2] == ['a', 'b'] && [] + ['c'] == ['c'];
    PopLast(st, [], 'c');
  }

  lemma PPopC()
    ensures Pop(P3(), 'c') == P4()
  {
    PPopCLoop(P3().stack);
  }

  lemma PVisitC(s: Store<char>)
    requires PathArcs(s)
    ensures Shaped(s, P2()) && Visit(s, P2(), 'c') == P5()
  {
    SuccsNil(s, P3(), 'c');
    VisitRoot(s, P2(), 'c', P3());
    PPopC();
    PWrittenC();
  }

  lemma PStepBC(s: Store<char>)
    requires PathArcs(s)
    ensures Shaped(s, P2()) && Step(s, P2(), 'b', 'c') == P5()
  {
    PVisitC(s);
    StepTree(s, P2(), 'b', 'c', P5());
    SameValue(P5().low, 'b');
  }

  lemma PSuccsB0(s: Store<char>)
    requires PathArcs(s)
    ensures Shaped(s, P2()) && Succs(s, P2(), 'b', ['c']) == P5()
  {
    PStepBC(s);
    SuccsCons(s, P2(), 'b', ['c'], P5());
    assert ['c'][1..] == [];
    SuccsNil(s, P5(), 'b');
  }

  /** b closes the component b. */
  function P6(): TState<char> { P5().(stack := ['a'], comps := P5().comps + [['b']]) }

  /** The same state, written out. */
  function P7(): TState<char> { TState(3, ['a'],
    map['a' := 0, 'b' := 1, 'c' := 2],
    map['a' := 0, 'b' := 1, 'c' := 2],
    [['c'], ['b']]) }

  lemma PWrittenB()
    ensures P6() == P7()
  {
    assert P6().index == P7().index;
    assert P6().low == P7().low;
    assert P6().comps == P7().comps;
  }

  lemma PPopBLoop(st: seq<char>)
    requires st == ['a', 'b']
    ensures PopUntil(st, [], 'b') == (['a'], ['b'])
  {
    assert st[..1] == ['a'] && [] + ['b'] == ['b'];
    PopLast(st, [], 'b');
  }

  lemma PPopB()
    ensures Pop(P5(), 'b') == P6()
  {
    PPopBLoop(P5().stack);
  }

  lemma PVisitB(s: Store<char>)
    requires PathArcs(s)
    ensures Shaped(s, P1()) && Visit(s, P1(), 'b') == P7()
  {
    PSuccsB0(s);
    VisitRoot(s, P1(), 'b', P5());
    PPopB();
    PWrittenB();
  }

  lemma PStepAB(s: Store<char>)
    requires PathArcs(s)
    ensures Shaped(s, P1()) && Step(s, P1(), 'a', 'b') == P7()
  {
    PVisitB(s);
    StepTree(s, P1(), 'a', 'b', P7());
    SameValue(P7().low, 'a');
  }

  lemma PSuccsA0(s: Store<char>)
    requires PathArcs(s)
    ensures Shaped(s, P1()) && Succs(s, P1(), 'a', ['b']) == P7()
  {
    PStepAB(s);
    SuccsCons(s, P1(), 'a', ['b'], P7());
    assert ['b'][1..] == [];
    SuccsNil(s, P7(), 'a');
  }

  /** a closes the component a. */
  function P8(): TState<char> { P7().(stack := [], comps := P7().comps + [['a']]) }

  /** The same state, written out. */
  function P9(): TState<char> { TState(3, [],
    map['a' := 0, 'b' := 1, 'c' := 2],
    map['a' := 0, 'b' := 1, 'c' := 2],
    [['c'], ['b'], ['a']]) }

  lemma PWrittenA()
    ensures P8() == P9()
  {
    assert P8().index == P9().index;
    assert P8().low == P9().low;
    assert P8().comps == P9().comps;
  }

  lemma PPopALoop(st: seq<char>)
    requires st == ['a']
    ensures PopUntil(st, [], 'a') == ([], ['a'])
  {
    assert st[..0] == [] && [] + ['a'] == ['a'];
    PopLast(st, [], 'a');
  }

  lemma PPopA()
    ensures Pop(P7(), 'a') == P8()
  {
    PPopALoop(P7().stack);
  }

  lemma PVisitA(s: Store<char>)
    requires PathArcs(s)
    ensures Shaped(s, Init()) && Visit(s, Init(), 'a') == P9()
  {
    PSuccsA0(s);
    VisitRoot(s, Init(), 'a', P7());
    PPopA();
    PWrittenA();
  }

  lemma PDrive2(s: Store<char>)
    requires PathArcs(s)
    ensures Shaped(s, P9()) && Drive(s, P9(), ['c']) == P9()
  {
    DriveSeen(s, P9(), ['c']);
    assert ['c'][1..] == [];
    DriveNil(s, P9());
  }

  lemma PDrive1(s: Store<char>)
    requires PathArcs(s)
    ensures Shaped(s, P9()) && Drive(s, P9(), ['b', 'c']) == P9()
  {
    DriveSeen(s, P9(), ['b', 'c']);
    assert ['b', 'c'][1..] == ['c'];
    PDrive2(s);
  }

  lemma PDrive0(s: Store<char>)
    requires PathArcs(s)
    ensures Shaped(s, Init()) && Drive(s, Init(), ['a', 'b', 'c']) == P9()
  {
    PVisitA(s);
    DriveVisit(s, Init(), ['a', 'b', 'c'], P9());
    assert ['a', 'b', 'c'][1..] == ['b', 'c'];
    PDrive1(s);
  }

  /** The run on any store that PathArcs describes. */
  lemma PathRun(s: Store<char>)
    requires PathArcs(s)
    ensures Components(s) == [['c'], ['b'], ['a']]
  {
    PDrive0(s);
  }
  lemma PathMulti(cs: seq<seq<char>>)
    requires cs == [['c'], ['b'], ['a']]
    ensures MultiVertex(cs) == []
  {
    assert cs[1..] == [['b'], ['a']];
    assert cs[1..][1..] == [['a']];
    assert cs[1..][1..][1..] == [];
    assert MultiVertex(cs[1..][1..]) == [];
    assert MultiVertex(cs[1..]) == [];
    assert MultiVertex(cs) == [];
  }

  // ---------------------------------------------------------------------
  // getCycles on a cycle

  /** The path a→b→c closed into a cycle by the arc c→a. */
  function Loop(): Store<char> {
    Store(['a', 'b', 'c'],
          map['a' := ['b'], 'b' := ['c'], 'c' := ['a']])
  }
  /** What the run reads of Loop(). */
  ghost predicate LoopArcs(s: Store<char>) {
    && Valid(s)
    && s.order == ['a', 'b', 'c']
    && 'a' in s.adj && 'b' in s.adj && 'c' in s.adj
    && s.adj['a'] == ['b']
    && s.adj['b'] == ['c']
    && s.adj['c'] == ['a']
  }
  lemma LoopKeyed()
    ensures Keyed(Loop())
  {
    var o := Loop().order;
    assert forall i, j :: 0 <= i < j < |o| ==> o[i] != o[j];
  }
  lemma LoopValid()
    ensures Valid(Loop())
  {
    LoopKeyed();
  }
  lemma LoopDescribed()
    ensures LoopArcs(Loop())
  {
    LoopValid();
  }
  /** a numbered 0 and pushed. */
  function L1(): TState<char> { Push(Init(), 'a') }

  /** b numbered 1 and pushed. */
  function L2(): TState<char> { Push(L1(), 'b') }

  /** c numbered 2 and pushed. */
  function L3(): TState<char> { Push(L2(), 'c') }

  /** a is on the stack: the low-link of c drops to 0. */
  function L4(): TState<char> { L3().(low := L3().low['c' := 0]) }

  lemma LStepCA(s: Store<char>)
    requires LoopArcs(s)
    ensures Shaped(s, L3()) && Step(s, L3(), 'c', 'a') == L4()
  {
    StepBack(s, L3(), 'c', 'a');
  }

  lemma LSuccsC0(s: Store<char>)
    requires LoopArcs(s)
    ensures Shaped(s, L3()) && Succs(s, L3(), 'c', ['a']) == L4()
  {
    LStepCA(s);
    SuccsCons(s, L3(), 'c', ['a'], L4());
    assert ['a'][1..] == [];
    SuccsNil(s, L4(), 'c');
  }

  lemma LVisitC(s: Store<char>)
    requires LoopArcs(s)
    ensures Shaped(s, L2()) && Visit(s, L2(), 'c') == L4()
  {
    LSuccsC0(s);
    VisitInner(s, L2(), 'c', L4());
  }

  /** back at b from c: the low-link of b drops to 0. */
  function L5(): TState<char> { L4().(low := L4().low['b' := 0]) }

  lemma LStepBC(s: Store<char>)
    requires LoopArcs(s)
    ensures Shaped(s, L2()) && Step(s, L2(), 'b', 'c') == L5()
  {
    LVisitC(s);
    StepTree(s, L2(), 'b', 'c', L4());
  }

  lemma LSuccsB0(s: Store<char>)
    requires LoopArcs(s)
    ensures Shaped(s, L2()) && Succs(s, L2(), 'b', ['c']) == L5()
  {
    LStepBC(s);
    SuccsCons(s, L2(), 'b', ['c'], L5());
    assert ['c'][1..] == [];
    SuccsNil(s, L5(), 'b');
  }

  lemma LVisitB(s: Store<char>)
    requires LoopArcs(s)
    ensures Shaped(s, L1()) && Visit(s, L1(), 'b') == L5()
  {
    LSuccsB0(s);
    VisitInner(s, L1(), 'b', L5());
  }

  lemma LStepAB(s: Store<char>)
    requires LoopArcs(s)
    ensures Shaped(s, L1()) && Step(s, L1(), 'a', 'b') == L5()
  {
    LVisitB(s);
    StepTree(s, L1(), 'a', 'b', L5());
    SameValue(L5().low, 'a');
  }

  lemma LSuccsA0(s: Store<char>)
    requires LoopArcs(s)
    ensures Shaped(s, L1()) && Succs(s, L1(), 'a', ['b']) == L5()
  {
    LStepAB(s);
    SuccsCons(s, L1(), 'a', ['b'], L5());
    assert ['b'][1..] == [];
    SuccsNil(s, L5(), 'a');
  }

  /** a closes the component c, b, a. */
  function L6(): TState<char> { L5().(stack := [], comps := L5().comps + [['c', 'b', 'a']]) }

  /** The same state, written out. */
  function L7(): TState<char> { TState(3, [],
    map['a' := 0, 'b' := 1, 'c' := 2],
    map['a' := 0, 'b' := 0, 'c' := 0],
    [['c', 'b', 'a']]) }

  lemma LWrittenA()
    ensures L6() == L7()
  {
    assert L6().index == L7().index;
    assert L6().low == L7().low;
    assert L6().comps == L7().comps;
  }

  lemma LPopALoop(st: seq<char>)
    requires st == ['a', 'b', 'c']
    ensures PopUntil(st, [], 'a') == ([], ['c', 'b', 'a'])
  {
    assert st[..2] == ['a', 'b'] && [] + ['c'] == ['c'];
    PopOther(st, [], 'a');
    assert st[..2][..1] == ['a'] && ['c'] + ['b'] == ['c', 'b'];
    PopOther(st[..2], ['c'], 'a');
    assert st[..2][..1][..0] == [] && ['c', 'b'] + ['a'] == ['c', 'b', 'a'];
    PopLast(st[..2][..1], ['c', 'b'], 'a');
  }

  lemma LPopA()
    ensures Pop(L5(), 'a') == L6()
  {
    LPopALoop(L5().stack);
  }

  lemma LVisitA(s: Store<char>)
    requires LoopArcs(s)
    ensures Shaped(s, Init()) && Visit(s, Init(), 'a') == L7()
  {
    LSuccsA0(s);
    VisitRoot(s, Init(), 'a', L5());
    LPopA();
    LWrittenA();
  }

  lemma LDrive2(s: Store<char>)
    requires LoopArcs(s)
    ensures Shaped(s, L7()) && Drive(s, L7(), ['c']) == L7()
  {
    DriveSeen(s, L7(), ['c']);
    assert ['c'][1..] == [];
    DriveNil(s, L7());
  }

  lemma LDrive1(s: Store<char>)
    requires LoopArcs(s)
    ensures Shaped(s, L7()) && Drive(s, L7(), ['b', 'c']) == L7()
  {
    DriveSeen(s, L7(), ['b', 'c']);
    assert ['b', 'c'][1..] == ['c'];
    LDrive2(s);
  }

  lemma LDrive0(s: Store<char>)
    requires LoopArcs(s)
    ensures Shaped(s, Init()) && Drive(s, Init(), ['a', 'b', 'c']) == L7()
  {
    LVisitA(s);
    DriveVisit(s, Init(), ['a', 'b', 'c'], L7());
    assert ['a', 'b', 'c'][1..] == ['b', 'c'];
    LDrive1(s);
  }

  /** The run on any store that LoopArcs describes. */
  lemma LoopRun(s: Store<char>)
    requires LoopArcs(s)
    ensures Components(s) == [['c', 'b', 'a']]
  {
    LDrive0(s);
  }
  lemma LoopMulti(cs: seq<seq<char>>)
    requires cs == [['c', 'b', 'a']]
    ensures MultiVertex(cs) == [['c', 'b', 'a']]
  {
    assert cs[1..] == [];
    assert MultiVertex(cs) == [['c', 'b', 'a']];
  }

  // ---------------------------------------------------------------------
  // What the tests expect

  /** tarjan_scc on its test graph finds the components [c, b, d, a], [e]
      and [h, g, f], in that order; the multi-vertex view drops [e]. */
  lemma TarjanSccTest()
    ensures Valid(Eight())
    ensures Components(Eight()) == [['c', 'b', 'd', 'a'], ['e'], ['h', 'g', 'f']]
    ensures MultiVertex(Components(Eight())) == [['c', 'b', 'd', 'a'], ['h', 'g', 'f']]
  {
    EightDescribed();
    EightRun(Eight());
    EightMulti(Components(Eight()));
  }

  /** getCycles finds no cycle on the path a→b→c. */
  lemma GetCyclesPathTest()
    ensures Valid(Path()) && Components(Path()) == [['c'], ['b'], ['a']]
    ensures MultiVertex(Components(Path())) == []
  {
    PathDescribed();
    PathRun(Path());
    PathMulti(Components(Path()));
  }

  /** Once c→a closes the path, getCycles finds the one cycle [c, b, a]. */
  lemma GetCyclesLoopTest()
    ensures Valid(Loop()) && MultiVertex(Components(Loop())) == [['c', 'b', 'a']]
  {
    LoopDescribed();
    LoopRun(Loop());
    LoopMulti(Components(Loop()));
  }
}
