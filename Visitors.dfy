/** The depth-first visitors: the events a traversal reports, the hooks each
    visitor runs on them, and the visitor classes whose hooks update their
    fields. DepthFirstBasicVisitor and DFSBasicVisitor have the same hooks
    and are one class here; DFSNoOpVisitor has no state and is the NoOp
    variant. */
module Visitors {
  import opened Common

  /** One call a traversal makes on its visitor or handlers. */
  datatype Event<V> =
    | Init(v: V, source: bool)      // onInitializeVertex
    | Back(v: V)                    // onBackEdge
    | Start(v: V)                   // onStartVertex
    | Examine(from: V, to: V)       // onExamineEdge
    | Finish(v: V)                  // onFinishVertex

  datatype Kind = InitializeVertex | BackEdge | StartVertex | ExamineEdge | FinishVertex

  function KindOf<V>(e: Event<V>): Kind {
    match e
    case Init(_, _) => InitializeVertex
    case Back(_) => BackEdge
    case Start(_) => StartVertex
    case Examine(_, _) => ExamineEdge
    case Finish(_) => FinishVertex
  }

  /** The events that reach a handler: those of a kind that has one. */
  function Delivered<V>(es: seq<Event<V>>, handlers: set<Kind>): (r: seq<Event<V>>)
    ensures forall e :: e in r ==> e in es && KindOf(e) in handlers
    ensures forall e :: e in es && KindOf(e) in handlers ==> e in r
  {
    Filter(es, e => KindOf(e) in handlers)
  }

  /** The vertices finished, in finishing order. */
  function Finishes<V>(es: seq<Event<V>>): (r: seq<V>)
    ensures forall v :: v in r ==> Finish(v) in es
    ensures forall i :: 0 <= i < |es| && es[i].Finish? ==> es[i].v in r
  {
    if es == [] then []
    else (if es[0].Finish? then [es[0].v] else []) + Finishes(es[1..])
  }

  lemma {:induction false} FinishesAppend<V>(es: seq<Event<V>>, e: Event<V>)
    ensures Finishes(es + [e]) == Finishes(es) + (if e.Finish? then [e.v] else [])
  {
    if es == [] {
      assert [e][1..] == [];
    } else {
      assert (es + [e])[1..] == es[1..] + [e];
      FinishesAppend(es[1..], e);
    }
  }

  predicate HasBackEdge<V>(es: seq<Event<V>>) {
    exists i :: 0 <= i < |es| && es[i].Back?
  }

  /** With a handler for back edges only, some call is made exactly when a
      back edge is reported. */
  lemma DeliveredBackEdges<V>(es: seq<Event<V>>)
    ensures Delivered(es, {BackEdge}) == [] <==> !HasBackEdge(es)
  {
    var r := Delivered(es, {BackEdge});
    if HasBackEdge(es) {
      var i :| 0 <= i < |es| && es[i].Back?;
      assert es[i] in r;
    }
    if r != [] {
      assert r[0] in es;
      var i :| 0 <= i < |es| && es[i] == r[0];
    }
  }

  /** What each visitor keeps: nothing; the finishing list; or the active
      set, a path queue per vertex and the finishing list. */
  datatype Visitor<V> =
    | NoOp
    | Toposort(tsl: seq<V>)
    | Basic(active: seq<V>, paths: map<V, seq<V>>, tsl: seq<V>)

  /** onExamineEdge of the basic visitor: `to` is enqueued on the path of
      every active vertex. */
  function EnqueueAll<V>(paths: map<V, seq<V>>, active: seq<V>, to: V): (r: map<V, seq<V>>)
    requires forall x :: x in active ==> x in paths
    ensures r.Keys == paths.Keys
    ensures forall x :: x in paths ==> r[x] == if x in active then paths[x] + [to] else paths[x]
  {
    map x | x in paths :: if x in active then paths[x] + [to] else paths[x]
  }

  /** One hook call. Toposort and Basic throw a RuntimeException on a back
      edge; NoOp does nothing at all. */
  function Hook<V>(vis: Visitor<V>, e: Event<V>): (r: Result<Visitor<V>>)
    ensures vis.NoOp? ==> r == Ok(NoOp)
    ensures !vis.NoOp? && e.Back? ==> r == Err(Runtime)
    ensures vis.Toposort? && e.Finish? ==> r == Ok(Toposort(vis.tsl + [e.v]))
    ensures vis.Toposort? && !e.Back? && !e.Finish? ==> r == Ok(vis)
    ensures vis.Basic? && r.Ok? ==> r.value.Basic?
    ensures vis.Basic? && e.Finish? ==> r.Ok? && r.value.tsl == vis.tsl + [e.v]
    ensures vis.Basic? && r.Ok? && !e.Finish? ==> r.value.tsl == vis.tsl
  {
    match vis
    case NoOp => Ok(NoOp)
    case Toposort(tsl) =>
      (match e
       case Back(_) => Err(Runtime)
       case Finish(v) => Ok(Toposort(tsl + [v]))
       case _ => Ok(vis))
    case Basic(active, paths, tsl) =>
      (match e
       case Back(_) => Err(Runtime)
       case Init(v, _) => Ok(Basic(active, paths[v := []], tsl))
       case Start(v) => Ok(Basic(Attach(active, v), if v in paths then paths else paths[v := []], tsl))
       case Examine(_, to) =>
         if forall x :: x in active ==> x in paths
         then Ok(Basic(active, EnqueueAll(paths, active, to), tsl))
         else Err(UnexpectedValue)
       case Finish(v) => Ok(Basic(active, paths, tsl + [v])))
  }

  /** A traversal delivering es to the visitor: hook after hook until one
      throws, which ends the traversal. */
  function RunVisitor<V>(vis: Visitor<V>, es: seq<Event<V>>): Result<Visitor<V>>
    decreases |es|
  {
    if es == [] then Ok(vis)
    else match Hook(vis, es[0])
      case Err(err) => Err(err)
      case Ok(next) => RunVisitor(next, es[1..])
  }

  /** The no-op visitor never aborts a traversal and never changes. */
  lemma {:induction false} NoOpNeverAborts<V>(es: seq<Event<V>>)
    ensures RunVisitor(NoOp, es) == Ok(NoOp)
  {
    if es != [] {
      NoOpNeverAborts(es[1..]);
    }
  }

  /** The toposort visitor aborts exactly when a back edge is reported, and
      otherwise has appended the finished vertices in finishing order. */
  lemma {:induction false} ToposortCollects<V>(tsl: seq<V>, es: seq<Event<V>>)
    ensures HasBackEdge(es) <==> RunVisitor(Toposort(tsl), es) == Err(Runtime)
    ensures !HasBackEdge(es) ==> RunVisitor(Toposort(tsl), es) == Ok(Toposort(tsl + Finishes(es)))
    decreases |es|
  {
    if es != [] {
      var head := if es[0].Finish? then [es[0].v] else [];
      assert tsl + Finishes(es) == (tsl + head) + Finishes(es[1..]);
      assert tsl + [] == tsl;
      assert Hook(Toposort(tsl), es[0]) == if es[0].Back? then Err(Runtime) else Ok(Toposort(tsl + head));
      if es[0].Back? {
        assert 0 <= 0 < |es| && es[0].Back?;
      }
      ToposortCollects(tsl + if es[0].Finish? then [es[0].v] else [], es[1..]);
      if HasBackEdge(es[1..]) {
        var i :| 0 <= i < |es[1..]| && es[1..][i].Back?;
        assert es[i + 1].Back?;
      }
      if HasBackEdge(es) && !es[0].Back? {
        var i :| 0 <= i < |es| && es[i].Back?;
        assert es[1..][i - 1].Back?;
      }
    }
  }

  /** The basic visitor keeps every active vertex's path: the set of
      active vertices only grows, each of them has a path queue, and no
      hook other than onInitializeVertex ever shortens a path. */
  ghost predicate BasicValid<V>(vis: Visitor<V>) {
    vis.Basic? && NoDup(vis.active) && forall x :: x in vis.active ==> x in vis.paths
  }

  lemma BasicHookKeeps<V>(vis: Visitor<V>, e: Event<V>)
    requires BasicValid(vis) && !e.Back?
    ensures Hook(vis, e).Ok?
    ensures var r := Hook(vis, e).value;
      && BasicValid(r)
      && (forall x :: x in vis.active ==> x in r.active)
      && (forall x :: x in r.active ==> x in vis.active || (e.Start? && x == e.v))
      && (forall x :: x in vis.paths && !(e.Init? && x == e.v) ==>
            x in r.paths && vis.paths[x] <= r.paths[x])
      && (e.Examine? ==> forall x :: x in vis.paths && x !in vis.active ==> r.paths[x] == vis.paths[x])
  {
  }

  /** Over a whole traversal without back edges the basic visitor stays
      valid, its active set only grows, and its finishing list gains the
      finished vertices in order. */
  lemma {:induction false} BasicRun<V>(vis: Visitor<V>, es: seq<Event<V>>)
    requires BasicValid(vis) && !HasBackEdge(es)
    ensures RunVisitor(vis, es).Ok?
    ensures var r := RunVisitor(vis, es).value;
      && BasicValid(r)
      && (forall x :: x in vis.active ==> x in r.active)
      && r.tsl == vis.tsl + Finishes(es)
    decreases |es|
  {
    if es != [] {
      var head := if es[0].Finish? then [es[0].v] else [];
      assert vis.tsl + Finishes(es) == (vis.tsl + head) + Finishes(es[1..]);
      assert !es[0].Back? by { assert !(0 <= 0 < |es| && es[0].Back?); }
      BasicHookKeeps(vis, es[0]);
      var next := Hook(vis, es[0]).value;
      assert !HasBackEdge(es[1..]) by {
        forall i | 0 <= i < |es[1..]| ensures !es[1..][i].Back? {
          assert es[1..][i] == es[i + 1];
        }
      }
      BasicRun(next, es[1..]);
    }
  }

  /** Gliph\Visitor\DepthFirstToposortVisitor. */
  class ToposortVisitor<V> {
    var tsl: seq<V>

    constructor ()
      ensures tsl == []
    {
      tsl := [];
    }

    method OnBackEdge(v: V) returns (outcome: Outcome)
      ensures outcome == Fail(Runtime)
      ensures Hook(Toposort(tsl), Back(v)) == Err(outcome.error)
    {
      outcome := Fail(Runtime);
    }

    method OnInitializeVertex(v: V, source: bool)
      ensures Hook(Toposort(tsl), Init(v, source)) == Ok(Toposort(tsl))
    {
    }

    method OnStartVertex(v: V)
      ensures Hook(Toposort(tsl), Start(v)) == Ok(Toposort(tsl))
    {
    }

    method OnExamineEdge(from: V, to: V)
      ensures Hook(Toposort(tsl), Examine(from, to)) == Ok(Toposort(tsl))
    {
    }

    method OnFinishVertex(v: V)
      modifies this
      ensures tsl == old(tsl) + [v]
      ensures Hook(Toposort(old(tsl)), Finish(v)) == Ok(Toposort(tsl))
    {
      tsl := tsl + [v];
    }

    method GetTsl() returns (r: seq<V>)
      ensures r == tsl
    {
      r := tsl;
    }
  }

  /** Gliph\Visitor\DepthFirstBasicVisitor and its copy DFSBasicVisitor. */
  class BasicVisitor<V(==)> {
    var active: seq<V>
    var paths: map<V, seq<V>>
    var tsl: seq<V>

    function State(): Visitor<V>
      reads this
    {
      Basic(active, paths, tsl)
    }

    ghost predicate Valid()
      reads this
    {
      BasicValid(State())
    }

    constructor ()
      ensures Valid() && active == [] && paths == map[] && tsl == []
    {
      active := [];
      paths := map[];
      tsl := [];
    }

    method OnBackEdge(v: V) returns (outcome: Outcome)
      ensures outcome == Fail(Runtime)
      ensures Hook(State(), Back(v)) == Err(outcome.error)
    {
      outcome := Fail(Runtime);
    }

    /** A fresh, empty path queue for v, replacing any it had. */
    method OnInitializeVertex(v: V, source: bool)
      requires Valid()
      modifies this
      ensures Valid()
      ensures Hook(old(State()), Init(v, source)) == Ok(State())
    {
      paths := paths[v := []];
    }

    /** v becomes active, and gets a path queue unless it has one. */
    method OnStartVertex(v: V)
      requires Valid()
      modifies this
      ensures Valid()
      ensures Hook(old(State()), Start(v)) == Ok(State())
    {
      active := Attach(active, v);
      if v !in paths {
        paths := paths[v := []];
      }
    }

    /** The loop over the active set: `to` joins each active vertex's path. */
    method OnExamineEdge(from: V, to: V)
      requires Valid()
      modifies this
      ensures Valid()
      ensures Hook(old(State()), Examine(from, to)) == Ok(State())
    {
      ghost var p0 := paths;
      ghost var a0 := active;
      ghost var t0 := tsl;
      var i := 0;
      while i < |active|
        invariant 0 <= i <= |active|
        invariant active == a0 && tsl == t0
        invariant paths.Keys == p0.Keys
        invariant forall x :: x in p0 ==>
          paths[x] == if x in active[..i] then p0[x] + [to] else p0[x]
      {
        var x := active[i];
        assert x !in active[..i] by {
          forall j | 0 <= j < i ensures active[..i][j] != x {
            assert active[j] != active[i];
          }
        }
        assert active[..i + 1] == active[..i] + [x];
        paths := paths[x := paths[x] + [to]];
        i := i + 1;
      }
      assert active[..i] == active;
      assert paths == EnqueueAll(p0, active, to);
    }

    method OnFinishVertex(v: V)
      requires Valid()
      modifies this
      ensures Valid()
      ensures Hook(old(State()), Finish(v)) == Ok(State())
    {
      tsl := tsl + [v];
    }
  }
}
