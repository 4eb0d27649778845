/** Paths, reachability and cycles in a vertex store: what the algorithms'
    results are about. */
module StorePaths {
  import opened Common
  import opened AdjacencyStore

  /** p is a nonempty walk along arcs of s. */
  ghost predicate IsPath<V(!new)>(s: Store<V>, p: seq<V>) {
    && p != []
    && (forall i :: 0 <= i < |p| ==> p[i] in s.adj)
    && (forall i :: 0 <= i < |p| - 1 ==> ArcAt(s, p, i))
  }

  /** The i-th step of p is an arc. */
  ghost predicate ArcAt<V(!new)>(s: Store<V>, p: seq<V>, i: nat)
    requires i < |p| - 1
  {
    p[i] in s.adj && p[i + 1] in s.adj[p[i]]
  }

  /** Some path leads from u to v; every vertex reaches itself. */
  ghost predicate Reaches<V(!new)>(s: Store<V>, u: V, v: V) {
    exists p :: IsPath(s, p) && p[0] == u && p[|p| - 1] == v
  }

  /** A path whose last vertex has an arc back to its first; a vertex
      with an arc to itself is a cycle of length one. */
  ghost predicate IsCycle<V(!new)>(s: Store<V>, p: seq<V>) {
    IsPath(s, p) && p[0] in s.adj[p[|p| - 1]]
  }

  ghost predicate HasCycle<V(!new)>(s: Store<V>) {
    exists p :: IsCycle(s, p)
  }

  /** u and v reach each other. */
  ghost predicate Strong<V(!new)>(s: Store<V>, u: V, v: V) {
    Reaches(s, u, v) && Reaches(s, v, u)
  }

  lemma ReachRefl<V(!new)>(s: Store<V>, u: V)
    requires u in s.adj
    ensures Reaches(s, u, u)
  {
    assert IsPath(s, [u]);
  }

  lemma ReachArc<V(!new)>(s: Store<V>, u: V, w: V)
    requires Closed(s) && u in s.adj && w in s.adj[u]
    ensures Reaches(s, u, w)
  {
    assert ArcAt(s, [u, w], 0);
    assert IsPath(s, [u, w]);
  }

  lemma ReachTrans<V(!new)>(s: Store<V>, u: V, v: V, w: V)
    requires Reaches(s, u, v) && Reaches(s, v, w)
    ensures Reaches(s, u, w)
  {
    var p :| IsPath(s, p) && p[0] == u && p[|p| - 1] == v;
    var q :| IsPath(s, q) && q[0] == v && q[|q| - 1] == w;
    var r := p + q[1..];
    forall i | 0 <= i < |r| - 1
      ensures ArcAt(s, r, i)
    {
      if i < |p| - 1 {
        assert ArcAt(s, p, i);
      } else if i == |p| - 1 {
        assert ArcAt(s, q, 0);
        assert r[i] == q[0] && r[i + 1] == q[1];
      } else {
        assert ArcAt(s, q, i - |p| + 1);
        assert r[i] == q[i - |p| + 1] && r[i + 1] == q[i - |p| + 2];
      }
    }
    forall i | 0 <= i < |r| ensures r[i] in s.adj {
      if i >= |p| { assert r[i] == q[i - |p| + 1]; }
    }
    assert IsPath(s, r);
  }

  /** Reaching along an arc and then a path. */
  lemma ReachArcThen<V(!new)>(s: Store<V>, u: V, w: V, v: V)
    requires Closed(s) && u in s.adj && w in s.adj[u] && Reaches(s, w, v)
    ensures Reaches(s, u, v)
  {
    ReachArc(s, u, w);
    ReachTrans(s, u, w, v);
  }

  /** Every vertex on a path is a vertex of the store and reaches the
      end. */
  lemma PathReachesEnd<V(!new)>(s: Store<V>, p: seq<V>, i: nat)
    requires Closed(s) && IsPath(s, p) && i < |p|
    ensures Reaches(s, p[i], p[|p| - 1])
  {
    var q := p[i..];
    assert IsPath(s, q) by {
      forall k | 0 <= k < |q| - 1 ensures ArcAt(s, q, k) {
        assert ArcAt(s, p, i + k);
        assert q[k] == p[i + k] && q[k + 1] == p[i + k + 1];
      }
    }
  }

  /** A measure that never rises along an arc never rises along a path. */
  lemma {:induction false} PathMonotone<V(!new)>(s: Store<V>, p: seq<V>, f: V -> int)
    requires IsPath(s, p)
    requires forall i :: 0 <= i < |p| - 1 ==> f(p[i + 1]) <= f(p[i])
    ensures f(p[|p| - 1]) <= f(p[0])
    decreases |p|
  {
    if |p| > 1 {
      var q := p[1..];
      assert IsPath(s, q) by {
        forall k | 0 <= k < |q| - 1 ensures ArcAt(s, q, k) {
          assert ArcAt(s, p, k + 1);
          assert q[k] == p[k + 1] && q[k + 1] == p[k + 2];
        }
      }
      forall i | 0 <= i < |q| - 1 ensures f(q[i + 1]) <= f(q[i]) {
        assert q[i] == p[i + 1] && q[i + 1] == p[i + 2];
      }
      PathMonotone(s, q, f);
    }
  }

  /** A cycle can be rotated to start at any of its vertices. */
  lemma CycleAt<V(!new)>(s: Store<V>, p: seq<V>, i: nat) returns (c: seq<V>)
    requires Closed(s) && IsCycle(s, p) && i < |p|
    ensures IsCycle(s, c) && c[0] == p[i] && |c| == |p|
    ensures forall x :: x in c ==> x in p
  {
    c := p[i..] + p[..i];
    forall k | 0 <= k < |c| - 1 ensures ArcAt(s, c, k) {
      if k < |p| - i - 1 {
        assert ArcAt(s, p, i + k);
        assert c[k] == p[i + k] && c[k + 1] == p[i + k + 1];
      } else if k == |p| - i - 1 {
        assert c[k] == p[|p| - 1] && c[k + 1] == p[0];
      } else {
        assert ArcAt(s, p, k - (|p| - i));
        assert c[k] == p[k - (|p| - i)] && c[k + 1] == p[k + 1 - (|p| - i)];
      }
    }
    forall k | 0 <= k < |c| ensures c[k] in s.adj {
      if k < |p| - i { assert c[k] == p[i + k]; } else { assert c[k] == p[k - (|p| - i)]; }
    }
    if i > 0 {
      assert ArcAt(s, p, i - 1);
      assert c[|c| - 1] == p[i - 1];
      assert c[0] == p[i];
    } else {
      assert c == p;
    }
    forall x | x in c ensures x in p {
      var k :| 0 <= k < |c| && c[k] == x;
      if k < |p| - i { assert c[k] == p[i + k]; } else { assert c[k] == p[k - (|p| - i)]; }
    }
  }
}
