/**
 * Directed graphs over task ids, in the shape of the scheduler's
 * `dependency_graph_`: a map from an id to the set of ids it depends on.
 * An id that is not a key has no outgoing edges, so inserting an empty
 * entry (what `operator[]` does) leaves the edge relation unchanged.
 *
 * This module holds the path and cycle vocabulary the cycle detector is
 * proved against, and the facts used for termination of forced execution.
 */
module Graphs {

  type Graph = map<nat, set<nat>>

  /** The ids `x` has an edge to. */
  function Succ(g: Graph, x: nat): set<nat>
  {
    if x in g then g[x] else {}
  }

  /** Two maps that denote the same edge relation (they may differ in empty entries). */
  ghost predicate SameEdges(g: Graph, h: Graph)
  {
    forall x :: Succ(g, x) == Succ(h, x)
  }

  /** `h` is `g` with, at most, some empty entries added for new keys. */
  ghost predicate GrowsByEmpty(g: Graph, h: Graph)
  {
    && (forall x :: x in g ==> x in h && h[x] == g[x])
    && (forall x :: x in h && x !in g ==> h[x] == {})
  }

  /** `p` is a non-empty walk along edges of `g`. */
  ghost predicate IsPath(g: Graph, p: seq<nat>)
  {
    |p| >= 1 && forall k :: 0 <= k < |p| - 1 ==> p[k + 1] in Succ(g, p[k])
  }

  /** No id reaches itself through one or more edges. */
  ghost predicate Acyclic(g: Graph)
  {
    forall p :: IsPath(g, p) && |p| >= 2 ==> p[0] != p[|p| - 1]
  }

  /** `x` lies on a cycle: some walk of one or more edges leads from `x` back to `x`. */
  ghost predicate OnCycle(g: Graph, x: nat)
  {
    exists p :: IsPath(g, p) && |p| >= 2 && p[0] == x && p[|p| - 1] == x
  }

  /** A walk from `s` whose last id already occurred earlier on it. */
  ghost predicate IsLasso(g: Graph, s: nat, p: seq<nat>)
  {
    IsPath(g, p) && p[0] == s && p[|p| - 1] in p[..|p| - 1]
  }

  /** A cycle is reachable from `s`. */
  ghost predicate ReachesCycle(g: Graph, s: nat)
  {
    exists p :: IsLasso(g, s, p)
  }

  /** Every edge out of `f` stays in `f`. */
  ghost predicate Closed(g: Graph, f: set<nat>)
  {
    forall x :: x in f ==> Succ(g, x) <= f
  }

  /**
   * The invariant of the ids the depth-first search has finished: their
   * successors are finished too, and none of them lies on a cycle.
   */
  ghost predicate Finished(g: Graph, f: set<nat>)
  {
    Closed(g, f) && forall x :: x in f ==> !OnCycle(g, x)
  }

  /** All ids that are the target of some edge. */
  ghost function Targets(g: Graph): set<nat>
  {
    set x, y | x in g && y in g[x] :: y
  }

  ghost predicate Reachable(g: Graph, x: nat, y: nat)
  {
    exists p :: IsPath(g, p) && |p| >= 2 && p[0] == x && p[|p| - 1] == y
  }

  /** The ids reachable from `x` through one or more edges. */
  ghost function Reach(g: Graph, x: nat): set<nat>
  {
    set y | y in Targets(g) && Reachable(g, x, y)
  }

  lemma SuccInTargets(g: Graph, x: nat, y: nat)
    requires y in Succ(g, x)
    ensures y in Targets(g)
  {
  }

  /** The ids a search from `s` can ever touch form a closed set. */
  lemma TargetsClosed(g: Graph, s: nat)
    ensures Closed(g, Targets(g) + {s})
  {
    forall x, y | x in Targets(g) + {s} && y in Succ(g, x)
      ensures y in Targets(g) + {s}
    {
      SuccInTargets(g, x, y);
    }
  }

  lemma PathExtend(g: Graph, p: seq<nat>, y: nat)
    requires IsPath(g, p) && y in Succ(g, p[|p| - 1])
    ensures IsPath(g, p + [y])
  {
    var q := p + [y];
    forall k | 0 <= k < |q| - 1
      ensures q[k + 1] in Succ(g, q[k])
    {
      if k < |p| - 1 {
        assert q[k] == p[k] && q[k + 1] == p[k + 1];
      }
    }
  }

  lemma PathSlice(g: Graph, p: seq<nat>, i: nat, j: nat)
    requires IsPath(g, p) && i < j <= |p|
    ensures IsPath(g, p[i..j])
  {
    var q := p[i..j];
    forall k | 0 <= k < |q| - 1
      ensures q[k + 1] in Succ(g, q[k])
    {
      assert q[k] == p[i + k] && q[k + 1] == p[i + k + 1];
    }
  }

  /** Walking on from the end of `p` along `q` is again a walk. */
  lemma PathJoin(g: Graph, p: seq<nat>, q: seq<nat>)
    requires IsPath(g, p) && IsPath(g, q) && p[|p| - 1] == q[0]
    ensures IsPath(g, p + q[1..])
  {
    var w := p + q[1..];
    forall k | 0 <= k < |w| - 1
      ensures w[k + 1] in Succ(g, w[k])
    {
      if k < |p| - 1 {
        assert w[k] == p[k] && w[k + 1] == p[k + 1];
      } else if k == |p| - 1 {
        assert w[k] == q[0] && w[k + 1] == q[1];
      } else {
        assert w[k] == q[k - |p| + 1] && w[k + 1] == q[k - |p| + 2];
      }
    }
  }

  /** A walk that starts in a closed set never leaves it. */
  lemma {:induction false} PathStaysClosed(g: Graph, f: set<nat>, p: seq<nat>)
    requires Closed(g, f) && IsPath(g, p) && p[0] in f
    ensures forall k :: 0 <= k < |p| ==> p[k] in f
    decreases |p|
  {
    if |p| > 1 {
      assert p[1] in Succ(g, p[0]);
      PathSlice(g, p, 1, |p|);
      PathStaysClosed(g, f, p[1..]);
      forall k | 1 <= k < |p|
        ensures p[k] in f
      {
        assert p[k] == p[1..][k - 1];
      }
    }
  }

  /** A node all of whose successors are in a closed set it is not part of lies on no cycle. */
  lemma NotOnCycle(g: Graph, f: set<nat>, x: nat)
    requires Closed(g, f) && Succ(g, x) <= f && x !in f
    ensures !OnCycle(g, x)
  {
    forall p | IsPath(g, p) && |p| >= 2 && p[0] == x
      ensures p[|p| - 1] != x
    {
      assert p[1] in Succ(g, p[0]);
      PathSlice(g, p, 1, |p|);
      PathStaysClosed(g, f, p[1..]);
      assert p[1..][|p| - 2] == p[|p| - 1];
    }
  }

  /** Finishing a node whose successors are all finished keeps the search invariant. */
  lemma FinishNode(g: Graph, f: set<nat>, x: nat)
    requires Finished(g, f) && Succ(g, x) <= f && x !in f
    ensures Finished(g, f + {x})
  {
    NotOnCycle(g, f, x);
  }

  /** No cycle can be reached from a finished node. */
  lemma NoLassoFromFinished(g: Graph, f: set<nat>, s: nat)
    requires Finished(g, f) && s in f
    ensures !ReachesCycle(g, s)
  {
    forall p | IsPath(g, p) && p[0] == s
      ensures p[|p| - 1] !in p[..|p| - 1]
    {
      PathStaysClosed(g, f, p);
      forall j | 0 <= j < |p| - 1
        ensures p[j] != p[|p| - 1]
      {
        PathSlice(g, p, j, |p|);
        var c := p[j..];
        assert p[j] in f;
        assert c[0] == p[j] && c[|c| - 1] == p[|p| - 1];
      }
    }
  }

  /** A lasso contains a cycle. */
  lemma LassoCycle(g: Graph, s: nat, p: seq<nat>)
    requires IsLasso(g, s, p)
    ensures !Acyclic(g)
  {
    var j :| 0 <= j < |p| - 1 && p[j] == p[|p| - 1];
    PathSlice(g, p, j, |p|);
    var c := p[j..];
    assert IsPath(g, c) && |c| >= 2 && c[0] == c[|c| - 1];
  }

  /** A cycle through `n` gives a lasso from `n`: walk round the cycle starting at `n`. */
  lemma CycleThrough(g: Graph, c: seq<nat>, k: nat, n: nat)
    requires IsPath(g, c) && |c| >= 2 && c[0] == c[|c| - 1]
    requires k < |c| - 1 && c[k] == n
    ensures ReachesCycle(g, n)
  {
    PathSlice(g, c, k, |c|);
    PathSlice(g, c, 0, k + 1);
    var front, back := c[k..], c[..k + 1];
    PathJoin(g, front, back);
    var w := front + back[1..];
    assert w[0] == n;
    assert w[|w| - 1] == n by {
      if k == 0 {
        assert w == front;
      } else {
        assert w[|w| - 1] == back[k];
      }
    }
    assert w[|w| - 1] in w[..|w| - 1] by {
      assert w[..|w| - 1][0] == w[0];
    }
    assert IsLasso(g, n, w);
  }

  /**
   * Adding edges out of one node `n` that had none to an acyclic graph:
   * the result has a cycle exactly when a cycle is reachable from `n`.
   * This is why a search seeded at the new id suffices, even when earlier
   * edges already point at `n`.
   */
  lemma {:induction false} ExtendAcyclic(g: Graph, h: Graph, n: nat)
    requires Acyclic(g) && Succ(g, n) == {}
    requires forall x :: x != n ==> Succ(h, x) == Succ(g, x)
    ensures ReachesCycle(h, n) <==> !Acyclic(h)
  {
    if ReachesCycle(h, n) {
      var p :| IsLasso(h, n, p);
      LassoCycle(h, n, p);
    }
    if !Acyclic(h) {
      var c :| IsPath(h, c) && |c| >= 2 && c[0] == c[|c| - 1];
      if forall k :: 0 <= k < |c| - 1 ==> c[k] != n {
        forall k | 0 <= k < |c| - 1
          ensures c[k + 1] in Succ(g, c[k])
        {
          assert c[k + 1] in Succ(h, c[k]);
        }
        assert IsPath(g, c);
        assert false;
      }
      var k :| 0 <= k < |c| - 1 && c[k] == n;
      CycleThrough(h, c, k, n);
    }
  }

  /** The set a walk reaches shrinks strictly along an edge of an acyclic graph. */
  lemma ReachShrinks(g: Graph, x: nat, d: nat)
    requires Acyclic(g) && d in Succ(g, x)
    ensures Reach(g, d) < Reach(g, x)
    ensures d in Reach(g, x) && x !in Reach(g, d) + {d}
  {
    forall y | y in Reach(g, d)
      ensures y in Reach(g, x)
    {
      var p :| IsPath(g, p) && |p| >= 2 && p[0] == d && p[|p| - 1] == y;
      PathJoin(g, [x, d], p);
      var q := [x, d] + p[1..];
      assert q[0] == x && q[|q| - 1] == y;
      assert Reachable(g, x, y);
    }
    SuccInTargets(g, x, d);
    assert IsPath(g, [x, d]);
    assert Reachable(g, x, d);
    assert [x, d][0] != [x, d][1];
    forall p | IsPath(g, p) && |p| >= 2 && p[0] == d
      ensures p[|p| - 1] != d && p[|p| - 1] != x
    {
      PathJoin(g, [x, d], p);
      var q := [x, d] + p[1..];
      assert q[0] == x && q[|q| - 1] == p[|p| - 1];
    }
    assert d !in Reach(g, d) && d in Reach(g, x);
  }

  /** In an acyclic graph no id reaches itself. */
  lemma NotSelfReach(g: Graph, x: nat)
    requires Acyclic(g)
    ensures x !in Reach(g, x)
  {
    forall p | IsPath(g, p) && |p| >= 2 && p[0] == x
      ensures p[|p| - 1] != x
    {
    }
  }

  /** A graph whose every edge goes to an id of strictly smaller rank has no cycle. */
  lemma RankedIsAcyclic(g: Graph, rank: nat -> int)
    requires forall x: nat, y: nat :: y in Succ(g, x) ==> rank(y) < rank(x)
    ensures Acyclic(g)
  {
    forall p | IsPath(g, p) && |p| >= 2
      ensures p[0] != p[|p| - 1]
    {
      RankedPath(g, rank, p);
    }
  }

  lemma {:induction false} RankedPath(g: Graph, rank: nat -> int, p: seq<nat>)
    requires forall x: nat, y: nat :: y in Succ(g, x) ==> rank(y) < rank(x)
    requires IsPath(g, p) && |p| >= 2
    ensures rank(p[|p| - 1]) < rank(p[0])
    decreases |p|
  {
    assert p[1] in Succ(g, p[0]);
    if |p| > 2 {
      PathSlice(g, p, 1, |p|);
      RankedPath(g, rank, p[1..]);
      assert p[1..][|p| - 2] == p[|p| - 1];
    }
  }
}
