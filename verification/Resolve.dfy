/** Depth-first dependency resolution: a topological order of what the triggers need, or a cycle. */
module Resolve {
  import opened Collections
  import opened RankedGraph

  /** Every edge leads to a node. */
  ghost predicate Whole(g: Graph) {
    forall n, e :: n in g && e in g[n] ==> e in g
  }

  ghost predicate Path(g: Graph, p: seq<string>) {
    && p != []
    && (forall i :: 0 <= i < |p| ==> p[i] in g)
    && forall i :: 0 < i < |p| ==> p[i] in g[p[i - 1]]
  }

  ghost predicate PathTo(g: Graph, p: seq<string>, a: string, b: string) {
    Path(g, p) && p[0] == a && p[|p| - 1] == b
  }

  ghost predicate Reaches(g: Graph, a: string, b: string) {
    exists p :: PathTo(g, p, a, b)
  }

  /** A path from `a` that runs into itself. */
  ghost predicate Lasso(g: Graph, p: seq<string>, a: string) {
    && Path(g, p) && p[0] == a
    && exists i :: 0 <= i < |p| - 1 && p[i] == p[|p| - 1]
  }

  ghost predicate Cyclic(g: Graph, a: string) {
    exists p :: Lasso(g, p, a)
  }

  /** Each node once, and after all its edges. */
  ghost predicate Topological(g: Graph, resolved: seq<string>) {
    && Distinct(resolved)
    && (forall i :: 0 <= i < |resolved| ==> resolved[i] in g)
    && forall i :: 0 <= i < |resolved| ==> forall e :: e in g[resolved[i]] ==> e in resolved[..i]
  }

  /** What is being resolved is a path without repetition. */
  ghost predicate Trail(g: Graph, unresolved: seq<string>) {
    Distinct(unresolved) && (unresolved == [] || Path(g, unresolved))
  }

  ghost predicate FollowsTrail(g: Graph, unresolved: seq<string>, node: string) {
    && Trail(g, unresolved)
    && node in g && node !in unresolved
    && (unresolved != [] ==> node in g[unresolved[|unresolved| - 1]])
  }

  lemma TrailExtends(g: Graph, unresolved: seq<string>, node: string)
    requires FollowsTrail(g, unresolved, node)
    ensures Trail(g, unresolved + [node])
    ensures |unresolved| < |g.Keys|
  {
    var t := unresolved + [node];
    assert forall i :: 0 <= i < |unresolved| ==> t[i] == unresolved[i] && t[i] in unresolved;
    DistinctBound(t, g.Keys);
  }

  lemma {:induction false} DistinctBound(s: seq<string>, x: set<string>)
    requires Distinct(s) && forall e :: e in s ==> e in x
    ensures |s| <= |x|
  {
    if s != [] {
      var n := |s| - 1;
      assert s[n] in s;
      assert forall e :: e in s[..n] ==> e in s && e != s[n];
      DistinctBound(s[..n], x - {s[n]});
    }
  }

  /** Running into the trail closes a cycle. */
  lemma TrailCycle(g: Graph, trail: seq<string>, edge: string)
    requires trail != [] && Path(g, trail)
    requires edge in trail && edge in g[trail[|trail| - 1]]
    ensures Cyclic(g, trail[|trail| - 1])
  {
    var k :| 0 <= k < |trail| && trail[k] == edge;
    var node := trail[|trail| - 1];
    var p := [node] + trail[k..];
    assert forall i :: 0 < i < |p| ==> p[i] == trail[k + i - 1];
    assert p[0] == p[|p| - 1];
    assert Lasso(g, p, node);
  }

  lemma CyclicFrom(g: Graph, node: string, edge: string)
    requires node in g && edge in g[node] && Cyclic(g, edge)
    ensures Cyclic(g, node)
  {
    var p :| Lasso(g, p, edge);
    var i :| 0 <= i < |p| - 1 && p[i] == p[|p| - 1];
    var q := [node] + p;
    assert forall j :: 0 < j < |q| ==> q[j] == p[j - 1];
    assert q[i + 1] == q[|q| - 1];
    assert Lasso(g, q, node);
  }

  lemma ReachesSelf(g: Graph, a: string)
    requires a in g
    ensures Reaches(g, a, a)
  {
    assert PathTo(g, [a], a, a);
  }

  lemma ReachesVia(g: Graph, node: string, edge: string, b: string)
    requires node in g && edge in g[node] && Reaches(g, edge, b)
    ensures Reaches(g, node, b)
  {
    var p :| PathTo(g, p, edge, b);
    var q := [node] + p;
    assert forall j :: 0 < j < |q| ==> q[j] == p[j - 1];
    assert PathTo(g, q, node, b);
  }

  /** In a topological list positions fall along edges, so a path from a listed node stays in the list. */
  lemma {:induction false} PathFalls(g: Graph, resolved: seq<string>, p: seq<string>, k: nat) returns (l: nat)
    requires Topological(g, resolved) && Path(g, p)
    requires k < |resolved| && resolved[k] == p[0]
    ensures l < |resolved| && resolved[l] == p[|p| - 1]
    ensures l + |p| - 1 <= k
  {
    var n := |p| - 1;
    if n == 0 {
      l := k;
    } else {
      var m := PathFalls(g, resolved, p[..n], k);
      assert p[..n][n - 1] == p[n - 1] && p[n] in g[resolved[m]];
      l :| 0 <= l < m && resolved[..m][l] == p[n];
    }
  }

  lemma PathSplits(g: Graph, p: seq<string>, i: nat)
    requires Path(g, p) && i < |p|
    ensures Path(g, p[..i + 1]) && Path(g, p[i..])
  {
    assert forall j :: 0 <= j < |p[i..]| ==> p[i..][j] == p[i + j];
  }

  lemma SamePlace(g: Graph, resolved: seq<string>, l: nat, m: nat)
    requires Topological(g, resolved) && l < |resolved| && m < |resolved| && resolved[l] == resolved[m]
    ensures l == m
  {
  }

  /** Nothing in a topological list leads to a cycle. */
  lemma TopologicalAcyclic(g: Graph, resolved: seq<string>, a: string)
    requires Topological(g, resolved) && a in resolved
    ensures !Cyclic(g, a)
  {
    if p :| Lasso(g, p, a) {
      hide Topological;
      var i :| 0 <= i < |p| - 1 && p[i] == p[|p| - 1];
      var k :| 0 <= k < |resolved| && resolved[k] == a;
      PathSplits(g, p, i);
      var m := PathFalls(g, resolved, p[..i + 1], k);
      var l := PathFalls(g, resolved, p[i..], m);
      SamePlace(g, resolved, l, m);
      assert false;
    }
  }

  /** A topological list contains whatever its members reach. */
  lemma TopologicalClosed(g: Graph, resolved: seq<string>, a: string, b: string)
    requires Topological(g, resolved) && a in resolved && Reaches(g, a, b)
    ensures b in resolved
  {
    var p :| PathTo(g, p, a, b);
    var k :| 0 <= k < |resolved| && resolved[k] == a;
    var l := PathFalls(g, resolved, p, k);
  }

  lemma AppendNode(g: Graph, resolved: seq<string>, node: string)
    requires Topological(g, resolved) && node in g && node !in resolved
    requires forall e :: e in g[node] ==> e in resolved
    ensures Topological(g, resolved + [node])
  {
    var all := resolved + [node];
    assert forall i :: 0 <= i < |resolved| ==> all[i] == resolved[i] && all[..i] == resolved[..i];
    assert all[..|resolved|] == resolved;
  }

  /** Whatever has been added to `before` is reachable from `a`. */
  ghost predicate Adds(g: Graph, before: seq<string>, after: seq<string>, a: string) {
    && before <= after
    && forall i :: |before| <= i < |after| ==> Reaches(g, a, after[i])
  }

  lemma AddsVia(g: Graph, before: seq<string>, mid: seq<string>, after: seq<string>, node: string, edge: string)
    requires node in g && edge in g[node]
    requires Adds(g, before, mid, node) && Adds(g, mid, after, edge)
    ensures Adds(g, before, after, node)
  {
    forall i | |before| <= i < |after|
      ensures Reaches(g, node, after[i])
    {
      if i >= |mid| {
        ReachesVia(g, node, edge, after[i]);
      } else {
        assert after[i] == mid[i];
      }
    }
  }

  lemma PrefixMembers(a: seq<string>, b: seq<string>)
    requires a <= b
    ensures forall x :: x in a ==> x in b
  {
  }

  class Resolver {
    var resolved: seq<string>
    var unresolved: seq<string>

    constructor ()
      ensures resolved == [] && unresolved == []
    {
      resolved, unresolved := [], [];
    }

    /**
     * Resolves `node` and what it needs. Fails exactly when `node` leads to a cycle; otherwise the
     * list of resolved nodes has grown by nodes that `node` reaches, itself among them.
     */
    method DepResolve(g: Graph, node: string) returns (ok: bool)
      requires Whole(g) && Topological(g, resolved)
      requires FollowsTrail(g, unresolved, node)
      modifies this
      ensures ok <==> !Cyclic(g, node)
      ensures ok ==>
                && unresolved == old(unresolved)
                && Topological(g, resolved)
                && Adds(g, old(resolved), resolved, node)
                && node in resolved
      decreases |g.Keys| - |unresolved|
    {
      hide Topological, Trail, Adds, Cyclic, Distinct;
      TrailExtends(g, unresolved, node);
      ghost var trail := unresolved + [node];
      unresolved := unresolved + [node];
      AddsNothing(g, resolved, node);
      for i := 0 to |g[node]|
        invariant unresolved == trail
        invariant Topological(g, resolved)
        invariant Adds(g, old(resolved), resolved, node)
        invariant forall k :: 0 <= k < i ==> g[node][k] in resolved
      {
        var edge := g[node][i];
        if edge !in resolved {
          if edge in unresolved {
            TrailPath(g, trail);
            TrailCycle(g, trail, edge);
            return false;
          }
          ghost var mid := resolved;
          var found := DepResolve(g, edge);
          if !found {
            CyclicFrom(g, node, edge);
            return false;
          }
          AddsVia(g, old(resolved), mid, resolved, node, edge);
          AddsMembers(g, mid, resolved, edge);
        }
      }
      if node !in resolved {
        AppendNode(g, resolved, node);
        AddsSelf(g, old(resolved), resolved, node);
        resolved := resolved + [node];
      }
      TopologicalAcyclic(g, resolved, node);
      unresolved := unresolved[..|unresolved| - 1];
      return true;
    }
  }

  lemma AddsNothing(g: Graph, resolved: seq<string>, a: string)
    ensures Adds(g, resolved, resolved, a)
  {
  }

  lemma TrailPath(g: Graph, trail: seq<string>)
    requires Trail(g, trail) && trail != []
    ensures Path(g, trail)
  {
  }

  lemma AddsMembers(g: Graph, before: seq<string>, after: seq<string>, a: string)
    requires Adds(g, before, after, a)
    ensures forall x :: x in before ==> x in after
  {
    PrefixMembers(before, after);
  }

  lemma AddsSelf(g: Graph, before: seq<string>, after: seq<string>, node: string)
    requires node in g && Adds(g, before, after, node)
    ensures Adds(g, before, after + [node], node)
  {
    ReachesSelf(g, node);
    var all := after + [node];
    assert forall i :: 0 <= i < |after| ==> all[i] == after[i];
  }
}
