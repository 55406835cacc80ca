/**
 * Finite successor lists without cycles. A rank that falls along every edge is
 * the witness that walking the graph, as the recursive walks of the build
 * system do, comes to an end.
 */
module RankedGraph {

  type Graph = map<string, seq<string>>

  ghost predicate Ranked(g: Graph, rank: map<string, nat>) {
    && g.Keys <= rank.Keys
    && forall p, q :: p in g && q in g[p] && q in g ==> rank[q] < rank[p]
  }

  ghost function Level(g: Graph, rank: map<string, nat>, p: string): nat
    requires Ranked(g, rank)
  {
    if p in g then rank[p] + 1 else 0
  }

  /** One more than the highest level among `ps`. */
  ghost function Height(g: Graph, rank: map<string, nat>, ps: seq<string>): (h: nat)
    requires Ranked(g, rank)
    ensures forall p :: p in ps ==> Level(g, rank, p) < h
    ensures h > 0 ==> exists p :: p in ps && Level(g, rank, p) + 1 == h
  {
    if ps == [] then 0
    else
      var l, h := Level(g, rank, ps[0]) + 1, Height(g, rank, ps[1..]);
      assert ps == [ps[0]] + ps[1..];
      if l > h then l else h
  }

  lemma HeightOfSuccessors(g: Graph, rank: map<string, nat>, p: string)
    requires Ranked(g, rank) && p in g
    ensures Height(g, rank, g[p]) <= Level(g, rank, p)
  {
    assert forall q :: q in g[p] ==> Level(g, rank, q) < Level(g, rank, p);
  }

  /** How many paths lead from `p` to `q`, counting the empty path. */
  ghost function Paths(g: Graph, rank: map<string, nat>, p: string, q: string): nat
    requires Ranked(g, rank)
    decreases Level(g, rank, p)
  {
    (if p == q then 1 else 0) +
    (if p in g then HeightOfSuccessors(g, rank, p); PathsFrom(g, rank, g[p], q) else 0)
  }

  ghost function PathsFrom(g: Graph, rank: map<string, nat>, ps: seq<string>, q: string): nat
    requires Ranked(g, rank)
    decreases Height(g, rank, ps), |ps|
  {
    if ps == [] then 0
    else Paths(g, rank, ps[0], q) + PathsFrom(g, rank, ps[1..], q)
  }

  lemma {:induction false} PathsFromSnoc(g: Graph, rank: map<string, nat>, ps: seq<string>, p: string, q: string)
    requires Ranked(g, rank)
    ensures PathsFrom(g, rank, ps + [p], q) == PathsFrom(g, rank, ps, q) + Paths(g, rank, p, q)
  {
    if ps == [] {
      assert (ps + [p])[1..] == [];
    } else {
      PathsFromSnoc(g, rank, ps[1..], p, q);
      assert (ps + [p])[1..] == ps[1..] + [p];
    }
  }

  lemma {:induction false} PathsFromPositive(g: Graph, rank: map<string, nat>, ps: seq<string>, q: string)
    requires Ranked(g, rank)
    ensures PathsFrom(g, rank, ps, q) > 0 <==> exists p :: p in ps && Paths(g, rank, p, q) > 0
  {
    if ps != [] {
      PathsFromPositive(g, rank, ps[1..], q);
      if p :| p in ps && Paths(g, rank, p, q) > 0 {
        assert p == ps[0] || p in ps[1..];
      }
      if p :| p in ps[1..] && Paths(g, rank, p, q) > 0 {
        assert p in ps;
      }
    }
  }

  // ---- What is counted ----

  ghost predicate Edge(g: Graph, a: string, b: string) {
    a in g && b in g[a]
  }

  /** A chain of successors from `a` to `b`. */
  ghost predicate Chain(g: Graph, path: seq<string>, a: string, b: string) {
    && path != [] && path[0] == a && path[|path| - 1] == b
    && forall i :: 0 < i < |path| ==> Edge(g, path[i - 1], path[i])
  }

  lemma ChainHead(g: Graph, path: seq<string>, a: string, b: string)
    requires Chain(g, path, a, b)
    ensures |path| <= 1 ==> a == b
    ensures |path| > 1 ==> Edge(g, a, path[1]) && Chain(g, path[1..], path[1], b)
  {
  }

  lemma ChainOn(g: Graph, path: seq<string>, p: string, x: string, q: string)
    requires Edge(g, p, x) && Chain(g, path, x, q)
    ensures Chain(g, [p] + path, p, q)
  {
  }

  /** There is a path exactly if there is a chain of successors. */
  lemma {:induction false} PathsAreChains(g: Graph, rank: map<string, nat>, p: string, q: string)
    requires Ranked(g, rank)
    ensures Paths(g, rank, p, q) > 0 <==> exists path :: Chain(g, path, p, q)
    decreases Level(g, rank, p)
  {
    hide Chain, PathsFrom;
    if p in g {
      PathsFromPositive(g, rank, g[p], q);
      forall x | x in g[p]
        ensures Paths(g, rank, x, q) > 0 <==> exists path :: Chain(g, path, x, q)
      {
        PathsAreChains(g, rank, x, q);
      }
    }
    if p == q {
      ChainOfOne(g, p);
    } else if Paths(g, rank, p, q) > 0 {
      var x :| x in g[p] && Paths(g, rank, x, q) > 0;
      var path :| Chain(g, path, x, q);
      ChainOn(g, path, p, x, q);
    } else if path :| Chain(g, path, p, q) {
      ChainHead(g, path, p, q);
      assert false;
    }
  }

  lemma ChainOfOne(g: Graph, p: string)
    ensures Chain(g, [p], p, p)
  {
  }

  /** From `p`, taking at each node the successor at the next of the places `steps`, one comes to `q`. */
  ghost predicate Walks(g: Graph, p: string, steps: seq<nat>, q: string)
    decreases |steps|
  {
    if steps == [] then p == q else p in g && steps[0] < |g[p]| && Walks(g, g[p][steps[0]], steps[1..], q)
  }

  ghost predicate WalksFrom(g: Graph, ps: seq<string>, steps: seq<nat>, q: string) {
    steps != [] && steps[0] < |ps| && Walks(g, ps[steps[0]], steps[1..], q)
  }

  /** The number of paths is that of the ways to choose successors; one that is listed twice counts twice. */
  lemma {:induction false} PathsCount(g: Graph, rank: map<string, nat>, p: string, q: string)
    returns (ways: set<seq<nat>>)
    requires Ranked(g, rank)
    ensures forall steps :: steps in ways <==> Walks(g, p, steps, q)
    ensures |ways| == Paths(g, rank, p, q)
    decreases Level(g, rank, p)
  {
    ways := {};
    if p in g {
      HeightOfSuccessors(g, rank, p);
      ways := PathsFromCount(g, rank, g[p], q);
    }
    if p == q {
      ways := ways + {[]};
    }
  }

  lemma {:induction false} PathsFromCount(g: Graph, rank: map<string, nat>, ps: seq<string>, q: string)
    returns (ways: set<seq<nat>>)
    requires Ranked(g, rank)
    ensures forall steps :: steps in ways <==> WalksFrom(g, ps, steps, q)
    ensures |ways| == PathsFrom(g, rank, ps, q)
    decreases Height(g, rank, ps), |ps|
  {
    hide Paths, PathsFrom, Height, Level, Ranked, Walks;
    if ps == [] {
      NoStart(g, rank, q);
      ways := {};
    } else {
      var n := |ps| - 1;
      FewerLower(g, rank, ps);
      var before := PathsFromCount(g, rank, ps[..n], q);
      var last := PathsCount(g, rank, ps[n], q);
      ways := before + Ending(last, n);
      assert ps == ps[..n] + [ps[n]];
      PathsFromSnoc(g, rank, ps[..n], ps[n], q);
      OneMoreStart(g, ps, q, before, last);
    }
  }

  lemma NoStart(g: Graph, rank: map<string, nat>, q: string)
    requires Ranked(g, rank)
    ensures PathsFrom(g, rank, [], q) == 0
  {
  }

  lemma OneMoreStart(g: Graph, ps: seq<string>, q: string, before: set<seq<nat>>, last: set<seq<nat>>)
    requires ps != []
    requires forall steps :: steps in before <==> WalksFrom(g, ps[..|ps| - 1], steps, q)
    requires forall steps :: steps in last <==> Walks(g, ps[|ps| - 1], steps, q)
    ensures forall steps :: steps in before + Ending(last, |ps| - 1) <==> WalksFrom(g, ps, steps, q)
    ensures |before + Ending(last, |ps| - 1)| == |before| + |last|
  {
    hide Ending, Walks;
    var n := |ps| - 1;
    forall steps: seq<nat>
      ensures steps in Ending(last, n) <==> steps != [] && steps[0] == n && steps[1..] in last
    {
      EndingIs(last, n, steps);
    }
    Prefixed(last, n);
    assert before !! Ending(last, n);
  }

  ghost function Ending(ways: set<seq<nat>>, n: nat): set<seq<nat>> {
    set steps | steps in ways :: [n] + steps
  }

  lemma EndingIs(ways: set<seq<nat>>, n: nat, steps: seq<nat>)
    ensures steps in Ending(ways, n) <==> steps != [] && steps[0] == n && steps[1..] in ways
  {
    if steps != [] && steps[0] == n && steps[1..] in ways {
      assert steps == [n] + steps[1..];
    }
  }

  lemma FewerLower(g: Graph, rank: map<string, nat>, ps: seq<string>)
    requires Ranked(g, rank) && ps != []
    ensures Height(g, rank, ps[..|ps| - 1]) <= Height(g, rank, ps)
    ensures Level(g, rank, ps[|ps| - 1]) < Height(g, rank, ps)
  {
  }

  lemma {:induction false} Prefixed(ways: set<seq<nat>>, n: nat)
    ensures |Ending(ways, n)| == |ways|
  {
    if ways == {} {
      assert Ending(ways, n) == {};
    } else {
      var w :| w in ways;
      Prefixed(ways - {w}, n);
      EndingIs(ways - {w}, n, [n] + w);
      assert ([n] + w)[1..] == w;
      assert Ending(ways, n) == Ending(ways - {w}, n) + {[n] + w};
    }
  }
}
