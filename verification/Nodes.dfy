/** From the declared dependencies of the needed packages to nodes and edges. */
module Nodes {
  import opened Collections
  import opened Names
  import opened RankedGraph
  import opened Packages
  import opened Resolve

  /** What a package declares: its dependencies for each target. */
  type Decls = map<string, map<string, seq<string>>>

  ghost predicate DeclsOk(d: Decls) {
    && (forall n :: n in d ==> ':' !in n && d[n].Keys == Elements(TARGETS))
    && forall n, t, x :: n in d && t in d[n] && x in d[n][t] ==> Token(x)
  }

  /** `x` is a dependency that the needed package `n` declares. */
  ghost predicate Declares(d: Decls, n: string, x: string) {
    n in d && exists t :: t in d[n] && x in d[n][t]
  }

  ghost predicate DeclaredBy(d: Decls, needed: seq<string>, x: string) {
    exists n :: n in needed && Declares(d, n, x)
  }

  /** Step `k` is one of a needed package for which that package declares dependencies. */
  ghost predicate OwnStep(d: Decls, needed: seq<string>, k: string) {
    exists n, t :: n in needed && n in d && t in d[n] && d[n][t] != [] && k == FullName(n, t)
  }

  /** Step `k` is one that a needed package depends on, of a known package. */
  ghost predicate DepStep(d: Decls, needed: seq<string>, k: string) {
    exists x :: DeclaredBy(d, needed, x) && PackageOf(x) in d && k == Qualify(x)
  }

  ghost predicate IsStep(d: Decls, needed: seq<string>, k: string) {
    OwnStep(d, needed, k) || DepStep(d, needed, k)
  }

  /** Step `k` of a needed package declares a dependency on step `e`. */
  ghost predicate NeedsStep(d: Decls, needed: seq<string>, k: string, e: string) {
    && PackageOf(k) in needed && PackageOf(k) in d && TargetOf(k) in d[PackageOf(k)]
    && exists x :: x in d[PackageOf(k)][TargetOf(k)] && Qualify(x) == e
  }

  /** The nodes are exactly the steps, and the edges exactly the declared dependencies between them. */
  ghost predicate IsNodeMap(d: Decls, needed: seq<string>, g: Graph) {
    && (forall k :: k in g <==> IsStep(d, needed, k))
    && (forall k :: k in g ==> Distinct(g[k]))
    && forall k, e :: k in g ==> (e in g[k] <==> e in g && NeedsStep(d, needed, k, e))
  }

  /** The needed packages are known. */
  ghost predicate Known(d: Decls, needed: seq<string>) {
    forall n :: n in needed ==> n in d
  }

  ghost predicate InvalidReference(d: Decls, needed: seq<string>) {
    exists x :: DeclaredBy(d, needed, x) && PackageOf(x) !in needed
  }

  ghost predicate UnknownPackage(d: Decls, needed: seq<string>) {
    exists x :: DeclaredBy(d, needed, x) && PackageOf(x) !in d
  }

  ghost predicate ForeignStep(d: Decls, needed: seq<string>) {
    exists k :: IsStep(d, needed, k) && PackageOf(k) !in needed
  }

  ghost predicate UnknownTarget(d: Decls, needed: seq<string>) {
    exists k :: IsStep(d, needed, k) && PackageOf(k) in needed && TargetOf(k) !in Elements(TARGETS)
  }

  /** Exactly when the conversion to nodes raises an exception. */
  ghost predicate Rejected(d: Decls, needed: seq<string>, ignoreInvalid: bool, warnInvalid: bool) {
    || (!ignoreInvalid && !warnInvalid && InvalidReference(d, needed))
    || (!ignoreInvalid && UnknownPackage(d, needed))
    || (!warnInvalid && ForeignStep(d, needed))
    || UnknownTarget(d, needed)
  }

  /** Without either flag, a plan is refused exactly for an invalid reference or an unknown target. */
  lemma RejectedByDefault(d: Decls, needed: seq<string>)
    requires DeclsOk(d) && Known(d, needed)
    ensures Rejected(d, needed, false, false) <==> InvalidReference(d, needed) || UnknownTarget(d, needed)
  {
    if k :| IsStep(d, needed, k) && PackageOf(k) !in needed {
      if OwnStep(d, needed, k) {
        var n, t :| n in needed && n in d && t in d[n] && d[n][t] != [] && k == FullName(n, t);
        KnownTargets(t);
        SplitJoin(n, t);
      } else {
        var x :| DeclaredBy(d, needed, x) && PackageOf(x) in d && k == Qualify(x);
        DeclaredToken(d, needed, x);
        JoinSplit(x);
      }
    }
  }

  lemma KnownTargets(t: string)
    requires t in Elements(TARGETS)
    ensures ':' !in t
  {
  }

  lemma DeclaredToken(d: Decls, needed: seq<string>, x: string)
    requires DeclsOk(d) && DeclaredBy(d, needed, x)
    ensures Token(x)
  {
  }

  /** All dependencies of a package, target after target. */
  function AllDeps(decl: map<string, seq<string>>): seq<string>
    requires decl.Keys == Elements(TARGETS)
  {
    decl["bootstrap"] + decl["init"] + decl["host"] + decl["target"]
  }

  lemma AllDepsDeclared(d: Decls, n: string)
    requires DeclsOk(d) && n in d
    ensures forall x :: x in AllDeps(d[n]) <==> Declares(d, n, x)
  {
    var decl := d[n];
    forall x | x in AllDeps(decl)
      ensures Declares(d, n, x)
    {
      assert x in decl["bootstrap"] || x in decl["init"] || x in decl["host"] || x in decl["target"];
    }
    forall x, t | t in decl && x in decl[t]
      ensures x in AllDeps(decl)
    {
      InAllDeps(decl, t, x);
    }
  }

  lemma InAllDeps(decl: map<string, seq<string>>, t: string, x: string)
    requires decl.Keys == Elements(TARGETS) && t in decl && x in decl[t]
    ensures x in AllDeps(decl)
  {
    assert t in TARGETS;
    assert t == "bootstrap" || t == "init" || t == "host" || t == "target";
  }

  /** Looks for a dependency of a needed package on a package that is not needed. */
  method Validate(d: Decls, needed: seq<string>) returns (valid: bool)
    requires DeclsOk(d) && Known(d, needed)
    ensures valid <==> !InvalidReference(d, needed)
  {
    hide DeclsOk, Declares;
    valid := true;
    for i := 0 to |needed|
      invariant valid ==> forall k, x :: 0 <= k < i && Declares(d, needed[k], x) ==> PackageOf(x) in needed
      invariant !valid ==> InvalidReference(d, needed)
    {
      var n := needed[i];
      AllDepsDeclared(d, n);
      DeclTargets(d, n);
      var deps := AllDeps(d[n]);
      for j := 0 to |deps|
        invariant valid ==> forall k :: 0 <= k < j ==> PackageOf(deps[k]) in needed
        invariant valid ==> forall k, x :: 0 <= k < i && Declares(d, needed[k], x) ==> PackageOf(x) in needed
        invariant !valid ==> InvalidReference(d, needed)
      {
        if PackageOf(deps[j]) !in needed {
          assert Declares(d, n, deps[j]);
          assert DeclaredBy(d, needed, deps[j]);
          valid := false;
        }
      }
    }
  }

  lemma DeclTargets(d: Decls, n: string)
    requires DeclsOk(d) && n in d
    ensures d[n].Keys == Elements(TARGETS)
  {
  }

  ghost predicate Unlinked(nodes: Graph) {
    forall k :: k in nodes ==> nodes[k] == []
  }

  lemma OwnStepSnoc(d: Decls, some: seq<string>, n: string, k: string)
    requires n in d
    ensures OwnStep(d, some + [n], k) <==>
            OwnStep(d, some, k) || exists t :: t in d[n] && d[n][t] != [] && k == FullName(n, t)
  {
    if OwnStep(d, some, k) {
      var n', t :| n' in some && n' in d && t in d[n'] && d[n'][t] != [] && k == FullName(n', t);
      assert n' in some + [n];
    }
  }

  /** Every package becomes one node for each of its targets that has dependencies. */
  method PackageNodes(d: Decls, needed: seq<string>) returns (nodes: Graph)
    requires DeclsOk(d) && Known(d, needed)
    ensures Unlinked(nodes)
    ensures forall k :: k in nodes <==> OwnStep(d, needed, k)
  {
    hide DeclsOk, OwnStep;
    nodes := map[];
    NoOwnSteps(d);
    for i := 0 to |needed|
      invariant Unlinked(nodes)
      invariant forall k :: k in nodes <==> OwnStep(d, needed[..i], k)
    {
      var n := needed[i];
      DeclTargets(d, n);
      ghost var before := nodes;
      for j := 0 to |TARGETS|
        invariant Unlinked(nodes)
        invariant forall k :: k in nodes <==>
                  k in before || exists t :: t in TARGETS[..j] && t in d[n] && d[n][t] != [] && k == FullName(n, t)
      {
        var t := TARGETS[j];
        assert TARGETS[..j + 1] == TARGETS[..j] + [t];
        assert t in Elements(TARGETS);
        if d[n][t] != [] {
          nodes := nodes[FullName(n, t) := []];
        }
      }
      assert TARGETS[..|TARGETS|] == TARGETS;
      assert forall t :: t in TARGETS <==> t in d[n];
      assert needed[..i + 1] == needed[..i] + [n];
      forall k
        ensures k in nodes <==> OwnStep(d, needed[..i + 1], k)
      {
        OwnStepSnoc(d, needed[..i], n, k);
      }
    }
    assert needed[..|needed|] == needed;
  }

  lemma NoOwnSteps(d: Decls)
    ensures forall k :: !OwnStep(d, [], k)
  {
  }

  lemma StepPackageKnown(d: Decls, needed: seq<string>, k: string)
    requires DeclsOk(d) && IsStep(d, needed, k)
    ensures PackageOf(k) in d && StepName(k)
  {
    if OwnStep(d, needed, k) {
      var n, t :| n in needed && n in d && t in d[n] && d[n][t] != [] && k == FullName(n, t);
      KnownTargets(t);
      SplitJoin(n, t);
    } else {
      var x :| DeclaredBy(d, needed, x) && PackageOf(x) in d && k == Qualify(x);
      DeclaredToken(d, needed, x);
      JoinSplit(x);
    }
  }

  /** The nodes are the steps of `own`, and those that the first `i` needed packages depend on. */
  ghost predicate NodesSoFar(d: Decls, needed: seq<string>, own: set<string>, nodes: Graph, i: nat) {
    i <= |needed| && Unlinked(nodes) && forall k :: k in nodes <==> k in own || DepStep(d, needed[..i], k)
  }

  lemma DepStepSnoc(d: Decls, some: seq<string>, n: string, k: string)
    ensures DepStep(d, some + [n], k) <==>
            DepStep(d, some, k) || exists x :: Declares(d, n, x) && PackageOf(x) in d && k == Qualify(x)
  {
    hide Declares;
    if DepStep(d, some, k) {
      var x :| DeclaredBy(d, some, x) && PackageOf(x) in d && k == Qualify(x);
      var n' :| n' in some && Declares(d, n', x);
      assert n' in some + [n];
      assert DeclaredBy(d, some + [n], x);
    }
    if x :| Declares(d, n, x) && PackageOf(x) in d && k == Qualify(x) {
      assert n in some + [n];
      assert DeclaredBy(d, some + [n], x);
    }
  }

  /** Step `k` is among the dependencies `deps`, and its package is known. */
  ghost predicate Among(d: Decls, deps: seq<string>, k: string) {
    exists x :: x in deps && PackageOf(x) in d && k == Qualify(x)
  }

  lemma AmongSnoc(d: Decls, deps: seq<string>, x: string, k: string)
    ensures Among(d, deps + [x], k) <==> Among(d, deps, k) || (PackageOf(x) in d && k == Qualify(x))
  {
    if Among(d, deps, k) {
      var y :| y in deps && PackageOf(y) in d && k == Qualify(y);
      assert y in deps + [x];
    }
    assert x in deps + [x];
  }

  /** Adds a node for each dependency of one package; reports an unknown package. */
  method AddDependencyNodes(d: Decls, deps: seq<string>, nodes0: Graph, ignoreInvalid: bool) returns (r: Result<Graph>)
    requires Unlinked(nodes0) && forall k :: k in nodes0 ==> PackageOf(k) in d
    requires forall x :: x in deps ==> Token(x)
    ensures r.Ok? <==> ignoreInvalid || forall x :: x in deps ==> PackageOf(x) in d
    ensures r.Ok? ==> Unlinked(r.value) && (forall k :: k in r.value ==> PackageOf(k) in d)
    ensures r.Ok? ==> forall k :: k in r.value <==> k in nodes0 || Among(d, deps, k)
  {
    hide Token, Among, PackageOf, TargetOf, Qualify, StepName;
    var nodes := nodes0;
    NoneAmong(d);
    for i := 0 to |deps|
      invariant Unlinked(nodes) && forall k :: k in nodes ==> PackageOf(k) in d
      invariant ignoreInvalid || forall j :: 0 <= j < i ==> PackageOf(deps[j]) in d
      invariant forall k :: k in nodes <==> k in nodes0 || Among(d, deps[..i], k)
    {
      JoinSplit(deps[i]);
      var step := Qualify(deps[i]);
      if step !in nodes && PackageOf(step) !in d && !ignoreInvalid {
        assert deps[i] in deps;
        return Raise("Invalid package!");
      }
      ghost var before := nodes;
      if step !in nodes && PackageOf(step) in d {
        nodes := nodes[step := []];
      }
      assert deps[..i + 1] == deps[..i] + [deps[i]];
      forall k
        ensures k in nodes <==> k in nodes0 || Among(d, deps[..i + 1], k)
      {
        AmongSnoc(d, deps[..i], deps[i], k);
      }
    }
    assert deps[..|deps|] == deps;
    return Ok(nodes);
  }

  lemma NoneAmong(d: Decls)
    ensures forall k :: !Among(d, [], k)
  {
  }

  /** Adds the nodes that needed packages depend on; fails exactly on an unknown package that is not to be ignored. */
  method DependencyNodes(d: Decls, needed: seq<string>, own: Graph, ignoreInvalid: bool) returns (r: Result<Graph>)
    requires DeclsOk(d) && Known(d, needed)
    requires Unlinked(own) && forall k :: k in own <==> OwnStep(d, needed, k)
    ensures r.Raise? <==> !ignoreInvalid && UnknownPackage(d, needed)
    ensures r.Ok? ==> Unlinked(r.value) && forall k :: k in r.value <==> IsStep(d, needed, k)
  {
    hide DeclsOk, OwnStep, DepStep, Declares, Unlinked, NodesSoFar, UnknownPackage;
    var nodes := own;
    NodesStart(d, needed, nodes);
    OwnStepsKnown(d, needed);
    for i := 0 to |needed|
      invariant NodesSoFar(d, needed, own.Keys, nodes, i)
      invariant forall k :: k in nodes ==> PackageOf(k) in d
      invariant ignoreInvalid || !UnknownPackage(d, needed[..i])
    {
      var n := needed[i];
      DeclTargets(d, n);
      AllDepsDeclared(d, n);
      var deps := AllDeps(d[n]);
      TokensOf(d, n);
      SoFarUnlinked(d, needed, own.Keys, nodes, i);
      var added := AddDependencyNodes(d, deps, nodes, ignoreInvalid);
      UnknownSnoc(d, needed, i);
      if added.Raise? {
        return added;
      }
      NodesNext(d, needed, own.Keys, nodes, added.value, i);
      nodes := added.value;
    }
    assert needed[..|needed|] == needed;
    NodesDone(d, needed, own.Keys, nodes);
    return Ok(nodes);
  }

  lemma NodesStart(d: Decls, needed: seq<string>, own: Graph)
    requires Unlinked(own)
    ensures NodesSoFar(d, needed, own.Keys, own, 0)
  {
    assert forall k :: !DepStep(d, needed[..0], k);
  }

  lemma OwnStepsKnown(d: Decls, needed: seq<string>)
    requires DeclsOk(d)
    ensures forall k :: OwnStep(d, needed, k) ==> PackageOf(k) in d
    ensures !UnknownPackage(d, needed[..0])
  {
    forall k | OwnStep(d, needed, k)
      ensures PackageOf(k) in d
    {
      StepPackageKnown(d, needed, k);
    }
  }

  lemma TokensOf(d: Decls, n: string)
    requires DeclsOk(d) && n in d
    ensures forall x :: x in AllDeps(d[n]) ==> Token(x)
  {
    hide Token;
    AllDepsDeclared(d, n);
  }

  lemma SoFarUnlinked(d: Decls, needed: seq<string>, own: set<string>, nodes: Graph, i: nat)
    requires NodesSoFar(d, needed, own, nodes, i)
    ensures Unlinked(nodes)
  {
  }

  lemma UnknownSnoc(d: Decls, needed: seq<string>, i: nat)
    requires DeclsOk(d) && i < |needed| && needed[i] in d
    ensures UnknownPackage(d, needed[..i + 1]) <==>
            UnknownPackage(d, needed[..i]) || exists x :: x in AllDeps(d[needed[i]]) && PackageOf(x) !in d
    ensures UnknownPackage(d, needed[..i + 1]) ==> UnknownPackage(d, needed)
  {
    hide Declares;
    AllDepsDeclared(d, needed[i]);
    assert needed[..i + 1] == needed[..i] + [needed[i]];
    forall x
      ensures DeclaredBy(d, needed[..i + 1], x) <==> DeclaredBy(d, needed[..i], x) || Declares(d, needed[i], x)
      ensures DeclaredBy(d, needed[..i + 1], x) ==> DeclaredBy(d, needed, x)
    {
      DeclaredSnoc(d, needed, i, x);
    }
  }

  lemma DeclaredSnoc(d: Decls, needed: seq<string>, i: nat, x: string)
    requires i < |needed|
    ensures DeclaredBy(d, needed[..i + 1], x) <==> DeclaredBy(d, needed[..i], x) || Declares(d, needed[i], x)
    ensures DeclaredBy(d, needed[..i + 1], x) ==> DeclaredBy(d, needed, x)
  {
    hide Declares;
    assert needed[..i + 1] == needed[..i] + [needed[i]];
    if DeclaredBy(d, needed[..i], x) {
      var n :| n in needed[..i] && Declares(d, n, x);
      assert n in needed[..i + 1];
    }
    if Declares(d, needed[i], x) {
      assert needed[i] in needed[..i + 1];
    }
  }

  lemma NodesNext(d: Decls, needed: seq<string>, own: set<string>, nodes: Graph, more: Graph, i: nat)
    requires i < |needed| && needed[i] in d && DeclsOk(d)
    requires NodesSoFar(d, needed, own, nodes, i) && Unlinked(more)
    requires forall k :: k in more <==> k in nodes || Among(d, AllDeps(d[needed[i]]), k)
    ensures NodesSoFar(d, needed, own, more, i + 1)
  {
    hide DepStep, Declares, DeclsOk;
    AllDepsDeclared(d, needed[i]);
    assert needed[..i + 1] == needed[..i] + [needed[i]];
    forall k
      ensures k in more <==> k in own || DepStep(d, needed[..i + 1], k)
    {
      DepStepSnoc(d, needed[..i], needed[i], k);
    }
  }

  lemma NodesDone(d: Decls, needed: seq<string>, own: set<string>, nodes: Graph)
    requires NodesSoFar(d, needed, own, nodes, |needed|)
    requires forall k :: k in own <==> OwnStep(d, needed, k)
    ensures Unlinked(nodes) && forall k :: k in nodes <==> IsStep(d, needed, k)
  {
    hide OwnStep, DepStep;
    assert needed[..|needed|] == needed;
  }

  /** The steps among `deps` that have a node, each once. */
  ghost predicate EdgesOf(nodes: set<string>, deps: seq<string>, edges: seq<string>) {
    && Distinct(edges)
    && forall e :: e in edges <==> e in nodes && exists x :: x in deps && Qualify(x) == e
  }

  lemma EdgesSnoc(nodes: set<string>, deps: seq<string>, x: string, edges: seq<string>)
    requires EdgesOf(nodes, deps, edges)
    ensures EdgesOf(nodes, deps + [x], if Qualify(x) in nodes then EnterOnce(edges, Qualify(x)) else edges)
  {
    hide Qualify;
    var more := if Qualify(x) in nodes then EnterOnce(edges, Qualify(x)) else edges;
    EnterOnceDistinct(edges, Qualify(x));
    forall e
      ensures e in more <==> e in nodes && exists y :: y in deps + [x] && Qualify(y) == e
    {
      assert x in deps + [x];
      if y :| y in deps && Qualify(y) == e {
        assert y in deps + [x];
      }
      assert e in more <==> e in edges || (e == Qualify(x) && e in nodes) by {
        assert e in Elements(more) <==> e in more;
      }
    }
  }

  /** Appends to one node an edge for each of its dependencies that has a node. */
  method AddEdges(nodes: Graph, k: string, deps: seq<string>) returns (g: Graph)
    requires k in nodes && nodes[k] == []
    ensures g.Keys == nodes.Keys && g == nodes[k := g[k]]
    ensures EdgesOf(nodes.Keys, deps, g[k])
  {
    hide EdgesOf, EnterOnce, Qualify;
    g := nodes;
    NoEdges(nodes.Keys);
    for i := 0 to |deps|
      invariant k in g && g == nodes[k := g[k]]
      invariant EdgesOf(nodes.Keys, deps[..i], g[k])
    {
      var step := Qualify(deps[i]);
      EdgesSnoc(nodes.Keys, deps[..i], deps[i], g[k]);
      assert deps[..i + 1] == deps[..i] + [deps[i]];
      if step in g {
        g := g[k := EnterOnce(g[k], step)];
      }
    }
    assert deps[..|deps|] == deps;
  }

  lemma NoEdges(nodes: set<string>)
    ensures EdgesOf(nodes, [], [])
  {
  }

  /** The edges of node `k` are as declared; a node of a package that is not needed has none. */
  ghost predicate LinkedAt(d: Decls, needed: seq<string>, g: Graph, k: string) {
    && k in g && Distinct(g[k])
    && forall e :: e in g[k] <==> e in g && NeedsStep(d, needed, k, e)
  }

  lemma LinkNeeded(d: Decls, needed: seq<string>, g: Graph, k: string)
    requires k in g && PackageOf(k) in needed && PackageOf(k) in d && TargetOf(k) in d[PackageOf(k)]
    requires EdgesOf(g.Keys, d[PackageOf(k)][TargetOf(k)], g[k])
    ensures LinkedAt(d, needed, g, k)
  {
    hide PackageOf, TargetOf, Qualify;
  }

  lemma LinkForeign(d: Decls, needed: seq<string>, g: Graph, k: string)
    requires k in g && PackageOf(k) !in needed && g[k] == []
    ensures LinkedAt(d, needed, g, k)
  {
  }

  lemma LinkOther(d: Decls, needed: seq<string>, nodes: Graph, g: Graph, k: string)
    requires nodes.Keys == g.Keys && LinkedAt(d, needed, nodes, k) && g[k] == nodes[k]
    ensures LinkedAt(d, needed, g, k)
  {
  }

  /** Why adding the edges of node `k` fails: its package is not needed, or its target does not exist. */
  ghost predicate Unlinkable(needed: seq<string>, warnInvalid: bool, k: string) {
    if PackageOf(k) in needed then TargetOf(k) !in Elements(TARGETS) else !warnInvalid
  }

  /** Adds all edges; fails exactly if some node cannot be linked. */
  method LinkNodes(d: Decls, needed: seq<string>, nodes: Graph, warnInvalid: bool) returns (r: Result<Graph>)
    requires DeclsOk(d) && Known(d, needed)
    requires Unlinked(nodes)
    ensures r.Raise? <==> exists k :: k in nodes && Unlinkable(needed, warnInvalid, k)
    ensures r.Ok? ==> r.value.Keys == nodes.Keys && forall k :: k in nodes ==> LinkedAt(d, needed, r.value, k)
  {
    hide DeclsOk, EdgesOf, LinkedAt, PackageOf, TargetOf;
    var g := nodes;
    var todo := nodes.Keys;
    while todo != {}
      invariant todo <= nodes.Keys == g.Keys
      invariant forall k :: k in todo ==> g[k] == []
      invariant forall k :: k in nodes && k !in todo ==>
                LinkedAt(d, needed, g, k) && !Unlinkable(needed, warnInvalid, k)
    {
      var k :| k in todo;
      todo := todo - {k};
      var before := g;
      if PackageOf(k) !in needed {
        if !warnInvalid {
          return Raise("Invalid package!");
        }
        LinkForeign(d, needed, g, k);
      } else {
        DeclTargets(d, PackageOf(k));
        if TargetOf(k) !in d[PackageOf(k)] {
          return Raise("KeyError");
        }
        g := AddEdges(g, k, d[PackageOf(k)][TargetOf(k)]);
        assert g.Keys == before.Keys;
        LinkNeeded(d, needed, g, k);
      }
      forall o | o in nodes && o !in todo && o != k
        ensures LinkedAt(d, needed, g, o)
      {
        LinkOther(d, needed, before, g, o);
      }
    }
    return Ok(g);
  }

  /** Converts the needed packages to nodes: fails exactly when the plan is to be refused. */
  method ToNodes(d: Decls, needed: seq<string>, ignoreInvalid: bool, warnInvalid: bool) returns (r: Result<Graph>)
    requires DeclsOk(d) && Known(d, needed)
    ensures r.Raise? <==> Rejected(d, needed, ignoreInvalid, warnInvalid)
    ensures r.Ok? ==> IsNodeMap(d, needed, r.value) && Whole(r.value)
  {
    hide DeclsOk, Known, IsStep, OwnStep, InvalidReference, UnknownPackage, LinkedAt, Unlinkable, Unlinked;
    if !ignoreInvalid {
      var valid := Validate(d, needed);
      if !valid && !warnInvalid {
        return Raise("Invalid package reference");
      }
    }
    var own := PackageNodes(d, needed);
    var nodes := DependencyNodes(d, needed, own, ignoreInvalid);
    if nodes.Raise? {
      return nodes;
    }
    r := LinkNodes(d, needed, nodes.value, warnInvalid);
    UnlinkableSteps(d, needed, warnInvalid);
    if r.Ok? {
      LinkedMap(d, needed, r.value);
    }
  }

  lemma UnlinkableSteps(d: Decls, needed: seq<string>, warnInvalid: bool)
    ensures (exists k :: IsStep(d, needed, k) && Unlinkable(needed, warnInvalid, k)) <==>
            (!warnInvalid && ForeignStep(d, needed)) || UnknownTarget(d, needed)
  {
    hide IsStep, PackageOf, TargetOf;
    if k :| IsStep(d, needed, k) && Unlinkable(needed, warnInvalid, k) {
    }
    if !warnInvalid && ForeignStep(d, needed) {
      var k :| IsStep(d, needed, k) && PackageOf(k) !in needed;
      assert Unlinkable(needed, warnInvalid, k);
    }
    if UnknownTarget(d, needed) {
      var k :| IsStep(d, needed, k) && PackageOf(k) in needed && TargetOf(k) !in Elements(TARGETS);
      assert Unlinkable(needed, warnInvalid, k);
    }
  }

  lemma LinkedMap(d: Decls, needed: seq<string>, g: Graph)
    requires forall k :: k in g <==> IsStep(d, needed, k)
    requires forall k :: k in g ==> LinkedAt(d, needed, g, k)
    ensures IsNodeMap(d, needed, g) && Whole(g)
  {
    hide IsStep, NeedsStep;
  }
}
