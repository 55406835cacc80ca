/** The whole way: package descriptions and triggers to a plan, and the plan to a finished build. */
module Pipeline {
  import opened Collections
  import opened Names
  import opened RankedGraph
  import opened Cull
  import opened Packages
  import opened Resolve
  import opened Nodes
  import opened Plan
  import opened Planner
  import opened BuildSteps
  import opened Generation
  import opened Building
  import opened Refcounts
  import Schedule

  ghost predicate InputOk(jdata: seq<Entry>, build: seq<string>) {
    && (forall e :: e in jdata ==> EntryOk(e))
    && forall b :: b in build ==> Token(b)
  }

  /** The catalog with the root in it. */
  ghost function Rooted(jdata: seq<Entry>, build: seq<string>): Catalog {
    CatalogOf(jdata)[ROOT := RootEntry(build)]
  }

  lemma RootedOk(jdata: seq<Entry>, build: seq<string>)
    requires InputOk(jdata, build)
    ensures CatalogOk(Rooted(jdata, build)) && ROOT in Rooted(jdata, build)
  {
    hide Overlay, Token;
    assert CatalogOk(map[]);
    OverlayOk(map[], jdata, "global");
    OverlayOk(Overlay(map[], jdata, "global"), jdata, "local");
    RootEntryOk(build);
  }

  lemma RootEntryOk(build: seq<string>)
    requires forall b :: b in build ==> Token(b)
    ensures EntryOk(RootEntry(build))
  {
    hide Token, SameKind, Words, OfKind;
    KindTokens("host", build);
    KindTokens("target", build);
  }

  lemma KindTokens(kind: string, build: seq<string>)
    requires forall b :: b in build ==> Token(b)
    ensures forall x :: x in Words(OfKind(kind, build)) ==> Token(x)
  {
    hide Token, SameKind;
    forall x | x in Words(OfKind(kind, build))
      ensures Token(x)
    {
      WordsMembers(OfKind(kind, build), x);
      OfKindMembers(kind, build, x);
    }
  }

  /** Some reference of a needed package is not excused by the flags. */
  ghost predicate Refused(m: Catalog, ignoreInvalid: bool, warnInvalid: bool) {
    exists needed :: IsNeeded(m, needed) && Rejected(DeclsIn(m), needed, ignoreInvalid, warnInvalid)
  }

  /** Some trigger leads to steps that need one another. */
  ghost predicate RunsInCircles(m: Catalog, build: seq<string>) {
    exists needed, g :: IsNeeded(m, needed) && IsNodeMap(DeclsIn(m), needed, g) && CyclicTrigger(g, build)
  }

  /** Whether a plan is refused depends on which packages are needed only. */
  lemma RejectedAlike(d: Decls, a: seq<string>, b: seq<string>, ignoreInvalid: bool, warnInvalid: bool)
    requires Elements(a) == Elements(b) && Rejected(d, a, ignoreInvalid, warnInvalid)
    ensures Rejected(d, b, ignoreInvalid, warnInvalid)
  {
    hide Declares, PackageOf, TargetOf, OwnStep, DepStep, DeclaredBy;
    SameMembers(a, b);
    StepsAlike(d, a, b);
  }

  lemma SameMembers(a: seq<string>, b: seq<string>)
    requires Elements(a) == Elements(b)
    ensures forall x :: x in a <==> x in b
  {
    assert forall x :: x in a <==> x in Elements(a);
    assert forall x :: x in b <==> x in Elements(b);
  }

  lemma StepsAlike(d: Decls, a: seq<string>, b: seq<string>)
    requires Elements(a) == Elements(b)
    ensures forall x :: DeclaredBy(d, a, x) <==> DeclaredBy(d, b, x)
    ensures forall k :: IsStep(d, a, k) <==> IsStep(d, b, k)
  {
    hide Declares, PackageOf, Qualify, FullName;
    SameMembers(a, b);
    forall x
      ensures DeclaredBy(d, a, x) <==> DeclaredBy(d, b, x)
    {
    }
  }

  /** So do the nodes, the edges, and the circles. */
  lemma CirclesAlike(d: Decls, a: seq<string>, b: seq<string>, g: Graph, h: Graph, build: seq<string>)
    requires Elements(a) == Elements(b) && IsNodeMap(d, a, g) && IsNodeMap(d, b, h) && CyclicTrigger(g, build)
    ensures CyclicTrigger(h, build)
  {
    hide IsStep, NeedsStep, Distinct, Qualify, Elements;
    MapsAlike(d, a, b, g, h);
    var t :| t in build && Triggers(g, t) && Cyclic(g, Qualify(t));
    var p :| Lasso(g, p, Qualify(t));
    hide IsNodeMap;
    assert Lasso(h, p, Qualify(t));
  }

  lemma MapsAlike(d: Decls, a: seq<string>, b: seq<string>, g: Graph, h: Graph)
    requires Elements(a) == Elements(b) && IsNodeMap(d, a, g) && IsNodeMap(d, b, h)
    ensures g.Keys == h.Keys && forall k, e :: k in g ==> (e in g[k] <==> e in h[k])
  {
    hide IsStep, Distinct, PackageOf, TargetOf, Qualify;
    SameMembers(a, b);
    StepsAlike(d, a, b);
    hide Elements;
    assert g.Keys == h.Keys;
    forall k, e | k in g
      ensures e in g[k] <==> e in h[k]
    {
      assert NeedsStep(d, a, k, e) <==> NeedsStep(d, b, k, e);
    }
  }

  /** Whatever needed list and node map are at hand, they decide. */
  lemma DecidedBy(m: Catalog, needed: seq<string>, g: Graph, build: seq<string>, ignoreInvalid: bool, warnInvalid: bool)
    requires IsNeeded(m, needed)
    ensures Refused(m, ignoreInvalid, warnInvalid) <==> Rejected(DeclsIn(m), needed, ignoreInvalid, warnInvalid)
    ensures IsNodeMap(DeclsIn(m), needed, g) ==> (RunsInCircles(m, build) <==> CyclicTrigger(g, build))
  {
    hide IsNeeded, Rejected, IsNodeMap, CyclicTrigger, Elements;
    if other :| IsNeeded(m, other) && Rejected(DeclsIn(m), other, ignoreInvalid, warnInvalid) {
      NeededUnique(m, needed, other);
      RejectedAlike(DeclsIn(m), other, needed, ignoreInvalid, warnInvalid);
    }
    if IsNodeMap(DeclsIn(m), needed, g) {
      if other, h :| IsNeeded(m, other) && IsNodeMap(DeclsIn(m), other, h) && CyclicTrigger(h, build) {
        NeededUnique(m, needed, other);
        CirclesAlike(DeclsIn(m), other, needed, h, g, build);
      }
    }
  }

  /**
   * Step `k` declares a dependency on step `e`, whatever else is needed or culled. If unknown packages are
   * ignored, only dependencies on known ones count.
   */
  ghost predicate DependsOn(m: Catalog, k: string, e: string, ignoreInvalid: bool) {
    && PackageOf(k) in m && TargetOf(k) in m[PackageOf(k)].deps
    && exists x :: x in m[PackageOf(k)].deps[TargetOf(k)] && Qualify(x) == e && (ignoreInvalid ==> PackageOf(x) in m)
  }

  /**
   * Job `j` says of its step what the package list does: exactly the dependencies it declares, each once, and the
   * data of its package. It is installed exactly if an image is built and its target is not one of the build host.
   */
  ghost predicate Declared(m: Catalog, build: seq<string>, ignoreInvalid: bool, j: Job) {
    && PackageOf(j.name) in m
    && Distinct(j.wants) && (forall e :: e in j.wants <==> DependsOn(m, j.name, e, ignoreInvalid))
    && j.section == m[PackageOf(j.name)].section && j.unpacks == m[PackageOf(j.name)].unpack
    && j.task == if "image" in build && TargetOf(j.name) != "host" && TargetOf(j.name) != "init" then "install"
       else "build"
  }

  /**
   * Plans a build. The plan is refused exactly for a reference that the flags do not excuse, an
   * unknown target, or a cycle that a trigger leads to; any plan it writes is valid, its steps
   * are exactly the nodes that the triggers lead to, and its jobs are as declared.
   */
  method GeneratePlan(jdata: seq<Entry>, build: seq<string>, ignoreInvalid: bool, warnInvalid: bool)
    returns (r: Result<seq<Job>>, ghost needed: seq<string>, ghost g: Graph)
    requires InputOk(jdata, build)
    ensures IsNeeded(Rooted(jdata, build), needed)
    ensures r.Raise? <==>
            Refused(Rooted(jdata, build), ignoreInvalid, warnInvalid) || RunsInCircles(Rooted(jdata, build), build)
    ensures r.Ok? ==>
              && ValidPlan(r.value)
              && IsNodeMap(DeclsIn(Rooted(jdata, build)), needed, g)
              && (forall k :: k in NamesOf(r.value) <==> Triggered(g, build, k))
              && (exists steps :: Writes(Rooted(jdata, build), g, build, steps, r.value))
              && forall j :: j in r.value ==> Declared(Rooted(jdata, build), build, ignoreInvalid, j)
  {
    hide CatalogOk, IsNeeded, InputOk, Rejected, Refused, RunsInCircles, IsNodeMap, Whole, CyclicTrigger, Triggered,
         Topological, Writes, Known, DeclsOk, Holds, Carried, Distinct, Declared, WrittenFor;
    ghost var m := Rooted(jdata, build);
    g := map[];
    RootedOk(jdata, build);
    KeysOk(jdata, build);
    var t, order := LoadPackages(jdata);
    t, order := AddRoot(t, order, build, CatalogOf(jdata));
    RootIn(t, m);
    var list := CullUnneeded(t, order, m);
    needed := list;
    NeededKnown(m, needed);
    DeclsInOk(m);
    var d := GetDecls(t, m);
    var nodes := ToNodes(d, list, ignoreInvalid, warnInvalid);
    DecidedBy(m, needed, if nodes.Ok? then nodes.value else map[], build, ignoreInvalid, warnInvalid);
    if nodes.Raise? {
      return Raise(nodes.error), needed, g;
    }
    g := nodes.value;
    var steps := GetBuildSteps(nodes.value, build);
    if steps.Raise? {
      return Raise(steps.error), needed, g;
    }
    StepsKnown(m, needed, g, steps.value);
    CarriedKeys(t, m);
    var plan := WritePlan(t, nodes.value, build, steps.value, m);
    PlanIsValid(m, g, build, steps.value, plan);
    PlanDeclared(m, needed, g, build, steps.value, plan, ignoreInvalid, warnInvalid);
    r := Ok(plan);
  }

  /** The jobs of a plan that is not refused are as declared. */
  lemma PlanDeclared(m: Catalog, needed: seq<string>, g: Graph, build: seq<string>, steps: seq<string>, plan: seq<Job>,
                     ignoreInvalid: bool, warnInvalid: bool)
    requires CatalogOk(m) && ROOT in m && IsNeeded(m, needed) && IsNodeMap(DeclsIn(m), needed, g)
    requires !Rejected(DeclsIn(m), needed, ignoreInvalid, warnInvalid)
    requires Writes(m, g, build, steps, plan) && forall k :: k in steps ==> StepName(k)
    ensures forall j :: j in plan ==> Declared(m, build, ignoreInvalid, j)
  {
    hide CatalogOk, IsNeeded, IsNodeMap, Rejected, UnknownPackage, UnknownTarget, Declared, WrittenFor, StepName;
    RejectedExactly(m, needed, ignoreInvalid, warnInvalid);
    forall j | j in plan
      ensures Declared(m, build, ignoreInvalid, j)
    {
      var i :| 0 <= i < |plan| && plan[i] == j;
      assert steps[i] in steps;
      JobDeclared(m, needed, g, build, steps[i], j, ignoreInvalid);
    }
  }

  lemma JobDeclared(m: Catalog, needed: seq<string>, g: Graph, build: seq<string>, k: string, j: Job,
                    ignoreInvalid: bool)
    requires CatalogOk(m) && IsNeeded(m, needed) && IsNodeMap(DeclsIn(m), needed, g)
    requires ignoreInvalid || !UnknownPackage(DeclsIn(m), needed)
    requires WrittenFor(m, g, build, k, j) && StepName(k)
    ensures Declared(m, build, ignoreInvalid, j)
  {
    hide CatalogOk, IsNeeded, IsNodeMap, UnknownPackage, DependsOn, StepName, TaskOf, PackageOf, TargetOf;
    forall e
      ensures e in j.wants <==> DependsOn(m, k, e, ignoreInvalid)
    {
      EdgesComplete(m, needed, g, k, e, ignoreInvalid);
    }
    EdgesDistinct(DeclsIn(m), needed, g, k);
    TaskOfStep(k, build);
  }

  lemma EdgesDistinct(d: Decls, needed: seq<string>, g: Graph, k: string)
    requires IsNodeMap(d, needed, g) && k in g
    ensures Distinct(g[k])
  {
    hide IsStep, NeedsStep, Distinct;
  }

  lemma TaskOfStep(k: string, build: seq<string>)
    requires StepName(k)
    ensures TaskOf(k, build) ==
            if "image" in build && TargetOf(k) != "host" && TargetOf(k) != "init" then "install" else "build"
  {
    hide PackageOf, TargetOf, TaskOf, FullName;
    JoinSplit(k);
    TaskByTarget(PackageOf(k), TargetOf(k), build);
  }

  lemma KeysOk(jdata: seq<Entry>, build: seq<string>)
    requires InputOk(jdata, build)
    ensures forall e :: e in jdata ==> e.deps.Keys == Elements(TARGETS)
  {
    hide Token;
  }

  lemma RootIn(t: Table, m: Catalog)
    requires Holds(t, m) && ROOT in m
    ensures ROOT in t
  {
  }

  lemma CarriedKeys(t: Table, m: Catalog)
    requires Carried(t, m)
    ensures t.Keys == m.Keys
  {
  }

  /** Reads the declared dependencies out of the objects. */
  method GetDecls(t: Table, ghost m: Catalog) returns (d: Decls)
    requires Carried(t, m)
    ensures d == DeclsIn(m)
  {
    hide BuildPackage.WantsDeps;
    d := map n | n in t :: t[n].deps;
    assert forall n :: n in t ==> Carries(t[n], m[n]);
  }

  /** The needed packages are closed: what they depend on is needed too, if it is known at all. */
  lemma NeededClosed(m: Catalog, needed: seq<string>, n: string, x: string)
    requires IsNeeded(m, needed) && n in needed && Declares(DeclsIn(m), n, x) && PackageOf(x) in m
    ensures PackageOf(x) in needed
  {
    hide PackageOf, Distinct;
    var w, some :| IsWanters(m, w) && Greatest(w, some) && Elements(needed) == some + {ROOT};
    var p := PackageOf(x);
    assert n in Elements(needed);
    if p != n {
      DeclaredIsWanted(m, n, x);
      assert n in w[p];
      OneMore(w, some, p, n);
      assert p in Elements(needed);
    }
  }

  lemma DeclaredIsWanted(m: Catalog, n: string, x: string)
    requires Declares(DeclsIn(m), n, x) && PackageOf(x) != n
    ensures Wants(m, n, PackageOf(x))
  {
    hide PackageOf;
    var t :| t in DeclsIn(m)[n] && x in DeclsIn(m)[n][t];
    assert t in m[n].deps && x in m[n].deps[t];
  }

  lemma OneMore(w: Wanters, some: set<string>, p: string, o: string)
    requires Greatest(w, some) && p in w && o in w[p] && (o == ROOT || o in some)
    ensures p in some
  {
    var more := some + {p};
    forall q | q in more
      ensures SupportedIn(w, more, q)
    {
      assert q in some ==> SupportedIn(w, some, q);
    }
    assert Supported(w, more);
  }

  /**
   * For the packages that are really needed, a plan is refused exactly for a dependency on an unknown
   * package, unless those are ignored, or for an unknown target. Asking for warnings changes nothing.
   */
  lemma RejectedExactly(m: Catalog, needed: seq<string>, ignoreInvalid: bool, warnInvalid: bool)
    requires CatalogOk(m) && ROOT in m && IsNeeded(m, needed)
    ensures Rejected(DeclsIn(m), needed, ignoreInvalid, warnInvalid) <==>
            (!ignoreInvalid && UnknownPackage(DeclsIn(m), needed)) || UnknownTarget(DeclsIn(m), needed)
  {
    hide CatalogOk, IsNeeded, IsStep, PackageOf, UnknownTarget, DeclsIn;
    var d := DeclsIn(m);
    NeededKnown(m, needed);
    if x :| DeclaredBy(d, needed, x) && PackageOf(x) !in needed {
      DeclaredNeeded(m, needed, x);
    }
    if k :| IsStep(d, needed, k) && PackageOf(k) !in needed {
      NoForeignStep(m, needed, k);
    }
  }

  lemma DeclaredNeeded(m: Catalog, needed: seq<string>, x: string)
    requires IsNeeded(m, needed) && DeclaredBy(DeclsIn(m), needed, x)
    ensures PackageOf(x) in DeclsIn(m) ==> PackageOf(x) in needed
  {
    hide IsNeeded, PackageOf, Declares;
    var n :| n in needed && Declares(DeclsIn(m), n, x);
    if PackageOf(x) in m {
      NeededClosed(m, needed, n, x);
    }
  }

  /** Whether a plan is refused does not depend on the flag that asks for warnings instead. */
  lemma WarningExcusesNothing(m: Catalog, ignoreInvalid: bool)
    requires CatalogOk(m) && ROOT in m
    ensures Refused(m, ignoreInvalid, true) <==> Refused(m, ignoreInvalid, false)
  {
    hide CatalogOk, IsNeeded, Rejected, UnknownPackage, UnknownTarget;
    forall needed | IsNeeded(m, needed)
      ensures Rejected(DeclsIn(m), needed, ignoreInvalid, true) <==> Rejected(DeclsIn(m), needed, ignoreInvalid, false)
    {
      RejectedExactly(m, needed, ignoreInvalid, true);
      RejectedExactly(m, needed, ignoreInvalid, false);
    }
  }

  /** Every step belongs to a needed package. */
  lemma NoForeignStep(m: Catalog, needed: seq<string>, k: string)
    requires CatalogOk(m) && IsNeeded(m, needed) && IsStep(DeclsIn(m), needed, k)
    ensures PackageOf(k) in needed
  {
    hide CatalogOk, IsNeeded, DeclsIn, Declares;
    var d := DeclsIn(m);
    DeclsInOk(m);
    if OwnStep(d, needed, k) {
      var n, t :| n in needed && n in d && t in d[n] && d[n][t] != [] && k == FullName(n, t);
      DeclTargets(d, n);
      KnownTargets(t);
      NameClean(d, n);
      SplitJoin(n, t);
    } else {
      var x :| DeclaredBy(d, needed, x) && PackageOf(x) in d && k == Qualify(x);
      DeclaredToken(d, needed, x);
      JoinSplit(x);
      DeclaredNeeded(m, needed, x);
    }
  }

  lemma NameClean(d: Decls, n: string)
    requires DeclsOk(d) && n in d
    ensures ':' !in n
  {
  }

  ghost predicate Leads(m: Catalog, p: seq<string>, a: string, b: string, ignoreInvalid: bool) {
    && p != [] && p[0] == a && p[|p| - 1] == b
    && forall i :: 0 < i < |p| ==> DependsOn(m, p[i - 1], p[i], ignoreInvalid)
  }

  /** `b` is `a` or one of its direct or indirect dependencies. */
  ghost predicate Requires(m: Catalog, a: string, b: string, ignoreInvalid: bool) {
    exists p :: Leads(m, p, a, b, ignoreInvalid)
  }

  /** The edges of a node are all of its declared dependencies, or all on known packages if others are ignored. */
  lemma EdgesComplete(m: Catalog, needed: seq<string>, g: Graph, k: string, e: string, ignoreInvalid: bool)
    requires CatalogOk(m) && IsNeeded(m, needed) && IsNodeMap(DeclsIn(m), needed, g)
    requires (ignoreInvalid || !UnknownPackage(DeclsIn(m), needed)) && k in g
    ensures e in g[k] <==> DependsOn(m, k, e, ignoreInvalid)
  {
    hide CatalogOk, IsNeeded, IsStep, NeedsStep, DependsOn, PackageOf, UnknownPackage, Distinct;
    NoForeignStep(m, needed, k);
    if e in g[k] {
      StepDepended(m, needed, k, e, ignoreInvalid);
    }
    if DependsOn(m, k, e, ignoreInvalid) {
      DependencyIsStep(m, needed, k, e, ignoreInvalid);
    }
  }

  lemma StepDepended(m: Catalog, needed: seq<string>, k: string, e: string, ignoreInvalid: bool)
    requires CatalogOk(m) && NeedsStep(DeclsIn(m), needed, k, e) && IsStep(DeclsIn(m), needed, e)
    ensures DependsOn(m, k, e, ignoreInvalid)
  {
    hide CatalogOk, IsStep, PackageOf, TargetOf, Qualify;
    var d := DeclsIn(m);
    DeclsInOk(m);
    StepPackageKnown(d, needed, e);
    assert d[PackageOf(k)] == m[PackageOf(k)].deps;
    var x :| x in d[PackageOf(k)][TargetOf(k)] && Qualify(x) == e;
    TokenOf(d, PackageOf(k), TargetOf(k), x);
    JoinSplit(x);
  }

  lemma TokenOf(d: Decls, n: string, t: string, x: string)
    requires DeclsOk(d) && n in d && t in d[n] && x in d[n][t]
    ensures Token(x)
  {
  }

  lemma DependencyIsStep(m: Catalog, needed: seq<string>, k: string, e: string, ignoreInvalid: bool)
    requires ignoreInvalid || !UnknownPackage(DeclsIn(m), needed)
    requires PackageOf(k) in needed && DependsOn(m, k, e, ignoreInvalid)
    ensures IsStep(DeclsIn(m), needed, e) && NeedsStep(DeclsIn(m), needed, k, e)
  {
    hide PackageOf, TargetOf, Qualify, OwnStep;
    var d := DeclsIn(m);
    var x :| x in m[PackageOf(k)].deps[TargetOf(k)] && Qualify(x) == e && (ignoreInvalid ==> PackageOf(x) in m);
    assert x in d[PackageOf(k)][TargetOf(k)];
    assert Declares(d, PackageOf(k), x);
    assert DeclaredBy(d, needed, x);
    assert DepStep(d, needed, e);
  }

  lemma {:induction false} LeadsIsPath(m: Catalog, needed: seq<string>, g: Graph, p: seq<string>, ignoreInvalid: bool)
    requires CatalogOk(m) && IsNeeded(m, needed) && IsNodeMap(DeclsIn(m), needed, g) && Whole(g)
    requires ignoreInvalid || !UnknownPackage(DeclsIn(m), needed)
    requires p != [] && p[0] in g
    ensures Path(g, p) <==> forall i :: 0 < i < |p| ==> DependsOn(m, p[i - 1], p[i], ignoreInvalid)
  {
    hide CatalogOk, IsNeeded, IsNodeMap, UnknownPackage, DependsOn;
    var n := |p| - 1;
    if n > 0 {
      LeadsIsPath(m, needed, g, p[..n], ignoreInvalid);
      assert Path(g, p[..n]) ==> p[n - 1] in g by {
        assert p[..n][n - 1] == p[n - 1];
      }
      if p[n - 1] in g {
        EdgesComplete(m, needed, g, p[n - 1], p[n], ignoreInvalid);
      }
      if Path(g, p) {
        assert Path(g, p[..n]);
      }
      if forall i :: 0 < i < |p| ==> DependsOn(m, p[i - 1], p[i], ignoreInvalid) {
        assert forall i :: 0 < i < n ==> DependsOn(m, p[..n][i - 1], p[..n][i], ignoreInvalid);
      }
    }
  }

  /** A trigger that is not empty and asks for an existing target of a known package. */
  ghost predicate TakesEffect(m: Catalog, build: seq<string>, b: string) {
    b in build && b != "" && TargetOf(b) in Elements(TARGETS) && PackageOf(b) in m
  }

  /**
   * A non-empty trigger takes effect exactly when its target exists and its package is known; culling never
   * takes it away. Only if invalid packages are ignored can its package be unknown.
   */
  lemma TriggersTakeEffect(jdata: seq<Entry>, build: seq<string>, needed: seq<string>, g: Graph, b: string,
                           ignoreInvalid: bool, warnInvalid: bool)
    requires InputOk(jdata, build) && IsNeeded(Rooted(jdata, build), needed)
    requires IsNodeMap(DeclsIn(Rooted(jdata, build)), needed, g)
    requires !Rejected(DeclsIn(Rooted(jdata, build)), needed, ignoreInvalid, warnInvalid)
    requires b in build && b != ""
    ensures Qualify(b) in g <==> TargetOf(b) in Elements(TARGETS) && PackageOf(b) in Rooted(jdata, build)
    ensures !ignoreInvalid && TargetOf(b) in Elements(TARGETS) ==> PackageOf(b) in Rooted(jdata, build)
  {
    hide IsNeeded, UnknownPackage, UnknownTarget, Rejected, PackageOf, TargetOf, Qualify, CatalogOk, Token, Distinct,
         IsStep;
    var m := Rooted(jdata, build);
    var d := DeclsIn(m);
    RootedOk(jdata, build);
    RejectedExactly(m, needed, ignoreInvalid, warnInvalid);
    NeededKnown(m, needed);
    TokenIn(build, b);
    JoinSplit(b);
    if Qualify(b) in g {
      NoForeignStep(m, needed, Qualify(b));
      TargetKnown(d, needed, Qualify(b));
    }
    if TargetOf(b) in Elements(TARGETS) {
      TriggerDeclared(jdata, build, b);
      RootNeeded(m, needed);
      assert DeclaredBy(d, needed, b);
      DeclaredIsStep(d, needed, b);
    }
  }

  lemma TokenIn(build: seq<string>, b: string)
    requires b in build && forall x :: x in build ==> Token(x)
    ensures Token(b)
  {
  }

  /** A dependency on a known package is a step; if none is on an unknown one, all are. */
  lemma DeclaredIsStep(d: Decls, needed: seq<string>, x: string)
    requires DeclaredBy(d, needed, x)
    ensures PackageOf(x) in d ==> IsStep(d, needed, Qualify(x))
    ensures !UnknownPackage(d, needed) ==> PackageOf(x) in d
  {
    hide PackageOf, Qualify, OwnStep;
    assert PackageOf(x) in d ==> DepStep(d, needed, Qualify(x));
  }

  lemma TargetKnown(d: Decls, needed: seq<string>, k: string)
    requires !UnknownTarget(d, needed) && IsStep(d, needed, k) && PackageOf(k) in needed
    ensures TargetOf(k) in Elements(TARGETS)
  {
  }

  lemma RootNeeded(m: Catalog, needed: seq<string>)
    requires IsNeeded(m, needed)
    ensures ROOT in needed
  {
    hide Distinct, Greatest, IsWanters;
    assert ROOT in Elements(needed);
  }

  lemma TriggerDeclared(jdata: seq<Entry>, build: seq<string>, b: string)
    requires b in build && b != "" && TargetOf(b) in Elements(TARGETS)
    ensures Declares(DeclsIn(Rooted(jdata, build)), ROOT, b)
  {
    hide PackageOf, TargetOf, Overlay;
    var kind := if SameKind("host", TargetOf(b)) then "host" else "target";
    assert SameKind(kind, TargetOf(b));
    OfKindMembers(kind, build, b);
    WordsMembers(OfKind(kind, build), b);
    var d := DeclsIn(Rooted(jdata, build));
    assert d[ROOT] == RootEntry(build).deps;
    assert kind in d[ROOT] && b in d[ROOT][kind];
  }

  /**
   * The steps of the plan are exactly those that the triggers that take effect declare to need, directly
   * or indirectly: culling takes away nothing. If invalid packages are ignored, only dependencies on known
   * ones count.
   */
  lemma PlanIsClosure(jdata: seq<Entry>, build: seq<string>, needed: seq<string>, g: Graph, k: string,
                      ignoreInvalid: bool, warnInvalid: bool)
    requires InputOk(jdata, build) && IsNeeded(Rooted(jdata, build), needed)
    requires IsNodeMap(DeclsIn(Rooted(jdata, build)), needed, g) && Whole(g)
    requires !Rejected(DeclsIn(Rooted(jdata, build)), needed, ignoreInvalid, warnInvalid)
    ensures Triggered(g, build, k) <==>
            exists b :: TakesEffect(Rooted(jdata, build), build, b)
                        && Requires(Rooted(jdata, build), Qualify(b), k, ignoreInvalid)
  {
    hide InputOk, IsNeeded, IsNodeMap, Whole, Rejected, UnknownPackage, UnknownTarget, TakesEffect, Rooted,
         PackageOf, TargetOf, Qualify, Path, CatalogOk, DependsOn;
    var m := Rooted(jdata, build);
    RootedOk(jdata, build);
    RejectedExactly(m, needed, ignoreInvalid, warnInvalid);
    EffectiveTriggers(jdata, build, needed, g, ignoreInvalid, warnInvalid);
    if b, p :| b in build && Triggers(g, b) && PathTo(g, p, Qualify(b), k) {
      HeadIn(g, p);
      LeadsIsPath(m, needed, g, p, ignoreInvalid);
      assert Leads(m, p, Qualify(b), k, ignoreInvalid);
    }
    if b, p :| TakesEffect(m, build, b) && Leads(m, p, Qualify(b), k, ignoreInvalid) {
      LeadsIsPath(m, needed, g, p, ignoreInvalid);
      assert PathTo(g, p, Qualify(b), k);
      assert Triggers(g, b);
    }
  }

  lemma EffectiveTriggers(jdata: seq<Entry>, build: seq<string>, needed: seq<string>, g: Graph,
                          ignoreInvalid: bool, warnInvalid: bool)
    requires InputOk(jdata, build) && IsNeeded(Rooted(jdata, build), needed)
    requires IsNodeMap(DeclsIn(Rooted(jdata, build)), needed, g)
    requires !Rejected(DeclsIn(Rooted(jdata, build)), needed, ignoreInvalid, warnInvalid)
    ensures forall b :: b in build && Triggers(g, b) <==> TakesEffect(Rooted(jdata, build), build, b)
    ensures forall b :: TakesEffect(Rooted(jdata, build), build, b) ==> Qualify(b) in g && b in build && b != ""
  {
    hide InputOk, IsNeeded, IsNodeMap, Rejected, PackageOf, TargetOf, Qualify, Rooted;
    forall b | b in build && b != ""
      ensures Triggers(g, b) <==> TakesEffect(Rooted(jdata, build), build, b)
    {
      TriggersTakeEffect(jdata, build, needed, g, b, ignoreInvalid, warnInvalid);
    }
  }

  /** A chain of declared dependencies that runs into itself. */
  ghost predicate Circle(m: Catalog, p: seq<string>, a: string, ignoreInvalid: bool) {
    && p != [] && Leads(m, p, a, p[|p| - 1], ignoreInvalid)
    && exists i :: 0 <= i < |p| - 1 && p[i] == p[|p| - 1]
  }

  /** The cycles that make a plan fail are exactly those among declared dependencies that count. */
  lemma CirclesAreDeclared(jdata: seq<Entry>, build: seq<string>, needed: seq<string>, g: Graph,
                           ignoreInvalid: bool, warnInvalid: bool)
    requires InputOk(jdata, build) && IsNeeded(Rooted(jdata, build), needed)
    requires IsNodeMap(DeclsIn(Rooted(jdata, build)), needed, g) && Whole(g)
    requires !Rejected(DeclsIn(Rooted(jdata, build)), needed, ignoreInvalid, warnInvalid)
    ensures CyclicTrigger(g, build) <==>
            exists b, p :: TakesEffect(Rooted(jdata, build), build, b)
                           && Circle(Rooted(jdata, build), p, Qualify(b), ignoreInvalid)
  {
    hide InputOk, IsNeeded, IsNodeMap, Whole, Rejected, UnknownPackage, UnknownTarget, TakesEffect, Rooted,
         PackageOf, TargetOf, Qualify, Path, CatalogOk, DependsOn;
    var m := Rooted(jdata, build);
    RootedOk(jdata, build);
    RejectedExactly(m, needed, ignoreInvalid, warnInvalid);
    EffectiveTriggers(jdata, build, needed, g, ignoreInvalid, warnInvalid);
    if b, p :| b in build && Triggers(g, b) && Lasso(g, p, Qualify(b)) {
      HeadIn(g, p);
      LeadsIsPath(m, needed, g, p, ignoreInvalid);
      assert Circle(m, p, Qualify(b), ignoreInvalid);
    }
    if b, p :| TakesEffect(m, build, b) && Circle(m, p, Qualify(b), ignoreInvalid) {
      LeadsIsPath(m, needed, g, p, ignoreInvalid);
      assert Lasso(g, p, Qualify(b));
      assert Cyclic(g, Qualify(b)) && Triggers(g, b);
    }
  }

  lemma HeadIn(g: Graph, p: seq<string>)
    requires Path(g, p)
    ensures p != [] && p[0] in g
  {
  }

  function UnpacksIn(m: Catalog): Graph {
    map n | n in m :: m[n].unpack
  }

  /** The unpack relation of the packages in a plan is as acyclic as that of all packages. */
  lemma PlanUnpacksRanked(m: Catalog, g: Graph, build: seq<string>, steps: seq<string>, plan: seq<Job>,
                          rank: map<string, nat>)
    requires Writes(m, g, build, steps, plan) && Ranked(UnpacksIn(m), rank)
    ensures Ranked(UnpackGraph(plan), rank)
  {
    hide PackageOf, TaskOf;
    var u := UnpackGraph(plan);
    forall p | p in u
      ensures p in m && u[p] == m[p].unpack
    {
      var i :| 0 <= i < |plan| && Package(plan[i]) == p && plan[i].unpacks == u[p];
      assert WrittenFor(m, g, build, steps[i], plan[i]);
    }
    assert forall p, q :: p in u && q in u[p] && q in u ==>
           p in UnpacksIn(m) && q in UnpacksIn(m)[p] && q in UnpacksIn(m);
  }

  /**
   * Plans and builds, going on after failures. Unless the plan is refused, every step that the
   * triggers need is built exactly once, after the steps it declares to depend on, whatever fails on the
   * way. With autoremove, exactly the source packages that nothing needs any more are removed, each once.
   */
  method PlanAndBuild(jdata: seq<Entry>, build: seq<string>, ignoreInvalid: bool, warnInvalid: bool, maxthreads: nat,
                      autoremove: bool, ghost rank: map<string, nat>)
    returns (planned: bool, built: seq<Job>, failed: set<string>, removed: seq<string>, ghost plan: seq<Job>,
            ghost outcomes: seq<bool>)
    requires InputOk(jdata, build) && Ranked(UnpacksIn(Rooted(jdata, build)), rank)
    ensures planned <==>
            !Refused(Rooted(jdata, build), ignoreInvalid, warnInvalid) && !RunsInCircles(Rooted(jdata, build), build)
    ensures planned ==>
              && DistinctNames(built) && Ordered(built)
              && forall k :: k in NamesOf(built) <==>
                   exists b :: TakesEffect(Rooted(jdata, build), build, b)
                               && Requires(Rooted(jdata, build), Qualify(b), k, ignoreInvalid)
    ensures planned ==>
              forall i :: 0 <= i < |built| ==>
                && Declared(Rooted(jdata, build), build, ignoreInvalid, built[i])
                && forall e :: DependsOn(Rooted(jdata, build), built[i].name, e, ignoreInvalid) ==>
                     e in NamesOf(built[..i])
    ensures planned ==>
              && multiset(built) == multiset(plan) && failed <= NamesOf(built) && |outcomes| == |built|
              && (forall i :: 0 <= i < |built| ==> (outcomes[i] <==> built[i].name in failed))
              && Ranked(UnpackGraph(plan), rank)
              && Distinct(removed)
              && forall q :: q in removed <==> autoremove && Expendable(plan, failed, q)
  {
    hide Expendable, Touches, Elements, Distinct, InputOk, IsNeeded, Rejected, Refused, RunsInCircles, IsNodeMap,
         CyclicTrigger, Triggered, Writes, Ranked, ValidPlan, Requires, TakesEffect, Ordered, DistinctNames, NamesOf,
         Builder.Valid, Builder.Swept, TargetOf, Qualify, Rooted, UnpacksIn, UnpackGraph, Disposable, Declared,
           DependsOn;
    ghost var m := Rooted(jdata, build);
    var r, needed, g := GeneratePlan(jdata, build, ignoreInvalid, warnInvalid);
    if r.Raise? {
      return false, [], {}, [], [], [];
    }
    plan := r.value;
    ghost var steps :| Writes(m, g, build, steps, plan);
    PlanUnpacksRanked(m, g, build, steps, plan, rank);
    DecidedBy(m, needed, g, build, ignoreInvalid, warnInvalid);
    var b := new Builder(r.value, rank, maxthreads, false, false, autoremove);
    var done, completions;
    done, completions, outcomes := b.Build();
    planned, built, failed, removed := true, b.generator.built, b.generator.failed.Keys, b.commands;
    Removals(b);
    BuiltAsDeclared(m, build, ignoreInvalid, plan, built);
    forall k
      ensures Triggered(g, build, k) <==>
              exists b :: TakesEffect(m, build, b) && Requires(m, Qualify(b), k, ignoreInvalid)
    {
      MapIsWhole(DeclsIn(m), needed, g);
      PlanIsClosure(jdata, build, needed, g, k, ignoreInvalid, warnInvalid);
    }
  }

  /** In an ordered list of jobs as declared, every step comes after all that it declares to depend on. */
  lemma BuiltAsDeclared(m: Catalog, build: seq<string>, ignoreInvalid: bool, plan: seq<Job>, built: seq<Job>)
    requires Ordered(built) && multiset(built) == multiset(plan)
    requires forall j :: j in plan ==> Declared(m, build, ignoreInvalid, j)
    ensures forall i :: 0 <= i < |built| ==>
              && Declared(m, build, ignoreInvalid, built[i])
              && forall e :: DependsOn(m, built[i].name, e, ignoreInvalid) ==> e in NamesOf(built[..i])
  {
    hide DependsOn, NamesOf, Distinct;
    forall i | 0 <= i < |built|
      ensures Declared(m, build, ignoreInvalid, built[i])
    {
      assert built[i] in multiset(built);
    }
  }

  /** What a finished builder has removed, read off the jobs alone. */
  lemma Removals(b: Builder)
    requires b.Valid() && b.Swept() && b.generator.work == [] && b.generator.building == {}
    ensures Ranked(UnpackGraph(b.generator.plan), b.generator.rank)
    ensures b.generator.failed.Keys <= NamesOf(b.generator.built)
    ensures Distinct(b.commands)
    ensures forall q :: q in b.commands <==>
            b.autoremove && Expendable(b.generator.plan, b.generator.failed.Keys, q)
  {
    hide Expendable, Tracks, Distinct, Tables, Ranked, NamesOf, CountedFor, CaughtUp, ValidPlan, Schedule.Inv,
         UnpackGraph;
    var g := b.generator;
    FailedAreBuilt(g.plan, g.State());
    TablesGiveGraph(g.plan, g.unpacks, g.sections);
    assert forall q :: q in Elements(b.commands) <==> q in b.commands;
    if b.autoremove {
      RemovedIsExpendable(g);
    }
  }

  lemma RemovedIsExpendable(g: Generator)
    requires g.Valid() && g.UpToDate() && g.work == [] && g.building == {}
    ensures Ranked(UnpackGraph(g.plan), g.rank)
    ensures forall q :: q in g.removedPackages <==> Expendable(g.plan, g.failed.Keys, q)
  {
    hide Expendable, Disposable, Tables, Ranked, NamesOf, CountedFor, CaughtUp, ValidPlan, Schedule.Inv, UnpackGraph;
    TablesGiveGraph(g.plan, g.unpacks, g.sections);
    Finished(g, true, true);
    forall q
      ensures Disposable(g.unpacks, g.rank, g.plan, g.sections, g.failed.Keys, q) <==>
              Expendable(g.plan, g.failed.Keys, q)
    {
      DisposableIsExpendable(g.plan, g.unpacks, g.sections, g.rank, g.failed.Keys, q);
    }
  }

  lemma FailedAreBuilt(plan: seq<Job>, s: Schedule.Sched)
    requires Schedule.Inv(plan, s)
    ensures s.failed.Keys <= NamesOf(s.built)
  {
  }

  lemma MapIsWhole(d: Decls, needed: seq<string>, g: Graph)
    requires IsNodeMap(d, needed, g)
    ensures Whole(g)
  {
    hide IsStep, NeedsStep, Distinct;
  }
}
