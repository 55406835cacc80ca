/** The list of build steps for the triggers, and the plan written from it. */
module BuildSteps {
  import opened Collections
  import opened Names
  import opened RankedGraph
  import opened Cull
  import opened Packages
  import opened Resolve
  import opened Nodes
  import opened Plan
  import opened Planner

  /** A build trigger takes effect only if its step is a node. */
  predicate Triggers(g: Graph, b: string) {
    b != "" && Qualify(b) in g
  }

  ghost predicate Triggered(g: Graph, build: seq<string>, k: string) {
    exists b :: b in build && Triggers(g, b) && Reaches(g, Qualify(b), k)
  }

  ghost predicate CyclicTrigger(g: Graph, build: seq<string>) {
    exists b :: b in build && Triggers(g, b) && Cyclic(g, Qualify(b))
  }

  /** Resolves trigger after trigger. */
  method GetBuildSteps(g: Graph, build: seq<string>) returns (r: Result<seq<string>>)
    requires Whole(g)
    ensures r.Raise? <==> CyclicTrigger(g, build)
    ensures r.Ok? ==> Topological(g, r.value) && forall k :: k in r.value <==> Triggered(g, build, k)
  {
    hide Whole, Topological, Adds, Cyclic, Reaches, Qualify;
    var resolver := new Resolver();
    NothingResolved(g);
    for i := 0 to |build|
      invariant resolver.unresolved == [] && Topological(g, resolver.resolved)
      invariant forall k :: k in resolver.resolved ==> Triggered(g, build, k)
      invariant forall j :: 0 <= j < i && Triggers(g, build[j]) ==>
                Qualify(build[j]) in resolver.resolved && !Cyclic(g, Qualify(build[j]))
    {
      var b := build[i];
      assert b in build;
      if Triggers(g, b) {
        ghost var before := resolver.resolved;
        StartOfTrail(g, Qualify(b));
        var ok := resolver.DepResolve(g, Qualify(b));
        if !ok {
          return Raise("Circular reference detected");
        }
        AddsTriggered(g, build, b, before, resolver.resolved);
      }
    }
    forall k | Triggered(g, build, k)
      ensures k in resolver.resolved
    {
      var b :| b in build && Triggers(g, b) && Reaches(g, Qualify(b), k);
      TopologicalClosed(g, resolver.resolved, Qualify(b), k);
    }
    return Ok(resolver.resolved);
  }

  lemma NothingResolved(g: Graph)
    ensures Topological(g, [])
  {
  }

  lemma StartOfTrail(g: Graph, node: string)
    requires node in g
    ensures FollowsTrail(g, [], node)
  {
  }

  lemma AddsTriggered(g: Graph, build: seq<string>, b: string, before: seq<string>, after: seq<string>)
    requires b in build && Triggers(g, b) && Adds(g, before, after, Qualify(b))
    requires forall k :: k in before ==> Triggered(g, build, k)
    ensures forall k :: k in after ==> Triggered(g, build, k)
    ensures forall k :: k in before ==> k in after
  {
    hide Qualify, Reaches;
    AddsMembers(g, before, after, Qualify(b));
    forall k | k in after
      ensures Triggered(g, build, k)
    {
      var i :| 0 <= i < |after| && after[i] == k;
      if i < |before| {
        assert after[i] == before[i];
      }
    }
  }

  /** Only for an image are target packages installed; everything else is just built. */
  function TaskOf(step: string, build: seq<string>): string {
    if EndsWith(step, ":host") || EndsWith(step, ":init") || "image" !in build then "build" else "install"
  }

  /** A step is installed exactly if an image is built and the step is not one of the build host. */
  lemma TaskByTarget(pkg: string, target: string, build: seq<string>)
    requires ':' !in pkg && ':' !in target
    ensures TaskOf(FullName(pkg, target), build) == "install" <==>
            "image" in build && target != "host" && target != "init"
    ensures TaskOf(FullName(pkg, target), build) == "build" || TaskOf(FullName(pkg, target), build) == "install"
  {
    hide EndsWith, FullName;
    assert ":" + "host" == ":host" && ":" + "init" == ":init";
    EndsWithTarget(pkg, target, "host");
    EndsWithTarget(pkg, target, "init");
  }

  lemma EndsWithTarget(pkg: string, target: string, t: string)
    requires ':' !in target && ':' !in t
    ensures EndsWith(FullName(pkg, target), ":" + t) <==> target == t
  {
    var name, suffix := FullName(pkg, target), ":" + t;
    if EndsWith(name, suffix) {
      var v := name[..|name| - |suffix|];
      assert name == v + ":" + t;
      if |target| < |t| {
        ColonInside(pkg, target, v, t);
      } else if |t| < |target| {
        ColonInside(v, t, pkg, target);
      }
      assert target == name[|pkg| + 1..] && t == name[|v| + 1..];
    } else {
      assert name[|pkg|..] == ":" + target;
    }
  }

  lemma ColonInside(u: string, x: string, v: string, y: string)
    requires u + ":" + x == v + ":" + y && |x| < |y|
    ensures ':' in y
  {
    assert (u + ":" + x)[|u|] == ':' && (v + ":" + y)[|u|] == y[|u| - |v| - 1];
  }

  /** Job `j` has the task, the edges and the package data of step `k`. */
  ghost predicate WrittenFor(m: Catalog, g: Graph, build: seq<string>, k: string, j: Job) {
    && k in g && PackageOf(k) in m
    && j.name == k && j.wants == g[k] && j.task == TaskOf(k, build)
    && j.section == m[PackageOf(k)].section && j.unpacks == m[PackageOf(k)].unpack
  }

  /** The jobs of the plan are the steps, in order, with the package data and edges they have. */
  ghost predicate Writes(m: Catalog, g: Graph, build: seq<string>, steps: seq<string>, plan: seq<Job>) {
    |plan| == |steps| && forall i :: 0 <= i < |steps| ==> WrittenFor(m, g, build, steps[i], plan[i])
  }

  /** Writes the plan. */
  method WritePlan(t: Table, g: Graph, build: seq<string>, steps: seq<string>, ghost m: Catalog)
    returns (plan: seq<Job>)
    requires Carried(t, m)
    requires forall k :: k in steps ==> k in g && PackageOf(k) in t
    ensures Writes(m, g, build, steps, plan)
    ensures |plan| == |steps|
    ensures forall i :: 0 <= i < |steps| ==>
              && plan[i].name == steps[i] && plan[i].wants == g[steps[i]]
              && plan[i].section == m[PackageOf(steps[i])].section
              && plan[i].unpacks == m[PackageOf(steps[i])].unpack
    ensures forall i :: 0 <= i < |steps| ==>
              plan[i].task == if "image" in build && !EndsWith(steps[i], ":host") && !EndsWith(steps[i], ":init")
                then "install" else "build"
  {
    hide BuildPackage.WantsDeps, EndsWith, PackageOf;
    plan := [];
    for i := 0 to |steps|
      invariant Writes(m, g, build, steps[..i], plan)
    {
      var k := steps[i];
      assert k in steps;
      var p := t[PackageOf(k)];
      assert Carries(p, m[PackageOf(k)]);
      plan := plan + [Job(TaskOf(k, build), k, p.section, g[k], p.unpacks)];
    }
    assert steps[..|steps|] == steps;
  }

  ghost function DeclsIn(m: Catalog): Decls {
    map n | n in m :: m[n].deps
  }

  lemma DeclsInOk(m: Catalog)
    requires CatalogOk(m)
    ensures DeclsOk(DeclsIn(m))
  {
    hide Token;
  }

  lemma NeededKnown(m: Catalog, needed: seq<string>)
    requires IsNeeded(m, needed) && ROOT in m
    ensures Known(DeclsIn(m), needed)
  {
    hide Distinct;
    var w, x :| IsWanters(m, w) && Greatest(w, x) && Elements(needed) == x + {ROOT};
    forall n | n in needed
      ensures n in m
    {
      assert n in Elements(needed);
      assert n in x ==> SupportedIn(w, x, n);
    }
  }

  lemma StepsKnown(m: Catalog, needed: seq<string>, g: Graph, steps: seq<string>)
    requires CatalogOk(m) && IsNodeMap(DeclsIn(m), needed, g) && Topological(g, steps)
    ensures forall k :: k in steps ==> k in g && PackageOf(k) in m && StepName(k)
  {
    hide IsStep, NeedsStep, Distinct, PackageOf, StepName, CatalogOk;
    DeclsInOk(m);
    forall k | k in steps
      ensures k in g && PackageOf(k) in m && StepName(k)
    {
      var i :| 0 <= i < |steps| && steps[i] == k;
      StepPackageKnown(DeclsIn(m), needed, k);
    }
  }

  /** What the planner writes is what the scheduler needs. */
  lemma PlanIsValid(m: Catalog, g: Graph, build: seq<string>, steps: seq<string>, plan: seq<Job>)
    requires Writes(m, g, build, steps, plan) && Topological(g, steps)
    requires forall k :: k in steps ==> StepName(k)
    ensures ValidPlan(plan)
    ensures NamesOf(plan) == Elements(steps)
  {
    hide StepName, PackageOf;
    forall i | 0 <= i <= |plan|
      ensures NamesOf(plan[..i]) == Elements(steps[..i])
    {
      SameNamesOf(m, g, build, steps, plan, i);
    }
    assert plan[..|plan|] == plan && steps[..|steps|] == steps;
    assert forall i :: 0 <= i < |plan| ==> plan[i].name == steps[i] && plan[i].wants == g[steps[i]];
    PlanIsOrdered(g, steps, plan);
  }

  lemma SameNamesOf(m: Catalog, g: Graph, build: seq<string>, steps: seq<string>, plan: seq<Job>, i: nat)
    requires Writes(m, g, build, steps, plan) && i <= |plan|
    ensures NamesOf(plan[..i]) == Elements(steps[..i])
  {
    hide PackageOf, TaskOf;
    forall n | n in Elements(steps[..i])
      ensures n in NamesOf(plan[..i])
    {
      var j :| 0 <= j < i && steps[j] == n;
      assert plan[..i][j].name == n;
    }
    forall n | n in NamesOf(plan[..i])
      ensures n in Elements(steps[..i])
    {
      var j :| 0 <= j < i && plan[..i][j].name == n;
      assert steps[..i][j] == n;
    }
  }

  lemma PlanIsOrdered(g: Graph, steps: seq<string>, plan: seq<Job>)
    requires Topological(g, steps) && |plan| == |steps|
    requires forall i :: 0 <= i < |plan| ==> plan[i].wants == g[steps[i]]
    requires forall i :: 0 <= i <= |plan| ==> NamesOf(plan[..i]) == Elements(steps[..i])
    ensures Ordered(plan)
  {
    hide Distinct, NamesOf;
  }
}
