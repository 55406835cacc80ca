/** The generator: hands out jobs, records their completion, and counts references to source packages. */
module Generation {
  import opened Collections
  import opened Names
  import opened RankedGraph
  import opened Plan
  import opened Schedule
  import opened FailedJobs
  import opened Refcounts

  datatype Handout = NoneLeft | NoneReady | Start(job: Job, failedjobs: seq<Job>)

  function Packages(plan: seq<Job>): set<string> {
    set i | 0 <= i < |plan| :: Package(plan[i])
  }

  function Unpacked(plan: seq<Job>): set<string> {
    set i, u | 0 <= i < |plan| && u in plan[i].unpacks :: u
  }

  /** What each package of the plan unpacks. */
  ghost function UnpackGraph(plan: seq<Job>): Graph {
    map p | p in Packages(plan) :: (var i :| 0 <= i < |plan| && Package(plan[i]) == p; plan[i].unpacks)
  }

  ghost predicate Recorded(job: Job, unpacks: Graph, sections: map<string, string>) {
    && Package(job) in unpacks && unpacks[Package(job)] == job.unpacks
    && Package(job) in sections && sections[Package(job)] == job.section
  }

  /** The tables of package data that the generator derives from the first job of each package. */
  ghost predicate Tables(plan: seq<Job>, unpacks: Graph, sections: map<string, string>) {
    && unpacks.Keys == Packages(plan)
    && sections.Keys == Packages(plan) + Unpacked(plan)
    && (forall j :: j in plan ==> Recorded(j, unpacks, sections))
    && (forall u :: u in sections && u !in unpacks ==> sections[u] == "")
  }

  lemma TablesGiveGraph(plan: seq<Job>, unpacks: Graph, sections: map<string, string>)
    requires Tables(plan, unpacks, sections)
    ensures unpacks == UnpackGraph(plan)
  {
    forall p | p in unpacks
      ensures unpacks[p] == UnpackGraph(plan)[p]
    {
      var i :| 0 <= i < |plan| && Package(plan[i]) == p && plan[i].unpacks == UnpackGraph(plan)[p];
      assert Recorded(plan[i], unpacks, sections);
    }
  }

  method BuildTables(plan: seq<Job>) returns (unpacks: Graph, sections: map<string, string>)
    requires Consistent(plan)
    ensures Tables(plan, unpacks, sections)
  {
    unpacks, sections := map[], map[];
    for n := 0 to |plan|
      invariant Tables(plan[..n], unpacks, sections)
    {
      hide Tables, Consistent;
      var job := plan[n];
      var pkg := Package(job);
      ConsistentPrefix(plan, n);
      assert plan[..n + 1] == plan[..n] + [job];
      if pkg !in unpacks {
        var more := EnterUnpacked(sections[pkg := job.section], job.unpacks);
        TablesNew(plan[..n], unpacks, sections, job, more);
        unpacks, sections := unpacks[pkg := job.unpacks], more;
      } else {
        TablesKnown(plan[..n], unpacks, sections, job);
      }
    }
    assert plan[..|plan|] == plan;
  }

  lemma ConsistentPrefix(plan: seq<Job>, n: nat)
    requires Consistent(plan) && n < |plan|
    ensures Consistent(plan[..n] + [plan[n]])
  {
    assert forall j :: j in plan[..n] + [plan[n]] ==> j in plan;
  }

  /** Packages that are only unpacked have an unknown section: assume they are not virtual. */
  method EnterUnpacked(known: map<string, string>, unpacks: seq<string>) returns (sections: map<string, string>)
    ensures sections.Keys == known.Keys + Elements(unpacks)
    ensures forall u :: u in sections ==> sections[u] == if u in known then known[u] else ""
  {
    sections := known;
    for k := 0 to |unpacks|
      invariant sections.Keys == known.Keys + Elements(unpacks[..k])
      invariant forall u :: u in sections ==> sections[u] == if u in known then known[u] else ""
    {
      assert Elements(unpacks[..k + 1]) == Elements(unpacks[..k]) + {unpacks[k]};
      if unpacks[k] !in sections {
        sections := sections[unpacks[k] := ""];
      }
    }
    assert unpacks[..|unpacks|] == unpacks;
  }

  lemma PackagesAppend(jobs: seq<Job>, job: Job)
    ensures Packages(jobs + [job]) == Packages(jobs) + {Package(job)}
    ensures Unpacked(jobs + [job]) == Unpacked(jobs) + Elements(job.unpacks)
  {
    var all := jobs + [job];
    assert forall i :: 0 <= i < |jobs| ==> all[i] == jobs[i];
    assert all[|jobs|] == job;
    forall p | p in Packages(jobs)
      ensures p in Packages(all)
    {
      var i :| 0 <= i < |jobs| && Package(jobs[i]) == p;
      assert Package(all[i]) == p;
    }
    forall u | u in Unpacked(jobs)
      ensures u in Unpacked(all)
    {
      var i :| 0 <= i < |jobs| && u in jobs[i].unpacks;
      assert u in all[i].unpacks;
    }
  }

  lemma TablesKnown(jobs: seq<Job>, unpacks: Graph, sections: map<string, string>, job: Job)
    requires Consistent(jobs + [job])
    requires Tables(jobs, unpacks, sections) && Package(job) in unpacks
    ensures Tables(jobs + [job], unpacks, sections)
  {
    hide Package;
    var all := jobs + [job];
    assert forall j :: j in all <==> j in jobs || j == job;
    var i :| 0 <= i < |jobs| && Package(jobs[i]) == Package(job);
    assert jobs[i] in all && job in all;
    assert jobs[i].unpacks == job.unpacks && Recorded(jobs[i], unpacks, sections);
    assert Elements(job.unpacks) <= Unpacked(jobs);
    PackagesAppend(jobs, job);
    hide Packages, Unpacked, Consistent, Elements;
  }

  lemma TablesNew(jobs: seq<Job>, unpacks: Graph, sections: map<string, string>, job: Job, more: map<string, string>)
    requires Tables(jobs, unpacks, sections) && Package(job) !in unpacks
    requires more.Keys == sections.Keys + {Package(job)} + Elements(job.unpacks)
    requires var known := sections[Package(job) := job.section];
             forall u :: u in more ==> more[u] == if u in known then known[u] else ""
    ensures Tables(jobs + [job], unpacks[Package(job) := job.unpacks], more)
  {
    hide Package, Packages, Unpacked, Elements;
    PackagesAppend(jobs, job);
    var all, u' := jobs + [job], unpacks[Package(job) := job.unpacks];
    forall j | j in all
      ensures Recorded(j, u', more)
    {
      if j in jobs {
        assert Recorded(j, unpacks, sections);
      }
    }
  }

  /** Packages touched by a job: its own, and whatever its package unpacks, directly or not. */
  ghost predicate Gathers(g: Graph, rank: map<string, nat>, ps: seq<string>, before: seq<string>, after: seq<string>)
    requires Ranked(g, rank)
  {
    && (Distinct(before) ==> Distinct(after))
    && forall q :: q in after <==> q in before || PathsFrom(g, rank, ps, q) > 0
  }

  lemma GatherOn(g: Graph, rank: map<string, nat>, ps: seq<string>, p: string, a: seq<string>, b: seq<string>,
                 c: seq<string>)
    requires Ranked(g, rank)
    requires Gathers(g, rank, ps, a, b) && Gathers(g, rank, [p], b, c)
    ensures Gathers(g, rank, ps + [p], a, c)
  {
    forall q
      ensures PathsFrom(g, rank, ps + [p], q) == PathsFrom(g, rank, ps, q) + PathsFrom(g, rank, [p], q)
    {
      PathsFromSnoc(g, rank, ps, p, q);
      assert PathsFrom(g, rank, [p], q) == Paths(g, rank, p, q) + PathsFrom(g, rank, [p][1..], q);
    }
  }

  lemma GatherFrom(g: Graph, rank: map<string, nat>, p: string, a: seq<string>, b: seq<string>)
    requires Ranked(g, rank)
    requires Gathers(g, rank, if p in g then g[p] else [], EnterOnce(a, p), b)
    ensures Gathers(g, rank, [p], a, b)
  {
    forall q
      ensures PathsFrom(g, rank, [p], q)
              == (if p == q then 1 else 0) + PathsFrom(g, rank, if p in g then g[p] else [], q)
    {
      assert PathsFrom(g, rank, [p], q) == Paths(g, rank, p, q) + PathsFrom(g, rank, [p][1..], q);
    }
  }

  lemma ValidPlanParts(plan: seq<Job>)
    requires ValidPlan(plan)
    ensures DistinctNames(plan) && Ordered(plan) && Consistent(plan)
  {
  }

  lemma OwnPackageCounted(g: Graph, rank: map<string, nat>, plan: seq<Job>, done: set<string>, failed: set<string>,
                          counts: map<string, int>, job: Job)
    requires Ranked(g, rank) && job in plan
    requires CountedFor(g, rank, plan, done, failed, counts)
    ensures Package(job) in counts
  {
    hide Package;
    assert Touches(g, rank, job, Package(job));
  }

  lemma CompleteCounted(g: Graph, rank: map<string, nat>, plan: seq<Job>, sections: map<string, string>, s: Sched,
                        job: Job, outcome: bool, a: map<string, int>, b: map<string, int>, removed: set<string>)
    requires Ranked(g, rank) && ValidPlan(plan) && Inv(plan, s)
    requires job in plan && job.name in s.building
    requires CountedFor(g, rank, plan, NamesOf(s.built), s.failed.Keys, a)
    requires Walked(g, rank, job.unpacks, false, if outcome then a else a[Package(job) := Get(a, Package(job)) - 1], b)
    ensures var t := Complete(s, job, outcome); CountedFor(g, rank, plan, NamesOf(t.built), t.failed.Keys, b)
    ensures CaughtUp(g, rank, plan, sections, a, removed) ==> CaughtUpExcept(g, rank, plan, sections, b, removed, job)
  {
    hide ValidPlan, Inv, NamesOf, Exact, Keyed, Walked, CaughtUp, CaughtUpExcept, Package, Ranked;
    ValidPlanParts(plan);
    NotDone(plan, s, job);
    NamesOfAppend(s.built, job);
    var done, failed := NamesOf(s.built), s.failed.Keys;
    assert Complete(s, job, outcome).failed.Keys == if outcome then failed + {job.name} else failed;
    CompleteExact(g, rank, plan, done, failed, job, outcome, a, b);
    var entered := if outcome then a else a[Package(job) := Get(a, Package(job)) - 1];
    OwnPackageCounted(g, rank, plan, done, failed, a, job);
    SameKeys(g, rank, plan, a, entered);
    KeysStay(g, rank, plan, job, false, entered, b);
    if CaughtUp(g, rank, plan, sections, a, removed) {
      CompleteLags(g, rank, plan, sections, done, failed, job, outcome, a, b, removed);
    }
  }

  lemma SameKeys(g: Graph, rank: map<string, nat>, plan: seq<Job>, a: map<string, int>, b: map<string, int>)
    requires Ranked(g, rank) && Keyed(g, rank, plan, a) && a.Keys == b.Keys
    ensures Keyed(g, rank, plan, b)
  {
    assert forall q :: q in b <==> q in a;
  }

  lemma NotDone(plan: seq<Job>, s: Sched, job: Job)
    requires Inv(plan, s) && job.name in s.building
    ensures job.name !in NamesOf(s.built) && s.failed.Keys <= NamesOf(s.built)
  {
  }

  lemma SectionsClosed(plan: seq<Job>, unpacks: Graph, sections: map<string, string>)
    requires Tables(plan, unpacks, sections)
    ensures forall x, y :: x in unpacks && y in unpacks[x] ==> y in sections
    ensures forall j, u :: j in plan && u in j.unpacks ==> u in sections
  {
    hide Package;
    forall x, y | x in unpacks && y in unpacks[x]
      ensures y in sections
    {
      var i :| 0 <= i < |plan| && Package(plan[i]) == x;
      assert Recorded(plan[i], unpacks, sections);
      assert y in Unpacked(plan);
    }
    forall j, u | j in plan && u in j.unpacks
      ensures u in sections
    {
      assert u in Unpacked(plan);
    }
  }

  // ---- What is unpacked, read off the jobs alone ----

  /** Some job of package `a` unpacks package `b`. */
  ghost predicate Unpacks(plan: seq<Job>, a: string, b: string) {
    exists j :: j in plan && PackageOf(j.name) == a && b in j.unpacks
  }

  /** The job builds `q`, or unpacks it, directly or through what is unpacked. */
  ghost predicate Uses(plan: seq<Job>, job: Job, q: string) {
    PackageOf(job.name) == q || exists path :: UsesBy(plan, job, path, q)
  }

  ghost predicate UsesBy(plan: seq<Job>, job: Job, path: seq<string>, q: string) {
    && path != [] && path[0] in job.unpacks && path[|path| - 1] == q
    && forall i :: 0 < i < |path| ==> Unpacks(plan, path[i - 1], path[i])
  }

  lemma EdgeIsUnpacked(plan: seq<Job>, g: Graph, sections: map<string, string>)
    requires Tables(plan, g, sections)
    ensures forall a, b :: Edge(g, a, b) <==> Unpacks(plan, a, b)
  {
    hide PackageOf;
    forall a, b
      ensures Edge(g, a, b) <==> Unpacks(plan, a, b)
    {
      if Edge(g, a, b) {
        var i :| 0 <= i < |plan| && Package(plan[i]) == a;
        assert plan[i] in plan && Recorded(plan[i], g, sections);
      }
      if j :| j in plan && PackageOf(j.name) == a && b in j.unpacks {
        assert Recorded(j, g, sections);
      }
    }
  }

  /** What a job contributes to the reference counts is what it builds or unpacks. */
  lemma TouchesIsUse(plan: seq<Job>, g: Graph, sections: map<string, string>, rank: map<string, nat>, job: Job,
                     q: string)
    requires Tables(plan, g, sections) && Ranked(g, rank)
    ensures Touches(g, rank, job, q) <==> Uses(plan, job, q)
  {
    hide PackageOf, Unpacks, Edge, Tables, Ranked, Paths, PathsFrom;
    EdgeIsUnpacked(plan, g, sections);
    PathsFromPositive(g, rank, job.unpacks, q);
    if u :| u in job.unpacks && Paths(g, rank, u, q) > 0 {
      PathsAreChains(g, rank, u, q);
      var path :| Chain(g, path, u, q);
      assert UsesBy(plan, job, path, q);
    }
    if path :| UsesBy(plan, job, path, q) {
      assert Chain(g, path, path[0], q);
      PathsAreChains(g, rank, path[0], q);
    }
  }

  /** After removing what a completed job made removable, removal has caught up. */
  lemma CatchUp(g: Graph, rank: map<string, nat>, plan: seq<Job>, sections: map<string, string>,
                counts: map<string, int>, removed: set<string>, job: Job, gone: set<string>)
    requires Ranked(g, rank) && job in plan
    requires CaughtUpExcept(g, rank, plan, sections, counts, removed, job)
    requires forall q :: q in gone <==>
               && Touches(g, rank, job, q)
               && q in counts && counts[q] == 0
               && q in sections && sections[q] != "virtual"
               && q !in removed
    requires Keyed(g, rank, plan, counts)
    ensures CaughtUp(g, rank, plan, sections, counts, removed + gone)
  {
    hide Touches;
    forall q | Touches(g, rank, job, q)
      ensures Referenced(g, rank, plan, q)
    {
    }
  }

  /** Hands out the jobs of a plan; `State()` is the value that the scheduling lemmas speak about. */
  class Generator {
    ghost const plan: seq<Job>
    ghost const rank: map<string, nat>       // witnesses that unpacking has no cycles
    const totalJobs: nat
    const unpacks: Graph
    const sections: map<string, string>
    var work: seq<Job>
    var building: set<string>
    var built: seq<Job>
    var failed: map<string, Job>
    var removedPackages: set<string>
    var checkNoDeps: bool
    var refcount: map<string, int>

    ghost function State(): Sched
      reads this
    {
      Sched(work, building, built, failed, checkNoDeps)
    }

    ghost predicate Static() {
      && ValidPlan(plan)
      && totalJobs == |plan|
      && Tables(plan, unpacks, sections)
      && Ranked(unpacks, rank)
    }

    /** The counts are exact, and kept for exactly the packages that the plan refers to. */
    ghost predicate Counted()
      requires Static()
      reads this
    {
      CountedFor(unpacks, rank, plan, NamesOf(built), failed.Keys, refcount)
    }

    ghost predicate Valid()
      reads this
    {
      Static() && Inv(plan, State()) && Counted()
    }

    ghost predicate UpToDate()
      requires Static()
      reads this
    {
      CaughtUp(unpacks, rank, plan, sections, refcount, removedPackages)
    }

    constructor (plan: seq<Job>, ghost rank: map<string, nat>)
      requires ValidPlan(plan)
      requires Ranked(UnpackGraph(plan), rank)
      ensures this.plan == plan && this.rank == rank
      ensures Valid()
      ensures State() == Schedule.Start(plan)
      ensures removedPackages == {} && UpToDate()
    {
      hide ValidPlan, UnpackGraph, Tables, Ranked, Inv, CountedFor, CaughtUp, Schedule.Start, NamesOf;
      ValidPlanParts(plan);
      var unpacks, sections := BuildTables(plan);
      TablesGiveGraph(plan, unpacks, sections);
      this.plan, this.rank := plan, rank;
      totalJobs := |plan|;
      this.unpacks, this.sections := unpacks, sections;
      work, building, built, failed := plan, {}, [], map[];
      removedPackages := {};
      checkNoDeps := true;
      refcount := map[];
      new;
      CountAll(plan);
      StartInv(plan);
      AtStart();
    }

    lemma AtStart()
      requires Ranked(unpacks, rank)
      requires built == [] && failed == map[] && building == {} && work == plan && checkNoDeps
      requires CountedFor(unpacks, rank, plan, {}, {}, refcount)
      ensures State() == Schedule.Start(plan)
      ensures CountedFor(unpacks, rank, plan, NamesOf(built), failed.Keys, refcount)
      ensures CaughtUp(unpacks, rank, plan, sections, refcount, {})
    {
      assert NamesOf(built) == {} && failed.Keys == {};
      forall q | Referenced(unpacks, rank, plan, q)
        ensures Get(refcount, q) != 0
      {
        ZeroMeansUnused(unpacks, rank, plan, {}, failed.Keys, refcount, q);
        var j :| j in plan && Touches(unpacks, rank, j, q);
      }
    }

    method CountAll(plan: seq<Job>)
      requires Ranked(unpacks, rank) && refcount == map[]
      modifies this`refcount
      ensures CountedFor(unpacks, rank, plan, {}, {}, refcount)
    {
      hide Ranked, CountedFor, Walked, Package, Get;
      NothingCounted(unpacks, rank);
      for n := 0 to |plan|
        invariant CountedFor(unpacks, rank, plan[..n], {}, {}, refcount)
      {
        var job := plan[n];
        ghost var before := refcount;
        refcount := refcount[Package(job) := Get(refcount, Package(job)) + 1];
        ghost var entered := refcount;
        WalkedNowhere(unpacks, rank, true, entered);
        for k := 0 to |job.unpacks|
          invariant Walked(unpacks, rank, job.unpacks[..k], true, entered, refcount)
        {
          ghost var mid := refcount;
          AddRefCounts(job.unpacks[k]);
          WalkedOn(unpacks, rank, job.unpacks[..k], job.unpacks[k], true, entered, mid, refcount);
          assert job.unpacks[..k + 1] == job.unpacks[..k] + [job.unpacks[k]];
        }
        assert job.unpacks[..|job.unpacks|] == job.unpacks;
        CountJob(unpacks, rank, plan[..n], job, before, refcount);
        assert plan[..n + 1] == plan[..n] + [job];
      }
      assert plan[..|plan|] == plan;
    }

    method AddRefCounts(pkg: string)
      requires Ranked(unpacks, rank)
      modifies this`refcount
      ensures Walked(unpacks, rank, [pkg], true, old(refcount), refcount)
      decreases Level(unpacks, rank, pkg)
    {
      hide Walked;
      refcount := refcount[pkg := Get(refcount, pkg) + 1];
      ghost var entered := refcount;
      WalkedNowhere(unpacks, rank, true, entered);
      if pkg in unpacks {
        var ps := unpacks[pkg];
        for k := 0 to |ps|
          invariant Walked(unpacks, rank, ps[..k], true, entered, refcount)
        {
          ghost var mid := refcount;
          AddRefCounts(ps[k]);
          WalkedOn(unpacks, rank, ps[..k], ps[k], true, entered, mid, refcount);
          assert ps[..k + 1] == ps[..k] + [ps[k]];
        }
        assert ps[..|ps|] == ps;
      }
      WalkedFrom(unpacks, rank, pkg, true, old(refcount), refcount);
    }

    method DelRefCounts(pkg: string)
      requires Ranked(unpacks, rank)
      modifies this`refcount
      ensures Walked(unpacks, rank, [pkg], false, old(refcount), refcount)
      decreases Level(unpacks, rank, pkg)
    {
      hide Walked;
      refcount := refcount[pkg := Get(refcount, pkg) - 1];
      ghost var entered := refcount;
      WalkedNowhere(unpacks, rank, false, entered);
      if pkg in unpacks {
        var ps := unpacks[pkg];
        for k := 0 to |ps|
          invariant Walked(unpacks, rank, ps[..k], false, entered, refcount)
        {
          ghost var mid := refcount;
          DelRefCounts(ps[k]);
          WalkedOn(unpacks, rank, ps[..k], ps[k], false, entered, mid, refcount);
          assert ps[..k + 1] == ps[..k] + [ps[k]];
        }
        assert ps[..|ps|] == ps;
      }
      WalkedFrom(unpacks, rank, pkg, false, old(refcount), refcount);
    }

    method AddUnpackPackages(pkg: string, packages: seq<string>) returns (r: seq<string>)
      requires Ranked(unpacks, rank)
      ensures Gathers(unpacks, rank, [pkg], packages, r)
      decreases Level(unpacks, rank, pkg)
    {
      hide Gathers;
      r := EnterOnce(packages, pkg);
      ghost var entered := r;
      GatherNothing(entered);
      if pkg in unpacks {
        var ps := unpacks[pkg];
        for k := 0 to |ps|
          invariant Gathers(unpacks, rank, ps[..k], entered, r)
        {
          ghost var mid := r;
          r := AddUnpackPackages(ps[k], r);
          GatherOn(unpacks, rank, ps[..k], ps[k], entered, mid, r);
          assert ps[..k + 1] == ps[..k] + [ps[k]];
        }
        assert ps[..|ps|] == ps;
      }
      GatherFrom(unpacks, rank, pkg, packages, r);
    }

    lemma GatherNothing(names: seq<string>)
      requires Ranked(unpacks, rank)
      ensures Gathers(unpacks, rank, [], names, names)
    {
    }

    method CanBuildJob(job: Job) returns (ok: bool)
      ensures ok <==> CanBuild(job, NamesOf(built))
    {
      hide NamesOf;
      for i := 0 to |job.wants|
        invariant forall k :: 0 <= k < i ==> job.wants[k] in NamesOf(built)
      {
        if job.wants[i] !in NamesOf(built) {
          return false;
        }
      }
      return true;
    }

    method GetFirstFailedJob(job: Job) returns (r: Option<Job>)
      requires DistinctNames(plan) && Blameable(failed, Position(plan))
      ensures r == FirstFailed(failed, Position(plan), job.wants)
      decreases Height(WantsGraph(failed), Position(plan), job.wants)
    {
      hide Position, DistinctNames;
      for i := 0 to |job.wants|
        invariant FirstFailed(failed, Position(plan), job.wants) == FirstFailed(failed, Position(plan), job.wants[i..])
      {
        var dep := job.wants[i];
        assert job.wants[i..][0] == dep && job.wants[i..][1..] == job.wants[i + 1..];
        if dep in failed {
          HeightOfSuccessors(WantsGraph(failed), Position(plan), dep);
          var failedjob := GetFirstFailedJob(failed[dep]);
          return Some(if failedjob == None then failed[dep] else failedjob.value);
        }
      }
      return None;
    }

    method GetAllFailedJobs(job: Job) returns (flist: seq<Job>)
      requires DistinctNames(plan) && Blameable(failed, Position(plan))
      ensures flist == AllFailed(failed, Position(plan), job.wants)
    {
      hide Position, DistinctNames, Enter, FirstFailed;
      flist := [];
      for i := 0 to |job.wants|
        invariant flist == AllFailed(failed, Position(plan), job.wants[..i])
      {
        var dep := job.wants[i];
        assert job.wants[..i + 1][i] == dep && job.wants[..i + 1][..i] == job.wants[..i];
        if dep in failed {
          var failedjob := GetFirstFailedJob(failed[dep]);
          flist := Enter(flist, if failedjob == None then failed[dep] else failedjob.value);
        }
      }
      assert job.wants[..|job.wants|] == job.wants;
    }

    /** Takes job `i` off the waiting list. */
    method HandOut(i: nat) returns (r: Handout)
      requires i < |work|
      requires DistinctNames(plan) && Blameable(failed, Position(plan))
      modifies this`work, this`building
      ensures State() == Hand(old(State()), i)
      ensures r == Handout.Start(old(work[i]), AllFailed(failed, Position(plan), old(work[i]).wants))
    {
      var job := work[i];
      building := building + {job.name};
      work := work[..i] + work[i + 1..];
      var blamed := GetAllFailedJobs(job);
      return Handout.Start(job, blamed);
    }

    /** Looks for a job without dependencies. */
    method SearchFree() returns (i: nat)
      ensures i == FirstFree(work)
    {
      i := 0;
      while i < |work| && work[i].wants != []
        invariant i <= |work|
        invariant FirstFree(work) == i + FirstFree(work[i..])
      {
        assert work[i..][1..] == work[i + 1..];
        i := i + 1;
      }
    }

    /** Looks for a job with all its dependencies satisfied. */
    method SearchReady() returns (i: nat)
      ensures i == FirstReady(work, NamesOf(built))
    {
      hide NamesOf;
      i := 0;
      while i < |work|
        invariant i <= |work|
        invariant FirstReady(work, NamesOf(built)) == i + FirstReady(work[i..], NamesOf(built))
      {
        var ready := CanBuildJob(work[i]);
        assert work[i..][0] == work[i] && work[i..][1..] == work[i + 1..];
        if ready {
          return;
        }
        i := i + 1;
      }
    }

    method GetNextJob() returns (r: Handout)
      requires Valid()
      modifies this`work, this`building, this`checkNoDeps
      ensures Valid()
      ensures State() == Fetch(old(State()))
      ensures match Choose(old(State()))
              case Empty => r == NoneLeft
              case Stalled => r == NoneReady
              case Pick(i) =>
                var job := old(work)[i];
                && Blameable(failed, Position(plan))
                && r == Handout.Start(job, AllFailed(failed, Position(plan), job.wants))
      ensures r.Start? ==> IsDue(r.job, old(work), NamesOf(built))
      ensures r.Start? ==>
                exists i: nat :: IsNext(old(work), NamesOf(built), i) && r.job == old(work)[i]
                                 && work == old(work)[..i] + old(work)[i + 1..]
                                 && building == old(building) + {r.job.name}
      ensures !r.Start? ==> work == old(work) && building == old(building)
      ensures r == NoneLeft <==> old(work) == []
      ensures r == NoneReady <==>
              old(work) != [] && forall j :: j in old(work) ==> exists w :: w in j.wants && w !in NamesOf(built)
    {
      hide IsNext, IsDue, ValidPlan, Inv, Tables, Ranked, CountedFor, NamesOf, AllFailed, Position, FirstFree,
           FirstReady, Blameable;
      ScheduleBlameable(plan, State());
      FetchInv(plan, State());
      ChooseIsNext(plan, State());
      if Choose(State()).Pick? {
        PickedIsDue(plan, State());
      }
      if work == [] {
        return NoneLeft;
      }
      if checkNoDeps {
        var i := SearchFree();
        if i < |work| {
          r := HandOut(i);
          return;
        }
        checkNoDeps := false;
      }
      var i := SearchReady();
      if i < |work| {
        r := HandOut(i);
        return;
      }
      return NoneReady;
    }

    method Completed(job: Job, jobFailed: bool)
      requires Valid() && job in plan && job.name in building
      modifies this`built, this`building, this`failed, this`refcount
      ensures Valid()
      ensures State() == Complete(old(State()), job, jobFailed)
      ensures built == old(built) + [job] && building == old(building) - {job.name}
      ensures failed == if jobFailed then old(failed)[job.name := job] else old(failed)
      ensures old(UpToDate()) ==> CaughtUpExcept(unpacks, rank, plan, sections, refcount, removedPackages, job)
    {
      hide ValidPlan, Inv, Tables, Ranked, CountedFor, NamesOf, Walked, CaughtUp, CaughtUpExcept, Package;
      CompleteInv(plan, State(), job, jobFailed);
      OwnPackageCounted(unpacks, rank, plan, NamesOf(built), failed.Keys, refcount, job);
      ghost var before := refcount;
      built := built + [job];
      building := building - {job.name};
      if jobFailed {
        failed := failed[job.name := job];
      } else {
        refcount := refcount[Package(job) := refcount[Package(job)] - 1];
      }
      ghost var entered := refcount;
      WalkedNowhere(unpacks, rank, false, entered);
      for k := 0 to |job.unpacks|
        invariant Walked(unpacks, rank, job.unpacks[..k], false, entered, refcount)
        invariant State() == Complete(old(State()), job, jobFailed)
      {
        ghost var mid := refcount;
        DelRefCounts(job.unpacks[k]);
        WalkedOn(unpacks, rank, job.unpacks[..k], job.unpacks[k], false, entered, mid, refcount);
        assert job.unpacks[..k + 1] == job.unpacks[..k] + [job.unpacks[k]];
      }
      assert job.unpacks[..|job.unpacks|] == job.unpacks;
      CompleteCounted(unpacks, rank, plan, sections, old(State()), job, jobFailed, before, refcount, removedPackages);
    }

    /**
     * The source packages that can go after `job`: those it touches that nothing
     * refers to any more, unless virtual or already removed.
     */
    method GetPackagesToRemove(job: Job) returns (r: seq<string>)
      requires Valid() && job in plan
      ensures Distinct(r)
      ensures forall q :: q in r <==> Removable(job, q)
    {
      hide ValidPlan, Inv, Tables, Ranked, CountedFor, Gathers, Package, Touches, NamesOf;
      var packages := [Package(job)];
      GatherNothing(packages);
      for k := 0 to |job.unpacks|
        invariant Gathers(unpacks, rank, job.unpacks[..k], [Package(job)], packages)
      {
        ghost var mid := packages;
        packages := AddUnpackPackages(job.unpacks[k], packages);
        GatherOn(unpacks, rank, job.unpacks[..k], job.unpacks[k], [Package(job)], mid, packages);
        assert job.unpacks[..k + 1] == job.unpacks[..k] + [job.unpacks[k]];
      }
      assert job.unpacks[..|job.unpacks|] == job.unpacks;
      GatheredTouched(job, packages);
      r := [];
      for k := 0 to |packages|
        invariant Distinct(r)
        invariant forall q :: q in r <==> q in packages[..k] && Removable(job, q)
      {
        var q := packages[k];
        assert q in packages && q !in packages[..k];
        assert packages[..k + 1] == packages[..k] + [q];
        if refcount[q] == 0 && sections[q] != "virtual" && q !in removedPackages {
          r := r + [q];
        }
      }
      assert packages[..|packages|] == packages;
    }

    ghost predicate Removable(job: Job, q: string)
      requires Ranked(unpacks, rank)
      reads this
    {
      && Touches(unpacks, rank, job, q)
      && q in refcount && refcount[q] == 0
      && q in sections && sections[q] != "virtual"
      && q !in removedPackages
    }

    lemma GatheredTouched(job: Job, packages: seq<string>)
      requires Valid() && job in plan
      requires Gathers(unpacks, rank, job.unpacks, [Package(job)], packages)
      ensures Distinct(packages)
      ensures forall q :: q in packages <==> Touches(unpacks, rank, job, q)
      ensures forall q :: q in packages ==> q in refcount && q in sections
    {
      hide Package, Inv, NamesOf;
      SectionsClosed(plan, unpacks, sections);
      assert Recorded(job, unpacks, sections);
      forall q | Touches(unpacks, rank, job, q)
        ensures q in refcount && q in sections
      {
        assert Referenced(unpacks, rank, plan, q);
        TouchedStayIn(unpacks, rank, sections.Keys, job, q);
      }
    }

    /** A package offered for removal is used by the completed job, but by no queued or running one. */
    lemma RemovableIsUnused(job: Job, q: string)
      requires Valid() && Removable(job, q)
      ensures Uses(plan, job, q)
      ensures forall j :: j in plan && j.name !in NamesOf(built) ==> !Uses(plan, j, q)
      ensures forall j :: j in plan && j.name in failed ==> PackageOf(j.name) != q
    {
      hide PackageOf, Uses, Touches, Tables, NamesOf;
      ZeroMeansUnused(unpacks, rank, plan, NamesOf(built), failed.Keys, refcount, q);
      forall j
        ensures Touches(unpacks, rank, j, q) <==> Uses(plan, j, q)
      {
        TouchesIsUse(plan, unpacks, sections, rank, j, q);
      }
    }

    method Removed(pkg: string)
      modifies this`removedPackages
      ensures removedPackages == old(removedPackages) + {pkg}
    {
      removedPackages := removedPackages + {pkg};
    }
  }
}
