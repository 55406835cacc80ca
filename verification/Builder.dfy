/** The build loop: keeps the worker threads busy until no more work can be done. */
module Building {
  import opened Collections
  import opened Names
  import opened RankedGraph
  import opened Plan
  import opened Schedule
  import opened FailedJobs
  import opened Refcounts
  import opened Generation

  class Builder {
    const generator: Generator
    const threadcount: nat
    const haltonerror: bool
    const failimmediately: bool
    const autoremove: bool
    var inFlight: seq<Job>     // handed to the worker threads and not yet collected
    var commands: seq<string>  // packages whose source was removed, in order

    ghost predicate Valid()
      reads this, generator
    {
      && generator.Valid()
      && 1 <= threadcount
      && |generator.building| <= threadcount
      && Tracks(generator.plan, inFlight, generator.building)
    }

    /** The sources removed so far are exactly the removable ones, each removed once; none without autoremove. */
    ghost predicate Swept()
      requires generator.Static()
      reads this, generator
    {
      && Distinct(commands)
      && Elements(commands) == generator.removedPackages
      && (if autoremove then generator.UpToDate() else commands == [])
    }

    constructor (plan: seq<Job>, ghost rank: map<string, nat>, maxthreads: nat, haltonerror: bool,
                 failimmediately: bool, autoremove: bool)
      requires ValidPlan(plan) && Ranked(UnpackGraph(plan), rank)
      ensures Valid() && Swept()
      ensures fresh(generator)
      ensures generator.plan == plan && generator.rank == rank && generator.State() == Schedule.Start(plan)
      ensures this.haltonerror == haltonerror && this.failimmediately == failimmediately
              && this.autoremove == autoremove
      ensures inFlight == [] && commands == []
      ensures threadcount == if plan == [] || maxthreads == 0 then 1
              else if |plan| < maxthreads then |plan| else maxthreads
    {
      var g := new Generator(plan, rank);
      generator := g;
      var atMost := if |plan| < maxthreads then |plan| else maxthreads;
      threadcount := if atMost < 1 then 1 else atMost;
      this.haltonerror, this.failimmediately, this.autoremove := haltonerror, failimmediately, autoremove;
      inFlight, commands := [], [];
      new;
      assert NamesOf(inFlight) == {};
    }

    /**
     * Fills the free threads, until none is left or every waiting job has a dependency that is not built yet.
     * Nothing is started once a failure has been recorded under halt-on-error; otherwise the loop goes on
     * exactly while something is being built.
     */
    method QueueWork() returns (more: bool)
      requires Valid()
      modifies this`inFlight, generator`work, generator`building, generator`checkNoDeps
      ensures Valid()
      ensures haltonerror && generator.failed != map[] ==>
                && generator.State() == old(generator.State()) && inFlight == old(inFlight)
                && (more <==> !failimmediately && generator.building != {})
      ensures !haltonerror || generator.failed == map[] ==>
                && generator.State() == Fill(old(generator.State()), threadcount - |old(generator.building)|)
                && (|generator.building| == threadcount ||
                    forall j :: j in generator.work ==> exists w :: w in j.wants && w !in NamesOf(generator.built))
                && (more <==> generator.building != {})
    {
      hide Generator.Static, Inv, Generator.Counted, Choose, Fetch, AllFailed, Blameable, Position, Tracks, NamesOf,
           Saturated, IsNext, CanBuild;
      if haltonerror && generator.failed != map[] {
        return !failimmediately && generator.building != {};
      }
      ghost var start := generator.State();
      Filled(start);
      var i := |generator.building|;
      while i < threadcount
        invariant Valid()
        invariant i == |generator.building|
        invariant Fill(generator.State(), threadcount - i) == Fill(start, threadcount - |start.building|)
        modifies this`inFlight, generator`work, generator`building, generator`checkNoDeps
        decreases threadcount - i
      {
        ghost var s := generator.State();
        Facts(s);
        var next := generator.GetNextJob();
        match next {
          case NoneReady =>
            return true;
          case NoneLeft =>
            return generator.building != {};
          case Start(job, _) =>
            TrackPick(generator.plan, s, inFlight);
            inFlight := inFlight + [job];
            i := i + 1;
        }
      }
      return true;
    }

    lemma Filled(s: Sched)
      requires Valid() && s == generator.State()
      ensures var t := Fill(s, threadcount - |s.building|);
              t.built == s.built &&
              (|t.building| == threadcount ||
               forall j :: j in t.work ==> exists w :: w in j.wants && w !in NamesOf(t.built))
    {
      hide Generator.Static, Inv, Generator.Counted, ValidPlan, Fill, NamesOf;
      StaticParts(generator);
      FillConserves(generator.plan, s, threadcount - |s.building|);
      FillInv(generator.plan, s, threadcount - |s.building|);
    }

    twostate lemma StillSwept()
      requires generator.Static()
      requires commands == old(commands) && generator.removedPackages == old(generator.removedPackages)
               && generator.refcount == old(generator.refcount)
      ensures old(Swept()) ==> Swept()
    {
      hide Distinct, Elements, CaughtUp;
    }

    lemma Facts(s: Sched)
      requires generator.Valid() && s == generator.State()
      ensures ValidPlan(generator.plan) && Inv(generator.plan, s)
      ensures Choose(s).Pick? ==> |Fetch(s).building| == |s.building| + 1
      ensures !Choose(s).Pick? ==> Fetch(s).building == s.building
      ensures Choose(s).Stalled? ==> Fetch(s).building != {}
    {
      if Choose(s).Pick? {
        PickCounts(generator.plan, s);
      } else if Choose(s).Stalled? {
        StalledIsBlocked(generator.plan, s);
      }
    }

    /** Waits for some job in flight to complete, with either outcome. */
    method GetCompletedJob() returns (job: Job, jobFailed: bool)
      requires Valid() && generator.building != {}
      modifies this`inFlight, generator`built, generator`building, generator`failed, generator`refcount
      ensures Valid()
      ensures job in generator.plan && job.name in old(generator.building)
      ensures generator.built == old(generator.built) + [job]
      ensures generator.building == old(generator.building) - {job.name}
      ensures generator.failed == if jobFailed then old(generator.failed)[job.name := job] else old(generator.failed)
      ensures old(generator.UpToDate()) ==>
                CaughtUpExcept(generator.unpacks, generator.rank, generator.plan, generator.sections,
                               generator.refcount, generator.removedPackages, job)
    {
      hide Inv, Generator.Static, Generator.Counted, Generator.UpToDate, CaughtUpExcept;
      assert inFlight == [] ==> NamesOf(inFlight) == {};
      var i :| 0 <= i < |inFlight|;
      jobFailed := *;
      job := inFlight[i];
      assert job.name in NamesOf(inFlight);
      NamesOfRemove(inFlight, i);
      inFlight := inFlight[..i] + inFlight[i + 1..];
      generator.Completed(job, jobFailed);
    }

    method AutoRemovePackages(job: Job)
      requires Valid() && job in generator.plan
      requires Distinct(commands) && Elements(commands) == generator.removedPackages
      requires if autoremove
               then CaughtUpExcept(generator.unpacks, generator.rank, generator.plan, generator.sections,
                                   generator.refcount, generator.removedPackages, job)
               else commands == []
      modifies this`commands, generator`removedPackages
      ensures Valid() && Swept()
    {
      hide ValidPlan, Inv, Tables, Ranked, CountedFor, CaughtUp, CaughtUpExcept, Tracks, Touches, Distinct, Elements;
      if autoremove {
        var packages := generator.GetPackagesToRemove(job);
        ghost var before := generator.removedPackages;
        CountedIsKeyed(generator.unpacks, generator.rank, generator.plan, NamesOf(generator.built),
                       generator.failed.Keys, generator.refcount);
        OfferedAgain(generator, job, packages, commands);
        RemoveAll(packages);
      }
    }

    /** One turn of the loop: some job completes, and what is not needed any more is removed. */
    method CompleteOne() returns (job: Job, jobFailed: bool)
      requires Valid() && Swept() && generator.building != {}
      modifies this`inFlight, this`commands, generator`built, generator`building, generator`failed, generator`refcount,
               generator`removedPackages
      ensures Valid() && Swept()
      ensures job in generator.plan && job.name in old(generator.building)
      ensures generator.built == old(generator.built) + [job]
      ensures generator.building == old(generator.building) - {job.name}
      ensures generator.failed == if jobFailed then old(generator.failed)[job.name := job] else old(generator.failed)
    {
      hide ValidPlan, Inv, Tables, Ranked, CountedFor, CaughtUp, CaughtUpExcept, Tracks, Distinct;
      job, jobFailed := GetCompletedJob();
      AutoRemovePackages(job);
    }

    /**
     * Runs the plan. Whatever the order of completions and whichever jobs fail,
     * the loop ends; without halting on a failure, it ends after every job has
     * completed exactly once, each after the jobs it wants. When halting on a failure, no more jobs
     * complete from the first failure on than there are threads: those that were in flight already.
     * When failing immediately, none does.
     */
    method Build() returns (ok: bool, completions: nat, ghost outcomes: seq<bool>)
      requires Valid() && Swept()
      requires generator.State() == Schedule.Start(generator.plan)
      modifies this, generator
      ensures Valid() && Swept()
      ensures ok <==> generator.failed == map[]
      ensures completions == |generator.built|
      ensures Ordered(generator.built) && DistinctNames(generator.built)
      ensures |generator.work| + |generator.building| + |generator.built| == generator.totalJobs
      ensures !haltonerror || ok ==>
                && generator.work == [] && generator.building == {}
                && NamesOf(generator.built) == NamesOf(generator.plan)
                && multiset(generator.built) == multiset(generator.plan)
                && completions == generator.totalJobs
      ensures haltonerror && !failimmediately ==> generator.building == {}
      ensures Outcomes(outcomes, generator.built, generator.failed)
      ensures haltonerror ==> forall i :: 0 <= i < |outcomes| && outcomes[i] ==> |outcomes| - i <= threadcount
      ensures haltonerror && failimmediately ==> forall i :: 0 <= i < |outcomes| - 1 ==> !outcomes[i]
      ensures autoremove && (!haltonerror || ok) ==>
                forall q :: q in commands <==>
                  Disposable(generator.unpacks, generator.rank, generator.plan, generator.sections,
                             generator.failed.Keys, q)
    {
      hide Swept, Inv, Generator.Static, Generator.Counted, Tracks, DistinctNames, Ordered, Fill, Disposable,
           Accounted, Outcomes, NamesOf;
      completions, outcomes := 0, [];
      NothingToAccount();
      ghost var s := generator.State();
      while true
        invariant Valid() && Swept()
        invariant completions == |generator.built|
        invariant s == generator.State() && Accounted(outcomes, s)
        decreases 2 * |generator.work| + |generator.building|
      {
        Ahead(generator, threadcount);
        label before:
        var more := QueueWork();
        StillSwept@before();
        FillAccounted(outcomes, s, generator.State());
        if !more {
          s := generator.State();
          break;
        }
        s := generator.State();
        StaticParts(generator);
        var job, jobFailed := CompleteOne();
        NextAccounted(outcomes, s, generator.State(), job, jobFailed);
        s := generator.State();
        completions, outcomes := completions + 1, outcomes + [jobFailed];
      }
      ok := generator.failed == map[];
      AccountSays(outcomes, generator.State());
      Outcome(!haltonerror || ok);
    }

    /** The outcomes so far; when halting on a failure, only jobs in flight come after one, or none at all. */
    ghost predicate Accounted(outcomes: seq<bool>, s: Sched) {
      && Outcomes(outcomes, s.built, s.failed)
      && (haltonerror ==> Bounded(outcomes, |s.building|, threadcount))
      && (haltonerror && failimmediately ==> LastFailure(outcomes))
    }

    lemma NothingToAccount()
      ensures Accounted([], Schedule.Start(generator.plan))
    {
    }

    lemma AccountSays(outcomes: seq<bool>, s: Sched)
      requires Accounted(outcomes, s)
      ensures Outcomes(outcomes, s.built, s.failed)
      ensures haltonerror ==> forall i :: 0 <= i < |outcomes| && outcomes[i] ==> |outcomes| - i <= threadcount
      ensures haltonerror && failimmediately ==> forall i :: 0 <= i < |outcomes| - 1 ==> !outcomes[i]
    {
    }

    /** Filling the free threads happens only while nothing has failed. */
    lemma FillAccounted(outcomes: seq<bool>, s: Sched, t: Sched)
      requires Accounted(outcomes, s) && t.built == s.built && t.failed == s.failed
      requires haltonerror && t.failed != map[] ==> t.building == s.building
      requires |t.building| <= threadcount
      ensures Accounted(outcomes, t)
    {
      if t.failed == map[] {
        NoneFailed(outcomes, t.built);
      }
    }

    /** Another completion. */
    lemma NextAccounted(outcomes: seq<bool>, s: Sched, t: Sched, job: Job, outcome: bool)
      requires Accounted(outcomes, s) && Inv(generator.plan, s) && job.name in s.building
      requires |s.building| <= threadcount
      requires haltonerror && failimmediately ==> s.failed == map[]
      requires t.built == s.built + [job] && t.building == s.building - {job.name}
      requires t.failed == if outcome then s.failed[job.name := job] else s.failed
      ensures Accounted(outcomes + [outcome], t)
    {
      BuildingNotBuilt(generator.plan, s);
      hide Inv, NamesOf, Outcomes, Bounded, LastFailure;
      OutcomesNext(outcomes, s.built, s.failed, job, outcome);
      if haltonerror {
        BoundedNext(outcomes, |s.building|, outcome, threadcount);
      }
      if s.failed == map[] {
        NoneFailed(outcomes, s.built);
        FirstFailure(outcomes, outcome);
      }
    }

    /** At any time between two turns, nothing that has been removed is used by a job that is not built yet. */
    lemma RemovedIsUnused(q: string)
      requires Valid() && Swept() && q in commands
      ensures exists j :: j in generator.plan && Uses(generator.plan, j, q)
      ensures forall j :: j in generator.plan && j.name !in NamesOf(generator.built) ==> !Uses(generator.plan, j, q)
      ensures forall j :: j in generator.plan && j.name in generator.failed ==> PackageOf(j.name) != q
    {
      hide Inv, ValidPlan, Tables, Touches, Uses, NamesOf, PackageOf, Tracks, Ranked;
      var g := generator;
      assert q in Elements(commands);
      UnusedFrom(g, q);
      forall j
        ensures Touches(g.unpacks, g.rank, j, q) <==> Uses(g.plan, j, q)
      {
        TouchesIsUse(g.plan, g.unpacks, g.sections, g.rank, j, q);
      }
    }

    lemma Outcome(complete: bool)
      requires Valid() && Swept()
      requires complete ==> generator.work == [] && generator.building == {}
      ensures Ordered(generator.built) && DistinctNames(generator.built)
      ensures |generator.work| + |generator.building| + |generator.built| == generator.totalJobs
      ensures complete ==>
                && NamesOf(generator.built) == NamesOf(generator.plan)
                && multiset(generator.built) == multiset(generator.plan)
                && |generator.built| == generator.totalJobs
      ensures autoremove && complete ==>
                forall q :: q in commands <==>
                  Disposable(generator.unpacks, generator.rank, generator.plan, generator.sections,
                             generator.failed.Keys, q)
    {
      hide Inv, Generator.Static, Generator.Counted, Generator.UpToDate, Tracks, Distinct, DistinctNames, Ordered,
           NamesOf, Disposable;
      Finished(generator, complete, autoremove);
    }

    method RemoveAll(packages: seq<string>)
      modifies this`commands, generator`removedPackages
      ensures commands == old(commands) + packages
      ensures generator.removedPackages == old(generator.removedPackages) + Elements(packages)
    {
      for k := 0 to |packages|
        invariant commands == old(commands) + packages[..k]
        invariant generator.removedPackages == old(generator.removedPackages) + Elements(packages[..k])
      {
        assert packages[..k + 1] == packages[..k] + [packages[k]];
        assert Elements(packages[..k + 1]) == Elements(packages[..k]) + {packages[k]};
        commands := commands + [packages[k]];
        generator.Removed(packages[k]);
      }
      assert packages[..|packages|] == packages;
    }
  }

  /** The outcomes of the jobs, in the order of completion: exactly those recorded as failed have failed. */
  ghost predicate Outcomes(outcomes: seq<bool>, built: seq<Job>, failed: map<string, Job>) {
    && |outcomes| == |built|
    && (forall i :: 0 <= i < |outcomes| ==> (outcomes[i] <==> built[i].name in failed))
    && forall n :: n in failed ==> n in NamesOf(built)
  }

  /** From any failure on, no more jobs have completed or are still in flight than there are threads. */
  ghost predicate Bounded(outcomes: seq<bool>, inFlight: nat, threads: nat) {
    forall i :: 0 <= i < |outcomes| && outcomes[i] ==> |outcomes| - i + inFlight <= threads
  }

  /** Nothing has failed before the last job. */
  ghost predicate LastFailure(outcomes: seq<bool>) {
    forall i :: 0 <= i < |outcomes| - 1 ==> !outcomes[i]
  }

  lemma OutcomesNext(outcomes: seq<bool>, built: seq<Job>, failed: map<string, Job>, job: Job, outcome: bool)
    requires Outcomes(outcomes, built, failed) && job.name !in NamesOf(built)
    ensures Outcomes(outcomes + [outcome], built + [job], if outcome then failed[job.name := job] else failed)
  {
    NamesOfAppend(built, job);
    assert forall i :: 0 <= i < |built| ==> built[i].name in NamesOf(built);
    assert job.name !in failed;
  }

  /** Referenced, not virtual, and never left behind by a failed job of its own. */
  ghost predicate Disposable(g: Graph, rank: map<string, nat>, plan: seq<Job>, sections: map<string, string>,
                             failed: set<string>, q: string)
    requires Ranked(g, rank)
  {
    && Referenced(g, rank, plan, q)
    && q in sections && sections[q] != "virtual"
    && forall j :: j in plan && j.name in failed ==> Package(j) != q
  }

  /** The same, read off the jobs alone: some job uses it, and no job of its own is virtual or failed. */
  ghost predicate Expendable(plan: seq<Job>, failed: set<string>, q: string) {
    && (exists j :: j in plan && Uses(plan, j, q))
    && forall j :: j in plan && PackageOf(j.name) == q ==> j.section != "virtual" && j.name !in failed
  }

  lemma DisposableIsExpendable(plan: seq<Job>, g: Graph, sections: map<string, string>, rank: map<string, nat>,
                               failed: set<string>, q: string)
    requires Tables(plan, g, sections) && Ranked(g, rank)
    ensures Disposable(g, rank, plan, sections, failed, q) <==> Expendable(plan, failed, q)
  {
    hide Touches, Uses, Ranked, Tables, PackageOf;
    forall j
      ensures Touches(g, rank, j, q) <==> Uses(plan, j, q)
    {
      TouchesIsUse(plan, g, sections, rank, j, q);
    }
    if Referenced(g, rank, plan, q) {
      SectionKnown(plan, g, sections, rank, q);
    }
  }

  lemma SectionKnown(plan: seq<Job>, g: Graph, sections: map<string, string>, rank: map<string, nat>, q: string)
    requires Tables(plan, g, sections) && Ranked(g, rank) && Referenced(g, rank, plan, q)
    ensures q in sections
    ensures sections[q] != "virtual" <==> forall j :: j in plan && Package(j) == q ==> j.section != "virtual"
  {
    hide Touches, Ranked, Package;
    var job :| job in plan && Touches(g, rank, job, q);
    SectionsClosed(plan, g, sections);
    assert Recorded(job, g, sections);
    TouchedStayIn(g, rank, sections.Keys, job, q);
    if q in g {
      var i :| 0 <= i < |plan| && Package(plan[i]) == q;
      assert plan[i] in plan;
    }
    forall j | j in plan && Package(j) == q
      ensures sections[q] == j.section
    {
      assert Recorded(j, g, sections);
    }
  }

  /** Once all jobs have been built, what has been removed is exactly what is disposable. */
  lemma FinalSweep(g: Graph, rank: map<string, nat>, plan: seq<Job>, sections: map<string, string>, done: set<string>,
                   failed: set<string>, counts: map<string, int>, removed: set<string>)
    requires Ranked(g, rank) && CountedFor(g, rank, plan, done, failed, counts)
    requires CaughtUp(g, rank, plan, sections, counts, removed)
    requires NamesOf(plan) <= done
    ensures forall q :: q in removed <==> Disposable(g, rank, plan, sections, failed, q)
  {
    assert forall j :: j in plan ==> j.name in NamesOf(plan);
    forall q
      ensures Get(counts, q) == 0 <==> forall j :: j in plan && j.name in failed ==> Package(j) != q
    {
      ZeroMeansUnused(g, rank, plan, done, failed, counts, q);
    }
  }

  /** What filling the free threads will lead to. */
  lemma Ahead(g: Generator, threads: nat)
    requires g.Valid() && |g.building| <= threads && 1 <= threads
    ensures var s := g.State();
            var t := Fill(s, threads - |s.building|);
            && 2 * |t.work| + |t.building| <= 2 * |s.work| + |s.building|
            && (t.building == {} ==> t.work == [])
            && t.failed == s.failed && t.built == s.built
            && s.building <= t.building
  {
    hide Generator.Static, Generator.Counted, Inv, ValidPlan, Fill;
    var s := g.State();
    StaticParts(g);
    FillMeasure(g.plan, s, threads - |s.building|);
    FillInv(g.plan, s, threads - |s.building|);
    if |s.building| < threads {
      FillFromIdle(g.plan, s, threads - |s.building|);
    }
  }

  lemma UnusedFrom(g: Generator, q: string)
    requires g.Valid() && g.UpToDate() && q in g.removedPackages
    ensures Referenced(g.unpacks, g.rank, g.plan, q)
    ensures forall j :: j in g.plan && j.name !in NamesOf(g.built) ==> !Touches(g.unpacks, g.rank, j, q)
    ensures forall j :: j in g.plan && j.name in g.failed ==> PackageOf(j.name) != q
  {
    hide Inv, ValidPlan, Tables, Touches, NamesOf, PackageOf, Ranked, Referenced;
    ZeroMeansUnused(g.unpacks, g.rank, g.plan, NamesOf(g.built), g.failed.Keys, g.refcount, q);
  }

  lemma BoundedNext(outcomes: seq<bool>, inFlight: nat, outcome: bool, threads: nat)
    requires Bounded(outcomes, inFlight, threads) && 0 < inFlight <= threads
    ensures Bounded(outcomes + [outcome], inFlight - 1, threads)
  {
  }

  lemma FirstFailure(outcomes: seq<bool>, outcome: bool)
    requires forall i :: 0 <= i < |outcomes| ==> !outcomes[i]
    ensures LastFailure(outcomes + [outcome])
  {
  }

  lemma BuildingNotBuilt(plan: seq<Job>, s: Sched)
    requires Inv(plan, s)
    ensures forall n :: n in s.building ==> n !in NamesOf(s.built)
  {
  }

  /** Without a failure on record, none of the outcomes is one. */
  lemma NoneFailed(outcomes: seq<bool>, built: seq<Job>)
    requires Outcomes(outcomes, built, map[])
    ensures forall i :: 0 <= i < |outcomes| ==> !outcomes[i]
  {
  }

  lemma StaticParts(g: Generator)
    requires g.Valid()
    ensures ValidPlan(g.plan) && Inv(g.plan, g.State()) && Ranked(g.unpacks, g.rank) && g.totalJobs == |g.plan|
    ensures Ordered(g.built) && DistinctNames(g.built)
  {
    hide ValidPlan, Tables, Ranked, CountedFor, Ordered, DistinctNames;
  }

  lemma Finished(g: Generator, complete: bool, swept: bool)
    requires g.Valid()
    requires complete ==> g.work == [] && g.building == {}
    requires swept ==> g.UpToDate()
    ensures Ordered(g.built) && DistinctNames(g.built)
    ensures |g.work| + |g.building| + |g.built| == g.totalJobs
    ensures complete ==>
              NamesOf(g.built) == NamesOf(g.plan) && multiset(g.built) == multiset(g.plan) && |g.built| == g.totalJobs
    ensures complete && swept ==>
              forall q :: q in g.removedPackages <==>
                Disposable(g.unpacks, g.rank, g.plan, g.sections, g.failed.Keys, q)
  {
    hide ValidPlan, Inv, Tables, Ranked, CountedFor, CaughtUp, Disposable, Ordered, DistinctNames, NamesOf;
    StaticParts(g);
    InvCounts(g.plan, g.State());
    if complete {
      AllBuilt(g.plan, g.State());
      assert |multiset(g.built)| == |g.built| && |multiset(g.plan)| == |g.plan|;
      if swept {
        FinalSweep(g.unpacks, g.rank, g.plan, g.sections, NamesOf(g.built), g.failed.Keys, g.refcount,
                   g.removedPackages);
      }
    }
  }

  lemma CountedIsKeyed(g: Graph, rank: map<string, nat>, plan: seq<Job>, done: set<string>, failed: set<string>,
                       counts: map<string, int>)
    requires Ranked(g, rank) && CountedFor(g, rank, plan, done, failed, counts)
    ensures Keyed(g, rank, plan, counts)
  {
  }

  /** Removing what is offered once more keeps every removal unique, and catches up. */
  lemma OfferedAgain(g: Generator, job: Job, packages: seq<string>, commands: seq<string>)
    requires Ranked(g.unpacks, g.rank) && Keyed(g.unpacks, g.rank, g.plan, g.refcount) && job in g.plan
    requires CaughtUpExcept(g.unpacks, g.rank, g.plan, g.sections, g.refcount, g.removedPackages, job)
    requires Distinct(packages) && forall q :: q in packages <==> g.Removable(job, q)
    requires Distinct(commands) && Elements(commands) == g.removedPackages
    ensures Distinct(commands + packages)
    ensures Elements(commands + packages) == g.removedPackages + Elements(packages)
    ensures CaughtUp(g.unpacks, g.rank, g.plan, g.sections, g.refcount, g.removedPackages + Elements(packages))
  {
    hide CaughtUp, CaughtUpExcept, Touches, Keyed, Ranked;
    CatchUp(g.unpacks, g.rank, g.plan, g.sections, g.refcount, g.removedPackages, job, Elements(packages));
    DistinctAppend(commands, packages);
  }

  lemma DistinctAppend(a: seq<string>, b: seq<string>)
    requires Distinct(a) && Distinct(b) && Elements(a) !! Elements(b)
    ensures Distinct(a + b) && Elements(a + b) == Elements(a) + Elements(b)
  {
    forall i, j | 0 <= i < j < |a + b|
      ensures (a + b)[i] != (a + b)[j]
    {
      if i < |a| && j >= |a| {
        assert a[i] in Elements(a) && b[j - |a|] in Elements(b);
      }
    }
    assert forall x :: x in a + b <==> x in a || x in b;
  }

  /** Handing out a job and putting it into the work queue keeps track of what is in flight. */
  lemma TrackPick(plan: seq<Job>, s: Sched, jobs: seq<Job>)
    requires Inv(plan, s) && Choose(s).Pick? && Tracks(plan, jobs, s.building)
    ensures Tracks(plan, jobs + [s.work[Choose(s).index]], Fetch(s).building)
  {
    var job := s.work[Choose(s).index];
    assert job.name in NamesOf(s.work);
    NamesOfAppend(jobs, job);
    assert job in plan;
    assert forall i :: 0 <= i < |jobs| ==> (jobs + [job])[i] == jobs[i] && jobs[i].name in NamesOf(jobs);
  }

  ghost predicate Tracks(plan: seq<Job>, jobs: seq<Job>, names: set<string>) {
    && DistinctNames(jobs)
    && NamesOf(jobs) == names
    && forall j :: j in jobs ==> j in plan
  }
}
