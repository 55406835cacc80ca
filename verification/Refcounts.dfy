/**
 * Reference counts of source packages. A job refers to the package it builds and,
 * once per path, to every package its package unpacks, directly or not.
 */
module Refcounts {
  import opened RankedGraph
  import opened Plan

  function Get(counts: map<string, int>, q: string): int {
    if q in counts then counts[q] else 0
  }

  ghost function Contribution(g: Graph, rank: map<string, nat>, job: Job, q: string): nat
    requires Ranked(g, rank)
  {
    (if Package(job) == q then 1 else 0) + PathsFrom(g, rank, job.unpacks, q)
  }

  /** What the jobs outside `done` contribute to `q`. */
  ghost function Owed(g: Graph, rank: map<string, nat>, jobs: seq<Job>, done: set<string>, q: string): nat
    requires Ranked(g, rank)
  {
    if jobs == [] then 0
    else
      var n := |jobs| - 1;
      Owed(g, rank, jobs[..n], done, q) + if jobs[n].name in done then 0 else Contribution(g, rank, jobs[n], q)
  }

  /** How many failed jobs built package `q`. */
  ghost function FailedJobsOf(jobs: seq<Job>, failed: set<string>, q: string): nat {
    if jobs == [] then 0
    else
      var n := |jobs| - 1;
      FailedJobsOf(jobs[..n], failed, q) + if jobs[n].name in failed && Package(jobs[n]) == q then 1 else 0
  }

  /** Every count is what unfinished jobs contribute, plus one for each failed job of the package itself. */
  ghost predicate Exact(g: Graph, rank: map<string, nat>, plan: seq<Job>, done: set<string>, failed: set<string>,
                        counts: map<string, int>)
    requires Ranked(g, rank)
  {
    forall q :: Get(counts, q) == Owed(g, rank, plan, done, q) + FailedJobsOf(plan, failed, q)
  }

  ghost predicate Touches(g: Graph, rank: map<string, nat>, job: Job, q: string)
    requires Ranked(g, rank)
  {
    Contribution(g, rank, job, q) > 0
  }

  /** Some job of the plan builds `q` or unpacks it. */
  ghost predicate Referenced(g: Graph, rank: map<string, nat>, plan: seq<Job>, q: string)
    requires Ranked(g, rank)
  {
    exists j :: j in plan && Touches(g, rank, j, q)
  }

  lemma {:induction false} OwedCongruent(g: Graph, rank: map<string, nat>, jobs: seq<Job>, done: set<string>,
                                         more: set<string>, q: string)
    requires Ranked(g, rank)
    requires forall j :: j in jobs ==> (j.name in done <==> j.name in more)
    ensures Owed(g, rank, jobs, done, q) == Owed(g, rank, jobs, more, q)
  {
    if jobs != [] {
      var n := |jobs| - 1;
      assert jobs[n] in jobs;
      OwedCongruent(g, rank, jobs[..n], done, more, q);
    }
  }

  lemma {:induction false} OwedFalls(g: Graph, rank: map<string, nat>, jobs: seq<Job>, done: set<string>, job: Job,
                                     q: string)
    requires Ranked(g, rank)
    requires DistinctNames(jobs) && job in jobs && job.name !in done
    ensures Owed(g, rank, jobs, done, q) == Owed(g, rank, jobs, done + {job.name}, q) + Contribution(g, rank, job, q)
  {
    var n := |jobs| - 1;
    var init := jobs[..n];
    if jobs[n] == job {
      OwedCongruent(g, rank, init, done, done + {job.name}, q);
    } else {
      assert job in init;
      OwedFalls(g, rank, init, done, job, q);
    }
  }

  lemma {:induction false} FailedCongruent(jobs: seq<Job>, failed: set<string>, more: set<string>, q: string)
    requires forall j :: j in jobs ==> (j.name in failed <==> j.name in more)
    ensures FailedJobsOf(jobs, failed, q) == FailedJobsOf(jobs, more, q)
  {
    if jobs != [] {
      var n := |jobs| - 1;
      assert jobs[n] in jobs;
      FailedCongruent(jobs[..n], failed, more, q);
    }
  }

  lemma {:induction false} FailedRises(jobs: seq<Job>, failed: set<string>, job: Job, q: string)
    requires DistinctNames(jobs) && job in jobs && job.name !in failed
    ensures FailedJobsOf(jobs, failed + {job.name}, q) == FailedJobsOf(jobs, failed, q) + if Package(job) == q then 1
            else 0
  {
    var n := |jobs| - 1;
    var init := jobs[..n];
    if jobs[n] == job {
      FailedCongruent(init, failed, failed + {job.name}, q);
    } else {
      assert job in init;
      FailedRises(init, failed, job, q);
    }
  }

  lemma {:induction false} OwedZero(g: Graph, rank: map<string, nat>, jobs: seq<Job>, done: set<string>, q: string)
    requires Ranked(g, rank)
    ensures Owed(g, rank, jobs, done, q) == 0 <==> forall j :: j in jobs && j.name !in done ==> !Touches(g, rank, j, q)
  {
    if jobs != [] {
      var n := |jobs| - 1;
      OwedZero(g, rank, jobs[..n], done, q);
      assert jobs == jobs[..n] + [jobs[n]];
    }
  }

  lemma {:induction false} FailedZero(jobs: seq<Job>, failed: set<string>, q: string)
    ensures FailedJobsOf(jobs, failed, q) == 0 <==> forall j :: j in jobs && j.name in failed ==> Package(j) != q
  {
    if jobs != [] {
      var n := |jobs| - 1;
      FailedZero(jobs[..n], failed, q);
      assert jobs == jobs[..n] + [jobs[n]];
    }
  }

  /**
   * Walking the unpack graph from each of `ps` in turn, adding (`up`) or taking away
   * one at every visit, turns `before` into `after`.
   */
  ghost predicate Walked(g: Graph, rank: map<string, nat>, ps: seq<string>, up: bool, before: map<string, int>,
                         after: map<string, int>)
    requires Ranked(g, rank)
  {
    && (forall q :: Get(after, q) == if up then Get(before, q) + PathsFrom(g, rank, ps, q)
       else Get(before, q) - PathsFrom(g, rank, ps, q))
    && (forall q :: q in after <==> q in before || PathsFrom(g, rank, ps, q) > 0)
  }

  lemma WalkedOn(g: Graph, rank: map<string, nat>, ps: seq<string>, p: string, up: bool,
                 a: map<string, int>, b: map<string, int>, c: map<string, int>)
    requires Ranked(g, rank)
    requires Walked(g, rank, ps, up, a, b) && Walked(g, rank, [p], up, b, c)
    ensures Walked(g, rank, ps + [p], up, a, c)
  {
    forall q
      ensures PathsFrom(g, rank, ps + [p], q) == PathsFrom(g, rank, ps, q) + PathsFrom(g, rank, [p], q)
    {
      PathsFromSnoc(g, rank, ps, p, q);
      assert PathsFrom(g, rank, [p], q) == Paths(g, rank, p, q) + PathsFrom(g, rank, [p][1..], q);
    }
  }

  /** Visiting `p` and then walking from its successors is walking from `p`. */
  lemma WalkedFrom(g: Graph, rank: map<string, nat>, p: string, up: bool, a: map<string, int>, b: map<string, int>)
    requires Ranked(g, rank)
    requires Walked(g, rank, if p in g then g[p] else [], up, a[p := if up then Get(a, p) + 1 else Get(a, p) - 1], b)
    ensures Walked(g, rank, [p], up, a, b)
  {
    forall q
      ensures PathsFrom(g, rank, [p], q)
              == (if p == q then 1 else 0) + PathsFrom(g, rank, if p in g then g[p] else [], q)
    {
      assert PathsFrom(g, rank, [p], q) == Paths(g, rank, p, q) + PathsFrom(g, rank, [p][1..], q);
    }
  }

  lemma WalkedNowhere(g: Graph, rank: map<string, nat>, up: bool, a: map<string, int>)
    requires Ranked(g, rank)
    ensures Walked(g, rank, [], up, a, a)
  {
  }

  ghost predicate Keyed(g: Graph, rank: map<string, nat>, plan: seq<Job>, counts: map<string, int>)
    requires Ranked(g, rank)
  {
    forall q :: q in counts <==> Referenced(g, rank, plan, q)
  }

  /** Exact counts, kept for exactly the packages that some job refers to. */
  ghost predicate CountedFor(g: Graph, rank: map<string, nat>, plan: seq<Job>, done: set<string>, failed: set<string>,
                             counts: map<string, int>)
    requires Ranked(g, rank)
  {
    && Exact(g, rank, plan, done, failed, counts)
    && Keyed(g, rank, plan, counts)
  }

  lemma NothingCounted(g: Graph, rank: map<string, nat>)
    requires Ranked(g, rank)
    ensures CountedFor(g, rank, [], {}, {}, map[])
  {
  }

  /** Counting one more job. */
  lemma CountJob(g: Graph, rank: map<string, nat>, jobs: seq<Job>, job: Job, a: map<string, int>, b: map<string, int>)
    requires Ranked(g, rank)
    requires CountedFor(g, rank, jobs, {}, {}, a)
    requires Walked(g, rank, job.unpacks, true, a[Package(job) := Get(a, Package(job)) + 1], b)
    ensures CountedFor(g, rank, jobs + [job], {}, {}, b)
  {
    hide Package, Owed, FailedJobsOf, Referenced;
    var all := jobs + [job];
    forall q
      ensures Owed(g, rank, all, {}, q) == Owed(g, rank, jobs, {}, q) + Contribution(g, rank, job, q)
      ensures FailedJobsOf(all, {}, q) == FailedJobsOf(jobs, {}, q)
      ensures Referenced(g, rank, all, q) <==> Referenced(g, rank, jobs, q) || Touches(g, rank, job, q)
    {
      CountsAppend(g, rank, jobs, job, q);
    }
  }

  lemma CountsAppend(g: Graph, rank: map<string, nat>, jobs: seq<Job>, job: Job, q: string)
    requires Ranked(g, rank)
    ensures Owed(g, rank, jobs + [job], {}, q) == Owed(g, rank, jobs, {}, q) + Contribution(g, rank, job, q)
    ensures FailedJobsOf(jobs + [job], {}, q) == FailedJobsOf(jobs, {}, q)
    ensures Referenced(g, rank, jobs + [job], q) <==> Referenced(g, rank, jobs, q) || Touches(g, rank, job, q)
  {
    var all := jobs + [job];
    assert all[..|all| - 1] == jobs && all[|all| - 1] == job;
    ReferencedAppend(g, rank, jobs, job, q);
  }

  lemma ReferencedAppend(g: Graph, rank: map<string, nat>, jobs: seq<Job>, job: Job, q: string)
    requires Ranked(g, rank)
    ensures Referenced(g, rank, jobs + [job], q) <==> Referenced(g, rank, jobs, q) || Touches(g, rank, job, q)
  {
    assert forall j :: j in jobs + [job] <==> j in jobs || j == job;
  }

  /** Completing a job keeps the counts exact, whatever its outcome. */
  lemma CompleteExact(g: Graph, rank: map<string, nat>, plan: seq<Job>, done: set<string>, failed: set<string>,
                      job: Job, outcome: bool, a: map<string, int>, b: map<string, int>)
    requires Ranked(g, rank) && DistinctNames(plan)
    requires job in plan && job.name !in done && failed <= done
    requires Exact(g, rank, plan, done, failed, a)
    requires Walked(g, rank, job.unpacks, false, if outcome then a else a[Package(job) := Get(a, Package(job)) - 1], b)
    ensures Exact(g, rank, plan, done + {job.name}, if outcome then failed + {job.name} else failed, b)
  {
    forall q
      ensures Get(b, q) == Owed(g, rank, plan, done + {job.name}, q)
                         + FailedJobsOf(plan, if outcome then failed + {job.name} else failed, q)
    {
      OwedFalls(g, rank, plan, done, job, q);
      FailedRises(plan, failed, job, q);
    }
  }

  /** Walking away from a job of the plan enters no new key. */
  lemma KeysStay(g: Graph, rank: map<string, nat>, plan: seq<Job>, job: Job, up: bool, a: map<string, int>,
                 b: map<string, int>)
    requires Ranked(g, rank) && job in plan
    requires Keyed(g, rank, plan, a) && Walked(g, rank, job.unpacks, up, a, b)
    ensures Keyed(g, rank, plan, b)
  {
    forall q | PathsFrom(g, rank, job.unpacks, q) > 0
      ensures q in a
    {
      assert Touches(g, rank, job, q);
    }
  }

  /**
   * A count is never negative, and it is zero only when no unfinished job builds
   * or unpacks the package and no job of the package failed.
   */
  lemma ZeroMeansUnused(g: Graph, rank: map<string, nat>, plan: seq<Job>, done: set<string>, failed: set<string>,
                        counts: map<string, int>, q: string)
    requires Ranked(g, rank)
    requires Exact(g, rank, plan, done, failed, counts)
    ensures Get(counts, q) >= 0
    ensures Get(counts, q) == 0 <==>
              && (forall j :: j in plan && j.name !in done ==> !Touches(g, rank, j, q))
              && (forall j :: j in plan && j.name in failed ==> Package(j) != q)
  {
    OwedZero(g, rank, plan, done, q);
    FailedZero(plan, failed, q);
  }

  /** Removal has caught up with the counts: exactly the unreferenced, non-virtual packages are gone. */
  ghost predicate CaughtUp(g: Graph, rank: map<string, nat>, plan: seq<Job>, sections: map<string, string>,
                           counts: map<string, int>, removed: set<string>)
    requires Ranked(g, rank)
  {
    forall q :: q in removed <==>
      Referenced(g, rank, plan, q) && q in sections && sections[q] != "virtual" && Get(counts, q) == 0
  }

  /** All but the packages that `job` touches. */
  ghost predicate CaughtUpExcept(g: Graph, rank: map<string, nat>, plan: seq<Job>, sections: map<string, string>,
                                 counts: map<string, int>, removed: set<string>, job: Job)
    requires Ranked(g, rank)
  {
    forall q :: if Touches(g, rank, job, q) then q !in removed
                else q in removed <==>
                  Referenced(g, rank, plan, q) && q in sections && sections[q] != "virtual" && Get(counts, q) == 0
  }

  /** Completing a job can only make packages removable that the job touches. */
  lemma CompleteLags(g: Graph, rank: map<string, nat>, plan: seq<Job>, sections: map<string, string>,
                     done: set<string>, failed: set<string>, job: Job, outcome: bool,
                     a: map<string, int>, b: map<string, int>, removed: set<string>)
    requires Ranked(g, rank)
    requires job in plan && job.name !in done
    requires Exact(g, rank, plan, done, failed, a)
    requires CaughtUp(g, rank, plan, sections, a, removed)
    requires Walked(g, rank, job.unpacks, false, if outcome then a else a[Package(job) := Get(a, Package(job)) - 1], b)
    ensures CaughtUpExcept(g, rank, plan, sections, b, removed, job)
  {
    forall q
      ensures if Touches(g, rank, job, q) then q !in removed else Get(a, q) == Get(b, q)
    {
      ZeroMeansUnused(g, rank, plan, done, failed, a, q);
    }
  }

  /** Referenced packages have a section: sections are known for all packages and everything they unpack. */
  lemma {:induction false} PathsStayIn(g: Graph, rank: map<string, nat>, known: set<string>, p: string, q: string)
    requires Ranked(g, rank)
    requires forall x, y :: x in g && y in g[x] ==> y in known
    requires p in known && Paths(g, rank, p, q) > 0
    ensures q in known
    decreases Level(g, rank, p)
  {
    if p != q {
      PathsFromPositive(g, rank, g[p], q);
      var x :| x in g[p] && Paths(g, rank, x, q) > 0;
      PathsStayIn(g, rank, known, x, q);
    }
  }

  lemma TouchedStayIn(g: Graph, rank: map<string, nat>, known: set<string>, job: Job, q: string)
    requires Ranked(g, rank)
    requires forall x, y :: x in g && y in g[x] ==> y in known
    requires Package(job) in known && forall u :: u in job.unpacks ==> u in known
    requires Touches(g, rank, job, q)
    ensures q in known
  {
    if Package(job) != q {
      PathsFromPositive(g, rank, job.unpacks, q);
      var x :| x in job.unpacks && Paths(g, rank, x, q) > 0;
      PathsStayIn(g, rank, known, x, q);
    }
  }
}
