/** Which failed dependencies are blamed when a job is handed out. */
module FailedJobs {
  import opened Collections
  import opened RankedGraph
  import opened Plan
  import opened Schedule

  /** Failed jobs by name, with a rank that falls along their wants. */
  ghost predicate Blameable(failed: map<string, Job>, rank: map<string, nat>) {
    && (forall n :: n in failed ==> failed[n].name == n)
    && Ranked(WantsGraph(failed), rank)
  }

  /** The first failed job found by following failed dependencies from `wants`, depth first. */
  ghost function FirstFailed(failed: map<string, Job>, rank: map<string, nat>, wants: seq<string>): Option<Job>
    requires Blameable(failed, rank)
    decreases Height(WantsGraph(failed), rank, wants), |wants|
  {
    if wants == [] then None
    else if wants[0] in failed then Some(Culprit(failed, rank, wants[0]))
    else FirstFailed(failed, rank, wants[1..])
  }

  /** The job to blame for the failed job `n`: the first failed job below it, or itself. */
  ghost function Culprit(failed: map<string, Job>, rank: map<string, nat>, n: string): Job
    requires Blameable(failed, rank) && n in failed
    decreases Level(WantsGraph(failed), rank, n)
  {
    HeightOfSuccessors(WantsGraph(failed), rank, n);
    match FirstFailed(failed, rank, failed[n].wants)
    case Some(job) => job
    case None => failed[n]
  }

  /** Entering a job into a dictionary keyed by name, which keeps the position of a known key. */
  function Enter(jobs: seq<Job>, job: Job): seq<Job> {
    if job.name in NamesOf(jobs) then jobs else jobs + [job]
  }

  ghost function AllFailed(failed: map<string, Job>, rank: map<string, nat>, wants: seq<string>): seq<Job>
    requires Blameable(failed, rank)
  {
    if wants == [] then []
    else
      var n := |wants| - 1;
      var before := AllFailed(failed, rank, wants[..n]);
      if wants[n] in failed then Enter(before, Culprit(failed, rank, wants[n])) else before
  }

  /**
   * `path` leads from a direct dependency to `job` through failed jobs only,
   * and `job` itself has no failed dependency.
   */
  ghost predicate Blames(failed: map<string, Job>, wants: seq<string>, path: seq<string>, job: Job) {
    && path != []
    && path[0] in wants
    && (forall i :: 0 <= i < |path| ==> path[i] in failed)
    && (forall i :: 0 < i < |path| ==> path[i] in failed[path[i - 1]].wants)
    && job == failed[path[|path| - 1]]
    && (forall w :: w in job.wants ==> w !in failed)
  }

  /** `n` is the first of the dependencies that failed. */
  ghost predicate IsFirst(failed: map<string, Job>, wants: seq<string>, n: string) {
    exists i :: 0 <= i < |wants| && wants[i] == n && n in failed && forall k :: 0 <= k < i ==> wants[k] !in failed
  }

  /** `path` leads from `n` to `job`, always by the first dependency that failed, until there is none. */
  ghost predicate Follows(failed: map<string, Job>, n: string, path: seq<string>, job: Job) {
    && path != [] && path[0] == n
    && (forall i :: 0 <= i < |path| ==> path[i] in failed)
    && (forall i :: 0 < i < |path| ==> IsFirst(failed, failed[path[i - 1]].wants, path[i]))
    && job == failed[path[|path| - 1]]
    && (forall w :: w in job.wants ==> w !in failed)
  }

  lemma {:induction false} FirstFailedNone(failed: map<string, Job>, rank: map<string, nat>, wants: seq<string>)
    requires Blameable(failed, rank)
    ensures FirstFailed(failed, rank, wants) == None <==> forall w :: w in wants ==> w !in failed
  {
    if wants != [] {
      FirstFailedNone(failed, rank, wants[1..]);
      assert wants == [wants[0]] + wants[1..];
    }
  }

  /** The culprit is found by following, from failed job to failed job, the first dependency that failed. */
  lemma {:induction false} CulpritFollows(failed: map<string, Job>, rank: map<string, nat>, n: string)
    returns (path: seq<string>)
    requires Blameable(failed, rank) && n in failed
    ensures Follows(failed, n, path, Culprit(failed, rank, n))
    decreases Level(WantsGraph(failed), rank, n)
  {
    hide IsFirst;
    HeightOfSuccessors(WantsGraph(failed), rank, n);
    var wants := failed[n].wants;
    FirstFailedNone(failed, rank, wants);
    if FirstFailed(failed, rank, wants) == None {
      path := [n];
    } else {
      var first, rest := FirstFailedFollows(failed, rank, wants);
      path := [n] + rest;
      assert forall i :: 0 < i < |path| ==> path[i] == rest[i - 1];
    }
  }

  /** The job that is found first is the culprit of the first dependency that failed. */
  lemma {:induction false} FirstFailedFollows(failed: map<string, Job>, rank: map<string, nat>, wants: seq<string>)
    returns (first: string, path: seq<string>)
    requires Blameable(failed, rank) && FirstFailed(failed, rank, wants).Some?
    ensures IsFirst(failed, wants, first)
    ensures Follows(failed, first, path, FirstFailed(failed, rank, wants).value)
    decreases Height(WantsGraph(failed), rank, wants), |wants|
  {
    hide Follows, IsFirst;
    if wants[0] in failed {
      first := wants[0];
      FirstAtOnce(failed, wants);
      path := CulpritFollows(failed, rank, first);
    } else {
      first, path := FirstFailedFollows(failed, rank, wants[1..]);
      FirstLater(failed, wants, first);
    }
  }

  lemma FirstAtOnce(failed: map<string, Job>, wants: seq<string>)
    requires wants != [] && wants[0] in failed
    ensures IsFirst(failed, wants, wants[0])
  {
  }

  lemma FirstLater(failed: map<string, Job>, wants: seq<string>, n: string)
    requires wants != [] && wants[0] !in failed && IsFirst(failed, wants[1..], n)
    ensures IsFirst(failed, wants, n)
  {
    var i :| 0 <= i < |wants[1..]| && wants[1..][i] == n && forall k :: 0 <= k < i ==> wants[1..][k] !in failed;
    assert wants[i + 1] == n && forall k :: 1 <= k < i + 1 ==> wants[k] == wants[1..][k - 1];
  }

  lemma {:induction false} CulpritBlamed(failed: map<string, Job>, rank: map<string, nat>, n: string)
    returns (path: seq<string>)
    requires Blameable(failed, rank) && n in failed
    ensures Blames(failed, [n], path, Culprit(failed, rank, n))
    decreases Level(WantsGraph(failed), rank, n)
  {
    HeightOfSuccessors(WantsGraph(failed), rank, n);
    var wants := failed[n].wants;
    FirstFailedNone(failed, rank, wants);
    if FirstFailed(failed, rank, wants) == None {
      path := [n];
    } else {
      var rest := FirstFailedBlamed(failed, rank, wants);
      path := [n] + rest;
      assert forall i :: 0 < i < |path| ==> path[i] == rest[i - 1];
    }
  }

  lemma {:induction false} FirstFailedBlamed(failed: map<string, Job>, rank: map<string, nat>, wants: seq<string>)
    returns (path: seq<string>)
    requires Blameable(failed, rank) && FirstFailed(failed, rank, wants).Some?
    ensures Blames(failed, wants, path, FirstFailed(failed, rank, wants).value)
    decreases Height(WantsGraph(failed), rank, wants), |wants|
  {
    if wants[0] in failed {
      path := CulpritBlamed(failed, rank, wants[0]);
    } else {
      path := FirstFailedBlamed(failed, rank, wants[1..]);
    }
  }

  ghost predicate Blamed(failed: map<string, Job>, wants: seq<string>, job: Job) {
    exists path :: Blames(failed, wants, path, job)
  }

  /**
   * Every blamed job failed, is reached through failed dependencies only, and has
   * no failed dependency of its own; every failed direct dependency leads to a
   * blamed job; no job is blamed twice.
   */
  lemma {:induction false} AllFailedBlames(failed: map<string, Job>, rank: map<string, nat>, wants: seq<string>)
    requires Blameable(failed, rank)
    ensures forall j :: j in AllFailed(failed, rank, wants) ==> Blamed(failed, wants, j)
    ensures forall w :: w in wants && w in failed ==> Culprit(failed, rank, w) in AllFailed(failed, rank, wants)
    ensures DistinctNames(AllFailed(failed, rank, wants))
  {
    if wants != [] {
      var n := |wants| - 1;
      var last, init := wants[n], wants[..n];
      AllFailedBlames(failed, rank, init);
      var before := AllFailed(failed, rank, init);
      BlamedMonotone(failed, init, wants, before);
      assert forall w :: w in wants <==> w in init || w == last;
      if last in failed {
        var job := Culprit(failed, rank, last);
        CulpritIsBlamed(failed, rank, wants, last);
        EnterKeeps(failed, wants, before, job);
      }
    }
  }

  /** Dependency `i` failed, and it is the first one for which `job` is to blame. */
  ghost predicate FirstBlame(failed: map<string, Job>, rank: map<string, nat>, wants: seq<string>, i: nat, job: Job)
    requires Blameable(failed, rank)
  {
    && i < |wants| && wants[i] in failed && Culprit(failed, rank, wants[i]) == job
    && forall k :: 0 <= k < i && wants[k] in failed ==> Culprit(failed, rank, wants[k]) != job
  }

  /** The blamed jobs are listed in the order of the first dependencies for which they are to blame. */
  lemma {:induction false} BlameInOrder(failed: map<string, Job>, rank: map<string, nat>, wants: seq<string>)
    returns (places: seq<nat>)
    requires Blameable(failed, rank)
    ensures |places| == |AllFailed(failed, rank, wants)|
    ensures forall k :: 0 <= k < |places| ==>
            FirstBlame(failed, rank, wants, places[k], AllFailed(failed, rank, wants)[k])
    ensures forall k, l :: 0 <= k < l < |places| ==> places[k] < places[l]
  {
    hide Blameable, Culprit, FirstFailed, FirstBlame, NamesOf, DistinctNames, Blamed;
    if wants == [] {
      places := [];
    } else {
      var n := |wants| - 1;
      var init, before := wants[..n], AllFailed(failed, rank, wants[..n]);
      places := BlameInOrder(failed, rank, init);
      forall k | 0 <= k < |places|
        ensures FirstBlame(failed, rank, wants, places[k], before[k]) && places[k] < n
      {
        BlameStaysFirst(failed, rank, wants, places[k], before[k]);
      }
      if wants[n] in failed {
        var job := Culprit(failed, rank, wants[n]);
        AllFailedBlames(failed, rank, init);
        CulpritNamed(failed, rank, wants, before, n);
        if job.name !in NamesOf(before) {
          places := places + [n];
        }
      }
    }
  }

  lemma BlameStaysFirst(failed: map<string, Job>, rank: map<string, nat>, wants: seq<string>, i: nat, job: Job)
    requires Blameable(failed, rank) && wants != [] && FirstBlame(failed, rank, wants[..|wants| - 1], i, job)
    ensures FirstBlame(failed, rank, wants, i, job) && i < |wants| - 1
  {
    assert forall k :: 0 <= k <= i ==> wants[..|wants| - 1][k] == wants[k];
  }

  lemma CulpritNamed(failed: map<string, Job>, rank: map<string, nat>, wants: seq<string>, before: seq<Job>, n: nat)
    requires Blameable(failed, rank) && n < |wants| && wants[n] in failed
    requires forall w :: w in wants[..n] && w in failed ==> Culprit(failed, rank, w) in before
    ensures Culprit(failed, rank, wants[n]).name !in NamesOf(before) ==>
              FirstBlame(failed, rank, wants, n, Culprit(failed, rank, wants[n]))
  {
    hide Blameable;
    var job := Culprit(failed, rank, wants[n]);
    forall k | 0 <= k < n && wants[k] in failed && Culprit(failed, rank, wants[k]) == job
      ensures job.name in NamesOf(before)
    {
      assert wants[k] in wants[..n];
      var i :| 0 <= i < |before| && before[i] == job;
      assert before[i].name in NamesOf(before);
    }
  }

  lemma BlamedMonotone(failed: map<string, Job>, fewer: seq<string>, wants: seq<string>, jobs: seq<Job>)
    requires forall w :: w in fewer ==> w in wants
    requires forall j :: j in jobs ==> Blamed(failed, fewer, j)
    ensures forall j :: j in jobs ==> Blamed(failed, wants, j)
  {
    forall j | j in jobs
      ensures Blamed(failed, wants, j)
    {
      var path :| Blames(failed, fewer, path, j);
      assert Blames(failed, wants, path, j);
    }
  }

  lemma CulpritIsBlamed(failed: map<string, Job>, rank: map<string, nat>, wants: seq<string>, n: string)
    requires Blameable(failed, rank) && n in failed && n in wants
    ensures Blamed(failed, wants, Culprit(failed, rank, n))
  {
    var path := CulpritBlamed(failed, rank, n);
    assert Blames(failed, wants, path, Culprit(failed, rank, n));
  }

  lemma EnterKeeps(failed: map<string, Job>, wants: seq<string>, jobs: seq<Job>, job: Job)
    requires forall n :: n in failed ==> failed[n].name == n
    requires forall j :: j in jobs ==> Blamed(failed, wants, j)
    requires Blamed(failed, wants, job) && DistinctNames(jobs)
    ensures DistinctNames(Enter(jobs, job)) && job in Enter(jobs, job)
    ensures forall j :: j in jobs ==> j in Enter(jobs, job)
    ensures forall j :: j in Enter(jobs, job) ==> Blamed(failed, wants, j)
  {
    if job.name in NamesOf(jobs) {
      var i :| 0 <= i < |jobs| && jobs[i].name == job.name;
      BlamedFailed(failed, wants, jobs[i]);
      BlamedFailed(failed, wants, job);
    }
  }

  lemma BlamedFailed(failed: map<string, Job>, wants: seq<string>, job: Job)
    requires forall n :: n in failed ==> failed[n].name == n
    requires Blamed(failed, wants, job)
    ensures job.name in failed && failed[job.name] == job
  {
    var path :| Blames(failed, wants, path, job);
  }

  /** Nothing is blamed exactly when no direct dependency failed. */
  lemma NobodyBlamed(failed: map<string, Job>, rank: map<string, nat>, wants: seq<string>)
    requires Blameable(failed, rank)
    ensures AllFailed(failed, rank, wants) == [] <==> forall w :: w in wants ==> w !in failed
  {
    AllFailedBlames(failed, rank, wants);
    if AllFailed(failed, rank, wants) != [] {
      var j := AllFailed(failed, rank, wants)[0];
      assert Blamed(failed, wants, j);
      var path :| Blames(failed, wants, path, j);
      assert path[0] in wants && path[0] in failed;
    }
  }

  /** Within `closed`, the two dictionaries of failed jobs agree, and failed jobs only want names in `closed`. */
  ghost predicate AgreeOn(closed: set<string>, before: map<string, Job>, after: map<string, Job>) {
    forall n :: n in closed ==>
      && (n in before <==> n in after)
      && (n in before ==> before[n] == after[n] && forall w :: w in before[n].wants ==> w in closed)
  }

  lemma {:induction false} CulpritStable(closed: set<string>, before: map<string, Job>, after: map<string, Job>,
                                         rank: map<string, nat>, n: string)
    requires Blameable(before, rank) && Blameable(after, rank) && AgreeOn(closed, before, after)
    requires n in closed && n in before
    ensures Culprit(before, rank, n) == Culprit(after, rank, n)
    decreases Level(WantsGraph(before), rank, n)
  {
    HeightOfSuccessors(WantsGraph(before), rank, n);
    FirstFailedStable(closed, before, after, rank, before[n].wants);
  }

  lemma {:induction false} FirstFailedStable(closed: set<string>, before: map<string, Job>, after: map<string, Job>,
                                             rank: map<string, nat>, wants: seq<string>)
    requires Blameable(before, rank) && Blameable(after, rank) && AgreeOn(closed, before, after)
    requires forall w :: w in wants ==> w in closed
    ensures FirstFailed(before, rank, wants) == FirstFailed(after, rank, wants)
    decreases Height(WantsGraph(before), rank, wants), |wants|
  {
    if wants != [] {
      if wants[0] in before {
        CulpritStable(closed, before, after, rank, wants[0]);
      } else {
        FirstFailedStable(closed, before, after, rank, wants[1..]);
      }
    }
  }

  lemma {:induction false} AllFailedStable(closed: set<string>, before: map<string, Job>, after: map<string, Job>,
                                           rank: map<string, nat>, wants: seq<string>)
    requires Blameable(before, rank) && Blameable(after, rank) && AgreeOn(closed, before, after)
    requires forall w :: w in wants ==> w in closed
    ensures AllFailed(before, rank, wants) == AllFailed(after, rank, wants)
  {
    if wants != [] {
      var n := |wants| - 1;
      AllFailedStable(closed, before, after, rank, wants[..n]);
      if wants[n] in before {
        CulpritStable(closed, before, after, rank, wants[n]);
      }
    }
  }

  /** In every state of the scheduler the plan's order ranks the failed jobs. */
  lemma ScheduleBlameable(plan: seq<Job>, s: Sched)
    requires ValidPlan(plan) && Inv(plan, s)
    ensures Blameable(s.failed, Position(plan))
  {
    PositionRanksWants(plan, s.failed);
  }

  /** The blame of a job that can start is the same after any other job has completed. */
  lemma BlameStays(plan: seq<Job>, s: Sched, job: Job, other: Job, outcome: bool)
    requires ValidPlan(plan) && Inv(plan, s)
    requires CanBuild(job, NamesOf(s.built))
    requires other in plan && other.name in s.building
    ensures Blameable(s.failed, Position(plan))
    ensures Blameable(Complete(s, other, outcome).failed, Position(plan))
    ensures AllFailed(s.failed, Position(plan), job.wants)
         == AllFailed(Complete(s, other, outcome).failed, Position(plan), job.wants)
  {
    var t := Complete(s, other, outcome);
    CompleteInv(plan, s, other, outcome);
    ScheduleBlameable(plan, s);
    ScheduleBlameable(plan, t);
    BuiltIsClosed(plan, s);
    assert AgreeOn(NamesOf(s.built), s.failed, t.failed);
    AllFailedStable(NamesOf(s.built), s.failed, t.failed, Position(plan), job.wants);
  }

  /** One event of a build: somebody asks for the next job, or a job that is being built completes. */
  ghost predicate Event(plan: seq<Job>, s: Sched, t: Sched) {
    || t == Fetch(s)
    || exists other: Job, outcome: bool :: other in plan && other.name in s.building && t == Complete(s, other, outcome)
  }

  ghost predicate IsRun(plan: seq<Job>, run: seq<Sched>) {
    |run| > 0 && forall k :: 0 <= k < |run| - 1 ==> Event(plan, run[k], run[k + 1])
  }

  lemma EventKeeps(plan: seq<Job>, s: Sched, t: Sched, job: Job)
    requires ValidPlan(plan) && Inv(plan, s) && Event(plan, s, t)
    requires CanBuild(job, NamesOf(s.built))
    ensures Inv(plan, t) && CanBuild(job, NamesOf(t.built))
    ensures Blameable(s.failed, Position(plan)) && Blameable(t.failed, Position(plan))
    ensures AllFailed(s.failed, Position(plan), job.wants) == AllFailed(t.failed, Position(plan), job.wants)
  {
    hide ValidPlan, Inv, Blameable, Position, AllFailed, Fetch;
    ScheduleBlameable(plan, s);
    if t == Fetch(s) {
      FetchInv(plan, s);
      FetchGrows(s);
    } else {
      var other, outcome :| other in plan && other.name in s.building && t == Complete(s, other, outcome);
      CompleteInv(plan, s, other, outcome);
      NamesOfAppend(s.built, other);
      BlameStays(plan, s, job, other, outcome);
    }
  }

  /**
   * The blame computed when a job is handed out never changes: however the build goes on, and whatever
   * fails, recomputing it at any later time gives the same list.
   */
  lemma {:induction false} BlameIsFinal(plan: seq<Job>, run: seq<Sched>, job: Job, k: nat)
    requires ValidPlan(plan) && IsRun(plan, run) && Inv(plan, run[0]) && k < |run|
    requires CanBuild(job, NamesOf(run[0].built))
    ensures Inv(plan, run[k]) && CanBuild(job, NamesOf(run[k].built))
    ensures Blameable(run[0].failed, Position(plan)) && Blameable(run[k].failed, Position(plan))
    ensures AllFailed(run[k].failed, Position(plan), job.wants) == AllFailed(run[0].failed, Position(plan), job.wants)
  {
    hide ValidPlan, Inv, Blameable, Position, AllFailed, CanBuild, Event;
    if k == 0 {
      ScheduleBlameable(plan, run[0]);
    } else {
      BlameIsFinal(plan, run, job, k - 1);
      EventKeeps(plan, run[k - 1], run[k], job);
    }
  }

  lemma BuiltIsClosed(plan: seq<Job>, s: Sched)
    requires Inv(plan, s)
    ensures forall n, w :: n in s.failed && w in s.failed[n].wants ==> w in NamesOf(s.built)
  {
    forall n, w | n in s.failed && w in s.failed[n].wants
      ensures w in NamesOf(s.built)
    {
      WantInPlan(s.built, s.failed[n], w);
    }
  }
}
