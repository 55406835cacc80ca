/**
 * The scheduling half of the generator's state, as a value: which jobs wait,
 * which are being built, which are built (failed ones included) and which failed.
 */
module Schedule {
  import opened Plan

  datatype Sched = Sched(
    work: seq<Job>,
    building: set<string>,
    built: seq<Job>,           // in the order of completion
    failed: map<string, Job>,
    checkNoDeps: bool)

  datatype Choice = Empty | Stalled | Pick(index: nat)

  function Start(plan: seq<Job>): Sched {
    Sched(plan, {}, [], map[], true)
  }

  predicate CanBuild(job: Job, done: set<string>) {
    forall w :: w in job.wants ==> w in done
  }

  /** Index of the first job without dependencies; the length when there is none. */
  function FirstFree(work: seq<Job>): (i: nat)
    ensures i <= |work|
    ensures forall k :: 0 <= k < i ==> work[k].wants != []
    ensures i < |work| ==> work[i].wants == []
  {
    if work == [] || work[0].wants == [] then 0 else 1 + FirstFree(work[1..])
  }

  /** Index of the first job whose dependencies are all in `done`; the length when there is none. */
  function FirstReady(work: seq<Job>, done: set<string>): (i: nat)
    ensures i <= |work|
    ensures forall k :: 0 <= k < i ==> !CanBuild(work[k], done)
    ensures i < |work| ==> CanBuild(work[i], done)
  {
    if work == [] || CanBuild(work[0], done) then 0 else 1 + FirstReady(work[1..], done)
  }

  function Choose(s: Sched): (c: Choice)
    ensures c.Pick? ==> c.index < |s.work|
  {
    if s.work == [] then Empty
    else if s.checkNoDeps && FirstFree(s.work) < |s.work| then Pick(FirstFree(s.work))
    else
      var i := FirstReady(s.work, NamesOf(s.built));
      if i < |s.work| then Pick(i) else Stalled
  }

  /**
   * Job `i` is the one to start: the first one without dependencies or, if there is none, the first one all of whose
   * dependencies are in `done`.
   */
  ghost predicate IsNext(work: seq<Job>, done: set<string>, i: nat) {
    && i < |work|
    && if exists j :: j in work && j.wants == []
       then work[i].wants == [] && forall k :: 0 <= k < i ==> work[k].wants != []
       else
         && (forall w :: w in work[i].wants ==> w in done)
         && forall k :: 0 <= k < i ==> exists w :: w in work[k].wants && w !in done
  }

  /** The state after job `i` has been handed out. */
  function Hand(s: Sched, i: nat): Sched
    requires i < |s.work|
  {
    s.(work := s.work[..i] + s.work[i + 1..], building := s.building + {s.work[i].name})
  }

  /** The state after asking for the next job, whatever the answer was. */
  function Fetch(s: Sched): Sched {
    var check := s.checkNoDeps && (s.work == [] || FirstFree(s.work) < |s.work|);
    match Choose(s)
    case Pick(i) => Hand(s, i).(checkNoDeps := check)
    case _ => s.(checkNoDeps := check)
  }

  function Complete(s: Sched, job: Job, failed: bool): Sched {
    s.(building := s.building - {job.name},
       built := s.built + [job],
       failed := if failed then s.failed[job.name := job] else s.failed)
  }

  /** Within the waiting jobs, too, every job comes after those it wants. */
  ghost predicate WaitsInOrder(work: seq<Job>) {
    forall i, k :: 0 <= i < |work| && 0 <= k < |work| && work[k].name in work[i].wants ==> k < i
  }

  ghost predicate Split(all: set<string>, x: set<string>, y: set<string>, z: set<string>) {
    x !! y && x !! z && y !! z && x + y + z == all
  }

  /** Waiting, building and built always partition the plan. */
  ghost predicate Partition(plan: seq<Job>, s: Sched) {
    && Split(NamesOf(plan), NamesOf(s.work), s.building, NamesOf(s.built))
    && DistinctNames(s.work) && DistinctNames(s.built)
    && (forall j :: j in s.work ==> j in plan)
    && (forall j :: j in s.built ==> j in plan)
  }

  /** Whatever is being built has all its dependencies built. */
  ghost predicate Startable(plan: seq<Job>, building: set<string>, done: set<string>) {
    forall j :: j in plan && j.name in building ==> CanBuild(j, done)
  }

  ghost predicate Inv(plan: seq<Job>, s: Sched) {
    && Partition(plan, s)
    && WaitsInOrder(s.work)
    && Ordered(s.built)
    && Startable(plan, s.building, NamesOf(s.built))
    && (forall n :: n in s.failed ==> s.failed[n] in s.built && s.failed[n].name == n)
    && (!s.checkNoDeps ==> forall j :: j in s.work ==> j.wants != [])
  }

  lemma StartInv(plan: seq<Job>)
    requires ValidPlan(plan)
    ensures Inv(plan, Start(plan))
  {
    forall i, k | 0 <= i < |plan| && 0 <= k < |plan| && plan[k].name in plan[i].wants
      ensures k < i
    {
      assert plan[k].name in NamesOf(plan[..i]);
      var m :| 0 <= m < i && plan[m].name == plan[k].name;
      assert m == k;
    }
  }

  /** The choice is the job to start; none if no job waits, or if each has a dependency that is not built yet. */
  lemma ChooseIsNext(plan: seq<Job>, s: Sched)
    requires Inv(plan, s)
    ensures Choose(s).Pick? ==>
              && IsNext(s.work, NamesOf(s.built), Choose(s).index)
              && Fetch(s).work == s.work[..Choose(s).index] + s.work[Choose(s).index + 1..]
              && Fetch(s).building == s.building + {s.work[Choose(s).index].name}
    ensures !Choose(s).Pick? ==> Fetch(s).work == s.work && Fetch(s).building == s.building
    ensures Choose(s).Empty? <==> s.work == []
    ensures Choose(s).Stalled? <==>
            s.work != [] && forall j :: j in s.work ==> exists w :: w in j.wants && w !in NamesOf(s.built)
  {
    hide Partition, WaitsInOrder, Ordered, Startable, NamesOf;
    var done := NamesOf(s.built);
    if Choose(s).Pick? {
      var i := Choose(s).index;
      assert s.work[i] in s.work && CanBuild(s.work[i], done);
      forall k | 0 <= k < i
        ensures s.work[k] in s.work
      {
      }
    }
  }

  lemma FetchInv(plan: seq<Job>, s: Sched)
    requires ValidPlan(plan) && Inv(plan, s)
    ensures Inv(plan, Fetch(s))
  {
    if Choose(s).Pick? {
      PickInv(plan, s, Choose(s).index);
      assert s.checkNoDeps && !Fetch(s).checkNoDeps ==> forall j :: j in s.work ==> j.wants != [];
    }
  }

  lemma PickInv(plan: seq<Job>, s: Sched, i: nat)
    requires ValidPlan(plan) && Inv(plan, s)
    requires i < |s.work| && CanBuild(s.work[i], NamesOf(s.built))
    ensures Inv(plan, Hand(s, i))
    ensures forall j :: j in Hand(s, i).work ==> j in s.work
  {
    assert s.work[i] in plan;
    PickKeepsPartition(plan, s, i);
    RemoveKeepsOrder(s.work, i);
    PickKeepsStartable(plan, s.building, NamesOf(s.built), s.work[i]);
  }

  lemma PickKeepsStartable(plan: seq<Job>, building: set<string>, done: set<string>, job: Job)
    requires DistinctNames(plan) && Startable(plan, building, done)
    requires job in plan && CanBuild(job, done)
    ensures Startable(plan, building + {job.name}, done)
  {
    forall j | j in plan && j.name == job.name
      ensures j == job
    {
      SameName(plan, j, job);
    }
  }

  lemma PickKeepsPartition(plan: seq<Job>, s: Sched, i: nat)
    requires Partition(plan, s) && i < |s.work|
    ensures Partition(plan, Hand(s, i))
  {
    NamesOfRemove(s.work, i);
    assert s.work[i].name in NamesOf(s.work);
    Move(NamesOf(plan), NamesOf(s.work), s.building, NamesOf(s.built), s.work[i].name);
  }

  lemma Move(all: set<string>, x: set<string>, y: set<string>, z: set<string>, n: string)
    requires Split(all, x, y, z) && n in x
    ensures Split(all, x - {n}, y + {n}, z)
  {
  }

  lemma RemoveKeepsOrder(work: seq<Job>, i: nat)
    requires WaitsInOrder(work) && i < |work|
    ensures WaitsInOrder(work[..i] + work[i + 1..])
  {
    var rest := work[..i] + work[i + 1..];
    forall a, b | 0 <= a < |rest| && 0 <= b < |rest| && rest[b].name in rest[a].wants
      ensures b < a
    {
      var a', b' := if a < i then a else a + 1, if b < i then b else b + 1;
      assert rest[a] == work[a'] && rest[b] == work[b'];
    }
  }

  lemma CompleteInv(plan: seq<Job>, s: Sched, job: Job, failed: bool)
    requires ValidPlan(plan) && Inv(plan, s)
    requires job in plan && job.name in s.building
    ensures Inv(plan, Complete(s, job, failed))
  {
    Append(s.built, job);
    assert NamesOf(s.built) <= NamesOf(s.built + [job]);
  }

  /** When nothing is being built, the head of the waiting jobs can start: the scheduler never stalls idle. */
  lemma NeverStalledIdle(plan: seq<Job>, s: Sched)
    requires ValidPlan(plan) && Inv(plan, s)
    requires s.building == {}
    ensures Choose(s) != Stalled
  {
    if s.work != [] {
      var head := s.work[0];
      forall w | w in head.wants
        ensures w in NamesOf(s.built)
      {
        WantInPlan(plan, head, w);
        assert w !in NamesOf(s.work);
      }
      assert CanBuild(head, NamesOf(s.built));
    }
  }

  lemma WantInPlan(plan: seq<Job>, job: Job, w: string)
    requires Ordered(plan) && job in plan && w in job.wants
    ensures w in NamesOf(plan)
  {
    var i :| 0 <= i < |plan| && plan[i] == job;
    var k :| 0 <= k < i && plan[..i][k].name == w;
    assert plan[k].name == w;
  }

  /** Once nothing waits and nothing is being built, the whole plan has been built. */
  lemma AllBuilt(plan: seq<Job>, s: Sched)
    requires ValidPlan(plan) && Inv(plan, s)
    requires s.work == [] && s.building == {}
    ensures NamesOf(s.built) == NamesOf(plan)
    ensures multiset(s.built) == multiset(plan)
  {
    assert NamesOf(s.work) == {};
    forall j | j in plan
      ensures j in s.built
    {
      assert j.name in NamesOf(s.built);
      var k :| 0 <= k < |s.built| && s.built[k].name == j.name;
      SameName(plan, j, s.built[k]);
    }
    DistinctCount(plan);
    DistinctCount(s.built);
    forall j: Job
      ensures multiset(s.built)[j] == multiset(plan)[j]
    {
      assert j in s.built <==> j in plan;
      assert (j in multiset(s.built)) == (j in s.built);
      assert (j in multiset(plan)) == (j in plan);
    }
  }

  lemma {:induction false} DistinctCount(jobs: seq<Job>)
    requires DistinctNames(jobs)
    ensures forall j :: multiset(jobs)[j] <= 1
  {
    if jobs != [] {
      DistinctCount(jobs[1..]);
      assert jobs == [jobs[0]] + jobs[1..];
      assert forall k :: 0 <= k < |jobs[1..]| ==> jobs[1..][k] == jobs[k + 1];
      assert jobs[0] !in jobs[1..];
      assert jobs[0] !in multiset(jobs[1..]);
    }
  }

  /** No job is lost or duplicated: those waiting, being built and built are as many as planned. */
  lemma Counts(plan: seq<Job>, s: Sched)
    requires DistinctNames(plan) && Partition(plan, s)
    ensures |s.work| + |s.building| + |s.built| == |plan|
  {
    NameCount(plan);
    NameCount(s.work);
    NameCount(s.built);
    var w, d := NamesOf(s.work), NamesOf(s.built);
    assert |w + s.building| == |w| + |s.building|;
    assert |(w + s.building) + d| == |w + s.building| + |d|;
  }

  lemma InvCounts(plan: seq<Job>, s: Sched)
    requires ValidPlan(plan) && Inv(plan, s)
    ensures |s.work| + |s.building| + |s.built| == |plan|
  {
    hide Partition;
    Counts(plan, s);
  }

  /** Asking for up to `slots` jobs, stopping at the first refusal: what filling the work queue does. */
  function Fill(s: Sched, slots: nat): Sched
    decreases slots
  {
    if slots == 0 then s
    else if Choose(s).Pick? then Fill(Fetch(s), slots - 1)
    else Fetch(s)
  }

  lemma FetchGrows(s: Sched)
    ensures Fetch(s).built == s.built && Fetch(s).failed == s.failed
    ensures s.building <= Fetch(s).building
    ensures |Fetch(s).building| <= |s.building| + if Choose(s).Pick? then 1 else 0
  {
  }

  lemma {:induction false} FillInv(plan: seq<Job>, s: Sched, slots: nat)
    requires ValidPlan(plan) && Inv(plan, s)
    ensures Inv(plan, Fill(s, slots))
    ensures Fill(s, slots).built == s.built && Fill(s, slots).failed == s.failed
    ensures s.building <= Fill(s, slots).building
    ensures |Fill(s, slots).building| <= |s.building| + slots
    decreases slots
  {
    hide ValidPlan, Inv, Choose, Fetch;
    if slots > 0 {
      FetchInv(plan, s);
      FetchGrows(s);
      if Choose(s).Pick? {
        FillInv(plan, Fetch(s), slots - 1);
      }
    }
  }

  /** No waiting job can start: each has an unfinished dependency. */
  ghost predicate AllBlocked(s: Sched) {
    forall j :: j in s.work ==> !CanBuild(j, NamesOf(s.built))
  }

  lemma StalledIsBlocked(plan: seq<Job>, s: Sched)
    requires ValidPlan(plan) && Inv(plan, s) && Choose(s) == Stalled
    ensures Fetch(s).building != {} && AllBlocked(Fetch(s))
  {
    if s.building == {} {
      NeverStalledIdle(plan, s);
    }
  }

  /** Either all threads are taken, or no job waits, or every waiting job still has an unfinished dependency. */
  ghost predicate Saturated(s: Sched, threads: nat) {
    || |s.building| == threads
    || s.work == []
    || (s.building != {} && AllBlocked(s))
  }

  /** Work conservation: filling leaves no slot idle that could be used. */
  lemma {:induction false} FillConserves(plan: seq<Job>, s: Sched, slots: nat)
    requires ValidPlan(plan) && Inv(plan, s)
    ensures Saturated(Fill(s, slots), |s.building| + slots)
    decreases slots
  {
    hide ValidPlan, Inv, AllBlocked, Fetch, Choose;
    if slots > 0 {
      if Choose(s).Pick? {
        FetchInv(plan, s);
        PickCounts(plan, s);
        FillConserves(plan, Fetch(s), slots - 1);
      } else if Choose(s).Stalled? {
        StalledIsBlocked(plan, s);
      } else {
        NothingLeft(s);
      }
    }
  }

  lemma NothingLeft(s: Sched)
    requires Choose(s).Empty?
    ensures s.work == [] && Fetch(s).work == [] && Fetch(s).building == s.building
  {
  }

  lemma PickCounts(plan: seq<Job>, s: Sched)
    requires Inv(plan, s) && Choose(s).Pick?
    ensures |Fetch(s).building| == |s.building| + 1
    ensures |Fetch(s).work| == |s.work| - 1
  {
    assert s.work[Choose(s).index].name in NamesOf(s.work);
  }

  /** If filling an idle scheduler starts nothing, then nothing was left to start. */
  lemma FillFromIdle(plan: seq<Job>, s: Sched, slots: nat)
    requires ValidPlan(plan) && Inv(plan, s)
    requires slots > 0
    ensures Fill(s, slots).building == {} ==> Fill(s, slots).work == [] && s.work == []
  {
    hide ValidPlan, Inv;
    if Choose(s).Pick? {
      PickCounts(plan, s);
      FetchInv(plan, s);
      FillInv(plan, Fetch(s), slots - 1);
    } else if Choose(s).Stalled? {
      StalledIsBlocked(plan, s);
    }
  }

  /** Handing out a job is progress: the measure 2 * waiting + building falls. */
  lemma {:induction false} FillMeasure(plan: seq<Job>, s: Sched, slots: nat)
    requires ValidPlan(plan) && Inv(plan, s)
    ensures 2 * |Fill(s, slots).work| + |Fill(s, slots).building| <= 2 * |s.work| + |s.building|
    decreases slots
  {
    hide ValidPlan, Inv, Choose, Fetch;
    if slots > 0 {
      FetchInv(plan, s);
      if Choose(s).Pick? {
        PickCounts(plan, s);
        FillMeasure(plan, Fetch(s), slots - 1);
      } else {
        RefusalChangesNothing(s);
      }
    }
  }

  lemma RefusalChangesNothing(s: Sched)
    requires !Choose(s).Pick?
    ensures Fetch(s).work == s.work && Fetch(s).building == s.building
  {
  }

  /** It is the job's turn: all it wants is built, and if it wants anything no dependency-free job waits. */
  ghost predicate IsDue(job: Job, work: seq<Job>, done: set<string>) {
    && CanBuild(job, done)
    && (job.wants != [] ==> forall j :: j in work ==> j.wants != [])
  }

  lemma PickedIsDue(plan: seq<Job>, s: Sched)
    requires Inv(plan, s) && Choose(s).Pick?
    ensures IsDue(s.work[Choose(s).index], s.work, NamesOf(s.built))
  {
    hide Partition, Ordered, Startable, WaitsInOrder;
  }
}
