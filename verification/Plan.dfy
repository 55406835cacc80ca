/** The build plan: the list of jobs that the planner writes and the scheduler reads. */
module Plan {
  import opened Names
  import opened RankedGraph

  datatype Job = Job(task: string, name: string, section: string, wants: seq<string>, unpacks: seq<string>)

  function Package(job: Job): string {
    PackageOf(job.name)
  }

  function NamesOf(jobs: seq<Job>): set<string> {
    set i | 0 <= i < |jobs| :: jobs[i].name
  }

  ghost predicate DistinctNames(jobs: seq<Job>) {
    forall i, k :: 0 <= i < k < |jobs| ==> jobs[i].name != jobs[k].name
  }

  /** Every job comes after all the jobs it wants. */
  ghost predicate Ordered(jobs: seq<Job>) {
    forall i :: 0 <= i < |jobs| ==> forall w :: w in jobs[i].wants ==> w in NamesOf(jobs[..i])
  }

  /** All jobs of one package carry the same package data. */
  ghost predicate Consistent(jobs: seq<Job>) {
    forall j, k :: j in jobs && k in jobs && Package(j) == Package(k) ==>
      j.unpacks == k.unpacks && j.section == k.section
  }

  ghost predicate ValidPlan(plan: seq<Job>) {
    && DistinctNames(plan)
    && Ordered(plan)
    && Consistent(plan)
    && forall j :: j in plan ==> StepName(j.name)
  }

  /** The position of each job, by name. */
  ghost function Position(jobs: seq<Job>): (rank: map<string, nat>)
    requires DistinctNames(jobs)
    ensures rank.Keys == NamesOf(jobs)
    ensures forall i :: 0 <= i < |jobs| ==> rank[jobs[i].name] == i
  {
    if jobs == [] then map[]
    else
      var init, last := jobs[..|jobs| - 1], jobs[|jobs| - 1];
      assert jobs == init + [last];
      assert forall j :: j in jobs <==> j in init || j == last;
      assert forall i :: 0 <= i < |init| ==> jobs[i] == init[i];
      Position(init)[last.name := |jobs| - 1]
  }

  lemma SameName(jobs: seq<Job>, j: Job, k: Job)
    requires DistinctNames(jobs) && j in jobs && k in jobs && j.name == k.name
    ensures j == k
  {
    var a :| 0 <= a < |jobs| && jobs[a] == j;
    var b :| 0 <= b < |jobs| && jobs[b] == k;
    assert a == b;
  }

  /** Adding a job under a new name at the end, after the jobs it wants. */
  lemma Append(jobs: seq<Job>, job: Job)
    requires DistinctNames(jobs) && Ordered(jobs)
    requires job.name !in NamesOf(jobs)
    requires forall w :: w in job.wants ==> w in NamesOf(jobs)
    ensures DistinctNames(jobs + [job]) && Ordered(jobs + [job])
    ensures NamesOf(jobs + [job]) == NamesOf(jobs) + {job.name}
  {
    var all := jobs + [job];
    assert forall i :: 0 <= i < |jobs| ==> all[i] == jobs[i] && all[..i] == jobs[..i];
    assert all[|jobs|] == job && all[..|jobs|] == jobs;
    NamesOfAppend(jobs, job);
    forall i | 0 <= i < |all|
      ensures forall w :: w in all[i].wants ==> w in NamesOf(all[..i])
    {
      if i < |jobs| {
        assert all[..i] == jobs[..i];
      }
    }
  }

  lemma NamesOfAppend(jobs: seq<Job>, job: Job)
    ensures NamesOf(jobs + [job]) == NamesOf(jobs) + {job.name}
  {
    var all := jobs + [job];
    forall n | n in NamesOf(jobs) + {job.name}
      ensures n in NamesOf(all)
    {
      if n in NamesOf(jobs) {
        var i :| 0 <= i < |jobs| && jobs[i].name == n;
        assert all[i].name == n;
      } else {
        assert all[|jobs|].name == n;
      }
    }
  }

  /** Taking one job out of a list of distinctly named jobs. */
  lemma NamesOfRemove(jobs: seq<Job>, i: nat)
    requires i < |jobs| && DistinctNames(jobs)
    ensures var rest := jobs[..i] + jobs[i + 1..];
            && DistinctNames(rest)
            && NamesOf(rest) == NamesOf(jobs) - {jobs[i].name}
            && (forall j :: j in rest ==> j in jobs)
  {
    var rest := jobs[..i] + jobs[i + 1..];
    var name := jobs[i].name;
    assert forall a :: 0 <= a < i ==> rest[a] == jobs[a];
    assert forall a :: i <= a < |rest| ==> rest[a] == jobs[a + 1];
    forall n | n in NamesOf(jobs) && n != name
      ensures n in NamesOf(rest)
    {
      var a :| 0 <= a < |jobs| && jobs[a].name == n;
      var b := if a < i then a else a - 1;
      assert rest[b].name == n;
    }
    forall n | n in NamesOf(rest)
      ensures n in NamesOf(jobs) && n != name
    {
      var b :| 0 <= b < |rest| && rest[b].name == n;
      var a := if b < i then b else b + 1;
      assert jobs[a].name == n;
    }
  }

  /** A list of distinctly named jobs has as many jobs as names. */
  lemma {:induction false} NameCount(jobs: seq<Job>)
    requires DistinctNames(jobs)
    ensures |NamesOf(jobs)| == |jobs|
  {
    if jobs == [] {
      assert NamesOf(jobs) == {};
    } else {
      var rest, name := jobs[1..], jobs[0].name;
      var all, fewer := NamesOf(jobs), NamesOf(rest);
      NamesOfRemove(jobs, 0);
      assert jobs[..0] + jobs[1..] == rest;
      NameCount(rest);
      assert name in all;
      assert all == fewer + {name};
      assert name !in fewer;
    }
  }

  /** The order of a plan ranks the graph of wants of any part of it. */
  lemma PositionRanksWants(plan: seq<Job>, part: map<string, Job>)
    requires DistinctNames(plan) && Ordered(plan)
    requires forall n :: n in part ==> part[n] in plan && part[n].name == n
    ensures Ranked(WantsGraph(part), Position(plan))
  {
    var rank := Position(plan);
    forall p, q | p in part && q in part[p].wants && q in part
      ensures rank[q] < rank[p]
    {
      var i :| 0 <= i < |plan| && plan[i] == part[p];
      assert q in NamesOf(plan[..i]);
      var k :| 0 <= k < i && plan[k].name == q;
      assert rank[plan[k].name] == k;
    }
  }

  function WantsGraph(jobs: map<string, Job>): Graph {
    map n | n in jobs :: jobs[n].wants
  }
}
