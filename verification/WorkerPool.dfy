/**
 * The build loop and its worker threads as a state machine: every interleaving of the
 * main thread with the workers, which share a queue of work and a queue of completions.
 */
module WorkerPool {
  import opened Plan
  import opened Schedule

  /** A worker has put its result into the completion queue before it decides whether to go on. */
  datatype Worker = Idle | Executing(job: Job) | Deciding(failed: bool) | Exited

  datatype Phase = Queueing | Waiting | Finished

  datatype Outcome = Outcome(job: Job, failed: bool)

  datatype Config = Config(plan: seq<Job>, threads: nat, halt: bool, immediate: bool)

  datatype Pool = Pool(sched: Sched, queue: seq<Job>, workers: seq<Worker>, complete: seq<Outcome>, phase: Phase)

  datatype Step =
    | Main                              // one step of the main thread
    | Take(worker: nat)                 // a worker takes a job off the queue
    | Deliver(worker: nat, failed: bool) // ... finishes it and reports the outcome
    | Settle(worker: nat)               // ... and goes on, or exits after a failure under halt-on-error

  ghost predicate ValidConfig(c: Config) {
    ValidPlan(c.plan) && 1 <= c.threads
  }

  function Start(c: Config): Pool {
    Pool(Schedule.Start(c.plan), [], seq(c.threads, _ => Idle), [], Queueing)
  }

  predicate Halted(c: Config, p: Pool) {
    c.halt && p.sched.failed != map[]
  }

  predicate Enabled(c: Config, p: Pool, step: Step) {
    match step
    case Main => p.phase == Queueing || (p.phase == Waiting && p.complete != [])
    case Take(w) => w < |p.workers| && p.workers[w] == Idle && p.queue != []
    case Deliver(w, _) => w < |p.workers| && p.workers[w].Executing?
    case Settle(w) => w < |p.workers| && p.workers[w].Deciding?
  }

  /** One turn of filling the work queue. */
  function Queue(c: Config, p: Pool): Pool {
    var s := p.sched;
    if Halted(c, p) then
      p.(phase := if !c.immediate && s.building != {} then Waiting else Finished)
    else if |s.building| < c.threads then
      match Choose(s)
      case Pick(i) => p.(sched := Fetch(s), queue := p.queue + [s.work[i]])
      case Stalled => p.(sched := Fetch(s), phase := Waiting)
      case Empty => p.(sched := Fetch(s), phase := if s.building == {} then Finished else Waiting)
    else
      p.(phase := Waiting)
  }

  function Apply(c: Config, p: Pool, step: Step): Pool
    requires Enabled(c, p, step)
  {
    match step
    case Main =>
      if p.phase == Queueing then Queue(c, p)
      else p.(sched := Complete(p.sched, p.complete[0].job, p.complete[0].failed), complete := p.complete[1..],
              phase := Queueing)
    case Take(w) =>
      p.(workers := p.workers[w := Executing(p.queue[0])], queue := p.queue[1..])
    case Deliver(w, failed) =>
      p.(workers := p.workers[w := Deciding(failed)], complete := p.complete + [Outcome(p.workers[w].job, failed)])
    case Settle(w) =>
      p.(workers := p.workers[w := if p.workers[w].failed && c.halt then Exited else Idle])
  }

  /** A worker that has exited, or is bound to. */
  predicate IsLost(halt: bool, w: Worker) {
    w.Exited? || (halt && w == Deciding(true))
  }

  function Busy(ws: seq<Worker>): nat {
    if ws == [] then 0 else Busy(ws[1..]) + if ws[0].Executing? then 1 else 0
  }

  function Undecided(ws: seq<Worker>): nat {
    if ws == [] then 0 else Undecided(ws[1..]) + if ws[0].Deciding? then 1 else 0
  }

  function Lost(halt: bool, ws: seq<Worker>): nat {
    if ws == [] then 0 else Lost(halt, ws[1..]) + if IsLost(halt, ws[0]) then 1 else 0
  }

  function Load(w: Worker, job: Job): nat {
    if w == Executing(job) then 1 else 0
  }

  function Running(ws: seq<Worker>, job: Job): nat {
    if ws == [] then 0 else Running(ws[1..], job) + Load(ws[0], job)
  }

  function Queued(jobs: seq<Job>, job: Job): nat {
    if jobs == [] then 0 else Queued(jobs[1..], job) + if jobs[0] == job then 1 else 0
  }

  function Delivered(outcomes: seq<Outcome>, job: Job): nat {
    if outcomes == [] then 0 else Delivered(outcomes[1..], job) + if outcomes[0].job == job then 1 else 0
  }

  function Failures(outcomes: seq<Outcome>): nat {
    if outcomes == [] then 0 else Failures(outcomes[1..]) + if outcomes[0].failed then 1 else 0
  }

  function InFlight(p: Pool, job: Job): nat {
    Queued(p.queue, job) + Running(p.workers, job) + Delivered(p.complete, job)
  }

  /** Exactly the jobs being built are queued, executing, or delivered; each of them once. */
  ghost predicate Located(plan: seq<Job>, p: Pool) {
    forall j :: InFlight(p, j) == if j in plan && j.name in p.sched.building then 1 else 0
  }

  ghost predicate Counts(c: Config, p: Pool) {
    && |p.workers| == c.threads
    && |p.sched.building| <= c.threads
    && |p.queue| + Busy(p.workers) + |p.complete| == |p.sched.building|
    && |p.queue| + Busy(p.workers) + Lost(c.halt, p.workers) <= c.threads
    && (c.halt && p.sched.failed == map[] ==> Lost(c.halt, p.workers) <= Failures(p.complete))
    && (!c.halt ==> Lost(c.halt, p.workers) == 0)
  }

  ghost predicate PhaseOk(c: Config, s: Sched, phase: Phase) {
    match phase
    case Queueing => true
    case Waiting => s.building != {}
    case Finished => if c.halt && s.failed != map[] then c.immediate || s.building == {}
      else s.building == {} && s.work == []
  }

  ghost predicate PoolInv(c: Config, p: Pool) {
    && Inv(c.plan, p.sched)
    && Located(c.plan, p)
    && Counts(c, p)
    && PhaseOk(c, p.sched, p.phase)
  }

  lemma {:induction false} Replace(halt: bool, ws: seq<Worker>, i: nat, w: Worker)
    requires i < |ws|
    ensures Busy(ws[i := w]) == Busy(ws) - (if ws[i].Executing? then 1 else 0) + (if w.Executing? then 1 else 0)
    ensures Undecided(ws[i := w]) == Undecided(ws) - (if ws[i].Deciding? then 1 else 0) + (if w.Deciding? then 1 else 0)
    ensures Lost(halt, ws[i := w])
            == Lost(halt, ws) - (if IsLost(halt, ws[i]) then 1 else 0) + (if IsLost(halt, w) then 1 else 0)
  {
    hide IsLost;
    var ws' := ws[i := w];
    if i == 0 {
      assert ws'[1..] == ws[1..];
    } else {
      Replace(halt, ws[1..], i - 1, w);
      assert ws'[1..] == ws[1..][i - 1 := w];
    }
  }

  lemma {:induction false} ReplaceRunning(ws: seq<Worker>, i: nat, w: Worker, job: Job)
    requires i < |ws|
    ensures Running(ws[i := w], job) + Load(ws[i], job) == Running(ws, job) + Load(w, job)
  {
    var ws' := ws[i := w];
    if i == 0 {
      assert ws'[1..] == ws[1..];
    } else {
      ReplaceRunning(ws[1..], i - 1, w, job);
      assert ws'[1..] == ws[1..][i - 1 := w];
    }
  }

  lemma {:induction false} QueuedAppend(jobs: seq<Job>, last: Job, job: Job)
    ensures Queued(jobs + [last], job) == Queued(jobs, job) + if last == job then 1 else 0
  {
    if jobs != [] {
      QueuedAppend(jobs[1..], last, job);
      assert (jobs + [last])[1..] == jobs[1..] + [last];
    }
  }

  lemma {:induction false} DeliveredAppend(outcomes: seq<Outcome>, o: Outcome, job: Job)
    ensures Delivered(outcomes + [o], job) == Delivered(outcomes, job) + if o.job == job then 1 else 0
    ensures Failures(outcomes + [o]) == Failures(outcomes) + if o.failed then 1 else 0
  {
    if outcomes != [] {
      DeliveredAppend(outcomes[1..], o, job);
      assert (outcomes + [o])[1..] == outcomes[1..] + [o];
    }
  }

  lemma {:induction false} FailuresBound(outcomes: seq<Outcome>)
    ensures Failures(outcomes) <= |outcomes|
  {
    if outcomes != [] {
      FailuresBound(outcomes[1..]);
    }
  }

  lemma {:induction false} AllIdle(halt: bool, n: nat)
    ensures var ws := seq(n, _ => Idle);
            Busy(ws) == 0 && Lost(halt, ws) == 0 && Undecided(ws) == 0 && forall j :: Running(ws, j) == 0
  {
    var ws: seq<Worker> := seq(n, _ => Idle);
    if n > 0 {
      AllIdle(halt, n - 1);
      assert ws[1..] == seq(n - 1, _ => Idle);
    }
  }

  lemma StartPoolInv(c: Config)
    requires ValidConfig(c)
    ensures PoolInv(c, Start(c))
  {
    hide ValidPlan, Inv;
    StartInv(c.plan);
    AllIdle(c.halt, c.threads);
  }

  lemma TakeFlight(c: Config, p: Pool, w: nat)
    requires Enabled(c, p, Take(w))
    ensures forall j :: InFlight(Apply(c, p, Take(w)), j) == InFlight(p, j)
  {
    forall j
      ensures InFlight(Apply(c, p, Take(w)), j) == InFlight(p, j)
    {
      ReplaceRunning(p.workers, w, Executing(p.queue[0]), j);
    }
  }

  lemma DeliverFlight(c: Config, p: Pool, w: nat, failed: bool)
    requires Enabled(c, p, Deliver(w, failed))
    ensures forall j :: InFlight(Apply(c, p, Deliver(w, failed)), j) == InFlight(p, j)
  {
    forall j
      ensures InFlight(Apply(c, p, Deliver(w, failed)), j) == InFlight(p, j)
    {
      ReplaceRunning(p.workers, w, Deciding(failed), j);
      DeliveredAppend(p.complete, Outcome(p.workers[w].job, failed), j);
    }
  }

  lemma SettleFlight(c: Config, p: Pool, w: nat)
    requires Enabled(c, p, Settle(w))
    ensures forall j :: InFlight(Apply(c, p, Settle(w)), j) == InFlight(p, j)
  {
    forall j
      ensures InFlight(Apply(c, p, Settle(w)), j) == InFlight(p, j)
    {
      ReplaceRunning(p.workers, w, if p.workers[w].failed && c.halt then Exited else Idle, j);
    }
  }

  /** A worker's own steps move one job along and leave the main thread's state alone. */
  lemma WorkerInv(c: Config, p: Pool, step: Step)
    requires ValidConfig(c) && PoolInv(c, p) && Enabled(c, p, step) && !step.Main?
    ensures PoolInv(c, Apply(c, p, step))
  {
    hide ValidPlan, Inv, PhaseOk, InFlight;
    match step {
      case Take(w) =>
        TakeFlight(c, p, w);
        Replace(c.halt, p.workers, w, Executing(p.queue[0]));
      case Deliver(w, failed) =>
        DeliverFlight(c, p, w, failed);
        Replace(c.halt, p.workers, w, Deciding(failed));
        DeliveredAppend(p.complete, Outcome(p.workers[w].job, failed), p.workers[w].job);
      case Settle(w) =>
        SettleFlight(c, p, w);
        Replace(c.halt, p.workers, w, if p.workers[w].failed && c.halt then Exited else Idle);
    }
  }

  lemma PickLocated(c: Config, p: Pool)
    requires ValidPlan(c.plan) && Inv(c.plan, p.sched) && Choose(p.sched).Pick?
    requires Located(c.plan, p)
    ensures Located(c.plan, p.(sched := Fetch(p.sched), queue := p.queue + [p.sched.work[Choose(p.sched).index]]))
  {
    var s := p.sched;
    var job := s.work[Choose(s).index];
    var q := p.(sched := Fetch(s), queue := p.queue + [job]);
    NotYetBuilding(c.plan, s);
    hide Inv, ValidPlan, Choose, Fetch;
    forall j
      ensures InFlight(q, j) == if j in c.plan && j.name in q.sched.building then 1 else 0
    {
      QueuedAppend(p.queue, job, j);
      if j in c.plan && j.name == job.name {
        SameName(c.plan, j, job);
      }
    }
  }

  lemma NotYetBuilding(plan: seq<Job>, s: Sched)
    requires ValidPlan(plan) && Inv(plan, s) && Choose(s).Pick?
    ensures var job := s.work[Choose(s).index];
            && job in plan && job.name !in s.building
            && Fetch(s).building == s.building + {job.name}
            && Fetch(s).failed == s.failed
    ensures DistinctNames(plan)
  {
    assert s.work[Choose(s).index].name in NamesOf(s.work);
  }

  lemma LocatedSame(plan: seq<Job>, p: Pool, q: Pool)
    requires Located(plan, p)
    requires q.queue == p.queue && q.workers == p.workers && q.complete == p.complete
             && q.sched.building == p.sched.building
    ensures Located(plan, q)
  {
    assert forall j :: InFlight(q, j) == InFlight(p, j);
  }

  predicate HandsOut(c: Config, p: Pool) {
    !Halted(c, p) && |p.sched.building| < c.threads && Choose(p.sched).Pick?
  }

  lemma QueueInv(c: Config, p: Pool)
    requires ValidConfig(c) && PoolInv(c, p) && p.phase == Queueing
    ensures PoolInv(c, Queue(c, p))
  {
    if HandsOut(c, p) {
      QueuePickInv(c, p);
    } else {
      QueueRestInv(c, p);
    }
  }

  lemma QueuePickInv(c: Config, p: Pool)
    requires ValidConfig(c) && PoolInv(c, p) && p.phase == Queueing && HandsOut(c, p)
    ensures PoolInv(c, Queue(c, p))
  {
    hide ValidPlan, Inv, Located, Fetch, Busy, Lost, Failures;
    var s := p.sched;
    FetchInv(c.plan, s);
    FailuresBound(p.complete);
    NotYetBuilding(c.plan, s);
    PickLocated(c, p);
    PickCounts(c.plan, s);
  }

  lemma QueueRestInv(c: Config, p: Pool)
    requires ValidConfig(c) && PoolInv(c, p) && p.phase == Queueing && !HandsOut(c, p)
    ensures PoolInv(c, Queue(c, p))
  {
    hide ValidPlan, Inv, Located, Choose, Fetch, Busy, Lost, Failures;
    FetchInv(c.plan, p.sched);
    if !Choose(p.sched).Pick? {
      RefusalKeeps(c.plan, p.sched);
    }
    LocatedSame(c.plan, p, Queue(c, p));
  }

  lemma RefusalKeeps(plan: seq<Job>, s: Sched)
    requires ValidPlan(plan) && Inv(plan, s) && !Choose(s).Pick?
    ensures Fetch(s) == s.(checkNoDeps := Fetch(s).checkNoDeps)
    ensures Choose(s).Stalled? ==> s.building != {}
    ensures Choose(s).Empty? ==> s.work == []
  {
    if Choose(s).Stalled? {
      StalledIsBlocked(plan, s);
    }
  }

  lemma CollectLocated(c: Config, p: Pool)
    requires DistinctNames(c.plan) && Located(c.plan, p) && p.complete != []
    ensures var job := p.complete[0].job;
            && job in c.plan && job.name in p.sched.building
            && Located(c.plan, p.(sched := Complete(p.sched, job, p.complete[0].failed), complete := p.complete[1..],
                                  phase := Queueing))
  {
    var o := p.complete[0];
    var q := p.(sched := Complete(p.sched, o.job, o.failed), complete := p.complete[1..], phase := Queueing);
    assert InFlight(p, o.job) >= 1;
    forall j
      ensures InFlight(q, j) == if j in c.plan && j.name in q.sched.building then 1 else 0
    {
      assert Delivered(p.complete, j) == Delivered(q.complete, j) + if o.job == j then 1 else 0;
      if j in c.plan && j.name == o.job.name {
        SameName(c.plan, j, o.job);
      }
    }
  }

  lemma CollectInv(c: Config, p: Pool)
    requires ValidConfig(c) && PoolInv(c, p) && p.phase == Waiting && p.complete != []
    ensures PoolInv(c, Apply(c, p, Main))
  {
    hide ValidPlan, Inv, Located;
    var o := p.complete[0];
    ValidDistinct(c.plan);
    CollectLocated(c, p);
    CompleteInv(c.plan, p.sched, o.job, o.failed);
    assert o.failed ==> o.job.name in Complete(p.sched, o.job, o.failed).failed;
  }

  lemma ValidDistinct(plan: seq<Job>)
    requires ValidPlan(plan)
    ensures DistinctNames(plan)
  {
  }

  lemma StepInv(c: Config, p: Pool, step: Step)
    requires ValidConfig(c) && PoolInv(c, p) && Enabled(c, p, step)
    ensures PoolInv(c, Apply(c, p, step))
  {
    if !step.Main? {
      WorkerInv(c, p, step);
    } else if p.phase == Queueing {
      QueueInv(c, p);
    } else {
      CollectInv(c, p);
    }
  }

  /** What is still to be done; every step of any thread makes it smaller. */
  function Remaining(p: Pool): nat {
    6 * |p.sched.work| + 5 * |p.queue| + 4 * Busy(p.workers) + 2 * |p.complete| + Undecided(p.workers)
    + if p.phase == Queueing then 1 else 0
  }

  lemma StepProgress(c: Config, p: Pool, step: Step)
    requires ValidConfig(c) && PoolInv(c, p) && Enabled(c, p, step)
    ensures Remaining(Apply(c, p, step)) < Remaining(p)
  {
    hide ValidPlan, Inv, Located, Choose, Fetch, Counts, PhaseOk;
    match step {
      case Main =>
        if p.phase == Queueing {
          if Choose(p.sched).Pick? {
            PickCounts(c.plan, p.sched);
          } else {
            RefusalKeeps(c.plan, p.sched);
          }
        }
      case Take(w) =>
        Replace(c.halt, p.workers, w, Executing(p.queue[0]));
      case Deliver(w, failed) =>
        Replace(c.halt, p.workers, w, Deciding(failed));
      case Settle(w) =>
        Replace(c.halt, p.workers, w, if p.workers[w].failed && c.halt then Exited else Idle);
    }
  }

  lemma {:induction false} SomeWorker(halt: bool, ws: seq<Worker>)
    ensures Busy(ws) > 0 ==> exists w :: 0 <= w < |ws| && ws[w].Executing?
    ensures Lost(halt, ws) < |ws| ==> exists w :: 0 <= w < |ws| && !IsLost(halt, ws[w])
  {
    if ws != [] {
      SomeWorker(halt, ws[1..]);
      if w :| 0 <= w < |ws[1..]| && ws[1..][w].Executing? {
        assert ws[w + 1].Executing?;
      }
      if w :| 0 <= w < |ws[1..]| && !IsLost(halt, ws[1..][w]) {
        assert !IsLost(halt, ws[w + 1]);
      }
    }
  }

  /** No queued job is ever left without a worker that will come back for it. */
  lemma QueuedJobHasWorker(c: Config, p: Pool)
    requires PoolInv(c, p) && p.queue != []
    ensures exists w :: 0 <= w < |p.workers| && !IsLost(c.halt, p.workers[w])
  {
    hide Inv, Located, PhaseOk, IsLost;
    SomeWorker(c.halt, p.workers);
  }

  /** Until the main thread has finished, some thread can take a step: waiting never blocks for ever. */
  lemma NeverStuck(c: Config, p: Pool)
    requires PoolInv(c, p) && p.phase != Finished
    ensures exists step :: Enabled(c, p, step)
  {
    hide Inv, Located;
    if p.phase == Queueing || p.complete != [] {
      assert Enabled(c, p, Main);
    } else {
      SomeWorker(c.halt, p.workers);
      assert |p.sched.building| > 0;
      if Busy(p.workers) > 0 {
        var w :| 0 <= w < |p.workers| && p.workers[w].Executing?;
        assert Enabled(c, p, Deliver(w, false));
      } else {
        var w :| 0 <= w < |p.workers| && !IsLost(c.halt, p.workers[w]);
        NotBusy(p.workers, w);
        assert Enabled(c, p, if p.workers[w].Idle? then Take(w) else Settle(w));
      }
    }
  }

  lemma {:induction false} NotBusy(ws: seq<Worker>, w: nat)
    requires Busy(ws) == 0 && w < |ws|
    ensures !ws[w].Executing?
  {
    if w > 0 {
      NotBusy(ws[1..], w - 1);
    }
  }

  /** A run: any interleaving of enabled steps. */
  ghost predicate IsRun(c: Config, steps: seq<Step>, pools: seq<Pool>) {
    && |pools| == |steps| + 1
    && pools[0] == Start(c)
    && forall i :: 0 <= i < |steps| ==> Enabled(c, pools[i], steps[i]) && pools[i + 1] == Apply(c, pools[i], steps[i])
  }

  /** Every state of every run is sound, and no run is longer than a bound fixed by the plan. */
  lemma {:induction false} RunsAreSafe(c: Config, steps: seq<Step>, pools: seq<Pool>)
    requires ValidConfig(c) && IsRun(c, steps, pools)
    ensures forall i :: 0 <= i < |pools| ==> PoolInv(c, pools[i])
    ensures Remaining(pools[|steps|]) + |steps| <= 6 * |c.plan| + 1
  {
    var n := |steps|;
    hide ValidConfig, PoolInv, Remaining, Enabled, Apply, Start;
    if n == 0 {
      StartPoolInv(c);
      StartRemaining(c);
    } else {
      assert Enabled(c, pools[n - 1], steps[n - 1]);
      assert IsRun(c, steps[..n - 1], pools[..n]) by {
        assert forall i :: 0 <= i < n ==> pools[..n][i] == pools[i];
        assert forall i :: 0 <= i < n - 1 ==> steps[..n - 1][i] == steps[i];
      }
      RunsAreSafe(c, steps[..n - 1], pools[..n]);
      assert pools[..n][n - 1] == pools[n - 1];
      StepInv(c, pools[n - 1], steps[n - 1]);
      StepProgress(c, pools[n - 1], steps[n - 1]);
    }
  }

  lemma StartRemaining(c: Config)
    ensures Remaining(Start(c)) == 6 * |c.plan| + 1
  {
    AllIdle(c.halt, c.threads);
  }

  /** A run that cannot go on has finished, and then everything asked for has been done. */
  lemma RunsFinish(c: Config, steps: seq<Step>, pools: seq<Pool>)
    requires ValidConfig(c) && IsRun(c, steps, pools)
    requires forall step :: !Enabled(c, pools[|steps|], step)
    ensures var p := pools[|steps|];
            && p.phase == Finished
            && (!c.halt || p.sched.failed == map[] ==>
               p.sched.work == [] && multiset(p.sched.built) == multiset(c.plan))
            && (!c.immediate ==> p.sched.building == {})
            && Ordered(p.sched.built)
  {
    var p := pools[|steps|];
    RunsAreSafe(c, steps, pools);
    assert PoolInv(c, p);
    FinishedState(c, p);
  }

  lemma FinishedState(c: Config, p: Pool)
    requires ValidConfig(c) && PoolInv(c, p)
    requires forall step :: !Enabled(c, p, step)
    ensures p.phase == Finished
    ensures !c.halt || p.sched.failed == map[] ==> p.sched.work == [] && multiset(p.sched.built) == multiset(c.plan)
    ensures !c.immediate ==> p.sched.building == {}
    ensures Ordered(p.sched.built)
  {
    if p.phase != Finished {
      NeverStuck(c, p);
    }
    InvOrdered(c.plan, p.sched);
    hide ValidPlan, Inv, Located, Counts;
    if !c.halt || p.sched.failed == map[] {
      AllBuilt(c.plan, p.sched);
    }
  }

  lemma InvOrdered(plan: seq<Job>, s: Sched)
    requires Inv(plan, s)
    ensures Ordered(s.built)
  {
  }

  /**
   * In every interleaving, a job that is started has all it wants built, and if it wants anything no
   * dependency-free job is waiting.
   */
  lemma StartsInOrder(c: Config, steps: seq<Step>, pools: seq<Pool>, i: nat, job: Job)
    requires ValidConfig(c) && IsRun(c, steps, pools) && i < |steps| && job in c.plan
    requires job.name !in pools[i].sched.building && job.name in pools[i + 1].sched.building
    ensures var s := pools[i].sched;
            job in s.work && IsDue(job, s.work, NamesOf(s.built))
  {
    hide ValidConfig, PoolInv, Choose, IsDue;
    RunsAreSafe(c, steps, pools);
    var p := pools[i];
    assert PoolInv(c, p);
    PoolFacts(c, p);
    assert pools[i + 1] == Apply(c, p, steps[i]);
    StartedIsPicked(c, p, steps[i]);
    PickedIsDue(c.plan, p.sched);
    NotYetBuilding(c.plan, p.sched);
    SameName(c.plan, job, p.sched.work[Choose(p.sched).index]);
  }

  lemma StartedIsPicked(c: Config, p: Pool, step: Step)
    requires Enabled(c, p, step)
    ensures !(Apply(c, p, step).sched.building <= p.sched.building) ==>
            Choose(p.sched).Pick? && Apply(c, p, step).sched == Fetch(p.sched)
  {
  }

  /** Whenever a worker executes a job, everything the job wants has been built. */
  lemma ExecutesReadyJobs(c: Config, steps: seq<Step>, pools: seq<Pool>, i: nat, w: nat)
    requires ValidConfig(c) && IsRun(c, steps, pools) && i < |pools|
    requires w < |pools[i].workers| && pools[i].workers[w].Executing?
    ensures var job := pools[i].workers[w].job; job in c.plan && CanBuild(job, NamesOf(pools[i].sched.built))
  {
    hide ValidConfig, PoolInv, CanBuild;
    RunsAreSafe(c, steps, pools);
    var p := pools[i];
    assert PoolInv(c, p);
    ExecutingIsBuilding(c, p, w);
    PoolFacts(c, p);
  }

  lemma ExecutingIsBuilding(c: Config, p: Pool, w: nat)
    requires PoolInv(c, p) && w < |p.workers| && p.workers[w].Executing?
    ensures p.workers[w].job in c.plan && p.workers[w].job.name in p.sched.building
  {
    hide Inv, Counts;
    RunningAt(p.workers, w);
    assert InFlight(p, p.workers[w].job) >= 1;
  }

  lemma {:induction false} RunningAt(ws: seq<Worker>, w: nat)
    requires w < |ws| && ws[w].Executing?
    ensures Running(ws, ws[w].job) >= 1
  {
    if w > 0 {
      RunningAt(ws[1..], w - 1);
    }
  }

  /** Once a failure has been recorded under halt-on-error, no job is ever handed out again. */
  lemma {:induction false} NothingAfterFailure(c: Config, steps: seq<Step>, pools: seq<Pool>, i: nat, k: nat)
    requires ValidConfig(c) && IsRun(c, steps, pools)
    requires i <= k <= |steps|
    requires c.halt && pools[i].sched.failed != map[]
    ensures pools[k].sched.failed != map[]
    ensures pools[k].sched.work == pools[i].sched.work
    ensures exists taken: nat :: taken <= |pools[i].queue| && pools[k].queue == pools[i].queue[taken..]
    decreases k - i
  {
    hide ValidConfig, Apply, Enabled;
    if i == k {
      assert pools[k].queue == pools[i].queue[0..];
    } else {
      NothingAfterFailure(c, steps, pools, i, k - 1);
      var q, queue := pools[k - 1], pools[i].queue;
      var taken: nat :| taken <= |queue| && q.queue == queue[taken..];
      HaltedStep(c, q, steps[k - 1]);
      if pools[k].queue != q.queue {
        assert q.queue[1..] == queue[taken + 1..];
      }
    }
  }

  /** A step under halt-on-error with a failure on record: at most, a job is taken off the queue. */
  lemma HaltedStep(c: Config, p: Pool, step: Step)
    requires Enabled(c, p, step) && c.halt && p.sched.failed != map[]
    ensures var q := Apply(c, p, step);
            && q.sched.failed != map[] && q.sched.work == p.sched.work
            && (q.queue == p.queue || (p.queue != [] && q.queue == p.queue[1..]))
  {
    hide Choose, Fetch;
  }

  /**
   * In every run that halts on errors, no more jobs complete from any failure on, and are still being built, than
   * there are threads.
   */
  lemma {:induction false} HaltsSoon(c: Config, steps: seq<Step>, pools: seq<Pool>, k: nat, i: nat)
    requires ValidConfig(c) && IsRun(c, steps, pools) && k <= |steps| && c.halt
    requires i < |pools[k].sched.built| && pools[k].sched.built[i].name in pools[k].sched.failed
    ensures |pools[k].sched.built| - i + |pools[k].sched.building| <= c.threads
  {
    hide ValidConfig, PoolInv;
    if k > 0 {
      var p := pools[k - 1];
      RunsAreSafe(c, steps, pools);
      assert PoolInv(c, p);
      assert Enabled(c, p, steps[k - 1]) && pools[k] == Apply(c, p, steps[k - 1]);
      HaltsStep(c, p, steps[k - 1], i);
      if i < |p.sched.built| {
        HaltsSoon(c, steps, pools, k - 1, i);
      }
    }
  }

  lemma HaltsStep(c: Config, p: Pool, step: Step, i: nat)
    requires ValidConfig(c) && PoolInv(c, p) && Enabled(c, p, step) && c.halt
    requires var s := Apply(c, p, step).sched; i < |s.built| && s.built[i].name in s.failed
    ensures var s := Apply(c, p, step).sched;
            if i < |p.sched.built|
            then p.sched.built[i].name in p.sched.failed
              && |s.built| + |s.building| == |p.sched.built| + |p.sched.building|
            else |s.built| - i + |s.building| <= c.threads
  {
    hide Choose, Located, Inv, ValidPlan, NamesOf;
    if step.Main? && p.phase == Waiting {
      InFlightIsNew(c, p);
      BuiltNames(p.sched);
      BuildingIs(c, p);
    } else if step.Main? {
      FetchGrows(p.sched);
    }
  }

  lemma BuiltNames(s: Sched)
    ensures forall i :: 0 <= i < |s.built| ==> s.built[i].name in NamesOf(s.built)
  {
  }

  lemma BuildingIs(c: Config, p: Pool)
    requires ValidConfig(c) && PoolInv(c, p) && p.complete != []
    ensures p.complete[0].job.name in p.sched.building && |p.sched.building| <= c.threads
  {
    ValidDistinct(c.plan);
    CollectLocated(c, p);
    hide Located, ValidPlan;
  }

  /** A worker that has delivered a failure under halt-on-error never takes another job, in any run. */
  lemma {:induction false} FailedWorkerStops(c: Config, steps: seq<Step>, pools: seq<Pool>, i: nat, k: nat, w: nat)
    requires IsRun(c, steps, pools) && i < k <= |steps|
    requires c.halt && steps[i] == Deliver(w, true)
    ensures w < |pools[k].workers| && (pools[k].workers[w] == Deciding(true) || pools[k].workers[w] == Exited)
    decreases k - i
  {
    if k > i + 1 {
      FailedWorkerStops(c, steps, pools, i, k - 1, w);
    }
    assert Enabled(c, pools[k - 1], steps[k - 1]) && pools[k] == Apply(c, pools[k - 1], steps[k - 1]);
  }

  /** What the workers have delivered in the first `k` steps of a run, in order. */
  ghost function Deliveries(steps: seq<Step>, pools: seq<Pool>, k: nat): seq<Outcome>
    requires k <= |steps| <= |pools|
  {
    if k == 0 then []
    else
      var before, p := Deliveries(steps, pools, k - 1), pools[k - 1];
      match steps[k - 1]
      case Deliver(w, failed) =>
        if w < |p.workers| && p.workers[w].Executing? then before + [Outcome(p.workers[w].job, failed)] else before
      case _ => before
  }

  /** The first of the outcomes have been recorded, and the others wait to be. */
  ghost predicate Collected(s: Sched, waiting: seq<Outcome>, all: seq<Outcome>) {
    && |all| == |s.built| + |waiting| && all[|s.built|..] == waiting
    && (forall i :: 0 <= i < |s.built| ==>
       s.built[i] == all[i].job && (all[i].failed <==> s.built[i].name in s.failed))
    && forall n :: n in s.failed ==> n in NamesOf(s.built)
  }

  /**
   * In every run, jobs are recorded as completed in the order in which the workers have delivered them, and as
   * failed exactly if a worker has said so.
   */
  lemma {:induction false} CompletionsAreDeliveries(c: Config, steps: seq<Step>, pools: seq<Pool>, k: nat)
    requires ValidConfig(c) && IsRun(c, steps, pools) && k <= |steps|
    ensures Collected(pools[k].sched, pools[k].complete, Deliveries(steps, pools, k))
  {
    hide ValidConfig, PoolInv, Collected;
    if k == 0 {
      NothingDelivered(c);
    } else {
      CompletionsAreDeliveries(c, steps, pools, k - 1);
      RunsAreSafe(c, steps, pools);
      assert PoolInv(c, pools[k - 1]);
      assert Enabled(c, pools[k - 1], steps[k - 1]) && pools[k] == Apply(c, pools[k - 1], steps[k - 1]);
      CollectedNext(c, pools[k - 1], steps[k - 1], Deliveries(steps, pools, k - 1));
    }
  }

  lemma NothingDelivered(c: Config)
    ensures Collected(Start(c).sched, Start(c).complete, [])
  {
  }

  lemma CollectedNext(c: Config, p: Pool, step: Step, all: seq<Outcome>)
    requires ValidConfig(c) && PoolInv(c, p) && Enabled(c, p, step) && Collected(p.sched, p.complete, all)
    ensures var q := Apply(c, p, step);
            Collected(q.sched, q.complete,
                      if step.Deliver? then all + [Outcome(p.workers[step.worker].job, step.failed)] else all)
  {
    hide Choose, Located, Inv, ValidPlan, NamesOf;
    if step.Main? && p.phase == Waiting {
      InFlightIsNew(c, p);
      CollectOne(p.sched, p.complete, all);
    } else if step.Main? {
      FetchGrows(p.sched);
    }
  }

  lemma CollectOne(s: Sched, waiting: seq<Outcome>, all: seq<Outcome>)
    requires Collected(s, waiting, all) && waiting != [] && waiting[0].job.name !in NamesOf(s.built)
    ensures Collected(Complete(s, waiting[0].job, waiting[0].failed), waiting[1..], all)
  {
    var o, t := waiting[0], Complete(s, waiting[0].job, waiting[0].failed);
    NamesOfAppend(s.built, o.job);
    assert forall i :: 0 <= i < |s.built| ==> s.built[i].name in NamesOf(s.built);
    assert all[|s.built|] == o;
    hide NamesOf;
    forall i | 0 <= i < |t.built|
      ensures t.built[i] == all[i].job && (all[i].failed <==> t.built[i].name in t.failed)
    {
      assert i < |s.built| ==> t.built[i] == s.built[i];
    }
  }

  lemma InFlightIsNew(c: Config, p: Pool)
    requires ValidConfig(c) && PoolInv(c, p) && p.complete != []
    ensures p.complete[0].job.name !in NamesOf(p.sched.built)
  {
    ValidDistinct(c.plan);
    CollectLocated(c, p);
    hide Located, ValidPlan;
  }

  /** Taking turns of the main thread until it waits, or has finished. */
  ghost function Turns(c: Config, p: Pool): Pool
    requires ValidConfig(c) && PoolInv(c, p)
    decreases Remaining(p)
  {
    if p.phase == Queueing then
      QueueInv(c, p);
      StepProgress(c, p, Main);
      Turns(c, Queue(c, p))
    else p
  }

  lemma PoolFacts(c: Config, p: Pool)
    requires ValidConfig(c) && PoolInv(c, p)
    ensures ValidPlan(c.plan) && Inv(c.plan, p.sched) && |p.sched.building| <= c.threads
  {
    hide ValidPlan, Inv, Located;
  }

  lemma TurnHandsOut(c: Config, p: Pool)
    requires ValidPlan(c.plan) && Inv(c.plan, p.sched) && HandsOut(c, p) && p.phase == Queueing
    ensures var q := Queue(c, p);
            q.sched == Fetch(p.sched) && q.phase == Queueing && !Halted(c, q)
            && |q.sched.building| == |p.sched.building| + 1
            && Fill(p.sched, c.threads - |p.sched.building|) == Fill(q.sched, c.threads - |q.sched.building|)
  {
    hide ValidPlan, Inv, Choose, Fetch, Fill;
    PickCounts(c.plan, p.sched);
    NotYetBuilding(c.plan, p.sched);
    FillPick(p.sched, c.threads - |p.sched.building|);
  }

  lemma FillPick(s: Sched, slots: nat)
    requires slots > 0 && Choose(s).Pick?
    ensures Fill(s, slots) == Fill(Fetch(s), slots - 1)
  {
    hide Choose, Fetch;
  }

  lemma TurnRests(c: Config, p: Pool)
    requires !HandsOut(c, p) && !Halted(c, p) && p.phase == Queueing && |p.sched.building| <= c.threads
    ensures Queue(c, p).phase != Queueing && Queue(c, p).sched == Fill(p.sched, c.threads - |p.sched.building|)
  {
    hide Choose, Fetch;
  }

  /** Turn by turn, the main thread fills the free threads just as one call of the queueing loop does. */
  lemma {:induction false} TurnsFill(c: Config, p: Pool)
    requires ValidConfig(c) && PoolInv(c, p) && p.phase == Queueing && !Halted(c, p)
    ensures |p.sched.building| <= c.threads
    ensures Turns(c, p).sched == Fill(p.sched, c.threads - |p.sched.building|)
    decreases Remaining(p)
  {
    hide ValidPlan, ValidConfig, PoolInv, Inv, Queue, Fill, Fetch, HandsOut, Remaining, Halted;
    PoolFacts(c, p);
    QueueInv(c, p);
    StepProgress(c, p, Main);
    if HandsOut(c, p) {
      TurnHandsOut(c, p);
      PoolFacts(c, Queue(c, p));
      TurnsFill(c, Queue(c, p));
    } else {
      TurnRests(c, p);
    }
  }
}
