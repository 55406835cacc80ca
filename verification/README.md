# LibreELEC/Lakka build tools: a verified model

This project models the multithreaded build system of the repository and several self-contained
kernels next to it, and proves what they are relied on for. `dafny verify dfyconfig.toml` checks it.

## The build system

**Planner** (`scripts/genbuildplan.py`). `Planner` loads the package list and the dummy package that
wants the build triggers; `Packages` holds the package objects, links every package to those that want
it, and culls unwanted packages in place, deleting from a list while walking over it; `Cull` says what
that leaves: the greatest set in which everybody is wanted by the root or by a member, which is what
the root reaches exactly if no circle of packages lies outside the root's reach. `Nodes` turns the
needed packages into `name:target` nodes and edges and says exactly when a plan is refused; `Resolve`
is the depth-first search; `BuildSteps` lists the steps and writes the plan.

**Scheduler** (`scripts/pkgbuilder.py`). `Schedule` is the scheduler's state as a value, with the
invariant that waiting, building and built partition the plan. `FailedJobs` says which failures are
blamed for a job, `Refcounts` what the reference counts of source packages count. `Generation.Generator`
and `Building.Builder` are the objects, proved to do what these values say: the build loop ends for
every plan, every number of threads, every order of completions and every set of failures, and
source directories are removed exactly once and exactly if nothing needs them any more. `WorkerPool`
is the same loop with its worker threads and the two queues as a state machine over all interleavings.

**Pipeline** joins both: what the planner writes is what the scheduler needs, so planning and building
reaches every step that the triggers require, each once and after what it wants. `PlanExamples` holds
package lists and triggers for which planning does not do what its description says.

**Accounting** (`tools/mtstats.py`). `Stats` replays the event log of a build. The time spent busy slot
by slot and the time spent at each level of concurrency have the same total, for any timestamps.

## The kernels

- `Line`: Bresenham's line into the frame buffer of the clock.
- `Mutex`: the file lock with an owner file, as a state machine with crashes.
- `Crc`, `Frames`: the CRC-16 of the game controller, as polynomial division, and over machine words.
- `Drift`, `Audio`: leaving out or repeating audio frames to correct clock drift.
- `Words`, `Dtbo`, `DtboImage`: writing device tree overlay images and reading them back; `DtboExamples`:
  files and entries on which the tool does not do what its description says.
- `ShellText`, `ShellAwk`, `ShellSource`: rewriting shell assignments without changing what they do, around awk
  programs if there are any; `ShellMeaning` says piece by piece what the text means and what becomes of it.
- `Png`: row filters, 16-bit colours and the logo overlay.

Where the code and its description differ, the model follows the code:

- Culling is described as dropping unused packages; packages that want each other stay even if nothing
  else wants them. `Cull.CullIsReachability` says exactly when, `PlanExamples.MutualReferencesSurvive` shows
  a package list; in `PlanExamples.UnusedSpoils` such a pair makes the plan for an unrelated package fail.
- A build trigger can be passed over without a message: `Pipeline.TriggersTakeEffect` says that exactly those
  take effect whose target exists and whose package is known. `PlanExamples.UnknownTargetPasses` plans
  without one that asks for a missing target, `PlanExamples.UnknownPackagePasses` without one for an unknown
  package, which is possible only if invalid packages are ignored.
- `--warn-invalid` is offered as a way to be warned instead of aborting, but never changes the outcome, because
  the same references are looked up again and fail then: `Pipeline.RejectedExactly` says what a plan is refused
  for, whatever this flag, `PlanExamples.UnknownPackagePasses` shows a plan refused with it.
- `extract_dt_file` lets the index just behind the last entry through its own check and fails afterwards
  (`DtboImage.DtboFile.ExtractDtFile`, `DtboExamples.IndexBehindLast`).
- Images whose entries do not follow the header at once can never be read, because the number of words
  becomes a fraction: `DtboExamples.ReadableExactly` for all of them, `DtboExamples.GapIsUnreadable` for one.
- An unknown compression format is not reported as such but fails in a look-up
  (`DtboImage.DtboFile.AddDtEntries`, `DtboExamples.UnknownFormat`).
- After waiting in silence for the first frame, the audio player counts the silent places twice, and as many
  places at the end of the buffer stay silent again although frames are queued. `Audio.SilenceCountedTwice`
  says exactly when it keeps time nevertheless, by the ages of the queued chunks: when less than a whole
  frame, or at least the whole buffer, is waited for, or when too few frames are queued to notice.
  `Audio.LosesTime` plays such a buffer.
- The check value that the controller driver appends has the opposite byte order to the one it accepts:
  `Frames.OwnTrailerOrder` and `Frames.OwnFrame` say for which payloads it is accepted regardless,
  `Frames.OwnTrailerRejected` shows one for which it is not.
- References in awk programs are meant to be left alone. With a quoted separator, for which there is a pattern
  of its own, the program is missed if a single space precedes it (`ShellAwk.SeparatorMissed`), and its field
  references are changed (`ShellSource.CommonChanged`). `ShellAwk.MatchAtIs` and `ShellAwk.LastMatchIs` say
  exactly what is found.
- A text that begins and ends with the variable it is assigned to is left alone when fixing appends, although
  only a text that consists of the variable is meant to be: `ShellMeaning.AppendsExactly` says exactly which
  assignments are shortened, `ShellMeaning.BothEndsStay` which of these are not.
- A closing brace is written with the character that follows a reference, so it is missing if the last line of a
  file has no newline and ends with a bare reference (`ShellMeaning.UnclosedExactly`).
- The idle time of a slot is closed with the time since it became idle last. For a slot cut off while it was doing
  something else, all of that time is added, although the part of it that was idle has been counted already and the
  rest was not idle (`Stats.ClosedIdleTotal`).
- A name in the owner file of the mutex is that of the lock's holder exactly unless a process has died and
  left its name there (`Mutex.OwnerIsHolder`, `Mutex.CrashLeavesOwner`).

## Model

| member | source | states |
|---|---|---|
| Names.SplitJoin | scripts/genbuildplan.py:153-157 | a package name and a target joined by a colon split into the same two parts again |
| Names.JoinSplit | scripts/genbuildplan.py:223-224 | a dependency without a target means the package's target step; qualifying it keeps package and target |
| Names.PlainName | scripts/genbuildplan.py:223-224 | a name without a colon is that of a package and means its step :target; any other name is left as it is |
| Planner.CatalogIsEffective | scripts/genbuildplan.py:124-139 | under a name the last local description is loaded, or the last global one if there is no local one, and nothing exactly if there is neither |
| Planner.InitPackage | scripts/genbuildplan.py:142-150 | a new package holds its description; it wants each package that a dependency refers to once, except itself |
| Planner.LoadPackages | scripts/genbuildplan.py:124-139 | the loaded objects hold exactly the effective descriptions, global ones replaced by local ones |
| Planner.GetPackagesByTarget | scripts/genbuildplan.py:160-170 | keeps, in order, the triggers whose target is of the asked kind |
| Planner.OfKindMembers | scripts/genbuildplan.py:160-170 | exactly the triggers of that kind are kept |
| Planner.KindsAre | scripts/genbuildplan.py:160-170 | one kind of triggers are those for target and init, the other those for bootstrap and host |
| Planner.AddRoot | scripts/genbuildplan.py:243-256 | the dummy package has the triggers as its host and target dependencies and all others stay as they are |
| Planner.RootDepends | scripts/genbuildplan.py:243-256 | the dummy package depends on exactly the triggers that are not empty: on those for bootstrap and host for the host, on those for target and init for the target |
| Packages.BuildPackage.AddDependencies | scripts/genbuildplan.py:41-46 | appends the dependencies and keeps the list of wanted packages duplicate-free and complete, without the package itself |
| Packages.BuildPackage.AddReference | scripts/genbuildplan.py:52-55 | enters the package part of the name once |
| Packages.BuildPackage.DelReference | scripts/genbuildplan.py:57-60 | removes the first occurrence, if there is one |
| Packages.RemoveFirstDistinct | scripts/genbuildplan.py:57-60 | removing from a duplicate-free list takes away that name and nothing else |
| Packages.RemoveFirstAt | scripts/genbuildplan.py:57-60 | it is the first occurrence that goes, and nothing else moves |
| Packages.LinkReferences | scripts/genbuildplan.py:259-264 | a package lists another as its wanter if and only if that one wants it, each once |
| Packages.CullPackage | scripts/genbuildplan.py:269-276 | a pass over one package, deleting while iterating, deletes only unwanted wanters, and if it deletes nothing there was nothing to delete |
| Packages.CullPass | scripts/genbuildplan.py:268-276 | a pass over all packages makes the lists shorter in total or leaves nothing to delete |
| Packages.CullAll | scripts/genbuildplan.py:267-278 | culling terminates and leaves the greatest set of packages that the root or members of the set want, and of the wanters exactly those still supported |
| Cull.DeleteKeeps | scripts/genbuildplan.py:273-276 | deleting a reference held by an unwanted package takes support from no set of packages that support one another |
| Cull.SettledIsGreatest | scripts/genbuildplan.py:267-278 | when nothing is left to delete, the wanted packages are the greatest supported set |
| Cull.ReachedSurvives | scripts/genbuildplan.py:266-278 | everything the root wants, directly or indirectly, survives |
| Cull.CullIsReachability | scripts/genbuildplan.py:266-278 | only what the root reaches survives, if and only if no circle of packages lies outside the root's reach |
| Cull.AcyclicCull | scripts/genbuildplan.py:266-278 | without circles, exactly what the root reaches survives |
| Planner.CollectNeeded | scripts/genbuildplan.py:280-285 | lists the wanted packages and the root, each once |
| Planner.CullUnneeded | scripts/genbuildplan.py:258-285 | linking, culling and collecting list exactly the needed packages of the catalog and change no dependency |
| Planner.NeededUnique | scripts/genbuildplan.py:258-285 | which packages are needed depends on the package list only, not on the order of linking or culling |
| PlanExamples.MutualReferencesSurvive | scripts/genbuildplan.py:258-285 | with two packages that depend on each other and a trigger for a third, both are needed, although the root reaches neither |
| PlanExamples.UnusedSpoils | scripts/genbuildplan.py:266-298 | if one of that pair also depends on an unknown package, planning the third, which depends on nothing, fails |
| Nodes.Validate | scripts/genbuildplan.py:287-298 | finds an invalid reference if and only if some needed package depends on a package that is not needed |
| Nodes.PackageNodes | scripts/genbuildplan.py:302-308 | there is a node for each target of a needed package with dependencies, and no other |
| Nodes.DependencyNodes | scripts/genbuildplan.py:310-322 | adds exactly the steps of known packages that needed ones depend on; fails exactly on an unknown package that is not ignored |
| Nodes.LinkNodes | scripts/genbuildplan.py:324-336 | gives every node exactly its declared edges, each once; fails exactly for a package that is not needed or a target that does not exist |
| Nodes.ToNodes | scripts/genbuildplan.py:287-338 | the conversion is refused exactly for an invalid reference, an unknown package, a foreign step or an unknown target, as the two flags say; otherwise nodes and edges are exactly the declared ones |
| Nodes.RejectedByDefault | scripts/genbuildplan.py:287-338 | with neither flag, exactly an invalid reference or an unknown target makes it fail |
| Pipeline.NeededClosed | scripts/genbuildplan.py:258-285 | whatever a needed package depends on is needed too, if it is a known package |
| Pipeline.NoForeignStep | scripts/genbuildplan.py:324-331 | every node belongs to a needed package |
| Pipeline.RejectedExactly | scripts/genbuildplan.py:287-338 | a plan is refused exactly for a dependency of a needed package on an unknown one, unless those are ignored, or for an unknown target; asking for warnings makes no difference |
| Pipeline.WarningExcusesNothing | scripts/genbuildplan.py:347-348 | for every package list, a plan is refused with the warning flag exactly if it is refused without |
| Resolve.Resolver.DepResolve | scripts/genbuildplan.py:192-207 | fails if and only if the node leads to a cycle; otherwise restores the unresolved list and appends, in topological order and without duplicates, only nodes that the node reaches, itself among them |
| Resolve.PathFalls | scripts/genbuildplan.py:195-205 | in the resolved list positions fall along every path |
| Resolve.TopologicalAcyclic | scripts/genbuildplan.py:195-202 | nothing that has been resolved leads to a cycle |
| Resolve.TopologicalClosed | scripts/genbuildplan.py:195-205 | the resolved list contains whatever its members reach |
| Resolve.TrailCycle | scripts/genbuildplan.py:196-201 | an edge back into the unresolved list closes a cycle |
| BuildSteps.GetBuildSteps | scripts/genbuildplan.py:210-239 | raises if and only if some effective trigger leads to a cycle; otherwise yields exactly the nodes that effective triggers reach, each once, after everything it depends on |
| BuildSteps.TaskByTarget | scripts/genbuildplan.py:214-239 | a step is installed exactly if an image is built and its target is neither host nor init |
| BuildSteps.WritePlan | scripts/genbuildplan.py:379-388 | the jobs are the steps in order; each wants exactly the edges of its node and has the section and unpacks of its package; it is installed if an image is built and its name ends neither in :host nor in :init, else built |
| BuildSteps.PlanIsValid | scripts/genbuildplan.py:379-388 | a written plan has distinct step names, every job after those it wants, and the same package data in all jobs of a package |
| Pipeline.GeneratePlan | scripts/genbuildplan.py:365-391 | from package list and triggers: refused exactly for unexcused references, unknown targets or a cycle behind a trigger; otherwise a valid plan of exactly the triggered nodes, in which every job wants exactly the steps that its own step declares to depend on, each once, has the section and unpacks of its package's description, and is installed exactly if an image is built and its target is neither host nor init |
| Pipeline.TriggersTakeEffect | scripts/genbuildplan.py:222-227 | for either flag, a non-empty trigger has a node if and only if its target exists and its package is known; culling never takes it away, and unless invalid packages are ignored its package is known |
| PlanExamples.UnknownTargetPasses | scripts/genbuildplan.py:222-227 | asked for a step and for a target that does not exist, planning succeeds and plans exactly the step |
| PlanExamples.UnknownPackagePasses | scripts/genbuildplan.py:287-322 | asked for an unknown package, with a target that exists, planning fails unless invalid packages are ignored, with warnings or without; if they are, it yields an empty plan |
| Pipeline.LeadsIsPath | scripts/genbuildplan.py:324-336 | paths over the nodes are the chains of declared dependencies, on known packages only if others are ignored |
| Pipeline.PlanIsClosure | scripts/genbuildplan.py:192-239 | with any flags, the steps of the plan are exactly what the effective triggers declare to need, directly or indirectly, not counting unknown packages if those are ignored |
| Pipeline.CirclesAreDeclared | scripts/genbuildplan.py:195-202 | with any flags, planning fails on a cycle exactly if a chain of declared dependencies that count leads from an effective trigger into itself |
| Pipeline.DecidedBy | scripts/genbuildplan.py:243-338 | whether a plan is refused or runs in circles depends on the package list and the triggers only |
| Pipeline.PlanUnpacksRanked | scripts/genbuildplan.py:388-388 | the unpack relation of a plan is as acyclic as that of all packages |
| Pipeline.PlanAndBuild | scripts/pkgbuilder.py:439-481 | with any flags, planning succeeds exactly if no reference is refused and no trigger leads to a cycle; then building, going on after failures, completes exactly the steps that the effective triggers need, each once and as declared, after every step that it declares to depend on; exactly those whose outcome was a failure are recorded as failed; with autoremove, exactly the source packages that some job builds or unpacks, directly or not, and none of whose own jobs is virtual or failed are removed, each once |
| Plan.Append | scripts/pkgbuilder.py:220-220 | a job appended after the jobs it wants keeps a list ordered and its names distinct |
| Plan.PositionRanksWants | scripts/genbuildplan.py:382-388 | in an ordered plan the wants of any jobs form no cycle |
| Schedule.FirstFree | scripts/pkgbuilder.py:163-165 | finds the first waiting job without dependencies |
| Schedule.FirstReady | scripts/pkgbuilder.py:98-103 | finds the first waiting job whose dependencies are all built |
| Schedule.FetchInv | scripts/pkgbuilder.py:156-187 | handing out a job, or refusing to, keeps the invariant: waiting, building and built partition the plan, and what is being built has its dependencies built |
| Schedule.CompleteInv | scripts/pkgbuilder.py:219-226 | completing a job, failed or not, keeps it too |
| Schedule.NeverStalledIdle | scripts/pkgbuilder.py:156-187 | for any ordered plan the generator never stalls while nothing is being built |
| Schedule.AllBuilt | scripts/pkgbuilder.py:219-221 | when nothing waits and nothing is being built, the jobs built are those of the plan |
| Schedule.FillConserves | scripts/pkgbuilder.py:500-553 | work conservation: after filling, all threads are busy, or no job waits, or every waiting job has an unfinished dependency |
| Schedule.FillFromIdle | scripts/pkgbuilder.py:543-547 | if filling starts nothing and nothing is being built, nothing is left to start |
| Schedule.FillMeasure | scripts/pkgbuilder.py:500-515 | twice the waiting jobs plus those being built never rises |
| Schedule.PickedIsDue | scripts/pkgbuilder.py:160-174 | the job picked has everything it wants built, and if it wants anything no dependency-free job waits |
| Schedule.ChooseIsNext | scripts/pkgbuilder.py:156-187 | the job handed out is the first waiting one without dependencies or, if there is none, the first one with all its dependencies built, and it alone leaves the list; none is handed out exactly if none waits, or if each has a dependency that is not built |
| Schedule.Counts | scripts/pkgbuilder.py:219-221 | jobs waiting, being built and built are as many as planned |
| FailedJobs.FirstFailedNone | scripts/pkgbuilder.py:133-142 | no culprit is found if and only if no direct dependency failed |
| FailedJobs.AllFailedBlames | scripts/pkgbuilder.py:144-154 | every job blamed failed, is reached through failed jobs only and has no failed dependency; each failed dependency leads to one; none is listed twice |
| FailedJobs.CulpritFollows | scripts/pkgbuilder.py:133-142 | the culprit is found by following, from failed job to failed job, always the first dependency that failed |
| FailedJobs.FirstFailedFollows | scripts/pkgbuilder.py:133-142 | the search starts with the first of the dependencies that failed |
| FailedJobs.BlameInOrder | scripts/pkgbuilder.py:144-154 | the jobs blamed are listed in the order of the first dependencies for which each is to blame |
| FailedJobs.NobodyBlamed | scripts/pkgbuilder.py:144-154 | the list is empty if and only if no direct dependency failed |
| FailedJobs.BlameIsFinal | scripts/pkgbuilder.py:163-168 | however the build goes on after a job could start, and whatever fails, computing its list again at any later time gives the same list |
| Refcounts.CompleteExact | scripts/pkgbuilder.py:219-229 | completing a job keeps every count equal to what unfinished jobs contribute plus the failed jobs of the package |
| Refcounts.CountJob | scripts/pkgbuilder.py:91-96 | counting one more job of the plan keeps the counts exact |
| Refcounts.ZeroMeansUnused | scripts/pkgbuilder.py:113-116 | a count is never negative, and zero exactly if no unfinished job builds or unpacks the package and none of its own jobs failed |
| Refcounts.CompleteLags | scripts/pkgbuilder.py:219-250 | completing a job can only make packages removable that the job itself refers to |
| RankedGraph.PathsAreChains | scripts/pkgbuilder.py:234-250 | a package is reached by the recursive walks exactly if a chain of packages, each unpacked by the one before, leads to it |
| RankedGraph.PathsCount | scripts/pkgbuilder.py:240-250 | and as often as there are ways to choose, package after package, an entry of the list of what it unpacks |
| Generation.BuildTables | scripts/pkgbuilder.py:74-85 | the tables hold what each package unpacks and every known section; sections of packages without jobs are empty |
| Generation.Generator.constructor | scripts/pkgbuilder.py:62-96 | a new generator has all jobs waiting and exact counts |
| Generation.Generator.AddRefCounts | scripts/pkgbuilder.py:240-244 | raises every count by the number of unpack paths from the package |
| Generation.Generator.DelRefCounts | scripts/pkgbuilder.py:246-250 | lowers every count by the number of unpack paths from the package |
| Generation.Generator.AddUnpackPackages | scripts/pkgbuilder.py:234-238 | collects, once each, the packages that unpack paths lead to |
| Generation.Generator.CanBuildJob | scripts/pkgbuilder.py:98-103 | true if and only if everything the job wants has been built |
| Generation.Generator.GetFirstFailedJob | scripts/pkgbuilder.py:133-142 | the culprit found by following failed dependencies depth first |
| Generation.Generator.GetAllFailedJobs | scripts/pkgbuilder.py:144-154 | the culprits behind all failed dependencies |
| Generation.Generator.GetNextJob | scripts/pkgbuilder.py:156-187 | hands out the first waiting job without dependencies or, if there is none, the first with all of them built, with its blamed failures, and takes it off the list; refuses exactly when no job waits, or when each has a dependency that is not built |
| Generation.Generator.Completed | scripts/pkgbuilder.py:219-229 | appends the job to the built ones and takes it from those being built, records it as failed exactly if it has failed, and updates exactly the counts the job contributed to |
| Generation.Generator.GetPackagesToRemove | scripts/pkgbuilder.py:105-117 | offers exactly the packages the job refers to that have count zero, are not virtual and have not been removed, each once |
| Generation.Generator.RemovableIsUnused | scripts/pkgbuilder.py:105-117 | a package that is offered is built or unpacked, directly or not, by the completed job, by no waiting or running one, and none of its own jobs failed |
| Generation.TouchesIsUse | scripts/pkgbuilder.py:234-250 | what a job counts for is the package it builds and what is unpacked for it, directly or through what is unpacked, read off the jobs alone |
| Generation.CatchUp | scripts/pkgbuilder.py:739-752 | removing what is offered after each completion leaves no removable package behind |
| Building.Builder.constructor | scripts/pkgbuilder.py:365-380 | the number of threads asked for, but no more than there are jobs, and at least one |
| Building.Builder.QueueWork | scripts/pkgbuilder.py:486-553 | under halt-on-error with a failure on record nothing is started, and more work is announced exactly if it does not fail immediately and something is being built; otherwise the free threads are filled until none is free or every waiting job has a dependency that is not built, and more work is announced exactly while something is being built |
| Building.Builder.GetCompletedJob | scripts/pkgbuilder.py:556-565 | takes any job in flight, with either outcome, appends it to the built ones and records it as failed exactly if it has failed |
| Building.Builder.AutoRemovePackages | scripts/pkgbuilder.py:734-752 | removes what is offered, so that removal has caught up with the counts, and nothing twice |
| Building.Builder.RemovedIsUnused | scripts/pkgbuilder.py:734-752 | between any two turns of the loop, nothing that has been removed is built or unpacked, directly or not, by a job that is not built yet, and none of its own jobs has failed |
| Building.Builder.Build | scripts/pkgbuilder.py:439-481 | ends whatever completes when and whatever fails, with no job lost, and records as failed exactly the jobs whose outcome was a failure; without halting, after every job of the plan has completed exactly once, each after those it wants; when halting on an error, no more jobs complete from any failure on than there are threads, and when failing immediately only the last one has failed; with autoremove, exactly the disposable packages have been removed, each once |
| Building.FinalSweep | scripts/pkgbuilder.py:734-752 | after a complete run, what has been removed is what some job refers to, is not virtual, and has no failed job of its own |
| Building.DisposableIsExpendable | scripts/pkgbuilder.py:105-117 | which packages those are can be read off the jobs alone: some job builds or unpacks them, directly or not, and no job of their own is virtual or has failed |
| WorkerPool.StepInv | scripts/pkgbuilder.py:282-298 | every step of every thread keeps each job being built in exactly one place, and queued plus executing jobs no more than workers that will come back |
| WorkerPool.StepProgress | scripts/pkgbuilder.py:452-460 | every step of any thread brings the end nearer |
| WorkerPool.QueuedJobHasWorker | scripts/pkgbuilder.py:282-298 | no queued job is left without a worker, although workers exit after failures |
| WorkerPool.NeverStuck | scripts/pkgbuilder.py:452-460 | until the main thread has finished, some thread can take a step |
| WorkerPool.RunsAreSafe | scripts/pkgbuilder.py:439-481 | every state of every interleaving keeps the invariant, and no run is longer than six steps for each job and one more |
| WorkerPool.RunsFinish | scripts/pkgbuilder.py:439-481 | a run that cannot go on has finished, and without halting everything has been built in order |
| WorkerPool.StartsInOrder | scripts/pkgbuilder.py:156-187 | in every interleaving, a job that is started has everything it wants built, and if it wants anything no dependency-free job is waiting |
| WorkerPool.ExecutesReadyJobs | scripts/pkgbuilder.py:282-298 | whenever a worker executes a job, everything the job wants has been built |
| WorkerPool.NothingAfterFailure | scripts/pkgbuilder.py:486-498 | once a failure has been recorded under halt-on-error no further job is handed out, and the jobs queued are only taken off |
| WorkerPool.HaltsSoon | scripts/pkgbuilder.py:486-498 | in every interleaving that halts on errors, no more jobs complete from any failure on, and are still being built, than there are threads |
| WorkerPool.FailedWorkerStops | scripts/pkgbuilder.py:282-298 | a worker that has delivered a failure under halt-on-error never takes another job |
| WorkerPool.CompletionsAreDeliveries | scripts/pkgbuilder.py:556-565 | in every interleaving, jobs are recorded as built in the order in which workers have delivered them, and as failed exactly if the worker has said so |
| WorkerPool.TurnsFill | scripts/pkgbuilder.py:500-515 | queueing turn by turn, whatever the workers do meanwhile, starts the same jobs as one filling of the free threads |
| Stats.Ledger.constructor | tools/mtstats.py:100-120 | before the first event nothing has been counted |
| Stats.Ledger.Record | tools/mtstats.py:123-152 | after each event, counts, times, level and peak are what the log says |
| Stats.Replay | tools/mtstats.py:123-152 | so are they after the whole log |
| Stats.NextSlot | tools/mtstats.py:126-152 | the tallies of a slot are its number of events and its time in each status, running clocks included |
| Stats.StatusIsLast | tools/mtstats.py:147-152 | the status of a slot is that of its last event |
| Stats.OccurrencesCount | tools/mtstats.py:148-150 | a status of a slot is counted as often as there are events that say so |
| Stats.LastTimeIs | tools/mtstats.py:148-151 | the clock of a status starts with the last event that says so |
| Stats.DurationGrows | tools/mtstats.py:126-145 | with each event the time since the one before goes to the status that each slot was in, to the busy time of each slot that was active, in the mutex or getting a package, and to every level up to the number of these slots |
| Stats.ClimbKeeps | tools/mtstats.py:135-142 | a slot becoming busy starts the clock of one more level and raises the peak if need be |
| Stats.FallKeeps | tools/mtstats.py:143-145 | a slot ceasing to be busy stops the clock of the highest level, which exists |
| Stats.PeakIsMaximum | tools/mtstats.py:141-142 | the peak is the true maximum of busy slots over the log, and at most the number of slots |
| Stats.AboveThePeak | tools/mtstats.py:138-140 | a level above the peak has been held for no time |
| Stats.LevelsNest | tools/mtstats.py:134-145 | with events in order, a level is held no longer than the one below it, nor longer than the log |
| Stats.Conservation | tools/mtstats.py:171-197 | busy time summed over slots equals time at each level summed over levels, for any timestamps and any order of either list |
| Stats.CloseSlot | tools/mtstats.py:157-169 | adds to each status still open, other than idle and failed, the time since it was entered, and to the idle time the time from the failure, or else from the last idle event, to the last event of all; says whether there was any such status |
| Stats.ClosedIdleTotal | tools/mtstats.py:157-164 | the idle time is right for a slot that ended idle; after a failure the time since then counts as idle; for a slot cut off in any other status the time since it became idle last counts again, whatever it has done since |
| Stats.Ledger.Close | tools/mtstats.py:157-169 | the build is reported incomplete exactly if some slot ended neither idle nor failed |
| Stats.SlotLines | tools/mtstats.py:249-255 | each line has the time its slot was busy, up to now if it still is, and the column adds them up |
| Stats.LevelLines | tools/mtstats.py:257-263 | there are never more levels than slots, so every level finds its line, with the time it was held less what has passed since it was reached if it still is |
| Stats.Ledger.Summarize | tools/mtstats.py:247-271 | each line has the busy time of its slot, up to now if it still is busy, and the level of its rank with the time that was held, less what has passed since it was reached if it still is; the column of the slots exceeds that of the levels by the time that has passed since each level still held was reached; the two totals agree unless a slot was cut off while busy, and for a log in order that ends before the report only then |
| Stats.TotalsDiffer | tools/mtstats.py:157-169 | what closing adds to the busy times, and what the running levels lack, make up that difference |
| Line.StepStaysClose | packages/lakka/lakka_tools/LakkaSimpleClock/sources/clock_render.c:51-53 | a step moves along the longer axis and keeps the deviation within half a unit |
| Line.CloseStaysInside | packages/lakka/lakka_tools/LakkaSimpleClock/sources/clock_render.c:48-54 | the pen never overshoots, and reaches the end of both axes together |
| Line.CloseIsNear | packages/lakka/lakka_tools/LakkaSimpleClock/sources/clock_render.c:51-53 | a small deviation means a pixel within half a unit of the ideal line |
| Line.PenSteps | packages/lakka/lakka_tools/LakkaSimpleClock/sources/clock_render.c:50-53 | one turn of the loop moves the pen and keeps the error term equal to the deviation |
| Line.ErrorFits | packages/lakka/lakka_tools/LakkaSimpleClock/sources/clock_render.c:51-51 | the doubled error term is at most three times the longer extent |
| Line.DrawPixelSafe | packages/lakka/lakka_tools/LakkaSimpleClock/sources/font.h:104-108 | changes exactly the pixel, 320 to a row, if it is on the screen |
| Line.DrawLine | packages/lakka/lakka_tools/LakkaSimpleClock/sources/clock_render.c:44-55 | for any end points terminates with one connected pixel for each unit of the longer axis, from the first point to the last, in the bounding box and within half a unit of the line; exactly those on the screen are painted |
| Mutex.StepInv | config/functions:1802-1836 | every step of every process, crashes included, keeps who may rely on the lock and who is named as owner consistent |
| Mutex.RunsAreExclusive | config/functions:1802-1836 | in every interleaving at most one process is inside, who is in the critical section holds the file lock and is named as the owner, and none ever skips the file lock |
| Mutex.OwnerHoldsLock | config/functions:1810-1814 | without crashes a name in the owner file is that of the process in the critical section, which holds the lock |
| Mutex.OwnerIsHolder | config/functions:1810-1836 | in every reachable state, a name in the owner file is that of the holder of the lock, in its critical section, if and only if no process has died leaving its name there |
| Mutex.CrashLeavesOwner | config/functions:1834-1835 | with a crash there can be a name in the owner file while the lock is free |
| Mutex.NoDeadlock | config/functions:1811-1821 | whenever a process is under way, some process can go forward |
| Mutex.ReleaseComesNearer | config/functions:1826-1836 | nobody else can take the lock while it is held, and the holder gives it up after a bounded number of its own steps |
| Crc.RegisterDivides | projects/RPi/devices/RPi4-PiBoyDmg/packages/xpi_gamecon/sources/xpi_gamecon.c:147-153 | the shift register computes the remainder of the message times x^16 by x^16 + x^12 + x^5 + 1 |
| Crc.DivisionUnique | projects/RPi/devices/RPi4-PiBoyDmg/packages/xpi_gamecon/sources/xpi_gamecon.c:147-153 | quotient and remainder are unique |
| Crc.RunLinear | projects/RPi/devices/RPi4-PiBoyDmg/packages/xpi_gamecon/sources/xpi_gamecon.c:147-153 | the remainder of a bitwise difference is the difference of the remainders |
| Crc.AppendedRemainder | projects/RPi/devices/RPi4-PiBoyDmg/packages/xpi_gamecon/sources/xpi_gamecon.c:172-173 | a message with its remainder appended leaves no remainder |
| Crc.BurstDetected | projects/RPi/devices/RPi4-PiBoyDmg/packages/xpi_gamecon/sources/xpi_gamecon.c:155-155 | messages that differ only within sixteen consecutive bits have different remainders |
| Frames.ShiftIsStep | projects/RPi/devices/RPi4-PiBoyDmg/packages/xpi_gamecon/sources/xpi_gamecon.c:150-151 | shifting the 16-bit word, with or without the constant 0x1021, is one step of the bit-wise register |
| Frames.StepOfTop | projects/RPi/devices/RPi4-PiBoyDmg/packages/xpi_gamecon/sources/xpi_gamecon.c:148-149 | a byte added to the upper half enters the register bit by bit |
| Frames.Checksum | projects/RPi/devices/RPi4-PiBoyDmg/packages/xpi_gamecon/sources/xpi_gamecon.c:147-153 | the two nested loops leave the remainder of the bytes' bits |
| Frames.CheckCrc16 | projects/RPi/devices/RPi4-PiBoyDmg/packages/xpi_gamecon/sources/xpi_gamecon.c:140-156 | zero if and only if the last two bytes, lower byte first, are the remainder of the others |
| Frames.CalcCrc16 | projects/RPi/devices/RPi4-PiBoyDmg/packages/xpi_gamecon/sources/xpi_gamecon.c:159-174 | writes the two bytes, upper byte first, that make the whole leave no remainder, and nothing else |
| Frames.ChangeRejected | projects/RPi/devices/RPi4-PiBoyDmg/packages/xpi_gamecon/sources/xpi_gamecon.c:140-156 | an accepted frame with one or two adjacent payload bytes changed is always rejected |
| Frames.OwnTrailerOrder | projects/RPi/devices/RPi4-PiBoyDmg/packages/xpi_gamecon/sources/xpi_gamecon.c:144-173 | a payload with the trailer the driver writes is accepted exactly if the payload's remainder has two equal halves; with the two bytes exchanged it always is |
| Frames.OwnFrame | projects/RPi/devices/RPi4-PiBoyDmg/packages/xpi_gamecon/sources/xpi_gamecon.c:140-174 | writing the check value into a frame and checking the frame succeeds for exactly those payloads |
| Frames.OwnTrailerRejected | projects/RPi/devices/RPi4-PiBoyDmg/packages/xpi_gamecon/sources/xpi_gamecon.c:144-173 | a frame with the trailer the driver writes that is rejected, and accepted with the two bytes exchanged |
| Drift.EveryNRoundsUp | packages/addons/service/snapserver/snapweb/snapstream.js:415-416 | the distance of corrections is the quotient rounded up |
| Drift.AddFramesBound | packages/addons/service/snapserver/snapweb/snapstream.js:405-412 | the correction is the lateness in milliseconds rounded away from zero, none within a tenth of one, and at most five within five |
| Drift.CorrectionsDue | packages/addons/service/snapserver/snapweb/snapstream.js:414-416 | exactly the wanted number of corrections falls before the last frame, and at most one more on it |
| Drift.SourceInverse | packages/addons/service/snapserver/snapweb/snapstream.js:425-441 | which places a frame is written to, and which frame a place finally shows |
| Drift.PlacedNext | packages/addons/service/snapserver/snapweb/snapstream.js:425-441 | placing one more frame changes exactly those places |
| Drift.BeforeCursor | packages/addons/service/snapserver/snapweb/snapstream.js:425-441 | the places before the cursor are exactly those that show a frame already read |
| Drift.CursorInside | packages/addons/service/snapserver/snapweb/snapstream.js:425-441 | no frame is written behind the end of the buffer; only a repetition may touch the place right behind it |
| Drift.ExactlyCorrected | packages/addons/service/snapserver/snapweb/snapstream.js:405-441 | the buffer shows the frames read from first to last in order, with exactly the wanted number left out or repeated, each singly |
| Drift.CorrectedAt | packages/addons/service/snapserver/snapweb/snapstream.js:425-441 | the corrections are at regular distances: of the frames before the last, exactly every so many one is left out, or shown in two places, and all others are shown |
| Drift.BufferFull | packages/addons/service/snapserver/snapweb/snapstream.js:425-441 | every place of the buffer has been written with its frame |
| Drift.ClearedIsShort | packages/addons/service/snapserver/snapweb/snapstream.js:448-454 | clearing the places from the cursor on, unless the whole length has been read, leaves every place with its frame, if that has been read, and silent otherwise |
| Audio.PcmChunk.constructor | packages/addons/service/snapserver/snapweb/snapstream.js:231-248 | a new chunk has all its frames left, starts at its timestamp and lasts as many seconds as it has frames, divided by the rate |
| Audio.PcmChunk.ReadFrames | packages/addons/service/snapserver/snapweb/snapstream.js:249-259 | takes as many frames as asked for or as are left, in order; the rest starts later, and lasts shorter, by the time of the frames taken |
| Audio.PlaceFrame | packages/addons/service/snapserver/snapweb/snapstream.js:425-441 | writes a frame, once, twice, or to be overwritten, and moves on |
| Audio.AudioStream.AddChunk | packages/addons/service/snapserver/snapweb/snapstream.js:318-333 | puts a chunk at the end of those waiting and drops the outdated ones in front, up to the first that is not, reading the clock anew for each |
| Audio.AudioStream.ReadChunk | packages/addons/service/snapserver/snapweb/snapstream.js:421-421 | what is read and what is still queued make up what was queued |
| Audio.AudioStream.Play | packages/addons/service/snapserver/snapweb/snapstream.js:419-445 | goes across chunks until enough has been read or nothing is queued; frames stay in order |
| Audio.AudioStream.DropOld | packages/addons/service/snapserver/snapweb/snapstream.js:363-369 | drops chunks as long as they are over |
| Audio.AudioStream.HardSync | packages/addons/service/snapserver/snapweb/snapstream.js:360-387 | passes over exactly the frames before the wanted position, or waits exactly until the first frame is due, at the rate of the chunk concerned |
| Audio.CurrentIsFirst | packages/addons/service/snapserver/snapweb/snapstream.js:363-369 | the chunk sought is the first that is not over, all before it being over |
| Audio.TooYoungIs | packages/addons/service/snapserver/snapweb/snapstream.js:354-357 | silence is returned exactly if the next frame is early by more frames than the buffer has places |
| Audio.ResyncAt | packages/addons/service/snapserver/snapweb/snapstream.js:360-387 | seeking passes over the chunks before it and the frames of it that are late, and waits the whole number of frames by which it is early; all in terms of the ages of the queued chunks |
| Audio.AudioStream.GetNextBuffer | packages/addons/service/snapserver/snapweb/snapstream.js:334-458 | for any buffer, in sync, takes the buffer's length plus the correction, or all that is queued, and shows every place as placed, silent where nothing was read; for buffers of more than 30 frames these are the frames in order; too early or with nothing queued plays silence and consumes nothing; out of sync, seeks and shows the frames that follow, in order, behind the silence, twice as many places staying silent as were waited for |
| Audio.PlayedIsDelivered | packages/addons/service/snapserver/snapweb/snapstream.js:405-454 | in a buffer of more than 30 frames each place shows its own frame, and exactly those needed are taken; with too few queued, the places whose frames were there show them |
| Audio.SilenceCountedTwice | packages/addons/service/snapserver/snapweb/snapstream.js:376-414 | after seeking, every place behind the silence takes a frame while there are any, if and only if the current chunk is early by less than one frame or by the whole buffer, or the frames queued do not reach beyond the places that are filled |
| Audio.LosesTime | packages/addons/service/snapserver/snapweb/snapstream.js:334-458 | ten milliseconds early with 1024 frames queued: of 1024 places 480 are silent, 64 show frames, and 480 are silent again |
| Words.WordRoundTrip | projects/L4T/devices/Switch/packages/switch-bootloader/tools/mkdtboimg.py:205-208 | a 32-bit word is written byte by byte with the highest byte first, and reads as the same number |
| Words.WordIsSum | projects/L4T/devices/Switch/packages/switch-bootloader/tools/mkdtboimg.py:308-309 | reading weighs the four bytes with 16777216, 65536, 256 and 1 |
| Words.UnpackPack | projects/L4T/devices/Switch/packages/switch-bootloader/tools/mkdtboimg.py:308-309 | unpacking gives back the words packed |
| Words.ParseDecimal | projects/L4T/devices/Switch/packages/switch-bootloader/tools/mkdtboimg.py:46-66 | a number written as decimal text is parsed as that number, zero included although it has the octal prefix |
| Words.DecimalRead | projects/L4T/devices/Switch/packages/switch-bootloader/tools/mkdtboimg.py:46-66 | a decimal number, digit by digit, and back to text |
| Words.HexadecimalRead | projects/L4T/devices/Switch/packages/switch-bootloader/tools/mkdtboimg.py:46-66 | a number after 0x is hexadecimal, with digits of either case |
| Words.OctalRead | projects/L4T/devices/Switch/packages/switch-bootloader/tools/mkdtboimg.py:46-66 | a number after 0 is octal |
| Words.NumbersRefused | projects/L4T/devices/Switch/packages/switch-bootloader/tools/mkdtboimg.py:46-66 | signs, paths, the empty text, and digits that the base does not have are refused |
| Dtbo.RowRoundTrip | projects/L4T/devices/Switch/packages/switch-bootloader/tools/mkdtboimg.py:219-228 | the eight words of an entry give back its fields, for both versions |
| Dtbo.KeeperKeeps | projects/L4T/devices/Switch/packages/switch-bootloader/tools/mkdtboimg.py:311-325 | the entry that another shares its blob with has the same file and format and shares with nobody itself |
| Dtbo.SharedExactly | projects/L4T/devices/Switch/packages/switch-bootloader/tools/mkdtboimg.py:311-325 | an entry shares a blob exactly with the first earlier entry made from the same file, if both ask for the same compression in the lowest four bits of their flags |
| Dtbo.BlobFound | projects/L4T/devices/Switch/packages/switch-bootloader/tools/mkdtboimg.py:426-439 | every entry finds its own blob at its offset, shared or not |
| Dtbo.BlobsDisjoint | projects/L4T/devices/Switch/packages/switch-bootloader/tools/mkdtboimg.py:433-439 | blobs that are not shared lie one behind the other without overlapping, and without gaps if only shared entries lie between them |
| DtboImage.FindEntryWithSameFile | projects/L4T/devices/Switch/packages/switch-bootloader/tools/mkdtboimg.py:311-325 | finds the first entry made from the same file |
| DtboImage.PackInto | projects/L4T/devices/Switch/packages/switch-bootloader/tools/mkdtboimg.py:205-228 | writes the words at their place in the buffer and nothing else |
| DtboImage.DtboFile.AddDtEntries | projects/L4T/devices/Switch/packages/switch-bootloader/tools/mkdtboimg.py:404-443 | succeeds exactly for a first, non-empty list with known formats, with the error that says which of these fails; then every entry is placed, the buffer holds the blobs, and counts and total size are right |
| DtboExamples.UnknownFormat | projects/L4T/devices/Switch/packages/switch-bootloader/tools/mkdtboimg.py:387-396 | an entry with compression format 3 fails with a missing key |
| DtboImage.DtboFile.UpdateMetadata | projects/L4T/devices/Switch/packages/switch-bootloader/tools/mkdtboimg.py:229-239 | fills the whole buffer with the header and one row for each entry, unless a number does not fit |
| DtboImage.DtboFile.Commit | projects/L4T/devices/Switch/packages/switch-bootloader/tools/mkdtboimg.py:470-487 | the file has the eight numbers of the header at their places, 32 bytes for each entry with size, offset, id, revision and then the custom words, or the flags and three of them, and then the blobs; fails exactly without entries or if a number does not fit |
| DtboImage.ImageWritten | projects/L4T/devices/Switch/packages/switch-bootloader/tools/mkdtboimg.py:204-228 | so does any image made of a header, rows and blobs, number by number |
| DtboImage.ImageReads | projects/L4T/devices/Switch/packages/switch-bootloader/tools/mkdtboimg.py:288-310 | every image written is readable, and header and rows read as written |
| DtboImage.ReadableIs | projects/L4T/devices/Switch/packages/switch-bootloader/tools/mkdtboimg.py:288-306 | which files are readable, number by number |
| DtboImage.DtboFile.ReadProps | projects/L4T/devices/Switch/packages/switch-bootloader/tools/mkdtboimg.py:280-287 | the detour through text gives back the words |
| DtboImage.DtboFile.Load | projects/L4T/devices/Switch/packages/switch-bootloader/tools/mkdtboimg.py:240-310 | succeeds exactly if, number by number, magic, sizes, count, offset and version are as required and the file is long enough for the rows; header and entries are then what the file has at their places |
| DtboExamples.ReadableExactly | projects/L4T/devices/Switch/packages/switch-bootloader/tools/mkdtboimg.py:288-310 | of the well-formed files, exactly those whose rows follow the header at once can be read |
| DtboExamples.GapIsUnreadable | projects/L4T/devices/Switch/packages/switch-bootloader/tools/mkdtboimg.py:303-306 | a well-formed file with four bytes between header and row cannot be read, one without can |
| DtboExamples.TightBytes | projects/L4T/devices/Switch/packages/switch-bootloader/tools/mkdtboimg.py:204-208 | the header of such an image, byte by byte |
| DtboImage.DtboFile.ExtractDtFile | projects/L4T/devices/Switch/packages/switch-bootloader/tools/mkdtboimg.py:444-469 | the bytes the row points to, decompressed if asked for; errors for an index behind the last entry and for an unknown format |
| DtboImage.SliceIs | projects/L4T/devices/Switch/packages/switch-bootloader/tools/mkdtboimg.py:458-469 | the bytes from the place on, as many as asked for or as the file has |
| DtboExamples.IndexBehindLast | projects/L4T/devices/Switch/packages/switch-bootloader/tools/mkdtboimg.py:455-457 | in every readable file the index just behind the last entry passes the check and fails in the list |
| DtboImage.ExtractsOriginal | projects/L4T/devices/Switch/packages/switch-bootloader/tools/mkdtboimg.py:454-469 | extracting an entry of a written image yields the original file |
| DtboImage.ExtractsStored | projects/L4T/devices/Switch/packages/switch-bootloader/tools/mkdtboimg.py:444-469 | without decompressing it yields the bytes as they are stored: those of the file, or compressed as its flags ask for |
| DtboImage.CreateAndDump | projects/L4T/devices/Switch/packages/switch-bootloader/tools/mkdtboimg.py:709-738 | create, read back and extract: the image has the given header and properties at their places, each row the place and size of its file's bytes, compressed as its flags ask for; every field and every file comes back, the recorded total size is the file's length, and it works exactly if formats are known and numbers fit |
| ShellSource.ParseText | tools/fixlecode.py:18-29 | a well-formed line is recognized exactly if it is a plain assignment, and taken apart correctly |
| ShellSource.Recognized | tools/fixlecode.py:18-29 | exactly the lines NAME="text" between white space are recognized, and each is taken apart into its parts |
| ShellSource.TextUnique | tools/fixlecode.py:29-29 | an assignment line can be taken apart in one way only |
| ShellMeaning.Characters | tools/fixlecode.py:14-16 | which characters names of variables are made of, and which are white space |
| ShellSource.LeadingRefIs | tools/fixlecode.py:50-56 | the two patterns find exactly a leading reference to the variable itself |
| ShellSource.ReplaceInText | tools/fixlecode.py:64-66 | replacing everywhere in the line replaces at the one place meant |
| ShellSource.AppendedText | tools/fixlecode.py:37-71 | fixing appends yields the shortened assignment, or leaves the line alone |
| ShellMeaning.AppendsExactly | tools/fixlecode.py:37-71 | an assignment of a text that starts with the variable itself, with braces or without, becomes one with += and the rest of the text; it stays as it is exactly if its text also ends with that reference at the end of the line |
| ShellMeaning.AppendsOnly | tools/fixlecode.py:37-71 | any other line stays as it is, also one with a backslash |
| ShellMeaning.BothEndsStay | tools/fixlecode.py:58-62 | so does one whose text begins and ends with the variable, whatever is in between |
| ShellSource.ShortenedEffect | tools/fixlecode.py:31-36 | the shortened assignment does the same to the variables, whatever their values |
| ShellMeaning.ReferenceExpands | tools/fixlecode.py:73-78 | with or without braces a reference stands for the value of its variable |
| ShellMeaning.EffectIs | tools/fixlecode.py:31-36 | an assignment sets its variable, with += to the old value and the text, and no other |
| ShellSource.BracedSimple | tools/fixlecode.py:92-114 | fixing braces puts every reference of simple text into braces and changes nothing else |
| ShellMeaning.BareGetsBraces | tools/fixlecode.py:92-114 | the first bare reference gets braces around exactly its name; text without one stays as it is |
| ShellSource.EmbracedExpands | tools/fixlecode.py:73-78 | text with its references in braces expands to the same |
| ShellSource.FixedLineKeepsEffect | tools/fixlecode.py:254-258 | fixing appends and then braces, as the two fixers do, keeps the effect of a simple assignment on every environment, also with an awk program in its text |
| ShellSource.BracedTwice | tools/fixlecode.py:79-119 | fixing the braces of a complete line twice is the same as once |
| ShellMeaning.UnclosedExactly | tools/fixlecode.py:92-114 | without a newline at its end a line is fixed as with one, except that the closing brace is missing exactly if the line ends within a bare reference |
| ShellAwk.MatchAtIs | tools/fixlecode.py:21-23 | with the command at a given place, a pattern matches exactly if white space and a quoted program follow before any other quote |
| ShellAwk.LastMatchIs | tools/fixlecode.py:21-23 | the program found is that of the rightmost match, and none is found exactly if the pattern matches nowhere |
| ShellMeaning.FirstPattern | tools/fixlecode.py:84-90 | the first of the three patterns that matches anywhere decides |
| ShellMeaning.ArgumentsAre | tools/fixlecode.py:21-23 | the command is awk, for the first pattern with a separator of one character in quotes and a space |
| ShellMeaning.InFrontOf | tools/fixlecode.py:21-23 | in front of the command there may be any text without a newline, and white space behind it |
| ShellMeaning.OrdinaryFound | tools/fixlecode.py:21-23 | in an ordinary line without a separator the program is found |
| ShellAwk.FoundQuotes | tools/fixlecode.py:84-90 | the program found lies between quotes |
| ShellAwk.SeparatorMissed | tools/fixlecode.py:21-22 | after a quoted separator and a single space, a program is found by neither pattern for single quotes |
| ShellAwk.CommonMissed | tools/fixlecode.py:21-23 | in an ordinary line of that form no program is found |
| ShellSource.CommonChanged | tools/fixlecode.py:91-105 | so its field reference is changed as if it were one of the shell |
| ShellMeaning.CommonBecomes | tools/fixlecode.py:91-105 | what becomes of that line, character by character |
| ShellSource.FixedText | tools/fixlecode.py:92-114 | fixing the braces of a simple assignment yields the assignment with its references in braces, except those within the program |
| ShellSource.Changes.FixAppends | tools/fixlecode.py:37-71 | returns the fixed line; counts it and marks the file as changed exactly if the line has changed |
| ShellSource.Changes.FixBraces | tools/fixlecode.py:79-119 | fixes the line, leaving an awk program in it as it is; counts each bare reference outside the program; changes the line exactly if there is one, and then marks the file as changed |
| ShellMeaning.BareCountIs | tools/fixlecode.py:91-105 | what is counted are the dollar signs before variable characters outside the program |
| Png.PaethNearest | packages/lakka/lakka_tools/LakkaSimpleClock/assets/png_to_header.py:6-13 | the neighbour nearest to the estimate, ties broken in the order left, above, upper left |
| Png.ReconstructFiltered | packages/lakka/lakka_tools/LakkaSimpleClock/assets/png_to_header.py:59-79 | for any row and any filter type, what filtering stores stands for the row byte by byte, as sections 6.2 to 6.6 of RFC 2083 say, and reconstruction gives the row back |
| Png.ReconstructedIs | packages/lakka/lakka_tools/LakkaSimpleClock/assets/png_to_header.py:59-79 | sections 6.2 to 6.6 of RFC 2083, byte by byte: type 1 adds the byte to the left, 2 the byte above, 3 half their sum, rounded down, 4 the neighbour nearest to the estimate, all modulo 256, with zeros left of the edge; any other type adds nothing |
| Png.DecodeEncoded | packages/lakka/lakka_tools/LakkaSimpleClock/assets/png_to_header.py:52-81 | all rows come back, for any rows and any filter chosen for each |
| Png.EncodedIs | packages/lakka/lakka_tools/LakkaSimpleClock/assets/png_to_header.py:52-81 | the data that stand for the rows have the filter types chosen, each in front of its row |
| Png.ReconstructRow | packages/lakka/lakka_tools/LakkaSimpleClock/assets/png_to_header.py:59-79 | the loop reconstructs the row, each byte as its filter type says |
| Png.ReadPixels | packages/lakka/lakka_tools/LakkaSimpleClock/assets/png_to_header.py:46-90 | row after row each byte is reconstructed as its filter type says, from zeros above the first row; the pixels have red, green, blue and alpha from these bytes in order, or are opaque if there is no alpha channel; fails exactly if data are missing |
| Png.Rgb565Transparency | packages/lakka/lakka_tools/LakkaSimpleClock/assets/png_to_header.py:121-132 | a colour is zero exactly if alpha is below 128; otherwise it has the upper bits of the components, or is dark grey if those are all zero |
| Png.Translate | packages/lakka/lakka_tools/LakkaSimpleClock/assets/png_to_header.py:118-134 | the table has the colour of every pixel |
| Png.DrawLogo | packages/lakka/lakka_tools/LakkaSimpleClock/sources/clock_render.c:186-195 | draws exactly the entries that are not zero, at their places, and nothing else |
| Png.ShowImage | packages/lakka/lakka_tools/LakkaSimpleClock/sources/clock_render.c:186-195 | from file to screen, with or without an alpha channel: the data stand for the rows, each place of the logo shows its pixel's colour if that is opaque and is left alone otherwise, as is everything around the logo |

## Left out

- Audio.AudioStream.GetNextBuffer: arithmetic is over integers and reals.
- Stats.Replay: an empty log, for which the program exits, and events of slots outside the configured range, for which a look-up fails, are excluded.
- Pipeline.GeneratePlan: dependencies, triggers and package names have at most one colon and no white space; lists of names are taken as already split into words; which of several errors is reported first is not stated.
- Building.Builder.constructor: the unpack relation is acyclic, since otherwise the recursive counting does not end; the number of threads is given as a number, not parsed.
- Generation.Generator.AddRefCounts: recursion is over the acyclic unpack relation of the plan only.
- ShellSource.FixedLineKeepsEffect: text made of ordinary characters, $NAME and ${NAME} only, with names not starting with a digit; backslashes, command substitution and lone dollar signs are excluded.
- ShellMeaning.AppendsOnly: lines that assign to an empty name are excluded.
- ShellAwk.LastMatchIs: white space is that of ASCII.
- Audio.AudioStream.AddChunk: no chunk is added twice; the clock's readings are given.
- DtboImage.CreateAndDump: compressing and decompressing are any pair of functions of which the second undoes the first; number arguments with underscores, white space or letters after the leading zero are not modelled.
- Line.DrawLine: integers are unbounded; Line.ErrorFits bounds the values that a 32-bit int has to hold.
- Frames.CalcCrc16: the global variable that keeps the last check value is not modelled.
- WorkerPool.StepInv: stopping and cleaning up threads from outside, by None in the queue, is not modelled.
- Planner nodes are represented by their names; object identity of nodes and the unused helpers of the planner are not modelled.
- Running build scripts, subprocesses, signals, log files, progress and status display, and job statistics.
- getStallInfo and getPackageReferenceCounts, which only feed messages.
- Parsing of event log lines, percentages, formatting, and the sorting of the two columns, which may come in any order here.
- Network, clocks, volume, the web audio interface and the clock offset of the audio player.
- Nested acquisition of the mutex, sequential builds, which skip it, and reads and writes of the owner file that are not atomic.
- GPIO, timers and input events of the controller driver.
- Text and trigonometry of the clock; reading of PNG chunks and zlib.
- fix_backticks and fix_semicolons, and the summary and difference output.
