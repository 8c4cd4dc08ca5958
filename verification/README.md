# tms-sim: a verified model of the simulator

tms-sim simulates a single processor on which periodic real-time tasks, some of
them with (m,k)-firm constraints ("at least m of any k consecutive jobs
succeed"), compete under different schedulers. Time is discrete; all quantities
are integers here, and the floors and ceilings the program takes of `double`
quotients are exact.

The model has two layers.

* `Machine.dfy` is the simulator as a transition system on plain values: the
  pending jobs in the scheduler's order and, for each task, its activation clock,
  its counters, and the outcomes and utilities of its jobs. One step is
  `initStep`, activations, `schedule`, and one time unit of execution. What
  `schedule` does is a parameter of the system: nothing, as for EDF and FPP, or
  any decision which jobs to give up and how to order the others. Everything
  about whole runs is proved about this system.
* `Jobs.dfy`, `AldScheduler.dfy`, `Tasks.dfy` and `Simulation.dfy` are the
  program's objects, with the same fields and the same in-place updates: jobs
  shared by the schedule, the deadline monitor and the list of late jobs; tasks
  with their ring-buffer monitors; the loops of `run` and `finalise`. Their
  methods are proved to do exactly what the transition system does.

What the files are about:

| files | subject |
|---|---|
| `Arithmetic`, `TmsMath` | rounding of quotients, gcd, lcm, Pascal's triangle |
| `MkPattern`, `MkWindow`, `MkMonitor` | mandatory/optional job patterns, what an (m,k)-constraint means, the monitor that checks it |
| `Machine`, `MachineInvariants`, `JobRecords`, `PeriodicTasks` | the transition system, what all its runs keep, and what every job of a run is |
| `FppResponse` | the busy-period argument: a response bound for fixed priorities |
| `MkpSoundness`, `MkpSimulation` | the sufficient test and the simulation that trusts it |
| `FppExactness`, `TestLimits` | exactly which task sets are safe under fixed priorities, and where the test stops being sound |
| `ResponseTimeAnalysis` | the response-time iteration, which is sound and exact |
| `Jobs`, `AldScheduler`, `Tasks`, `CancellationOrder`, `Simulation` | the objects of the simulator |
| `EdfFeasibility`, `Finalisation`, `Gdpa`, `GdpaOrder`, `GdpaProgress`, `GdpaFinalisation`, `Oedf`, `Mku` | the EDF check, the policies built on it, and when `finalise` ends |
| `Utility`, `TaskEvents` | utility windows, and what tasks are told in a run |
| `Constraints`, `MkStates`, `GstRuns`, `GstSimulation`, `GstLimits` | the general schedulability test by recurring states, and its bound for all initial states |
| `Unranking` | dependency-matrix rows by number |
| `MtRunner`, `MtLosses` | the multithreaded runner, and which of its runs lose results |

## Results that say where the program does not do what one might expect

* The sufficient test looks at periods only, and it takes the order of its list
  for the order of priorities. `TestLimits.TestIgnoresDeadlines` and
  `TestLimits.TestIgnoresPriorities` are sets that pass although a mandatory job
  is cancelled. `FppExactness.SafeExactly` says exactly which sets are safe: those
  in which every task has a response bound within its deadline.
  `TestLimits.DeadlineTestIsSound` is the test that compares with the deadlines.
* OEDF stops when it finds the same miss twice. `Oedf.ResolvedExactly` says when
  the schedule is feasible afterwards, `Oedf.ResolvedBeforehand` gives a condition
  on the schedule before the call, and `Mku.MkuStopsInfeasible` is a family of
  schedules that MKU leaves infeasible with a candidate still to cancel.
* A work function that returns NULL ends the aggregator of the multithreaded
  runner early. `MtLosses.NothingLostExactly` says for which items and how many
  workers no run loses a result.
* The monitor counts a late completion as a success, the utility window does
  not: `Utility.WindowsAgree` says exactly when the two agree.
* The multiplicative binomial coefficient is too small when its last product
  exceeds 64 bits, for example for 31 of 63 columns:
  `Unranking.MultiplicativeBinomial` and `Unranking.MissedCoefficient`.
* `Task::getDistance` is not virtual, so schedulers see a distance of 1. DMU
  therefore never cancels a job (`Mku.DmuNeverCancels`), and GMUA-MK only jobs of
  one time unit (`Mku.GmuaCancelsUnitJobs`).
* Under GDPA `finalise` can run forever. `GdpaFinalisation.GdpaEndsExactly` says
  when: unless a task objects to a cancellation, it ends if and only if every job
  that the first `initStep` leaves pending is in the first greedy schedule, or is
  cancelled when it is too late, which takes deadline-miss cancellations and, for
  started jobs, execution cancellations too. With both flags on it always ends;
  without deadline-miss cancellations it ends if and only if the EDF check finds
  no miss.
* A monitor that starts from a state read from a file can show fewer than m
  successes while the constraint holds. `MkWindow.InitialStateMatters` says from
  which states it cannot: those whose m newest outcomes are successes. That is
  sufficient for the general test's bound on the number of hyperperiods (`GstSimulations.RecursInTime`).
  From other states the search can be ended by its overrun guard before a state
  recurs (`GstLimits.SearchEndsEarly`); `GstLimits.RecursFromAnyState` bounds the
  hyperperiods a run then needs.

## Model

| member | source | states |
|---|---|---|
| MkPattern.MandatoryRaisesQuota | src/taskmodels/mkptask.cpp:115-120 | a job is mandatory exactly when it raises ceil(n*m/k), whatever the spin |
| MkPattern.UnspunPrefixCount | src/taskmodels/mkptask.cpp:115-120 | without spin exactly ceil(n*m/k) of the first n jobs are mandatory |
| MkPattern.WindowCount | src/taskmodels/mkptask.cpp:115-120 | for every spin any k consecutive jobs contain exactly m mandatory ones |
| MkPattern.StretchBound | src/mkeval/mkgenerator.cpp:147-149 | for every spin any n consecutive jobs contain at most ceil(n*m/k) mandatory ones, the number the test uses |
| MkWindow.PatternKeepsFirm | src/taskmodels/mkptask.cpp:151-164 | if every mandatory job succeeds and optional jobs end arbitrarily, the constraint holds after every history, during the first k-1 jobs too |
| MkWindow.PatternNeverViolates | src/taskmodels/mkptask.cpp:151-164 | under the same condition no violation is ever counted |
| MkWindow.ViolationsCount | src/taskmodels/mkmonitor.cpp:61-75 | the violation counter is the number of outcomes after which the window was full and below m |
| MkWindow.PatternIsTight | src/taskmodels/mkptask.cpp:115-120 | if all optional jobs fail and no others, every window of k outcomes has exactly m successes |
| MkWindow.InitialStateMatters | src/taskmodels/mkmonitor.cpp:40-53 | a monitor's window has at least m successes whenever the constraint has always held, if and only if the m newest outcomes of its initial state are successes |
| MkMonitoring.EncodeInjective | src/taskmodels/mkmonitor.cpp:127-141 | two windows have the same compressed state only if they are equal |
| MkMonitoring.EncodePush | src/taskmodels/mkmonitor.cpp:127-141 | a new outcome shifts the compressed state by one bit: the oldest bit goes, the outcome becomes the lowest |
| MkMonitoring.MkMonitor.constructor | src/taskmodels/mkmonitor.cpp:40-53 | bit i of the given state becomes the i-th oldest entry of the window |
| MkMonitoring.MkMonitor.Push | src/taskmodels/mkmonitor.cpp:61-75 | the ring buffer, its running sum and its violation counter stay those of the history, which grows by the outcome |
| MkMonitoring.MkMonitor.GetCurrentSum | src/taskmodels/mkmonitor.cpp:78-99 | the successes among the last k outcomes, missing outcomes counting as successes |
| MkMonitoring.MkMonitor.IsStateValid | src/taskmodels/mkmonitor.cpp:160-169 | true exactly when the constraint holds after the history |
| MkMonitoring.MkMonitor.GetState | src/taskmodels/mkmonitor.cpp:127-141 | the window as one number, the most recent outcome in the lowest bit |
| MkMonitoring.MkMonitor.GetReducedState | src/taskmodels/mkmonitor.cpp:143-157 | the window without its oldest entry as one number |
| MkMonitoring.MkMonitor.CalcL | src/taskmodels/mktask.cpp:103-128 | the position of the n-th most recent success: exactly the suffixes reaching that far have n successes; -1 for n beyond k |
| Tasks.Task.constructor | src/taskmodels/mktask.cpp:43-53 | the monitor starts from the given state, whatever it is; no outcome and no utility is recorded yet |
| Tasks.Task.Start | src/core/task.cpp:116-125 | the counters are cleared and the clock is set to the offset; the monitor is kept |
| Tasks.Task.SpawnJob | src/core/task.cpp:128-138 | a job is activated exactly when the activation time is reached, and the clock moves on by one period |
| Tasks.Task.SpawnHook | src/taskmodels/mkptask.cpp:96-112 | mandatory jobs get the task's priority, optional jobs the lowest one; distance-based tasks give the failure distance |
| Tasks.Task.CompleteJob | src/core/task.cpp:141-153 | a completion is counted, a miss only if the deadline lies before now; preemptions are added up; the monitor records a success in either case, the aggregator the firm utility of the completion time |
| Tasks.Task.CancelJob | src/core/task.cpp:156-169 | a cancellation is counted, and the time lost if the job had started; the monitor records a failure and the aggregator 0; the answer is the hook's: always yes for plain periodic tasks, window state, or whether the job was optional |
| Tasks.Task.GetPossibleFailHistoryValue | src/core/task.cpp:218-220 | the utility there would be if the next job failed |
| Tasks.Task.GetDistance | src/taskmodels/mktask.cpp:93-100 | the number of entries of the window, oldest first, that can be dropped with fewer than m successes left |
| Tasks.DistanceIsExact | src/taskmodels/mktask.cpp:93-100 | exact: after x more failures in a row the constraint holds if and only if x is less than the distance |
| Tasks.DistanceIsExactLater | src/taskmodels/mktask.cpp:93-100 | the same for any initial state as soon as k outcomes are recorded |
| Machine.EnqueueElements | src/schedulers/fpp.cpp:62-78 | insertion adds the job and keeps all others |
| MachineInvariants.EnqueueOrdered | src/schedulers/edf.cpp:57-70 | insertion keeps the list in the order of its keys |
| Machine.FinaliseProgress | src/core/simulation.cpp:203-229 | each step of `finalise` lowers the remaining work, for every configuration and every scheduler that never idles with jobs pending, so the loop ends |
| Machine.RunFollowsAt | src/core/simulation.cpp:154-200 | as long as no cancellation is refused, `run` goes through all its steps |
| MachineInvariants.AlwaysConserved | src/core/simulation.cpp:154-186 | in every run of every configuration and every scheduling decision activations = completions + cancellations + pending, each task's outcomes and utilities are as many as its finished jobs, no utility exceeds its outcome, and a priority-list schedule is in order |
| MachineInvariants.DueTaskIsIdle | src/core/simulation.cpp:275-302 | with both flags on and deadlines at most the periods, a task that is due has no earlier job pending |
| MachineInvariants.AlwaysPunctual | src/core/simulation.cpp:154-186 | under the same conditions at most one job of a task is pending, always the latest one, so outcomes arrive in activation order |
| MachineInvariants.NeverLate | src/schedulers/ald.cpp:144-223 | under the same conditions no job finishes at or after its deadline, and no miss is counted |
| JobRecords.EveryJobIs | src/taskmodels/periodictask.cpp:61-68 | at any time of any run, under every scheduler and configuration, a task's job number n was released n periods after its offset, has its deadline counted from there, and has left what the time units given to it have not done |
| JobRecords.InitStepCancelsExactly | src/schedulers/ald.cpp:117-141 | of the pending jobs exactly those leave that cannot meet their deadline any more, if deadline misses are to be cancelled, and that have not been executed or may be cancelled all the same |
| JobRecords.ExecutedJobsAreSpared | src/schedulers/oedf.cpp:103-111 | with execution cancellations off no overload-resolving scheduler ever gives up a job that has been executed |
| JobRecords.DistancePriority | src/taskmodels/dbptask.cpp:71-76 | the priority of a distance-based job in a run is exact: after x more failures from its activation on the task's constraint holds if and only if x is less than the priority |
| JobRecords.NearestFailureFirst | src/schedulers/fpp.cpp:62-78 | for distance-based tasks under fixed priorities the job that is executed belongs to a task with the fewest further failures to bear |
| FppResponse.BusyPeriod | src/core/simulation.cpp:154-186 | from the last time without pending work above a priority until now, the processor executed only work above it |
| FppResponse.BusyWithinReleased | src/core/simulation.cpp:154-186 | a stretch that starts without such work executes no more of it than is released in the stretch |
| FppResponse.JobProgress | src/schedulers/fpp.cpp:62-78 | a pending job has received every time unit since its activation that more urgent jobs did not use |
| FppResponse.ReleasedWithinDemand | src/mkeval/mkgenerator.cpp:145-151 | what is released above a priority in a window is at most the sum of the test and of the analysis |
| FppResponse.ResponseBound | src/mkeval/mkgenerator.cpp:142-158 | if a window of some length offers a task its execution time beside the demand above it, every pending mandatory job of it can still finish within that length |
| MkpSoundness.MandatoryAlwaysSucceed | src/taskmodels/mkptask.cpp:151-164 | if every task has a response bound within its deadline, in no run a mandatory job is cancelled, and no hook refuses |
| MkpSoundness.TestSufficientSchedulability | src/mkeval/mkgenerator.cpp:142-158 | the loops decide whether every task finds its execution time within its period beside the demand of the tasks before it |
| MkpSoundness.TestSumIsDemand | src/mkeval/mkgenerator.cpp:145-151 | for tasks in priority order the sum of the test is the demand above the task's priority |
| MkpSoundness.PassedTestNeverFails | src/mkeval/mkpsimulation.cpp:65-68 | the soundness of the test: if it passes, then whatever the spins and however long the run, nothing is refused, no mandatory job fails, no job is late and no constraint is violated |
| FppExactness.SafeMeansGuaranteed | src/mkeval/mkgenerator.cpp:142-158 | necessity: if in the run in which all tasks start together without spins no mandatory job is ever about to be cancelled, every task has a response bound within its deadline |
| FppExactness.SafeExactly | src/mkeval/mkgenerator.cpp:142-158 | for distinct priorities and deadlines at most the periods: whatever the offsets and spins no mandatory job is ever about to be cancelled, if and only if every task has a response bound within its deadline; one synchronous run decides it |
| FppExactness.UnsafeIsRefused | src/taskmodels/mkptask.cpp:151-164 | with strict patterns a mandatory job about to be cancelled stops the run |
| TestLimits.DeadlineTestIsSound | src/mkeval/mkgenerator.cpp:142-158 | in priority order the test with deadlines in the place of periods is sound for all deadlines up to the periods, and the program's test when they are equal |
| TestLimits.TestIgnoresDeadlines | src/mkeval/mkgenerator.cpp:142-158 | with a deadline shorter than the period the test passes although a mandatory job is cancelled |
| TestLimits.TestIgnoresPriorities | src/mkeval/mkgenerator.cpp:142-158 | for a list that is not in priority order the test can pass, with deadlines equal to the periods, although a mandatory job is cancelled |
| TmsMath.CalculateGcd | src/utils/tmsmath.cpp:45-53 | the loop computes a common divisor that every common divisor divides |
| TmsMath.CalculateLcm | src/utils/tmsmath.cpp:40-42 | the product divided by the gcd is a common multiple that divides every common multiple |
| TmsMath.BinomialCoefficient | src/utils/tmsmath.cpp:58-73 | the row updated in place ends as a row of Pascal's triangle, modulo the 64-bit word |
| MkpSimulations.CalcFeasibilityPeriod | src/mkeval/mkpsimulation.cpp:115-121 | the least common multiple of all periods and all window lengths |
| MkpSimulations.MkpSimulation.constructor | src/mkeval/mkpsimulation.cpp:42-51 | the period is computed and nothing is simulated yet |
| MkpSimulations.MkpSimulation.Simulate | src/mkeval/mkpsimulation.cpp:59-77 | for task sets as they are generated the answer is the verdict of the run over the feasibility period, although the run is skipped when the test passes |
| ResponseTimeAnalysis.OrderByPeriod | src/tseval/tstaskset.cpp:209-229 | the list holds the same tasks with shorter periods first, those of equal periods in their old order |
| ResponseTimeAnalysis.AssignPriorities | src/tseval/tstaskset.cpp:231-241 | priorities follow the list, so they are distinct and rate-monotonic |
| ResponseTimeAnalysis.Iterate | src/tseval/tstaskset.cpp:292-317 | the iteration ends; within the period it gives the least positive solution, beyond it there is no solution within the period |
| ResponseTimeAnalysis.Analyse | src/tseval/tstaskset.cpp:290-318 | accepts exactly the sets in which every task has a solution within its period, and stores the least ones |
| ResponseTimeAnalysis.SameRun | src/schedulers/ald.cpp:117-141 | a run in which no job is ever doomed is the same for all cancellation flags |
| ResponseTimeAnalysis.ResponseTimesHold | src/tseval/pproducertask.cpp:116-121 | for all offsets and cancellation flags: every job finishes within its task's response time, and nothing is cancelled or refused |
| ResponseTimeAnalysis.AnalysisIsExact | src/tseval/tstaskset.cpp:290-318 | every task has a response time within its period if and only if no job is longer than that and none is ever about to be cancelled in the run in which all tasks start together |
| Jobs.Job.constructor | src/core/job.cpp:45-51 | all of the execution time remains, and the latest start time fits it |
| Jobs.Job.ExecStep | src/core/job.cpp:88-93 | one unit less remains, the latest start time grows by one, and the job is finished exactly when nothing remains |
| Jobs.DeadlineMonitor.AddJob | src/core/deadlinemonitor.cpp:46-58 | the job goes behind all jobs of an earlier or equal latest start time; the list stays in order |
| Jobs.DeadlineMonitor.Check | src/core/deadlinemonitor.cpp:61-72 | takes out the front job if it can no longer meet its deadline; null means that every job can |
| Jobs.DeadlineMonitor.JobExecuted | src/core/deadlinemonitor.cpp:75-100 | after one job's key has grown the job stands behind exactly those after it with smaller keys, the others where they were, and the list is in order again |
| Jobs.DeadlineMonitor.RemoveJob | src/core/deadlinemonitor.cpp:103-113 | exactly the job leaves, the rest stays in order |
| AldScheduling.ScheduleIsMonitoredOrLate | src/schedulers/ald.cpp:61-94 | with deadline monitoring the schedule is exactly the monitored jobs and the unfinished late ones |
| AldScheduling.LateIffKnown | src/schedulers/ald.cpp:165-201 | a job's last time unit ends past its deadline exactly when the job is in the list of late jobs |
| AldScheduling.AldScheduler.EnqueueJob | src/schedulers/edf.cpp:57-70 | the job enters the schedule behind all jobs of smaller or equal key, and the monitor |
| AldScheduling.AldScheduler.InitStep | src/schedulers/ald.cpp:117-141 | what stays are the jobs that can meet their deadline or have to go on; what is cancelled are exactly the others; every monitored job can then meet its deadline |
| AldScheduling.AldScheduler.InternalRemoveJob | src/schedulers/ald.cpp:97-114 | the job leaves the schedule and is no longer the current job |
| AldScheduling.AldScheduler.RemoveJob | src/schedulers/ald.cpp:61-94 | the job leaves all lists, which stay consistent |
| AldScheduling.AldScheduler.Dispatch | src/schedulers/ald.cpp:144-223 | the first job of the schedule gets one unit, the lists stay consistent, a finished job is late exactly when it was in the list of late jobs, where it stays, and with both flags on none is |
| CancellationOrder.CancelPermutation | src/core/simulation.cpp:392-418 | the order in which cancellations are reported changes neither the tasks nor the collected answer |
| PeriodicTasks.PeriodicAnswersDoNotCount | src/taskmodels/periodictask.cpp:79-84 | cancelling jobs of plain periodic tasks changes neither the collected answer nor what other tasks record |
| PeriodicTasks.PeriodicRunsNeverStop | src/core/simulation.cpp:154-200 | a run of plain periodic tasks is never refused, however many jobs are cancelled and whatever the scheduler |
| Simulations.PerformCancellations | src/core/simulation.cpp:392-418 | every cancelled job is reported once; the answer is that of all hooks together |
| Simulations.Simulation.constructor | src/core/simulation.cpp:122-141 | all tasks are started at time 0 |
| Simulations.Simulation.InitStep | src/core/simulation.cpp:254-272 | the schedule and the tasks become those of the transition system; a refused cancellation gives the exit condition |
| Simulations.Simulation.DoActivations | src/core/simulation.cpp:275-302 | every due task activates one job, in task-set order |
| Simulations.Simulation.PlanExecutions | src/core/simulation.cpp:305-346 | schedule and tasks become those of the transition system's `schedule`, its cancellations reported; a refused one gives the exit condition |
| Simulations.Simulation.DoExecutions | src/core/simulation.cpp:305-389 | `schedule`; then, unless it was refused, the first job gets one unit and, if it is finished, goes back to its task |
| Simulations.Simulation.Run | src/core/simulation.cpp:154-200 | the state and the verdict are those of the transition system after the same number of steps; nothing happens after `finalise` |
| Simulations.Simulation.Finalise | src/core/simulation.cpp:203-229 | pending jobs are executed without activations until none is left or one is refused, and no run can follow |
| EdfFeasibility.CheckEDFSchedule | src/schedulers/edf.cpp:101-124 | null exactly when all jobs meet their deadlines in list order, else the first that does not |
| EdfFeasibility.EdfCheckIsExact | src/schedulers/edf.cpp:101-124 | on the deadline-ordered list no miss is found if and only if some order of the same jobs meets every deadline |
| Finalisation.FinaliseAccounts | src/core/simulation.cpp:203-229 | for every scheduler, after any number of iterations `finalise` has handed back once what is not pending any more, and without the exit condition nothing stops it |
| Finalisation.FinaliseInTime | src/core/simulation.cpp:203-229 | a scheduler that never idles with jobs pending comes to the end of the loop within the pending load |
| Finalisation.IterationTakesTime | src/core/simulation.cpp:203-229 | an iteration takes one unit of time, unless `initStep` ends the loop in it |
| Finalisation.FinaliseForSplit | src/core/simulation.cpp:203-229 | iterations follow one another as long as no task objects |
| Finalisation.FeasibleStep | src/schedulers/edf.cpp:101-124 | a step on a schedule that passes the check leaves one that passes, one unit shorter; a job it finishes is in time |
| Finalisation.FeasibleFinalises | src/core/simulation.cpp:203-229 | if the check finds no miss, every pending job is completed, none cancelled and none late, in exactly the sum of the remaining times |
| GdpaProgress.NextChoice | src/schedulers/gdpa.cpp:90-143 | one iteration later GDPA makes the same choices: its schedule is what one unit of execution leaves of the last one, in whatever order the jobs are kept |
| GdpaFinalisation.GdpaEndsExactly | src/core/simulation.cpp:203-229 | under GDPA `finalise` comes to an end if and only if a task objects, or every job that `initStep` leaves pending is in the first greedy schedule or can be cancelled when it is too late |
| GdpaFinalisation.GdpaNeverEnds | src/core/simulation.cpp:203-229 | every other job stays pending in all iterations |
| GdpaFinalisation.GdpaEndsBy | src/core/simulation.cpp:203-229 | otherwise the loop is over at the latest one iteration after the last deadline |
| GdpaFinalisation.GdpaEndsWithBothFlags | src/core/simulation.cpp:203-229 | with both cancellation flags on it always comes to an end |
| GdpaFinalisation.GdpaEndsWithoutCancellations | src/core/simulation.cpp:203-229 | without deadline-miss cancellations it does if and only if the EDF check finds no miss in the jobs in deadline order |
| GdpaFinalisation.GdpaRunEndsExactly | src/core/simulation.cpp:203-229 | the exact condition for every state that a run under GDPA reaches |
| Gdpa.ByDistanceSorts | src/schedulers/gdpa.cpp:109-122 | the list by distance holds the ready jobs, each once, in the order of distance |
| Gdpa.GreedyIsMaximal | src/schedulers/gdpa.cpp:90-143 | the schedule is deadline-ordered, feasible, made of ready jobs, and adding any rejected job would make it infeasible |
| Gdpa.GdpaPlannerIsValid | src/schedulers/gdpa.cpp:90-143 | as a scheduling decision GDPA loses and doubles no job, so all results about every scheduler hold for it |
| GdpaOrder.DistanceListSorted | src/schedulers/gdpa.cpp:109-122 | jobs that arrived differently are listed by distance and then by arrival, however the pending jobs are kept |
| GdpaOrder.QueueDecides | src/schedulers/gdpa.cpp:90-143 | for a ready queue in the order of arrival the loops of `schedule` compute the decision that runs of the transition system take |
| GdpaOrder.EnqueuedInOrder | src/schedulers/gdpa.cpp:53-59 | a newly arrived job keeps the ready queue in that order |
| GdpaOrder.ErasedInOrder | src/schedulers/gdpa.cpp:151-159 | so does a job that leaves |
| Gdpa.GdpaScheduler.EnqueueJob | src/schedulers/gdpa.cpp:53-59 | the job joins the ready queue and the deadline monitor, not the schedule |
| Gdpa.GdpaScheduler.JobFinished | src/schedulers/gdpa.cpp:151-159 | exactly the job leaves the ready queue, the others keep their order |
| Gdpa.GdpaScheduler.Schedule | src/schedulers/gdpa.cpp:90-143 | the nested insertion loops build exactly the greedy schedule over the list by distance |
| Oedf.BestIsUnbeaten | src/schedulers/oedf.cpp:61-87 | the job chosen for cancellation is a candidate that no candidate up to the miss beats; nothing is chosen only if none beats the neutral value |
| Oedf.BestIsFirst | src/schedulers/oedf.cpp:61-87 | of equally good candidates the first one is chosen |
| Oedf.ErasedMeets | src/schedulers/oedf.cpp:89-97 | taking a job out of a feasible list leaves a feasible list |
| Oedf.RemovalMovesMiss | src/schedulers/oedf.cpp:89-97 | after a removal the first miss has not moved back; it is the same job exactly when the removed job was before it and had less work left than the overload |
| Oedf.ResolveConserves | src/schedulers/oedf.cpp:49-100 | kept and cancelled jobs are the original ones, after at most as many rounds as there were jobs |
| Oedf.ResolveKeepsOrder | src/schedulers/oedf.cpp:49-100 | the kept jobs are still in deadline order |
| Oedf.ResolveCancelsCandidates | src/schedulers/oedf.cpp:103-111 | only candidates are cancelled; with execution cancellations off none of them has started |
| Oedf.ResolveKeepsInTime | src/schedulers/oedf.cpp:49-100 | a job that met its deadline before still meets it, unless it is cancelled |
| Oedf.ResolvedExactly | src/schedulers/oedf.cpp:49-100 | the result is feasible if and only if every removal is of the miss itself or of a job with enough work left to make up for the overload |
| Oedf.ResolvedBeforehand | src/schedulers/oedf.cpp:49-100 | if every job is a candidate better than neutral and has at least the overload of each job behind it left to do, the result is feasible |
| Oedf.StopsInfeasible | src/schedulers/oedf.cpp:53-54 | for every value function that gives three jobs the same value: a family of schedules left infeasible although one more cancellation would do |
| Oedf.OedfPlannerIsValid | src/schedulers/oedf.cpp:49-100 | as a scheduling decision overload resolution loses and doubles no job, whatever the values |
| Oedf.OedfScheduler.SelectVictim | src/schedulers/oedf.cpp:56-87 | the search loop finds the job that the value order prescribes |
| Oedf.OedfScheduler.Schedule | src/schedulers/oedf.cpp:49-100 | the loop comes to an end; schedule and cancelled jobs are those of the rounds, and the scheduler's lists stay consistent |
| Utility.UAWindow.At | src/utility/uawindow.cpp:73-75 | the utility added so many additions ago, offsets beyond the window starting over |
| Utility.UAWindow.Oldest | src/utility/uawindow.cpp:83-85 | the oldest utility of the window |
| Utility.UAWindow.AddHook | src/utility/uawindow.cpp:64-70 | the circular buffer stays the window of the history, which grows by the utility |
| Utility.UAWMK.AddUtility | src/utility/uawmk.cpp:85-89 | the running sum stays that of the window |
| Utility.UAWMK.GetCurrentUtility | src/utility/uawmk.cpp:56-60 | the window's sum divided by m |
| Utility.UAWMK.PredictUtility | src/utility/uawmk.cpp:63-69 | the utility there would be after adding the value |
| Utility.EventsRecorded | src/core/task.cpp:141-169 | no utility exceeds the outcome recorded with it, and the last k are the same if and only if no completion among the last k events was late |
| Utility.WindowsAgree | src/core/task.cpp:141-169 | after any events the utilities in the window are at most the monitor's outcomes, and equal to them if and only if no completion among the last k events was late |
| TaskEvents.AlwaysRecorded | src/core/task.cpp:141-169 | at any time of any run a task's outcomes and utilities are those of all completions and cancellations reported to it, in their order, and its counters are the numbers of completions, late completions, cancellations and cancellations of started jobs |
| TaskEvents.RunWindowsAgree | src/core/task.cpp:141-169 | so at any time of any run the utility window equals the monitor's outcomes if and only if none of the task's last k events was a late completion |
| TaskEvents.UtilityCounts | src/utility/uawmk.cpp:56-60 | the utility is the number of timely completions among the last k events, missing events counting as such, over m |
| Utility.UtilityShowsFirm | src/utility/uawmk.cpp:56-60 | a utility of at least 1 means the constraint holds; when no completion among the last k was late, also the other way round |
| Utility.UtilityIsShare | src/utility/uawmk.cpp:56-60 | when no completion among the last k was late, the utility is the window's number of successes over m |
| Mku.CandidatesAreSafe | src/schedulers/mkuedf.cpp:52-63 | every candidate can fail without violating its task's constraint; when no completion among the last k-1 was late, the candidates are exactly the jobs that may be cancelled and can fail |
| Mku.MkuGivesUpBest | src/schedulers/mkuedf.cpp:52-63 | when no recent completion was late, MKU gives up a job exactly if one up to the first miss may be given up, and then the first of those whose task would keep the largest share of its required successes |
| Mku.MkuKeepsConstraints | src/schedulers/mkuedf.cpp:52-63 | whenever MKU resolves an overload with at most one job per task pending, no cancellation hook reports a violation |
| Mku.MkuNeverRefused | src/schedulers/mkuedf.cpp:52-63 | with both flags on and deadlines at most the periods, at no time of any run a hook objects to a job that MKU gives up |
| Mku.MkuStopsInInitStep | src/core/simulation.cpp:254-272 | so such a run can be stopped only by a job that `initStep` cancels |
| Mku.MkuStopsInfeasible | src/schedulers/oedf.cpp:53-54 | MKU leaves a schedule of three fresh (1,2)-firm tasks infeasible although it could safely cancel one job more |
| Mku.DmuNeverCancels | src/schedulers/dbpedf.cpp:51-59 | DMU decides what plain EDF does |
| Mku.GmuaCancelsUnitJobs | src/schedulers/gmuamk.cpp:54-61 | GMUA-MK gives up only jobs of execution time 1 |
| Mku.GmuaGivesUpFirst | src/schedulers/gmuamk.cpp:54-61 | GMUA-MK gives up the first job up to the first miss that is one time unit long and would be in time, and none if there is no such job |
| MkStates.WindowHasCode | src/mkeval/gstsimulation.cpp:129-138 | every window of k bits with at least m ones is counted |
| MkStates.CodeHasWindow | src/mkeval/gstsimulation.cpp:129-138 | nothing else is counted |
| MkStates.CodeCount | src/mkeval/gstsimulation.cpp:134-137 | there are C(k,m) + ... + C(k,k) windows of k bits with at least m ones |
| MkStates.JointStateCount | src/mkeval/gstsimulation.cpp:121-141 | the multiplicator is the number of joint states in which every constraint holds |
| GstRuns.AcceptedRunIsFirm | src/taskmodels/mktask.cpp:142-149 | under every scheduler a run in which no hook objects ends with every constraint satisfied |
| GstRuns.JointStateIsWindows | src/mkeval/gstsimulation.cpp:158-170 | equal recorded states mean equal windows of all tasks |
| GstSimulations.ReducedStateIsWindows | src/mkeval/gstsimulation.cpp:173-186 | equal reduced states mean that all windows are equal but for their oldest entries |
| GstSimulations.InitData | src/mkeval/gstsimulation.cpp:121-141 | the least common multiple of the periods, and exactly the number of joint states in which every constraint holds |
| GstSimulations.TrailBound | src/mkeval/gstsimulation.cpp:77-118 | under every scheduler, states that have not recurred are at most as many as the multiplicator, from when every window shows outcomes of jobs or started from a safe state |
| GstSimulations.RecursOnceSettled | src/mkeval/gstsimulation.cpp:77-118 | from then on a run without refusals comes back to a joint state within as many hyperperiods |
| GstSimulations.RecursInTime | src/mkeval/gstsimulation.cpp:77-118 | under every scheduler, if the m newest outcomes of each initial state are successes, that is so from the start |
| GstSimulations.GstSimulation.constructor | src/mkeval/gstsimulation.cpp:43-59 | nothing is recorded yet, and the bound is set |
| GstSimulations.GstSimulation.RecordState | src/mkeval/gstsimulation.cpp:144-155 | the current states of all monitors are appended |
| GstSimulations.GstSimulation.CheckState | src/mkeval/gstsimulation.cpp:158-170 | true exactly when the current joint state was recorded before |
| GstSimulations.GstSimulation.CheckReducedState | src/mkeval/gstsimulation.cpp:173-186 | the same for the reduced states |
| GstSimulations.GstSimulation.EndPeriod | src/mkeval/gstsimulation.cpp:93-114 | the search goes on exactly as long as no task objects, no state recurs and the guard's bound is not exceeded; what is reported about reduced states is right |
| GstSimulations.GstSimulation.Simulate | src/mkeval/gstsimulation.cpp:77-118 | the loop ends; the verdict is that of the run over the simulated hyperperiods; success comes with a recurring joint state or is the guard's, and never the guard's if the m newest outcomes of each initial state are successes; a recurring reduced state is reported exactly if there was one, with the first hyperperiod and time at which it was seen |
| GstSimulations.TestSchedulability | src/mkeval/gstsimulation.cpp:43-118 | a newly set up simulation is decided: construction, the bound and the search together give the verdict |
| GstLimits.RecursFromAnyState | src/mkeval/gstsimulation.cpp:77-118 | with both flags on and deadlines at most the periods a run without refusals recurs from every initial state: within the multiplicator counted from when every task has k outcomes, for offsets 0 the longest window plus one |
| GstLimits.RecursAfterAWindow | src/mkeval/gstsimulation.cpp:158-170 | a (k,k)-firm task that starts from k failures and always succeeds comes back to a state after k+1 hyperperiods and not before |
| GstLimits.SearchEndsEarly | src/mkeval/gstsimulation.cpp:108-113 | for k of at least 2 every decided search for that task is ended by the guard, after 2 > 1 hyperperiods and without a recurring state |
| Unranking.Absorption | src/tseval/dependencymatrix.cpp:129-134 | k*C(n,k) = n*C(n-1,k-1): each division of the multiplicative formula is exact |
| Unranking.MultiplicativeBinomial | src/tseval/dependencymatrix.cpp:124-138 | for 2 <= k < n the loop gives C(n,k) if and only if k*C(n,k) fits 64 bits, and less than C(n,k) otherwise; for all other k it gives C(n,k) |
| Unranking.MissedCoefficient | src/tseval/dependencymatrix.cpp:124-138 | for 31 of 63 columns, within the limit of 64, the coefficient fits 64 bits and the loop gives less |
| Unranking.UnrankThenRank | src/tseval/dependencymatrix.cpp:141-147 | assignment number c is a k-element subset whose number is c |
| Unranking.RankThenUnrank | src/tseval/dependencymatrix.cpp:141-147 | every k-element subset has a number, which stands for it |
| Unranking.AssignmentsAreABijection | src/tseval/dependencymatrix.cpp:141-147 | the numbers below C(n,k) and the k-element subsets of n columns correspond one to one |
| Unranking.AssignmentsInOrder | src/tseval/dependencymatrix.cpp:141-147 | the assignments are numbered in lexicographic order, lower columns first |
| Unranking.FillBuckets | src/tseval/dependencymatrix.cpp:150-176 | either the subset is found and exactly its columns are added, or the bucket is restored and ctr lowered by C(n-offset,k) |
| Unranking.GetAssignment | src/tseval/dependencymatrix.cpp:141-147 | the subset with the given number |
| MtRunner.KeepsItem | src/utils/mtrunner.h:99-132 | a step of any thread moves items between pool, workers and results without losing or doubling one |
| MtRunner.KeepsSomeoneAwake | src/utils/mtrunner.h:99-111 | no wake-up is lost: with work in the pool some worker is awake |
| MtRunner.AlwaysInvariant | src/utils/mtrunner.h:77-179 | in every interleaving, spurious wake-ups included, items are conserved, no thread aborts and no wake-up is lost |
| MtRunner.ReturnedState | src/utils/mtrunner.h:77-94 | when `run` returns each item was processed exactly once if there is a worker, the results before the first NULL were aggregated in order, and these are all if and only if no result followed a NULL |
| MtLosses.RunToEnd | src/utils/mtrunner.h:77-179 | from every state that keeps the invariant some run reaches the end |
| MtLosses.LoseLater | src/utils/mtrunner.h:176-182 | with a worker, whenever an item gives NULL and a later one does not, some complete run loses a result |
| MtLosses.LoseEarlier | src/utils/mtrunner.h:99-132 | with two workers also whenever an earlier one does not |
| MtLosses.NothingLostExactly | src/utils/mtrunner.h:77-182 | no complete run loses a result if and only if all items give NULL, or there is a worker and none does, or there is one worker and those that do are the last ones |
| MtLosses.AlwaysInOrder | src/utils/mtrunner.h:99-132 | with one worker results come in the order in which items were generated |
| MtRunner.NeverStuck | src/utils/mtrunner.h:77-179 | until `run` has returned some thread can take a step without a spurious wake-up |
| MtRunner.RunsEnd | src/utils/mtrunner.h:77-179 | the number of steps is bounded but for spurious wake-ups, each of which costs two |

## Left out

* XML reading and writing, loggers, key-value files, singletons, the main
  programs with their options, and all printing of statistics.
* Random task-set, period and dependency-matrix generation, `checkColumnSums`
  and the rotation values (spins are arbitrary in every result).
* `UAExp`, `UAMean`, `UAWMean`, `UANone`, utility calculators other than the firm
  one, and the value functions of BEEDF, DVDEDF, HCEDF and PHCEDF; `Oedf.dfy` takes
  any value function and any comparison.
* The natural-execution FPP scheduler, the GDPAS scheduler with its bitmaps (the
  results about every scheduler leave its decisions open), the dummy scheduler,
  sporadic tasks, execution-interference estimates.
* Overflow: counters and times are unbounded integers. Only the two binomial
  routines are modelled with their 64-bit wrap-around.
* `double` arithmetic: the ceilings of the sufficient test and of the
  response-time iteration are exact. Rounding in the test could only count too
  much, never too little; utilities are exact reals.
* Statistics that influence nothing are stated for single calls, not for runs:
  preemption counters, lost execution time, idle and cancellation steps. `_lastValue`,
  the utility total and mean are left out.
* Tasks whose execution time exceeds their deadline, so that every job of theirs is
  too late from the start.
* Exit conditions other than the one for refused cancellations: the
  list-dispatch schedulers never return an error.
* What a DbpTask's constructor does with the state it is given: it passes it on as
  a spin, so tasks made that way start from all successes. `TaskSpec.initial` is
  the state a monitor really starts from.
* Memory management. Jobs have identities; a finished or cancelled job is simply
  in no list that matters (finished late jobs stay in `execMissJobs`, as in the
  program).
* The `Simulation` object runs EDF, FPP and the overload-resolving schedulers; GDPA
  and other schedulers occur in runs of the transition system only. GDPA's
  distances are an arbitrary function of the task, because `Task::getDistance` is
  not virtual and the call does not reach `MkTask`.
* Tasks with deadlines beyond their periods, or runs without both flags, can have
  several jobs of one task pending; the results that need at most one say so.
* The patterns are not claimed to repeat in the feasibility period, which takes
  the least common multiple of periods and window lengths, not of their products.
* A recurring joint (m,k)-state is not claimed to be a recurring state of the
  whole simulation: jobs can be pending at the end of a hyperperiod.
- GstSimulations.GstSimulation.Simulate: is about tasks whose hooks report the window state (plain, distance-based and relaxed-pattern tasks, the ones the program uses it for). The program's value-based utilisation figures are not computed.
- Unranking.FillBuckets: rows are sets of columns, not 64-bit masks, and the counter is unbounded, so columns beyond 63 and numbers beyond 2^31 are not excluded.
- MtRunner.AlwaysInvariant: a step is everything a thread does while it holds one lock; the lock itself and memory ordering are not modelled, nor are the functions passed in, which run between steps.
- TmsMath.CalculateGcd: times are not negative here.
