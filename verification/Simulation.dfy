/**
  The simulation loop (src/core/simulation.cpp) over a list-dispatch scheduler,
  with or without overload resolution, and the tasks, proved to follow Machine.dfy step by step.
 */
module Simulations {
  import opened Machine
  import opened MachineInvariants
  import opened Jobs
  import opened AldScheduling
  import opened Tasks
  import opened CancellationOrder
  import opened Oedf
  import Utility

  /** The exit conditions of `run` that the list-dispatch schedulers can produce. */
  const EC_CANCEL: nat := 0x4

  datatype RunResult = Ended(ec: nat) | AlreadyFinalised

  ghost function TaskViews(tasks: seq<Task>): (r: seq<TaskState>)
    reads Footprints(tasks)
    ensures |r| == |tasks|
    ensures forall i :: 0 <= i < |tasks| ==> r[i] == tasks[i].View()
  {
    seq(|tasks|, i requires 0 <= i < |tasks| reads Footprints(tasks) => tasks[i].View())
  }

  function Specs(tasks: seq<Task>): (r: seq<TaskSpec>)
    ensures |r| == |tasks|
  {
    seq(|tasks|, i requires 0 <= i < |tasks| => tasks[i].spec)
  }

  ghost function Footprints(tasks: seq<Task>): set<object> {
    (set i | 0 <= i < |tasks| :: tasks[i] as object) + (set i, o | 0 <= i < |tasks| && o in tasks[i].Footprint() :: o)
  }

  /** Every task is valid, knows its position, and shares no object with another task. */
  ghost predicate ValidTasks(tasks: seq<Task>)
    reads Footprints(tasks)
  {
    && (forall i :: 0 <= i < |tasks| ==> tasks[i].Valid() && tasks[i].index == i)
    && (forall i, j :: 0 <= i < j < |tasks| ==> tasks[i].Footprint() !! tasks[j].Footprint())
  }

  /** A scheduler and its jobs share nothing with the tasks. */
  lemma Apart(tasks: seq<Task>, scheduler: AldScheduler, jobs: seq<Job>)
    requires ValidTasks(tasks)
    ensures scheduler !in Footprints(tasks) && scheduler.dlmon !in Footprints(tasks)
    ensures forall j :: j in jobs ==> j !in Footprints(tasks)
  {
    forall i, o | 0 <= i < |tasks| && o in tasks[i].Footprint()
      ensures o != scheduler && o != scheduler.dlmon && forall j :: j in jobs ==> j != o
    {
      OwnObjects(tasks[i], o);
    }
  }

  /** What belongs to a task is a task, a monitor, an aggregator or an array, but no part of the simulation around it. */
  lemma OwnObjects(task: Task, o: object)
    requires task.Valid() && o in task.Footprint()
    ensures || o == task
            || (task.monitor != null && (o == task.monitor || o == task.monitor.vals))
            || (task.ua != null && (o == task.ua || o == task.ua.window || o == task.ua.window.values))
  {
    hide ValidSpec;
  }

  /** Everything the simulation relies on in a scheduler that it does not touch. */
  ghost function SchedulerState(scheduler: AldScheduler, time: int): (bool, seq<JobV>, seq<Job>)
    reads scheduler, scheduler.dlmon, scheduler.mySchedule, scheduler.dlmon.jobs
  {
    (scheduler.Valid(time), Views(scheduler.mySchedule), scheduler.mySchedule)
  }

  lemma SchedulerStateIs(scheduler: AldScheduler, time: int)
    ensures SchedulerState(scheduler, time) == (scheduler.Valid(time), Views(scheduler.mySchedule), scheduler.mySchedule)
  {
  }

  lemma Allocated(tasks: seq<Task>)
    ensures forall o :: o in Footprints(tasks) ==> allocated(o)
  {
  }

  lemma TaskIsOwn(tasks: seq<Task>, i: nat)
    requires ValidTasks(tasks) && i < |tasks|
    ensures tasks[i] in tasks[i].Footprint() && tasks[i] in Footprints(tasks)
  {
    assert tasks[i].Valid();
  }

  lemma PredictedAt(tasks: seq<Task>, i: nat)
    requires ValidTasks(tasks) && i < |tasks|
    ensures tasks[i].Valid()
    ensures var task := tasks[i];
            Predicted(Specs(tasks), TaskViews(tasks))[i]
            == if task.spec.model.Periodic? then 0.0
               else Utility.UtilityAfter(task.spec.model.m, task.spec.model.k, task.View().utilities + [0.0])
  {
    hide Utility.UtilityAfter;
  }

  lemma PartOfFootprints(tasks: seq<Task>, i: nat)
    requires i < |tasks|
    ensures tasks[i].Footprint() <= Footprints(tasks)
  {
  }

  lemma FrontView(s: seq<Job>)
    ensures s != [] ==> Views(s)[0] == s[0].View()
  {
  }

  // ----- One task at a time -----

  lemma TaskApart(tasks: seq<Task>, i: nat)
    requires ValidTasks(tasks) && i < |tasks|
    ensures forall x :: 0 <= x < |tasks| && x != i ==> tasks[i] !in tasks[x].Footprint() && tasks[x] != tasks[i]
  {
    assert tasks[i] in tasks[i].Footprint();
    forall x | 0 <= x < |tasks| && x != i
      ensures tasks[i] !in tasks[x].Footprint() && tasks[x] != tasks[i]
    {
      assert tasks[x].Footprint() !! tasks[i].Footprint();
      assert tasks[x] in tasks[x].Footprint();
    }
  }

  method ReportCancellation(tasks: seq<Task>, job: Job, ghost jobs: seq<Job>) returns (ok: bool)
    requires ValidTasks(tasks) && job.task < |tasks|
    modifies tasks[job.task].Footprint()
    ensures ValidTasks(tasks)
    ensures Views(jobs) == old(Views(jobs))
    ensures var (i, before) := (job.task, old(TaskViews(tasks)));
            && TaskViews(tasks) == before[i := CancelledJob(before[i], job.View())]
            && (ok <==> CancelHook(Specs(tasks)[i], TaskViews(tasks)[i], job.View()))
  {
    hide CancelledJob, CancelHook;
    ok := tasks[job.task].CancelJob(job);
    forall i | 0 <= i < |tasks| && i != job.task
      ensures tasks[i].Valid() && tasks[i].View() == old(tasks[i].View())
    {
      Untouched(tasks[i]);
    }
  }

  method ReportCompletion(tasks: seq<Task>, job: Job, now: int)
    requires ValidTasks(tasks) && job.task < |tasks|
    modifies tasks[job.task].Footprint()
    ensures ValidTasks(tasks)
    ensures var (i, before) := (job.task, old(TaskViews(tasks)));
            TaskViews(tasks) == before[i := Completed(before[i], job.View(), now)]
  {
    hide Completed;
    tasks[job.task].CompleteJob(job, now);
    forall i | 0 <= i < |tasks| && i != job.task
      ensures tasks[i].Valid() && tasks[i].View() == old(tasks[i].View())
    {
      Untouched(tasks[i]);
    }
  }

  method DeliverJob(tasks: seq<Task>, job: Job, now: int)
    requires ValidTasks(tasks) && job.task < |tasks|
    modifies Footprints(tasks)
    ensures ValidTasks(tasks)
    ensures var (i, before) := (job.task, old(TaskViews(tasks)));
            TaskViews(tasks) == before[i := Completed(before[i], old(job.View()), now)]
  {
    PartOfFootprints(tasks, job.task);
    JobApart(tasks, job);
    hide ValidTasks, TaskViews, Completed, Footprints;
    ReportCompletion(tasks, job, now);
  }

  lemma JobApart(tasks: seq<Task>, job: Job)
    requires ValidTasks(tasks) && job.task < |tasks|
    ensures job !in tasks[job.task].Footprint()
  {
    tasks[job.task].NotOwned(job);
  }

  method SpawnTask(tasks: seq<Task>, i: nat, now: int) returns (job: Job?)
    requires ValidTasks(tasks) && i < |tasks|
    modifies tasks[i]
    ensures ValidTasks(tasks)
    ensures job != null <==> now >= old(TaskViews(tasks))[i].next
    ensures job == null ==> TaskViews(tasks) == old(TaskViews(tasks))
    ensures job != null ==>
              var before := old(TaskViews(tasks));
              && fresh(job) && job.Valid()
              && ValidSpec(Specs(tasks)[i])
              && job.View() == Spawn(Specs(tasks)[i], i, before[i], now)
              && TaskViews(tasks) == before[i := Activated(Specs(tasks)[i], before[i])]
  {
    TaskApart(tasks, i);
    TasksValid(tasks);
    hide ValidTasks, Activated, Spawn, ValidSpec;
    job := SpawnOne(tasks, i, now);
    ValidAgain(tasks);
  }

  method SpawnOne(tasks: seq<Task>, i: nat, now: int) returns (job: Job?)
    requires EachValid(tasks) && i < |tasks| && tasks[i].index == i
    requires forall x :: 0 <= x < |tasks| && x != i ==> tasks[i] !in tasks[x].Footprint() && tasks[x] != tasks[i]
    modifies tasks[i]
    ensures EachValid(tasks)
    ensures job != null <==> now >= old(TaskViews(tasks))[i].next
    ensures job == null ==> TaskViews(tasks) == old(TaskViews(tasks))
    ensures job != null ==>
              var before := old(TaskViews(tasks));
              && fresh(job) && job.Valid()
              && ValidSpec(Specs(tasks)[i])
              && job.View() == Spawn(Specs(tasks)[i], i, before[i], now)
              && TaskViews(tasks) == before[i := Activated(Specs(tasks)[i], before[i])]
  {
    ghost var before := TaskViews(tasks);
    hide TaskViews, Activated, Spawn, ValidSpec, ValidTasks, Footprints;
    job := tasks[i].SpawnJob(now);
    forall x | 0 <= x < |tasks| && x != i
      ensures tasks[x].Valid() && tasks[x].View() == before[x]
    {
      Untouched(tasks[x]);
    }
    UpdatedViews(tasks, before, i);
  }

  lemma UpdatedViews(tasks: seq<Task>, before: seq<TaskState>, i: nat)
    requires i < |tasks| == |before|
    requires forall x :: 0 <= x < |tasks| && x != i ==> tasks[x].View() == before[x]
    ensures TaskViews(tasks) == before[i := tasks[i].View()]
  {
  }

  method StartTasks(tasks: seq<Task>)
    requires ValidTasks(tasks) && forall i :: 0 <= i < |tasks| ==> tasks[i].outcomes == [] && tasks[i].utilities == []
    modifies Footprints(tasks)
    ensures ValidTasks(tasks)
    ensures forall i :: 0 <= i < |tasks| ==> TaskViews(tasks)[i] == TaskState(tasks[i].spec.offset, 0, 0, 0, 0, 0, [], [])
  {
    for i := 0 to |tasks|
      invariant ValidTasks(tasks)
      invariant forall x :: 0 <= x < |tasks| ==> tasks[x].outcomes == [] && tasks[x].utilities == []
      invariant forall x :: 0 <= x < i ==> tasks[x].View() == TaskState(tasks[x].spec.offset, 0, 0, 0, 0, 0, [], [])
    {
      TaskIsOwn(tasks, i);
      StartTask(tasks, i);
    }
  }

  method StartTask(tasks: seq<Task>, i: nat)
    requires ValidTasks(tasks) && i < |tasks| && forall x :: 0 <= x < |tasks| ==> tasks[x].outcomes == [] && tasks[x].utilities == []
    modifies tasks[i]
    ensures ValidTasks(tasks)
    ensures forall x :: 0 <= x < |tasks| ==> tasks[x].outcomes == [] && tasks[x].utilities == []
    ensures tasks[i].View() == TaskState(tasks[i].spec.offset, 0, 0, 0, 0, 0, [], [])
    ensures forall x :: 0 <= x < |tasks| && x != i ==> tasks[x].View() == old(tasks[x].View())
  {
    TaskApart(tasks, i);
    TasksValid(tasks);
    hide ValidTasks, Task.Valid, Task.View;
    StartOne(tasks, i);
    ValidAgain(tasks);
  }

  ghost predicate EachValid(tasks: seq<Task>)
    reads Footprints(tasks)
  {
    forall x :: 0 <= x < |tasks| ==> tasks[x].Valid()
  }

  /** The part of ValidTasks that no method changes. */
  ghost predicate Placed(tasks: seq<Task>) {
    && (forall i :: 0 <= i < |tasks| ==> tasks[i].index == i)
    && (forall i, j :: 0 <= i < j < |tasks| ==> tasks[i].Footprint() !! tasks[j].Footprint())
  }

  lemma TasksValid(tasks: seq<Task>)
    requires ValidTasks(tasks)
    ensures EachValid(tasks) && Placed(tasks) && forall i :: 0 <= i < |tasks| ==> tasks[i].index == i
  {
  }

  lemma ValidAgain(tasks: seq<Task>)
    requires EachValid(tasks) && Placed(tasks)
    ensures ValidTasks(tasks)
  {
  }

  method StartOne(tasks: seq<Task>, i: nat)
    requires EachValid(tasks) && i < |tasks| && forall x :: 0 <= x < |tasks| ==> tasks[x].outcomes == [] && tasks[x].utilities == []
    requires forall x :: 0 <= x < |tasks| && x != i ==> tasks[i] !in tasks[x].Footprint() && tasks[x] != tasks[i]
    modifies tasks[i]
    ensures EachValid(tasks) && forall x :: 0 <= x < |tasks| ==> tasks[x].outcomes == [] && tasks[x].utilities == []
    ensures tasks[i].View() == TaskState(tasks[i].spec.offset, 0, 0, 0, 0, 0, [], [])
    ensures forall x :: 0 <= x < |tasks| && x != i ==> tasks[x].View() == old(tasks[x].View())
  {
    hide TaskViews, Footprints, ValidTasks, ValidSpec;
    tasks[i].Start(0);
    forall x | 0 <= x < |tasks|
      ensures tasks[x].Valid() && tasks[x].outcomes == [] && tasks[x].utilities == []
      ensures x != i ==> tasks[x].View() == old(tasks[x].View())
    {
      if x != i {
        Untouched(tasks[x]);
      }
    }
  }

  twostate lemma Untouched(task: Task)
    requires unchanged(task) && unchanged(task.Footprint())
    requires old(task.Valid())
    ensures task.Valid() && task.View() == old(task.View())
    ensures task.outcomes == old(task.outcomes) && task.utilities == old(task.utilities)
  {
  }

  /** Starting the tasks does not touch the scheduler. */
  method StartAll(tasks: seq<Task>, scheduler: AldScheduler)
    requires ValidTasks(tasks) && forall i :: 0 <= i < |tasks| ==> tasks[i].outcomes == [] && tasks[i].utilities == []
    requires scheduler.Valid(0)
    modifies Footprints(tasks)
    ensures ValidTasks(tasks) && scheduler.Valid(0)
    ensures scheduler.mySchedule == old(scheduler.mySchedule)
    ensures forall i :: 0 <= i < |tasks| ==> TaskViews(tasks)[i] == TaskState(tasks[i].spec.offset, 0, 0, 0, 0, 0, [], [])
  {
    hide ValidTasks, TaskViews, AldScheduler.Valid, Footprints;
    Apart(tasks, scheduler, scheduler.mySchedule + scheduler.dlmon.jobs);
    StartTasks(tasks);
  }

  /** Started tasks are in the state in which the system's runs begin. */
  lemma TasksStarted(tasks: seq<Task>, sys: System)
    requires ValidTasks(tasks) && sys.specs == Specs(tasks) && ValidPlanner(sys.planner)
    requires forall i :: 0 <= i < |tasks| ==> TaskViews(tasks)[i] == TaskState(tasks[i].spec.offset, 0, 0, 0, 0, 0, [], [])
    ensures ValidSystem(sys)
    ensures TaskViews(tasks) == Initial(sys).tasks
  {
    forall i | 0 <= i < |sys.specs|
      ensures ValidSpec(sys.specs[i])
    {
      assert tasks[i].Valid();
    }
  }

  /** Reports cancelled jobs to their tasks; false when a task refuses. */
  method PerformCancellations(tasks: seq<Task>, cancelled: seq<Job>) returns (rv: bool)
    requires ValidTasks(tasks)
    requires Owned(Views(cancelled), |tasks|)
    modifies Footprints(tasks)
    ensures ValidTasks(tasks)
    ensures (TaskViews(tasks), rv) == CancelAll(Specs(tasks), old(TaskViews(tasks)), old(Views(cancelled)))
  {
    hide ValidTasks, TaskViews, Specs, Views, CancelAll, CancelledJob, CancelHook;
    rv := true;
    ghost var (specs, views) := (Specs(tasks), Views(cancelled));
    ghost var target := CancelAll(specs, TaskViews(tasks), views);
    assert views[0..] == views;
    for i := 0 to |cancelled|
      invariant ValidTasks(tasks) && Views(cancelled) == views
      invariant Owned(views[i..], |tasks|)
      invariant var (final, ok) := CancelAll(specs, TaskViews(tasks), views[i..]);
                final == target.0 && ((rv && ok) <==> target.1)
    {
      CancelFirst(specs, TaskViews(tasks), views, i);
      var ok := ReportCancellation(tasks, cancelled[i], cancelled);
      rv := rv && ok;
    }
    CancelNone(specs, TaskViews(tasks), views);
  }

  lemma CancelFirst(specs: seq<TaskSpec>, tasks: seq<TaskState>, s: seq<JobV>, i: nat)
    requires |specs| == |tasks| && i < |s| && Owned(s[i..], |specs|)
    ensures s[i].task < |specs| && Owned(s[i + 1..], |specs|)
    ensures var after := CancelledJob(tasks[s[i].task], s[i]);
            var (rest, ok) := CancelAll(specs, tasks[s[i].task := after], s[i + 1..]);
            CancelAll(specs, tasks, s[i..]) == (rest, CancelHook(specs[s[i].task], after, s[i]) && ok)
  {
    assert s[i..][0] in s[i..];
    assert s[i..][1..] == s[i + 1..];
  }

  lemma CancelNone(specs: seq<TaskSpec>, tasks: seq<TaskState>, s: seq<JobV>)
    requires |specs| == |tasks|
    ensures CancelAll(specs, tasks, s[|s|..]) == (tasks, true)
  {
  }

  /** Cancelling in the monitor's order is cancelling in the order of the schedule. */
  lemma InitStepView(sys: System, st: State, tasks: seq<TaskState>, cancelled: seq<JobV>)
    requires ValidState(sys, st)
    requires multiset(cancelled) == multiset(Doomed(sys.config, st.now, st.sched))
    ensures Owned(cancelled, |sys.specs|)
    ensures var (tasks, ok) := CancelAll(sys.specs, st.tasks, cancelled);
            InitStep(sys, st) == (State(st.now, Survivors(sys.config, st.now, st.sched), tasks), ok)
  {
    SurvivorsAndDoomed(sys.config, st.now, st.sched);
    var doomed := Doomed(sys.config, st.now, st.sched);
    forall j | j in cancelled
      ensures j in doomed
    {
      assert j in multiset(doomed);
    }
    hide CancelAll, Doomed, Survivors;
    CancelPermutation(sys.specs, st.tasks, cancelled, doomed);
  }

  class Simulation {
    const tasks: seq<Task>
    const scheduler: AldScheduler
    /** The overload resolution of the scheduler, if it has one. */
    const oedf: OedfScheduler?
    const exitOnCancel: bool
    var now: int
    var finalised: bool
    var cancelSteps: nat
    var idleSteps: nat

    /** What the scheduler's `schedule` decides. */
    ghost function Plan(): Planner {
      if oedf == null then NoPlan else OedfPlanner(Specs(tasks), scheduler.config, oedf.valuation)
    }

    ghost function Sys(): System {
      System(Specs(tasks), scheduler.config, scheduler.policy, exitOnCancel, Plan())
    }

    lemma PlanIsValid()
      ensures ValidPlanner(Plan()) && NeverIdles(Plan())
    {
      if oedf != null {
        OedfPlannerIsValid(Specs(tasks), scheduler.config, oedf.valuation);
      }
    }

    ghost function View(): State
      reads this, scheduler, scheduler.mySchedule, Footprints(tasks)
    {
      State(now, Views(scheduler.mySchedule), TaskViews(tasks))
    }

    /** The simulation is consistent, the scheduler being ready for a step at `time`. */
    ghost predicate ValidAt(time: int)
      reads this, scheduler, scheduler.dlmon, scheduler.mySchedule, scheduler.dlmon.jobs, Footprints(tasks)
    {
      && ValidTasks(tasks)
      && scheduler.Valid(time)
      && ValidSystem(Sys())
      && ValidState(Sys(), View())
      && (oedf != null ==> oedf.base == scheduler)
    }

    ghost predicate Valid()
      reads this, scheduler, scheduler.dlmon, scheduler.mySchedule, scheduler.dlmon.jobs, Footprints(tasks)
    {
      ValidAt(now)
    }

    constructor (tasks: seq<Task>, scheduler: AldScheduler, oedf: OedfScheduler?, exitOnCancel: bool)
      requires ValidTasks(tasks) && (forall i :: 0 <= i < |tasks| ==> tasks[i].outcomes == [] && tasks[i].utilities == [])
      requires scheduler.Valid(0) && scheduler.mySchedule == []
      requires oedf != null ==> oedf.base == scheduler
      modifies Footprints(tasks)
      ensures this.tasks == tasks && this.scheduler == scheduler && this.oedf == oedf && this.exitOnCancel == exitOnCancel
      ensures Valid() && !finalised
      ensures View() == Initial(Sys())
    {
      Allocated(tasks);
      hide ValidTasks, AldScheduler.Valid, Footprints, Initial, Views, TaskViews, Plan;
      this.tasks, this.scheduler, this.oedf, this.exitOnCancel := tasks, scheduler, oedf, exitOnCancel;
      now, finalised, cancelSteps, idleSteps := 0, false, 0, 0;
      new;
      StartRun();
    }

    method StartRun()
      requires ValidTasks(tasks) && forall i :: 0 <= i < |tasks| ==> tasks[i].outcomes == [] && tasks[i].utilities == []
      requires scheduler.Valid(0) && scheduler.mySchedule == [] && now == 0 && (oedf != null ==> oedf.base == scheduler)
      modifies Footprints(tasks)
      ensures Valid() && View() == Initial(Sys())
      ensures finalised == old(finalised)
    {
      SelfApart();
      PlanIsValid();
      hide ValidTasks, TaskViews, Specs, AldScheduler.Valid, Initial, ValidSystem, Valid, View, Footprints, Plan;
      StartAll(tasks, scheduler);
      TasksStarted(tasks, Sys());
      Started();
    }

    lemma Started()
      requires ValidTasks(tasks) && scheduler.Valid(0) && scheduler.mySchedule == [] && now == 0
      requires oedf != null ==> oedf.base == scheduler
      requires ValidSystem(Sys()) && TaskViews(tasks) == Initial(Sys()).tasks
      ensures Valid() && View() == Initial(Sys())
    {
    }

    method InitStep() returns (ec: nat)
      requires Valid()
      modifies this, scheduler, scheduler.dlmon, Footprints(tasks)
      ensures Valid() && scheduler.Checked(now)
      ensures now == old(now) && finalised == old(finalised)
      ensures forall j :: j in scheduler.mySchedule ==> j in old(scheduler.mySchedule)
      ensures View() == Machine.InitStep(Sys(), old(View())).0
      ensures ec == if !Machine.InitStep(Sys(), old(View())).1 && exitOnCancel then EC_CANCEL else 0
    {
      hide ValidTasks, TaskViews, Views, Survivors, Doomed, CancelAll, Specs, AldScheduler.Valid, AldScheduler.Checked, Plan;
      hide Machine.InitStep, ValidSystem, Footprints;
      ghost var (st, sys) := (View(), Sys());
      var cancelled := TakeDoomed();
      InitStepView(sys, st, st.tasks, Views(cancelled));
      var rv := PassOn(cancelled);
      ec := if !rv && exitOnCancel then EC_CANCEL else 0;
    }

    /** The jobs that the scheduler cancels; the tasks are not touched. */
    method TakeDoomed() returns (cancelled: seq<Job>)
      requires ValidTasks(tasks) && scheduler.Valid(now)
      modifies scheduler, scheduler.dlmon
      ensures ValidTasks(tasks) && TaskViews(tasks) == old(TaskViews(tasks))
      ensures scheduler.Valid(now) && scheduler.Checked(now)
      ensures forall j :: j in scheduler.mySchedule ==> j in old(scheduler.mySchedule)
      ensures Views(scheduler.mySchedule) == Survivors(scheduler.config, now, old(Views(scheduler.mySchedule)))
      ensures multiset(Views(cancelled)) == multiset(Doomed(scheduler.config, now, old(Views(scheduler.mySchedule))))
    {
      hide ValidTasks, TaskViews, Views, Survivors, Doomed, Specs, AldScheduler.Valid, AldScheduler.Checked, Footprints;
      Apart(tasks, scheduler, scheduler.mySchedule + scheduler.dlmon.jobs);
      Allocated(tasks);
      cancelled := scheduler.InitStep(now);
    }

    /** Hands cancelled jobs back to their tasks; the scheduler is not touched. */
    method PassOn(cancelled: seq<Job>) returns (rv: bool)
      requires ValidTasks(tasks) && scheduler.Valid(now) && scheduler.Checked(now)
      requires Owned(Views(cancelled), |tasks|)
      modifies `cancelSteps, Footprints(tasks)
      ensures ValidTasks(tasks) && scheduler.Valid(now) && scheduler.Checked(now)
      ensures scheduler.mySchedule == old(scheduler.mySchedule)
      ensures Views(scheduler.mySchedule) == old(Views(scheduler.mySchedule))
      ensures now == old(now) && finalised == old(finalised)
      ensures (TaskViews(tasks), rv) == CancelAll(Specs(tasks), old(TaskViews(tasks)), old(Views(cancelled)))
    {
      hide ValidTasks, TaskViews, Views, CancelAll, Specs, AldScheduler.Valid, AldScheduler.Checked, Plan;
      Apart(tasks, scheduler, scheduler.mySchedule + scheduler.dlmon.jobs);
      SelfApart();
      hide Footprints, Plan;
      rv := true;
      if |cancelled| > 0 {
        rv := PerformCancellations(tasks, cancelled);
        cancelSteps := cancelSteps + 1;
      } else {
        CancelNothing(Specs(tasks), TaskViews(tasks), cancelled);
      }
    }

    method ActivateTask(i: nat)
      requires Valid() && scheduler.Checked(now) && i < |tasks|
      modifies scheduler, scheduler.dlmon, tasks[i]
      ensures Valid() && scheduler.Checked(now)
      ensures now == old(now) && finalised == old(finalised)
      ensures View() == ActivateOne(Sys(), old(View()), i)
      ensures forall j :: j in scheduler.mySchedule ==> j in old(scheduler.mySchedule) || fresh(j)
    {
      hide ValidTasks, TaskViews, Views, Specs, AldScheduler.Valid, AldScheduler.Checked, Enqueue, Spawn, Activated, ValidSpec, Plan;
      Apart(tasks, scheduler, scheduler.mySchedule + scheduler.dlmon.jobs);
      ghost var (st, sys) := (View(), Sys());
      ActivationState(sys, st, i);
      var job := SpawnTask(tasks, i, now);
      if job != null {
        Admit(job);
      }
    }

    /** The scheduler takes a new job; the tasks are not touched. */
    method Admit(job: Job)
      requires ValidTasks(tasks) && scheduler.Valid(now) && scheduler.Checked(now)
      requires job.Valid() && 1 <= job.etRemain == job.executionTime && job.latestStartTime >= now
      requires job !in scheduler.mySchedule && job !in scheduler.dlmon.jobs && job !in scheduler.execMissJobs
      modifies scheduler, scheduler.dlmon
      ensures ValidTasks(tasks) && TaskViews(tasks) == old(TaskViews(tasks))
      ensures scheduler.Valid(now) && scheduler.Checked(now)
      ensures Views(scheduler.mySchedule) == Enqueue(scheduler.policy, old(Views(scheduler.mySchedule)), job.View())
      ensures forall j :: j in scheduler.mySchedule ==> j in old(scheduler.mySchedule) || j == job
    {
      hide ValidTasks, TaskViews, Views, Enqueue, Specs, AldScheduler.Valid, AldScheduler.Checked, Footprints;
      Apart(tasks, scheduler, scheduler.mySchedule + scheduler.dlmon.jobs);
      Allocated(tasks);
      scheduler.EnqueueJob(job, now);
    }

    method DoActivations()
      requires Valid() && scheduler.Checked(now)
      modifies scheduler, scheduler.dlmon, Footprints(tasks)
      ensures Valid() && scheduler.Checked(now)
      ensures now == old(now) && finalised == old(finalised)
      ensures View() == Activations(Sys(), old(View()), 0)
      ensures forall j :: j in scheduler.mySchedule ==> j in old(scheduler.mySchedule) || fresh(j)
    {
      hide ValidTasks, TaskViews, Views, Specs, AldScheduler.Valid, AldScheduler.Checked, ActivateOne, Activations, Plan;
      for i := 0 to |tasks|
        invariant now == old(now) && finalised == old(finalised)
        invariant Valid() && scheduler.Checked(now)
        invariant Activations(Sys(), View(), i) == Activations(Sys(), old(View()), 0)
        invariant forall j :: j in scheduler.mySchedule ==> j in old(scheduler.mySchedule) || fresh(j)
      {
        ActivationsFirst(Sys(), View(), i);
        TaskIsOwn(tasks, i);
        ActivateTask(i);
      }
      ActivationsDone(Sys(), View());
    }

    /** For each task the utility there would be if its next job failed. */
    method PredictAll() returns (predicted: seq<real>)
      requires ValidTasks(tasks)
      ensures predicted == Predicted(Specs(tasks), TaskViews(tasks))
    {
      hide ValidTasks, TaskViews, Predicted, Specs, Footprints, Task.Valid, Task.Footprint, Task.View, Plan, Utility.UtilityAfter;
      ghost var expected := Predicted(Specs(tasks), TaskViews(tasks));
      predicted := [];
      for i := 0 to |tasks|
        invariant ValidTasks(tasks) && expected == Predicted(Specs(tasks), TaskViews(tasks))
        invariant predicted == expected[..i]
      {
        PredictedAt(tasks, i);
        Allocated(tasks);
        var r := PredictOne(tasks[i]);
        predicted := predicted + [r];
      }
    }

    method PredictOne(task: Task) returns (r: real)
      requires task.Valid()
      ensures r == if task.spec.model.Periodic? then 0.0
                   else Utility.UtilityAfter(task.spec.model.m, task.spec.model.k, task.View().utilities + [0.0])
    {
      if task.ua == null {
        r := 0.0;
      } else {
        r := task.GetPossibleFailHistoryValue();
      }
    }

    /** `schedule`, and what follows from the jobs it gives up. */
    method PlanExecutions() returns (ec: nat)
      requires Valid() && scheduler.Checked(now)
      modifies this, scheduler, scheduler.dlmon, Footprints(tasks)
      ensures Valid() && scheduler.Checked(now)
      ensures now == old(now) && finalised == old(finalised)
      ensures forall j :: j in scheduler.mySchedule ==> j in old(scheduler.mySchedule)
      ensures View() == Schedule(Sys(), old(View())).0
      ensures ec == if !Schedule(Sys(), old(View())).1 && exitOnCancel then EC_CANCEL else 0
    {
      ghost var (st, sys) := (View(), Sys());
      ScheduleState(sys, st);
      if oedf == null {
        return 0;
      }
      PlanOfView();
      hide ValidTasks, TaskViews, Views, CancelAll, Specs, AldScheduler.Valid, AldScheduler.Checked, Footprints, Schedule, ValidSystem, Plan;
      hide OedfDecision;
      var cancelled := GiveUp();
      var rv := PassOn(cancelled);
      ec := if !rv && exitOnCancel then EC_CANCEL else 0;
    }

    lemma PlanOfView()
      requires oedf != null
      ensures Decide(Sys(), View()) == OedfDecision(Specs(tasks), scheduler.config, oedf.valuation, View())
    {
      hide OedfDecision;
    }

    /** The jobs that the overload resolution gives up; the tasks are not touched. */
    method GiveUp() returns (cancelled: seq<Job>)
      requires ValidTasks(tasks) && scheduler.Valid(now) && scheduler.Checked(now)
      requires oedf != null && oedf.base == scheduler
      modifies scheduler, scheduler.dlmon
      ensures ValidTasks(tasks) && TaskViews(tasks) == old(TaskViews(tasks))
      ensures scheduler.Valid(now) && scheduler.Checked(now)
      ensures forall j :: j in scheduler.mySchedule ==> j in old(scheduler.mySchedule)
      ensures OedfDecision(Specs(tasks), scheduler.config, oedf.valuation, old(View()))
           == Decision(Views(scheduler.mySchedule), Views(cancelled), false)
    {
      hide ValidTasks, TaskViews, Views, Specs, AldScheduler.Valid, AldScheduler.Checked, Footprints, Resolve, Predicted;
      Apart(tasks, scheduler, scheduler.mySchedule + scheduler.dlmon.jobs);
      Allocated(tasks);
      var predicted := PredictAll();
      cancelled := oedf.Schedule(now, predicted);
    }

    /** `schedule` and one time unit of execution; time itself has not moved on yet. */
    method DoExecutions() returns (ec: nat)
      requires Valid() && scheduler.Checked(now)
      modifies this, scheduler, scheduler.dlmon, scheduler.mySchedule, Footprints(tasks)
      ensures ValidAt(now + 1)
      ensures now == old(now) && finalised == old(finalised)
      ensures var (planned, ok) := Schedule(Sys(), old(View()));
              if !ok && exitOnCancel then View() == planned && ec == EC_CANCEL && Valid()
              else View() == Serve(Sys(), old(View())) && ec == 0
      ensures forall j :: j in scheduler.mySchedule ==> j in old(scheduler.mySchedule)
    {
      hide ValidAt, Valid, View, AldScheduler.Checked, Execute, Schedule, ValidSystem, Footprints, Plan;
      NeverIdle();
      ghost var pending := scheduler.mySchedule;
      ec := PlanExecutions();
      if ec != 0 {
        LaterToo();
        return;
      }
      assert forall i :: 0 <= i < |scheduler.mySchedule| ==> scheduler.mySchedule[i] in pending;
      ExecuteFirst();
    }

    /** The scheduler does not let the processor idle when there are jobs. */
    lemma NeverIdle()
      requires Valid()
      ensures ValidSystem(Sys()) && ValidState(Sys(), View())
      ensures Serve(Sys(), View()) == Execute(Sys(), Schedule(Sys(), View()).0)
    {
      PlanIsValid();
      hide Schedule, Execute, Plan;
    }

    /** What is consistent now is consistent later. */
    lemma LaterToo()
      requires Valid()
      ensures ValidAt(now + 1)
    {
    }

    /** The simulation is consistent for the next step, with these views of the tasks and of the schedule. */
    ghost predicate Shows(time: int, taskViews: seq<TaskState>, sched: seq<JobV>)
      reads this, scheduler, scheduler.dlmon, scheduler.mySchedule, scheduler.dlmon.jobs, Footprints(tasks)
    {
      && ValidTasks(tasks) && scheduler.Valid(time + 1) && now == time
      && TaskViews(tasks) == taskViews && Views(scheduler.mySchedule) == sched
    }

    /** Dispatches for one time unit. */
    method ExecuteFirst()
      requires Valid() && scheduler.Checked(now)
      modifies this, scheduler, scheduler.dlmon, scheduler.mySchedule, Footprints(tasks)
      ensures ValidAt(now + 1)
      ensures now == old(now) && finalised == old(finalised)
      ensures View() == Execute(Sys(), old(View()))
      ensures forall j :: j in scheduler.mySchedule ==> j in old(scheduler.mySchedule)
    {
      hide Valid, ValidAt, View, Shows, Specs, Executed, Completed, Execute, ValidSystem, ValidState, Footprints, Plan;
      hide AldScheduler.Valid, AldScheduler.Checked, ValidTasks;
      ghost var st := View();
      BeforeExecution(st);
      var finished, idle := DispatchFirst(st);
      CountIdle(idle, st.tasks, Executed(st.sched));
      ghost var taskViews := st.tasks;
      if finished != null {
        HandBack(finished, st.sched[0].(rem := 0), taskViews, Executed(st.sched));
        taskViews := taskViews[finished.task := Completed(taskViews[finished.task], st.sched[0].(rem := 0), now)];
      }
      ExecutionEnds(st, taskViews);
    }

    lemma BeforeExecution(st: State)
      requires Valid() && st == View()
      ensures ValidTasks(tasks) && scheduler.Valid(now) && ValidSystem(Sys()) && ValidState(Sys(), st) && st.now == now
      ensures |st.tasks| == |tasks| && (oedf != null ==> oedf.base == scheduler)
      ensures st.sched == [] || st.sched[0].rem > 1 ==> Execute(Sys(), st).tasks == st.tasks
      ensures st.sched != [] && st.sched[0].rem == 1 ==>
                var job := st.sched[0];
                job.task < |tasks| && Execute(Sys(), st).tasks == st.tasks[job.task := Completed(st.tasks[job.task], job.(rem := 0), now)]
    {
      ExecutionState(Sys(), st);
      hide Execute, Completed;
    }

    /** The parts put together. */
    lemma ExecutionEnds(st: State, taskViews: seq<TaskState>)
      requires Shows(st.now, taskViews, Executed(st.sched))
      requires ValidSystem(Sys()) && ValidState(Sys(), st)
      requires oedf != null ==> oedf.base == scheduler
      requires taskViews == Execute(Sys(), st).tasks
      ensures ValidAt(now + 1) && View() == Execute(Sys(), st)
    {
      hide Execute, AldScheduler.Valid, ValidTasks, TaskViews, Views, Executed, Footprints, ValidSystem, Plan;
      ExecutionState(Sys(), st);
    }

    /** The scheduler's part of the step; the tasks are not touched. */
    method DispatchFirst(ghost st: State) returns (finished: Job?, idle: bool)
      requires ValidTasks(tasks) && scheduler.Valid(now) && scheduler.Checked(now) && st == View()
      modifies scheduler, scheduler.dlmon, scheduler.mySchedule
      ensures Shows(st.now, st.tasks, Executed(st.sched))
      ensures forall j :: j in scheduler.mySchedule ==> j in old(scheduler.mySchedule)
      ensures if finished == null then st.sched == [] || st.sched[0].rem > 1
              else st.sched != [] && st.sched[0].rem == 1 && finished.View() == st.sched[0].(rem := 0)
    {
      Allocated(tasks);
      assert st.sched == Views(scheduler.mySchedule) && st.tasks == TaskViews(tasks) && st.now == now;
      hide ValidTasks, TaskViews, Views, View, Shows, AldScheduler.Valid, AldScheduler.Checked, Executed, Footprints, Plan;
      finished, idle := DispatchAlone();
      ShowsNow(st.tasks, Executed(st.sched));
    }

    lemma ShowsNow(taskViews: seq<TaskState>, sched: seq<JobV>)
      requires ValidTasks(tasks) && scheduler.Valid(now + 1)
      requires TaskViews(tasks) == taskViews && Views(scheduler.mySchedule) == sched
      ensures Shows(now, taskViews, sched)
    {
    }

    method DispatchAlone() returns (finished: Job?, idle: bool)
      requires ValidTasks(tasks) && scheduler.Valid(now) && scheduler.Checked(now)
      modifies scheduler, scheduler.dlmon, scheduler.mySchedule
      ensures ValidTasks(tasks) && TaskViews(tasks) == old(TaskViews(tasks)) && scheduler.Valid(now + 1)
      ensures Views(scheduler.mySchedule) == Executed(old(Views(scheduler.mySchedule)))
      ensures forall j :: j in scheduler.mySchedule ==> j in old(scheduler.mySchedule)
      ensures var before := old(Views(scheduler.mySchedule));
              if finished == null then before == [] || before[0].rem > 1
              else before != [] && before[0].rem == 1 && finished.View() == before[0].(rem := 0)
    {
      hide ValidTasks, TaskViews, Views, AldScheduler.Valid, AldScheduler.Checked, Executed, Footprints, Plan;
      Apart(tasks, scheduler, scheduler.mySchedule + scheduler.dlmon.jobs);
      FrontView(scheduler.mySchedule);
      Allocated(tasks);
      var dlMiss;
      finished, idle, dlMiss := scheduler.Dispatch(now);
    }

    method CountIdle(idle: bool, ghost taskViews: seq<TaskState>, ghost sched: seq<JobV>)
      requires Shows(now, taskViews, sched)
      modifies `idleSteps
      ensures Shows(now, taskViews, sched)
      ensures idleSteps == old(idleSteps) + if idle then 1 else 0
    {
      SelfApart();
      hide ValidTasks, TaskViews, Views, AldScheduler.Valid, Footprints, Plan;
      idleSteps := idleSteps + if idle then 1 else 0;
    }

    /** Hands a finished job back to its task; nothing but the tasks changes. */
    method HandBack(job: Job, ghost view: JobV, ghost taskViews: seq<TaskState>, ghost sched: seq<JobV>)
      requires Shows(now, taskViews, sched) && job.task < |tasks| && job.View() == view
      modifies Footprints(tasks)
      ensures now == old(now) && finalised == old(finalised) && scheduler.mySchedule == old(scheduler.mySchedule)
      ensures job.task < |taskViews| == |tasks|
      ensures Shows(now, taskViews[job.task := Completed(taskViews[job.task], view, now)], sched)
    {
      hide ValidTasks, TaskViews, Views, AldScheduler.Valid, Completed, Footprints, Plan, SchedulerState;
      SelfApart();
      Apart(tasks, scheduler, scheduler.mySchedule + scheduler.dlmon.jobs);
      Allocated(tasks);
      SchedulerStateIs(scheduler, now + 1);
      ghost var before := SchedulerState(scheduler, now + 1);
      DeliverJob(tasks, job, now);
      assert SchedulerState(scheduler, now + 1) == before;
      SchedulerStateIs(scheduler, now + 1);
    }

    /** One pass of the loop in `run`; on a refused cancellation it ends after the cancellations. */
    method RunStep() returns (ec: nat)
      requires Valid()
      modifies this, scheduler, scheduler.dlmon, scheduler.mySchedule, Footprints(tasks)
      ensures Valid() && finalised == old(finalised)
      ensures if !Accepted(Sys(), old(View())) && exitOnCancel then View() == Stopped(Sys(), old(View())) && ec == EC_CANCEL
              else View() == Step(Sys(), old(View())) && ec == 0
      ensures forall x :: 0 <= x < |scheduler.mySchedule| ==>
                            scheduler.mySchedule[x] in old(scheduler.mySchedule) || fresh(scheduler.mySchedule[x])
    {
      hide Valid, ValidAt, View, AldScheduler.Checked, Machine.InitStep, Activations, Schedule, Serve, Footprints, ValidSystem, Plan;
      StepOfView();
      ghost var pending := scheduler.mySchedule;
      ec := InitStep();
      if ec != 0 {
        return;
      }
      DoActivations();
      assert forall i :: 0 <= i < |scheduler.mySchedule| ==>
                           scheduler.mySchedule[i] in pending || fresh(scheduler.mySchedule[i]);
      ec := DoExecutions();
      if ec != 0 {
        return;
      }
      Advance();
    }

    /** Simulates `steps` time units, or fewer when a task refuses a cancellation. */
    method Run(steps: nat) returns (r: RunResult)
      requires Valid()
      modifies this, scheduler, scheduler.dlmon, scheduler.mySchedule, Footprints(tasks)
      ensures Valid() && finalised == old(finalised)
      ensures old(finalised) ==> r == AlreadyFinalised && View() == old(View())
      ensures !old(finalised) ==>
                var (st, ok) := RunFor(Sys(), old(View()), steps);
                View() == st && r == Ended(if ok then 0 else EC_CANCEL)
      ensures forall x :: 0 <= x < |scheduler.mySchedule| ==>
                            scheduler.mySchedule[x] in old(scheduler.mySchedule) || fresh(scheduler.mySchedule[x])
    {
      hide Valid, View, Accepted, Stopped, Step, Footprints, ValidSystem, RunFor, Plan;
      ValidFacts();
      if finalised {
        return AlreadyFinalised;
      }
      ghost var (pending, target) := (scheduler.mySchedule, RunFor(Sys(), View(), steps));
      var i := 0;
      while i < steps
        invariant 0 <= i <= steps
        invariant Valid() && ValidSystem(Sys()) && ValidState(Sys(), View()) && !finalised
        invariant RunFor(Sys(), View(), steps - i) == target
        invariant forall x :: 0 <= x < |scheduler.mySchedule| ==>
                                scheduler.mySchedule[x] in pending || fresh(scheduler.mySchedule[x])
      {
        RunForFirst(Sys(), View(), steps - i);
        var ec := RunStep();
        ValidFacts();
        if ec != 0 {
          return Ended(ec);
        }
        i := i + 1;
      }
      RunForNone(Sys(), View());
      return Ended(0);
    }

    /** Executes all pending jobs without activating new ones; no run can follow. */
    method Finalise() returns (r: RunResult)
      requires Valid()
      modifies this, scheduler, scheduler.dlmon, scheduler.mySchedule, Footprints(tasks)
      ensures Valid() && finalised
      ensures old(finalised) ==> r == AlreadyFinalised && View() == old(View())
      ensures NeverIdles(Plan())
      ensures !old(finalised) ==>
                var (st, ok) := Machine.Finalise(Sys(), old(View()));
                View() == st && r == Ended(if ok then 0 else EC_CANCEL)
    {
      hide Valid, View, Machine.InitStep, Machine.FinaliseStep, Schedule, Footprints, ValidSystem, Machine.Finalise, Load, Plan;
      ValidFacts();
      PlanIsValid();
      if finalised {
        return AlreadyFinalised;
      }
      ghost var (pending, target) := (scheduler.mySchedule, Machine.Finalise(Sys(), View()));
      r := Ended(0);
      while |scheduler.mySchedule| > 0
        invariant Valid() && ValidState(Sys(), View()) && !finalised && |View().sched| == |scheduler.mySchedule|
        invariant Machine.Finalise(Sys(), View()) == target
        invariant forall x :: 0 <= x < |scheduler.mySchedule| ==> scheduler.mySchedule[x] in pending
        decreases Load(View().sched)
      {
        FinaliseFirst(Sys(), View());
        var ec := FinaliseStep();
        ValidFacts();
        if ec != 0 {
          MarkFinalised();
          return Ended(ec);
        }
      }
      FinaliseNone(Sys(), View());
      MarkFinalised();
    }

    method FinaliseStep() returns (ec: nat)
      requires Valid()
      modifies this, scheduler, scheduler.dlmon, scheduler.mySchedule, Footprints(tasks)
      ensures Valid() && finalised == old(finalised)
      ensures var (init, ok) := Machine.InitStep(Sys(), old(View()));
              var (planned, ok') := Schedule(Sys(), init);
              if !ok && exitOnCancel then View() == init && ec == EC_CANCEL
              else if !ok' && exitOnCancel then View() == Tick(planned) && ec == EC_CANCEL
              else View() == Machine.FinaliseStep(Sys(), old(View())) && ec == 0
      ensures forall x :: 0 <= x < |scheduler.mySchedule| ==> scheduler.mySchedule[x] in old(scheduler.mySchedule)
    {
      hide Valid, ValidAt, View, AldScheduler.Checked, Machine.InitStep, Schedule, Serve, Footprints, ValidSystem, Plan;
      StepOfView();
      ghost var pending := scheduler.mySchedule;
      ec := InitStep();
      if ec != 0 {
        return;
      }
      assert forall i :: 0 <= i < |scheduler.mySchedule| ==> scheduler.mySchedule[i] in pending;
      ec := DoExecutions();
      Advance();
    }

    method MarkFinalised()
      requires Valid()
      modifies `finalised
      ensures Valid() && finalised && View() == old(View())
    {
      SelfApart();
      hide ValidTasks, TaskViews, Views, Specs, AldScheduler.Valid, Footprints, Plan;
      finalised := true;
    }

    lemma SelfApart()
      requires ValidTasks(tasks)
      ensures this !in Footprints(tasks)
    {
      forall i, o | 0 <= i < |tasks| && o in tasks[i].Footprint()
        ensures o != this
      {
        OwnObjects(tasks[i], o);
      }
    }

    lemma ValidFacts()
      requires Valid()
      ensures ValidSystem(Sys()) && ValidState(Sys(), View()) && |View().sched| == |scheduler.mySchedule|
      ensures ValidTasks(tasks)
    {
    }

    method Advance()
      requires ValidAt(now + 1)
      modifies `now
      ensures Valid() && View() == Tick(old(View()))
    {
      hide ValidTasks, TaskViews, Views, Specs, AldScheduler.Valid, Footprints, Plan;
      SelfApart();
      now := now + 1;
    }

    lemma StepOfView()
      requires Valid()
      ensures ValidSystem(Sys()) && ValidState(Sys(), View())
      ensures ghost var (sys, st) := (Sys(), View());
              ghost var ready := Activations(sys, Machine.InitStep(sys, st).0, 0);
              && Step(sys, st) == Tick(Serve(sys, ready))
              && (Accepted(sys, st) <==> Machine.InitStep(sys, st).1 && Schedule(sys, ready).1)
              && Stopped(sys, st) == if !Machine.InitStep(sys, st).1 then Machine.InitStep(sys, st).0 else Schedule(sys, ready).0
    {
      hide Machine.InitStep, Activations, Schedule, Serve, Plan;
    }
  }

  lemma CancelNothing(specs: seq<TaskSpec>, tasks: seq<TaskState>, cancelled: seq<Job>)
    requires |specs| == |tasks| && cancelled == []
    ensures Owned(Views(cancelled), |specs|)
    ensures CancelAll(specs, tasks, Views(cancelled)) == (tasks, true)
  {
  }

  /** One step of `Activations`, in terms of the schedule and of the task. */
  lemma ActivationState(sys: System, st: State, i: nat)
    requires ValidSystem(sys) && ValidState(sys, st) && i < |sys.specs|
    ensures ValidSpec(sys.specs[i])
    ensures var job := Spawn(sys.specs[i], i, st.tasks[i], st.now);
            && ActivateOne(sys, st, i)
               == (if st.now >= st.tasks[i].next
                   then State(st.now, Enqueue(sys.policy, st.sched, job), st.tasks[i := Activated(sys.specs[i], st.tasks[i])])
                   else st)
            && job.rem == job.et >= 1 && job.LatestStart() >= st.now
  {
  }

  lemma ActivationsFirst(sys: System, st: State, i: nat)
    requires ValidSystem(sys) && ValidState(sys, st) && i < |sys.specs|
    ensures Activations(sys, st, i) == Activations(sys, ActivateOne(sys, st, i), i + 1)
  {
  }

  lemma ActivationsDone(sys: System, st: State)
    requires ValidSystem(sys) && ValidState(sys, st)
    ensures Activations(sys, st, |sys.specs|) == st
  {
  }

  /** `Execute` in terms of the schedule and of the finished job's task. */
  lemma ExecutionState(sys: System, st: State)
    requires ValidState(sys, st)
    ensures Execute(sys, st).now == st.now && Execute(sys, st).sched == Executed(st.sched)
    ensures Owned(Executed(st.sched), |sys.specs|)
    ensures st.sched == [] || st.sched[0].rem > 1 ==> Execute(sys, st).tasks == st.tasks
    ensures st.sched != [] && st.sched[0].rem == 1 ==>
              var job := st.sched[0];
              forall job' :: job' == job.(rem := 0) ==>
                               Execute(sys, st).tasks == st.tasks[job.task := Completed(st.tasks[job.task], job', st.now)]
  {
    ExecuteSchedule(sys, st);
  }

  /** `Schedule` in terms of the decision. */
  lemma ScheduleState(sys: System, st: State)
    requires ValidSystem(sys) && ValidState(sys, st)
    ensures ghost var d := Decide(sys, st);
            && Owned(d.cancelled, |sys.specs|)
            && Schedule(sys, st) == (State(st.now, d.kept, CancelAll(sys.specs, st.tasks, d.cancelled).0),
                                     CancelAll(sys.specs, st.tasks, d.cancelled).1)
    ensures sys.planner.NoPlan? ==> Schedule(sys, st) == (st, true)
  {
    DecisionPartitions(sys, st);
  }

  lemma RunForFirst(sys: System, st: State, steps: nat)
    requires ValidSystem(sys) && ValidState(sys, st) && steps > 0
    ensures RunFor(sys, st, steps)
         == if !Accepted(sys, st) && sys.exitOnCancel then (Stopped(sys, st), false)
            else RunFor(sys, Step(sys, st), steps - 1)
  {
  }

  lemma RunForNone(sys: System, st: State)
    requires ValidSystem(sys) && ValidState(sys, st)
    ensures RunFor(sys, st, 0) == (st, true)
  {
  }

  lemma FinaliseFirst(sys: System, st: State)
    requires ValidSystem(sys) && ValidState(sys, st) && NeverIdles(sys.planner) && st.sched != []
    ensures Load(FinaliseStep(sys, st).sched) < Load(st.sched)
    ensures ghost var (init, ok) := InitStep(sys, st);
            ghost var (planned, ok') := Schedule(sys, init);
            Finalise(sys, st) ==
            if !ok && sys.exitOnCancel then (init, false)
            else if !ok' && sys.exitOnCancel then (Tick(planned), false)
            else Finalise(sys, FinaliseStep(sys, st))
  {
    FinaliseProgress(sys, st);
  }

  lemma FinaliseNone(sys: System, st: State)
    requires ValidSystem(sys) && ValidState(sys, st) && NeverIdles(sys.planner) && st.sched == []
    ensures Finalise(sys, st) == (st, true)
  {
  }
}
