/**
  What every pending job of any run is, for every scheduler and configuration:
  when it was released, what it has received since, and, for distance-based
  tasks, what its priority says about its task.
 */
module JobRecords {
  import opened MkWindow
  import opened Machine
  import opened MachineInvariants
  import opened Constraints
  import opened AldScheduling
  import opened Tasks
  import opened Oedf
  import opened GdpaOrder
  import opened GdpaProgress
  import opened GdpaFinalisation

  // ----- One step -----

  /** Activations add exactly the next jobs of the due tasks. */
  lemma {:induction false} ActivationsAdd(sys: System, st: State, i: nat)
    requires ValidSystem(sys) && ValidState(sys, st) && i <= |sys.specs|
    ensures forall j :: j in Activations(sys, st, i).sched ==>
              j in st.sched
              || (i <= j.task < |sys.specs| && Due(st, j.task) && j == Spawn(sys.specs[j.task], j.task, st.tasks[j.task], st.now))
    ensures Activations(sys, st, i).now == st.now
    decreases |sys.specs| - i
  {
    if i < |sys.specs| {
      var job := Spawn(sys.specs[i], i, st.tasks[i], st.now);
      assert job.task == i;
      EnqueueElements(sys.policy, st.sched, job);
      hide Enqueue, Spawn, ValidSystem;
      if Due(st, i) {
        ActivationsAdd(sys, State(st.now, Enqueue(sys.policy, st.sched, job),
                                  st.tasks[i := Activated(sys.specs[i], st.tasks[i])]), i + 1);
      } else {
        ActivationsAdd(sys, st, i + 1);
      }
    }
  }

  lemma {:induction false} ActivationsAdvance(sys: System, st: State, i: nat, x: nat)
    requires ValidSystem(sys) && ValidState(sys, st) && i <= |sys.specs| && x < |sys.specs|
    ensures Activations(sys, st, i).tasks[x]
         == if x >= i && Due(st, x) then Activated(sys.specs[x], st.tasks[x]) else st.tasks[x]
    decreases |sys.specs| - i
  {
    if i < |sys.specs| {
      var job := Spawn(sys.specs[i], i, st.tasks[i], st.now);
      EnqueueElements(sys.policy, st.sched, job);
      hide Enqueue, Spawn, ValidSystem, Activated;
      if Due(st, i) {
        ActivationsAdvance(sys, State(st.now, Enqueue(sys.policy, st.sched, job),
                                      st.tasks[i := Activated(sys.specs[i], st.tasks[i])]), i + 1, x);
      } else {
        ActivationsAdvance(sys, st, i + 1, x);
      }
    }
  }

  /** The task's state when the step at time t spawns its job. */
  function AtSpawn(sys: System, t: nat, i: nat): TaskState
    requires ValidSystem(sys) && i < |sys.specs|
  {
    InitStep(sys, At(sys, t)).0.tasks[i]
  }

  /** The job that is executed in the step at time t, if any. */
  function Executing(sys: System, t: nat): seq<JobV>
    requires ValidSystem(sys)
  {
    var ready := Ready(sys, At(sys, t));
    if Decide(sys, ready).idle || Decide(sys, ready).kept == [] then [] else [Decide(sys, ready).kept[0]]
  }

  lemma ReadyJobs(sys: System, t: nat)
    requires ValidSystem(sys)
    ensures forall j :: j in Ready(sys, At(sys, t)).sched ==>
              j in At(sys, t).sched
              || (j.task < |sys.specs| && AtSpawn(sys, t, j.task).next <= At(sys, t).now
                  && j == Spawn(sys.specs[j.task], j.task, AtSpawn(sys, t, j.task), At(sys, t).now))
    ensures Ready(sys, At(sys, t)).now == At(sys, t).now
  {
    var init := InitStep(sys, At(sys, t)).0;
    SurvivorsAndDoomed(sys.config, At(sys, t).now, At(sys, t).sched);
    assert forall j :: j in init.sched ==> j in At(sys, t).sched;
    hide InitStep, Spawn, At;
    ActivationsAdd(sys, init, 0);
  }

  /** No two jobs that `schedule` finds are of the same task and instant. */
  lemma ReadyDiffer(sys: System, t: nat)
    requires ValidSystem(sys)
    ensures Different(multiset(Ready(sys, At(sys, t)).sched))
  {
    hide At, Different, InitStep, Activations;
    AlwaysArrived(sys, t);
    InitStepArrived(sys, At(sys, t));
    ActivationsArrived(sys, InitStep(sys, At(sys, t)).0, 0);
  }

  /** A job after the step is one before it that was not executed, or what is left of the one that was. */
  lemma NextJobs(sys: System, t: nat)
    requires ValidSystem(sys)
    ensures forall j :: j in At(sys, t + 1).sched ==>
              (j in Ready(sys, At(sys, t)).sched && j !in Executing(sys, t))
              || (Executing(sys, t) != [] && j in Left(Executing(sys, t)[0]))
    ensures forall j :: j in Executing(sys, t) ==> j in Ready(sys, At(sys, t)).sched
    ensures At(sys, t + 1).now == At(sys, t).now + 1
  {
    var ready := Ready(sys, At(sys, t));
    DecisionPartitions(sys, ready);
    ReadyJobs(sys, t);
    ReadyDiffer(sys, t);
    ExecuteSchedule(sys, Schedule(sys, ready).0);
    ExecuteTime(sys, Schedule(sys, ready).0);
    NextState(sys, t);
    var kept := Decide(sys, ready).kept;
    hide At, Ready, Execute, Decide;
    if kept != [] {
      KeptOnce(kept, ready.sched);
      ExecutedMembers(kept);
    }
  }

  lemma NextState(sys: System, t: nat)
    requires ValidSystem(sys)
    ensures At(sys, t + 1) == Tick(Serve(sys, Ready(sys, At(sys, t))))
  {
  }

  lemma KeptOnce(kept: seq<JobV>, sched: seq<JobV>)
    requires kept != [] && multiset(kept) <= multiset(sched) && Different(multiset(sched))
    ensures kept[0] !in Executed(kept)
  {
    ExecutedMultiset(kept);
    assert multiset(kept)[kept[0]] <= multiset(sched)[kept[0]] <= 1;
    assert kept[0] !in Left(kept[0]);
    assert multiset(Executed(kept))[kept[0]] == 0;
  }

  // ----- Clocks -----

  lemma ReadyClock(sys: System, st: State, i: nat)
    requires ValidSystem(sys) && ValidState(sys, st) && i < |sys.specs|
    ensures var (before, after) := (st.tasks[i], Ready(sys, st).tasks[i]);
            && InitStep(sys, st).0.tasks[i].next == before.next
            && InitStep(sys, st).0.tasks[i].activations == before.activations
            && after.next == (if before.next <= st.now then before.next + sys.specs[i].period else before.next)
            && after.activations == if before.next <= st.now then before.activations + 1 else before.activations
  {
    var init := InitStep(sys, st).0;
    SurvivorsAndDoomed(sys.config, st.now, st.sched);
    CancelAllClock(sys.specs, st.tasks, Doomed(sys.config, st.now, st.sched), i);
    assert init.now == st.now;
    assert init.tasks[i].next == st.tasks[i].next && init.tasks[i].activations == st.tasks[i].activations;
    hide InitStep, Activations, CancelAll;
    ActivationsAdvance(sys, init, 0, i);
  }

  lemma ServeClock(sys: System, st: State, i: nat)
    requires ValidSystem(sys) && ValidState(sys, st) && i < |sys.specs|
    ensures Serve(sys, st).tasks[i].next == st.tasks[i].next && Serve(sys, st).tasks[i].activations == st.tasks[i].activations
  {
    DecisionPartitions(sys, st);
    CancelAllClock(sys.specs, st.tasks, Decide(sys, st).cancelled, i);
  }

  /** A step changes a task's clock only by its activation. */
  lemma NextClock(sys: System, t: nat, i: nat)
    requires ValidSystem(sys) && i < |sys.specs|
    ensures var (before, after) := (At(sys, t).tasks[i], At(sys, t + 1).tasks[i]);
            && AtSpawn(sys, t, i).next == before.next && AtSpawn(sys, t, i).activations == before.activations
            && after.next == (if before.next <= At(sys, t).now then before.next + sys.specs[i].period else before.next)
            && after.activations == (if before.next <= At(sys, t).now then before.activations + 1 else before.activations)
            && after.activations == Ready(sys, At(sys, t)).tasks[i].activations
  {
    NextState(sys, t);
    hide At, Ready, InitStep, Serve;
    ReadyClock(sys, At(sys, t), i);
    ServeClock(sys, Ready(sys, At(sys, t)), i);
  }

  // ----- Releases -----

  /** The clock of a task that is activated every period. */
  ghost predicate Periodical(spec: TaskSpec, ts: TaskState, now: int) {
    && ts.next == spec.offset + ts.activations * spec.period
    && ts.next >= now
  }

  lemma NextPeriodical(spec: TaskSpec, before: TaskState, after: TaskState, now: int)
    requires spec.period >= 1 && Periodical(spec, before, now)
    requires after.next == if before.next <= now then before.next + spec.period else before.next
    requires after.activations == if before.next <= now then before.activations + 1 else before.activations
    ensures Periodical(spec, after, now + 1)
  {
    assert (before.activations + 1) * spec.period == before.activations * spec.period + spec.period;
  }

  lemma StartsPeriodical(sys: System)
    requires ValidSystem(sys)
    ensures At(sys, 0).now == 0 && At(sys, 0).sched == []
    ensures forall i :: 0 <= i < |sys.specs| ==> Periodical(sys.specs[i], At(sys, 0).tasks[i], 0)
    ensures forall i :: 0 <= i < |sys.specs| ==> At(sys, 0).tasks[i].activations == 0
  {
  }

  /** At any time of any run all clocks tick periodically. */
  lemma {:induction false} AlwaysPeriodical(sys: System, t: nat)
    requires ValidSystem(sys)
    ensures At(sys, t).now == t
    ensures forall i :: 0 <= i < |sys.specs| ==> Periodical(sys.specs[i], At(sys, t).tasks[i], t)
  {
    hide At, Periodical, Executing, Ready;
    if t == 0 {
      StartsPeriodical(sys);
    } else {
      AlwaysPeriodical(sys, t - 1);
      NextJobs(sys, t - 1);
      forall i | 0 <= i < |sys.specs|
        ensures Periodical(sys.specs[i], At(sys, t).tasks[i], t)
      {
        assert ValidSpec(sys.specs[i]) && Periodical(sys.specs[i], At(sys, t - 1).tasks[i], t - 1);
        NextClock(sys, t - 1, i);
        NextPeriodical(sys.specs[i], At(sys, t - 1).tasks[i], At(sys, t).tasks[i], t - 1);
      }
    }
  }

  // ----- The records -----

  /** In how many steps before time t the task's job number `id` was executed. */
  ghost function Units(sys: System, t: nat, task: nat, id: nat): nat
    requires ValidSystem(sys)
  {
    if t == 0 then 0 else Units(sys, t - 1, task, id) + if RunsAt(sys, t - 1, task, id) then 1 else 0
  }

  ghost predicate RunsAt(sys: System, t: nat, task: nat, id: nat)
    requires ValidSystem(sys)
  {
    exists j :: j in Executing(sys, t) && j.task == task && j.id == id
  }

  /** What is known of a job that `schedule` finds at time t. */
  ghost predicate JobRecord(sys: System, t: nat, j: JobV)
    requires ValidSystem(sys)
  {
    && j.task < |sys.specs|
    && j.id < Ready(sys, At(sys, t)).tasks[j.task].activations
    && ReleaseRecord(sys.specs[j.task], j) && j.activation <= t
    && j.rem + Units(sys, t, j.task, j.id) == j.et
    && DistanceRecord(sys, j)
  }

  /** Job number `id` is released id periods after the task's offset. */
  predicate ReleaseRecord(spec: TaskSpec, j: JobV) {
    && j.activation == spec.offset + j.id * spec.period
    && j.deadline == j.activation + spec.relDeadline
    && j.et == spec.et
  }

  /** A distance-based job has the failure distance of the outcomes at its activation. */
  ghost predicate DistanceRecord(sys: System, j: JobV)
    requires ValidSystem(sys) && j.task < |sys.specs|
  {
    var spec := sys.specs[j.task];
    ValidSpec(spec)
    && (spec.model.Dbp? && j.activation >= 0 ==>
          j.priority == FailureDistance(spec.model.m, Last(spec.model.k, spec.initial + AtSpawn(sys, j.activation, j.task).history)))
  }

  /** Jobs that have not been activated have not been executed. */
  ghost predicate NoneBefore(sys: System, t: nat)
    requires ValidSystem(sys)
  {
    forall i: nat, id: nat :: i < |sys.specs| && id >= Ready(sys, At(sys, t)).tasks[i].activations ==> Units(sys, t, i, id) == 0
  }

  ghost predicate AllRecorded(sys: System, t: nat)
    requires ValidSystem(sys)
  {
    NoneBefore(sys, t) && forall j :: j in Ready(sys, At(sys, t)).sched ==> JobRecord(sys, t, j)
  }

  lemma SameIdSameJob(sys: System, t: nat, j: JobV, e: JobV)
    requires ValidSystem(sys) && j in Ready(sys, At(sys, t)).sched && e in Ready(sys, At(sys, t)).sched
    requires JobRecord(sys, t, j) && JobRecord(sys, t, e) && j.task == e.task && j.id == e.id
    ensures j == e
  {
    ReadyDiffer(sys, t);
    hide At, Ready, DistanceRecord, Units;
    assert SameArrival(j, e) && j in multiset(Ready(sys, At(sys, t)).sched) && e in multiset(Ready(sys, At(sys, t)).sched);
  }

  lemma ActivationsGrow(sys: System, t: nat, i: nat)
    requires ValidSystem(sys) && i < |sys.specs|
    ensures Ready(sys, At(sys, t)).tasks[i].activations <= Ready(sys, At(sys, t + 1)).tasks[i].activations
    ensures Ready(sys, At(sys, t)).tasks[i].activations == At(sys, t + 1).tasks[i].activations
  {
    hide At, Ready;
    NextClock(sys, t, i);
    NextClock(sys, t + 1, i);
  }

  /** A job that is pending after a step keeps its record. */
  lemma KeptRecord(sys: System, t: nat, j: JobV)
    requires ValidSystem(sys) && AllRecorded(sys, t) && j in Ready(sys, At(sys, t)).sched && j !in Executing(sys, t)
    ensures JobRecord(sys, t + 1, j)
  {
    NextJobs(sys, t);
    hide At, Ready, Executing, DistanceRecord;
    assert JobRecord(sys, t, j);
    ActivationsGrow(sys, t, j.task);
    if RunsAt(sys, t, j.task, j.id) {
      var e :| e in Executing(sys, t) && e.task == j.task && e.id == j.id;
      SameIdSameJob(sys, t, j, e);
      assert false;
    }
  }

  /** So does what is left of the executed one. */
  lemma ExecutedRecord(sys: System, t: nat, e: JobV, j: JobV)
    requires ValidSystem(sys) && AllRecorded(sys, t) && e in Executing(sys, t) && j in Left(e)
    ensures JobRecord(sys, t + 1, j)
  {
    hide At, Ready, Executing, FailureDistance, AtSpawn;
    NextJobs(sys, t);
    assert JobRecord(sys, t, e);
    ActivationsGrow(sys, t, e.task);
    assert RunsAt(sys, t, e.task, e.id);
  }

  lemma SpawnedRecord(sys: System, t: nat, i: nat)
    requires ValidSystem(sys) && i < |sys.specs| && AtSpawn(sys, t, i).next <= At(sys, t).now
    requires Units(sys, t, i, AtSpawn(sys, t, i).activations) == 0
    ensures JobRecord(sys, t, Spawn(sys.specs[i], i, AtSpawn(sys, t, i), At(sys, t).now))
  {
    hide At, Ready, AtSpawn, FailureDistance;
    AlwaysPeriodical(sys, t);
    NextClock(sys, t, i);
    assert ValidSpec(sys.specs[i]) && Periodical(sys.specs[i], At(sys, t).tasks[i], t);
  }

  lemma NeverExecuted(sys: System, t: nat, i: nat, id: nat)
    requires ValidSystem(sys) && AllRecorded(sys, t) && i < |sys.specs| && id >= At(sys, t + 1).tasks[i].activations
    ensures Units(sys, t + 1, i, id) == 0
  {
    ActivationsGrow(sys, t, i);
    NextJobs(sys, t);
    hide At, Ready, Executing, DistanceRecord, ReleaseRecord;
    forall e | e in Executing(sys, t)
      ensures e.task != i || e.id != id
    {
      assert JobRecord(sys, t, e);
    }
  }

  lemma StillNone(sys: System, t: nat, u: nat)
    requires ValidSystem(sys) && AllRecorded(sys, t) && u == t + 1
    ensures NoneBefore(sys, u)
  {
    hide At, Ready, AllRecorded, Units;
    forall i: nat, id: nat | i < |sys.specs| && id >= Ready(sys, At(sys, u)).tasks[i].activations
      ensures Units(sys, u, i, id) == 0
    {
      NextClock(sys, u, i);
      NeverExecuted(sys, t, i, id);
    }
  }

  lemma NewRecord(sys: System, t: nat, u: nat, i: nat)
    requires ValidSystem(sys) && AllRecorded(sys, t) && u == t + 1 && i < |sys.specs|
    requires AtSpawn(sys, u, i).next <= At(sys, u).now
    ensures JobRecord(sys, u, Spawn(sys.specs[i], i, AtSpawn(sys, u, i), At(sys, u).now))
  {
    hide At, Ready, AllRecorded, Units, JobRecord, Spawn, AtSpawn;
    NextClock(sys, u, i);
    NeverExecuted(sys, t, i, AtSpawn(sys, u, i).activations);
    SpawnedRecord(sys, u, i);
  }

  lemma NextRecord(sys: System, t: nat, u: nat, j: JobV)
    requires ValidSystem(sys) && AllRecorded(sys, t) && u == t + 1 && j in Ready(sys, At(sys, u)).sched
    ensures JobRecord(sys, u, j)
  {
    hide At, Ready, AllRecorded, Units, JobRecord, Spawn, AtSpawn, Executing;
    NextJobs(sys, t);
    ReadyJobs(sys, u);
    if j in At(sys, u).sched {
      if j in Ready(sys, At(sys, t)).sched && j !in Executing(sys, t) {
        KeptRecord(sys, t, j);
      } else {
        ExecutedRecord(sys, t, Executing(sys, t)[0], j);
      }
    } else {
      NewRecord(sys, t, u, j.task);
    }
  }

  lemma NextRecorded(sys: System, t: nat, u: nat)
    requires ValidSystem(sys) && AllRecorded(sys, t) && u == t + 1
    ensures AllRecorded(sys, u)
  {
    StillNone(sys, t, u);
    hide At, Ready, JobRecord, NoneBefore;
    forall j | j in Ready(sys, At(sys, u)).sched
      ensures JobRecord(sys, u, j)
    {
      NextRecord(sys, t, u, j);
    }
  }

  lemma FirstRecorded(sys: System)
    requires ValidSystem(sys)
    ensures AllRecorded(sys, 0)
  {
    ReadyJobs(sys, 0);
    StartsPeriodical(sys);
    hide At, Ready, JobRecord, Spawn, AtSpawn;
    forall j | j in Ready(sys, At(sys, 0)).sched
      ensures JobRecord(sys, 0, j)
    {
      SpawnedRecord(sys, 0, j.task);
    }
  }

  /** At any time of any run every job that `schedule` finds has its record. */
  lemma {:induction false} EveryJobRecorded(sys: System, t: nat)
    requires ValidSystem(sys)
    ensures AllRecorded(sys, t)
  {
    hide AllRecorded;
    if t == 0 {
      FirstRecorded(sys);
    } else {
      EveryJobRecorded(sys, t - 1);
      NextRecorded(sys, t - 1, t);
    }
  }

  // ----- What follows -----

  /** The record also holds for what is pending when a step starts. */
  lemma PendingRecord(sys: System, t: nat, j: JobV)
    requires ValidSystem(sys) && j in At(sys, t).sched
    ensures JobRecord(sys, t, j)
  {
    hide At, Ready, AllRecorded, JobRecord, Executing, Periodical;
    StartsPeriodical(sys);
    if t > 0 {
      EveryJobRecorded(sys, t - 1);
      NextJobs(sys, t - 1);
      if j in Ready(sys, At(sys, t - 1)).sched && j !in Executing(sys, t - 1) {
        KeptRecord(sys, t - 1, j);
      } else {
        ExecutedRecord(sys, t - 1, Executing(sys, t - 1)[0], j);
      }
    }
  }

  /**
    Every job of every run is released id periods after its task's offset, has its
    deadline counted from there, and has left what the steps that executed it have
    not done.
   */
  lemma EveryJobIs(sys: System, t: nat, j: JobV)
    requires ValidSystem(sys) && j in Ready(sys, At(sys, t)).sched
    ensures j.task < |sys.specs|
    ensures var spec := sys.specs[j.task];
            && j.activation == spec.offset + j.id * spec.period <= t
            && j.deadline == j.activation + spec.relDeadline
            && j.rem == spec.et - Units(sys, t, j.task, j.id)
  {
    EveryJobRecorded(sys, t);
    assert JobRecord(sys, t, j);
  }

  /**
    `initStep` cancels exactly the jobs that cannot meet their deadline any more,
    if deadline misses are to be cancelled, and of those that have been executed
    none, unless execution cancellations are on.
   */
  lemma InitStepCancelsExactly(sys: System, t: nat, j: JobV)
    requires ValidSystem(sys) && j in At(sys, t).sched
    ensures j.task < |sys.specs|
    ensures var units := Units(sys, t, j.task, j.id);
            j in Ready(sys, At(sys, t)).sched <==>
            || !sys.config.dlMissCancellations
            || t + (sys.specs[j.task].et - units) <= j.deadline
            || (!sys.config.execCancellations && units > 0)
  {
    PendingRecord(sys, t, j);
    AlwaysPeriodical(sys, t);
    StaysExactly(sys, t, j);
    hide At, Ready, DistanceRecord, Units;
  }

  lemma StaysExactly(sys: System, t: nat, j: JobV)
    requires ValidSystem(sys) && j in At(sys, t).sched && JobRecord(sys, t, j)
    ensures j in Ready(sys, At(sys, t)).sched <==> Survives(sys.config, At(sys, t).now, j)
  {
    var (st, init) := (At(sys, t), InitStep(sys, At(sys, t)).0);
    SurvivorsAndDoomed(sys.config, st.now, st.sched);
    NewJobsAreNew(sys, t, j);
    hide At, InitStep, Survives, JobRecord, Spawn, Ready;
    if j in Ready(sys, st).sched {
      ReadyFromInit(sys, t, j);
    }
    if j in init.sched {
      ReadyIs(sys, st);
      ActivationsKeep(sys, init, 0, j);
    }
  }

  lemma ReadyIs(sys: System, st: State)
    requires ValidSystem(sys) && ValidState(sys, st)
    ensures Ready(sys, st) == Activations(sys, InitStep(sys, st).0, 0)
  {
  }

  /** No pending job looks like one that is activated now. */
  lemma NewJobsAreNew(sys: System, t: nat, j: JobV)
    requires ValidSystem(sys) && j in At(sys, t).sched && JobRecord(sys, t, j)
    ensures AtSpawn(sys, t, j.task).next <= At(sys, t).now ==>
              j != Spawn(sys.specs[j.task], j.task, AtSpawn(sys, t, j.task), At(sys, t).now)
  {
    AlwaysArrived(sys, t);
    hide At, AtSpawn, Ready, Different;
  }

  lemma ReadyFromInit(sys: System, t: nat, j: JobV)
    requires ValidSystem(sys) && j in Ready(sys, At(sys, t)).sched
    ensures j in InitStep(sys, At(sys, t)).0.sched
            || (j.task < |sys.specs| && AtSpawn(sys, t, j.task).next <= At(sys, t).now
                && j == Spawn(sys.specs[j.task], j.task, AtSpawn(sys, t, j.task), At(sys, t).now))
  {
    var init := InitStep(sys, At(sys, t)).0;
    assert init.now == At(sys, t).now;
    hide InitStep, Spawn, At;
    ActivationsAdd(sys, init, 0);
  }

  lemma {:induction false} ActivationsKeep(sys: System, st: State, i: nat, job: JobV)
    requires ValidSystem(sys) && ValidState(sys, st) && i <= |sys.specs| && job in st.sched
    ensures job in Activations(sys, st, i).sched
    decreases |sys.specs| - i
  {
    if i < |sys.specs| {
      var next := Spawn(sys.specs[i], i, st.tasks[i], st.now);
      EnqueueElements(sys.policy, st.sched, next);
      hide Enqueue, Spawn, ValidSystem;
      if Due(st, i) {
        ActivationsKeep(sys, State(st.now, Enqueue(sys.policy, st.sched, next),
                                   st.tasks[i := Activated(sys.specs[i], st.tasks[i])]), i + 1, job);
      } else {
        ActivationsKeep(sys, st, i + 1, job);
      }
    }
  }

  /** With execution cancellations off no overload-resolving scheduler gives up a job that has been executed. */
  lemma ExecutedJobsAreSpared(sys: System, valuation: seq<real> -> Values, t: nat, j: JobV)
    requires ValidSystem(sys) && !sys.config.execCancellations
    requires sys.planner == OedfPlanner(sys.specs, sys.config, valuation)
    requires j in Decide(sys, Ready(sys, At(sys, t))).cancelled
    ensures Units(sys, t, j.task, j.id) == 0
  {
    var ready := Ready(sys, At(sys, t));
    DecisionPartitions(sys, ready);
    EveryJobRecorded(sys, t);
    assert JobRecord(sys, t, j);
    hide At, Ready, DistanceRecord, Units;
    var values := valuation(Predicted(sys.specs, ready.tasks));
    assert Decide(sys, ready) == OedfDecision(sys.specs, sys.config, valuation, ready);
    ResolveCancelsCandidates(values, sys.config, ready.now, ready.sched, -1);
  }

  // ----- Distance-based priorities -----

  /** The outcomes the task had recorded when the job was activated. */
  ghost function OutcomesBefore(sys: System, j: JobV): seq<nat>
    requires ValidSystem(sys) && j.task < |sys.specs| && j.activation >= 0
  {
    Ready(sys, At(sys, j.activation)).tasks[j.task].history
  }

  /** The priority is exact from the outset, or the window shows outcomes of jobs only. */
  ghost predicate WellStarted(spec: TaskSpec, history: seq<nat>)
    requires Constrained(spec.model)
  {
    spec.initial == Repeat(1, spec.model.k) || |history| >= spec.model.k
  }

  /**
    The priority of a distance-based job says how many failures in a row the task's
    constraint could still bear when the job was activated: after x more it holds
    if and only if x is less than the priority.
   */
  lemma DistancePriority(sys: System, t: nat, j: JobV, x: nat)
    requires ValidSystem(sys) && j in Ready(sys, At(sys, t)).sched
    requires j.task < |sys.specs| && j.activation >= 0 && sys.specs[j.task].model.Dbp? && Constrained(sys.specs[j.task].model)
    requires WellStarted(sys.specs[j.task], OutcomesBefore(sys, j))
    ensures Firm(sys.specs[j.task].model.m, sys.specs[j.task].model.k, OutcomesBefore(sys, j) + Repeat(0, x)) <==> x < j.priority
  {
    var (spec, h) := (sys.specs[j.task], OutcomesBefore(sys, j));
    EveryJobRecorded(sys, t);
    assert JobRecord(sys, t, j) && ValidSpec(spec);
    ActivationsKeepOutcomes(sys, InitStep(sys, At(sys, j.activation)).0, 0, j.task);
    assert h == AtSpawn(sys, j.activation, j.task).history;
    hide At, Ready, Firm, FailureDistance, Last, AtSpawn, OutcomesBefore;
    if |h| >= spec.model.k {
      DistanceIsExactLater(spec.model.m, spec.model.k, spec.initial, h, x);
    } else {
      DistanceIsExact(spec.model.m, spec.model.k, h, x);
    }
  }

  /** All tasks are distance-based and start from successes. */
  ghost predicate DistanceBased(specs: seq<TaskSpec>) {
    forall i :: 0 <= i < |specs| ==>
                  specs[i].model.Dbp? && Constrained(specs[i].model) && specs[i].initial == Repeat(1, specs[i].model.k)
  }

  /**
    Under fixed priorities the executed job belongs to a task nearest to violating
    its constraint: as many failures as its task could bear when it was activated,
    so could any other pending job's.
   */
  lemma NearestFailureFirst(sys: System, t: nat, j: JobV, x: nat)
    requires ValidSystem(sys) && sys.policy == FPP && sys.planner.NoPlan? && DistanceBased(sys.specs)
    requires j in Ready(sys, At(sys, t)).sched
    ensures Executing(sys, t) != []
    ensures var f := Executing(sys, t)[0];
            && f.task < |sys.specs| && j.task < |sys.specs| && f.activation >= 0 && j.activation >= 0
            && var (a, b) := (sys.specs[f.task].model, sys.specs[j.task].model);
            Firm(a.m, a.k, OutcomesBefore(sys, f) + Repeat(0, x)) ==> Firm(b.m, b.k, OutcomesBefore(sys, j) + Repeat(0, x))
  {
    hide At, Ready, Firm, Units, OutcomesBefore, Executing;
    ExecutingIsFront(sys, t, j);
    var f := Executing(sys, t)[0];
    EveryJobIs(sys, t, f);
    EveryJobIs(sys, t, j);
    DistancePriority(sys, t, f, x);
    DistancePriority(sys, t, j, x);
  }

  lemma ExecutingIsFront(sys: System, t: nat, j: JobV)
    requires ValidSystem(sys) && sys.policy == FPP && sys.planner.NoPlan? && j in Ready(sys, At(sys, t)).sched
    ensures Executing(sys, t) != [] && Executing(sys, t)[0] in Ready(sys, At(sys, t)).sched
    ensures Executing(sys, t)[0].priority <= j.priority
  {
    var ready := Ready(sys, At(sys, t));
    assert Decide(sys, ready) == Decision(ready.sched, [], false);
    AlwaysConserved(sys, t);
    ReadyConserves(sys, At(sys, t));
    hide At, Ready;
    OrderedFront(FPP, ready.sched);
    assert Key(FPP, ready.sched[0]) <= Key(FPP, j);
  }
}
