/**
  When fixed priorities keep every mandatory job: the demand condition behind
  the response bound is not only sufficient but necessary. The run in which all
  tasks start together with unspun patterns needs it.
 */
module FppExactness {
  import opened Arithmetic
  import opened MkPattern
  import opened Machine
  import opened MachineInvariants
  import opened FppResponse
  import opened MkpSoundness

  /** No mandatory job is ever in danger of being cancelled. */
  ghost predicate MandatorySafe(sys: System)
    requires ValidSystem(sys)
  {
    forall t: nat :: SafeAt(sys, t)
  }

  /** No mandatory job is about to be cancelled at time t. */
  ghost predicate SafeAt(sys: System, t: nat)
    requires ValidSystem(sys)
  {
    forall j :: j in At(sys, t).sched && IsMandatory(sys.specs[j.task], j.id) ==> j.LatestStart() >= t
  }

  /** All tasks start at time 0, and no pattern is spun. */
  ghost predicate Synchronous(specs: seq<TaskSpec>) {
    forall i :: 0 <= i < |specs| ==> specs[i].offset == 0 && (specs[i].model.Mkp? ==> specs[i].model.spin == 0)
  }

  // ----- Following the first job of a task -----

  lemma {:induction false} ActivationsKeepJobs(sys: System, st: State, i: nat, job: JobV)
    requires ValidSystem(sys) && ValidState(sys, st) && i <= |sys.specs| && job in st.sched
    ensures job in Activations(sys, st, i).sched
    decreases |sys.specs| - i
  {
    if i < |sys.specs| {
      if Due(st, i) {
        EnqueueElements(sys.policy, st.sched, Spawn(sys.specs[i], i, st.tasks[i], st.now));
      }
      ActivationsKeepJobs(sys, ActivateOne(sys, st, i), i + 1, job);
    }
  }

  /** A job that can meet its deadline is still there when the first job is executed. */
  lemma SafeJobStays(sys: System, st: State, job: JobV)
    requires ValidSystem(sys) && ValidState(sys, st) && job in st.sched && job.LatestStart() >= st.now
    ensures job in Ready(sys, st).sched
  {
    SurvivorsAndDoomed(sys.config, st.now, st.sched);
    ActivationsKeepJobs(sys, InitStep(sys, st).0, 0, job);
  }

  lemma {:induction false} ActivationsSpawn(sys: System, st: State, i: nat, x: nat)
    requires ValidSystem(sys) && ValidState(sys, st) && i <= x < |sys.specs| && Due(st, x)
    ensures Spawn(sys.specs[x], x, st.tasks[x], st.now) in Activations(sys, st, i).sched
    decreases |sys.specs| - i
  {
    var next := ActivateOne(sys, st, i);
    if i == x {
      EnqueueElements(sys.policy, st.sched, Spawn(sys.specs[i], i, st.tasks[i], st.now));
      ActivationsKeepJobs(sys, next, i + 1, Spawn(sys.specs[x], x, st.tasks[x], st.now));
    } else {
      ActivationsSpawn(sys, next, i + 1, x);
    }
  }

  /** The first job of task i, with `rem` time units to go. */
  function FirstJob(spec: TaskSpec, i: nat, rem: nat): JobV {
    JobV(i, 0, 0, spec.et, spec.relDeadline, spec.priority, rem)
  }

  lemma FirstJobIsMandatory(spec: TaskSpec)
    requires ValidSpec(spec) && (spec.model.Mkp? ==> spec.model.spin == 0)
    ensures IsMandatory(spec, 0)
  {
    if spec.model.Mkp? {
      assert 0 * spec.model.m == 0;
      CeilDivUnique(0, spec.model.k, 0);
    }
  }

  lemma FirstJobAtStart(sys: System, i: nat)
    requires FppSystem(sys) && Synchronous(sys.specs) && i < |sys.specs|
    ensures FirstJob(sys.specs[i], i, sys.specs[i].et) in Ready(sys, At(sys, 0)).sched
  {
    var st := At(sys, 0);
    assert InitStep(sys, st) == (st, true);
    FirstJobIsMandatory(sys.specs[i]);
    ActivationsSpawn(sys, st, 0, i);
  }

  /** When no more urgent job executes, the front is the task's own job. */
  lemma OwnFront(sys: System, st: State, job: JobV)
    requires FppSystem(sys) && ValidState(sys, st) && Feasible(sys, st, |sys.specs|) && Ordered(FPP, st.sched)
    requires job in st.sched && job.priority == sys.specs[job.task].priority && Front(st, job.priority) == 0
    ensures st.sched != [] && st.sched[0] == job
  {
    OrderedFront(FPP, st.sched);
    var front := st.sched[0];
    assert JobOk(sys, front) && JobOk(sys, job);
    assert front.priority == job.priority && front.task == job.task;
    var x :| 0 <= x < |st.sched| && st.sched[x] == job;
    assert Pending(st.sched, job.task) <= 1;
    if x > 0 {
      PendingUnique(st.sched, job.task, 0, x);
    }
  }

  /** What one slot does to a pending job. */
  lemma JobInSlot(sys: System, t: nat, job: JobV)
    requires FppSystem(sys) && job in Ready(sys, At(sys, t)).sched && job.priority == sys.specs[job.task].priority
    ensures Busy(sys, job.priority, t) <= 1 && job.rem >= 1
    ensures Busy(sys, job.priority, t) == 1 ==> job in At(sys, t + 1).sched
    ensures Busy(sys, job.priority, t) == 0 && job.rem > 1 ==> job.(rem := job.rem - 1) in At(sys, t + 1).sched
  {
    assert sys.planner.NoPlan?;
    SlotIsExecute(sys, job.priority, t);
    ReadyConserved(sys, t);
    hide At, Ready, FppSystem;
    JobInReady(sys, Ready(sys, At(sys, t)), job);
  }

  lemma JobInReady(sys: System, st: State, job: JobV)
    requires FppSystem(sys) && ValidState(sys, st) && Feasible(sys, st, |sys.specs|) && Ordered(FPP, st.sched)
    requires job in st.sched && job.priority == sys.specs[job.task].priority
    ensures Front(st, job.priority) <= 1 && job.rem >= 1
    ensures Front(st, job.priority) == 1 ==> job in Execute(sys, st).sched
    ensures Front(st, job.priority) == 0 && job.rem > 1 ==> job.(rem := job.rem - 1) in Execute(sys, st).sched
  {
    assert JobOk(sys, job);
    if Front(st, job.priority) == 0 {
      OwnFront(sys, st, job);
    } else {
      assert st.sched == [st.sched[0]] + st.sched[1..];
      assert job in st.sched[1..];
      KeptBehindFront(sys, st, job);
    }
  }

  lemma KeptBehindFront(sys: System, st: State, job: JobV)
    requires ValidState(sys, st) && st.sched != [] && job in st.sched[1..]
    ensures job in Execute(sys, st).sched
  {
  }

  /**
    The first job of a task finishes at some time R by its deadline, and until
    then the processor executes it or more urgent jobs, the latter not at the end.
   */
  lemma {:induction false} FirstJobFinishes(sys: System, i: nat, t: nat, rem: nat) returns (end: nat)
    requires ValidSystem(sys) && FppSystem(sys) && Synchronous(sys.specs) && MandatorySafe(sys) && i < |sys.specs|
    requires FirstJob(sys.specs[i], i, rem) in Ready(sys, At(sys, t)).sched
    requires t + rem <= sys.specs[i].relDeadline
    requires rem + t == sys.specs[i].et + BusySlots(sys, sys.specs[i].priority, 0, t)
    ensures 1 <= end <= sys.specs[i].relDeadline
    ensures end == sys.specs[i].et + BusySlots(sys, sys.specs[i].priority, 0, end)
    ensures Busy(sys, sys.specs[i].priority, end - 1) == 0
    decreases sys.specs[i].relDeadline - t
  {
    hide At, Ready, Busy, BusySlots, FppSystem, MandatorySafe, Synchronous;
    var (spec, job) := (sys.specs[i], FirstJob(sys.specs[i], i, rem));
    JobInSlot(sys, t, job);
    NextSlot(sys, spec.priority, t);
    var busy := Busy(sys, spec.priority, t);
    if busy == 0 && rem == 1 {
      end := t + 1;
    } else {
      var rem' := rem - 1 + busy;
      StaysSafe(sys, i, t + 1, rem');
      end := FirstJobFinishes(sys, i, t + 1, rem');
    }
  }

  lemma NextSlot(sys: System, p: nat, t: nat)
    requires ValidSystem(sys)
    ensures BusySlots(sys, p, 0, t + 1) == BusySlots(sys, p, 0, t) + Busy(sys, p, t)
  {
  }

  lemma StaysSafe(sys: System, i: nat, t: nat, rem: nat)
    requires FppSystem(sys) && Synchronous(sys.specs) && MandatorySafe(sys) && i < |sys.specs|
    requires FirstJob(sys.specs[i], i, rem) in At(sys, t).sched
    ensures FirstJob(sys.specs[i], i, rem) in Ready(sys, At(sys, t)).sched
    ensures t + rem <= sys.specs[i].relDeadline && rem >= 1
  {
    FirstJobIsMandatory(sys.specs[i]);
    assert SafeAt(sys, t);
    AtNow(sys, t);
    PendingJobOk(sys, t, FirstJob(sys.specs[i], i, rem));
    hide At, Ready, FppSystem;
    SafeJobStays(sys, At(sys, t), FirstJob(sys.specs[i], i, rem));
  }

  // ----- Urgent work -----

  lemma {:induction false} NothingUrgentLost(config: Config, now: int, s: seq<JobV>, p: nat)
    requires forall j :: j in s && j.priority < p ==> Survives(config, now, j)
    ensures Work(Survivors(config, now, s), p) == Work(s, p)
  {
    hide Survives;
    if s != [] {
      NothingUrgentLost(config, now, s[1..], p);
      var rest := Survivors(config, now, s[1..]);
      assert ([s[0]] + rest)[1..] == rest && [] + rest == rest;
    }
  }

  /** In a safe run all urgent work is carried over. */
  lemma AllCarriedIn(sys: System, p: nat, t: nat)
    requires FppSystem(sys) && p <= MIN_PRIORITY && SafeAt(sys, t)
    ensures CarryIn(sys, p, t) == Work(At(sys, t).sched, p)
  {
    AtNow(sys, t);
    AlwaysPunctual(sys, t);
    var st := At(sys, t);
    forall j | j in st.sched && j.priority < p
      ensures Survives(sys.config, st.now, j)
    {
      assert JobOk(sys, j);
    }
    NothingUrgentLost(sys.config, st.now, st.sched, p);
    assert InitStep(sys, st).0.sched == Survivors(sys.config, st.now, st.sched);
  }

  /** In a safe run released urgent work has been executed or is pending. */
  lemma {:induction false} ReleasedIsExecuted(sys: System, p: nat, t: nat)
    requires ValidSystem(sys) && FppSystem(sys) && p <= MIN_PRIORITY && MandatorySafe(sys)
    ensures Work(At(sys, t).sched, p) + BusySlots(sys, p, 0, t) == ReleasedWork(sys, At(sys, t), p)
  {
    hide At, Busy, BusySlots, CarryIn, Work, ReleasedWork, FppSystem, MandatorySafe, SafeAt, ValidSystem, Released;
    if t == 0 {
      NothingAtStart(sys, p);
    } else {
      SafeNow(sys, t - 1);
      ReleasedIsExecuted(sys, p, t - 1);
      SlotWork(sys, p, t - 1);
      AllCarriedIn(sys, p, t - 1);
      NextSlot(sys, p, t - 1);
    }
  }

  lemma SafeNow(sys: System, t: nat)
    requires ValidSystem(sys) && MandatorySafe(sys)
    ensures SafeAt(sys, t)
  {
  }

  lemma NothingAtStart(sys: System, p: nat)
    requires ValidSystem(sys)
    ensures Work(At(sys, 0).sched, p) == 0 && BusySlots(sys, p, 0, 0) == 0 && ReleasedWork(sys, At(sys, 0), p) == 0
  {
    NothingReleasedAtStart(sys, p, |sys.specs|);
  }

  lemma {:induction false} NothingReleasedAtStart(sys: System, p: nat, n: nat)
    requires ValidSystem(sys) && n <= |sys.specs|
    ensures Released(sys.specs, At(sys, 0).tasks, p, n) == 0
    ensures At(sys, 0).sched == []
  {
    if n > 0 {
      NothingReleasedAtStart(sys, p, n - 1);
    }
  }

  // ----- Released work and demand -----

  /** By time t > 0 a synchronous task has activated ceil(t/T) jobs. */
  lemma SynchronousActivations(sys: System, i: nat, t: nat)
    requires Strict(sys) && Synchronous(sys.specs) && i < |sys.specs| && t > 0
    ensures At(sys, t).tasks[i].activations == CeilDiv(t, sys.specs[i].period)
  {
    AlwaysPunctual(sys, t);
    StartsBeforeNow(sys, i, t);
    var (spec, ts) := (sys.specs[i], At(sys, t).tasks[i]);
    hide At;
    assert Clock(spec, ts, t);
    assert spec.period * ts.activations == ts.activations * spec.period;
    CeilDivUnique(t, spec.period, ts.activations);
  }

  /** The first n jobs of an unspun task contain as many mandatory ones as any n jobs can. */
  lemma UnspunIsWorst(spec: TaskSpec, n: nat)
    requires ValidModel(spec.model) && (spec.model.Mkp? ==> spec.model.spin == 0)
    ensures MandatoryJobs(spec, n) == MandatoryBound(spec, n)
  {
    if spec.model.Mkp? {
      UnspunPrefixCount(n, spec.model.m, spec.model.k);
    }
  }

  lemma {:induction false} ReleasedIsDemand(sys: System, p: nat, t: nat, n: nat)
    requires Strict(sys) && Synchronous(sys.specs) && t > 0 && n <= |sys.specs|
    ensures Released(sys.specs, At(sys, t).tasks, p, n) == Demand(sys.specs, p, t, n)
  {
    if n > 0 {
      ReleasedIsDemand(sys, p, t, n - 1);
      SynchronousActivations(sys, n - 1, t);
      UnspunIsWorst(sys.specs[n - 1], At(sys, t).tasks[n - 1].activations);
      hide At, MandatoryJobs, MandatoryBound, CeilDiv;
    }
  }

  // ----- Necessity -----

  /** A safe synchronous run shows the demand condition for every task. */
  lemma SafeMeansGuaranteed(sys: System, i: nat)
    requires ValidSystem(sys) && FppSystem(sys) && Synchronous(sys.specs) && MandatorySafe(sys) && i < |sys.specs|
    ensures Guaranteed(sys, i)
  {
    var (spec, p) := (sys.specs[i], sys.specs[i].priority);
    assert ValidSpec(spec) && Strict(sys) && BusySlots(sys, p, 0, 0) == 0;
    hide At, Busy, BusySlots, Ready, Demand, FppSystem, MandatorySafe, Synchronous, Strict, ValidSystem;
    FirstJobAtStart(sys, i);
    var end := FirstJobFinishes(sys, i, 0, spec.et);
    UrgentWorkDone(sys, p, end);
    assert Bounded(sys, i, end);
  }

  /** After a slot that executed no urgent job, all released urgent work has been executed, and it is all there can be. */
  lemma UrgentWorkDone(sys: System, p: nat, end: nat)
    requires ValidSystem(sys) && FppSystem(sys) && Synchronous(sys.specs) && MandatorySafe(sys) && p <= MIN_PRIORITY
    requires end >= 1 && Busy(sys, p, end - 1) == 0
    ensures BusySlots(sys, p, 0, end) == Demand(sys.specs, p, end, |sys.specs|)
  {
    hide At, Busy, BusySlots, Demand, Released, ReleasedWork, Work, CarryIn, FppSystem, MandatorySafe, Synchronous, ValidSystem;
    ReleasedIsExecuted(sys, p, end);
    SlotWork(sys, p, end - 1);
    ReleasedWorkIsDemand(sys, p, end);
  }

  lemma ReleasedWorkIsDemand(sys: System, p: nat, t: nat)
    requires ValidSystem(sys) && FppSystem(sys) && Synchronous(sys.specs) && t > 0
    ensures ReleasedWork(sys, At(sys, t), p) == Demand(sys.specs, p, t, |sys.specs|)
  {
    ReleasedIsDemand(sys, p, t, |sys.specs|);
  }

  // ----- All offsets and spins -----

  /** The task with another offset and another spin. */
  function Variant(spec: TaskSpec, offset: nat, spin: nat): TaskSpec {
    spec.(offset := offset, model := if spec.model.Mkp? then spec.model.(spin := spin) else spec.model)
  }

  function Variants(specs: seq<TaskSpec>, offsets: seq<nat>, spins: seq<nat>): (r: seq<TaskSpec>)
    requires |offsets| == |specs| == |spins|
    ensures |r| == |specs|
  {
    seq(|specs|, i requires 0 <= i < |specs| => Variant(specs[i], offsets[i], spins[i]))
  }

  /** The system with other offsets and spins. */
  function VariantOf(sys: System, offsets: seq<nat>, spins: seq<nat>): System
    requires |offsets| == |sys.specs| == |spins|
  {
    sys.(specs := Variants(sys.specs, offsets, spins))
  }

  lemma VariantIsFpp(sys: System, offsets: seq<nat>, spins: seq<nat>)
    requires FppSystem(sys) && |offsets| == |sys.specs| == |spins|
    ensures FppSystem(VariantOf(sys, offsets, spins))
  {
    var other := VariantOf(sys, offsets, spins);
    forall i | 0 <= i < |other.specs|
      ensures ValidSpec(other.specs[i])
    {
      assert ValidSpec(sys.specs[i]);
    }
  }

  /** Demand does not depend on offsets or spins. */
  lemma {:induction false} VariantDemand(specs: seq<TaskSpec>, others: seq<TaskSpec>, p: nat, window: nat, n: nat)
    requires ValidSpecs(specs) && ValidSpecs(others) && |specs| == |others| && n <= |specs|
    requires forall i :: 0 <= i < |specs| ==> others[i] == Variant(specs[i], others[i].offset, if others[i].model.Mkp? then others[i].model.spin else 0)
    ensures Demand(others, p, window, n) == Demand(specs, p, window, n)
  {
    if n > 0 {
      hide CeilDiv;
      VariantDemand(specs, others, p, window, n - 1);
    }
  }

  lemma VariantGuaranteed(sys: System, offsets: seq<nat>, spins: seq<nat>, i: nat)
    requires FppSystem(sys) && |offsets| == |sys.specs| == |spins| && i < |sys.specs|
    requires FppSystem(VariantOf(sys, offsets, spins))
    ensures Guaranteed(VariantOf(sys, offsets, spins), i) <==> Guaranteed(sys, i)
  {
    var other := VariantOf(sys, offsets, spins);
    forall bound: nat
      ensures Bounded(other, i, bound) <==> Bounded(sys, i, bound)
    {
      VariantDemand(sys.specs, other.specs, sys.specs[i].priority, bound, |sys.specs|);
    }
    hide Bounded;
  }

  ghost predicate VariantSafe(sys: System, offsets: seq<nat>, spins: seq<nat>)
    requires |offsets| == |sys.specs| == |spins|
  {
    ValidSystem(VariantOf(sys, offsets, spins)) && MandatorySafe(VariantOf(sys, offsets, spins))
  }

  ghost predicate AlwaysSafe(sys: System) {
    forall offsets: seq<nat>, spins: seq<nat> :: |offsets| == |sys.specs| == |spins| ==> VariantSafe(sys, offsets, spins)
  }

  ghost predicate AllGuaranteed(sys: System)
    requires ValidSystem(sys)
  {
    forall i :: 0 <= i < |sys.specs| ==> Guaranteed(sys, i)
  }

  function Zeros(n: nat): (r: seq<nat>)
    ensures |r| == n
  {
    seq(n, _ => 0)
  }

  lemma GuaranteedIsSafe(sys: System)
    requires ValidSystem(sys) && FppSystem(sys) && AllGuaranteed(sys)
    ensures MandatorySafe(sys)
  {
    forall t: nat
      ensures SafeAt(sys, t)
    {
      hide At, FppSystem, Guaranteed;
      forall j | j in At(sys, t).sched && IsMandatory(sys.specs[j.task], j.id)
        ensures j.LatestStart() >= t
      {
        MandatorySurvives(sys, t, j);
      }
    }
  }

  lemma SynchronousVariant(sys: System)
    requires FppSystem(sys)
    ensures var other := VariantOf(sys, Zeros(|sys.specs|), Zeros(|sys.specs|));
            Synchronous(other.specs) && FppSystem(other)
  {
    VariantIsFpp(sys, Zeros(|sys.specs|), Zeros(|sys.specs|));
  }

  /**
    Under fixed priorities with both flags on, deadlines at most the periods and
    distinct priorities, no mandatory job is ever about to be cancelled, whatever
    the offsets and spins, if and only if every task has a response bound within
    its deadline. The synchronous unspun run alone decides it.
   */
  lemma SafeExactly(sys: System)
    requires FppSystem(sys)
    ensures AlwaysSafe(sys) <==> AllGuaranteed(sys)
    ensures VariantSafe(sys, Zeros(|sys.specs|), Zeros(|sys.specs|)) <==> AllGuaranteed(sys)
  {
    var zeros := Zeros(|sys.specs|);
    SynchronousVariant(sys);
    hide FppSystem, MandatorySafe, Guaranteed, Synchronous;
    if VariantSafe(sys, zeros, zeros) {
      forall i | 0 <= i < |sys.specs|
        ensures Guaranteed(sys, i)
      {
        SafeMeansGuaranteed(VariantOf(sys, zeros, zeros), i);
        VariantGuaranteed(sys, zeros, zeros, i);
      }
    }
    if AllGuaranteed(sys) {
      forall offsets: seq<nat>, spins: seq<nat> | |offsets| == |sys.specs| == |spins|
        ensures VariantSafe(sys, offsets, spins)
      {
        GuaranteedVariantIsSafe(sys, offsets, spins);
      }
    }
  }

  lemma GuaranteedVariantIsSafe(sys: System, offsets: seq<nat>, spins: seq<nat>)
    requires FppSystem(sys) && AllGuaranteed(sys) && |offsets| == |sys.specs| == |spins|
    ensures VariantSafe(sys, offsets, spins)
  {
    VariantIsFpp(sys, offsets, spins);
    forall i | 0 <= i < |sys.specs|
      ensures Guaranteed(VariantOf(sys, offsets, spins), i)
    {
      VariantGuaranteed(sys, offsets, spins, i);
    }
    hide Guaranteed, MandatorySafe;
    GuaranteedIsSafe(VariantOf(sys, offsets, spins));
  }

  // ----- Refused runs -----

  /** Fixed patterns whose hooks object to the failure of a mandatory job. */
  ghost predicate StrictPatterns(specs: seq<TaskSpec>) {
    forall i :: 0 <= i < |specs| ==> specs[i].model.Mkp? && !specs[i].model.relaxed
  }

  lemma {:induction false} StrictHooks(specs: seq<TaskSpec>, tasks: seq<TaskState>, jobs: seq<JobV>, job: JobV)
    requires |specs| == |tasks| && Owned(jobs, |specs|) && StrictPatterns(specs)
    requires job in jobs && job.priority != MIN_PRIORITY
    ensures !CancelAll(specs, tasks, jobs).1
    decreases |jobs|
  {
    if jobs[0] != job {
      assert job in jobs[1..];
      StrictHooks(specs, tasks[jobs[0].task := CancelledJob(tasks[jobs[0].task], jobs[0])], jobs[1..], job);
    }
  }

  lemma UnsafeStep(sys: System, t: nat)
    requires FppSystem(sys) && StrictPatterns(sys.specs) && !SafeAt(sys, t)
    ensures !InitStep(sys, At(sys, t)).1
  {
    var st := At(sys, t);
    AtNow(sys, t);
    var job :| job in st.sched && IsMandatory(sys.specs[job.task], job.id) && job.LatestStart() < t;
    PendingJobOk(sys, t, job);
    assert ValidSpec(sys.specs[job.task]);
    hide At, IsMandatory;
    SurvivorsAndDoomed(sys.config, st.now, st.sched);
    StrictHooks(sys.specs, st.tasks, Doomed(sys.config, st.now, st.sched), job);
  }

  /** A run that gets past step t was not refused in it. */
  lemma {:induction false} PassedSteps(sys: System, t: nat, steps: nat, u: nat)
    requires ValidSystem(sys) && sys.exitOnCancel && t <= u < t + steps && RunFor(sys, At(sys, t), steps).1
    ensures Accepted(sys, At(sys, u))
    decreases steps
  {
    hide Accepted, Step, Stopped;
    if u > t {
      assert At(sys, t + 1) == Step(sys, At(sys, t));
      PassedSteps(sys, t + 1, steps - 1, u);
    }
  }

  /** When a mandatory job is about to be cancelled at time t, the run is stopped by then. */
  lemma UnsafeIsRefused(sys: System, t: nat)
    requires ValidSystem(sys) && FppSystem(sys) && StrictPatterns(sys.specs) && sys.exitOnCancel && !SafeAt(sys, t)
    ensures !RunFor(sys, Initial(sys), t + 1).1
  {
    hide At, RunFor, Initial, InitStep, FppSystem, SafeAt, ValidSystem, ValidState, Schedule, StrictPatterns;
    UnsafeStep(sys, t);
    StartsAtInitial(sys);
    if RunFor(sys, At(sys, 0), t + 1).1 {
      PassedSteps(sys, 0, t + 1, t);
    }
  }
}
