/**
  Response times under fixed-priority scheduling with both cancellation flags
  on: a busy-period argument over the runs of the simulator.
 */
module FppResponse {
  import opened Arithmetic
  import opened MkPattern
  import opened Machine
  import opened MachineInvariants

  /** Deadlines at most the periods, both flags on, and a priority of its own for every task. */
  ghost predicate FppSystem(sys: System) {
    && Strict(sys)
    && sys.policy == FPP && sys.planner.NoPlan?
    && (forall i :: 0 <= i < |sys.specs| ==> !sys.specs[i].model.Dbp?)
    && forall i, j :: 0 <= i < j < |sys.specs| ==> sys.specs[i].priority != sys.specs[j].priority
  }

  // ----- Pending and released work above a priority -----

  /** The remaining work of the pending jobs that are more urgent than priority p. */
  function Work(s: seq<JobV>, p: nat): nat {
    if s == [] then 0 else (if s[0].priority < p then s[0].rem else 0) + Work(s[1..], p)
  }

  /** How many of the first n jobs of a task keep the task's priority. */
  function MandatoryJobs(spec: TaskSpec, n: nat): nat
    requires ValidModel(spec.model)
  {
    if spec.model.Mkp? then MandatoryCount(0, n, spec.model.spin, spec.model.m, spec.model.k) else n
  }

  /** The work above priority p that a task has released with its first n jobs. */
  function TaskReleased(spec: TaskSpec, p: nat, n: nat): nat
    requires ValidSpec(spec)
  {
    if spec.priority < p then spec.et * MandatoryJobs(spec, n) else 0
  }

  /** The work above priority p that the first n tasks have released. */
  function Released(specs: seq<TaskSpec>, tasks: seq<TaskState>, p: nat, n: nat): nat
    requires |specs| == |tasks| && n <= |specs| && ValidSpecs(specs)
  {
    if n == 0 then 0
    else Released(specs, tasks, p, n - 1) + TaskReleased(specs[n - 1], p, tasks[n - 1].activations)
  }

  function ReleasedWork(sys: System, st: State, p: nat): nat
    requires ValidSystem(sys) && ValidState(sys, st)
  {
    Released(sys.specs, st.tasks, p, |sys.specs|)
  }

  lemma {:induction false} WorkSurvivors(config: Config, now: int, s: seq<JobV>, p: nat)
    ensures Work(Survivors(config, now, s), p) <= Work(s, p)
  {
    if s != [] {
      WorkSurvivors(config, now, s[1..], p);
      var rest := Survivors(config, now, s[1..]);
      assert ([s[0]] + rest)[1..] == rest && [] + rest == rest;
    }
  }

  lemma {:induction false} WorkEnqueue(policy: Policy, s: seq<JobV>, job: JobV, p: nat)
    ensures Work(Enqueue(policy, s, job), p) == Work(s, p) + if job.priority < p then job.rem else 0
  {
    if s != [] && Key(policy, s[0]) <= Key(policy, job) {
      WorkEnqueue(policy, s[1..], job, p);
      assert Enqueue(policy, s, job)[1..] == Enqueue(policy, s[1..], job);
    } else {
      assert ([job] + s)[1..] == s;
    }
  }

  lemma {:induction false} WorkMember(s: seq<JobV>, p: nat)
    requires Work(s, p) > 0
    ensures exists j :: j in s && j.priority < p
  {
    if s[0].priority < p {
      assert s[0] in s;
    } else {
      WorkMember(s[1..], p);
    }
  }

  /** When urgent work is pending, an urgent job is at the front. */
  lemma WorkAtFront(s: seq<JobV>, p: nat)
    requires Ordered(FPP, s) && Work(s, p) > 0
    ensures s[0].priority < p
  {
    WorkMember(s, p);
    OrderedFront(FPP, s);
  }

  lemma {:induction false} ReleasedSame(specs: seq<TaskSpec>, tasks: seq<TaskState>, tasks': seq<TaskState>, p: nat, n: nat)
    requires |specs| == |tasks| == |tasks'| && n <= |specs|
    requires ValidSpecs(specs)
    requires forall i :: 0 <= i < n ==> tasks[i].activations == tasks'[i].activations
    ensures Released(specs, tasks, p, n) == Released(specs, tasks', p, n)
  {
    if n > 0 {
      ReleasedSame(specs, tasks, tasks', p, n - 1);
    }
  }

  lemma {:induction false} ReleasedActivation(specs: seq<TaskSpec>, tasks: seq<TaskState>, ts: TaskState, i: nat, p: nat, n: nat)
    requires |specs| == |tasks| && i < n <= |specs|
    requires ValidSpecs(specs)
    requires ts.activations == tasks[i].activations + 1
    ensures Released(specs, tasks[i := ts], p, n)
            == Released(specs, tasks, p, n)
               + if specs[i].priority < p && IsMandatory(specs[i], tasks[i].activations) then specs[i].et else 0
  {
    if n - 1 == i {
      ReleasedSame(specs, tasks, tasks[i := ts], p, i);
      var a := tasks[i].activations;
      assert specs[i].et * (MandatoryJobs(specs[i], a) + 1) == specs[i].et * MandatoryJobs(specs[i], a) + specs[i].et;
    } else {
      ReleasedActivation(specs, tasks, ts, i, p, n - 1);
    }
  }

  // ----- Work over one step -----

  lemma ActivateOneWork(sys: System, st: State, i: nat, p: nat)
    requires ValidSystem(sys) && ValidState(sys, st) && i < |sys.specs| && p <= MIN_PRIORITY
    requires !sys.specs[i].model.Dbp?
    ensures var r := ActivateOne(sys, st, i);
            Work(r.sched, p) - Work(st.sched, p) == ReleasedWork(sys, r, p) - ReleasedWork(sys, st, p)
  {
    if Due(st, i) {
      var job := Spawn(sys.specs[i], i, st.tasks[i], st.now);
      WorkEnqueue(sys.policy, st.sched, job, p);
      ReleasedActivation(sys.specs, st.tasks, Activated(sys.specs[i], st.tasks[i]), i, p, |sys.specs|);
    }
  }

  lemma {:induction false} ActivationsWork(sys: System, st: State, i: nat, p: nat)
    requires ValidSystem(sys) && ValidState(sys, st) && i <= |sys.specs| && p <= MIN_PRIORITY
    requires forall x :: 0 <= x < |sys.specs| ==> !sys.specs[x].model.Dbp?
    ensures var r := Activations(sys, st, i);
            Work(r.sched, p) - Work(st.sched, p) == ReleasedWork(sys, r, p) - ReleasedWork(sys, st, p)
    decreases |sys.specs| - i
  {
    if i < |sys.specs| {
      ActivateOneWork(sys, st, i, p);
      ActivationsWork(sys, ActivateOne(sys, st, i), i + 1, p);
    }
  }

  /** 1 when the executed job is more urgent than p, else 0. */
  function Front(st: State, p: nat): nat {
    if st.sched != [] && st.sched[0].priority < p then 1 else 0
  }

  lemma ExecuteWork(sys: System, st: State, p: nat)
    requires ValidSystem(sys) && ValidState(sys, st) && JobsOk(sys, st.sched)
    ensures Work(Execute(sys, st).sched, p) == Work(st.sched, p) - Front(st, p)
    ensures ReleasedWork(sys, Execute(sys, st), p) == ReleasedWork(sys, st, p)
  {
    var r := Execute(sys, st);
    if st.sched != [] {
      assert JobOk(sys, st.sched[0]);
      if st.sched[0].rem > 1 {
        assert r.sched[1..] == st.sched[1..];
      }
    }
    ReleasedSame(sys.specs, st.tasks, r.tasks, p, |sys.specs|);
  }

  lemma InitStepWork(sys: System, st: State, p: nat)
    requires ValidSystem(sys) && ValidState(sys, st)
    ensures Work(InitStep(sys, st).0.sched, p) <= Work(st.sched, p)
    ensures ReleasedWork(sys, InitStep(sys, st).0, p) == ReleasedWork(sys, st, p)
  {
    WorkSurvivors(sys.config, st.now, st.sched, p);
    SurvivorsAndDoomed(sys.config, st.now, st.sched);
    forall i | 0 <= i < |st.tasks|
      ensures InitStep(sys, st).0.tasks[i].activations == st.tasks[i].activations
    {
      CancelAllClock(sys.specs, st.tasks, Doomed(sys.config, st.now, st.sched), i);
    }
    ReleasedSame(sys.specs, st.tasks, InitStep(sys, st).0.tasks, p, |sys.specs|);
  }

  // ----- Busy slots of a run -----

  /** The urgent work pending at time t after the cancellations and before the activations. */
  function CarryIn(sys: System, p: nat, t: nat): nat
    requires ValidSystem(sys)
  {
    Work(InitStep(sys, At(sys, t)).0.sched, p)
  }

  function Busy(sys: System, p: nat, t: nat): nat
    requires ValidSystem(sys)
  {
    Front(Ready(sys, At(sys, t)), p)
  }

  /** In how many of the slots from `from` up to `end` a job more urgent than p executes. */
  function BusySlots(sys: System, p: nat, from: nat, end: nat): nat
    requires ValidSystem(sys) && from <= end
  {
    if from == end then 0 else BusySlots(sys, p, from, end - 1) + Busy(sys, p, end - 1)
  }

  /** What one slot does to urgent work. */
  lemma SlotWork(sys: System, p: nat, t: nat)
    requires FppSystem(sys) && p <= MIN_PRIORITY
    ensures Work(At(sys, t + 1).sched, p) + Busy(sys, p, t)
            == CarryIn(sys, p, t) + ReleasedWork(sys, At(sys, t + 1), p) - ReleasedWork(sys, At(sys, t), p)
    ensures Work(At(sys, t + 1).sched, p) > 0 ==> Busy(sys, p, t) == 1
    ensures CarryIn(sys, p, t + 1) <= Work(At(sys, t + 1).sched, p)
  {
    var st := At(sys, t);
    var ready := Ready(sys, st);
    AlwaysPunctual(sys, t);
    StepPunctual(sys, st);
    NoPlanStep(sys, st);
    InitStepWork(sys, st, p);
    ActivationsWork(sys, InitStep(sys, st).0, 0, p);
    ExecuteWork(sys, ready, p);
    InitStepWork(sys, At(sys, t + 1), p);
    AlwaysConserved(sys, t);
    InitStepConserves(sys, st);
    ActivationsConserve(sys, InitStep(sys, st).0, 0);
    if Work(ready.sched, p) > 0 {
      WorkAtFront(ready.sched, p);
    }
  }

  /** From a moment without urgent work on, urgent slots never exceed the urgent work released. */
  lemma {:induction false} BusyWithinReleased(sys: System, p: nat, from: nat, end: nat)
    requires FppSystem(sys) && p <= MIN_PRIORITY && from <= end
    requires CarryIn(sys, p, from) == 0
    ensures BusySlots(sys, p, from, end) + CarryIn(sys, p, end)
            <= ReleasedWork(sys, At(sys, end), p) - ReleasedWork(sys, At(sys, from), p)
  {
    hide CarryIn, Busy, ReleasedWork, At;
    if from < end {
      BusyWithinReleased(sys, p, from, end - 1);
      SlotWork(sys, p, end - 1);
    }
  }

  /** The last moment up to t without urgent carry-in: the start of the busy period t lies in. */
  function BusyStart(sys: System, p: nat, t: nat): (s: nat)
    requires ValidSystem(sys)
    ensures s <= t
  {
    if t == 0 || CarryIn(sys, p, t) == 0 then t else BusyStart(sys, p, t - 1)
  }

  lemma NoCarryInAtStart(sys: System, p: nat)
    requires ValidSystem(sys)
    ensures CarryIn(sys, p, 0) == 0
  {
  }

  /** A busy period starts without carry-in, and every slot from its start to t is urgent. */
  lemma {:induction false} BusyPeriod(sys: System, p: nat, t: nat)
    requires FppSystem(sys) && p <= MIN_PRIORITY
    ensures var s := BusyStart(sys, p, t);
            CarryIn(sys, p, s) == 0 && BusySlots(sys, p, s, t) == t - s
  {
    hide CarryIn, Busy, ReleasedWork, At;
    NoCarryInAtStart(sys, p);
    if t > 0 && CarryIn(sys, p, t) > 0 {
      BusyPeriod(sys, p, t - 1);
      SlotWork(sys, p, t - 1);
    }
  }

  lemma {:induction false} BusySlotsSplit(sys: System, p: nat, from: nat, mid: nat, end: nat)
    requires ValidSystem(sys) && from <= mid <= end
    ensures BusySlots(sys, p, from, end) == BusySlots(sys, p, from, mid) + BusySlots(sys, p, mid, end)
    ensures BusySlots(sys, p, mid, end) <= end - mid
  {
    hide Ready, At;
    if mid < end {
      BusySlotsSplit(sys, p, from, mid, end - 1);
    }
  }

  // ----- The progress of one mandatory job -----

  lemma {:induction false} ActivationsElements(sys: System, st: State, i: nat)
    requires ValidSystem(sys) && ValidState(sys, st) && i <= |sys.specs|
    ensures forall j :: j in Activations(sys, st, i).sched ==>
                          j in st.sched || (j.activation == st.now && j.rem == j.et)
    decreases |sys.specs| - i
  {
    if i < |sys.specs| {
      if Due(st, i) {
        EnqueueElements(sys.policy, st.sched, Spawn(sys.specs[i], i, st.tasks[i], st.now));
      }
      ActivationsElements(sys, ActivateOne(sys, st, i), i + 1);
    }
  }

  lemma ReadyElements(sys: System, st: State)
    requires ValidSystem(sys) && ValidState(sys, st)
    ensures forall j :: j in Ready(sys, st).sched ==>
                          j in st.sched || (j.activation == st.now && j.rem == j.et)
  {
    SurvivorsAndDoomed(sys.config, st.now, st.sched);
    ActivationsElements(sys, InitStep(sys, st).0, 0);
  }

  /**
    In a slot that no more urgent job uses, a pending mandatory job is itself
    executed: it is at the front, and nothing else of its task is pending.
   */
  lemma ExecutedUnlessBusy(sys: System, st: State, job: JobV)
    requires FppSystem(sys) && ValidState(sys, st)
    requires Feasible(sys, st, |sys.specs|) && Ordered(FPP, st.sched)
    requires job in Execute(sys, st).sched && job.priority == sys.specs[job.task].priority
    ensures if Front(st, job.priority) == 1 then job in st.sched else job.(rem := job.rem + 1) in st.sched
  {
    ExecuteJobsOk(sys, st, Execute(sys, st));
    OrderedFront(FPP, st.sched);
    var front := st.sched[0];
    assert JobOk(sys, front);
    if job in st.sched {
      assert JobOk(sys, job);
      if Front(st, job.priority) == 0 {
        assert front.priority == job.priority;
        FrontIsNotBehind(sys, st, job);
      }
    } else {
      assert job == front.(rem := front.rem - 1);
      assert job.(rem := job.rem + 1) == front;
    }
  }

  lemma FrontIsNotBehind(sys: System, st: State, job: JobV)
    requires ValidSystem(sys) && ValidState(sys, st) && JobsOk(sys, st.sched)
    requires st.sched != [] && Pending(st.sched, job.task) <= 1 && st.sched[0].task == job.task
    requires job in Execute(sys, st).sched
    ensures job == st.sched[0].(rem := st.sched[0].rem - 1) && st.sched[0].rem > 1
  {
    var r := Execute(sys, st).sched;
    var x :| 0 <= x < |r| && r[x] == job;
    if st.sched[0].rem <= 1 {
      PendingUnique(st.sched, job.task, 0, x + 1);
    } else if x > 0 {
      PendingUnique(st.sched, job.task, 0, x);
    }
  }

  lemma ReadyConserved(sys: System, t: nat)
    requires FppSystem(sys)
    ensures var ready := Ready(sys, At(sys, t));
            Feasible(sys, ready, |sys.specs|) && Ordered(FPP, ready.sched) && ready.now == t
  {
    AlwaysPunctual(sys, t);
    AlwaysConserved(sys, t);
    var st := At(sys, t);
    hide At;
    StepPunctual(sys, st);
    InitStepConserves(sys, st);
    ActivationsConserve(sys, InitStep(sys, st).0, 0);
    ActivationsTime(sys, InitStep(sys, st).0, 0);
  }

  /** A pending mandatory job has executed in every slot since its activation that was not busy. */
  lemma {:induction false} JobProgress(sys: System, t: nat, job: JobV)
    requires ValidSystem(sys) && FppSystem(sys)
    requires job in At(sys, t).sched && job.priority == sys.specs[job.task].priority
    ensures 0 <= job.activation < t
    ensures BusySlots(sys, job.priority, job.activation, t) == t - job.activation - (job.et - job.rem)
  {
    hide At, Busy, FppSystem, IsMandatory;
    if t == 0 {
      NothingPendingAtStart(sys);
    } else {
      var before := ProgressInSlot(sys, t - 1, job);
      if before in At(sys, t - 1).sched {
        JobProgress(sys, t - 1, before);
      } else {
        assert BusySlots(sys, job.priority, t - 1, t - 1) == 0;
      }
    }
  }

  lemma NothingPendingAtStart(sys: System)
    requires ValidSystem(sys)
    ensures At(sys, 0).sched == []
  {
  }

  /** The job as it was before slot t: already pending, or just activated. */
  lemma ProgressInSlot(sys: System, t: nat, job: JobV) returns (before: JobV)
    requires ValidSystem(sys) && FppSystem(sys)
    requires job in At(sys, t + 1).sched && job.priority == sys.specs[job.task].priority
    ensures Busy(sys, job.priority, t) <= 1 && before == job.(rem := job.rem + 1 - Busy(sys, job.priority, t))
    ensures before in At(sys, t).sched || (before.activation == t && before.rem == before.et)
  {
    assert sys.planner.NoPlan?;
    hide At, Ready, Execute, Busy, FppSystem, Feasible, Ordered;
    SlotIsExecute(sys, job.priority, t);
    ReadyConserved(sys, t);
    AtNow(sys, t);
    before := ProgressInStep(sys, At(sys, t), job);
  }

  lemma ProgressInStep(sys: System, st: State, job: JobV) returns (before: JobV)
    requires ValidSystem(sys) && FppSystem(sys) && ValidState(sys, st)
    requires Feasible(sys, Ready(sys, st), |sys.specs|) && Ordered(FPP, Ready(sys, st).sched)
    requires job in Execute(sys, Ready(sys, st)).sched && job.priority == sys.specs[job.task].priority
    ensures before == job.(rem := job.rem + 1 - Front(Ready(sys, st), job.priority))
    ensures before in st.sched || (before.activation == st.now && before.rem == before.et)
  {
    hide Ready, Execute, FppSystem, Feasible, Ordered;
    ReadyElements(sys, st);
    ExecutedUnlessBusy(sys, Ready(sys, st), job);
    before := job.(rem := job.rem + 1 - Front(Ready(sys, st), job.priority));
  }

  lemma AtNow(sys: System, t: nat)
    requires FppSystem(sys)
    ensures At(sys, t).now == t
  {
    AlwaysPunctual(sys, t);
  }

  lemma SlotIsExecute(sys: System, p: nat, t: nat)
    requires ValidSystem(sys) && sys.planner.NoPlan?
    ensures At(sys, t + 1) == Tick(Execute(sys, Ready(sys, At(sys, t))))
    ensures Busy(sys, p, t) == Front(Ready(sys, At(sys, t)), p)
  {
    hide Ready, Execute, Serve;
    NoPlanStep(sys, At(sys, t));
    assert At(sys, t + 1) == Step(sys, At(sys, t));
  }

  // ----- The bound -----

  /** The most mandatory jobs among any n consecutive jobs of a task. */
  function MandatoryBound(spec: TaskSpec, n: nat): nat
    requires ValidModel(spec.model)
  {
    if spec.model.Mkp? then CeilDiv(n * spec.model.m, spec.model.k) else n
  }

  /** What one task can release above priority p within a window. */
  function TaskDemand(spec: TaskSpec, p: nat, window: nat): nat
    requires ValidSpec(spec)
  {
    if spec.priority < p then spec.et * MandatoryBound(spec, CeilDiv(window, spec.period)) else 0
  }

  /** The most work above priority p that the first n tasks can release within a window of given length. */
  function Demand(specs: seq<TaskSpec>, p: nat, window: nat, n: nat): nat
    requires n <= |specs| && ValidSpecs(specs)
  {
    if n == 0 then 0 else Demand(specs, p, window, n - 1) + TaskDemand(specs[n - 1], p, window)
  }

  /** Within a window, a task activates at most ceil(window/period) jobs. */
  lemma ActivationsInWindow(sys: System, i: nat, from: nat, end: nat)
    requires Strict(sys) && i < |sys.specs| && from <= end
    ensures At(sys, from).tasks[i].activations <= At(sys, end).tasks[i].activations
    ensures At(sys, end).tasks[i].activations - At(sys, from).tasks[i].activations
            <= CeilDiv(end - from, sys.specs[i].period)
  {
    AlwaysPunctual(sys, from);
    AlwaysPunctual(sys, end);
    ActivationsGrow(sys, i, from, end);
    StartsBeforeNow(sys, i, end);
    hide At;
    var (before, after) := (At(sys, from).tasks[i], At(sys, end).tasks[i]);
    var spec := sys.specs[i];
    assert Clock(spec, before, from) && Clock(spec, after, end);
    ArrivalsInWindow(spec.offset, spec.period, before.activations, after.activations, from, end);
  }

  /** Of the instants offset + n*period, at most ceil((end-from)/period) lie within a window. */
  lemma ArrivalsInWindow(offset: nat, period: nat, a: nat, b: nat, from: nat, end: nat)
    requires period >= 1 && from <= end && a <= b
    requires offset + a * period >= from
    requires b > 0 ==> offset + b * period - period < end
    ensures b - a <= CeilDiv(end - from, period)
  {
    CeilDivBounds(end - from, period);
    var c := CeilDiv(end - from, period);
    hide CeilDiv;
    if c < b - a {
      assert (b - a - 1) * period == b * period - a * period - period;
      MulMonotone(period, c, b - a - 1);
    }
  }

  lemma {:induction false} ActivationsGrow(sys: System, i: nat, from: nat, end: nat)
    requires ValidSystem(sys) && i < |sys.specs| && from <= end
    ensures At(sys, from).tasks[i].activations <= At(sys, end).tasks[i].activations
    decreases end
  {
    hide Step;
    if from < end {
      ActivationsGrow(sys, i, from, end - 1);
      StepActivates(sys, At(sys, end - 1), i);
    }
  }

  lemma StepActivates(sys: System, st: State, i: nat)
    requires ValidSystem(sys) && ValidState(sys, st) && i < |sys.specs|
    ensures var ts := Step(sys, st).tasks[i];
            if st.now >= st.tasks[i].next
            then ts.activations == st.tasks[i].activations + 1 && ts.next == st.tasks[i].next + sys.specs[i].period
            else ts.activations == st.tasks[i].activations && ts.next == st.tasks[i].next
  {
    SurvivorsAndDoomed(sys.config, st.now, st.sched);
    CancelAllClock(sys.specs, st.tasks, Doomed(sys.config, st.now, st.sched), i);
    ActivationsOfTask(sys, InitStep(sys, st).0, 0, i);
    hide Activations, Serve;
    ServeKeepsClock(sys, Ready(sys, st), i);
  }

  lemma ServeKeepsClock(sys: System, st: State, i: nat)
    requires ValidSystem(sys) && ValidState(sys, st) && i < |sys.specs|
    ensures Serve(sys, st).tasks[i].next == st.tasks[i].next
    ensures Serve(sys, st).tasks[i].activations == st.tasks[i].activations
  {
    DecisionPartitions(sys, st);
    CancelAllClock(sys.specs, st.tasks, Decide(sys, st).cancelled, i);
    hide Decide, CancelAll;
  }

  lemma {:induction false} ActivationsOfTask(sys: System, st: State, i: nat, x: nat)
    requires ValidSystem(sys) && ValidState(sys, st) && i <= |sys.specs| && x < |sys.specs|
    ensures Activations(sys, st, i).tasks[x]
            == if i <= x && Due(st, x) then Activated(sys.specs[x], st.tasks[x]) else st.tasks[x]
    decreases |sys.specs| - i
  {
    if i < |sys.specs| {
      ActivationsOfTask(sys, ActivateOne(sys, st, i), i + 1, x);
    }
  }

  /** The latest activation of a task lies strictly before the current step. */
  lemma {:induction false} StartsBeforeNow(sys: System, i: nat, t: nat)
    requires Strict(sys) && i < |sys.specs|
    ensures At(sys, t).tasks[i].activations > 0 ==> At(sys, t).tasks[i].next - sys.specs[i].period < t
  {
    hide Step;
    if t > 0 {
      StartsBeforeNow(sys, i, t - 1);
      AlwaysPunctual(sys, t - 1);
      StepActivates(sys, At(sys, t - 1), i);
    }
  }

  lemma MandatoryJobsInStretch(spec: TaskSpec, a: nat, b: nat)
    requires ValidModel(spec.model) && a <= b
    ensures MandatoryJobs(spec, a) <= MandatoryJobs(spec, b)
    ensures MandatoryJobs(spec, b) - MandatoryJobs(spec, a) <= MandatoryBound(spec, b - a)
  {
    if spec.model.Mkp? {
      var Mkp(m, k, spin, _) := spec.model;
      MandatoryCountIsQuota(0, a, spin, m, k);
      MandatoryCountIsQuota(0, b, spin, m, k);
      MandatoryCountIsQuota(a, b - a, spin, m, k);
      StretchBound(a, b - a, spin, m, k);
      assert 0 + spin + b == a + spin + (b - a) && 0 + spin + a == a + spin;
    }
  }

  lemma MandatoryBoundMonotone(spec: TaskSpec, a: nat, b: nat)
    requires ValidModel(spec.model) && a <= b
    ensures MandatoryBound(spec, a) <= MandatoryBound(spec, b)
  {
    if spec.model.Mkp? {
      MulMonotone(spec.model.m, a, b);
      CeilDivMonotone(a * spec.model.m, b * spec.model.m, spec.model.k);
    }
  }

  lemma TaskReleaseBound(spec: TaskSpec, a: nat, b: nat, n: nat)
    requires ValidModel(spec.model) && a <= b <= a + n
    ensures 0 <= spec.et * MandatoryJobs(spec, b) - spec.et * MandatoryJobs(spec, a) <= spec.et * MandatoryBound(spec, n)
  {
    MandatoryJobsInStretch(spec, a, b);
    MandatoryBoundMonotone(spec, b - a, n);
    hide MandatoryJobs, MandatoryBound;
    ScaledDifference(spec.et, MandatoryJobs(spec, a), MandatoryJobs(spec, b), MandatoryBound(spec, n));
  }

  lemma TaskReleasedWithinDemand(sys: System, p: nat, from: nat, end: nat, i: nat)
    requires Strict(sys) && from <= end && i < |sys.specs|
    ensures var (a, b) := (At(sys, from).tasks[i].activations, At(sys, end).tasks[i].activations);
            0 <= TaskReleased(sys.specs[i], p, b) - TaskReleased(sys.specs[i], p, a)
            <= TaskDemand(sys.specs[i], p, end - from)
  {
    hide At, MandatoryJobs, MandatoryBound, CeilDiv;
    ActivationsInWindow(sys, i, from, end);
    TaskReleaseBound(sys.specs[i], At(sys, from).tasks[i].activations, At(sys, end).tasks[i].activations,
                     CeilDiv(end - from, sys.specs[i].period));
  }

  /** The work released within a window stays within the demand bound. */
  lemma {:induction false} ReleasedWithinDemand(sys: System, p: nat, from: nat, end: nat, n: nat)
    requires Strict(sys) && from <= end && n <= |sys.specs|
    ensures 0 <= Released(sys.specs, At(sys, end).tasks, p, n) - Released(sys.specs, At(sys, from).tasks, p, n)
            <= Demand(sys.specs, p, end - from, n)
  {
    hide At, TaskReleased, TaskDemand, Strict, ValidSpec;
    if n > 0 {
      ReleasedWithinDemand(sys, p, from, end, n - 1);
      TaskReleasedWithinDemand(sys, p, from, end, n - 1);
    }
  }

  /** A window of length `bound` offers task i its execution time beside all more urgent demand. */
  ghost predicate Bounded(sys: System, i: nat, bound: nat)
    requires ValidSystem(sys) && i < |sys.specs|
  {
    Demand(sys.specs, sys.specs[i].priority, bound, |sys.specs|) + sys.specs[i].et <= bound
  }

  lemma PendingJobOk(sys: System, t: nat, job: JobV)
    requires ValidSystem(sys) && job in At(sys, t).sched
    ensures JobOk(sys, job)
  {
    hide At;
    AlwaysConserved(sys, t);
  }

  /** Every pending mandatory job of task i can still finish within `bound` of its activation. */
  lemma ResponseBound(sys: System, i: nat, bound: nat, t: nat, job: JobV)
    requires FppSystem(sys) && i < |sys.specs| && Bounded(sys, i, bound)
    requires job in At(sys, t).sched && job.task == i && job.priority == sys.specs[i].priority
    ensures t + job.rem <= job.activation + bound
  {
    hide At, BusySlots, BusyStart, CarryIn, Released, Demand, Conserved;
    var p := job.priority;
    JobProgress(sys, t, job);
    PendingJobOk(sys, t, job);
    var s := BusyStart(sys, p, job.activation);
    BusyPeriod(sys, p, job.activation);
    BusySlotsSplit(sys, p, s, job.activation, t);
    var end := if t <= s + bound then t else s + bound;
    BusyWithinReleased(sys, p, s, end);
    ReleasedWithinDemand(sys, p, s, end, |sys.specs|);
    DemandMonotone(sys.specs, p, end - s, bound, |sys.specs|);
    BusySlotsSplit(sys, p, s, end, t);
  }

  lemma {:induction false} DemandMonotone(specs: seq<TaskSpec>, p: nat, w: nat, w': nat, n: nat)
    requires n <= |specs| && w <= w'
    requires ValidSpecs(specs)
    ensures Demand(specs, p, w, n) <= Demand(specs, p, w', n)
  {
    if n > 0 {
      var spec := specs[n - 1];
      DemandMonotone(specs, p, w, w', n - 1);
      CeilDivMonotone(w, w', spec.period);
      MandatoryBoundMonotone(spec, CeilDiv(w, spec.period), CeilDiv(w', spec.period));
      MulMonotone(spec.et, MandatoryBound(spec, CeilDiv(w, spec.period)), MandatoryBound(spec, CeilDiv(w', spec.period)));
    }
  }
}
