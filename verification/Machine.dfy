/**
  The simulator as a transition system on values: what one time step of
  `Simulation::run` does to the pending jobs and the tasks.

  The scheduler's redundant lists (deadline monitor, list of late jobs) do not
  occur here; the classes in AldScheduler.dfy and Simulation.dfy, which keep
  them, are proved to follow this system.
 */
module Machine {
  import opened MkPattern
  import opened MkWindow
  import Utility

  /** TMS_MIN_PRIORITY: the priority of optional jobs. Smaller numbers are more urgent. */
  const MIN_PRIORITY: nat := 0xFFFF_FFFF

  /**
    PeriodicTask, MkTask, DbpTask and MkpTask. `spin` is the spin in use (0 when
    disabled).
   */
  datatype Model =
    | Periodic
    | Mk(m: nat, k: nat)
    | Dbp(m: nat, k: nat)
    | Mkp(m: nat, k: nat, spin: nat, relaxed: bool)

  /**
    `initial` is the state a task's monitor really starts from, oldest outcome
    first. For a DbpTask made from its parameters these are successes, because its
    constructor passes the state it is given on as a spin (dbptask.cpp:42-45).
   */
  datatype TaskSpec = TaskSpec(
    period: nat, offset: nat, et: nat, relDeadline: nat, priority: nat, model: Model, initial: seq<nat>)

  datatype Config = Config(execCancellations: bool, dlMissCancellations: bool)

  /** The order in which a scheduler keeps the pending jobs. */
  datatype Policy = FPP | EDF

  /**
    What a scheduler's `schedule` makes of the pending jobs: the ones to keep, the
    first of which is executed unless none is to be, and the ones to cancel.
   */
  datatype Decision = Decision(kept: seq<JobV>, cancelled: seq<JobV>, idle: bool)

  /** `NoPlan`: `schedule` does nothing and the first pending job is executed. */
  datatype Planner = NoPlan | Planned(decide: State -> Decision)

  /** `exitOnCancel` is the EC_CANCEL bit of the simulation's exit condition. */
  datatype System = System(
    specs: seq<TaskSpec>, config: Config, policy: Policy, exitOnCancel: bool, planner: Planner)

  datatype JobV = JobV(task: nat, id: nat, activation: int, et: nat, deadline: int, priority: nat, rem: nat)
  {
    function LatestStart(): int {
      deadline - rem
    }

    predicate Started() {
      rem < et
    }
  }

  /** A task's activation clock, its counters, and the outcomes and utilities of its jobs, oldest first. */
  datatype TaskState = TaskState(
    next: int, activations: nat, completions: nat, cancellations: nat,
    execCancellations: nat, misses: nat, history: seq<nat>, utilities: seq<real>)

  datatype State = State(now: int, sched: seq<JobV>, tasks: seq<TaskState>)

  // ----- Task models -----

  predicate ValidModel(model: Model) {
    match model
    case Periodic => true
    case Mk(m, k) => 1 <= m <= k < 64
    case Dbp(m, k) => 1 <= m <= k < 64
    case Mkp(m, k, _, _) => 1 <= m <= k < 64
  }

  predicate ValidSpec(spec: TaskSpec) {
    && spec.period >= 1
    && 1 <= spec.et <= spec.relDeadline
    && spec.priority < MIN_PRIORITY
    && ValidModel(spec.model)
    && (!spec.model.Periodic? ==> |spec.initial| == spec.model.k && forall i :: 0 <= i < |spec.initial| ==> spec.initial[i] <= 1)
  }

  /** Job number `id` of the task keeps the task's priority. */
  predicate IsMandatory(spec: TaskSpec, id: nat)
    requires ValidModel(spec.model)
  {
    spec.model.Mkp? ==> IsJobMandatory(id, spec.model.spin, spec.model.m, spec.model.k)
  }

  /** How many of the following jobs have to fail until fewer than m successes are left in the window. */
  function FailureDistance(m: nat, window: seq<nat>): nat {
    if |window| == 0 || Sum(window) < m then 0 else 1 + FailureDistance(m, window[1..])
  }

  /** The priority of the task's next job. */
  function JobPriority(spec: TaskSpec, ts: TaskState): nat
    requires ValidSpec(spec)
  {
    if spec.model.Dbp? then FailureDistance(spec.model.m, Last(spec.model.k, spec.initial + ts.history))
    else if IsMandatory(spec, ts.activations) then spec.priority
    else MIN_PRIORITY
  }

  function Spawn(spec: TaskSpec, task: nat, ts: TaskState, now: int): JobV
    requires ValidSpec(spec)
  {
    JobV(task, ts.activations, now, spec.et, now + spec.relDeadline, JobPriority(spec, ts), spec.et)
  }

  function Activated(spec: TaskSpec, ts: TaskState): TaskState {
    ts.(next := ts.next + spec.period, activations := ts.activations + 1)
  }

  function Completed(ts: TaskState, job: JobV, now: int): TaskState {
    ts.(completions := ts.completions + 1,
    misses := if job.deadline < now then ts.misses + 1 else ts.misses,
    history := ts.history + [1],
    utilities := ts.utilities + [Utility.FirmUtility(now, job.deadline)])
  }

  function CancelledJob(ts: TaskState, job: JobV): TaskState {
    ts.(cancellations := ts.cancellations + 1,
    execCancellations := if job.Started() then ts.execCancellations + 1 else ts.execCancellations,
    history := ts.history + [0],
    utilities := ts.utilities + [0.0])
  }

  /** The answer of the task's cancelHook after it recorded the cancellation. */
  predicate CancelHook(spec: TaskSpec, after: TaskState, job: JobV) {
    match spec.model
    case Periodic => true
    case Mk(m, k) => Firm(m, k, after.history)
    case Dbp(m, k) => Firm(m, k, after.history)
    case Mkp(m, k, _, relaxed) =>
      if relaxed then Firm(m, k, after.history) else job.priority == MIN_PRIORITY
  }

  // ----- The pending jobs -----

  function Key(policy: Policy, job: JobV): int {
    match policy
    case FPP => job.priority
    case EDF => job.deadline
  }

  /** Insertion behind all jobs of smaller or equal key. */
  function Enqueue(policy: Policy, s: seq<JobV>, job: JobV): (r: seq<JobV>)
    ensures |r| == |s| + 1
  {
    if s != [] && Key(policy, s[0]) <= Key(policy, job) then [s[0]] + Enqueue(policy, s[1..], job)
    else [job] + s
  }

  /** The job stays in the schedule when a step starts at `now`. */
  predicate Survives(config: Config, now: int, job: JobV) {
    || !config.dlMissCancellations
    || job.LatestStart() >= now
    || (!config.execCancellations && job.Started())
  }

  function Survivors(config: Config, now: int, s: seq<JobV>): (r: seq<JobV>)
    ensures |r| <= |s|
  {
    if s == [] then []
    else (if Survives(config, now, s[0]) then [s[0]] else []) + Survivors(config, now, s[1..])
  }

  function Doomed(config: Config, now: int, s: seq<JobV>): (r: seq<JobV>)
    ensures |r| <= |s|
  {
    if s == [] then []
    else (if Survives(config, now, s[0]) then [] else [s[0]]) + Doomed(config, now, s[1..])
  }

  // ----- One time step -----

  /** Job `job` belongs to one of n tasks. */
  predicate Owned(s: seq<JobV>, n: nat) {
    forall j :: j in s ==> j.task < n
  }

  /** Reports cancellations to the tasks in list order; the flag collects the hooks' answers. */
  function CancelAll(specs: seq<TaskSpec>, tasks: seq<TaskState>, jobs: seq<JobV>): (r: (seq<TaskState>, bool))
    requires |specs| == |tasks| && Owned(jobs, |specs|)
    ensures |r.0| == |tasks|
    decreases |jobs|
  {
    if jobs == [] then (tasks, true)
    else
      var job := jobs[0];
      var after := CancelledJob(tasks[job.task], job);
      var (rest, ok) := CancelAll(specs, tasks[job.task := after], jobs[1..]);
      (rest, CancelHook(specs[job.task], after, job) && ok)
  }

  /** A decision keeps or cancels each pending job. */
  ghost predicate Partitions(sched: seq<JobV>, decision: Decision) {
    multiset(decision.kept) + multiset(decision.cancelled) == multiset(sched)
  }

  ghost predicate ValidPlanner(planner: Planner) {
    planner.Planned? ==> forall st: State :: Partitions(st.sched, planner.decide(st))
  }

  ghost predicate ValidSpecs(specs: seq<TaskSpec>) {
    forall i :: 0 <= i < |specs| ==> ValidSpec(specs[i])
  }

  ghost predicate ValidSystem(sys: System) {
    ValidSpecs(sys.specs) && ValidPlanner(sys.planner)
  }

  predicate ValidState(sys: System, st: State) {
    && |st.tasks| == |sys.specs|
    && Owned(st.sched, |sys.specs|)
  }

  lemma {:induction false} SurvivorsAndDoomed(config: Config, now: int, s: seq<JobV>)
    ensures forall j :: j in Survivors(config, now, s) <==> j in s && Survives(config, now, j)
    ensures forall j :: j in Doomed(config, now, s) <==> j in s && !Survives(config, now, j)
  {
    hide Survives;
    if s != [] {
      SurvivorsAndDoomed(config, now, s[1..]);
      assert s == [s[0]] + s[1..];
    }
  }

  lemma {:induction false} AllSurvive(config: Config, now: int, s: seq<JobV>)
    requires forall i :: 0 <= i < |s| ==> Survives(config, now, s[i])
    ensures Survivors(config, now, s) == s && Doomed(config, now, s) == []
  {
    hide Survives;
    if s != [] {
      AllSurvive(config, now, s[1..]);
    }
  }

  lemma {:induction false} EnqueueElements(policy: Policy, s: seq<JobV>, job: JobV)
    ensures multiset(Enqueue(policy, s, job)) == multiset(s) + multiset{job}
    ensures forall j :: j in Enqueue(policy, s, job) <==> j in s || j == job
  {
    if s != [] && Key(policy, s[0]) <= Key(policy, job) {
      EnqueueElements(policy, s[1..], job);
      assert s == [s[0]] + s[1..];
    }
  }

  /** `initStep`: jobs that cannot meet their deadline leave, and their tasks are told. */
  function InitStep(sys: System, st: State): (r: (State, bool))
    requires ValidState(sys, st)
    ensures ValidState(sys, r.0)
  {
    SurvivorsAndDoomed(sys.config, st.now, st.sched);
    var (tasks, ok) := CancelAll(sys.specs, st.tasks, Doomed(sys.config, st.now, st.sched));
    (State(st.now, Survivors(sys.config, st.now, st.sched), tasks), ok)
  }

  predicate Due(st: State, i: nat)
    requires i < |st.tasks|
  {
    st.now >= st.tasks[i].next
  }

  /** `doActivations` from task i on, in task-set order. */
  function Activations(sys: System, st: State, i: nat): (r: State)
    requires ValidSystem(sys) && ValidState(sys, st) && i <= |sys.specs|
    ensures ValidState(sys, r)
    decreases |sys.specs| - i
  {
    if i == |sys.specs| then st
    else if Due(st, i) then
      var job := Spawn(sys.specs[i], i, st.tasks[i], st.now);
      EnqueueElements(sys.policy, st.sched, job);
      Activations(sys, State(st.now, Enqueue(sys.policy, st.sched, job),
                             st.tasks[i := Activated(sys.specs[i], st.tasks[i])]), i + 1)
    else Activations(sys, st, i + 1)
  }

  /** `doExecutions`: the first job runs for one time unit. */
  function Execute(sys: System, st: State): (r: State)
    requires ValidState(sys, st)
    ensures ValidState(sys, r)
  {
    if st.sched == [] then st
    else
      var job := st.sched[0];
      if job.rem <= 1 then
        st.(sched := st.sched[1..],
        tasks := st.tasks[job.task := Completed(st.tasks[job.task], job, st.now)])
      else
        st.(sched := [job.(rem := job.rem - 1)] + st.sched[1..])
  }

  function Tick(st: State): State {
    st.(now := st.now + 1)
  }

  /** The state in which `schedule` is called. */
  function Ready(sys: System, st: State): (r: State)
    requires ValidSystem(sys) && ValidState(sys, st)
    ensures ValidState(sys, r)
  {
    Activations(sys, InitStep(sys, st).0, 0)
  }

  function Decide(sys: System, st: State): Decision {
    match sys.planner
    case NoPlan => Decision(st.sched, [], false)
    case Planned(decide) => decide(st)
  }

  lemma DecisionPartitions(sys: System, st: State)
    requires ValidSystem(sys)
    ensures Partitions(st.sched, Decide(sys, st))
    ensures forall j :: j in Decide(sys, st).kept || j in Decide(sys, st).cancelled ==> j in st.sched
  {
    var d := Decide(sys, st);
    forall j | j in d.kept || j in d.cancelled
      ensures j in st.sched
    {
      assert j in multiset(d.kept) + multiset(d.cancelled);
      assert j in multiset(st.sched);
    }
  }

  /** `schedule`: jobs the scheduler gives up leave, and their tasks are told. */
  function Schedule(sys: System, st: State): (r: (State, bool))
    requires ValidSystem(sys) && ValidState(sys, st)
    ensures ValidState(sys, r.0)
  {
    DecisionPartitions(sys, st);
    var (tasks, ok) := CancelAll(sys.specs, st.tasks, Decide(sys, st).cancelled);
    (State(st.now, Decide(sys, st).kept, tasks), ok)
  }

  /** `doExecutions`, whatever the cancellation hooks answer. */
  function Serve(sys: System, st: State): (r: State)
    requires ValidSystem(sys) && ValidState(sys, st)
    ensures ValidState(sys, r)
  {
    if Decide(sys, st).idle then Schedule(sys, st).0 else Execute(sys, Schedule(sys, st).0)
  }

  /** One whole step of the loop in `run`, whatever the cancellation hooks answer. */
  function Step(sys: System, st: State): (r: State)
    requires ValidSystem(sys) && ValidState(sys, st)
    ensures ValidState(sys, r)
  {
    Tick(Serve(sys, Ready(sys, st)))
  }

  /** No task refuses a cancellation in the step. */
  predicate Accepted(sys: System, st: State)
    requires ValidSystem(sys) && ValidState(sys, st)
  {
    InitStep(sys, st).1 && Schedule(sys, Ready(sys, st)).1
  }

  /** Where the simulation stops in a step in which a task refuses a cancellation. */
  function Stopped(sys: System, st: State): (r: State)
    requires ValidSystem(sys) && ValidState(sys, st)
    ensures ValidState(sys, r)
  {
    if !InitStep(sys, st).1 then InitStep(sys, st).0 else Schedule(sys, Ready(sys, st)).0
  }

  /** Without a planner nothing is decided, and the first job is executed. */
  lemma NoPlanStep(sys: System, st: State)
    requires ValidSystem(sys) && ValidState(sys, st) && sys.planner.NoPlan?
    ensures Schedule(sys, st) == (st, true)
    ensures Serve(sys, st) == Execute(sys, st)
    ensures Step(sys, st) == Tick(Execute(sys, Ready(sys, st)))
    ensures Accepted(sys, st) <==> InitStep(sys, st).1
  {
    assert forall st' :: Decide(sys, st') == Decision(st'.sched, [], false);
  }

  /** `run`: at most `steps` steps, stopping in the first step in which a cancellation is refused. */
  function RunFor(sys: System, st: State, steps: nat): (r: (State, bool))
    requires ValidSystem(sys) && ValidState(sys, st)
    ensures ValidState(sys, r.0)
    decreases steps
  {
    if steps == 0 then (st, true)
    else if !Accepted(sys, st) && sys.exitOnCancel then (Stopped(sys, st), false)
    else RunFor(sys, Step(sys, st), steps - 1)
  }

  /** The time the pending jobs can keep the simulator busy, one unit per job added. */
  function Load(s: seq<JobV>): nat {
    if s == [] then 0 else s[0].rem + 1 + Load(s[1..])
  }

  lemma {:induction false} SurvivorsLoad(config: Config, now: int, s: seq<JobV>)
    ensures Load(Survivors(config, now, s)) <= Load(s)
    ensures Survivors(config, now, s) == [] && s != [] ==> Load(s) > 0
  {
    hide Survives;
    if s != [] {
      SurvivorsLoad(config, now, s[1..]);
      var rest := Survivors(config, now, s[1..]);
      assert ([s[0]] + rest)[1..] == rest && [] + rest == rest;
    }
  }

  lemma {:induction false} LoadAppend(s: seq<JobV>, t: seq<JobV>)
    ensures Load(s + t) == Load(s) + Load(t)
  {
    if s == [] {
      assert s + t == t;
    } else {
      assert (s + t)[1..] == s[1..] + t;
      LoadAppend(s[1..], t);
    }
  }

  lemma RemovedOnce(t: seq<JobV>, i: nat)
    requires i < |t|
    ensures multiset(t[..i] + t[i + 1..]) == multiset(t) - multiset{t[i]}
  {
    assert t == t[..i] + [t[i]] + t[i + 1..];
  }

  lemma {:induction false} LoadPermutation(s: seq<JobV>, t: seq<JobV>)
    requires multiset(s) == multiset(t)
    ensures Load(s) == Load(t)
    decreases |s|
  {
    assert |s| == |multiset(s)| && |t| == |multiset(t)|;
    if s != [] {
      assert s[0] in multiset(t);
      var i :| 0 <= i < |t| && t[i] == s[0];
      assert s == [s[0]] + s[1..];
      assert t == t[..i] + ([t[i]] + t[i + 1..]);
      LoadAppend(t[..i], [t[i]] + t[i + 1..]);
      LoadAppend(t[..i], t[i + 1..]);
      assert ([t[i]] + t[i + 1..])[1..] == t[i + 1..];
      RemovedOnce(t, i);
      LoadPermutation(s[1..], t[..i] + t[i + 1..]);
    }
  }

  /** A decision divides the load. */
  lemma DecisionLoad(sys: System, st: State)
    requires ValidSystem(sys)
    ensures Load(Decide(sys, st).kept) + Load(Decide(sys, st).cancelled) == Load(st.sched)
  {
    var d := Decide(sys, st);
    DecisionPartitions(sys, st);
    LoadAppend(d.kept, d.cancelled);
    LoadPermutation(d.kept + d.cancelled, st.sched);
  }

  /** `schedule` never lets the processor idle while a job is kept. */
  ghost predicate NeverIdles(planner: Planner) {
    planner.Planned? ==> forall st: State :: !planner.decide(st).idle
  }

  /** One step of the loop in `finalise`, which activates no jobs. */
  function FinaliseStep(sys: System, st: State): (r: State)
    requires ValidSystem(sys) && ValidState(sys, st)
    ensures ValidState(sys, r)
  {
    Tick(Serve(sys, InitStep(sys, st).0))
  }

  lemma ExecuteProgress(sys: System, st: State)
    requires ValidState(sys, st)
    ensures Load(Execute(sys, st).sched) <= Load(st.sched)
    ensures st.sched != [] ==> Load(Execute(sys, st).sched) < Load(st.sched)
  {
    if st.sched != [] && st.sched[0].rem > 1 {
      assert Execute(sys, st).sched[1..] == st.sched[1..];
    }
  }

  lemma FinaliseProgress(sys: System, st: State)
    requires ValidSystem(sys) && ValidState(sys, st) && NeverIdles(sys.planner) && st.sched != []
    ensures Load(FinaliseStep(sys, st).sched) < Load(st.sched)
  {
    SurvivorsLoad(sys.config, st.now, st.sched);
    var init := InitStep(sys, st).0;
    assert init.sched == Survivors(sys.config, st.now, st.sched);
    DecisionLoad(sys, init);
    var planned := Schedule(sys, init).0;
    assert planned.sched == Decide(sys, init).kept;
    hide InitStep, Survivors, Schedule, Decide;
    ExecuteProgress(sys, planned);
    assert Serve(sys, init) == Execute(sys, planned);
  }

  /** `finalise`: executes what is pending, without activations, until nothing is. */
  function Finalise(sys: System, st: State): (r: (State, bool))
    requires ValidSystem(sys) && ValidState(sys, st) && NeverIdles(sys.planner)
    ensures ValidState(sys, r.0)
    decreases Load(st.sched)
  {
    if st.sched == [] then (st, true)
    else
      FinaliseProgress(sys, st);
      var (init, ok) := InitStep(sys, st);
      if !ok && sys.exitOnCancel then (init, false)
      else
        var (planned, ok') := Schedule(sys, init);
        if !ok' && sys.exitOnCancel then (Tick(planned), false) else Finalise(sys, FinaliseStep(sys, st))
  }

  /** At most n iterations of the same loop, for any scheduler. */
  function FinaliseFor(sys: System, st: State, n: nat): (r: (State, bool))
    requires ValidSystem(sys) && ValidState(sys, st)
    ensures ValidState(sys, r.0)
    decreases n
  {
    if n == 0 || st.sched == [] then (st, true)
    else
      var (init, ok) := InitStep(sys, st);
      if !ok && sys.exitOnCancel then (init, false)
      else
        var (planned, ok') := Schedule(sys, init);
        if !ok' && sys.exitOnCancel then (Tick(planned), false) else FinaliseFor(sys, FinaliseStep(sys, st), n - 1)
  }

  function Initial(sys: System): (r: State)
    ensures ValidState(sys, r)
  {
    State(0, [], seq(|sys.specs|, i requires 0 <= i < |sys.specs| =>
      TaskState(sys.specs[i].offset, 0, 0, 0, 0, 0, [], [])))
  }

  /** The state at time t of the run that starts at time 0 and never stops. */
  function At(sys: System, t: nat): (r: State)
    requires ValidSystem(sys)
    ensures ValidState(sys, r)
  {
    if t == 0 then Initial(sys) else Step(sys, At(sys, t - 1))
  }

  lemma StartsAtInitial(sys: System)
    requires ValidSystem(sys)
    ensures At(sys, 0) == Initial(sys)
  {
  }

  /** As long as no cancellation is refused, `run` follows the run that never stops. */
  lemma {:induction false} RunFollowsAt(sys: System, t: nat, steps: nat)
    requires ValidSystem(sys)
    requires forall u: nat :: t <= u < t + steps ==> Accepted(sys, At(sys, u))
    ensures RunFor(sys, At(sys, t), steps) == (At(sys, t + steps), true)
    decreases steps
  {
    hide Accepted, Step;
    if steps > 0 {
      var next := At(sys, t + 1);
      assert next == Step(sys, At(sys, t));
      RunFollowsAt(sys, t + 1, steps - 1);
      hide At;
      assert Accepted(sys, At(sys, t));
      assert RunFor(sys, At(sys, t), steps) == RunFor(sys, next, steps - 1);
      assert t + steps == t + 1 + (steps - 1);
    }
  }
}
