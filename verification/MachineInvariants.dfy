/**
  What every step of the simulator keeps, for every scheduling policy and
  configuration, and what both cancellation flags together add.
 */
module MachineInvariants {
  import opened MkWindow
  import opened Machine
  import Utility

  /** The number of pending jobs of task i. */
  function Pending(s: seq<JobV>, i: nat): nat {
    if s == [] then 0 else (if s[0].task == i then 1 else 0) + Pending(s[1..], i)
  }

  lemma {:induction false} PendingAppend(s: seq<JobV>, t: seq<JobV>, i: nat)
    ensures Pending(s + t, i) == Pending(s, i) + Pending(t, i)
  {
    if s == [] {
      assert s + t == t;
    } else {
      assert (s + t)[1..] == s[1..] + t;
      PendingAppend(s[1..], t, i);
    }
  }

  lemma {:induction false} PendingPermutation(s: seq<JobV>, t: seq<JobV>, i: nat)
    requires multiset(s) == multiset(t)
    ensures Pending(s, i) == Pending(t, i)
    decreases |s|
  {
    assert |s| == |multiset(s)| && |t| == |multiset(t)|;
    if s != [] {
      assert s[0] in multiset(t);
      var x :| 0 <= x < |t| && t[x] == s[0];
      assert s == [s[0]] + s[1..];
      assert t == t[..x] + ([t[x]] + t[x + 1..]);
      PendingAppend(t[..x], [t[x]] + t[x + 1..], i);
      PendingAppend(t[..x], t[x + 1..], i);
      assert ([t[x]] + t[x + 1..])[1..] == t[x + 1..];
      RemovedOnce(t, x);
      PendingPermutation(s[1..], t[..x] + t[x + 1..], i);
    }
  }

  /** A decision divides every task's pending jobs. */
  lemma DecisionPending(sys: System, st: State, i: nat)
    requires ValidSystem(sys)
    ensures Pending(Decide(sys, st).kept, i) + Pending(Decide(sys, st).cancelled, i) == Pending(st.sched, i)
  {
    var d := Decide(sys, st);
    DecisionPartitions(sys, st);
    PendingAppend(d.kept, d.cancelled, i);
    PendingPermutation(d.kept + d.cancelled, st.sched, i);
  }

  // ----- Order of the schedule -----

  predicate Ordered(policy: Policy, s: seq<JobV>) {
    |s| <= 1 || (Key(policy, s[0]) <= Key(policy, s[1]) && Ordered(policy, s[1..]))
  }

  lemma {:induction false} OrderedFront(policy: Policy, s: seq<JobV>)
    requires Ordered(policy, s) && s != []
    ensures forall j :: j in s ==> Key(policy, s[0]) <= Key(policy, j)
  {
    if |s| > 1 {
      OrderedFront(policy, s[1..]);
      assert forall j :: j in s ==> j == s[0] || j in s[1..];
    }
  }

  lemma {:induction false} EnqueueOrdered(policy: Policy, s: seq<JobV>, job: JobV)
    requires Ordered(policy, s)
    ensures Ordered(policy, Enqueue(policy, s, job))
  {
    if s != [] && Key(policy, s[0]) <= Key(policy, job) {
      EnqueueOrdered(policy, s[1..], job);
      assert Enqueue(policy, s, job)[1..] == Enqueue(policy, s[1..], job);
    } else {
      assert ([job] + s)[1..] == s;
    }
  }

  lemma {:induction false} SurvivorsOrdered(config: Config, now: int, policy: Policy, s: seq<JobV>)
    requires Ordered(policy, s)
    ensures Ordered(policy, Survivors(config, now, s))
  {
    if s != [] {
      SurvivorsOrdered(config, now, policy, s[1..]);
      var rest := Survivors(config, now, s[1..]);
      assert Survivors(config, now, s) == if Survives(config, now, s[0]) then [s[0]] + rest else rest;
      if rest != [] {
        SurvivorsAndDoomed(config, now, s[1..]);
        OrderedFront(policy, s);
        assert rest[0] in rest;
        assert rest[0] in s[1..];
        assert ([s[0]] + rest)[1..] == rest;
      }
    }
  }

  // ----- Counting pending jobs -----

  lemma {:induction false} PendingSplit(config: Config, now: int, s: seq<JobV>, i: nat)
    ensures Pending(Survivors(config, now, s), i) + Pending(Doomed(config, now, s), i) == Pending(s, i)
  {
    if s != [] {
      PendingSplit(config, now, s[1..], i);
      var rest := if Survives(config, now, s[0]) then Survivors(config, now, s[1..]) else Doomed(config, now, s[1..]);
      assert ([s[0]] + rest)[1..] == rest && [] + rest == rest;
      assert [] + Survivors(config, now, s[1..]) == Survivors(config, now, s[1..]);
      assert [] + Doomed(config, now, s[1..]) == Doomed(config, now, s[1..]);
    }
  }

  lemma {:induction false} PendingEnqueue(policy: Policy, s: seq<JobV>, job: JobV, i: nat)
    ensures Pending(Enqueue(policy, s, job), i) == Pending(s, i) + if job.task == i then 1 else 0
  {
    if s != [] && Key(policy, s[0]) <= Key(policy, job) {
      PendingEnqueue(policy, s[1..], job, i);
      assert Enqueue(policy, s, job)[1..] == Enqueue(policy, s[1..], job);
    } else {
      assert ([job] + s)[1..] == s;
    }
  }

  lemma {:induction false} PendingMember(s: seq<JobV>, i: nat)
    ensures Pending(s, i) > 0 <==> exists j :: j in s && j.task == i
  {
    if s != [] {
      PendingMember(s[1..], i);
      assert s == [s[0]] + s[1..];
    }
  }

  /** Two jobs of a task that has at most one pending job are the same job. */
  lemma {:induction false} PendingUnique(s: seq<JobV>, i: nat, x: nat, y: nat)
    requires x < |s| && y < |s| && s[x].task == s[y].task == i
    requires Pending(s, i) <= 1
    ensures x == y
  {
    if x > 0 && y > 0 {
      PendingUnique(s[1..], i, x - 1, y - 1);
    } else if x != y {
      var z := if x == 0 then y else x;
      assert s[1..][z - 1] in s[1..];
      PendingMember(s[1..], i);
    }
  }

  // ----- Conservation, for every configuration -----

  /** The pending job was built by its task and still has work to do. */
  predicate JobOk(sys: System, job: JobV)
    requires ValidSystem(sys) && job.task < |sys.specs|
  {
    var spec := sys.specs[job.task];
    && 1 <= job.rem <= job.et == spec.et
    && job.deadline == job.activation + spec.relDeadline
    && (!spec.model.Dbp? ==> job.priority == if IsMandatory(spec, job.id) then spec.priority else MIN_PRIORITY)
  }

  ghost predicate TaskBalanced(ts: TaskState, pending: nat) {
    && ts.activations == ts.completions + ts.cancellations + pending
    && ts.execCancellations <= ts.cancellations
    && ts.misses <= ts.completions
    && Bits(ts.history)
    && |ts.history| == ts.completions + ts.cancellations
    && Sum(ts.history) == ts.completions
    && Utility.Below(ts.utilities, ts.history)
    && (ts.misses == 0 ==> Utility.Same(ts.utilities, ts.history))
  }

  ghost predicate JobsOk(sys: System, s: seq<JobV>)
    requires ValidSystem(sys) && Owned(s, |sys.specs|)
  {
    forall j :: j in s ==> JobOk(sys, j)
  }

  /** Every activated job was completed once, cancelled once, or is pending. */
  ghost predicate Balanced(st: State) {
    forall i :: 0 <= i < |st.tasks| ==> TaskBalanced(st.tasks[i], Pending(st.sched, i))
  }

  ghost predicate Conserved(sys: System, st: State)
    requires ValidSystem(sys) && ValidState(sys, st)
  {
    (sys.planner.NoPlan? ==> Ordered(sys.policy, st.sched)) && JobsOk(sys, st.sched) && Balanced(st)
  }

  lemma HistoryAppend(history: seq<nat>, v: nat)
    requires Bits(history) && v <= 1
    ensures Bits(history + [v]) && Sum(history + [v]) == Sum(history) + v
  {
    SumAppend(history, [v]);
  }

  lemma {:induction false} CancelAllBalanced(specs: seq<TaskSpec>, tasks: seq<TaskState>, jobs: seq<JobV>, i: nat, pending: nat)
    requires |specs| == |tasks| && Owned(jobs, |specs|) && i < |tasks|
    requires TaskBalanced(tasks[i], pending + Pending(jobs, i))
    ensures TaskBalanced(CancelAll(specs, tasks, jobs).0[i], pending)
    decreases |jobs|
  {
    if jobs != [] {
      var job := jobs[0];
      if job.task == i {
        HistoryAppend(tasks[i].history, 0);
      }
      CancelAllBalanced(specs, tasks[job.task := CancelledJob(tasks[job.task], job)], jobs[1..], i, pending);
    }
  }

  lemma {:induction false} CancelAllClock(specs: seq<TaskSpec>, tasks: seq<TaskState>, jobs: seq<JobV>, i: nat)
    requires |specs| == |tasks| && Owned(jobs, |specs|) && i < |tasks|
    ensures CancelAll(specs, tasks, jobs).0[i].next == tasks[i].next
    ensures CancelAll(specs, tasks, jobs).0[i].activations == tasks[i].activations
    ensures CancelAll(specs, tasks, jobs).0[i].misses == tasks[i].misses
    decreases |jobs|
  {
    if jobs != [] {
      var job := jobs[0];
      CancelAllClock(specs, tasks[job.task := CancelledJob(tasks[job.task], job)], jobs[1..], i);
    }
  }

  lemma InitStepConserves(sys: System, st: State)
    requires ValidSystem(sys) && ValidState(sys, st) && Conserved(sys, st)
    ensures Conserved(sys, InitStep(sys, st).0)
  {
    SurvivorsAndDoomed(sys.config, st.now, st.sched);
    if sys.planner.NoPlan? {
      SurvivorsOrdered(sys.config, st.now, sys.policy, st.sched);
    }
    forall i | 0 <= i < |st.tasks|
      ensures var r := InitStep(sys, st).0; TaskBalanced(r.tasks[i], Pending(r.sched, i))
    {
      PendingSplit(sys.config, st.now, st.sched, i);
      CancelAllBalanced(sys.specs, st.tasks, Doomed(sys.config, st.now, st.sched), i,
                        Pending(Survivors(sys.config, st.now, st.sched), i));
    }
  }

  /** One activation in the loop of `doActivations`. */
  function ActivateOne(sys: System, st: State, i: nat): (r: State)
    requires ValidSystem(sys) && ValidState(sys, st) && i < |sys.specs|
    ensures ValidState(sys, r)
  {
    if Due(st, i) then
      var job := Spawn(sys.specs[i], i, st.tasks[i], st.now);
      EnqueueElements(sys.policy, st.sched, job);
      State(st.now, Enqueue(sys.policy, st.sched, job), st.tasks[i := Activated(sys.specs[i], st.tasks[i])])
    else st
  }

  lemma ActivateOneConserves(sys: System, st: State, i: nat)
    requires ValidSystem(sys) && ValidState(sys, st) && Conserved(sys, st) && i < |sys.specs|
    ensures Conserved(sys, ActivateOne(sys, st, i))
  {
    if Due(st, i) {
      var job := Spawn(sys.specs[i], i, st.tasks[i], st.now);
      EnqueueElements(sys.policy, st.sched, job);
      if sys.planner.NoPlan? {
        EnqueueOrdered(sys.policy, st.sched, job);
      }
      forall x | 0 <= x < |st.tasks|
        ensures var r := ActivateOne(sys, st, i); TaskBalanced(r.tasks[x], Pending(r.sched, x))
      {
        PendingEnqueue(sys.policy, st.sched, job, x);
      }
    }
  }

  lemma {:induction false} ActivationsConserve(sys: System, st: State, i: nat)
    requires ValidSystem(sys) && ValidState(sys, st) && Conserved(sys, st) && i <= |sys.specs|
    ensures Conserved(sys, Activations(sys, st, i))
    decreases |sys.specs| - i
  {
    if i < |sys.specs| {
      ActivateOneConserves(sys, st, i);
      ActivationsConserve(sys, ActivateOne(sys, st, i), i + 1);
    }
  }

  lemma ExecuteJobsOk(sys: System, st: State, r: State)
    requires ValidSystem(sys) && ValidState(sys, st) && JobsOk(sys, st.sched) && r == Execute(sys, st)
    ensures JobsOk(sys, r.sched)
    ensures forall j :: j in r.sched ==> j in st.sched || (st.sched != [] && j == st.sched[0].(rem := st.sched[0].rem - 1))
  {
    if st.sched != [] {
      var job := st.sched[0];
      assert JobOk(sys, job);
      if job.rem > 1 {
        assert JobOk(sys, r.sched[0]) && r.sched[1..] == st.sched[1..];
        assert forall j :: j in r.sched ==> j == r.sched[0] || j in st.sched[1..];
      }
    }
  }

  /** One job less is pending after a completion. */
  lemma CompletionBalanced(ts: TaskState, job: JobV, now: int, pending: nat)
    requires TaskBalanced(ts, pending + 1)
    ensures TaskBalanced(Completed(ts, job, now), pending)
  {
    HistoryAppend(ts.history, 1);
  }

  lemma ExecuteBalanced(sys: System, st: State, i: nat)
    requires ValidState(sys, st) && Balanced(st) && i < |st.tasks|
    ensures var r := Execute(sys, st); TaskBalanced(r.tasks[i], Pending(r.sched, i))
  {
    assert TaskBalanced(st.tasks[i], Pending(st.sched, i));
    hide TaskBalanced, Completed;
    if st.sched != [] {
      var job := st.sched[0];
      var r := Execute(sys, st);
      if job.rem <= 1 {
        if job.task == i {
          CompletionBalanced(st.tasks[i], job, st.now, Pending(r.sched, i));
        }
      } else {
        assert r.sched[1..] == st.sched[1..];
      }
    }
  }

  lemma ExecuteConserves(sys: System, st: State)
    requires ValidSystem(sys) && ValidState(sys, st) && Conserved(sys, st)
    ensures Conserved(sys, Execute(sys, st))
  {
    var r := Execute(sys, st);
    ExecuteJobsOk(sys, st, r);
    if st.sched != [] && st.sched[0].rem > 1 {
      assert r.sched[1..] == st.sched[1..];
    }
    hide TaskBalanced, Pending, JobOk;
    forall i | 0 <= i < |r.tasks|
      ensures TaskBalanced(r.tasks[i], Pending(r.sched, i))
    {
      ExecuteBalanced(sys, st, i);
    }
  }

  lemma ScheduleConserves(sys: System, st: State)
    requires ValidSystem(sys) && ValidState(sys, st) && Conserved(sys, st)
    ensures Conserved(sys, Schedule(sys, st).0)
  {
    var (d, r) := (Decide(sys, st), Schedule(sys, st).0);
    DecisionPartitions(sys, st);
    forall i | 0 <= i < |st.tasks|
      ensures TaskBalanced(r.tasks[i], Pending(r.sched, i))
    {
      DecisionPending(sys, st, i);
      CancelAllBalanced(sys.specs, st.tasks, d.cancelled, i, Pending(d.kept, i));
    }
  }

  lemma ReadyConserves(sys: System, st: State)
    requires ValidSystem(sys) && ValidState(sys, st) && Conserved(sys, st)
    ensures Conserved(sys, Ready(sys, st))
  {
    InitStepConserves(sys, st);
    ActivationsConserve(sys, InitStep(sys, st).0, 0);
  }

  lemma ServeConserves(sys: System, st: State)
    requires ValidSystem(sys) && ValidState(sys, st) && Conserved(sys, st)
    ensures Conserved(sys, Serve(sys, st))
  {
    ScheduleConserves(sys, st);
    ExecuteConserves(sys, Schedule(sys, st).0);
    hide Conserved, Schedule, Execute;
  }

  lemma StepConserves(sys: System, st: State)
    requires ValidSystem(sys) && ValidState(sys, st) && Conserved(sys, st)
    ensures Conserved(sys, Step(sys, st))
  {
    ReadyConserves(sys, st);
    ServeConserves(sys, Ready(sys, st));
    hide Ready, Serve;
  }

  lemma InitialConserved(sys: System)
    requires ValidSystem(sys)
    ensures Conserved(sys, Initial(sys))
  {
  }

  /** In every run, of every policy and configuration, every job is handed back exactly once. */
  lemma {:induction false} AlwaysConserved(sys: System, t: nat)
    requires ValidSystem(sys)
    ensures Conserved(sys, At(sys, t))
  {
    hide Conserved, Step, Initial, ValidSystem;
    if t == 0 {
      InitialConserved(sys);
    } else {
      AlwaysConserved(sys, t - 1);
      StepConserves(sys, At(sys, t - 1));
    }
  }

  // ----- Both cancellation flags on, deadlines at most the periods -----

  ghost predicate Strict(sys: System) {
    && ValidSystem(sys)
    && sys.config.dlMissCancellations && sys.config.execCancellations
    && forall i :: 0 <= i < |sys.specs| ==> sys.specs[i].relDeadline <= sys.specs[i].period
  }

  /** Task i's clock at time `now`, before (due) or after (not due) its activation in this step. */
  ghost predicate Clock(spec: TaskSpec, ts: TaskState, now: int) {
    && ts.next == spec.offset + ts.activations * spec.period
    && ts.next >= now
    && (ts.activations > 0 ==> ts.next - spec.period <= now)
  }

  /** The pending job is its task's latest job and can still meet its deadline. */
  ghost predicate Latest(sys: System, st: State, job: JobV)
    requires ValidSystem(sys) && ValidState(sys, st) && job.task < |sys.specs|
  {
    && job.id + 1 == st.tasks[job.task].activations
    && job.activation == st.tasks[job.task].next - sys.specs[job.task].period
  }

  ghost predicate OnePending(sys: System, st: State)
    requires ValidSystem(sys) && ValidState(sys, st)
  {
    && (forall j :: j in st.sched ==> Latest(sys, st, j))
    && (forall i :: 0 <= i < |st.tasks| ==> Pending(st.sched, i) <= 1)
  }

  /** What holds when a step starts. */
  ghost predicate Punctual(sys: System, st: State)
    requires ValidSystem(sys) && ValidState(sys, st)
  {
    && JobsOk(sys, st.sched)
    && OnePending(sys, st)
    && (forall i :: 0 <= i < |st.tasks| ==> Clock(sys.specs[i], st.tasks[i], st.now))
    && (forall j :: j in st.sched ==> j.activation < st.now)
  }

  /** What holds within a step, after the tasks before `upto` were activated. */
  ghost predicate Feasible(sys: System, st: State, upto: nat)
    requires ValidSystem(sys) && ValidState(sys, st)
  {
    && JobsOk(sys, st.sched)
    && OnePending(sys, st)
    && (forall i :: 0 <= i < |st.tasks| ==> Clock(sys.specs[i], st.tasks[i], st.now))
    && (forall i :: 0 <= i < upto && i < |st.tasks| ==> st.tasks[i].next > st.now)
    && (forall j :: j in st.sched ==> j.LatestStart() >= st.now)
  }

  lemma InitStepFeasible(sys: System, st: State)
    requires Strict(sys) && ValidState(sys, st) && Punctual(sys, st)
    ensures Feasible(sys, InitStep(sys, st).0, 0)
  {
    SurvivorsAndDoomed(sys.config, st.now, st.sched);
    var r := InitStep(sys, st).0;
    forall i | 0 <= i < |st.tasks|
      ensures Pending(r.sched, i) <= 1
      ensures r.tasks[i].next == st.tasks[i].next && r.tasks[i].activations == st.tasks[i].activations
    {
      PendingSplit(sys.config, st.now, st.sched, i);
      CancelAllClock(sys.specs, st.tasks, Doomed(sys.config, st.now, st.sched), i);
    }
    assert forall j :: j in r.sched ==> Latest(sys, st, j) && Latest(sys, r, j);
  }

  /** A due task has no earlier job pending when it is activated. */
  lemma DueTaskIsIdle(sys: System, st: State, i: nat)
    requires Strict(sys) && ValidState(sys, st) && Feasible(sys, st, i) && i < |sys.specs|
    requires Due(st, i)
    ensures Pending(st.sched, i) == 0
  {
    PendingMember(st.sched, i);
    forall j | j in st.sched
      ensures j.task != i
    {
      assert JobOk(sys, j) && Latest(sys, st, j);
    }
  }

  /** Activating a due task: the new job is its only pending one, every other job stays as it was. */
  lemma ActivateDueFeasible(sys: System, st: State, i: nat, job: JobV, r: State)
    requires Strict(sys) && ValidState(sys, st) && Feasible(sys, st, i) && i < |sys.specs|
    requires Due(st, i)
    requires job == Spawn(sys.specs[i], i, st.tasks[i], st.now)
    requires r == ActivateOne(sys, st, i)
    ensures OnePending(sys, r)
    ensures forall j :: j in r.sched ==> j.LatestStart() >= r.now
  {
    DueTaskIsIdle(sys, st, i);
    EnqueueElements(sys.policy, st.sched, job);
    PendingMember(st.sched, i);
    forall x | 0 <= x < |st.tasks|
      ensures Pending(r.sched, x) <= 1
    {
      PendingEnqueue(sys.policy, st.sched, job, x);
    }
    forall j | j in r.sched
      ensures Latest(sys, r, j)
    {
      if j != job {
        assert Latest(sys, st, j) && j.task != i;
      }
    }
  }

  lemma ActivatedClock(spec: TaskSpec, ts: TaskState, now: int)
    requires Clock(spec, ts, now) && now >= ts.next && spec.period >= 1
    ensures Clock(spec, Activated(spec, ts), now) && Activated(spec, ts).next > now
  {
    assert (ts.activations + 1) * spec.period == ts.activations * spec.period + spec.period;
  }

  lemma ActivateOneFeasible(sys: System, st: State, i: nat)
    requires Strict(sys) && ValidState(sys, st) && Feasible(sys, st, i) && i < |sys.specs|
    ensures Feasible(sys, ActivateOne(sys, st, i), i + 1)
  {
    if Due(st, i) {
      var (job, r) := (Spawn(sys.specs[i], i, st.tasks[i], st.now), ActivateOne(sys, st, i));
      EnqueueElements(sys.policy, st.sched, job);
      ActivateDueFeasible(sys, st, i, job, r);
      assert ValidSpec(sys.specs[i]) && JobOk(sys, job);
      ActivatedClock(sys.specs[i], st.tasks[i], st.now);
      hide Clock, OnePending, JobOk, ValidSystem, Spawn, Activated;
    }
  }

  lemma {:induction false} ActivationsFeasible(sys: System, st: State, i: nat)
    requires Strict(sys) && ValidState(sys, st) && Feasible(sys, st, i) && i <= |sys.specs|
    ensures Feasible(sys, Activations(sys, st, i), |sys.specs|)
    decreases |sys.specs| - i
  {
    if i < |sys.specs| {
      ActivateOneFeasible(sys, st, i);
      ActivationsFeasible(sys, ActivateOne(sys, st, i), i + 1);
    }
  }

  lemma ExecuteOnePending(sys: System, st: State, r: State)
    requires Strict(sys) && ValidState(sys, st) && Feasible(sys, st, |sys.specs|)
    requires r == Execute(sys, st)
    ensures OnePending(sys, r)
    ensures forall j :: j in r.sched ==> j.activation <= r.now
    ensures forall x :: 0 <= x < |st.tasks| ==>
                          r.tasks[x].next == st.tasks[x].next && r.tasks[x].activations == st.tasks[x].activations
  {
    ExecuteJobsOk(sys, st, r);
    if st.sched != [] {
      var front := st.sched[0];
      assert JobOk(sys, front) && Latest(sys, st, front);
      if front.rem > 1 {
        assert r.sched[1..] == st.sched[1..];
      }
      forall i | 0 <= i < |st.tasks|
        ensures Pending(r.sched, i) <= 1
      {
        assert Pending(st.sched, i) <= 1;
      }
      forall j | j in r.sched
        ensures Latest(sys, r, j) && j.activation <= r.now
      {
        if j in st.sched {
          assert Latest(sys, st, j) && Clock(sys.specs[j.task], st.tasks[j.task], st.now);
        }
      }
    }
  }

  lemma ExecutePunctual(sys: System, st: State)
    requires Strict(sys) && ValidState(sys, st) && Feasible(sys, st, |sys.specs|)
    ensures Punctual(sys, Tick(Execute(sys, st)))
  {
    var r := Execute(sys, st);
    ExecuteJobsOk(sys, st, r);
    ExecuteOnePending(sys, st, r);
    assert forall j :: j in Tick(r).sched ==> Latest(sys, r, j);
  }

  /** Cancelling some jobs in `schedule` leaves the others as they are. */
  lemma ScheduleFeasible(sys: System, st: State)
    requires Strict(sys) && ValidState(sys, st) && Feasible(sys, st, |sys.specs|)
    ensures Feasible(sys, Schedule(sys, st).0, |sys.specs|)
    ensures forall i :: 0 <= i < |st.tasks| ==> Schedule(sys, st).0.tasks[i].misses == st.tasks[i].misses
  {
    var (d, r) := (Decide(sys, st), Schedule(sys, st).0);
    DecisionPartitions(sys, st);
    hide Decide, ValidSystem;
    forall i | 0 <= i < |st.tasks|
      ensures r.tasks[i].next == st.tasks[i].next && r.tasks[i].activations == st.tasks[i].activations
      ensures r.tasks[i].misses == st.tasks[i].misses
      ensures Pending(r.sched, i) <= 1
    {
      CancelAllClock(sys.specs, st.tasks, d.cancelled, i);
      DecisionPending(sys, st, i);
      assert Pending(st.sched, i) <= 1;
    }
    forall j | j in r.sched
      ensures Latest(sys, r, j)
    {
      assert j in st.sched && Latest(sys, st, j);
    }
  }

  lemma TickPunctual(sys: System, st: State)
    requires Strict(sys) && ValidState(sys, st) && Feasible(sys, st, |sys.specs|)
    ensures Punctual(sys, Tick(st))
  {
    forall j | j in st.sched
      ensures Latest(sys, Tick(st), j) && j.activation < st.now + 1
    {
      assert Latest(sys, st, j) && Clock(sys.specs[j.task], st.tasks[j.task], st.now);
    }
  }

  lemma ServePunctual(sys: System, st: State)
    requires Strict(sys) && ValidState(sys, st) && Feasible(sys, st, |sys.specs|)
    ensures Punctual(sys, Tick(Serve(sys, st))) && Serve(sys, st).now == st.now
    ensures forall i :: 0 <= i < |st.tasks| ==> Serve(sys, st).tasks[i].misses == st.tasks[i].misses
  {
    ScheduleFeasible(sys, st);
    var planned := Schedule(sys, st).0;
    ExecuteTime(sys, planned);
    assert planned.now == st.now;
    hide Feasible, Punctual, Schedule, Execute;
    TickPunctual(sys, planned);
    ExecutePunctual(sys, planned);
    ExecuteKeepsMisses(sys, planned);
  }

  lemma ExecuteTime(sys: System, st: State)
    requires ValidState(sys, st)
    ensures Execute(sys, st).now == st.now
  {
  }

  lemma {:induction false} AlwaysPunctual(sys: System, t: nat)
    requires Strict(sys)
    ensures Punctual(sys, At(sys, t)) && At(sys, t).now == t
  {
    hide Step;
    if t == 0 {
      assert At(sys, 0) == Initial(sys);
    } else {
      AlwaysPunctual(sys, t - 1);
      StepPunctual(sys, At(sys, t - 1));
    }
  }

  lemma StepPunctual(sys: System, st: State)
    requires Strict(sys) && ValidState(sys, st) && Punctual(sys, st)
    ensures Feasible(sys, Ready(sys, st), |sys.specs|)
    ensures Punctual(sys, Step(sys, st)) && Step(sys, st).now == st.now + 1
  {
    InitStepFeasible(sys, st);
    ActivationsFeasible(sys, InitStep(sys, st).0, 0);
    ActivationsTime(sys, InitStep(sys, st).0, 0);
    assert Ready(sys, st).now == st.now;
    hide Feasible, Punctual, Ready, Serve;
    ServePunctual(sys, Ready(sys, st));
  }

  lemma {:induction false} ActivationsTime(sys: System, st: State, i: nat)
    requires ValidSystem(sys) && ValidState(sys, st) && i <= |sys.specs|
    ensures Activations(sys, st, i).now == st.now
    decreases |sys.specs| - i
  {
    if i < |sys.specs| {
      ActivationsTime(sys, ActivateOne(sys, st, i), i + 1);
    }
  }

  lemma {:induction false} ActivationsKeepOutcomes(sys: System, st: State, i: nat, x: nat)
    requires ValidSystem(sys) && ValidState(sys, st) && i <= |sys.specs| && x < |sys.specs|
    ensures Activations(sys, st, i).tasks[x].history == st.tasks[x].history
    ensures Activations(sys, st, i).tasks[x].utilities == st.tasks[x].utilities
    ensures Activations(sys, st, i).tasks[x].misses == st.tasks[x].misses
    decreases |sys.specs| - i
  {
    if i < |sys.specs| {
      ActivationsKeepOutcomes(sys, ActivateOne(sys, st, i), i + 1, x);
    }
  }

  /** A step reports one failure per cancelled job of a task, and no misses. */
  lemma {:induction false} CancelAllOutcomes(specs: seq<TaskSpec>, tasks: seq<TaskState>, jobs: seq<JobV>, x: nat)
    requires |specs| == |tasks| && Owned(jobs, |specs|) && x < |tasks|
    ensures CancelAll(specs, tasks, jobs).0[x].misses == tasks[x].misses
    ensures CancelAll(specs, tasks, jobs).0[x].history == tasks[x].history + Repeat(0, Pending(jobs, x))
    decreases |jobs|
  {
    if jobs != [] {
      var job := jobs[0];
      var next := tasks[job.task := CancelledJob(tasks[job.task], job)];
      CancelAllOutcomes(specs, next, jobs[1..], x);
      var rest := Pending(jobs[1..], x);
      assert [0] + Repeat(0, rest) == Repeat(0, rest + 1);
      if job.task == x {
        assert tasks[x].history + [0] + Repeat(0, rest) == tasks[x].history + ([0] + Repeat(0, rest));
      }
    }
  }

  lemma StepKeepsMisses(sys: System, st: State)
    requires Strict(sys) && ValidState(sys, st) && Punctual(sys, st)
    ensures forall i :: 0 <= i < |sys.specs| ==> Step(sys, st).tasks[i].misses == st.tasks[i].misses
  {
    StepPunctual(sys, st);
    SurvivorsAndDoomed(sys.config, st.now, st.sched);
    hide Feasible, Punctual, Serve;
    forall i | 0 <= i < |sys.specs|
      ensures Ready(sys, st).tasks[i].misses == st.tasks[i].misses
    {
      CancelAllClock(sys.specs, st.tasks, Doomed(sys.config, st.now, st.sched), i);
      ActivationsKeepOutcomes(sys, InitStep(sys, st).0, 0, i);
    }
    hide Ready;
    ServePunctual(sys, Ready(sys, st));
  }

  lemma ExecuteKeepsMisses(sys: System, st: State)
    requires Strict(sys) && ValidState(sys, st) && Feasible(sys, st, |sys.specs|)
    ensures forall i :: 0 <= i < |sys.specs| ==> Execute(sys, st).tasks[i].misses == st.tasks[i].misses
  {
    if st.sched != [] {
      var job := st.sched[0];
      assert job in st.sched;
      assert JobOk(sys, job) && job.deadline > st.now;
    }
  }

  lemma {:induction false} NoMisses(sys: System, t: nat)
    requires Strict(sys)
    ensures forall i :: 0 <= i < |sys.specs| ==> At(sys, t).tasks[i].misses == 0
  {
    hide Step, Punctual;
    if t > 0 {
      NoMisses(sys, t - 1);
      AlwaysPunctual(sys, t - 1);
      StepKeepsMisses(sys, At(sys, t - 1));
    }
  }

  /** With both flags on no job that `schedule` puts to the front finishes at or after its deadline. */
  lemma NeverLate(sys: System, t: nat)
    requires Strict(sys)
    ensures var r := Schedule(sys, Ready(sys, At(sys, t))).0;
            r.sched != [] && r.sched[0].rem == 1 ==> r.sched[0].deadline > t
    ensures forall i :: 0 <= i < |sys.specs| ==> At(sys, t).tasks[i].misses == 0
  {
    NoMisses(sys, t);
    AlwaysPunctual(sys, t);
    StepPunctual(sys, At(sys, t));
    ActivationsTime(sys, InitStep(sys, At(sys, t)).0, 0);
    var ready := Ready(sys, At(sys, t));
    assert ready.now == t;
    hide At, Ready, Pending, Clock, Latest;
    ScheduleFeasible(sys, ready);
    var r := Schedule(sys, ready).0;
    if r.sched != [] {
      assert r.sched[0] in r.sched && r.sched[0].LatestStart() >= r.now;
    }
  }
}
