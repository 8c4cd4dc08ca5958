/**
  The sufficient schedulability test (src/mkeval/mkgenerator.cpp, after Jia et
  al. 2007, Theorem 1) and what it guarantees about every simulated run.
 */
module MkpSoundness {
  import opened Arithmetic
  import opened MkPattern
  import opened MkWindow
  import opened Machine
  import opened MachineInvariants
  import opened FppResponse

  // ----- Mandatory jobs under a response bound -----

  /** Every mandatory job whose outcome is known has succeeded. */
  ghost predicate MandatoryOutcomes(spec: TaskSpec, history: seq<nat>)
    requires ValidModel(spec.model)
  {
    forall x :: 0 <= x < |history| && IsMandatory(spec, x) ==> history[x] == 1
  }

  /** Task i has a response bound within its deadline. */
  ghost predicate Guaranteed(sys: System, i: nat)
    requires ValidSystem(sys) && i < |sys.specs|
  {
    exists bound: nat :: bound <= sys.specs[i].relDeadline && Bounded(sys, i, bound)
  }

  /** `initStep` never cancels a mandatory job of a guaranteed task. */
  lemma MandatorySurvives(sys: System, t: nat, job: JobV)
    requires FppSystem(sys) && job in At(sys, t).sched
    requires Guaranteed(sys, job.task) && IsMandatory(sys.specs[job.task], job.id)
    ensures job.LatestStart() >= t
  {
    hide At, Bounded;
    PendingJobOk(sys, t, job);
    var bound: nat :| bound <= sys.specs[job.task].relDeadline && Bounded(sys, job.task, bound);
    ResponseBound(sys, job.task, bound, t, job);
  }

  /** The jobs cancelled in step t are optional and, each, their task's next outcome. */
  ghost predicate OptionalLatest(specs: seq<TaskSpec>, tasks: seq<TaskState>, jobs: seq<JobV>)
    requires |specs| == |tasks| && Owned(jobs, |specs|)
  {
    && (forall j :: j in jobs ==>
          && ValidSpec(specs[j.task])
          && j.id == |tasks[j.task].history|
          && j.priority == MIN_PRIORITY
          && !IsMandatory(specs[j.task], j.id))
    && forall i :: 0 <= i < |specs| ==> Pending(jobs, i) <= 1
  }

  lemma LatestIsNextOutcome(sys: System, t: nat, job: JobV)
    requires FppSystem(sys) && job in At(sys, t).sched
    ensures job.id == |At(sys, t).tasks[job.task].history|
  {
    AlwaysPunctual(sys, t);
    AlwaysConserved(sys, t);
    var st := At(sys, t);
    hide At;
    PendingMember(st.sched, job.task);
    assert Latest(sys, st, job) && Pending(st.sched, job.task) == 1;
    assert TaskBalanced(st.tasks[job.task], 1);
  }

  lemma DoomedAreOptional(sys: System, t: nat)
    requires FppSystem(sys)
    requires forall i :: 0 <= i < |sys.specs| ==> Guaranteed(sys, i)
    ensures var doomed := Doomed(sys.config, t, At(sys, t).sched);
            Owned(doomed, |sys.specs|) && OptionalLatest(sys.specs, At(sys, t).tasks, doomed)
  {
    var st := At(sys, t);
    AlwaysPunctual(sys, t);
    hide At, Guaranteed, IsMandatory;
    SurvivorsAndDoomed(sys.config, t, st.sched);
    forall j | j in Doomed(sys.config, t, st.sched)
      ensures j.id == |st.tasks[j.task].history| && j.priority == MIN_PRIORITY && !IsMandatory(sys.specs[j.task], j.id)
    {
      LatestIsNextOutcome(sys, t, j);
      PendingJobOk(sys, t, j);
      if IsMandatory(sys.specs[j.task], j.id) {
        MandatorySurvives(sys, t, j);
      }
    }
    forall i | 0 <= i < |sys.specs|
      ensures Pending(Doomed(sys.config, t, st.sched), i) <= 1
    {
      PendingSplit(sys.config, t, st.sched, i);
      assert Pending(st.sched, i) <= 1;
    }
  }

  // ----- What the tasks record -----

  ghost predicate AllMandatoryOutcomes(specs: seq<TaskSpec>, tasks: seq<TaskState>)
    requires |specs| == |tasks|
  {
    forall i :: 0 <= i < |specs| ==> ValidSpec(specs[i]) && MandatoryOutcomes(specs[i], tasks[i].history)
  }

  /** A fixed pattern whose mandatory jobs succeed answers every cancellation of an optional job with true. */
  lemma OptionalHook(spec: TaskSpec, after: TaskState, job: JobV)
    requires ValidModel(spec.model) && spec.model.Mkp? && MandatoryOutcomes(spec, after.history)
    requires job.priority == MIN_PRIORITY
    ensures CancelHook(spec, after, job)
  {
    var Mkp(m, k, spin, _) := spec.model;
    PatternKeepsFirm(after.history, spin, m, k);
  }

  ghost predicate FixedPatterns(specs: seq<TaskSpec>) {
    forall i :: 0 <= i < |specs| ==> specs[i].model.Mkp?
  }

  lemma {:induction false} CancelOptional(specs: seq<TaskSpec>, tasks: seq<TaskState>, jobs: seq<JobV>)
    requires |specs| == |tasks| && Owned(jobs, |specs|)
    requires AllMandatoryOutcomes(specs, tasks) && OptionalLatest(specs, tasks, jobs)
    ensures AllMandatoryOutcomes(specs, CancelAll(specs, tasks, jobs).0)
    ensures FixedPatterns(specs) ==> CancelAll(specs, tasks, jobs).1
    decreases |jobs|
  {
    if jobs != [] {
      hide IsMandatory, CancelHook;
      var job := jobs[0];
      var after := CancelledJob(tasks[job.task], job);
      var rest := tasks[job.task := after];
      assert job in jobs;
      assert MandatoryOutcomes(specs[job.task], after.history);
      OthersStayOptional(specs, tasks, jobs, rest);
      CancelOptional(specs, rest, jobs[1..]);
      if FixedPatterns(specs) {
        OptionalHook(specs[job.task], after, job);
      }
    }
  }

  lemma OthersStayOptional(specs: seq<TaskSpec>, tasks: seq<TaskState>, jobs: seq<JobV>, rest: seq<TaskState>)
    requires |specs| == |tasks| && Owned(jobs, |specs|) && jobs != []
    requires OptionalLatest(specs, tasks, jobs)
    requires rest == tasks[jobs[0].task := CancelledJob(tasks[jobs[0].task], jobs[0])]
    ensures OptionalLatest(specs, rest, jobs[1..])
  {
    hide IsMandatory;
    PendingMember(jobs[1..], jobs[0].task);
    forall i | 0 <= i < |specs|
      ensures Pending(jobs[1..], i) <= 1
    {
      assert Pending(jobs, i) <= 1;
    }
    assert Pending(jobs, jobs[0].task) <= 1;
    forall j | j in jobs[1..]
      ensures j.task != jobs[0].task && j in jobs
    {
    }
  }

  lemma ExecuteKeepsOutcomes(sys: System, st: State)
    requires ValidSystem(sys) && ValidState(sys, st) && AllMandatoryOutcomes(sys.specs, st.tasks)
    ensures AllMandatoryOutcomes(sys.specs, Execute(sys, st).tasks)
  {
    hide IsMandatory;
  }

  lemma ActivationsKeepMandatory(sys: System, st: State)
    requires ValidSystem(sys) && ValidState(sys, st) && AllMandatoryOutcomes(sys.specs, st.tasks)
    ensures AllMandatoryOutcomes(sys.specs, Activations(sys, st, 0).tasks)
  {
    hide IsMandatory;
    forall i | 0 <= i < |sys.specs|
      ensures Activations(sys, st, 0).tasks[i].history == st.tasks[i].history
    {
      ActivationsKeepOutcomes(sys, st, 0, i);
    }
  }

  /** When every task has a response bound within its deadline, no run loses a mandatory job. */
  lemma {:induction false} MandatoryAlwaysSucceed(sys: System, t: nat)
    requires ValidSystem(sys) && FppSystem(sys)
    requires forall i :: 0 <= i < |sys.specs| ==> Guaranteed(sys, i)
    ensures AllMandatoryOutcomes(sys.specs, At(sys, t).tasks)
    ensures FixedPatterns(sys.specs) ==> InitStep(sys, At(sys, t)).1
  {
    hide IsMandatory, Guaranteed, Step, InitStep, FppSystem, MandatoryOutcomes, AllMandatoryOutcomes, ValidSystem, FixedPatterns;
    if t == 0 {
      NoOutcomesAtStart(sys);
    } else {
      FppHasNoPlan(sys);
      MandatoryAlwaysSucceed(sys, t - 1);
      CancellationsAreOptional(sys, t - 1);
      StepKeepsMandatory(sys, At(sys, t - 1));
    }
    CancellationsAreOptional(sys, t);
  }

  lemma FppHasNoPlan(sys: System)
    requires FppSystem(sys)
    ensures sys.planner.NoPlan?
  {
  }

  lemma NoOutcomesAtStart(sys: System)
    requires ValidSystem(sys)
    ensures AllMandatoryOutcomes(sys.specs, At(sys, 0).tasks)
  {
  }

  lemma CancellationsAreOptional(sys: System, t: nat)
    requires FppSystem(sys)
    requires forall i :: 0 <= i < |sys.specs| ==> Guaranteed(sys, i)
    requires AllMandatoryOutcomes(sys.specs, At(sys, t).tasks)
    ensures AllMandatoryOutcomes(sys.specs, InitStep(sys, At(sys, t)).0.tasks)
    ensures FixedPatterns(sys.specs) ==> InitStep(sys, At(sys, t)).1
  {
    AtNow(sys, t);
    DoomedAreOptional(sys, t);
    var st := At(sys, t);
    hide At, IsMandatory, Guaranteed, MandatoryOutcomes, FppSystem, CancelAll;
    CancelOptional(sys.specs, st.tasks, Doomed(sys.config, t, st.sched));
  }

  lemma StepKeepsMandatory(sys: System, st: State)
    requires ValidSystem(sys) && ValidState(sys, st) && sys.planner.NoPlan?
    requires AllMandatoryOutcomes(sys.specs, InitStep(sys, st).0.tasks)
    ensures AllMandatoryOutcomes(sys.specs, Step(sys, st).tasks)
  {
    var init := InitStep(sys, st).0;
    NoPlanStep(sys, st);
    hide InitStep, Activations, Execute, MandatoryOutcomes, Step, Serve;
    ActivationsKeepMandatory(sys, init);
    ExecuteKeepsOutcomes(sys, Activations(sys, init, 0));
  }

  // ----- The test -----

  ghost predicate ByPriority(specs: seq<TaskSpec>) {
    forall i, j :: 0 <= i < j < |specs| ==> specs[i].priority < specs[j].priority
  }

  ghost predicate ImplicitDeadlines(specs: seq<TaskSpec>) {
    forall i :: 0 <= i < |specs| ==> specs[i].relDeadline == specs[i].period
  }

  /** The tasks have periods and (m,k)-constraints to divide by. */
  ghost predicate Testable(specs: seq<TaskSpec>) {
    forall x :: 0 <= x < |specs| ==> specs[x].period > 0 && !specs[x].model.Periodic? && specs[x].model.k > 0
  }

  /** What the first n tasks can demand, at most, within one period of task i. */
  ghost function DemandBefore(specs: seq<TaskSpec>, i: nat, n: nat): nat
    requires n <= i < |specs|
    requires Testable(specs)
  {
    if n == 0 then 0
    else DemandBefore(specs, i, n - 1)
         + specs[n - 1].et * CeilDiv(specs[n - 1].model.m * CeilDiv(specs[i].period, specs[n - 1].period), specs[n - 1].model.k)
  }

  /** Every task finds its execution time within one period beside the tasks before it. */
  ghost predicate PassesTest(specs: seq<TaskSpec>)
    requires Testable(specs)
  {
    forall i :: 0 <= i < |specs| ==> DemandBefore(specs, i, i) + specs[i].et <= specs[i].period
  }

  method TestSufficientSchedulability(specs: seq<TaskSpec>) returns (ok: bool)
    requires Testable(specs)
    ensures ok <==> PassesTest(specs)
  {
    hide CeilDiv;
    for i := 0 to |specs|
      invariant forall x :: 0 <= x < i ==> DemandBefore(specs, x, x) + specs[x].et <= specs[x].period
    {
      var sum := 0;
      for j := 0 to i
        invariant sum == DemandBefore(specs, i, j)
      {
        MulMonotone(specs[j].model.m, 0, CeilDiv(specs[i].period, specs[j].period));
        var nij := CeilDiv(specs[j].model.m * CeilDiv(specs[i].period, specs[j].period), specs[j].model.k);
        sum := sum + specs[j].et * nij;
      }
      sum := sum + specs[i].et;
      if sum > specs[i].period {
        return false;
      }
    }
    return true;
  }

  /** The test's sum over the tasks before i is the demand above task i's priority. */
  lemma {:induction false} TestSumIsDemand(specs: seq<TaskSpec>, i: nat, n: nat)
    requires ValidSpecs(specs) && FixedPatterns(specs) && ByPriority(specs) && i < |specs| && n <= |specs|
    ensures Demand(specs, specs[i].priority, specs[i].period, n)
            == DemandBefore(specs, i, if n < i then n else i)
  {
    if n > 0 {
      TestSumIsDemand(specs, i, n - 1);
      var spec := specs[n - 1];
      var c := CeilDiv(specs[i].period, spec.period);
      if n - 1 < i {
        assert spec.model.m * c == c * spec.model.m;
      }
    }
  }

  /** A task set as the generator builds it, simulated as `MkpSimulation` does it. */
  ghost predicate MkpSystem(sys: System) {
    && ValidSpecs(sys.specs) && FixedPatterns(sys.specs) && ByPriority(sys.specs) && ImplicitDeadlines(sys.specs)
    && sys.policy == FPP && sys.planner.NoPlan?
    && sys.config == Config(true, true)
  }

  /** No mandatory job failed, no job was late, the constraint holds and was never violated. */
  ghost predicate Kept(spec: TaskSpec, ts: TaskState) {
    && ValidSpec(spec) && spec.model.Mkp?
    && var Mkp(m, k, spin, _) := spec.model;
    && (forall x :: 0 <= x < |ts.history| && IsJobMandatory(x, spin, m, k) ==> ts.history[x] == 1)
    && ts.misses == 0
    && Violations(m, k, ts.history) == 0
    && Firm(m, k, ts.history)
  }

  lemma PassedTestGuarantees(sys: System)
    requires MkpSystem(sys) && PassesTest(sys.specs)
    ensures ValidSystem(sys) && FppSystem(sys) && FixedPatterns(sys.specs)
    ensures forall i :: 0 <= i < |sys.specs| ==> Guaranteed(sys, i)
  {
    forall i | 0 <= i < |sys.specs|
      ensures Guaranteed(sys, i)
    {
      TestSumIsDemand(sys.specs, i, |sys.specs|);
      assert Bounded(sys, i, sys.specs[i].period);
    }
  }

  /**
    The soundness of the test: in a task set that passes it, whatever the spins,
    a run of any length is never stopped, no mandatory job is ever cancelled, no
    job finishes late, and no task's (m,k)-constraint is ever violated.
   */
  lemma PassedTestNeverFails(sys: System, steps: nat)
    requires MkpSystem(sys) && PassesTest(sys.specs)
    ensures RunFor(sys, Initial(sys), steps) == (At(sys, steps), true)
    ensures forall i :: 0 <= i < |sys.specs| ==> Kept(sys.specs[i], At(sys, steps).tasks[i])
  {
    hide At, RunFor, Initial, PassesTest, Guaranteed, FppSystem, Kept, MkpSystem, ValidSystem, FixedPatterns;
    PassedTestGuarantees(sys);
    StartsAtInitial(sys);
    NeverRefused(sys, 0, steps);
    EverythingIsKept(sys, steps);
  }

  lemma EverythingIsKept(sys: System, t: nat)
    requires ValidSystem(sys) && FppSystem(sys) && FixedPatterns(sys.specs)
    requires forall i :: 0 <= i < |sys.specs| ==> Guaranteed(sys, i)
    ensures forall i :: 0 <= i < |sys.specs| ==> Kept(sys.specs[i], At(sys, t).tasks[i])
  {
    MandatoryAlwaysSucceed(sys, t);
    NoMisses(sys, t);
    hide At, MandatoryOutcomes, Guaranteed;
    forall i | 0 <= i < |sys.specs|
      ensures Kept(sys.specs[i], At(sys, t).tasks[i])
    {
      PatternOutcomes(sys.specs[i], At(sys, t).tasks[i].history);
    }
  }

  lemma NothingRefused(sys: System, t: nat)
    requires ValidSystem(sys) && FppSystem(sys) && FixedPatterns(sys.specs)
    requires forall i :: 0 <= i < |sys.specs| ==> Guaranteed(sys, i)
    ensures Accepted(sys, At(sys, t))
  {
    hide At, Guaranteed, InitStep, Accepted;
    MandatoryAlwaysSucceed(sys, t);
    NoPlanStep(sys, At(sys, t));
  }

  lemma NeverRefused(sys: System, t: nat, steps: nat)
    requires ValidSystem(sys) && FppSystem(sys) && FixedPatterns(sys.specs)
    requires forall i :: 0 <= i < |sys.specs| ==> Guaranteed(sys, i)
    ensures RunFor(sys, At(sys, t), steps) == (At(sys, t + steps), true)
  {
    hide At, Accepted, RunFor, FppSystem, Guaranteed;
    forall u: nat | t <= u < t + steps
      ensures Accepted(sys, At(sys, u))
    {
      NothingRefused(sys, u);
    }
    RunFollowsAt(sys, t, steps);
  }

  lemma PatternOutcomes(spec: TaskSpec, history: seq<nat>)
    requires ValidSpec(spec) && spec.model.Mkp? && MandatoryOutcomes(spec, history)
    ensures var Mkp(m, k, spin, _) := spec.model;
            && (forall x :: 0 <= x < |history| && IsJobMandatory(x, spin, m, k) ==> history[x] == 1)
            && Violations(m, k, history) == 0
            && Firm(m, k, history)
  {
    var Mkp(m, k, spin, _) := spec.model;
    forall x | 0 <= x < |history| && IsJobMandatory(x, spin, m, k)
      ensures history[x] == 1
    {
      assert IsMandatory(spec, x);
    }
    PatternKeepsFirm(history, spin, m, k);
    PatternNeverViolates(history, spin, m, k);
  }
}
