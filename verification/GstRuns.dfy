/**
  Runs in which every refused cancellation ends the simulation: as long as none
  is refused, every (m,k)-constraint holds after every step, whatever the
  scheduler cancels and in whatever order it executes jobs.
 */
module GstRuns {
  import opened MkWindow
  import opened MkMonitoring
  import opened MkStates
  import opened Constraints
  import opened Machine
  import opened MachineInvariants

  ghost predicate FirmTask(spec: TaskSpec, ts: TaskState)
    requires Constrained(spec.model)
  {
    Firm(spec.model.m, spec.model.k, ts.history)
  }

  ghost predicate AllFirm(specs: seq<TaskSpec>, tasks: seq<TaskState>) {
    && AllConstrained(specs) && |specs| == |tasks|
    && forall i :: 0 <= i < |specs| ==> FirmTask(specs[i], tasks[i])
  }

  /** Cancellations that no hook objects to leave all constraints satisfied. */
  lemma {:induction false} AcceptedCancellations(specs: seq<TaskSpec>, tasks: seq<TaskState>, jobs: seq<JobV>)
    requires ReportWindow(specs) && AllFirm(specs, tasks) && Owned(jobs, |specs|)
    requires CancelAll(specs, tasks, jobs).1
    ensures AllFirm(specs, CancelAll(specs, tasks, jobs).0)
    decreases |jobs|
  {
    if jobs != [] {
      var job := jobs[0];
      var after := CancelledJob(tasks[job.task], job);
      assert CancelHook(specs[job.task], after, job);
      hide Firm;
      AcceptedCancellations(specs, tasks[job.task := after], jobs[1..]);
    }
  }

  lemma CompletionKeepsFirm(m: nat, k: nat, history: seq<nat>)
    requires k > 0 && Bits(history) && Firm(m, k, history)
    ensures Firm(m, k, history + [1])
  {
    WindowPush(k, history, 1);
  }

  lemma ExecuteKeepsFirm(sys: System, st: State)
    requires ValidSystem(sys) && ValidState(sys, st) && Conserved(sys, st) && AllFirm(sys.specs, st.tasks)
    ensures AllFirm(sys.specs, Execute(sys, st).tasks)
  {
    if st.sched != [] {
      var i := st.sched[0].task;
      assert st.sched[0] in st.sched;
      assert TaskBalanced(st.tasks[i], Pending(st.sched, i));
      assert FirmTask(sys.specs[i], st.tasks[i]);
      hide Conserved, TaskBalanced;
      CompletionKeepsFirm(sys.specs[i].model.m, sys.specs[i].model.k, st.tasks[i].history);
      hide Firm;
    }
  }

  lemma ActivationsKeepFirm(sys: System, st: State)
    requires ValidSystem(sys) && ValidState(sys, st) && AllFirm(sys.specs, st.tasks)
    ensures AllFirm(sys.specs, Activations(sys, st, 0).tasks)
  {
    hide Firm;
    forall i | 0 <= i < |sys.specs|
      ensures Activations(sys, st, 0).tasks[i].history == st.tasks[i].history
    {
      ActivationsKeepOutcomes(sys, st, 0, i);
    }
    hide Activations;
    forall i | 0 <= i < |sys.specs|
      ensures FirmTask(sys.specs[i], Activations(sys, st, 0).tasks[i])
    {
      assert FirmTask(sys.specs[i], st.tasks[i]);
    }
  }

  lemma InitStepKeepsFirm(sys: System, st: State)
    requires ValidState(sys, st) && ReportWindow(sys.specs) && AllFirm(sys.specs, st.tasks) && InitStep(sys, st).1
    ensures AllFirm(sys.specs, InitStep(sys, st).0.tasks)
  {
    SurvivorsAndDoomed(sys.config, st.now, st.sched);
    AcceptedCancellations(sys.specs, st.tasks, Doomed(sys.config, st.now, st.sched));
  }

  lemma ServeKeepsFirm(sys: System, st: State)
    requires ValidSystem(sys) && ValidState(sys, st) && Conserved(sys, st)
    requires ReportWindow(sys.specs) && AllFirm(sys.specs, st.tasks) && Schedule(sys, st).1
    ensures AllFirm(sys.specs, Serve(sys, st).tasks)
  {
    DecisionPartitions(sys, st);
    AcceptedCancellations(sys.specs, st.tasks, Decide(sys, st).cancelled);
    ScheduleConserves(sys, st);
    assert AllFirm(sys.specs, Schedule(sys, st).0.tasks);
    hide Schedule, Conserved, AllFirm, Execute;
    ExecuteKeepsFirm(sys, Schedule(sys, st).0);
  }

  lemma StepKeepsFirm(sys: System, st: State)
    requires ValidSystem(sys) && ValidState(sys, st) && Conserved(sys, st)
    requires ReportWindow(sys.specs) && AllFirm(sys.specs, st.tasks) && Accepted(sys, st)
    ensures AllFirm(sys.specs, Step(sys, st).tasks)
  {
    hide InitStep, Conserved, AllFirm, Activations, Serve, Schedule;
    InitStepKeepsFirm(sys, st);
    ActivationsKeepFirm(sys, InitStep(sys, st).0);
    ReadyConserves(sys, st);
    ServeKeepsFirm(sys, Ready(sys, st));
  }

  /** A run without refused cancellations ends with all constraints satisfied. */
  lemma {:induction false} AcceptedRunIsFirm(sys: System, st: State, steps: nat)
    requires ValidSystem(sys) && ValidState(sys, st) && Conserved(sys, st)
    requires ReportWindow(sys.specs) && sys.exitOnCancel && AllFirm(sys.specs, st.tasks)
    ensures var (r, ok) := RunFor(sys, st, steps); ok ==> Conserved(sys, r) && AllFirm(sys.specs, r.tasks)
    decreases steps
  {
    hide Conserved, AllFirm, Accepted, Step, Stopped;
    if steps > 0 && Accepted(sys, st) {
      StepConserves(sys, st);
      StepKeepsFirm(sys, st);
      AcceptedRunIsFirm(sys, Step(sys, st), steps - 1);
    }
  }

  lemma InitialIsFirm(sys: System)
    requires ValidSystem(sys) && AllConstrained(sys.specs)
    ensures AllFirm(sys.specs, Initial(sys).tasks)
  {
    forall i | 0 <= i < |sys.specs|
      ensures FirmTask(sys.specs[i], Initial(sys).tasks[i])
    {
      var k := sys.specs[i].model.k;
      SumRepeat(1, k);
      assert Window(k, []) == Repeat(1, k);
    }
  }

  /** Running a+b steps is running a steps and then, unless a cancellation was refused, b more. */
  lemma {:induction false} RunForSplit(sys: System, st: State, a: nat, b: nat)
    requires ValidSystem(sys) && ValidState(sys, st)
    ensures var (mid, ok) := RunFor(sys, st, a);
            RunFor(sys, st, a + b) == if ok then RunFor(sys, mid, b) else (mid, false)
    decreases a
  {
    hide Accepted, Step, Stopped;
    if a > 0 {
      RunForSplit(sys, Step(sys, st), a - 1, b);
    }
  }

  // ----- Joint states -----

  function ConstraintsOf(specs: seq<TaskSpec>): (r: seq<Constraint>)
    requires forall i :: 0 <= i < |specs| ==> !specs[i].model.Periodic?
    ensures |r| == |specs|
  {
    seq(|specs|, i requires 0 <= i < |specs| => Constraint(specs[i].model.m, specs[i].model.k))
  }

  /** The entries of a task's monitor. */
  function Recorded(spec: TaskSpec, ts: TaskState): (w: seq<nat>)
    requires Constrained(spec.model)
    ensures |w| == spec.model.k
  {
    Window(spec.model.k, spec.initial + ts.history)
  }

  /** The compressed states of all monitors. */
  ghost function JointState(specs: seq<TaskSpec>, tasks: seq<TaskState>): (r: seq<nat>)
    requires AllConstrained(specs) && |specs| == |tasks|
    ensures |r| == |specs|
  {
    seq(|specs|, i requires 0 <= i < |specs| => Encode(Recorded(specs[i], tasks[i])))
  }

  /** The same without the oldest outcome of each window. */
  ghost function ReducedState(specs: seq<TaskSpec>, tasks: seq<TaskState>): (r: seq<nat>)
    requires AllConstrained(specs) && |specs| == |tasks|
    ensures |r| == |specs|
  {
    seq(|specs|, i requires 0 <= i < |specs| => Encode(Recorded(specs[i], tasks[i])[1..]))
  }

  /** Equal joint states mean equal windows of all tasks. */
  lemma JointStateIsWindows(specs: seq<TaskSpec>, tasks: seq<TaskState>, tasks': seq<TaskState>)
    requires AllConstrained(specs) && |specs| == |tasks| == |tasks'|
    requires forall i :: 0 <= i < |specs| ==> Bits(specs[i].initial) && Bits(tasks[i].history) && Bits(tasks'[i].history)
    ensures JointState(specs, tasks) == JointState(specs, tasks') <==>
            forall i :: 0 <= i < |specs| ==> Recorded(specs[i], tasks[i]) == Recorded(specs[i], tasks'[i])
  {
    hide Encode;
    if JointState(specs, tasks) == JointState(specs, tasks') {
      forall i | 0 <= i < |specs|
        ensures Recorded(specs[i], tasks[i]) == Recorded(specs[i], tasks'[i])
      {
        assert JointState(specs, tasks)[i] == JointState(specs, tasks')[i];
        EncodeInjective(Recorded(specs[i], tasks[i]), Recorded(specs[i], tasks'[i]));
      }
    }
  }

  /** The window shows the outcomes of k jobs, or the initial state is one that never shows too few successes. */
  predicate Settled(spec: TaskSpec, ts: TaskState)
    requires Constrained(spec.model)
  {
    |ts.history| >= spec.model.k || NewestSucceeded(spec.model.m, spec.initial)
  }

  ghost predicate AllSettled(specs: seq<TaskSpec>, tasks: seq<TaskState>) {
    && AllConstrained(specs) && |specs| == |tasks|
    && forall i :: 0 <= i < |specs| ==> Settled(specs[i], tasks[i])
  }

  lemma SettledIsFirm(spec: TaskSpec, ts: TaskState)
    requires ValidSpec(spec) && Constrained(spec.model) && Settled(spec, ts) && FirmTask(spec, ts)
    ensures Sum(Recorded(spec, ts)) >= spec.model.m
  {
    var (m, k) := (spec.model.m, spec.model.k);
    if |ts.history| >= k {
      assert Last(k, spec.initial + ts.history) == Last(k, ts.history);
    } else {
      RecordedIsFirm(m, k, spec.initial, ts.history);
    }
  }

  lemma FirmJointState(sys: System, st: State)
    requires ValidSystem(sys) && ValidState(sys, st) && Conserved(sys, st) && AllFirm(sys.specs, st.tasks)
    requires AllSettled(sys.specs, st.tasks)
    ensures JointState(sys.specs, st.tasks) in JointStates(ConstraintsOf(sys.specs))
  {
    forall i | 0 <= i < |sys.specs|
      ensures JointState(sys.specs, st.tasks)[i] in Codes(sys.specs[i].model.k, sys.specs[i].model.m)
    {
      var (spec, ts) := (sys.specs[i], st.tasks[i]);
      assert ValidSpec(spec) && TaskBalanced(ts, Pending(st.sched, i)) && FirmTask(spec, ts) && Settled(spec, ts);
      SettledIsFirm(spec, ts);
      WindowHasCode(Recorded(spec, ts), spec.model.m);
    }
    hide Codes;
    JointStateMember(ConstraintsOf(sys.specs), JointState(sys.specs, st.tasks));
  }
}
