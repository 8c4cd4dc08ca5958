/**
  The general test from initial states that show failures: within which time the
  state it looks for recurs all the same, and a family of tasks for which the
  overrun guard of src/mkeval/gstsimulation.cpp ends the search before that.
 */
module GstLimits {
  import opened Arithmetic
  import opened MkWindow
  import opened MkMonitoring
  import opened MkStates
  import opened Constraints
  import opened Machine
  import opened MachineInvariants
  import opened Simulations
  import opened GstRuns
  import opened GstSimulations

  // ----- Every initial state -----

  lemma {:induction false} AcceptedRunIsAt(sys: System, t: nat, steps: nat)
    requires ValidSystem(sys) && sys.exitOnCancel && RunFor(sys, At(sys, t), steps).1
    ensures RunFor(sys, At(sys, t), steps).0 == At(sys, t + steps)
    decreases steps
  {
    hide Accepted, Step, Stopped;
    if steps > 0 {
      assert At(sys, t + 1) == Step(sys, At(sys, t));
      AcceptedRunIsAt(sys, t + 1, steps - 1);
    }
  }

  lemma AfterIsAt(sys: System, hyperPeriod: nat, n: nat)
    requires ValidSystem(sys) && sys.exitOnCancel && After(sys, hyperPeriod, n).1
    ensures After(sys, hyperPeriod, n).0 == At(sys, Elapsed(hyperPeriod, n))
  {
    hide At, RunFor, Initial;
    StartsAtInitial(sys);
    AcceptedRunIsAt(sys, 0, Elapsed(hyperPeriod, n));
  }

  /** By a time that fits k+1 periods after its offset, a task has recorded k outcomes. */
  lemma OutcomesByThen(sys: System, t: nat, i: nat, k: nat)
    requires Strict(sys) && i < |sys.specs| && sys.specs[i].offset + (k + 1) * sys.specs[i].period <= t
    ensures |At(sys, t).tasks[i].history| >= k
  {
    AlwaysPunctual(sys, t);
    AlwaysConserved(sys, t);
    hide At;
    var (spec, st) := (sys.specs[i], At(sys, t));
    assert ValidSpec(spec) && Clock(spec, st.tasks[i], t) && Pending(st.sched, i) <= 1;
    assert TaskBalanced(st.tasks[i], Pending(st.sched, i));
    ManyActivations(st.tasks[i].activations, k, spec.period);
  }

  lemma ManyActivations(activations: nat, k: nat, period: nat)
    requires period >= 1 && activations * period >= (k + 1) * period
    ensures activations >= k + 1
  {
    assert (k + 1) * period == k * period + period;
    if activations <= k {
      MulMonotone(period, activations, k);
      assert false;
    }
  }

  /** The hyperperiods by which every task has recorded as many outcomes as its window shows. */
  ghost predicate LongEnough(specs: seq<TaskSpec>, hyperPeriod: nat, start: nat)
    requires AllConstrained(specs)
  {
    forall i :: 0 <= i < |specs| ==>
                  specs[i].period <= hyperPeriod
                  && specs[i].offset + (specs[i].model.k + 1) * hyperPeriod <= Elapsed(hyperPeriod, start)
  }

  lemma TaskSettledByThen(sys: System, hyperPeriod: nat, start: nat, t: nat, i: nat)
    requires Strict(sys) && AllConstrained(sys.specs) && LongEnough(sys.specs, hyperPeriod, start)
    requires Elapsed(hyperPeriod, start) <= t && i < |sys.specs|
    ensures Constrained(sys.specs[i].model) && Settled(sys.specs[i], At(sys, t).tasks[i])
  {
    hide At, Strict, Elapsed;
    var spec := sys.specs[i];
    assert Constrained(spec.model) && spec.period <= hyperPeriod;
    MulMonotone(spec.model.k + 1, spec.period, hyperPeriod);
    OutcomesByThen(sys, t, i, spec.model.k);
  }

  lemma SettledByThen(sys: System, hyperPeriod: nat, start: nat, n: nat)
    requires Strict(sys) && Testable(sys) && LongEnough(sys.specs, hyperPeriod, start) && start <= n
    requires After(sys, hyperPeriod, n).1
    ensures SettledAfter(sys, hyperPeriod, n)
  {
    hide After, At, Strict, LongEnough, Settled, ValidSystem, Elapsed;
    var t := Elapsed(hyperPeriod, n);
    AfterIsAt(sys, hyperPeriod, n);
    ElapsedMonotone(hyperPeriod, start, n);
    forall i | 0 <= i < |sys.specs|
      ensures Constrained(sys.specs[i].model) && Settled(sys.specs[i], At(sys, t).tasks[i])
    {
      TaskSettledByThen(sys, hyperPeriod, start, t, i);
    }
  }

  lemma ElapsedMonotone(hyperPeriod: nat, n: nat, n': nat)
    requires n <= n'
    ensures Elapsed(hyperPeriod, n) <= Elapsed(hyperPeriod, n')
  {
  }

  /**
    With both cancellation flags on and deadlines at most the periods a run without
    refused cancellations comes back to a joint state from every initial state:
    within as many hyperperiods as there are joint states, counted from when every
    task has recorded a whole window of outcomes.
   */
  lemma RecursFromAnyState(sys: System, hyperPeriod: nat, start: nat)
    requires Strict(sys) && Testable(sys) && LongEnough(sys.specs, hyperPeriod, start)
    requires forall n: nat :: After(sys, hyperPeriod, n).1
    ensures exists n :: start < n <= start + |JointStates(ConstraintsOf(sys.specs))| && Recurs(sys, hyperPeriod, n)
  {
    hide After, JointStates, SettledAfter, Strict, LongEnough;
    forall n: nat | start <= n
      ensures SettledAfter(sys, hyperPeriod, n)
    {
      SettledByThen(sys, hyperPeriod, start, n);
    }
    RecursOnceSettled(sys, hyperPeriod, start);
  }

  // ----- The guard -----

  /** A task that must never fail, and always can succeed, with k failures on record. */
  function FromFailures(k: nat): TaskSpec {
    TaskSpec(1, 0, 1, 1, 0, Mk(k, k), Repeat(0, k))
  }

  function Alone(k: nat): System {
    System([FromFailures(k)], Config(true, true), EDF, true, NoPlan)
  }

  /** At time n all n jobs have been completed and the next one is due. */
  ghost predicate Completing(st: State, n: nat) {
    && st.now == n && st.sched == [] && |st.tasks| == 1
    && st.tasks[0].next == n && st.tasks[0].history == Repeat(1, n)
  }

  lemma OneActivation(k: nat, st: State)
    requires 1 <= k < 64 && st.sched == [] && |st.tasks| == 1 && st.tasks[0].next == st.now
    ensures ValidSystem(Alone(k)) && ValidState(Alone(k), st)
    ensures Activations(Alone(k), st, 0)
         == State(st.now, [Spawn(FromFailures(k), 0, st.tasks[0], st.now)], [Activated(FromFailures(k), st.tasks[0])])
  {
    hide Spawn, Activated;
    var sys := Alone(k);
    assert ValidState(sys, st) && Due(st, 0);
    assert st.tasks[0 := Activated(FromFailures(k), st.tasks[0])] == [Activated(FromFailures(k), st.tasks[0])];
    ActivationsFirst(sys, st, 0);
    ActivationsDone(sys, ActivateOne(sys, st, 0));
  }

  lemma StepCompletes(k: nat, st: State, n: nat)
    requires 1 <= k < 64 && Completing(st, n)
    ensures var sys := Alone(k);
            ValidSystem(sys) && ValidState(sys, st) && Accepted(sys, st) && Completing(Step(sys, st), n + 1)
  {
    var sys := Alone(k);
    OneActivation(k, st);
    assert InitStep(sys, st) == (st, true);
    NoPlanStep(sys, st);
    assert Repeat(1, n) + [1] == Repeat(1, n + 1);
    hide Activations, InitStep, Accepted, Step, ValidSystem;
  }

  lemma {:induction false} CompletesAll(k: nat, st: State, n: nat, steps: nat)
    requires 1 <= k < 64 && Completing(st, n)
    ensures var sys := Alone(k);
            && ValidSystem(sys) && ValidState(sys, st)
            && RunFor(sys, st, steps).1 && Completing(RunFor(sys, st, steps).0, n + steps)
    decreases steps
  {
    hide Completing, Accepted, Step;
    StepCompletes(k, st, n);
    if steps > 0 {
      CompletesAll(k, Step(Alone(k), st), n + 1, steps - 1);
    }
  }

  lemma HistoryAfter(k: nat, n: nat)
    requires 1 <= k < 64
    ensures var sys := Alone(k);
            && ValidSystem(sys) && After(sys, 1, n).1 && |After(sys, 1, n).0.tasks| == 1
            && After(sys, 1, n).0.tasks[0].history == Repeat(1, n)
  {
    var sys := Alone(k);
    assert Repeat(1, 0) == [];
    assert Completing(Initial(sys), 0);
    hide RunFor, Initial;
    CompletesAll(k, Initial(sys), 0, n);
    assert Elapsed(1, n) == n;
  }

  /** The recorded window after n hyperperiods: the n newest entries are successes. */
  function Shown(k: nat, n: nat): (w: seq<nat>) {
    if n <= k then Repeat(0, k - n) + Repeat(1, n) else Repeat(1, k)
  }

  lemma RecordedWindow(k: nat, ts: TaskState, n: nat)
    requires 1 <= k < 64 && ts.history == Repeat(1, n)
    ensures GstRuns.Recorded(FromFailures(k), ts) == Shown(k, n)
  {
  }

  lemma AloneIsTestable(k: nat)
    requires 1 <= k < 64
    ensures Testable(Alone(k))
  {
  }

  lemma ShownAfter(k: nat, n: nat)
    requires 1 <= k < 64
    ensures var sys := Alone(k);
            && Testable(sys) && After(sys, 1, n).1
            && JointState(sys.specs, After(sys, 1, n).0.tasks) == [Encode(Shown(k, n))]
  {
    hide After, Encode, Shown, GstRuns.Recorded, Testable, ValidSystem;
    AloneIsTestable(k);
    HistoryAfter(k, n);
    RecordedWindow(k, After(Alone(k), 1, n).0.tasks[0], n);
  }

  lemma ShownDiffers(k: nat, n: nat, n': nat)
    requires n < n' <= k
    ensures Encode(Shown(k, n)) != Encode(Shown(k, n'))
  {
    var (w, w') := (Shown(k, n), Shown(k, n'));
    assert w[k - n'] == 0 && w'[k - n'] == 1;
    if Encode(w) == Encode(w') {
      EncodeInjective(w, w');
    }
  }

  lemma OneJointState(k: nat)
    requires 1 <= k < 64
    ensures AllConstrained(Alone(k).specs) && |JointStates(ConstraintsOf(Alone(k).specs))| == 1
  {
    var specs := Alone(k).specs;
    assert ConstraintsOf(specs) == [Constraint(k, k)];
    JointStateCount([Constraint(k, k)]);
    BinomDiagonal(k);
    assert [Constraint(k, k)][..0] == [] && TailSum(k, k + 1) == 0;
  }

  /** The run comes back to a state after k+1 hyperperiods and not before. */
  lemma RecursAfterAWindow(k: nat)
    requires 1 <= k < 64
    ensures Testable(Alone(k)) && (forall n: nat :: After(Alone(k), 1, n).1)
    ensures forall n: nat :: n <= k ==> !Recurs(Alone(k), 1, n)
    ensures Recurs(Alone(k), 1, k + 1)
  {
    forall n: nat
      ensures Testable(Alone(k)) && After(Alone(k), 1, n).1
      ensures JointState(Alone(k).specs, After(Alone(k), 1, n).0.tasks) == [Encode(Shown(k, n))]
    {
      ShownAfter(k, n);
    }
    hide After, JointState, Encode;
    assert Shown(k, k) == Shown(k, k + 1);
    assert After(Alone(k), 1, k).1;
    forall i: nat, n: nat | i < n <= k
      ensures Encode(Shown(k, i)) != Encode(Shown(k, n))
    {
      ShownDiffers(k, i, n);
    }
  }

  /**
    For k of at least 2, however the search is decided, it is the guard that ends
    it: after two hyperperiods, more than the one joint state there is, without a
    refused cancellation and without a recurring state.
   */
  lemma SearchEndsEarly(k: nat, hpCount: nat, recurringState: bool, st: State, ok: bool)
    requires 2 <= k < 64 && Verdict(Alone(k), 1, hpCount, recurringState, st, ok)
    ensures hpCount == 2 > |JointStates(ConstraintsOf(Alone(k).specs))|
    ensures ok && !recurringState && !Recurs(Alone(k), 1, hpCount)
  {
    hide After, JointStates, Recurs;
    OneJointState(k);
    RecursAfterAWindow(k);
  }
}
