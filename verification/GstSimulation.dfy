/**
  The general schedulability test (src/mkeval/gstsimulation.cpp): hyperperiods
  are simulated until a task objects or the joint (m,k)-state recurs.
 */
module GstSimulations {
  import opened TmsMath
  import opened MkWindow
  import opened MkMonitoring
  import opened MkStates
  import opened Constraints
  import opened Machine
  import opened MachineInvariants
  import opened GstRuns
  import opened AldScheduling
  import opened Tasks
  import opened Simulations

  // ----- The bound -----

  function Pow2(n: nat): nat {
    if n == 0 then 1 else 2 * Pow2(n - 1)
  }

  lemma {:induction false} BinomBound(n: nat, k: nat)
    ensures Binom(n, k) <= Pow2(n)
  {
    if n > 0 {
      BinomBound(n - 1, k);
      if k > 0 {
        BinomBound(n - 1, k - 1);
      }
    }
  }

  lemma {:induction false} Pow2Monotone(a: nat, b: nat)
    requires a <= b
    ensures Pow2(a) <= Pow2(b)
  {
    if a < b {
      Pow2Monotone(a, b - 1);
    }
  }

  lemma {:induction false} Pow2Sum(a: nat, b: nat)
    ensures Pow2(a + b) == Pow2(a) * Pow2(b)
  {
    if b > 0 {
      Pow2Sum(a, b - 1);
      assert Pow2(a) * (2 * Pow2(b - 1)) == 2 * (Pow2(a) * Pow2(b - 1));
    }
  }

  lemma Pow2Of63()
    ensures Pow2(63) == 0x8000_0000_0000_0000
  {
    assert Pow2(16) == 0x1_0000 && Pow2(15) == 0x8000;
    hide Pow2;
    Pow2Sum(32, 31);
    Pow2Sum(16, 16);
    Pow2Sum(16, 15);
  }

  /** Coefficients of window lengths fit into a machine word. */
  lemma FitsWord(k: nat, j: nat)
    requires k < 64
    ensures Word(Binom(k, j)) == Binom(k, j)
  {
    BinomBound(k, j);
    Pow2Monotone(k, 63);
    Pow2Of63();
    hide Pow2, Binom;
  }

  lemma {:induction false} TailSumPositive(k: nat, m: nat)
    requires m <= k
    ensures TailSum(k, m) > 0
    decreases k - m
  {
    if m < k {
      TailSumPositive(k, m + 1);
    } else {
      BinomDiagonal(k);
    }
  }

  lemma {:induction false} BinomDiagonal(k: nat)
    ensures Binom(k, k) == 1
  {
    if k > 0 {
      BinomDiagonal(k - 1);
      BinomOutside(k - 1, k);
    }
  }

  /** The number of windows of one task in which its constraint holds. */
  method FeasibleWindows(m: nat, k: nat) returns (taskFm: nat)
    requires m <= k < 64
    ensures taskFm == |Codes(k, m)| && taskFm > 0
  {
    hide Binom, Codes;
    taskFm := 0;
    var j := m;
    while j <= k
      invariant m <= j <= k + 1
      invariant taskFm + TailSum(k, j) == TailSum(k, m)
    {
      var c := BinomialCoefficient(k, j);
      FitsWord(k, j);
      taskFm := taskFm + c;
      j := j + 1;
    }
    CodeCount(k, m);
    TailSumPositive(k, m);
  }

  lemma MultiplicatorNext(constraints: seq<Constraint>, i: nat)
    requires i < |constraints|
    ensures Multiplicator(constraints[..i + 1])
         == Multiplicator(constraints[..i]) * |Codes(constraints[i].k, constraints[i].m)|
  {
    assert constraints[..i + 1][..i] == constraints[..i];
    CodeCount(constraints[i].k, constraints[i].m);
  }

  ghost function Periods(specs: seq<TaskSpec>, n: nat): seq<nat>
    requires n <= |specs|
  {
    if n == 0 then [] else Periods(specs, n - 1) + [specs[n - 1].period]
  }

  /** `initData`: the hyperperiod, the least common multiple of the periods, and the number of joint states. */
  method InitData(specs: seq<TaskSpec>) returns (hyperPeriod: nat, multiplicator: nat)
    requires AllConstrained(specs) && forall i :: 0 <= i < |specs| ==> ValidSpec(specs[i])
    ensures LeastCommonMultiple(Periods(specs, |specs|), hyperPeriod)
    ensures multiplicator == |JointStates(ConstraintsOf(specs))| && multiplicator > 0
  {
    hide Divides, LeastMultiple, LeastCommonMultiple, JointStates, Codes, Multiplicator;
    MultipleOfNothing();
    ghost var constraints := ConstraintsOf(specs);
    hyperPeriod, multiplicator := 1, 1;
    NoConstraints(constraints);
    for i := 0 to |specs|
      invariant hyperPeriod > 0 && LeastCommonMultiple(Periods(specs, i), hyperPeriod)
      invariant multiplicator > 0 && multiplicator == Multiplicator(constraints[..i])
    {
      ghost var before := hyperPeriod;
      hyperPeriod := CalculateLcm(hyperPeriod, specs[i].period);
      MultipleOfOneMore(Periods(specs, i), before, specs[i].period, hyperPeriod);
      var taskFm := FeasibleWindows(specs[i].model.m, specs[i].model.k);
      MultiplicatorNext(constraints, i);
      MulPositive(multiplicator, taskFm);
      multiplicator := multiplicator * taskFm;
    }
    assert constraints[..|specs|] == constraints;
    JointStateCount(constraints);
  }

  lemma NoConstraints(constraints: seq<Constraint>)
    ensures Multiplicator(constraints[..0]) == 1
  {
  }

  lemma MulPositive(a: nat, b: nat)
    requires a > 0 && b > 0
    ensures a * b > 0
  {
  }

  // ----- The search, on values -----

  function Elapsed(hyperPeriod: nat, n: nat): nat {
    n * hyperPeriod
  }

  lemma ElapsedNext(hyperPeriod: nat, n: nat)
    ensures Elapsed(hyperPeriod, n + 1) == Elapsed(hyperPeriod, n) + hyperPeriod
  {
  }

  /** The state after n hyperperiods, and whether no task has objected until then. */
  ghost function After(sys: System, hyperPeriod: nat, n: nat): (r: (State, bool))
    requires ValidSystem(sys)
    ensures ValidState(sys, r.0)
  {
    RunFor(sys, Initial(sys), Elapsed(hyperPeriod, n))
  }

  ghost predicate Testable(sys: System) {
    ValidSystem(sys) && AllConstrained(sys.specs) && ReportWindow(sys.specs) && sys.exitOnCancel
  }

  /** The recorded states are those after 0, 1, 2, ... hyperperiods, and none has occurred twice. */
  ghost predicate Trail(sys: System, hyperPeriod: nat, states: seq<seq<nat>>)
    requires Testable(sys)
  {
    TrailFrom(sys, hyperPeriod, 0, states)
  }

  /** The same from some number of hyperperiods on. */
  ghost predicate TrailFrom(sys: System, hyperPeriod: nat, start: nat, states: seq<seq<nat>>)
    requires Testable(sys)
  {
    Different(states) && forall i :: 0 <= i < |states| ==> RecordedAt(sys, hyperPeriod, start + i, states[i])
  }

  /** No task has objected in n hyperperiods, after which the joint state is the given one. */
  ghost predicate RecordedAt(sys: System, hyperPeriod: nat, n: nat, joint: seq<nat>)
    requires Testable(sys)
  {
    After(sys, hyperPeriod, n).1 && joint == JointState(sys.specs, After(sys, hyperPeriod, n).0.tasks)
  }

  /** After n hyperperiods all windows show outcomes of jobs, or started from safe states. */
  ghost predicate SettledAfter(sys: System, hyperPeriod: nat, n: nat)
    requires ValidSystem(sys)
  {
    AllSettled(sys.specs, After(sys, hyperPeriod, n).0.tasks)
  }

  lemma AfterIsFirm(sys: System, hyperPeriod: nat, n: nat)
    requires Testable(sys) && After(sys, hyperPeriod, n).1
    ensures var st := After(sys, hyperPeriod, n).0;
            && ValidState(sys, st) && Conserved(sys, st) && AllFirm(sys.specs, st.tasks)
            && (SettledAfter(sys, hyperPeriod, n) ==>
                  JointState(sys.specs, st.tasks) in JointStates(ConstraintsOf(sys.specs)))
  {
    InitialConserved(sys);
    InitialIsFirm(sys);
    hide Initial, RunFor, JointStates, Conserved, AllFirm, AllSettled;
    AcceptedRunIsFirm(sys, Initial(sys), Elapsed(hyperPeriod, n));
    if SettledAfter(sys, hyperPeriod, n) {
      FirmJointState(sys, After(sys, hyperPeriod, n).0);
    }
  }

  /** Initial states whose m newest outcomes are successes are safe from the start. */
  lemma NewestSettled(sys: System, hyperPeriod: nat, n: nat)
    requires ValidSystem(sys) && AllConstrained(sys.specs) && NewestSuccesses(sys.specs)
    ensures SettledAfter(sys, hyperPeriod, n)
  {
    hide RunFor, Initial;
    assert ValidState(sys, After(sys, hyperPeriod, n).0);
    forall i | 0 <= i < |sys.specs|
      ensures Settled(sys.specs[i], After(sys, hyperPeriod, n).0.tasks[i])
    {
      assert Constrained(sys.specs[i].model);
    }
  }

  /** Settled states that have not recurred are at most as many as there are joint states. */
  lemma TrailBound(sys: System, hyperPeriod: nat, start: nat, states: seq<seq<nat>>)
    requires Testable(sys) && TrailFrom(sys, hyperPeriod, start, states)
    requires forall n: nat :: start <= n < start + |states| ==> SettledAfter(sys, hyperPeriod, n)
    ensures |states| <= |JointStates(ConstraintsOf(sys.specs))|
  {
    hide JointStates, After, SettledAfter;
    forall i | 0 <= i < |states|
      ensures states[i] in JointStates(ConstraintsOf(sys.specs))
    {
      assert RecordedAt(sys, hyperPeriod, start + i, states[i]);
      AfterIsFirm(sys, hyperPeriod, start + i);
    }
    DifferentSize(states, JointStates(ConstraintsOf(sys.specs)));
  }

  lemma TrailNext(sys: System, hyperPeriod: nat, start: nat, states: seq<seq<nat>>, st: State)
    requires Testable(sys) && TrailFrom(sys, hyperPeriod, start, states)
    requires ValidState(sys, st) && After(sys, hyperPeriod, start + |states|) == (st, true)
    requires JointState(sys.specs, st.tasks) !in states
    ensures TrailFrom(sys, hyperPeriod, start, states + [JointState(sys.specs, st.tasks)])
  {
    hide After;
    var longer := states + [JointState(sys.specs, st.tasks)];
    forall i | 0 <= i < |longer|
      ensures RecordedAt(sys, hyperPeriod, start + i, longer[i])
    {
      assert i < |states| ==> longer[i] == states[i];
    }
    forall i, j | 0 <= i < j < |longer|
      ensures longer[i] != longer[j]
    {
      assert longer[i] == states[i];
      assert if j < |states| then longer[j] == states[j] else longer[j] !in states;
    }
  }

  lemma AfterNext(sys: System, hyperPeriod: nat, n: nat, st: State)
    requires ValidSystem(sys) && ValidState(sys, st) && After(sys, hyperPeriod, n) == (st, true)
    ensures After(sys, hyperPeriod, n + 1) == RunFor(sys, st, hyperPeriod)
  {
    hide Elapsed, RunFor, Initial, ValidSystem, ValidState;
    ElapsedNext(hyperPeriod, n);
    RunForSplit(sys, Initial(sys), Elapsed(hyperPeriod, n), hyperPeriod);
  }

  lemma AfterNothing(sys: System, hyperPeriod: nat)
    requires ValidSystem(sys)
    ensures After(sys, hyperPeriod, 0) == (Initial(sys), true)
  {
    assert Elapsed(hyperPeriod, 0) == 0;
  }

  /** The joint state after n hyperperiods has been seen before. */
  ghost predicate Recurs(sys: System, hyperPeriod: nat, n: nat)
    requires Testable(sys)
  {
    exists i :: 0 <= i < n && After(sys, hyperPeriod, i).1
                && JointState(sys.specs, After(sys, hyperPeriod, i).0.tasks)
                   == JointState(sys.specs, After(sys, hyperPeriod, n).0.tasks)
  }

  /**
    Once all windows are settled, a run without refused cancellations comes back
    to a joint (m,k)-state within as many hyperperiods as there are joint states.
   */
  lemma RecursOnceSettled(sys: System, hyperPeriod: nat, start: nat)
    requires Testable(sys)
    requires forall n: nat :: After(sys, hyperPeriod, n).1
    requires forall n: nat :: start <= n ==> SettledAfter(sys, hyperPeriod, n)
    ensures exists n :: start < n <= start + |JointStates(ConstraintsOf(sys.specs))| && Recurs(sys, hyperPeriod, n)
  {
    var bound := |JointStates(ConstraintsOf(sys.specs))|;
    hide After, JointStates, SettledAfter;
    if forall n :: start < n <= start + bound ==> !Recurs(sys, hyperPeriod, n) {
      var states := TrailOf(sys, hyperPeriod, start, bound + 1);
      TrailBound(sys, hyperPeriod, start, states);
    }
  }

  /** If the m newest outcomes with which each monitor starts are successes, that is so from the start. */
  lemma RecursInTime(sys: System, hyperPeriod: nat)
    requires Testable(sys) && NewestSuccesses(sys.specs)
    requires forall n: nat :: After(sys, hyperPeriod, n).1
    ensures exists n :: 1 <= n <= |JointStates(ConstraintsOf(sys.specs))| && Recurs(sys, hyperPeriod, n)
  {
    hide After, JointStates, SettledAfter;
    forall n: nat
      ensures SettledAfter(sys, hyperPeriod, n)
    {
      NewestSettled(sys, hyperPeriod, n);
    }
    RecursOnceSettled(sys, hyperPeriod, 0);
  }

  lemma {:induction false} TrailOf(sys: System, hyperPeriod: nat, start: nat, n: nat) returns (states: seq<seq<nat>>)
    requires Testable(sys)
    requires forall i: nat :: i < start + n ==> After(sys, hyperPeriod, i).1
    requires forall i: nat :: start < i < start + n ==> !Recurs(sys, hyperPeriod, i)
    ensures |states| == n && TrailFrom(sys, hyperPeriod, start, states)
  {
    hide After;
    states := [];
    if n > 0 {
      states := TrailOf(sys, hyperPeriod, start, n - 1);
      var last := start + (n - 1);
      var st := After(sys, hyperPeriod, last).0;
      AfterIsFirm(sys, hyperPeriod, last);
      assert After(sys, hyperPeriod, last) == (st, true);
      NotYetSeen(sys, hyperPeriod, start, states);
      TrailNext(sys, hyperPeriod, start, states, st);
      states := states + [JointState(sys.specs, st.tasks)];
    }
  }

  lemma NotYetSeen(sys: System, hyperPeriod: nat, start: nat, states: seq<seq<nat>>)
    requires Testable(sys) && TrailFrom(sys, hyperPeriod, start, states)
    requires states == [] || !Recurs(sys, hyperPeriod, start + |states|)
    ensures JointState(sys.specs, After(sys, hyperPeriod, start + |states|).0.tasks) !in states
  {
    hide After;
    var joint := JointState(sys.specs, After(sys, hyperPeriod, start + |states|).0.tasks);
    forall i | 0 <= i < |states|
      ensures states[i] != joint
    {
      assert RecordedAt(sys, hyperPeriod, start + i, states[i]) && start + i < start + |states|;
    }
  }

  lemma SeenExactly(sys: System, hyperPeriod: nat, states: seq<seq<nat>>)
    requires Testable(sys) && Trail(sys, hyperPeriod, states)
    ensures var joint := JointState(sys.specs, After(sys, hyperPeriod, |states|).0.tasks);
            joint in states <==> Recurs(sys, hyperPeriod, |states|)
  {
    hide After;
    var joint := JointState(sys.specs, After(sys, hyperPeriod, |states|).0.tasks);
    if joint in states {
      var i :| 0 <= i < |states| && states[i] == joint;
      assert RecordedAt(sys, hyperPeriod, 0 + i, states[i]) && 0 + i == i;
    }
    if Recurs(sys, hyperPeriod, |states|) {
      NotYetSeenElse(sys, hyperPeriod, states);
    }
  }

  lemma NotYetSeenElse(sys: System, hyperPeriod: nat, states: seq<seq<nat>>)
    requires Testable(sys) && Trail(sys, hyperPeriod, states) && Recurs(sys, hyperPeriod, |states|)
    ensures JointState(sys.specs, After(sys, hyperPeriod, |states|).0.tasks) in states
  {
    hide After;
    var i :| 0 <= i < |states| && After(sys, hyperPeriod, i).1
             && JointState(sys.specs, After(sys, hyperPeriod, i).0.tasks)
                == JointState(sys.specs, After(sys, hyperPeriod, |states|).0.tasks);
    assert RecordedAt(sys, hyperPeriod, 0 + i, states[i]);
  }

  /** What the state after the latest hyperperiod says about the search. */
  lemma SearchOutcome(sys: System, hyperPeriod: nat, states: seq<seq<nat>>, st: State, ok: bool)
    requires Testable(sys) && Trail(sys, hyperPeriod, states) && ValidState(sys, st)
    requires After(sys, hyperPeriod, |states|) == (st, ok)
    ensures JointState(sys.specs, st.tasks) in states <==> Recurs(sys, hyperPeriod, |states|)
    ensures forall n :: 0 <= n < |states| ==> !Recurs(sys, hyperPeriod, n)
    ensures NewestSuccesses(sys.specs) ==>
              var bound := |JointStates(ConstraintsOf(sys.specs))|;
              && |states| <= bound
              && (ok && JointState(sys.specs, st.tasks) !in states ==> |states| < bound)
  {
    hide After, JointStates, SettledAfter;
    forall n | 0 <= n < |states|
      ensures !Recurs(sys, hyperPeriod, n)
    {
      assert RecordedAt(sys, hyperPeriod, 0 + n, states[n]);
      forall i | 0 <= i < n
        ensures JointState(sys.specs, After(sys, hyperPeriod, i).0.tasks) != JointState(sys.specs, After(sys, hyperPeriod, n).0.tasks)
      {
        assert RecordedAt(sys, hyperPeriod, 0 + i, states[i]) && states[i] != states[n];
      }
    }
    SeenExactly(sys, hyperPeriod, states);
    if NewestSuccesses(sys.specs) {
      forall n: nat
        ensures SettledAfter(sys, hyperPeriod, n)
      {
        NewestSettled(sys, hyperPeriod, n);
      }
      TrailBound(sys, hyperPeriod, 0, states);
      if ok && JointState(sys.specs, st.tasks) !in states {
        TrailNext(sys, hyperPeriod, 0, states, st);
        TrailBound(sys, hyperPeriod, 0, states + [JointState(sys.specs, st.tasks)]);
      }
    }
  }

  /**
    The verdict of the search: that of the run over the simulated hyperperiods.
    A search that ends without a refusal and without a recurring state is ended by
    the overrun guard, after one hyperperiod more than there are joint states;
    from initial states whose newest outcomes are successes it never is.
   */
  ghost predicate Verdict(sys: System, hyperPeriod: nat, hpCount: nat, recurringState: bool, st: State, ok: bool) {
    && Testable(sys)
    && var bound := |JointStates(ConstraintsOf(sys.specs))|;
    && 1 <= hpCount <= bound + 1
    && After(sys, hyperPeriod, hpCount) == (st, ok)
    && (recurringState <==> ok && Recurs(sys, hyperPeriod, hpCount))
    && (ok && !recurringState ==> hpCount == bound + 1 && forall n :: 1 <= n < hpCount ==> !Recurs(sys, hyperPeriod, n))
    && (NewestSuccesses(sys.specs) ==> hpCount <= bound && (ok ==> recurringState))
  }

  // ----- The reduced states -----

  /** The reduced states recorded so far are those after 0, 1, 2, ... hyperperiods. */
  ghost predicate ReducedTrail(sys: System, hyperPeriod: nat, reduced: seq<seq<nat>>)
    requires Testable(sys)
  {
    forall i :: 0 <= i < |reduced| ==> ReducedAt(sys, hyperPeriod, i, reduced[i])
  }

  ghost predicate ReducedAt(sys: System, hyperPeriod: nat, n: nat, reduced: seq<nat>)
    requires Testable(sys)
  {
    After(sys, hyperPeriod, n).1 && reduced == ReducedState(sys.specs, After(sys, hyperPeriod, n).0.tasks)
  }

  /** No task has objected in n hyperperiods, and the reduced state after them has been seen before. */
  ghost predicate ReducedRecurs(sys: System, hyperPeriod: nat, n: nat)
    requires Testable(sys)
  {
    && After(sys, hyperPeriod, n).1
    && exists i :: 0 <= i < n && ReducedAt(sys, hyperPeriod, i, ReducedState(sys.specs, After(sys, hyperPeriod, n).0.tasks))
  }

  /**
    What the search reports about reduced states after some hyperperiods: whether
    one has recurred, and if so in which hyperperiod (counted from 0) and at what
    time that was first.
   */
  ghost predicate ReducedVerdict(sys: System, hyperPeriod: nat, hpCount: nat, recurred: bool, period: nat, cycle: int) {
    && Testable(sys)
    && (recurred <==> exists n :: 1 <= n <= hpCount && ReducedRecurs(sys, hyperPeriod, n))
    && (recurred ==>
          && period < hpCount && ReducedRecurs(sys, hyperPeriod, period + 1)
          && cycle == After(sys, hyperPeriod, period + 1).0.now
          && forall n :: 1 <= n <= period ==> !ReducedRecurs(sys, hyperPeriod, n))
  }

  lemma ReducedStart(sys: System, hyperPeriod: nat, period: nat, cycle: int)
    requires Testable(sys)
    ensures ReducedTrail(sys, hyperPeriod, []) && ReducedVerdict(sys, hyperPeriod, 0, false, period, cycle)
  {
  }

  lemma ReducedTrailNext(sys: System, hyperPeriod: nat, reduced: seq<seq<nat>>, st: State)
    requires Testable(sys) && ReducedTrail(sys, hyperPeriod, reduced)
    requires ValidState(sys, st) && After(sys, hyperPeriod, |reduced|) == (st, true)
    ensures ReducedTrail(sys, hyperPeriod, reduced + [ReducedState(sys.specs, st.tasks)])
  {
    hide After;
  }

  lemma ReducedSeen(sys: System, hyperPeriod: nat, reduced: seq<seq<nat>>, st: State, ok: bool)
    requires Testable(sys) && ReducedTrail(sys, hyperPeriod, reduced) && ValidState(sys, st)
    requires After(sys, hyperPeriod, |reduced|) == (st, ok)
    ensures ReducedRecurs(sys, hyperPeriod, |reduced|) <==> ok && ReducedState(sys.specs, st.tasks) in reduced
  {
    hide After;
    var here := ReducedState(sys.specs, st.tasks);
    if here in reduced {
      var i :| 0 <= i < |reduced| && reduced[i] == here;
      assert ReducedAt(sys, hyperPeriod, i, here);
    }
    forall i | 0 <= i < |reduced|
      ensures ReducedAt(sys, hyperPeriod, i, here) <==> reduced[i] == here
    {
      assert ReducedAt(sys, hyperPeriod, i, reduced[i]);
    }
  }

  /** The report after one hyperperiod more. */
  lemma ReducedNext(sys: System, hyperPeriod: nat, n: nat, recurred: bool, period: nat, cycle: int, now: bool)
    requires ReducedVerdict(sys, hyperPeriod, n, recurred, period, cycle)
    requires now <==> ReducedRecurs(sys, hyperPeriod, n + 1)
    ensures ReducedVerdict(sys, hyperPeriod, n + 1, recurred || now,
                           if now && !recurred then n else period,
                           if now && !recurred then After(sys, hyperPeriod, n + 1).0.now else cycle)
  {
    hide After, ReducedRecurs;
  }

  /** Equal reduced states mean that all windows are equal but for their oldest entries. */
  lemma ReducedStateIsWindows(specs: seq<TaskSpec>, tasks: seq<TaskState>, tasks': seq<TaskState>)
    requires AllConstrained(specs) && |specs| == |tasks| == |tasks'|
    requires forall i :: 0 <= i < |specs| ==> Bits(specs[i].initial) && Bits(tasks[i].history) && Bits(tasks'[i].history)
    ensures ReducedState(specs, tasks) == ReducedState(specs, tasks') <==>
            forall i :: 0 <= i < |specs| ==> GstRuns.Recorded(specs[i], tasks[i])[1..] == GstRuns.Recorded(specs[i], tasks'[i])[1..]
  {
    hide Encode;
    if ReducedState(specs, tasks) == ReducedState(specs, tasks') {
      forall i | 0 <= i < |specs|
        ensures GstRuns.Recorded(specs[i], tasks[i])[1..] == GstRuns.Recorded(specs[i], tasks'[i])[1..]
      {
        assert ReducedState(specs, tasks)[i] == ReducedState(specs, tasks')[i];
        EncodeInjective(GstRuns.Recorded(specs[i], tasks[i])[1..], GstRuns.Recorded(specs[i], tasks'[i])[1..]);
      }
    }
  }

  // ----- The simulation -----

  class GstSimulation {
    const simulation: Simulation
    var hyperPeriod: nat
    var mkFeasibilityMultiplicator: nat
    var hpCount: nat
    var states: seq<seq<nat>>
    var reducedStates: seq<seq<nat>>
    var recurringState: bool
    var recurringReducedState: bool
    var reducedStateHyperPeriod: nat
    var reducedStateCycle: int
    var simulated: bool
    var success: bool

    constructor (simulation: Simulation)
      requires AllConstrained(Specs(simulation.tasks)) && ValidSystem(simulation.Sys())
      ensures this.simulation == simulation && states == [] && hpCount == 0 && !recurringState
      ensures reducedStates == [] && !recurringReducedState
      ensures LeastCommonMultiple(Periods(Specs(simulation.tasks), |simulation.tasks|), hyperPeriod)
      ensures mkFeasibilityMultiplicator == |JointStates(ConstraintsOf(Specs(simulation.tasks)))| > 0
    {
      hide JointStates, LeastCommonMultiple, Simulation.Plan;
      this.simulation := simulation;
      hpCount, states, reducedStates, simulated, success := 0, [], [], false, false;
      recurringState, recurringReducedState, reducedStateHyperPeriod, reducedStateCycle := false, false, 0, 0;
      var period, multiplicator := InitData(Specs(simulation.tasks));
      hyperPeriod, mkFeasibilityMultiplicator := period, multiplicator;
    }

    /** The search can begin at the start of a simulation. */
    lemma Begin()
      requires Ready() && simulation.View() == Initial(simulation.Sys())
      requires states == [] && hpCount == 0 && !recurringState
      requires reducedStates == [] && !recurringReducedState
      requires mkFeasibilityMultiplicator == |JointStates(ConstraintsOf(Specs(simulation.tasks)))|
      ensures Searching()
    {
      AfterNothing(simulation.Sys(), hyperPeriod);
      ReducedStart(simulation.Sys(), hyperPeriod, reducedStateHyperPeriod, reducedStateCycle);
    }

    ghost predicate Ready()
      reads this, simulation, simulation.scheduler, simulation.scheduler.dlmon, simulation.scheduler.mySchedule
      reads simulation.scheduler.dlmon.jobs, Footprints(simulation.tasks)
    {
      simulation.Valid() && !simulation.finalised && Testable(simulation.Sys())
    }

    /** The monitors have states to record. */
    ghost predicate Recordable() {
      AllConstrained(Specs(simulation.tasks))
    }

    /** `recordState` */
    method RecordState()
      requires simulation.Valid() && Recordable()
      modifies `states, `reducedStates
      ensures simulation.Valid() && simulation.View() == old(simulation.View())
      ensures states == old(states) + [JointState(simulation.Sys().specs, simulation.View().tasks)]
      ensures reducedStates == old(reducedStates) + [ReducedState(simulation.Sys().specs, simulation.View().tasks)]
    {
      hide Simulation.Valid, Simulation.View, Simulation.Plan, JointState, ReducedState, Specs, AllConstrained;
      var cts, rts := CurrentStates();
      Append(cts, rts);
    }

    method Append(cts: seq<nat>, rts: seq<nat>)
      requires simulation.Valid()
      modifies `states, `reducedStates
      ensures simulation.Valid() && simulation.View() == old(simulation.View())
      ensures states == old(states) + [cts] && reducedStates == old(reducedStates) + [rts]
    {
      NotShared();
      hide ValidTasks, TaskViews, Specs, AldScheduler.Valid, Footprints, ValidSystem, ValidState, Simulation.Plan;
      states, reducedStates := states + [cts], reducedStates + [rts];
    }

    lemma NotShared()
      requires ValidTasks(simulation.tasks)
      ensures this !in Footprints(simulation.tasks)
      ensures forall o :: o in Footprints(simulation.tasks) ==> allocated(o)
    {
      Allocated(simulation.tasks);
      forall i, o | 0 <= i < |simulation.tasks| && o in simulation.tasks[i].Footprint()
        ensures o != this
      {
        OwnObjects(simulation.tasks[i], o);
      }
    }

    /** What there is to record. */
    ghost predicate Current(view: State, joint: seq<nat>, reduced: seq<nat>)
      reads simulation, simulation.scheduler, simulation.scheduler.dlmon, simulation.scheduler.mySchedule
      reads simulation.scheduler.dlmon.jobs, Footprints(simulation.tasks)
    {
      && simulation.Valid() && Recordable() && view == simulation.View()
      && joint == JointState(simulation.Sys().specs, view.tasks)
      && reduced == ReducedState(simulation.Sys().specs, view.tasks)
    }

    /** The compressed and reduced states of all monitors. */
    method CurrentStates() returns (cts: seq<nat>, rts: seq<nat>)
      requires simulation.Valid() && Recordable()
      ensures simulation.Valid() && simulation.View() == old(simulation.View())
      ensures cts == JointState(simulation.Sys().specs, simulation.View().tasks)
      ensures rts == ReducedState(simulation.Sys().specs, simulation.View().tasks)
    {
      ghost var joint := JointState(simulation.Sys().specs, simulation.View().tasks);
      ghost var reduced := ReducedState(simulation.Sys().specs, simulation.View().tasks);
      hide Simulation.Valid, Simulation.View, JointState, ReducedState, Specs, Simulation.Plan, Recordable, AllConstrained;
      cts, rts := Collect(simulation.View(), joint, reduced);
    }

    method Collect(ghost view: State, ghost joint: seq<nat>, ghost reduced: seq<nat>) returns (cts: seq<nat>, rts: seq<nat>)
      requires |joint| == |reduced| == |simulation.tasks| && Current(view, joint, reduced)
      ensures Current(view, joint, reduced)
      ensures cts == joint && rts == reduced
    {
      hide Current, Specs;
      cts, rts := [], [];
      for i := 0 to |simulation.tasks|
        invariant Current(view, joint, reduced)
        invariant cts == joint[..i] && rts == reduced[..i]
      {
        var c, r := StatesAt(i, view, joint, reduced);
        cts, rts := cts + [c], rts + [r];
      }
      assert joint[..|joint|] == joint && reduced[..|reduced|] == reduced;
    }

    method StatesAt(i: nat, ghost view: State, ghost joint: seq<nat>, ghost reduced: seq<nat>) returns (c: nat, r: nat)
      requires i < |simulation.tasks| == |joint| == |reduced| && Current(view, joint, reduced)
      ensures Current(view, joint, reduced)
      ensures c == joint[i] && r == reduced[i]
    {
      TaskFacts(i, view, joint, reduced);
      hide Current, Encode, Window, Specs, Task.Valid, Footprints;
      c, r := TaskStates(simulation.tasks[i]);
    }

    lemma TaskFacts(i: nat, view: State, joint: seq<nat>, reduced: seq<nat>)
      requires i < |simulation.tasks| == |joint| == |reduced| && Current(view, joint, reduced)
      ensures simulation.tasks[i].Valid() && Constrained(simulation.tasks[i].spec.model)
      ensures joint[i] == Encode(GstRuns.Recorded(simulation.tasks[i].spec, simulation.tasks[i].View()))
      ensures reduced[i] == Encode(GstRuns.Recorded(simulation.tasks[i].spec, simulation.tasks[i].View())[1..])
      ensures forall o :: o in Footprints(simulation.tasks) ==> allocated(o)
    {
      Allocated(simulation.tasks);
      assert Constrained(Specs(simulation.tasks)[i].model);
      hide Encode, GstRuns.Recorded;
    }

    method TaskStates(task: Task) returns (c: nat, r: nat)
      requires task.Valid() && Constrained(task.spec.model)
      ensures c == Encode(GstRuns.Recorded(task.spec, task.View()))
      ensures r == Encode(GstRuns.Recorded(task.spec, task.View())[1..])
    {
      assert Last(task.monitor.k, task.monitor.Recorded()) == GstRuns.Recorded(task.spec, task.View());
      hide Window, Last, Encode, Simulation.Plan;
      c := task.monitor.GetState();
      r := task.monitor.GetReducedState();
    }

    /** `checkState`: whether the current joint state was recorded before. */
    method CheckState() returns (found: bool)
      requires simulation.Valid() && Recordable()
      ensures simulation.Valid() && simulation.View() == old(simulation.View())
      ensures found <==> JointState(simulation.Sys().specs, simulation.View().tasks) in states
    {
      NotShared();
      hide Simulation.Valid, Simulation.View, Simulation.Plan, JointState, ReducedState, Specs, AllConstrained, Footprints;
      var cts, rts := CurrentStates();
      found := Contains(states, cts);
    }

    /** `checkReducedState` */
    method CheckReducedState() returns (found: bool)
      requires simulation.Valid() && Recordable()
      ensures simulation.Valid() && simulation.View() == old(simulation.View())
      ensures found <==> ReducedState(simulation.Sys().specs, simulation.View().tasks) in reducedStates
    {
      NotShared();
      hide Simulation.Valid, Simulation.View, Simulation.Plan, JointState, ReducedState, Specs, AllConstrained, Footprints;
      var cts, rts := CurrentStates();
      found := Contains(reducedStates, rts);
    }

    /** Everything the loop in `simulate` keeps while the search goes on. */
    ghost predicate Searching()
      reads this, simulation, simulation.scheduler, simulation.scheduler.dlmon, simulation.scheduler.mySchedule
      reads simulation.scheduler.dlmon.jobs, Footprints(simulation.tasks)
    {
      && Ready() && ValidState(simulation.Sys(), simulation.View())
      && mkFeasibilityMultiplicator == |JointStates(ConstraintsOf(simulation.Sys().specs))|
      && |states| == hpCount && Trail(simulation.Sys(), hyperPeriod, states)
      && After(simulation.Sys(), hyperPeriod, hpCount) == (simulation.View(), true)
      && JointState(simulation.Sys().specs, simulation.View().tasks) !in states
      && !recurringState && hpCount <= mkFeasibilityMultiplicator
      && |reducedStates| == hpCount && ReducedTrail(simulation.Sys(), hyperPeriod, reducedStates) && Reported()
    }

    /** What the search says about reduced states is right. */
    ghost predicate Reported()
      reads this, simulation, simulation.scheduler
    {
      ReducedVerdict(simulation.Sys(), hyperPeriod, hpCount, recurringReducedState, reducedStateHyperPeriod, reducedStateCycle)
    }

    /** What holds when the search is over. */
    ghost predicate Decided(ok: bool)
      reads this, simulation, simulation.scheduler, simulation.scheduler.mySchedule, Footprints(simulation.tasks)
    {
      Verdict(simulation.Sys(), hyperPeriod, hpCount, recurringState, simulation.View(), ok) && Reported()
    }

    /** The current state is recorded and the next n hyperperiods (0 or 1) have been simulated. */
    ghost predicate Recorded(n: nat, ok: bool)
      reads this, simulation, simulation.scheduler, simulation.scheduler.dlmon, simulation.scheduler.mySchedule
      reads simulation.scheduler.dlmon.jobs, Footprints(simulation.tasks)
    {
      && Ready() && ValidState(simulation.Sys(), simulation.View())
      && mkFeasibilityMultiplicator == |JointStates(ConstraintsOf(simulation.Sys().specs))|
      && |states| == hpCount + 1 && Trail(simulation.Sys(), hyperPeriod, states)
      && After(simulation.Sys(), hyperPeriod, hpCount + n) == (simulation.View(), ok)
      && !recurringState && hpCount <= mkFeasibilityMultiplicator
      && |reducedStates| == hpCount + 1 && ReducedTrail(simulation.Sys(), hyperPeriod, reducedStates) && Reported()
    }

    method StartPeriod()
      requires Searching()
      modifies `states, `reducedStates
      ensures Recorded(0, true)
      ensures hpCount == old(hpCount) && hyperPeriod == old(hyperPeriod)
    {
      hide Simulation.Valid, Simulation.View, After, JointStates, TrailFrom, ReducedTrail, ReducedVerdict, Footprints, Specs, Simulation.Plan;
      TrailNext(simulation.Sys(), hyperPeriod, 0, states, simulation.View());
      ReducedTrailNext(simulation.Sys(), hyperPeriod, reducedStates, simulation.View());
      RecordState();
    }

    /** `run(hyperPeriod)` */
    method RunPeriod() returns (ok: bool)
      requires Recorded(0, true)
      modifies simulation, simulation.scheduler, simulation.scheduler.dlmon, simulation.scheduler.mySchedule
      modifies Footprints(simulation.tasks)
      ensures Recorded(1, ok)
      ensures hpCount == old(hpCount) && hyperPeriod == old(hyperPeriod)
      ensures mkFeasibilityMultiplicator == old(mkFeasibilityMultiplicator)
      ensures forall x :: 0 <= x < |simulation.scheduler.mySchedule| ==>
                            simulation.scheduler.mySchedule[x] in old(simulation.scheduler.mySchedule)
                            || fresh(simulation.scheduler.mySchedule[x])
    {
      hide Simulation.Valid, Simulation.View, Simulation.Plan, After, JointStates, TrailFrom, ReducedTrail, ReducedVerdict, Specs, RunFor, Testable;
      ghost var before := simulation.View();
      ok := RunOnce();
      AfterNext(simulation.Sys(), hyperPeriod, hpCount, before);
    }

    /** The simulation's run, which does not touch the search. */
    method RunOnce() returns (ok: bool)
      requires simulation.Valid() && !simulation.finalised
      modifies simulation, simulation.scheduler, simulation.scheduler.dlmon, simulation.scheduler.mySchedule
      modifies Footprints(simulation.tasks)
      ensures simulation.Valid() && !simulation.finalised
      ensures ValidSystem(simulation.Sys()) && ValidState(simulation.Sys(), simulation.View())
      ensures ValidState(simulation.Sys(), old(simulation.View()))
      ensures (simulation.View(), ok) == RunFor(simulation.Sys(), old(simulation.View()), hyperPeriod)
      ensures hpCount == old(hpCount) && hyperPeriod == old(hyperPeriod) && states == old(states)
      ensures recurringState == old(recurringState) && mkFeasibilityMultiplicator == old(mkFeasibilityMultiplicator)
      ensures reducedStates == old(reducedStates) && recurringReducedState == old(recurringReducedState)
      ensures reducedStateHyperPeriod == old(reducedStateHyperPeriod) && reducedStateCycle == old(reducedStateCycle)
      ensures forall x :: 0 <= x < |simulation.scheduler.mySchedule| ==>
                            simulation.scheduler.mySchedule[x] in old(simulation.scheduler.mySchedule)
                            || fresh(simulation.scheduler.mySchedule[x])
    {
      hide Simulation.Valid, Simulation.View, Simulation.Plan, Specs, RunFor, Footprints, ValidSystem, ValidState;
      simulation.ValidFacts();
      NotShared();
      var ec := simulation.Run(hyperPeriod);
      simulation.ValidFacts();
      ok := ec == Ended(0);
    }

    /** One pass of the loop. */
    method SimulateHyperPeriod() returns (ok: bool, finished: bool)
      requires Searching()
      modifies this, simulation, simulation.scheduler, simulation.scheduler.dlmon, simulation.scheduler.mySchedule
      modifies Footprints(simulation.tasks)
      ensures !finished ==> Searching() && hpCount <= mkFeasibilityMultiplicator
      ensures finished ==> Decided(ok)
      ensures simulation.Valid() && hpCount == old(hpCount) + 1
      ensures hyperPeriod == old(hyperPeriod) && mkFeasibilityMultiplicator == old(mkFeasibilityMultiplicator)
      ensures forall x :: 0 <= x < |simulation.scheduler.mySchedule| ==>
                            simulation.scheduler.mySchedule[x] in old(simulation.scheduler.mySchedule)
                            || fresh(simulation.scheduler.mySchedule[x])
    {
      hide Searching, Recorded, Decided, Footprints, Simulation.Plan;
      StartPeriod();
      ok := RunPeriod();
      finished := EndPeriod(ok);
    }

    /** The checks after a hyperperiod, the overrun guard among them. */
    method EndPeriod(ok: bool) returns (finished: bool)
      requires Recorded(1, ok)
      modifies `hpCount, `recurringState, `recurringReducedState, `reducedStateHyperPeriod, `reducedStateCycle
      ensures !finished ==> Searching() && hpCount <= mkFeasibilityMultiplicator
      ensures finished ==> Decided(ok)
      ensures simulation.Valid() && hpCount == old(hpCount) + 1
    {
      hide Simulation.Valid, Simulation.View, Simulation.Plan, After, JointStates, TrailFrom, ReducedTrail, ReducedVerdict, ReducedRecurs, ReducedState, Specs, Recurs, Footprints, JointState;
      SearchOutcome(simulation.Sys(), hyperPeriod, states, simulation.View(), ok);
      ReducedSeen(simulation.Sys(), hyperPeriod, reducedStates, simulation.View(), ok);
      var recurred, reducedRecurred := false, false;
      if ok {
        recurred := CheckState();
        reducedRecurred := CheckReducedState();
      }
      ReducedNext(simulation.Sys(), hyperPeriod, hpCount, recurringReducedState, reducedStateHyperPeriod, reducedStateCycle, reducedRecurred);
      Count(recurred, reducedRecurred);
      finished := !ok || recurred;
      if hpCount > mkFeasibilityMultiplicator {
        finished := true;
      }
    }

    method Count(recurred: bool, reducedRecurred: bool)
      requires Ready()
      modifies `hpCount, `recurringState, `recurringReducedState, `reducedStateHyperPeriod, `reducedStateCycle
      ensures Ready() && simulation.View() == old(simulation.View())
      ensures hpCount == old(hpCount) + 1
      ensures recurringState == (old(recurringState) || recurred)
      ensures recurringReducedState == (old(recurringReducedState) || reducedRecurred)
      ensures var first := reducedRecurred && !old(recurringReducedState);
              && reducedStateHyperPeriod == (if first then old(hpCount) else old(reducedStateHyperPeriod))
              && reducedStateCycle == if first then simulation.View().now else old(reducedStateCycle)
    {
      NotShared();
      hide Simulation.Valid, Simulation.View, Specs, Footprints, ValidSystem, ValidState, Testable, Simulation.Plan;
      Tally(recurred, reducedRecurred, simulation.now);
    }

    method Tally(recurred: bool, reducedRecurred: bool, now: int)
      modifies `hpCount, `recurringState, `recurringReducedState, `reducedStateHyperPeriod, `reducedStateCycle
      ensures hpCount == old(hpCount) + 1
      ensures recurringState == (old(recurringState) || recurred)
      ensures recurringReducedState == (old(recurringReducedState) || reducedRecurred)
      ensures reducedStateHyperPeriod
           == if reducedRecurred && !old(recurringReducedState) then old(hpCount) else old(reducedStateHyperPeriod)
      ensures reducedStateCycle == if reducedRecurred && !old(recurringReducedState) then now else old(reducedStateCycle)
    {
      if recurred {
        recurringState := true;
      }
      if reducedRecurred && !recurringReducedState {
        recurringReducedState := true;
        reducedStateHyperPeriod := hpCount;
        reducedStateCycle := now;
      }
      hpCount := hpCount + 1;
    }

    /** Simulates hyperperiods until a task objects or the joint state recurs. */
    method Simulate() returns (r: bool)
      requires Searching() && hpCount == 0 && !simulation.finalised
      modifies this, simulation, simulation.scheduler, simulation.scheduler.dlmon, simulation.scheduler.mySchedule
      modifies Footprints(simulation.tasks)
      ensures simulated && r == success
      ensures hyperPeriod == old(hyperPeriod)
      ensures Decided(r)
    {
      hide Searching, Verdict, Footprints, Simulation.Plan, Simulation.Valid, Simulation.View;
      ghost var pending := simulation.scheduler.mySchedule;
      var finished := false;
      var ok := true;
      while !finished
        invariant !finished ==> Searching()
        invariant finished ==> Decided(ok) && simulation.Valid()
        invariant hyperPeriod == old(hyperPeriod)
        invariant forall x :: 0 <= x < |simulation.scheduler.mySchedule| ==>
                                simulation.scheduler.mySchedule[x] in pending || fresh(simulation.scheduler.mySchedule[x])
        invariant mkFeasibilityMultiplicator == old(mkFeasibilityMultiplicator)
        invariant !finished ==> hpCount <= mkFeasibilityMultiplicator
        decreases if finished then 0 else mkFeasibilityMultiplicator + 1 - hpCount
      {
        ok, finished := SimulateHyperPeriod();
      }
      simulation.ValidFacts();
      Conclude(ok);
      return success;
    }

    method Conclude(ok: bool)
      requires ValidTasks(simulation.tasks)
      modifies `simulated, `success
      ensures simulated && success == ok && simulation.View() == old(simulation.View())
    {
      NotShared();
      hide Simulation.View, Footprints, Specs, Simulation.Plan, ValidTasks;
      Finish(ok);
    }

    method Finish(ok: bool)
      modifies `simulated, `success
      ensures simulated && success == ok
    {
      simulated, success := true, ok;
    }

    static method Contains(recorded: seq<seq<nat>>, state: seq<nat>) returns (found: bool)
      ensures found <==> state in recorded
    {
      for i := 0 to |recorded|
        invariant state !in recorded[..i]
      {
        var cmp := Equal(recorded[i], state);
        if cmp {
          return true;
        }
        assert recorded[..i + 1] == recorded[..i] + [recorded[i]];
      }
      return false;
    }

    static method Equal(s: seq<nat>, t: seq<nat>) returns (cmp: bool)
      ensures cmp <==> s == t
    {
      if |s| != |t| {
        return false;
      }
      cmp := true;
      for i := 0 to |s|
        invariant cmp <==> forall x :: 0 <= x < i ==> s[x] == t[x]
      {
        cmp := cmp && s[i] == t[i];
      }
    }
  }

  /** The general test of a task set: the evaluation of a simulation that has just been set up. */
  method TestSchedulability(simulation: Simulation) returns (gst: GstSimulation, r: bool)
    requires simulation.Valid() && !simulation.finalised && Testable(simulation.Sys())
    requires simulation.View() == Initial(simulation.Sys())
    modifies simulation, simulation.scheduler, simulation.scheduler.dlmon, simulation.scheduler.mySchedule
    modifies Footprints(simulation.tasks)
    ensures fresh(gst) && gst.simulation == simulation
    ensures gst.Decided(r) && gst.simulated && gst.success == r
    ensures LeastCommonMultiple(Periods(Specs(simulation.tasks), |simulation.tasks|), gst.hyperPeriod)
  {
    hide Simulation.Valid, Simulation.View, Simulation.Plan, Footprints, Initial, LeastCommonMultiple, Specs, Testable;
    hide GstSimulation.Searching, GstSimulation.Decided;
    gst := Prepare(simulation);
    r := gst.Simulate();
  }

  method Prepare(simulation: Simulation) returns (gst: GstSimulation)
    requires simulation.Valid() && !simulation.finalised && Testable(simulation.Sys())
    requires simulation.View() == Initial(simulation.Sys())
    ensures fresh(gst) && gst.simulation == simulation && gst.Searching() && gst.hpCount == 0
    ensures LeastCommonMultiple(Periods(Specs(simulation.tasks), |simulation.tasks|), gst.hyperPeriod)
  {
    TestableFacts(simulation.Sys());
    hide Simulation.Valid, Simulation.View, Simulation.Plan, Footprints, Initial, JointStates, LeastCommonMultiple, Testable;
    hide ValidSystem, AllConstrained, GstSimulation.Searching, GstSimulation.Ready, Specs;
    gst := Create(simulation);
    gst.Begin();
  }

  method Create(simulation: Simulation) returns (gst: GstSimulation)
    requires simulation.Valid() && !simulation.finalised && Testable(simulation.Sys())
    requires ValidSystem(simulation.Sys()) && AllConstrained(Specs(simulation.tasks))
    ensures fresh(gst) && gst.simulation == simulation && gst.Ready() && simulation.View() == old(simulation.View())
    ensures gst.states == [] && gst.hpCount == 0 && !gst.recurringState
    ensures gst.reducedStates == [] && !gst.recurringReducedState
    ensures LeastCommonMultiple(Periods(Specs(simulation.tasks), |simulation.tasks|), gst.hyperPeriod)
    ensures gst.mkFeasibilityMultiplicator == |JointStates(ConstraintsOf(Specs(simulation.tasks)))|
  {
    hide Simulation.Valid, Simulation.View, Simulation.Plan, Footprints, JointStates, LeastCommonMultiple, Testable;
    hide ValidSystem, AllConstrained, Specs, ValidState, ConstraintsOf, Periods;
    Allocated(simulation.tasks);
    gst := new GstSimulation(simulation);
    assert simulation.Valid() && simulation.View() == old(simulation.View());
  }

  lemma TestableFacts(sys: System)
    requires Testable(sys)
    ensures ValidSystem(sys) && AllConstrained(sys.specs)
  {
  }
}
