/**
  What `finalise` (src/core/simulation.cpp) does with the pending jobs: it
  always comes to an end, accounts for every job, and finishes a schedule that
  the EDF check accepts in exactly the time its jobs need.
 */
module Finalisation {
  import opened MkWindow
  import opened Machine
  import opened MachineInvariants
  import opened AldScheduling
  import opened EdfFeasibility

  /**
    Whatever the scheduler decides, `finalise` hands back what it does not keep
    pending; when it comes to its end without an objection nothing is pending.
   */
  lemma {:induction false} FinaliseAccounts(sys: System, st: State, n: nat)
    requires ValidSystem(sys) && ValidState(sys, st) && Conserved(sys, st)
    ensures var (r, ok) := FinaliseFor(sys, st, n);
            && Conserved(sys, r)
            && (!sys.exitOnCancel ==> ok)
            && forall i :: 0 <= i < |st.tasks| ==> r.tasks[i].activations == st.tasks[i].activations
    decreases n
  {
    hide Conserved, ValidSystem;
    if n > 0 && st.sched != [] {
      InitStepConserves(sys, st);
      InitStepKeepsActivations(sys, st);
      var init := InitStep(sys, st).0;
      ScheduleConserves(sys, init);
      ScheduleKeepsActivations(sys, init);
      TickConserves(sys, Schedule(sys, init).0);
      ServeConserves(sys, init);
      ServeKeepsActivations(sys, init);
      TickConserves(sys, Serve(sys, init));
      hide InitStep, Schedule, Serve;
      if (InitStep(sys, st).1 && Schedule(sys, init).1) || !sys.exitOnCancel {
        FinaliseAccounts(sys, FinaliseStep(sys, st), n - 1);
      }
    }
  }

  /** A scheduler that never idles with jobs pending comes to the end of the loop within the pending load. */
  lemma {:induction false} FinaliseInTime(sys: System, st: State, n: nat)
    requires ValidSystem(sys) && ValidState(sys, st) && NeverIdles(sys.planner) && n >= Load(st.sched)
    ensures FinaliseFor(sys, st, n) == Finalise(sys, st)
    ensures var (r, ok) := Finalise(sys, st); ok ==> r.sched == []
    decreases n
  {
    hide NeverIdles, ValidSystem, InitStep, Schedule, FinaliseStep;
    if st.sched != [] {
      FinaliseProgress(sys, st);
      if n > 0 && ((InitStep(sys, st).1 && Schedule(sys, InitStep(sys, st).0).1) || !sys.exitOnCancel) {
        FinaliseInTime(sys, FinaliseStep(sys, st), n - 1);
      }
    }
  }

  /** An iteration takes one unit of time, unless `initStep` ends the loop in it. */
  lemma IterationTakesTime(sys: System, st: State)
    requires ValidSystem(sys) && ValidState(sys, st)
    ensures FinaliseFor(sys, st, 1).0.now
         == st.now + if st.sched == [] || (!InitStep(sys, st).1 && sys.exitOnCancel) then 0 else 1
  {
    ExecuteNow(sys, Schedule(sys, InitStep(sys, st).0).0);
    hide Execute;
  }

  /** As long as the loop goes on its iterations follow one another. */
  lemma {:induction false} FinaliseForSplit(sys: System, st: State, a: nat, b: nat)
    requires ValidSystem(sys) && ValidState(sys, st)
    ensures var (mid, ok) := FinaliseFor(sys, st, a);
            FinaliseFor(sys, st, a + b) == if ok then FinaliseFor(sys, mid, b) else (mid, false)
    decreases a
  {
    hide FinaliseStep, InitStep, Schedule;
    if a > 0 && st.sched != [] {
      FinaliseForSplit(sys, FinaliseStep(sys, st), a - 1, b);
    }
  }

  lemma InitStepKeepsActivations(sys: System, st: State)
    requires ValidState(sys, st)
    ensures forall i :: 0 <= i < |st.tasks| ==> InitStep(sys, st).0.tasks[i].activations == st.tasks[i].activations
  {
    SurvivorsAndDoomed(sys.config, st.now, st.sched);
    forall i | 0 <= i < |st.tasks|
      ensures InitStep(sys, st).0.tasks[i].activations == st.tasks[i].activations
    {
      CancelAllClock(sys.specs, st.tasks, Doomed(sys.config, st.now, st.sched), i);
    }
  }

  lemma ScheduleKeepsActivations(sys: System, st: State)
    requires ValidSystem(sys) && ValidState(sys, st)
    ensures forall i :: 0 <= i < |st.tasks| ==> Schedule(sys, st).0.tasks[i].activations == st.tasks[i].activations
  {
    DecisionPartitions(sys, st);
    forall i | 0 <= i < |st.tasks|
      ensures Schedule(sys, st).0.tasks[i].activations == st.tasks[i].activations
    {
      CancelAllClock(sys.specs, st.tasks, Decide(sys, st).cancelled, i);
    }
  }

  lemma ServeKeepsActivations(sys: System, st: State)
    requires ValidSystem(sys) && ValidState(sys, st)
    ensures forall i :: 0 <= i < |st.tasks| ==> Serve(sys, st).tasks[i].activations == st.tasks[i].activations
  {
    ScheduleKeepsActivations(sys, st);
    ExecuteKeepsActivations(sys, Schedule(sys, st).0);
    hide Schedule, Execute;
  }

  lemma TickConserves(sys: System, st: State)
    requires ValidSystem(sys) && ValidState(sys, st) && Conserved(sys, st)
    ensures Conserved(sys, Tick(st))
  {
  }

  lemma ExecuteKeepsActivations(sys: System, st: State)
    requires ValidState(sys, st)
    ensures forall i :: 0 <= i < |st.tasks| ==> Execute(sys, st).tasks[i].activations == st.tasks[i].activations
  {
  }

  // ----- Feasible schedules -----

  ghost predicate AllHaveWork(s: seq<JobV>) {
    forall i :: 0 <= i < |s| ==> s[i].rem >= 1
  }

  /** `initStep` cancels nothing in a feasible schedule. */
  lemma {:induction false} FeasibleSurvives(config: Config, now: int, time: int, s: seq<JobV>)
    requires Meets(time, s) && now <= time
    ensures forall i :: 0 <= i < |s| ==> Survives(config, now, s[i])
    decreases |s|
  {
    if s != [] {
      FeasibleSurvives(config, now, time + s[0].rem, s[1..]);
    }
  }

  /** One step leaves a feasible schedule, one unit shorter; a job that it finishes is finished by its deadline. */
  lemma FeasibleStep(now: int, s: seq<JobV>)
    requires s != [] && Meets(now, s) && AllHaveWork(s)
    ensures Meets(now + 1, Executed(s)) && AllHaveWork(Executed(s))
    ensures Total(Executed(s)) == Total(s) - 1
    ensures s[0].rem == 1 ==> now + 1 <= s[0].deadline
  {
  }

  /** The outcomes of task i after n successful completions. */
  ghost predicate Finished(before: TaskState, after: TaskState, n: nat) {
    && after.history == before.history + Repeat(1, n)
    && after.completions == before.completions + n
    && after.cancellations == before.cancellations
    && after.misses == before.misses
    && after.activations == before.activations
  }

  lemma FeasibleInit(sys: System, st: State)
    requires ValidState(sys, st) && Meets(st.now, st.sched)
    ensures InitStep(sys, st) == (st, true)
  {
    FeasibleSurvives(sys.config, st.now, st.now, st.sched);
    AllSurvive(sys.config, st.now, st.sched);
  }

  lemma ExecuteFinishes(sys: System, st: State, i: nat)
    requires ValidState(sys, st) && st.sched != [] && i < |st.tasks|
    requires Meets(st.now, st.sched) && AllHaveWork(st.sched)
    ensures var r := Execute(sys, st);
            && Pending(st.sched, i) >= Pending(r.sched, i)
            && Finished(st.tasks[i], r.tasks[i], Pending(st.sched, i) - Pending(r.sched, i))
  {
    var job := st.sched[0];
    var r := Execute(sys, st);
    assert job in st.sched;
    assert st.tasks[i].history + Repeat(1, 0) == st.tasks[i].history;
    assert Repeat(1, 1) == [1];
    if job.rem > 1 {
      assert r.sched[1..] == st.sched[1..];
    }
  }

  lemma FinishedTrans(a: TaskState, b: TaskState, c: TaskState, n: nat, n': nat)
    requires Finished(a, b, n) && Finished(b, c, n')
    ensures Finished(a, c, n + n')
  {
    assert Repeat(1, n) + Repeat(1, n') == Repeat(1, n + n');
  }

  /**
    When the check finds no miss, `finalise` completes every pending job with
    none cancelled and none late, in exactly the time the jobs still need.
   */
  lemma {:induction false} FeasibleFinalises(sys: System, st: State)
    requires ValidSystem(sys) && sys.planner.NoPlan?
    requires ValidState(sys, st) && Meets(st.now, st.sched) && AllHaveWork(st.sched)
    ensures var (r, ok) := Finalise(sys, st);
            && ok && r.sched == [] && r.now == st.now + Total(st.sched)
            && forall i :: 0 <= i < |st.tasks| ==> Finished(st.tasks[i], r.tasks[i], Pending(st.sched, i))
    decreases Load(st.sched)
  {
    if st.sched == [] {
      assert forall i :: 0 <= i < |st.tasks| ==> st.tasks[i].history + Repeat(1, 0) == st.tasks[i].history;
    } else {
      var next := FinaliseStep(sys, st);
      FirstStep(sys, st);
      hide FinaliseStep, Meets, Finalise, Executed, Finished, Pending;
      FeasibleFinalises(sys, next);
      forall i | 0 <= i < |st.tasks|
        ensures Finished(st.tasks[i], Finalise(sys, st).0.tasks[i], Pending(st.sched, i))
      {
        assert next.tasks[i] == Execute(sys, st).tasks[i];
        ExecuteFinishes(sys, st, i);
        FinishedTrans(st.tasks[i], next.tasks[i], Finalise(sys, next).0.tasks[i],
                      Pending(st.sched, i) - Pending(next.sched, i), Pending(next.sched, i));
      }
    }
  }

  lemma FirstStep(sys: System, st: State)
    requires ValidSystem(sys) && sys.planner.NoPlan?
    requires ValidState(sys, st) && Meets(st.now, st.sched) && AllHaveWork(st.sched) && st.sched != []
    ensures var next := FinaliseStep(sys, st);
            && Load(next.sched) < Load(st.sched) && Finalise(sys, st) == Finalise(sys, next)
            && next.sched == Execute(sys, st).sched && next.tasks == Execute(sys, st).tasks
            && next.now == st.now + 1 && Meets(next.now, next.sched) && AllHaveWork(next.sched)
            && Total(next.sched) == Total(st.sched) - 1
  {
    hide Meets, Execute, Executed, Schedule, ValidSystem, ValidState;
    FinaliseProgress(sys, st);
    FeasibleInit(sys, st);
    FeasibleStep(st.now, st.sched);
    ExecuteSchedule(sys, st);
    ExecuteNow(sys, st);
    NoPlanStep(sys, st);
  }

  lemma ExecuteNow(sys: System, st: State)
    requires ValidState(sys, st)
    ensures Execute(sys, st).now == st.now
  {
  }
}
