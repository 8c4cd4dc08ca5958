/**
  Where the sufficient test of src/mkeval/mkgenerator.cpp stops being sound: it
  looks at periods only, and it takes the order of the list for the order of
  priorities. What exactly is needed is in FppExactness.dfy.
 */
module TestLimits {
  import opened Arithmetic
  import opened MkPattern
  import opened Machine
  import opened MachineInvariants
  import opened MkpSoundness
  import opened FppResponse
  import opened FppExactness
  import opened Simulations

  const FIRST := TaskSpec(2, 0, 1, 2, 0, Mkp(1, 1, 0, false), [1])
  /** Its deadline is shorter than its period. */
  const SECOND := TaskSpec(4, 0, 1, 1, 1, Mkp(1, 1, 0, false), [1])

  function ShortDeadline(): System {
    System([FIRST, SECOND], Config(true, true), FPP, true, NoPlan)
  }

  const FIRST_JOB := JobV(0, 0, 0, 1, 2, 0, 1)
  const SECOND_JOB := JobV(1, 0, 0, 1, 1, 1, 1)

  lemma FirstJobsAreMandatory()
    ensures IsJobMandatory(0, 0, 1, 1)
  {
    assert CeilDiv(0, 1) == 0;
  }

  lemma SpawnedJobs()
    ensures forall ts: TaskState :: ts.activations == 0 ==>
                                      Spawn(FIRST, 0, ts, 0) == FIRST_JOB && Spawn(SECOND, 1, ts, 0) == SECOND_JOB
  {
    hide IsJobMandatory;
    FirstJobsAreMandatory();
  }

  lemma Start()
    ensures ValidSystem(ShortDeadline())
    ensures InitStep(ShortDeadline(), Initial(ShortDeadline())) == (Initial(ShortDeadline()), true)
  {
  }

  lemma StartState(st: State)
    requires st == Initial(ShortDeadline())
    ensures ValidSystem(ShortDeadline())
    ensures st.now == 0 && st.sched == [] && |st.tasks| == 2
    ensures Due(st, 0) && Due(st, 1) && st.tasks[0].activations == 0 && st.tasks[1].activations == 0
  {
  }

  lemma Queue()
    ensures Enqueue(FPP, Enqueue(FPP, [], FIRST_JOB), SECOND_JOB) == [FIRST_JOB, SECOND_JOB]
  {
    assert Enqueue(FPP, [], FIRST_JOB) == [FIRST_JOB];
  }

  /** Both tasks activate a job at time 0. */
  lemma BothActivate() returns (tasks: seq<TaskState>)
    ensures |tasks| == 2 && ValidSystem(ShortDeadline())
    ensures Activations(ShortDeadline(), Initial(ShortDeadline()), 0) == State(0, [FIRST_JOB, SECOND_JOB], tasks)
  {
    hide Spawn, Activations, Initial, ValidSystem, Enqueue, Due;
    var sys := ShortDeadline();
    var st := Initial(sys);
    StartState(st);
    SpawnedJobs();
    Queue();
    TwoActivations(sys, st);
    tasks := Activations(sys, st, 0).tasks;
  }

  lemma TwoActivations(sys: System, st: State)
    requires ValidSystem(sys) && ValidState(sys, st) && |sys.specs| == 2 && Due(st, 0) && Due(st, 1)
    ensures ValidSpec(sys.specs[0]) && ValidSpec(sys.specs[1])
    ensures var (r, first) := (Activations(sys, st, 0), Spawn(sys.specs[0], 0, st.tasks[0], st.now));
            var second := Spawn(sys.specs[1], 1, st.tasks[1], st.now);
            && r.now == st.now && |r.tasks| == 2
            && r.sched == Enqueue(sys.policy, Enqueue(sys.policy, st.sched, first), second)
  {
    hide Spawn, Enqueue, Activations, ValidSpec;
    var s1 := ActivateOne(sys, st, 0);
    ActivationsFirst(sys, st, 0);
    ActivationsFirst(sys, s1, 1);
    ActivationsDone(sys, ActivateOne(sys, s1, 1));
  }

  /** In the first time unit the first task's job executes; the second task's job waits. */
  lemma FirstUnit() returns (tasks: seq<TaskState>)
    ensures |tasks| == 2 && ValidSystem(ShortDeadline())
    ensures Step(ShortDeadline(), Initial(ShortDeadline())) == State(1, [SECOND_JOB], tasks)
  {
    var before := BothActivate();
    Start();
    NoPlanStep(ShortDeadline(), Initial(ShortDeadline()));
    hide Activations, InitStep, Initial, ValidSystem, ShortDeadline;
    tasks := before[0 := Completed(before[0], FIRST_JOB, 0)];
    assert [FIRST_JOB, SECOND_JOB][1..] == [SECOND_JOB];
  }

  /** Then the second task's job is cancelled, which its task refuses because the job is mandatory. */
  lemma SecondStep(tasks: seq<TaskState>)
    requires |tasks| == 2
    ensures !InitStep(ShortDeadline(), State(1, [SECOND_JOB], tasks)).1
  {
    var sys := ShortDeadline();
    assert !Survives(sys.config, 1, SECOND_JOB);
    assert Doomed(sys.config, 1, [SECOND_JOB]) == [SECOND_JOB];
    assert !CancelHook(SECOND, CancelledJob(tasks[1], SECOND_JOB), SECOND_JOB);
    assert !CancelAll(sys.specs, tasks, [SECOND_JOB]).1;
  }

  lemma ShortDeadlinePasses()
    ensures PassesTest(ShortDeadline().specs)
  {
    var specs := ShortDeadline().specs;
    assert CeilDiv(4, 2) == 2 && CeilDiv(2, 1) == 2;
    assert DemandBefore(specs, 0, 0) == 0;
    assert DemandBefore(specs, 1, 1) == DemandBefore(specs, 1, 0) + 1 * 2;
  }

  /** With a deadline shorter than the period the test passes and yet a mandatory job is cancelled. */
  lemma TestIgnoresDeadlines()
    ensures var sys := ShortDeadline();
            && ValidSpecs(sys.specs) && FixedPatterns(sys.specs) && ByPriority(sys.specs)
            && sys.policy == FPP && sys.config == Config(true, true)
            && PassesTest(sys.specs)
            && !RunFor(sys, Initial(sys), 2).1
  {
    hide Step, InitStep, Initial, PassesTest, RunFor;
    var sys := ShortDeadline();
    ShortDeadlinePasses();
    Start();
    var tasks := FirstUnit();
    SecondStep(tasks);
    StopsInSecondStep(sys, Initial(sys), State(1, [SECOND_JOB], tasks));
  }

  lemma StopsInSecondStep(sys: System, st: State, next: State)
    requires ValidSystem(sys) && ValidState(sys, st) && sys.exitOnCancel
    requires next == Step(sys, st) && !InitStep(sys, next).1
    ensures !RunFor(sys, st, 2).1
  {
    hide InitStep, Step, RunFor, ValidSystem, ValidState, Schedule, Stopped;
    RunForFirst(sys, st, 2);
    RunForFirst(sys, next, 1);
  }

  // ----- The test with deadlines -----

  /** What the first n tasks can demand, at most, within the deadline of task i. */
  ghost function DemandByDeadline(specs: seq<TaskSpec>, i: nat, n: nat): nat
    requires n <= i < |specs| && MkpSoundness.Testable(specs)
  {
    if n == 0 then 0
    else DemandByDeadline(specs, i, n - 1)
         + specs[n - 1].et * CeilDiv(specs[n - 1].model.m * CeilDiv(specs[i].relDeadline, specs[n - 1].period), specs[n - 1].model.k)
  }

  /** The test with the deadline of each task in the place of its period. */
  ghost predicate PassesDeadlineTest(specs: seq<TaskSpec>)
    requires MkpSoundness.Testable(specs)
  {
    forall i :: 0 <= i < |specs| ==> DemandByDeadline(specs, i, i) + specs[i].et <= specs[i].relDeadline
  }

  /** For deadlines equal to the periods this is the program's test. */
  lemma {:induction false} SameDemand(specs: seq<TaskSpec>, i: nat, n: nat)
    requires n <= i < |specs| && MkpSoundness.Testable(specs) && specs[i].relDeadline == specs[i].period
    ensures DemandByDeadline(specs, i, n) == DemandBefore(specs, i, n)
  {
    if n > 0 {
      SameDemand(specs, i, n - 1);
    }
  }

  lemma {:induction false} DeadlineSumIsDemand(specs: seq<TaskSpec>, i: nat, n: nat)
    requires ValidSpecs(specs) && FixedPatterns(specs) && ByPriority(specs) && i < |specs| && n <= |specs|
    ensures Demand(specs, specs[i].priority, specs[i].relDeadline, n)
            == DemandByDeadline(specs, i, if n < i then n else i)
  {
    if n > 0 {
      DeadlineSumIsDemand(specs, i, n - 1);
      var (spec, c) := (specs[n - 1], CeilDiv(specs[i].relDeadline, specs[n - 1].period));
      assert spec.model.m * c == c * spec.model.m;
    }
  }

  /** In a list in priority order the test with deadlines is sound for all deadlines up to the periods. */
  lemma DeadlineTestIsSound(sys: System)
    requires FppSystem(sys) && FixedPatterns(sys.specs) && ByPriority(sys.specs) && PassesDeadlineTest(sys.specs)
    ensures AlwaysSafe(sys)
    ensures ImplicitDeadlines(sys.specs) ==> PassesTest(sys.specs)
  {
    forall i | 0 <= i < |sys.specs|
      ensures Guaranteed(sys, i)
      ensures ImplicitDeadlines(sys.specs) ==> DemandBefore(sys.specs, i, i) + sys.specs[i].et <= sys.specs[i].period
    {
      DeadlineSumIsDemand(sys.specs, i, |sys.specs|);
      assert Bounded(sys, i, sys.specs[i].relDeadline);
      if ImplicitDeadlines(sys.specs) {
        SameDemand(sys.specs, i, i);
      }
    }
    hide FppSystem, Guaranteed;
    SafeExactly(sys);
  }

  // ----- Lists that are not in priority order -----

  /** A task without a response bound within its deadline loses a job in the synchronous run, which is refused. */
  lemma UnguaranteedIsRefused(sys: System, i: nat) returns (t: nat)
    requires FppSystem(sys) && StrictPatterns(sys.specs) && Synchronous(sys.specs) && sys.exitOnCancel
    requires i < |sys.specs| && !Guaranteed(sys, i)
    ensures ValidSystem(sys) && !RunFor(sys, Initial(sys), t + 1).1
  {
    hide Guaranteed, SafeAt, RunFor;
    if MandatorySafe(sys) {
      SafeMeansGuaranteed(sys, i);
    }
    t :| !SafeAt(sys, t);
    UnsafeIsRefused(sys, t);
  }

  const LESS_URGENT := TaskSpec(2, 0, 1, 2, 1, Mkp(1, 1, 0, false), [1])
  const MORE_URGENT := TaskSpec(4, 0, 2, 4, 0, Mkp(1, 1, 0, false), [1])

  /** The more urgent task comes last in the list. */
  function Unordered(): System {
    System([LESS_URGENT, MORE_URGENT], Config(true, true), FPP, true, NoPlan)
  }

  lemma UnorderedPasses()
    ensures PassesTest(Unordered().specs) && ImplicitDeadlines(Unordered().specs)
  {
    var specs := Unordered().specs;
    assert CeilDiv(4, 2) == 2 && CeilDiv(2, 1) == 2;
    assert DemandBefore(specs, 0, 0) == 0;
    assert DemandBefore(specs, 1, 1) == DemandBefore(specs, 1, 0) + 1 * 2;
  }

  lemma UnorderedDemand(window: nat)
    requires window <= 2
    ensures ValidSpecs(Unordered().specs)
    ensures Demand(Unordered().specs, 1, window, 2) == if window == 0 then 0 else 2
  {
    MoreUrgentDemand(window);
    hide TaskDemand;
    var specs := Unordered().specs;
    assert Demand(specs, 1, window, 0) == 0;
    assert Demand(specs, 1, window, 1) == TaskDemand(LESS_URGENT, 1, window);
    assert Demand(specs, 1, window, 2) == TaskDemand(LESS_URGENT, 1, window) + TaskDemand(MORE_URGENT, 1, window);
  }

  lemma MoreUrgentDemand(window: nat)
    requires window <= 2
    ensures ValidSpec(LESS_URGENT) && ValidSpec(MORE_URGENT)
    ensures TaskDemand(LESS_URGENT, 1, window) == 0
    ensures TaskDemand(MORE_URGENT, 1, window) == if window == 0 then 0 else 2
  {
    var c := if window == 0 then 0 else 1;
    CeilDivUnique(window, 4, c);
    CeilDivUnique(c * 1, 1, c);
    hide CeilDiv;
  }

  /** With deadlines equal to the periods the test passes an unordered list, and yet a run is refused. */
  lemma TestIgnoresPriorities() returns (t: nat)
    ensures var sys := Unordered();
            && ValidSystem(sys) && StrictPatterns(sys.specs) && ImplicitDeadlines(sys.specs) && PassesTest(sys.specs)
            && FppSystem(sys)
            && !RunFor(sys, Initial(sys), t + 1).1
  {
    UnorderedPasses();
    forall bound: nat | bound <= 2
      ensures !Bounded(Unordered(), 0, bound)
    {
      UnorderedDemand(bound);
    }
    hide PassesTest, RunFor, Bounded;
    t := UnguaranteedIsRefused(Unordered(), 0);
  }
}
