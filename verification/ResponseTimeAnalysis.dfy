/**
  The response-time analysis (src/tseval/tstaskset.cpp, after Audsley) and what
  it guarantees about every simulated run.
 */
module ResponseTimeAnalysis {
  import opened Arithmetic
  import opened MkWindow
  import opened Machine
  import opened MachineInvariants
  import opened FppResponse
  import opened MkpSoundness
  import opened FppExactness

  class TempTask {
    const period: nat
    const executionTime: nat
    var priority: nat
    var responseTime: nat

    constructor (period: nat, executionTime: nat)
      ensures this.period == period && this.executionTime == executionTime
    {
      this.period, this.executionTime, responseTime, priority := period, executionTime, 0, 0;
    }
  }

  // ----- Priorities -----

  ghost predicate ByPeriod(tasks: seq<TempTask>) {
    forall i, j :: 0 <= i < j < |tasks| ==> tasks[i].period <= tasks[j].period
  }

  lemma InsertedByPeriod(tasks: seq<TempTask>, it: nat, task: TempTask)
    requires ByPeriod(tasks) && it <= |tasks|
    requires forall i :: 0 <= i < it ==> tasks[i].period <= task.period
    requires it < |tasks| ==> tasks[it].period > task.period
    ensures ByPeriod(tasks[..it] + [task] + tasks[it..])
  {
    var r := tasks[..it] + [task] + tasks[it..];
    forall i, j | 0 <= i < j < |r|
      ensures r[i].period <= r[j].period
    {
      assert r[i] == if i < it then tasks[i] else if i == it then task else tasks[i - 1];
      assert r[j] == if j < it then tasks[j] else if j == it then task else tasks[j - 1];
    }
  }

  lemma InsertedTasks(tasks: seq<TempTask>, it: nat, task: TempTask)
    requires it <= |tasks|
    ensures multiset(tasks[..it] + [task] + tasks[it..]) == multiset(tasks) + multiset{task}
  {
    assert tasks == tasks[..it] + tasks[it..];
  }

  /** The tasks of one period, in the order of the list. */
  function OfPeriod(tasks: seq<TempTask>, period: nat): seq<TempTask> {
    if tasks == [] then []
    else (if tasks[0].period == period then [tasks[0]] else []) + OfPeriod(tasks[1..], period)
  }

  lemma {:induction false} OfPeriodAppend(s: seq<TempTask>, t: seq<TempTask>, period: nat)
    ensures OfPeriod(s + t, period) == OfPeriod(s, period) + OfPeriod(t, period)
  {
    if s == [] {
      assert s + t == t;
    } else {
      var own := if s[0].period == period then [s[0]] else [];
      assert (s + t)[0] == s[0] && (s + t)[1..] == s[1..] + t;
      assert OfPeriod(s + t, period) == own + OfPeriod(s[1..] + t, period);
      assert OfPeriod(s, period) == own + OfPeriod(s[1..], period);
      hide OfPeriod;
      OfPeriodAppend(s[1..], t, period);
    }
  }

  lemma {:induction false} NoneOfPeriod(tasks: seq<TempTask>, period: nat)
    requires forall i :: 0 <= i < |tasks| ==> tasks[i].period != period
    ensures OfPeriod(tasks, period) == []
  {
    if tasks != [] {
      NoneOfPeriod(tasks[1..], period);
    }
  }

  /** Inserted behind the tasks of its period, a task is the last of them. */
  lemma InsertedLast(tasks: seq<TempTask>, it: nat, task: TempTask, period: nat)
    requires ByPeriod(tasks) && it <= |tasks| && (it < |tasks| ==> tasks[it].period > task.period)
    ensures OfPeriod(tasks[..it] + [task] + tasks[it..], period) == OfPeriod(tasks + [task], period)
  {
    var (front, back) := (tasks[..it], tasks[it..]);
    assert tasks == front + back;
    OfPeriodAppend(front + [task], back, period);
    OfPeriodAppend(front, [task], period);
    OfPeriodAppend(tasks, [task], period);
    OfPeriodAppend(front, back, period);
    if period == task.period {
      NoneOfPeriod(back, period);
    }
  }

  /** The list in which shorter periods come first, built task by task: producers, then consumers. */
  method OrderByPeriod(unordered: seq<TempTask>) returns (tasks: seq<TempTask>)
    ensures ByPeriod(tasks) && multiset(tasks) == multiset(unordered)
    ensures forall period :: OfPeriod(tasks, period) == OfPeriod(unordered, period)
  {
    tasks := [];
    hide OfPeriod;
    for n := 0 to |unordered|
      invariant ByPeriod(tasks) && multiset(tasks) == multiset(unordered[..n])
      invariant forall period :: OfPeriod(tasks, period) == OfPeriod(unordered[..n], period)
    {
      var currentTask := unordered[n];
      var it := 0;
      while it < |tasks| && tasks[it].period <= currentTask.period
        invariant 0 <= it <= |tasks|
        invariant forall i :: 0 <= i < it ==> tasks[i].period <= currentTask.period
      {
        it := it + 1;
      }
      InsertedByPeriod(tasks, it, currentTask);
      InsertedTasks(tasks, it, currentTask);
      forall period
        ensures OfPeriod(tasks[..it] + [currentTask] + tasks[it..], period) == OfPeriod(unordered[..n] + [currentTask], period)
      {
        InsertedLast(tasks, it, currentTask, period);
        OfPeriodAppend(tasks, [currentTask], period);
        OfPeriodAppend(unordered[..n], [currentTask], period);
      }
      tasks := tasks[..it] + [currentTask] + tasks[it..];
      assert unordered[..n + 1] == unordered[..n] + [currentTask];
    }
    assert unordered[..|unordered|] == unordered;
  }

  /** Priorities are handed out in list order, the most urgent first. */
  method AssignPriorities(tasks: seq<TempTask>)
    requires forall i, j :: 0 <= i < j < |tasks| ==> tasks[i] != tasks[j]
    modifies tasks
    ensures forall i :: 0 <= i < |tasks| ==> tasks[i].priority == i && tasks[i].responseTime == old(tasks[i].responseTime)
  {
    for prio := 0 to |tasks|
      invariant forall i :: 0 <= i < prio ==> tasks[i].priority == i
      invariant forall i :: 0 <= i < |tasks| ==> tasks[i].responseTime == old(tasks[i].responseTime)
    {
      tasks[prio].priority := prio;
    }
  }

  // ----- The analysis -----

  ghost predicate Plausible(tasks: seq<TempTask>) {
    forall i :: 0 <= i < |tasks| ==> tasks[i].period >= 1 && tasks[i].executionTime >= 1
  }

  /** The interference of the first n tasks within a window. */
  function Interference(tasks: seq<TempTask>, n: nat, window: nat): nat
    requires Plausible(tasks) && n <= |tasks|
  {
    if n == 0 then 0
    else Interference(tasks, n - 1, window) + CeilDiv(window, tasks[n - 1].period) * tasks[n - 1].executionTime
  }

  /** r is a positive solution of r = C_i + sum over j < i of ceil(r/T_j)*C_j. */
  ghost predicate Solves(tasks: seq<TempTask>, i: nat, r: nat)
    requires Plausible(tasks) && i < |tasks|
  {
    r > 0 && r == Interference(tasks, i, r) + tasks[i].executionTime
  }

  ghost predicate LeastSolution(tasks: seq<TempTask>, i: nat, r: nat)
    requires Plausible(tasks) && i < |tasks|
  {
    Solves(tasks, i, r) && forall r': nat :: Solves(tasks, i, r') ==> r <= r'
  }

  /** Task i has a response time within its period. */
  ghost predicate Schedulable(tasks: seq<TempTask>, i: nat)
    requires Plausible(tasks) && i < |tasks|
  {
    exists r: nat :: r <= tasks[i].period && Solves(tasks, i, r)
  }

  function TotalExecution(tasks: seq<TempTask>, n: nat): nat
    requires n <= |tasks|
  {
    if n == 0 then 0 else TotalExecution(tasks, n - 1) + tasks[n - 1].executionTime
  }

  lemma {:induction false} InterferenceMonotone(tasks: seq<TempTask>, n: nat, r: nat, r': nat)
    requires Plausible(tasks) && n <= |tasks| && r <= r'
    ensures Interference(tasks, n, r) <= Interference(tasks, n, r')
  {
    if n > 0 {
      InterferenceMonotone(tasks, n - 1, r, r');
      CeilDivMonotone(r, r', tasks[n - 1].period);
      MulMonotone(tasks[n - 1].executionTime, CeilDiv(r, tasks[n - 1].period), CeilDiv(r', tasks[n - 1].period));
    }
  }

  /** Every positive window meets each of the first n tasks at least once. */
  lemma {:induction false} InterferenceAtLeastOnce(tasks: seq<TempTask>, n: nat, r: nat)
    requires Plausible(tasks) && n <= |tasks| && r > 0
    ensures TotalExecution(tasks, n) <= Interference(tasks, n, r)
  {
    if n > 0 {
      InterferenceAtLeastOnce(tasks, n - 1, r);
      CeilDivPositive(r, tasks[n - 1].period);
      MulMonotone(tasks[n - 1].executionTime, 1, CeilDiv(r, tasks[n - 1].period));
    }
  }

  /** The iteration for one task: the least solution if it is within the period, else a value beyond it. */
  method Iterate(tasks: seq<TempTask>, i: nat) returns (responseTime: nat)
    requires Plausible(tasks) && i < |tasks|
    ensures responseTime <= tasks[i].period ==> LeastSolution(tasks, i, responseTime)
    ensures responseTime > tasks[i].period ==> forall r: nat :: Solves(tasks, i, r) ==> r > tasks[i].period
  {
    responseTime := 0;
    for j := 0 to i + 1
      invariant responseTime == TotalExecution(tasks, j)
    {
      responseTime := responseTime + tasks[j].executionTime;
    }
    forall r: nat | Solves(tasks, i, r)
      ensures responseTime <= r
    {
      InterferenceAtLeastOnce(tasks, i, r);
    }
    InterferenceAtLeastOnce(tasks, i, responseTime);
    var lastResponseTime := 0;
    while responseTime != lastResponseTime && responseTime <= tasks[i].period
      invariant 0 < responseTime && lastResponseTime <= responseTime
      invariant responseTime <= Interference(tasks, i, responseTime) + tasks[i].executionTime
      invariant responseTime == lastResponseTime ==> Solves(tasks, i, responseTime)
      invariant forall r: nat :: Solves(tasks, i, r) ==> responseTime <= r
      decreases tasks[i].period - responseTime, responseTime - lastResponseTime
    {
      var interference := 0;
      for j := 0 to i
        invariant interference == Interference(tasks, j, responseTime)
      {
        interference := interference + CeilDiv(responseTime, tasks[j].period) * tasks[j].executionTime;
      }
      lastResponseTime := responseTime;
      responseTime := interference + tasks[i].executionTime;
      InterferenceMonotone(tasks, i, lastResponseTime, responseTime);
      forall r: nat | Solves(tasks, i, r)
        ensures responseTime <= r
      {
        InterferenceMonotone(tasks, i, lastResponseTime, r);
      }
    }
  }

  /** Accepts exactly the task sets in which every task has a response time within its period, and stores it. */
  method Analyse(tasks: seq<TempTask>) returns (ok: bool)
    requires Plausible(tasks)
    requires forall i, j :: 0 <= i < j < |tasks| ==> tasks[i] != tasks[j]
    modifies tasks
    ensures ok <==> forall i :: 0 <= i < |tasks| ==> Schedulable(tasks, i)
    ensures ok ==> forall i :: 0 <= i < |tasks| ==>
                                 tasks[i].responseTime <= tasks[i].period && LeastSolution(tasks, i, tasks[i].responseTime)
  {
    hide Interference;
    for i := 0 to |tasks|
      invariant forall x :: 0 <= x < i ==>
                              tasks[x].responseTime <= tasks[x].period && LeastSolution(tasks, x, tasks[x].responseTime)
    {
      var responseTime := Iterate(tasks, i);
      if responseTime > tasks[i].period {
        assert !Schedulable(tasks, i);
        return false;
      } else {
        tasks[i].responseTime := responseTime;
      }
    }
    forall i | 0 <= i < |tasks|
      ensures Schedulable(tasks, i)
    {
      assert LeastSolution(tasks, i, tasks[i].responseTime);
    }
    return true;
  }

  // ----- Soundness -----

  /** The simulated tasks: plain periodic tasks, the priority being the position in the list. */
  function Specs(tasks: seq<TempTask>, offsets: seq<nat>): (specs: seq<TaskSpec>)
    requires |offsets| == |tasks|
    ensures |specs| == |tasks|
  {
    seq(|tasks|, i requires 0 <= i < |tasks| =>
      TaskSpec(tasks[i].period, offsets[i], tasks[i].executionTime, tasks[i].period, i, Periodic, []))
  }

  function Simulated(tasks: seq<TempTask>, offsets: seq<nat>, config: Config): System
    requires |offsets| == |tasks|
  {
    System(Specs(tasks, offsets), config, FPP, true, NoPlan)
  }

  lemma {:induction false} InterferenceIsDemand(tasks: seq<TempTask>, offsets: seq<nat>, i: nat, r: nat, n: nat)
    requires Plausible(tasks) && |offsets| == |tasks| && i < |tasks| && n <= |tasks| && ValidSpecs(Specs(tasks, offsets))
    ensures Demand(Specs(tasks, offsets), i, r, n) == Interference(tasks, if n < i then n else i, r)
  {
    if n > 0 {
      InterferenceIsDemand(tasks, offsets, i, r, n - 1);
      var c := CeilDiv(r, tasks[n - 1].period);
      assert tasks[n - 1].executionTime * c == c * tasks[n - 1].executionTime;
    }
  }

  /** What a successful analysis establishes. */
  ghost predicate Accepted(tasks: seq<TempTask>, responses: seq<nat>) {
    && Plausible(tasks)
    && |tasks| == |responses| < MIN_PRIORITY
    && forall i :: 0 <= i < |tasks| ==> responses[i] <= tasks[i].period && Solves(tasks, i, responses[i])
  }

  lemma AcceptedGuarantees(tasks: seq<TempTask>, offsets: seq<nat>, responses: seq<nat>)
    requires Accepted(tasks, responses) && |offsets| == |tasks|
    ensures ghost var sys := Simulated(tasks, offsets, Config(true, true));
            && FppSystem(sys)
            && forall i :: 0 <= i < |tasks| ==> Guaranteed(sys, i) && Bounded(sys, i, responses[i])
  {
    var sys := Simulated(tasks, offsets, Config(true, true));
    forall i | 0 <= i < |tasks|
      ensures ValidSpec(sys.specs[i])
    {
      assert Solves(tasks, i, responses[i]);
    }
    forall i | 0 <= i < |tasks|
      ensures Guaranteed(sys, i) && Bounded(sys, i, responses[i])
    {
      InterferenceIsDemand(tasks, offsets, i, responses[i], |tasks|);
      assert Bounded(sys, i, responses[i]);
    }
  }

  /** At time t every job can still finish within the response time of its task, and so by its deadline. */
  ghost predicate WithinResponses(s: seq<JobV>, responses: seq<nat>, t: int) {
    forall j :: j in s ==>
                  && j.task < |responses|
                  && t + j.rem <= j.activation + responses[j.task]
                  && j.activation + responses[j.task] <= j.deadline
  }

  /** The bounds hold in the runs with both cancellation flags on. */
  lemma StrictResponseTimes(tasks: seq<TempTask>, offsets: seq<nat>, responses: seq<nat>, t: nat)
    requires Accepted(tasks, responses) && |offsets| == |tasks|
    ensures ghost var sys := Simulated(tasks, offsets, Config(true, true));
            && FppSystem(sys)
            && At(sys, t).now == t
            && WithinResponses(At(sys, t).sched, responses, t)
            && WithinResponses(Ready(sys, At(sys, t)).sched, responses, t)
            && forall i :: 0 <= i < |tasks| ==> At(sys, t).tasks[i].cancellations == 0
  {
    hide At, Ready, FppSystem, Bounded, Guaranteed, Solves, Plausible;
    var sys := Simulated(tasks, offsets, Config(true, true));
    AcceptedGuarantees(tasks, offsets, responses);
    AtNow(sys, t);
    PendingWithin(sys, responses, t);
    ReadyWithin(sys, responses, t);
    NothingCancelled(sys, t);
  }

  lemma PendingWithin(sys: System, responses: seq<nat>, t: nat)
    requires FppSystem(sys) && |responses| == |sys.specs| && FullPriorities(sys.specs)
    requires forall i :: 0 <= i < |responses| ==> Bounded(sys, i, responses[i]) && responses[i] <= sys.specs[i].relDeadline
    ensures WithinResponses(At(sys, t).sched, responses, t)
  {
    hide At, Bounded;
    forall j | j in At(sys, t).sched
      ensures j.task < |responses| && t + j.rem <= j.activation + responses[j.task] <= j.deadline
    {
      PendingJobOk(sys, t, j);
      ResponseBound(sys, j.task, responses[j.task], t, j);
    }
  }

  /** A job that has just been activated has its execution time left. */
  lemma ReadyWithin(sys: System, responses: seq<nat>, t: nat)
    requires FppSystem(sys) && |responses| == |sys.specs|
    requires forall i :: 0 <= i < |responses| ==> Bounded(sys, i, responses[i]) && responses[i] <= sys.specs[i].relDeadline
    requires WithinResponses(At(sys, t).sched, responses, t)
    ensures WithinResponses(Ready(sys, At(sys, t)).sched, responses, t)
  {
    var st := At(sys, t);
    ReadyConserved(sys, t);
    ReadyElements(sys, st);
    AtNow(sys, t);
    hide At, Ready, Demand;
    forall j | j in Ready(sys, st).sched
      ensures j.task < |responses| && t + j.rem <= j.activation + responses[j.task] <= j.deadline
    {
      assert JobOk(sys, j);
      assert Bounded(sys, j.task, responses[j.task]);
    }
  }

  lemma NothingCancelled(sys: System, t: nat)
    requires FppSystem(sys) && FullPriorities(sys.specs)
    requires forall i :: 0 <= i < |sys.specs| ==> Guaranteed(sys, i)
    ensures forall i :: 0 <= i < |sys.specs| ==> At(sys, t).tasks[i].cancellations == 0
  {
    MandatoryAlwaysSucceed(sys, t);
    AlwaysConserved(sys, t);
    var st := At(sys, t);
    hide At, Guaranteed;
    forall i | 0 <= i < |sys.specs|
      ensures st.tasks[i].cancellations == 0
    {
      AllSucceeded(sys.specs[i], st.tasks[i], Pending(st.sched, i));
    }
  }

  /** No task has optional jobs. */
  ghost predicate FullPriorities(specs: seq<TaskSpec>) {
    forall i :: 0 <= i < |specs| ==> specs[i].model.Periodic?
  }

  // ----- Other cancellation flags -----

  /** Where no job is doomed the cancellation flags make no difference. */
  lemma SameReady(sys: System, config: Config, st: State)
    requires ValidSystem(sys) && ValidState(sys, st)
    requires forall j :: j in st.sched ==> j.LatestStart() >= st.now
    ensures InitStep(sys.(config := config), st) == (st, true)
    ensures Ready(sys.(config := config), st) == Ready(sys, st)
    ensures Step(sys.(config := config), st) == Step(sys, st)
  {
    assert forall i :: 0 <= i < |st.sched| ==> st.sched[i] in st.sched;
    AllSurvive(config, st.now, st.sched);
    AllSurvive(sys.config, st.now, st.sched);
    SameActivations(sys, config, st, 0);
    SameServe(sys, config, Ready(sys, st));
    hide Activations, Survivors, Doomed, Serve;
  }

  lemma SameServe(sys: System, config: Config, st: State)
    requires ValidSystem(sys) && ValidState(sys, st)
    ensures Serve(sys.(config := config), st) == Serve(sys, st)
  {
    assert Decide(sys.(config := config), st) == Decide(sys, st);
    hide Decide;
  }

  lemma {:induction false} SameActivations(sys: System, config: Config, st: State, i: nat)
    requires ValidSystem(sys) && ValidState(sys, st) && i <= |sys.specs|
    ensures Activations(sys.(config := config), st, i) == Activations(sys, st, i)
    decreases |sys.specs| - i
  {
    if i < |sys.specs| {
      SameActivations(sys, config, ActivateOne(sys, st, i), i + 1);
    }
  }

  /** Every pending job can meet its deadline. */
  ghost predicate NoneDoomed(st: State) {
    forall j :: j in st.sched ==> j.LatestStart() >= st.now
  }

  ghost predicate NeverDoomed(sys: System)
    requires ValidSystem(sys)
  {
    forall t: nat :: NoneDoomed(At(sys, t))
  }

  /** A run in which no job is ever doomed is the same for all cancellation flags. */
  lemma {:induction false} SameRun(sys: System, config: Config, t: nat)
    requires ValidSystem(sys) && ValidSystem(sys.(config := config))
    requires forall u: nat :: u <= t ==> NoneDoomed(At(sys, u))
    ensures ghost var other := sys.(config := config);
            && At(other, t) == At(sys, t)
            && InitStep(other, At(other, t)).1
            && Ready(other, At(other, t)) == Ready(sys, At(sys, t))
    decreases t
  {
    hide ValidSystem, Ready, InitStep, Step;
    var other := sys.(config := config);
    if t == 0 {
      assert At(other, 0) == Initial(other) && At(sys, 0) == Initial(sys);
    } else {
      SameRun(sys, config, t - 1);
      assert NoneDoomed(At(sys, t - 1));
      SameReady(sys, config, At(sys, t - 1));
      assert At(sys, t) == Step(sys, At(sys, t - 1)) && At(other, t) == Step(other, At(other, t - 1));
    }
    assert NoneDoomed(At(sys, t));
    hide At;
    SameReady(sys, config, At(sys, t));
  }

  /**
    The soundness of the analysis: whatever the offsets and the cancellation
    flags, in every run every job finishes within the response time of its task,
    and so by its deadline, and nothing is ever cancelled or refused.
   */
  lemma ResponseTimesHold(tasks: seq<TempTask>, offsets: seq<nat>, config: Config, responses: seq<nat>, t: nat)
    requires Accepted(tasks, responses) && |offsets| == |tasks|
    ensures ghost var sys := Simulated(tasks, offsets, config);
            && ValidSystem(sys)
            && WithinResponses(Ready(sys, At(sys, t)).sched, responses, t)
            && InitStep(sys, At(sys, t)).1
            && forall i :: 0 <= i < |tasks| ==> At(sys, t).tasks[i].cancellations == 0
  {
    var strict := Simulated(tasks, offsets, Config(true, true));
    AcceptedGuarantees(tasks, offsets, responses);
    hide At, Ready, InitStep, FppSystem;
    forall u: nat | u <= t
      ensures NoneDoomed(At(strict, u))
    {
      StrictResponseTimes(tasks, offsets, responses, u);
    }
    StrictResponseTimes(tasks, offsets, responses, t);
    SameRun(strict, config, t);
  }

  // ----- Exactness -----

  /** A window that is long enough contains a solution. */
  lemma {:induction false} DescendToSolution(tasks: seq<TempTask>, i: nat, r: nat)
    requires Plausible(tasks) && i < |tasks| && Interference(tasks, i, r) + tasks[i].executionTime <= r
    ensures exists r': nat :: r' <= r && Solves(tasks, i, r')
    decreases r
  {
    var next := Interference(tasks, i, r) + tasks[i].executionTime;
    if next < r {
      InterferenceMonotone(tasks, i, next, r);
      DescendToSolution(tasks, i, next);
    } else {
      assert Solves(tasks, i, r);
    }
  }

  /** The analysis asks for a task's response time exactly where the demand condition does. */
  lemma SchedulableIsGuaranteed(tasks: seq<TempTask>, offsets: seq<nat>, i: nat)
    requires Plausible(tasks) && |offsets| == |tasks| && i < |tasks|
    requires ValidSystem(Simulated(tasks, offsets, Config(true, true)))
    ensures Schedulable(tasks, i) <==> Guaranteed(Simulated(tasks, offsets, Config(true, true)), i)
  {
    var sys := Simulated(tasks, offsets, Config(true, true));
    if Schedulable(tasks, i) {
      var r: nat :| r <= tasks[i].period && Solves(tasks, i, r);
      InterferenceIsDemand(tasks, offsets, i, r, |tasks|);
      assert Bounded(sys, i, r);
    }
    if Guaranteed(sys, i) {
      var r: nat :| r <= tasks[i].period && Bounded(sys, i, r);
      InterferenceIsDemand(tasks, offsets, i, r, |tasks|);
      DescendToSolution(tasks, i, r);
    }
  }

  /** Every task has a response time within its period. */
  ghost predicate AllSchedulable(tasks: seq<TempTask>)
    requires Plausible(tasks)
  {
    forall i :: 0 <= i < |tasks| ==> Schedulable(tasks, i)
  }

  /** No job is longer than its period, which is its deadline. */
  ghost predicate AllFit(tasks: seq<TempTask>) {
    forall i :: 0 <= i < |tasks| ==> tasks[i].executionTime <= tasks[i].period
  }

  lemma SimulatedIsFpp(tasks: seq<TempTask>, offsets: seq<nat>)
    requires Plausible(tasks) && |offsets| == |tasks| < MIN_PRIORITY && AllFit(tasks)
    ensures FppSystem(Simulated(tasks, offsets, Config(true, true)))
  {
    var sys := Simulated(tasks, offsets, Config(true, true));
    forall i | 0 <= i < |tasks|
      ensures ValidSpec(sys.specs[i])
    {
    }
  }

  lemma FittingIsExact(tasks: seq<TempTask>)
    requires Plausible(tasks) && |tasks| < MIN_PRIORITY && AllFit(tasks)
    ensures ghost var sys := Simulated(tasks, Zeros(|tasks|), Config(true, true));
            FppSystem(sys) && (AllSchedulable(tasks) <==> NeverDoomed(sys))
  {
    var sys := Simulated(tasks, Zeros(|tasks|), Config(true, true));
    SimulatedIsFpp(tasks, Zeros(|tasks|));
    assert ValidSystem(sys) && Synchronous(sys.specs);
    hide FppSystem, MandatorySafe, NeverDoomed, Guaranteed, Schedulable, ValidSystem;
    forall i | 0 <= i < |tasks|
      ensures Schedulable(tasks, i) <==> Guaranteed(sys, i)
    {
      SchedulableIsGuaranteed(tasks, Zeros(|tasks|), i);
    }
    if AllSchedulable(tasks) {
      GuaranteedIsSafe(sys);
      SafeIsNeverDoomed(sys);
    }
    if NeverDoomed(sys) {
      NeverDoomedIsSafe(sys);
      forall i | 0 <= i < |tasks|
        ensures Schedulable(tasks, i)
      {
        SafeMeansGuaranteed(sys, i);
      }
    }
  }

  /**
    The analysis is exact: when it rejects a task set, some job is longer than its
    deadline allows, or in the run in which all tasks start together some job's
    deadline is in danger.
   */
  lemma AnalysisIsExact(tasks: seq<TempTask>)
    requires Plausible(tasks) && |tasks| < MIN_PRIORITY
    ensures ghost var sys := Simulated(tasks, Zeros(|tasks|), Config(true, true));
            AllSchedulable(tasks) <==> AllFit(tasks) && FppSystem(sys) && NeverDoomed(sys)
  {
    if AllFit(tasks) {
      FittingIsExact(tasks);
    } else {
      var i :| 0 <= i < |tasks| && tasks[i].executionTime > tasks[i].period;
      assert !Schedulable(tasks, i);
    }
  }

  /** Without optional jobs, safety concerns all jobs. */
  lemma SafeIsNeverDoomed(sys: System)
    requires ValidSystem(sys) && FppSystem(sys) && FullPriorities(sys.specs) && MandatorySafe(sys)
    ensures NeverDoomed(sys)
  {
    hide NoneDoomed, SafeAt, At, FppSystem, ValidSystem;
    forall t: nat
      ensures NoneDoomed(At(sys, t))
    {
      assert SafeAt(sys, t);
      SafeNowIsNoneDoomed(sys, t);
    }
  }

  lemma NeverDoomedIsSafe(sys: System)
    requires ValidSystem(sys) && FppSystem(sys) && FullPriorities(sys.specs) && NeverDoomed(sys)
    ensures MandatorySafe(sys)
  {
    hide NoneDoomed, SafeAt, At, FppSystem, ValidSystem;
    forall t: nat
      ensures SafeAt(sys, t)
    {
      assert NoneDoomed(At(sys, t));
      SafeNowIsNoneDoomed(sys, t);
    }
  }

  lemma SafeNowIsNoneDoomed(sys: System, t: nat)
    requires ValidSystem(sys) && FppSystem(sys) && FullPriorities(sys.specs)
    ensures SafeAt(sys, t) <==> NoneDoomed(At(sys, t))
  {
    AtNow(sys, t);
    hide At;
  }

  lemma {:induction false} OnesSum(s: seq<nat>)
    requires forall x :: 0 <= x < |s| ==> s[x] == 1
    ensures Sum(s) == |s|
  {
    if s != [] {
      OnesSum(s[1..]);
    }
  }

  lemma AllSucceeded(spec: TaskSpec, ts: TaskState, pending: nat)
    requires ValidSpec(spec) && spec.model.Periodic?
    requires TaskBalanced(ts, pending) && MandatoryOutcomes(spec, ts.history)
    ensures ts.cancellations == 0
  {
    assert forall x :: 0 <= x < |ts.history| ==> IsMandatory(spec, x);
    OnesSum(ts.history);
  }
}
