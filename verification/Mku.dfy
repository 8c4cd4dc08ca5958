/**
  The MKU policy (src/schedulers/mkuedf.cpp): overload resolution that cancels a
  job only if its task's (m,k)-constraint survives the cancellation. DMU
  (src/schedulers/dbpedf.cpp) and GMUA-MK (src/schedulers/gmuamk.cpp) are built in
  the same way.
 */
module Mku {
  import opened MkWindow
  import opened Constraints
  import opened Machine
  import opened MachineInvariants
  import opened AldScheduling
  import opened EdfFeasibility
  import opened Oedf
  import opened Utility

  /** What would be the task's utility if the job failed; a started job that must not be cancelled is worth nothing. */
  function CalcValue(predicted: seq<real>, config: Config, job: JobV): real {
    if (!config.execCancellations && job.Started()) || job.task >= |predicted| then 0.0 else predicted[job.task]
  }

  /** `smallest` is the least positive number the program can represent. */
  function MkuValues(predicted: seq<real>, config: Config, smallest: real): Values {
    Values((time: int, job: JobV) => CalcValue(predicted, config, job),
           smallest, (current: real, candidate: real) => candidate > current, value => value >= 1.0)
  }

  function MkuValuation(config: Config, smallest: real): seq<real> -> Values {
    predicted => MkuValues(predicted, config, smallest)
  }

  /** The task's constraint holds if the job is the next to fail. */
  ghost predicate SafeToCancel(specs: seq<TaskSpec>, tasks: seq<TaskState>, job: JobV)
    requires AllConstrained(specs) && |specs| == |tasks|
  {
    job.task < |specs| && Firm(specs[job.task].model.m, specs[job.task].model.k, tasks[job.task].history + [0])
  }

  /** No utility is larger than the outcome of the same job. */
  ghost predicate UtilitiesBelow(tasks: seq<TaskState>) {
    forall i :: 0 <= i < |tasks| ==> Below(tasks[i].utilities, tasks[i].history)
  }

  /**
    Every candidate is safe to cancel; when the task's last k-1 utilities are its
    outcomes, its job is a candidate exactly if it may be cancelled and is safe
    to cancel.
   */
  lemma CandidatesAreSafe(specs: seq<TaskSpec>, tasks: seq<TaskState>, config: Config, smallest: real, time: int, job: JobV)
    requires AllConstrained(specs) && |specs| == |tasks| && UtilitiesBelow(tasks) && job.task < |specs|
    ensures var (values, ts) := (MkuValues(Predicted(specs, tasks), config, smallest), tasks[job.task]);
            var candidate := IsCancelCandidate(values, config, job, values.value(time, job));
            && (candidate ==> SafeToCancel(specs, tasks, job))
            && (RecentlySame(specs[job.task].model.k - 1, ts.utilities, ts.history) ==>
                  (candidate <==> SafeToCancel(specs, tasks, job) && (config.execCancellations || !job.Started())))
  {
    var (model, ts) := (specs[job.task].model, tasks[job.task]);
    assert Constrained(model);
    assert Predicted(specs, tasks)[job.task] == UtilityAfter(model.m, model.k, ts.utilities + [0.0]);
    hide UtilityAfter, Firm, Predicted;
    UtilityShowsFirm(model.m, model.k, ts.utilities + [0.0], ts.history + [0]);
  }

  // ----- Which job MKU gives up -----

  /** The successes left in the window of the job's task if the job failed. */
  ghost function SuccessesLeft(specs: seq<TaskSpec>, tasks: seq<TaskState>, job: JobV): nat
    requires |specs| == |tasks| && job.task < |specs| && Constrained(specs[job.task].model)
  {
    Sum(Window(specs[job.task].model.k, tasks[job.task].history + [0]))
  }

  /** MKU may give the job up: it may be cancelled, and its task's constraint survives that. */
  ghost predicate MayGiveUp(specs: seq<TaskSpec>, tasks: seq<TaskState>, config: Config, job: JobV)
    requires AllConstrained(specs) && |specs| == |tasks|
  {
    SafeToCancel(specs, tasks, job) && (config.execCancellations || !job.Started())
  }

  /** No completion among the last k-1 of any task was late. */
  ghost predicate RecentlyTimely(specs: seq<TaskSpec>, tasks: seq<TaskState>)
    requires AllConstrained(specs) && |specs| == |tasks|
  {
    forall i :: 0 <= i < |specs| ==> RecentlySame(specs[i].model.k - 1, tasks[i].utilities, tasks[i].history)
  }

  /** For jobs that may be given up, MKU compares the shares of the required successes that would be left. */
  lemma ValueIsShare(specs: seq<TaskSpec>, tasks: seq<TaskState>, config: Config, smallest: real, time: int, job: JobV)
    requires AllConstrained(specs) && |specs| == |tasks| && UtilitiesBelow(tasks) && RecentlyTimely(specs, tasks)
    requires job.task < |specs| && (config.execCancellations || !job.Started())
    ensures Constrained(specs[job.task].model)
    ensures MkuValues(Predicted(specs, tasks), config, smallest).value(time, job)
         == SuccessesLeft(specs, tasks, job) as real / specs[job.task].model.m as real
  {
    var (model, ts) := (specs[job.task].model, tasks[job.task]);
    assert Constrained(model) && RecentlySame(model.k - 1, ts.utilities, ts.history);
    assert Predicted(specs, tasks)[job.task] == UtilityAfter(model.m, model.k, ts.utilities + [0.0]);
    hide UtilityAfter, Predicted, Window, Sum;
    UtilityIsShare(model.m, model.k, ts.utilities + [0.0], ts.history + [0]);
  }

  lemma CompareShares(a: nat, m: nat, b: nat, n: nat)
    requires m > 0 && n > 0
    ensures a as real / m as real <= b as real / n as real <==> a * n <= b * m
    ensures a as real / m as real < b as real / n as real <==> a * n < b * m
  {
    var (x, y) := (a as real / m as real, b as real / n as real);
    var mn := m as real * n as real;
    assert x * mn == (a * n) as real && y * mn == (b * m) as real;
    assert mn > 0.0;
    ScaleOrder(x, y, mn);
  }

  lemma ScaleOrder(x: real, y: real, c: real)
    requires c > 0.0
    ensures x <= y <==> x * c <= y * c
    ensures x < y <==> x * c < y * c
  {
    if x < y {
      assert (y - x) * c > 0.0;
    } else {
      assert (x - y) * c >= 0.0;
    }
  }

  /** In the schedule s, with the first miss at `miss`, the job at v is the one to give up. */
  ghost predicate BestToGiveUp(specs: seq<TaskSpec>, tasks: seq<TaskState>, config: Config, s: seq<JobV>, miss: nat, v: nat)
    requires AllConstrained(specs) && |specs| == |tasks| && Owned(s, |specs|) && miss < |s|
  {
    && v <= miss && MayGiveUp(specs, tasks, config, s[v])
    && forall p :: 0 <= p <= miss && MayGiveUp(specs, tasks, config, s[p]) ==>
         var (here, best) := (SuccessesLeft(specs, tasks, s[p]), SuccessesLeft(specs, tasks, s[v]));
         var (m, n) := (specs[s[p].task].model.m, specs[s[v].task].model.m);
         here * n <= best * m && (p < v ==> here * n < best * m)
  }

  lemma MkuVictim(specs: seq<TaskSpec>, tasks: seq<TaskState>, config: Config, smallest: real, now: int, s: seq<JobV>, miss: nat)
    requires AllConstrained(specs) && |specs| == |tasks| && UtilitiesBelow(tasks) && RecentlyTimely(specs, tasks)
    requires Owned(s, |specs|) && miss < |s| && 0.0 < smallest < 1.0
    ensures var v := Victim(MkuValues(Predicted(specs, tasks), config, smallest), config, now, s, miss);
            if v < 0 then forall p :: 0 <= p <= miss ==> !MayGiveUp(specs, tasks, config, s[p])
            else BestToGiveUp(specs, tasks, config, s, miss, v)
  {
    hide MkuValues, Predicted, Best, CandidateAt, ValueAt, MayGiveUp, SuccessesLeft, RecentlyTimely, UtilitiesBelow, StrictOrder;
    var values := MkuValues(Predicted(specs, tasks), config, smallest);
    var b := Best(values, config, now, s, miss + 1);
    MkuOrder(Predicted(specs, tasks), config, smallest);
    BestIsUnbeaten(values, config, now, s, miss + 1);
    BestIsFirst(values, config, now, s, miss + 1);
    forall p | 0 <= p <= miss
      ensures CandidateAt(values, config, now, s, p) <==> MayGiveUp(specs, tasks, config, s[p])
      ensures CandidateAt(values, config, now, s, p) ==>
                ValueAt(values, now, s, p) == SuccessesLeft(specs, tasks, s[p]) as real / specs[s[p].task].model.m as real >= 1.0
    {
      MkuCandidate(specs, tasks, config, smallest, now, s, p);
    }
    if b >= 0 {
      forall p | 0 <= p <= miss && MayGiveUp(specs, tasks, config, s[p])
        ensures var (here, best) := (SuccessesLeft(specs, tasks, s[p]), SuccessesLeft(specs, tasks, s[b]));
                var (m, n) := (specs[s[p].task].model.m, specs[s[b].task].model.m);
                here * n <= best * m && (p < b ==> here * n < best * m)
      {
        CompareShares(SuccessesLeft(specs, tasks, s[p]), specs[s[p].task].model.m,
                      SuccessesLeft(specs, tasks, s[b]), specs[s[b].task].model.m);
      }
    }
  }

  lemma MkuOrder(predicted: seq<real>, config: Config, smallest: real)
    ensures var values := MkuValues(predicted, config, smallest);
            && values.neutral == smallest && StrictOrder(values.better)
            && forall x, y :: values.better(x, y) <==> y > x
  {
  }

  lemma MkuCandidate(specs: seq<TaskSpec>, tasks: seq<TaskState>, config: Config, smallest: real, now: int, s: seq<JobV>, p: nat)
    requires AllConstrained(specs) && |specs| == |tasks| && UtilitiesBelow(tasks) && RecentlyTimely(specs, tasks)
    requires Owned(s, |specs|) && p < |s|
    ensures Constrained(specs[s[p].task].model)
    ensures var values := MkuValues(Predicted(specs, tasks), config, smallest);
            && (CandidateAt(values, config, now, s, p) <==> MayGiveUp(specs, tasks, config, s[p]))
            && (CandidateAt(values, config, now, s, p) ==>
                  ValueAt(values, now, s, p) == SuccessesLeft(specs, tasks, s[p]) as real / specs[s[p].task].model.m as real >= 1.0)
  {
    assert s[p] in s;
    assert Constrained(specs[s[p].task].model);
    hide Predicted, SuccessesLeft, Firm;
    CandidatesAreSafe(specs, tasks, config, smallest, now + Elapsed(s[..p]), s[p]);
    if config.execCancellations || !s[p].Started() {
      ValueIsShare(specs, tasks, config, smallest, now + Elapsed(s[..p]), s[p]);
    }
  }

  /**
    When no recent completion was late, MKU gives up a job exactly if one up to the
    first miss may be given up, and then the one whose task would keep the largest
    share of its required successes, the first of equals.
   */
  lemma MkuGivesUpBest(specs: seq<TaskSpec>, tasks: seq<TaskState>, config: Config, smallest: real, now: int, s: seq<JobV>)
    requires AllConstrained(specs) && |specs| == |tasks| && UtilitiesBelow(tasks) && RecentlyTimely(specs, tasks)
    requires Owned(s, |specs|) && 0.0 < smallest < 1.0 && FirstMiss(now, s) < |s|
    ensures var (cancelled, miss) := (Resolve(MkuValues(Predicted(specs, tasks), config, smallest), config, now, s, -1).cancelled, FirstMiss(now, s));
            if forall p :: 0 <= p <= miss ==> !MayGiveUp(specs, tasks, config, s[p]) then cancelled == []
            else cancelled != [] && exists v :: 0 <= v <= miss && cancelled[0] == s[v] && BestToGiveUp(specs, tasks, config, s, miss, v)
  {
    var values := MkuValues(Predicted(specs, tasks), config, smallest);
    var miss := FirstMiss(now, s);
    MkuVictim(specs, tasks, config, smallest, now, s, miss);
    var v := Victim(values, config, now, s, miss);
    hide MkuValues, Predicted, Victim, MayGiveUp, SuccessesLeft, RecentlyTimely, UtilitiesBelow;
    if v >= 0 {
      assert BestToGiveUp(specs, tasks, config, s, miss, v);
    }
  }

  lemma {:induction false} PendingErased(s: seq<JobV>, p: nat, i: nat)
    requires p < |s|
    ensures Pending(s, i) == Pending(ErasedV(s, p), i) + if s[p].task == i then 1 else 0
  {
    if p == 0 {
      assert ErasedV(s, p) == s[1..];
    } else {
      assert ErasedV(s, p)[1..] == ErasedV(s[1..], p - 1);
      PendingErased(s[1..], p - 1, i);
    }
  }

  lemma {:induction false} CancelledPending(values: Values, config: Config, now: int, s: seq<JobV>, last: int, i: nat)
    ensures var r := Resolve(values, config, now, s, last);
            Pending(r.cancelled, i) + Pending(r.kept, i) == Pending(s, i)
    decreases |s|
  {
    hide Victim, FirstMiss;
    var miss := FirstMiss(now, s);
    if miss < |s| && miss != last {
      var v := Victim(values, config, now, s, miss);
      if v >= 0 {
        var last' := if v == miss then -1 else miss - 1;
        CancelledPending(values, config, now, ErasedV(s, v), last', i);
        PendingErased(s, v, i);
        assert ([s[v]] + Resolve(values, config, now, ErasedV(s, v), last').cancelled)[1..]
               == Resolve(values, config, now, ErasedV(s, v), last').cancelled;
      }
    }
  }

  /** Cancelling safe jobs of different tasks makes no hook report a violation. */
  lemma {:induction false} SafeCancellations(specs: seq<TaskSpec>, tasks: seq<TaskState>, jobs: seq<JobV>)
    requires AllConstrained(specs) && ReportWindow(specs) && |specs| == |tasks| && Owned(jobs, |specs|)
    requires forall j :: j in jobs ==> SafeToCancel(specs, tasks, j)
    requires forall i :: 0 <= i < |specs| ==> Pending(jobs, i) <= 1
    ensures CancelAll(specs, tasks, jobs).1
    decreases |jobs|
  {
    if jobs != [] {
      var job := jobs[0];
      var rest := tasks[job.task := CancelledJob(tasks[job.task], job)];
      assert job in jobs;
      PendingMember(jobs[1..], job.task);
      assert Pending(jobs, job.task) <= 1;
      hide Firm;
      forall i | 0 <= i < |specs|
        ensures Pending(jobs[1..], i) <= 1
      {
        assert Pending(jobs, i) <= 1;
      }
      forall j | j in jobs[1..]
        ensures SafeToCancel(specs, rest, j)
      {
        assert j in jobs && j.task != job.task;
      }
      SafeCancellations(specs, rest, jobs[1..]);
    }
  }

  /**
    Whenever MKU resolves an overload and no task has more than one job pending,
    no cancellation hook reports a violated constraint.
   */
  lemma MkuKeepsConstraints(specs: seq<TaskSpec>, tasks: seq<TaskState>, config: Config, smallest: real, now: int, s: seq<JobV>)
    requires AllConstrained(specs) && ReportWindow(specs) && |specs| == |tasks| && UtilitiesBelow(tasks)
    requires Owned(s, |specs|)
    requires forall i :: 0 <= i < |specs| ==> Pending(s, i) <= 1
    ensures var cancelled := Resolve(MkuValues(Predicted(specs, tasks), config, smallest), config, now, s, -1).cancelled;
            Owned(cancelled, |specs|) && CancelAll(specs, tasks, cancelled).1
  {
    var values := MkuValues(Predicted(specs, tasks), config, smallest);
    var r := Resolve(values, config, now, s, -1);
    ResolveConserves(values, config, now, s, -1);
    ResolveCancelsCandidates(values, config, now, s, -1);
    hide Resolve, SafeToCancel, MkuValues, IsCancelCandidate, Predicted;
    forall j | j in r.cancelled
      ensures j.task < |specs| && SafeToCancel(specs, tasks, j)
    {
      assert j in multiset(r.cancelled) && j in multiset(s);
      var time :| IsCancelCandidate(values, config, j, values.value(time, j));
      CandidatesAreSafe(specs, tasks, config, smallest, time, j);
    }
    forall i | 0 <= i < |specs|
      ensures Pending(r.cancelled, i) <= 1
    {
      CancelledPending(values, config, now, s, -1, i);
    }
    SafeCancellations(specs, tasks, r.cancelled);
  }

  // ----- Whole runs -----

  ghost predicate MkuSystem(sys: System, smallest: real) {
    && Strict(sys) && sys.policy == EDF
    && AllConstrained(sys.specs) && ReportWindow(sys.specs)
    && sys.planner == OedfPlanner(sys.specs, sys.config, MkuValuation(sys.config, smallest))
  }

  lemma ReadyForMku(sys: System, t: nat)
    requires Strict(sys)
    ensures var ready := Ready(sys, At(sys, t));
            && UtilitiesBelow(ready.tasks)
            && forall i :: 0 <= i < |sys.specs| ==> Pending(ready.sched, i) <= 1
  {
    AlwaysPunctual(sys, t);
    AlwaysConserved(sys, t);
    StepPunctual(sys, At(sys, t));
    ReadyConserves(sys, At(sys, t));
    var ready := Ready(sys, At(sys, t));
    hide At, Ready;
    forall i | 0 <= i < |sys.specs|
      ensures Below(ready.tasks[i].utilities, ready.tasks[i].history) && Pending(ready.sched, i) <= 1
    {
      assert TaskBalanced(ready.tasks[i], Pending(ready.sched, i));
    }
  }

  /**
    With both cancellation flags on and deadlines at most the periods, no run of
    MKU is ever refused because of a job that MKU itself gave up.
   */
  lemma MkuNeverRefused(sys: System, smallest: real, t: nat)
    requires MkuSystem(sys, smallest)
    ensures Schedule(sys, Ready(sys, At(sys, t))).1
  {
    var ready := Ready(sys, At(sys, t));
    ReadyForMku(sys, t);
    hide At, Ready, UtilitiesBelow, Strict;
    MkuKeepsConstraints(sys.specs, ready.tasks, sys.config, smallest, ready.now, ready.sched);
    hide MkuValues, Predicted, Resolve, CancelAll;
    assert Decide(sys, ready) == OedfDecision(sys.specs, sys.config, MkuValuation(sys.config, smallest), ready);
  }

  /** In particular a run of MKU can only stop when a job's deadline is missed before MKU gives it up. */
  lemma MkuStopsInInitStep(sys: System, smallest: real, t: nat)
    requires MkuSystem(sys, smallest)
    ensures Accepted(sys, At(sys, t)) <==> InitStep(sys, At(sys, t)).1
  {
    MkuNeverRefused(sys, smallest, t);
    hide At, Ready, Schedule, InitStep;
  }

  // ----- MKU gives up, too -----

  /** A task at the start of a run that needs one success in two jobs. */
  predicate FreshOneOfTwo(spec: TaskSpec, ts: TaskState) {
    spec.model == Mk(1, 2) && ts.utilities == []
  }

  lemma FreshValue(specs: seq<TaskSpec>, tasks: seq<TaskState>, i: nat)
    requires i < |specs| == |tasks| && FreshOneOfTwo(specs[i], tasks[i])
    ensures Predicted(specs, tasks)[i] == 1.0
  {
    assert UtilityWindow(2, [0.0]) == [1.0, 0.0];
    assert [1.0, 0.0][1..] == [0.0];
    assert Utility.Total([0.0]) == 0.0 && Utility.Total([1.0, 0.0]) == 1.0;
    assert [] + [0.0] == [0.0];
  }

  lemma EqualPredictions(predicted: seq<real>, config: Config, smallest: real, s: seq<JobV>)
    requires 0.0 < smallest < 1.0
    requires forall i :: 0 <= i < |s| ==> !s[i].Started() && s[i].task < |predicted| && predicted[s[i].task] == 1.0
    ensures SameValue(MkuValues(predicted, config, smallest), config, s, 1.0)
  {
  }

  /** MKU leaves a schedule of three fresh tasks infeasible although it could safely cancel one job more. */
  lemma MkuStopsInfeasible(specs: seq<TaskSpec>, tasks: seq<TaskState>, config: Config, smallest: real, a: JobV, b: JobV, c: JobV)
    requires |specs| == |tasks| == 3 && forall i :: 0 <= i < 3 ==> FreshOneOfTwo(specs[i], tasks[i])
    requires 0.0 < smallest < 1.0
    requires a.task == 0 && b.task == 1 && c.task == 2 && !a.Started() && !b.Started() && !c.Started()
    requires a.rem == b.rem == 1 && c.rem == 2 && a.deadline == b.deadline == c.deadline == 2
    ensures var values := MkuValues(Predicted(specs, tasks), config, smallest);
            && Resolve(values, config, 0, [a, b, c], -1).kept == [b, c]
            && !Meets(0, [b, c]) && Meets(0, [c]) && CandidateAt(values, config, 0, [b, c], 0)
  {
    FreshValue(specs, tasks, 0);
    FreshValue(specs, tasks, 1);
    FreshValue(specs, tasks, 2);
    hide Predicted, Resolve, Meets;
    EqualPredictions(Predicted(specs, tasks), config, smallest, [a, b, c]);
    StopsInfeasible(MkuValues(Predicted(specs, tasks), config, smallest), config, a, b, c, 1.0);
  }

  // ----- DMU -----

  /** `Task::getDistance` is not virtual, so DMU sees a distance of 1 for every task, and 1 is no candidate. */
  function DmuValuation(smallest: real): seq<real> -> Values {
    predicted => Values((time: int, job: JobV) => 1.0, smallest, (current: real, candidate: real) => candidate > current,
                        value => value > 1.0)
  }

  lemma {:induction false} NoDmuCandidate(predicted: seq<real>, smallest: real, config: Config, now: int, s: seq<JobV>, n: nat)
    requires n <= |s|
    ensures Best(DmuValuation(smallest)(predicted), config, now, s, n) == -1
  {
    if n > 0 {
      NoDmuCandidate(predicted, smallest, config, now, s, n - 1);
    }
  }

  /** DMU never cancels a job: it decides what plain EDF does. */
  lemma DmuNeverCancels(specs: seq<TaskSpec>, config: Config, smallest: real, st: State)
    ensures OedfDecision(specs, config, DmuValuation(smallest), st) == Decision(st.sched, [], false)
  {
    var predicted := Predicted(specs, st.tasks);
    var miss := FirstMiss(st.now, st.sched);
    if miss < |st.sched| {
      NoDmuCandidate(predicted, smallest, config, st.now, st.sched, miss + 1);
    }
  }

  // ----- GMUA-MK -----

  /** The utility of finishing from `time` on per unit of execution time and distance, which is 1 here as well. */
  function GmuaValuation(largest: real): seq<real> -> Values {
    predicted => Values((time: int, job: JobV) => if job.et == 0 then 0.0 else FirmUtility(time + job.rem, job.deadline) / job.et as real,
                        largest, (current: real, candidate: real) => candidate < current, value => value >= 1.0)
  }

  /** GMUA-MK gives up only jobs of one time unit. */
  lemma GmuaCancelsUnitJobs(specs: seq<TaskSpec>, config: Config, largest: real, st: State)
    ensures forall j :: j in OedfDecision(specs, config, GmuaValuation(largest), st).cancelled ==> j.et == 1
  {
    var values := GmuaValuation(largest)(Predicted(specs, st.tasks));
    ResolveCancelsCandidates(values, config, st.now, st.sched, -1);
    hide Resolve, Predicted;
    forall j | j in OedfDecision(specs, config, GmuaValuation(largest), st).cancelled
      ensures j.et == 1
    {
      var time :| IsCancelCandidate(values, config, j, values.value(time, j));
      AtLeastOne(FirmUtility(time + j.rem, j.deadline), j.et);
    }
  }

  /** The job at position p is worth 1: one time unit long, and in time after the jobs before it. */
  predicate GmuaMayGiveUp(config: Config, now: int, s: seq<JobV>, p: nat)
    requires p < |s|
  {
    && s[p].et == 1 && now + Elapsed(s[..p]) + s[p].rem <= s[p].deadline
    && (config.execCancellations || !s[p].Started())
  }

  lemma GmuaCandidate(predicted: seq<real>, config: Config, largest: real, now: int, s: seq<JobV>, p: nat)
    requires p < |s|
    ensures var values := GmuaValuation(largest)(predicted);
            && (CandidateAt(values, config, now, s, p) <==> GmuaMayGiveUp(config, now, s, p))
            && (CandidateAt(values, config, now, s, p) ==> ValueAt(values, now, s, p) == 1.0)
  {
    var u := FirmUtility(now + Elapsed(s[..p]) + s[p].rem, s[p].deadline);
    if s[p].et > 0 && u / s[p].et as real >= 1.0 {
      AtLeastOne(u, s[p].et);
    }
  }

  lemma GmuaOrder(predicted: seq<real>, largest: real)
    ensures var values := GmuaValuation(largest)(predicted);
            && values.neutral == largest && StrictOrder(values.better)
            && forall x, y :: values.better(x, y) <==> y < x
  {
  }

  ghost predicate FirstToGiveUp(config: Config, now: int, s: seq<JobV>, v: nat)
    requires v < |s|
  {
    GmuaMayGiveUp(config, now, s, v) && forall p :: 0 <= p < v ==> !GmuaMayGiveUp(config, now, s, p)
  }

  lemma GmuaVictim(predicted: seq<real>, config: Config, largest: real, now: int, s: seq<JobV>, miss: nat)
    requires largest > 1.0 && miss < |s|
    ensures var v := Victim(GmuaValuation(largest)(predicted), config, now, s, miss);
            if v < 0 then forall p :: 0 <= p <= miss ==> !GmuaMayGiveUp(config, now, s, p)
            else FirstToGiveUp(config, now, s, v)
  {
    hide GmuaValuation, Best, CandidateAt, ValueAt, GmuaMayGiveUp, StrictOrder;
    var values := GmuaValuation(largest)(predicted);
    GmuaOrder(predicted, largest);
    BestIsUnbeaten(values, config, now, s, miss + 1);
    BestIsFirst(values, config, now, s, miss + 1);
    forall p | 0 <= p <= miss
      ensures CandidateAt(values, config, now, s, p) <==> GmuaMayGiveUp(config, now, s, p)
      ensures CandidateAt(values, config, now, s, p) ==> ValueAt(values, now, s, p) == 1.0
    {
      GmuaCandidate(predicted, config, largest, now, s, p);
    }
  }

  /** GMUA-MK gives up the first job up to the first miss that is one time unit long and would be in time. */
  lemma GmuaGivesUpFirst(predicted: seq<real>, config: Config, largest: real, now: int, s: seq<JobV>)
    requires largest > 1.0 && FirstMiss(now, s) < |s|
    ensures var (cancelled, miss) := (Resolve(GmuaValuation(largest)(predicted), config, now, s, -1).cancelled, FirstMiss(now, s));
            if forall p :: 0 <= p <= miss ==> !GmuaMayGiveUp(config, now, s, p) then cancelled == []
            else cancelled != [] && exists v :: 0 <= v <= miss && cancelled[0] == s[v] && FirstToGiveUp(config, now, s, v)
  {
    hide GmuaValuation, Victim, GmuaMayGiveUp;
    var values := GmuaValuation(largest)(predicted);
    var miss := FirstMiss(now, s);
    GmuaVictim(predicted, config, largest, now, s, miss);
    var v := Victim(values, config, now, s, miss);
    if v >= 0 {
      assert FirstToGiveUp(config, now, s, v);
    }
  }

  lemma AtLeastOne(u: real, et: nat)
    requires u <= 1.0 && et >= 1 && u / et as real >= 1.0
    ensures et == 1
  {
    QuotientAtLeastOne(u, et);
  }
}
