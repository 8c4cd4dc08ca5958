/**
  Tasks: activation clock, counters and the hooks of the four task models
  (src/core/task.cpp, src/taskmodels/periodictask.cpp, src/taskmodels/mktask.cpp,
  src/taskmodels/dbptask.cpp, src/taskmodels/mkptask.cpp).
 */
module Tasks {
  import opened MkPattern
  import opened MkWindow
  import opened MkMonitoring
  import opened Utility
  import opened Machine
  import opened Jobs

  class Task {
    const spec: TaskSpec
    /** Position in the task set. */
    const index: nat
    var nextActivation: int
    var activations: nat
    var completions: nat
    var cancellations: nat
    var execCancellations: nat
    var misses: nat
    var preemptions: nat
    var ecPerformanceLost: int
    /** Only tasks with an (m,k)-constraint have a monitor, and an aggregator that goes with it. */
    const monitor: MkMonitor?
    const ua: UAWMK?
    /** Everything reported to the task: 1 for a completion, 0 for a cancellation. */
    ghost var outcomes: seq<nat>
    /** The utilities of the same jobs. */
    ghost var utilities: seq<real>

    /** The task and the objects that belong to it. */
    ghost const footprint: set<object>

    ghost function Footprint(): set<object> {
      footprint
    }

    ghost predicate Valid()
      reads this, Footprint()
    {
      && this in footprint
      && footprint == (if monitor == null || ua == null then {this}
                       else {this, monitor, monitor.vals, ua, ua.window, ua.window.values})
      && ValidSpec(spec)
      && (monitor == null <==> spec.model.Periodic?)
      && (ua == null <==> spec.model.Periodic?)
      && Bits(outcomes)
      && (monitor != null ==>
            && monitor.Valid() && monitor.history == outcomes && monitor.initial == spec.initial
            && monitor.m == spec.model.m && monitor.k == spec.model.k)
      && (ua != null ==>
            && ua.Valid() && ua.window.history == utilities
            && ua.m == spec.model.m && ua.k == spec.model.k)
    }

    ghost function View(): TaskState
      reads this
    {
      TaskState(nextActivation, activations, completions, cancellations, execCancellations, misses, outcomes, utilities)
    }

    constructor (spec: TaskSpec, index: nat)
      requires ValidSpec(spec)
      ensures Valid() && fresh(Footprint())
      ensures this.spec == spec && this.index == index && outcomes == [] && utilities == []
    {
      this.spec, this.index := spec, index;
      nextActivation, activations, completions, cancellations := -1, 0, 0, 0;
      execCancellations, misses, preemptions, ecPerformanceLost := 0, 0, 0, 0;
      outcomes, utilities := [], [];
      if spec.model.Periodic? {
        monitor, ua := null, null;
        footprint := {this};
      } else {
        assert spec.initial[..spec.model.k] == spec.initial;
        var newMonitor := new MkMonitor(spec.model.m, spec.model.k, spec.initial);
        var newUa := new UAWMK(spec.model.m, spec.model.k);
        monitor, ua := newMonitor, newUa;
        footprint := {this, newMonitor, newMonitor.vals, newUa, newUa.window, newUa.window.values};
      }
    }

    /** Prepares the task for a run that starts at `now`. */
    method Start(now: int)
      requires Valid()
      modifies this
      ensures Valid()
      ensures View() == TaskState(now + spec.offset, 0, 0, 0, 0, 0, old(outcomes), old(utilities))
      ensures preemptions == ecPerformanceLost == 0
    {
      nextActivation := now + spec.offset;
      activations, completions, cancellations, execCancellations := 0, 0, 0, 0;
      ecPerformanceLost, misses, preemptions := 0, 0, 0;
    }

    /** A new job when the activation time is reached. */
    method SpawnJob(now: int) returns (job: Job?)
      requires Valid()
      modifies this
      ensures Valid()
      ensures job != null <==> now >= old(nextActivation)
      ensures job == null ==> View() == old(View())
      ensures job != null ==>
                && fresh(job) && job.Valid()
                && job.View() == Spawn(spec, index, old(View()), now)
                && View() == Activated(spec, old(View()))
    {
      if now >= nextActivation {
        job := SpawnHook(now);
        nextActivation := nextActivation + spec.period;
        activations := activations + 1;
      } else {
        job := null;
      }
    }

    /** Optional jobs of a fixed pattern get the lowest priority; distance-based priorities are read off the monitor. */
    method SpawnHook(now: int) returns (job: Job)
      requires Valid()
      ensures fresh(job) && job.Valid() && job.View() == Spawn(spec, index, View(), now)
    {
      var prio: nat;
      match spec.model {
        case Mkp(m, k, spin, _) =>
          if IsJobMandatory(activations, spin, m, k) {
            prio := spec.priority;
          } else {
            prio := MIN_PRIORITY;
          }
        case Dbp(_, _) =>
          prio := GetDistance();
        case _ =>
          prio := spec.priority;
      }
      job := new Job(index, activations, now, spec.et, now + spec.relDeadline, prio);
    }

    method CompleteJob(job: Job, now: int)
      requires Valid()
      modifies Footprint()
      ensures Valid()
      ensures View() == Completed(old(View()), job.View(), now)
      ensures preemptions == old(preemptions) + job.preemptions && ecPerformanceLost == old(ecPerformanceLost)
    {
      NotOwned(job);
      hide ValidSpec, Valid, FirmUtility;
      CountCompletion(job, now);
      Record(FirmUtility(now, job.absDeadline), 1);
    }

    /** The counters of `completeJob`. */
    method CountCompletion(job: Job, now: int)
      requires Valid()
      modifies this
      ensures Valid() && outcomes == old(outcomes) && utilities == old(utilities)
      ensures var before := old(View());
              View() == before.(completions := before.completions + 1,
                misses := before.misses + if job.absDeadline < now then 1 else 0)
      ensures preemptions == old(preemptions) + job.preemptions && ecPerformanceLost == old(ecPerformanceLost)
    {
      completions := completions + 1;
      if job.absDeadline < now {
        misses := misses + 1;
      }
      preemptions := preemptions + job.preemptions;
    }

    /** Reports a cancelled job; the answer tells whether the task can go on. */
    method CancelJob(job: Job) returns (ok: bool)
      requires Valid()
      modifies Footprint()
      ensures Valid()
      ensures View() == CancelledJob(old(View()), job.View())
      ensures ok <==> CancelHook(spec, View(), job.View())
      ensures preemptions == old(preemptions) + job.preemptions
      ensures ecPerformanceLost == old(ecPerformanceLost)
                                   + if job.etRemain < job.executionTime then job.executionTime - job.etRemain else 0
    {
      NotOwned(job);
      hide CancelHook, ValidSpec, Valid;
      CountCancellation(job);
      Record(0.0, 0);
      ok := CancelAnswer(job);
    }

    lemma NotOwned(job: Job)
      requires Valid()
      ensures job !in Footprint()
    {
    }

    /** The counters of `cancelJob`. */
    method CountCancellation(job: Job)
      requires Valid()
      modifies this
      ensures Valid() && outcomes == old(outcomes) && utilities == old(utilities)
      ensures var before := old(View());
              View() == before.(cancellations := before.cancellations + 1,
                execCancellations := before.execCancellations + if job.View().Started() then 1 else 0)
      ensures preemptions == old(preemptions) + job.preemptions
      ensures ecPerformanceLost == old(ecPerformanceLost)
                                   + if job.etRemain < job.executionTime then job.executionTime - job.etRemain else 0
    {
      preemptions := preemptions + job.preemptions;
      cancellations := cancellations + 1;
      if job.etRemain < job.executionTime {
        execCancellations := execCancellations + 1;
        ecPerformanceLost := ecPerformanceLost + (job.executionTime - job.etRemain);
      }
    }

    /** The answer of the model's `cancelHook` once the cancellation is recorded. */
    method CancelAnswer(job: Job) returns (ok: bool)
      requires Valid()
      ensures Valid() && View() == old(View()) && job.View() == old(job.View())
      ensures ok <==> CancelHook(spec, View(), job.View())
    {
      match spec.model {
        case Periodic =>
          ok := true;
        case Mk(_, _) =>
          ok := monitor.IsStateValid();
        case Dbp(_, _) =>
          ok := monitor.IsStateValid();
        case Mkp(_, _, _, relaxed) =>
          var mandFail := job.priority != MIN_PRIORITY;
          var stateValid := monitor.IsStateValid();
          ok := if relaxed then stateValid else !mandFail;
      }
    }

    /** Passes a utility to the aggregator and an outcome to the monitor, if the task has them. */
    method Record(utility: real, outcome: nat)
      requires Valid() && outcome <= 1
      modifies Footprint()
      ensures Valid() && outcomes == old(outcomes) + [outcome] && utilities == old(utilities) + [utility]
      ensures View() == old(View()).(history := old(outcomes) + [outcome], utilities := old(utilities) + [utility])
      ensures preemptions == old(preemptions) && ecPerformanceLost == old(ecPerformanceLost)
    {
      outcomes, utilities := outcomes + [outcome], utilities + [utility];
      if ua != null {
        ua.AddUtility(utility);
      }
      if monitor != null {
        monitor.Push(outcome);
      }
    }

    /** `getPossibleFailHistoryValue`: the aggregated utility there would be if the next job failed. */
    method GetPossibleFailHistoryValue() returns (r: real)
      requires Valid() && ua != null
      ensures r == UtilityAfter(spec.model.m, spec.model.k, utilities + [0.0])
    {
      r := ua.PredictUtility(0.0);
    }

    /** How many further consecutive failures leave fewer than m successes in the window. */
    method GetDistance() returns (distance: nat)
      requires Valid() && monitor != null
      ensures distance == FailureDistance(spec.model.m, Last(spec.model.k, spec.initial + outcomes))
    {
      var (m, k) := (spec.model.m, spec.model.k);
      var l := monitor.CalcL(m);
      distance := k as int - l + 1;
      DistanceFromEnd(m, Last(k, monitor.Recorded()), distance);
    }
  }

  // ----- Failure distance -----

  lemma {:induction false} FailureDistanceBound(m: nat, window: seq<nat>)
    ensures FailureDistance(m, window) <= |window|
  {
    if window != [] && Sum(window) >= m {
      FailureDistanceBound(m, window[1..]);
    }
  }

  /** The distance is the number of entries that can be dropped with at least m successes left. */
  lemma {:induction false} FailureDistanceIs(m: nat, window: seq<nat>, x: nat)
    requires m >= 1 && x <= |window|
    ensures Sum(window[x..]) >= m <==> x < FailureDistance(m, window)
  {
    if x == 0 {
      assert window[0..] == window;
    } else if Sum(window) < m {
      SuffixSumMonotone(window, 0, x);
      assert window[0..] == window;
    } else {
      assert window[x..] == window[1..][x - 1..];
      FailureDistanceIs(m, window[1..], x - 1);
    }
  }

  lemma DistanceFromEnd(m: nat, window: seq<nat>, distance: nat)
    requires m >= 1 && distance <= |window|
    requires forall x :: 0 <= x <= |window| ==> (Sum(window[x..]) >= m <==> x < distance)
    ensures distance == FailureDistance(m, window)
  {
    var d := FailureDistance(m, window);
    FailureDistanceBound(m, window);
    FailureDistanceIs(m, window, d);
    FailureDistanceIs(m, window, distance);
    assert Sum(window[d..]) >= m <==> d < distance;
    assert Sum(window[distance..]) >= m <==> distance < distance;
  }

  /** The constraint after x further failures depends on the k-x newest entries of the window. */
  lemma FailuresAhead(m: nat, k: nat, history: seq<nat>, x: nat)
    requires ValidMk(m, k)
    ensures x <= k ==> (Firm(m, k, history + Repeat(0, x)) <==> Sum(Window(k, history)[x..]) >= m)
    ensures x > k ==> !Firm(m, k, history + Repeat(0, x))
  {
    if x <= k {
      WindowAfterFailures(k, history, x);
    } else {
      assert Window(k, history + Repeat(0, x)) == Repeat(0, k);
      SumRepeat(0, k);
    }
  }

  /**
    From an all-success start the distance is exact: after x further failures in
    a row the constraint holds if and only if x is less than the distance.
   */
  lemma DistanceIsExact(m: nat, k: nat, history: seq<nat>, x: nat)
    requires ValidMk(m, k)
    ensures Firm(m, k, history + Repeat(0, x)) <==> x < FailureDistance(m, Last(k, Repeat(1, k) + history))
  {
    WindowFromSuccesses(k, history);
    FailuresAhead(m, k, history, x);
    FailureDistanceBound(m, Window(k, history));
    if x <= k {
      FailureDistanceIs(m, Window(k, history), x);
    }
  }

  /** From any other start it is exact as soon as k outcomes are known. */
  lemma DistanceIsExactLater(m: nat, k: nat, initial: seq<nat>, history: seq<nat>, x: nat)
    requires ValidMk(m, k) && |history| >= k
    ensures Firm(m, k, history + Repeat(0, x)) <==> x < FailureDistance(m, Last(k, initial + history))
  {
    LastSuffix(k, initial, history);
    FailuresAhead(m, k, history, x);
    FailureDistanceBound(m, Window(k, history));
    if x <= k {
      FailureDistanceIs(m, Window(k, history), x);
    }
  }
}
