/**
  What a task is told in a run, event by event: its outcomes and utilities are
  those of the completions and cancellations reported to it.
 */
module TaskEvents {
  import opened MkWindow
  import opened Machine
  import opened MachineInvariants
  import opened Utility

  /** The cancellations of task i's jobs. */
  function Cancellations(jobs: seq<JobV>, i: nat): seq<Event> {
    if jobs == [] then []
    else (if jobs[0].task == i then [Cancel(jobs[0].Started())] else []) + Cancellations(jobs[1..], i)
  }

  /** The completion of task i's job, if the first pending job is one and finishes now. */
  function Completions(st: State, i: nat): seq<Event> {
    if st.sched != [] && st.sched[0].rem <= 1 && st.sched[0].task == i then [Complete(st.now, st.sched[0].deadline)]
    else []
  }

  /** What task i is told in a step. */
  function StepEvents(sys: System, st: State, i: nat): seq<Event>
    requires ValidSystem(sys) && ValidState(sys, st)
  {
    var ready := Ready(sys, st);
    Cancellations(Doomed(sys.config, st.now, st.sched), i) + Cancellations(Decide(sys, ready).cancelled, i)
    + if Decide(sys, ready).idle then [] else Completions(Schedule(sys, ready).0, i)
  }

  /** What task i has been told by time t. */
  function EventsAt(sys: System, t: nat, i: nat): seq<Event>
    requires ValidSystem(sys)
  {
    if t == 0 then [] else EventsAt(sys, t - 1, i) + StepEvents(sys, At(sys, t - 1), i)
  }

  predicate LateCompletion(e: Event) {
    e.Complete? && e.deadline < e.now
  }

  predicate Completion(e: Event) {
    e.Complete?
  }

  predicate Cancellation(e: Event) {
    e.Cancel?
  }

  predicate StartedCancellation(e: Event) {
    e.Cancel? && e.started
  }

  /** How many of the events are of a kind. */
  function Count(kind: Event -> bool, events: seq<Event>): nat {
    if events == [] then 0 else (if kind(events[0]) then 1 else 0) + Count(kind, events[1..])
  }

  lemma {:induction false} CountAppend(kind: Event -> bool, s: seq<Event>, t: seq<Event>)
    ensures Count(kind, s + t) == Count(kind, s) + Count(kind, t)
  {
    if s == [] {
      assert s + t == t;
    } else {
      assert (s + t)[1..] == s[1..] + t;
      CountAppend(kind, s[1..], t);
    }
  }

  /** The events are exactly what the task has recorded and counted in between. */
  ghost predicate Records(before: TaskState, events: seq<Event>, after: TaskState) {
    && after.history == before.history + Outcomes(events)
    && after.utilities == before.utilities + Utilities(events)
    && after.completions == before.completions + Count(Completion, events)
    && after.misses == before.misses + Count(LateCompletion, events)
    && after.cancellations == before.cancellations + Count(Cancellation, events)
    && after.execCancellations == before.execCancellations + Count(StartedCancellation, events)
  }

  lemma EventsAppend(s: seq<Event>, t: seq<Event>)
    ensures Outcomes(s + t) == Outcomes(s) + Outcomes(t)
    ensures Utilities(s + t) == Utilities(s) + Utilities(t)
  {
  }

  lemma RecordsTrans(a: TaskState, s: seq<Event>, b: TaskState, t: seq<Event>, c: TaskState)
    requires Records(a, s, b) && Records(b, t, c)
    ensures Records(a, s + t, c)
  {
    EventsAppend(s, t);
    CountAppend(Completion, s, t);
    CountAppend(LateCompletion, s, t);
    CountAppend(Cancellation, s, t);
    CountAppend(StartedCancellation, s, t);
  }

  /** Activations leave everything but the clock. */
  lemma {:induction false} ActivationsKeepCounters(sys: System, st: State, i: nat, x: nat)
    requires ValidSystem(sys) && ValidState(sys, st) && i <= |sys.specs| && x < |sys.specs|
    ensures Records(st.tasks[x], [], Activations(sys, st, i).tasks[x])
    decreases |sys.specs| - i
  {
    if i < |sys.specs| {
      ActivationsKeepCounters(sys, ActivateOne(sys, st, i), i + 1, x);
    } else {
      NothingRecorded(st.tasks[x]);
    }
  }

  lemma NothingRecorded(ts: TaskState)
    ensures Records(ts, [], ts)
  {
  }

  lemma {:induction false} CancellationsRecorded(specs: seq<TaskSpec>, tasks: seq<TaskState>, jobs: seq<JobV>, i: nat)
    requires |specs| == |tasks| && Owned(jobs, |specs|) && i < |tasks|
    ensures Records(tasks[i], Cancellations(jobs, i), CancelAll(specs, tasks, jobs).0[i])
    decreases |jobs|
  {
    if jobs == [] {
      NothingRecorded(tasks[i]);
    } else {
      var job := jobs[0];
      var after := tasks[job.task := CancelledJob(tasks[job.task], job)];
      CancellationsRecorded(specs, after, jobs[1..], i);
      var first := if job.task == i then [Cancel(job.Started())] else [];
      assert Records(tasks[i], first, after[i]);
      RecordsTrans(tasks[i], first, after[i], Cancellations(jobs[1..], i), CancelAll(specs, tasks, jobs).0[i]);
    }
  }

  lemma ExecutionRecorded(sys: System, st: State, i: nat)
    requires ValidState(sys, st) && i < |st.tasks|
    ensures Records(st.tasks[i], Completions(st, i), Execute(sys, st).tasks[i])
  {
  }

  lemma ReadyRecorded(sys: System, st: State, i: nat)
    requires ValidSystem(sys) && ValidState(sys, st) && i < |st.tasks|
    ensures Records(st.tasks[i], Cancellations(Doomed(sys.config, st.now, st.sched), i), Ready(sys, st).tasks[i])
  {
    SurvivorsAndDoomed(sys.config, st.now, st.sched);
    CancellationsRecorded(sys.specs, st.tasks, Doomed(sys.config, st.now, st.sched), i);
    ActivationsKeepCounters(sys, InitStep(sys, st).0, 0, i);
    RecordsTrans(st.tasks[i], Cancellations(Doomed(sys.config, st.now, st.sched), i), InitStep(sys, st).0.tasks[i], [], Ready(sys, st).tasks[i]);
    assert Cancellations(Doomed(sys.config, st.now, st.sched), i) + [] == Cancellations(Doomed(sys.config, st.now, st.sched), i);
  }

  lemma ServeRecorded(sys: System, st: State, i: nat)
    requires ValidSystem(sys) && ValidState(sys, st) && i < |st.tasks|
    ensures Records(st.tasks[i],
                    Cancellations(Decide(sys, st).cancelled, i)
                    + if Decide(sys, st).idle then [] else Completions(Schedule(sys, st).0, i),
                    Serve(sys, st).tasks[i])
  {
    var planned := Schedule(sys, st).0;
    DecisionPartitions(sys, st);
    CancellationsRecorded(sys.specs, st.tasks, Decide(sys, st).cancelled, i);
    assert Records(st.tasks[i], Cancellations(Decide(sys, st).cancelled, i), planned.tasks[i]);
    hide Schedule, Execute, Cancellations, Completions, Records;
    NothingRecorded(planned.tasks[i]);
    ExecutionRecorded(sys, planned, i);
    RecordsTrans(st.tasks[i], Cancellations(Decide(sys, st).cancelled, i), planned.tasks[i],
                 if Decide(sys, st).idle then [] else Completions(planned, i), Serve(sys, st).tasks[i]);
  }

  lemma StepRecorded(sys: System, st: State, i: nat)
    requires ValidSystem(sys) && ValidState(sys, st) && i < |st.tasks|
    ensures Records(st.tasks[i], StepEvents(sys, st, i), Step(sys, st).tasks[i])
  {
    hide Ready, Serve, Schedule, Cancellations, Completions, Records, Decide, Doomed, ValidSystem;
    var ready := Ready(sys, st);
    ReadyRecorded(sys, st, i);
    ServeRecorded(sys, ready, i);
    var (first, second) := (Cancellations(Doomed(sys.config, st.now, st.sched), i), Cancellations(Decide(sys, ready).cancelled, i));
    var third := if Decide(sys, ready).idle then [] else Completions(Schedule(sys, ready).0, i);
    assert StepEvents(sys, st, i) == first + (second + third);
    RecordsTrans(st.tasks[i], first, ready.tasks[i], second + third, Serve(sys, ready).tasks[i]);
  }

  lemma {:induction false} RunRecorded(sys: System, t: nat, i: nat)
    requires ValidSystem(sys) && i < |sys.specs|
    ensures Records(At(sys, 0).tasks[i], EventsAt(sys, t, i), At(sys, t).tasks[i])
  {
    hide At, Step, EventsAt, StepEvents, Records;
    EventsStart(sys, t, i);
    if t == 0 {
      NothingRecorded(At(sys, 0).tasks[i]);
    } else {
      RunRecorded(sys, t - 1, i);
      StepRecorded(sys, At(sys, t - 1), i);
      RecordsTrans(At(sys, 0).tasks[i], EventsAt(sys, t - 1, i), At(sys, t - 1).tasks[i],
                   StepEvents(sys, At(sys, t - 1), i), At(sys, t).tasks[i]);
    }
  }

  lemma EventsStart(sys: System, t: nat, i: nat)
    requires ValidSystem(sys) && i < |sys.specs|
    ensures t == 0 ==> EventsAt(sys, t, i) == []
    ensures t > 0 ==> At(sys, t) == Step(sys, At(sys, t - 1))
    ensures t > 0 ==> EventsAt(sys, t, i) == EventsAt(sys, t - 1, i) + StepEvents(sys, At(sys, t - 1), i)
  {
    hide Step, StepEvents;
  }

  lemma NothingAtStart(sys: System, i: nat)
    requires ValidSystem(sys) && i < |sys.specs|
    ensures var ts := At(sys, 0).tasks[i];
            && ts.history == [] && ts.utilities == []
            && ts.completions == ts.misses == ts.cancellations == ts.execCancellations == 0
  {
  }

  /**
    At any time of any run a task's outcomes and utilities are those of all events
    reported to it, in their order, and its counters say how many of them were
    completions, late ones, cancellations, and cancellations of started jobs.
   */
  lemma AlwaysRecorded(sys: System, t: nat, i: nat)
    requires ValidSystem(sys) && i < |sys.specs|
    ensures var (ts, events) := (At(sys, t).tasks[i], EventsAt(sys, t, i));
            && ts.history == Outcomes(events) && ts.utilities == Utilities(events)
            && ts.completions == Count(Completion, events) && ts.misses == Count(LateCompletion, events)
            && ts.cancellations == Count(Cancellation, events) && ts.execCancellations == Count(StartedCancellation, events)
  {
    hide At, EventsAt;
    NothingAtStart(sys, i);
    RunRecorded(sys, t, i);
  }

  /**
    At any time of any run, a task's utility window shows its monitor's outcomes
    if and only if none of its last k events was a late completion.
   */
  lemma RunWindowsAgree(sys: System, t: nat, i: nat, k: nat)
    requires ValidSystem(sys) && i < |sys.specs|
    ensures var ts := At(sys, t).tasks[i];
            && Below(UtilityWindow(k, ts.utilities), Window(k, ts.history))
            && (Same(UtilityWindow(k, ts.utilities), Window(k, ts.history)) <==> RecentlyInTime(k, EventsAt(sys, t, i)))
            && (RecentlySame(k, ts.utilities, ts.history) <==> RecentlyInTime(k, EventsAt(sys, t, i)))
  {
    AlwaysRecorded(sys, t, i);
    hide At, EventsAt;
    WindowsAgree(k, EventsAt(sys, t, i));
    EventsRecorded(k, EventsAt(sys, t, i));
  }

  // ----- What a utility is worth -----

  predicate TimelyCompletion(e: Event) {
    e.Complete? && e.now <= e.deadline
  }

  function Recent(k: nat, events: seq<Event>): seq<Event> {
    if |events| <= k then events else events[|events| - k..]
  }

  lemma {:induction false} TotalCounts(events: seq<Event>)
    ensures Total(Utilities(events)) == Count(TimelyCompletion, events) as real
  {
    if events != [] {
      TotalCounts(events[1..]);
      assert Utilities(events)[1..] == Utilities(events[1..]);
    }
  }

  /** The window is filled up in front of the recent utilities. */
  lemma RecentWindow(k: nat, events: seq<Event>)
    ensures var missing := if |events| < k then k - |events| else 0;
            UtilityWindow(k, Utilities(events)) == seq(missing, _ => 1.0) + Utilities(Recent(k, events))
  {
  }

  lemma WindowCounts(k: nat, events: seq<Event>)
    ensures Total(UtilityWindow(k, Utilities(events)))
         == Count(TimelyCompletion, Recent(k, events)) as real + (if |events| < k then k - |events| else 0) as real
  {
    hide Total, Count, UtilityWindow, Utilities, Recent;
    var missing := if |events| < k then k - |events| else 0;
    RecentWindow(k, events);
    TotalCounts(Recent(k, events));
    TotalOfOnes(missing);
    TotalAppend(seq(missing, _ => 1.0), Utilities(Recent(k, events)));
  }

  lemma TimesQuotient(x: real, m: nat)
    requires m > 0
    ensures x / m as real * m as real == x
  {
  }

  /** The utility is the number of timely completions among the last k events, missing events counting as such, over m. */
  lemma UtilityCounts(m: nat, k: nat, events: seq<Event>)
    requires m > 0
    ensures UtilityAfter(m, k, Utilities(events)) * m as real
         == Count(TimelyCompletion, Recent(k, events)) as real + (if |events| < k then k - |events| else 0) as real
  {
    hide UtilityWindow, Total, Count, Utilities, Recent;
    WindowCounts(k, events);
    TimesQuotient(Total(UtilityWindow(k, Utilities(events))), m);
  }
}
