/**
  Plain periodic tasks bear every cancellation: they never end a run, whatever the
  scheduler, the configuration and the other tasks.
 */
module PeriodicTasks {
  import opened Machine

  ghost predicate AllPeriodic(specs: seq<TaskSpec>) {
    forall i :: 0 <= i < |specs| ==> specs[i].model.Periodic?
  }

  lemma {:induction false} PeriodicNeverObjects(specs: seq<TaskSpec>, tasks: seq<TaskState>, jobs: seq<JobV>)
    requires |specs| == |tasks| && Owned(jobs, |specs|) && AllPeriodic(specs)
    ensures CancelAll(specs, tasks, jobs).1
    decreases |jobs|
  {
    if jobs != [] {
      PeriodicNeverObjects(specs, tasks[jobs[0].task := CancelledJob(tasks[jobs[0].task], jobs[0])], jobs[1..]);
    }
  }

  /** The jobs of tasks that are not plain periodic ones. */
  function OfOthers(specs: seq<TaskSpec>, jobs: seq<JobV>): (r: seq<JobV>)
    requires Owned(jobs, |specs|)
    ensures Owned(r, |specs|)
  {
    if jobs == [] then []
    else (if specs[jobs[0].task].model.Periodic? then [] else [jobs[0]]) + OfOthers(specs, jobs[1..])
  }

  /** The states of all tasks but the plain periodic ones are the same. */
  ghost predicate OthersAgree(specs: seq<TaskSpec>, tasks: seq<TaskState>, tasks': seq<TaskState>) {
    && |specs| == |tasks| == |tasks'|
    && forall i :: 0 <= i < |specs| && !specs[i].model.Periodic? ==> tasks[i] == tasks'[i]
  }

  /** Cancelling jobs of plain periodic tasks changes neither the collected answer nor what other tasks record. */
  lemma {:induction false} PeriodicAnswersDoNotCount(specs: seq<TaskSpec>, tasks: seq<TaskState>, tasks': seq<TaskState>, jobs: seq<JobV>)
    requires OthersAgree(specs, tasks, tasks') && Owned(jobs, |specs|)
    ensures CancelAll(specs, tasks, jobs).1 == CancelAll(specs, tasks', OfOthers(specs, jobs)).1
    ensures OthersAgree(specs, CancelAll(specs, tasks, jobs).0, CancelAll(specs, tasks', OfOthers(specs, jobs)).0)
    decreases |jobs|
  {
    if jobs != [] {
      var (job, rest) := (jobs[0], jobs[1..]);
      var after := tasks[job.task := CancelledJob(tasks[job.task], job)];
      if specs[job.task].model.Periodic? {
        assert OfOthers(specs, jobs) == OfOthers(specs, rest);
        PeriodicAnswersDoNotCount(specs, after, tasks', rest);
      } else {
        var after' := tasks'[job.task := CancelledJob(tasks'[job.task], job)];
        assert OfOthers(specs, jobs)[0] == job && OfOthers(specs, jobs)[1..] == OfOthers(specs, rest);
        PeriodicAnswersDoNotCount(specs, after, after', rest);
      }
    }
  }

  /** In a set of plain periodic tasks no step is refused, whatever it cancels. */
  lemma PeriodicStepAccepted(sys: System, st: State)
    requires ValidSystem(sys) && ValidState(sys, st) && AllPeriodic(sys.specs)
    ensures Accepted(sys, st)
  {
    SurvivorsAndDoomed(sys.config, st.now, st.sched);
    PeriodicNeverObjects(sys.specs, st.tasks, Doomed(sys.config, st.now, st.sched));
    var ready := Ready(sys, st);
    DecisionPartitions(sys, ready);
    hide Ready, Decide, Doomed;
    PeriodicNeverObjects(sys.specs, ready.tasks, Decide(sys, ready).cancelled);
  }

  /** So every run of plain periodic tasks goes on as long as it is told to. */
  lemma PeriodicRunsNeverStop(sys: System, n: nat)
    requires ValidSystem(sys) && AllPeriodic(sys.specs)
    ensures RunFor(sys, Initial(sys), n) == (At(sys, n), true)
  {
    hide At, RunFor, Initial, Accepted;
    forall t: nat | 0 <= t < 0 + n
      ensures Accepted(sys, At(sys, t))
    {
      PeriodicStepAccepted(sys, At(sys, t));
    }
    StartsAtInitial(sys);
    RunFollowsAt(sys, 0, n);
  }
}
