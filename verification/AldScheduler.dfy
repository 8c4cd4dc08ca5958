/**
  The list-dispatch scheduler (src/schedulers/ald.cpp) with the insertions of
  its EDF and FPP subclasses (src/schedulers/edf.cpp, src/schedulers/fpp.cpp).

  The scheduler keeps every pending job in up to three lists at once. The
  contracts say that the lists stay consistent, and that the schedule follows
  the value-level system of Machine.dfy, which has no lists beside it.
 */
module AldScheduling {
  import opened Machine
  import opened MachineInvariants
  import opened Jobs

  /** The schedule after one time unit of its first job. */
  function Executed(s: seq<JobV>): seq<JobV> {
    if s == [] then []
    else if s[0].rem <= 1 then s[1..]
    else [s[0].(rem := s[0].rem - 1)] + s[1..]
  }

  lemma ExecuteSchedule(sys: System, st: State)
    requires ValidState(sys, st)
    ensures Execute(sys, st).sched == Executed(st.sched)
  {
  }

  // ----- The list operations on values -----

  function ErasedV(s: seq<JobV>, p: nat): seq<JobV>
    requires p < |s|
  {
    s[..p] + s[p + 1..]
  }

  lemma ViewsErased(s: seq<Job>, p: nat)
    requires p < |s|
    ensures Views(Erased(s, p)) == ErasedV(Views(s), p)
  {
    var r := Erased(s, p);
    assert forall i :: 0 <= i < |r| ==> r[i] == if i < p then s[i] else s[i + 1];
  }

  lemma ViewsInserted(s: seq<Job>, p: nat, x: Job)
    requires p <= |s|
    ensures Views(Inserted(s, p, x)) == Views(s)[..p] + [x.View()] + Views(s)[p..]
  {
    var r := Inserted(s, p, x);
    assert forall i :: 0 <= i < |r| ==> r[i] == if i < p then s[i] else if i == p then x else s[i - 1];
  }

  /** Enqueue puts the job before the first job of greater key. */
  lemma {:induction false} EnqueueAt(policy: Policy, s: seq<JobV>, job: JobV, p: nat)
    requires p <= |s|
    requires forall i :: 0 <= i < p ==> Key(policy, s[i]) <= Key(policy, job)
    requires p < |s| ==> Key(policy, s[p]) > Key(policy, job)
    ensures Enqueue(policy, s, job) == s[..p] + [job] + s[p..]
  {
    hide Key;
    if p > 0 {
      EnqueueAt(policy, s[1..], job, p - 1);
      assert s == [s[0]] + s[1..];
    }
  }

  /** Taking a doomed job out changes nothing for the others. */
  lemma {:induction false} EraseDoomed(config: Config, now: int, s: seq<JobV>, p: nat)
    requires p < |s| && !Survives(config, now, s[p])
    ensures Survivors(config, now, ErasedV(s, p)) == Survivors(config, now, s)
    ensures multiset(Doomed(config, now, s)) == multiset(Doomed(config, now, ErasedV(s, p))) + multiset{s[p]}
  {
    hide Survives;
    if p == 0 {
      assert ErasedV(s, p) == s[1..];
      assert [] + Survivors(config, now, s[1..]) == Survivors(config, now, s[1..]);
    } else {
      assert ErasedV(s, p)[1..] == ErasedV(s[1..], p - 1);
      EraseDoomed(config, now, s[1..], p - 1);
    }
  }

  lemma {:induction false} OrderedErased(policy: Policy, s: seq<JobV>, p: nat)
    requires Ordered(policy, s) && p < |s|
    ensures Ordered(policy, ErasedV(s, p))
  {
    hide Key;
    if p == 0 {
      assert ErasedV(s, p) == s[1..];
    } else {
      assert ErasedV(s, p)[1..] == ErasedV(s[1..], p - 1);
      OrderedErased(policy, s[1..], p - 1);
      if |s| > 2 && p == 1 {
        assert ErasedV(s, p)[1] == s[2] && s[1..][1] == s[2];
        OrderedFront(policy, s);
      }
    }
  }

  // ----- How the lists agree -----

  /**
    A pending job is monitored or known to be late, never both; and every
    monitored job, and every late one that is not finished, is pending.
   */
  ghost predicate ListsAgree(config: Config, sched: seq<Job>, monitored: seq<Job>, late: seq<Job>, done: set<Job>) {
    && Distinct(sched) && Distinct(monitored) && Distinct(late)
    && (forall j :: j in sched ==> (j in monitored <==> j !in late) && j !in done)
    && (config.dlMissCancellations ==> forall j :: j in monitored ==> j in sched)
    && (forall j :: j in late ==> j in sched || j in done)
    && (forall j :: j in done ==> j in late)
    && (!config.dlMissCancellations || config.execCancellations ==> late == [])
  }

  /** With deadline monitoring the schedule is exactly the monitored jobs and the unfinished late ones. */
  lemma ScheduleIsMonitoredOrLate(config: Config, sched: seq<Job>, monitored: seq<Job>, late: seq<Job>, done: set<Job>)
    requires ListsAgree(config, sched, monitored, late, done) && config.dlMissCancellations
    ensures forall j :: j in sched <==> j in monitored || (j in late && j !in done)
  {
    hide Distinct;
  }

  /** Pending jobs have work to do; those known to be late have started and can no longer finish in time. */
  ghost predicate Timely(sched: seq<Job>, views: seq<JobV>, late: seq<Job>, now: int) {
    && |sched| == |views|
    && (forall i :: 0 <= i < |sched| ==> 1 <= views[i].rem <= views[i].et)
    && (forall i :: 0 <= i < |sched| && sched[i] in late ==> views[i].Started() && views[i].LatestStart() < now)
  }

  lemma ListsAgreeDistinct(config: Config, sched: seq<Job>, monitored: seq<Job>, late: seq<Job>, done: set<Job>)
    requires ListsAgree(config, sched, monitored, late, done)
    ensures Distinct(sched) && Distinct(monitored)
  {
  }

  lemma MonitoredIsPending(config: Config, sched: seq<Job>, monitored: seq<Job>, late: seq<Job>, done: set<Job>, job: Job)
    requires ListsAgree(config, sched, monitored, late, done) && config.dlMissCancellations && job in monitored
    ensures job in sched && job !in late && Distinct(sched)
  {
  }

  lemma ListsAgreeInsert(config: Config, sched: seq<Job>, monitored: seq<Job>, monitored': seq<Job>, late: seq<Job>, done: set<Job>, p: nat, job: Job)
    requires ListsAgree(config, sched, monitored, late, done) && p <= |sched|
    requires job !in sched && job !in late
    requires Distinct(monitored') && forall j :: j in monitored' <==> j in monitored || j == job
    ensures ListsAgree(config, Inserted(sched, p, job), monitored', late, done)
  {
    InsertedElements(sched, p, job);
    hide Inserted, Distinct;
  }

  /** A job leaves the schedule and the monitor. */
  lemma ListsAgreeErase(config: Config, sched: seq<Job>, monitored: seq<Job>, monitored': seq<Job>, late: seq<Job>, done: set<Job>, p: nat)
    requires ListsAgree(config, sched, monitored, late, done) && p < |sched| && sched[p] !in late
    requires Distinct(monitored') && forall j :: j in monitored' <==> j in monitored && j != sched[p]
    ensures ListsAgree(config, Erased(sched, p), monitored', late, done)
  {
    ErasedElements(sched, p);
    hide Erased, Distinct;
  }

  lemma DistinctSnoc(s: seq<Job>, job: Job)
    requires Distinct(s) && job !in s
    ensures Distinct(s + [job])
  {
  }

  /** A monitored job moves to the late jobs. */
  lemma ListsAgreeLate(config: Config, sched: seq<Job>, monitored: seq<Job>, monitored': seq<Job>, late: seq<Job>, done: set<Job>, job: Job)
    requires ListsAgree(config, sched, monitored, late, done)
    requires config.dlMissCancellations && !config.execCancellations && job in monitored
    requires Distinct(monitored') && forall j :: j in monitored' <==> j in monitored && j != job
    ensures ListsAgree(config, sched, monitored', late + [job], done)
  {
    assert job in sched && job !in late;
    DistinctSnoc(late, job);
    hide Distinct;
  }

  lemma TimelyLate(sched: seq<Job>, late: seq<Job>, now: int, job: Job)
    requires Timely(sched, Views(sched), late, now)
    requires job.View().Started() && job.View().LatestStart() < now
    ensures Timely(sched, Views(sched), late + [job], now)
  {
  }

  /** What cancelling the doomed job at position p does to the schedule. */
  lemma CancelAt(policy: Policy, config: Config, now: int, sched: seq<Job>, p: nat)
    requires p < |sched| && Ordered(policy, Views(sched))
    requires !Survives(config, now, sched[p].View())
    ensures Ordered(policy, Views(Erased(sched, p)))
    ensures Survivors(config, now, Views(Erased(sched, p))) == Survivors(config, now, Views(sched))
    ensures multiset(Doomed(config, now, Views(sched)))
            == multiset(Doomed(config, now, Views(Erased(sched, p)))) + multiset{sched[p].View()}
  {
    hide Survives;
    ViewsErased(sched, p);
    OrderedErased(policy, Views(sched), p);
    EraseDoomed(config, now, Views(sched), p);
  }

  lemma NoViews()
    ensures Views([]) == []
  {
  }

  lemma ViewsSnoc(s: seq<Job>, job: Job)
    ensures multiset(Views(s + [job])) == multiset(Views(s)) + multiset{job.View()}
  {
    assert Views(s + [job]) == Views(s) + [job.View()];
  }

  /** When every monitored job can meet its deadline, only survivors are left. */
  lemma CheckedSurvive(config: Config, sched: seq<Job>, monitored: seq<Job>, late: seq<Job>, done: set<Job>, now: int)
    requires ListsAgree(config, sched, monitored, late, done)
    requires Timely(sched, Views(sched), late, now)
    requires forall j :: j in sched ==> j.Valid()
    requires config.dlMissCancellations ==> forall j :: j in monitored ==> j.latestStartTime >= now
    ensures Survivors(config, now, Views(sched)) == Views(sched) && Doomed(config, now, Views(sched)) == []
  {
    forall i | 0 <= i < |sched|
      ensures Survives(config, now, Views(sched)[i])
    {
      assert sched[i] in sched;
    }
    AllSurvive(config, now, Views(sched));
  }

  /** The first job leaves the schedule; a job known to be late is not monitored any more. */
  lemma ListsAgreeFinish(config: Config, sched: seq<Job>, monitored: seq<Job>, monitored': seq<Job>, late: seq<Job>, done: set<Job>)
    requires ListsAgree(config, sched, monitored, late, done) && sched != []
    requires Distinct(monitored') && forall j :: j != sched[0] ==> (j in monitored' <==> j in monitored)
    requires config.dlMissCancellations ==> sched[0] !in monitored'
    ensures ListsAgree(config, sched[1..], monitored', late, if sched[0] in late then done + {sched[0]} else done)
  {
    ErasedElements(sched, 0);
    assert Erased(sched, 0) == sched[1..];
    hide Erased, Distinct;
  }

  lemma TimelyRun(sched: seq<Job>, views: seq<JobV>, late: seq<Job>, now: int)
    requires Timely(sched, views, late, now) && sched != []
    ensures Timely(Remaining(sched, views[0].rem <= 1), Executed(views), late, now + 1)
  {
  }

  lemma OrderedRun(policy: Policy, views: seq<JobV>)
    requires Ordered(policy, views)
    ensures Ordered(policy, Executed(views))
  {
    if views != [] && views[0].rem > 1 {
      assert Executed(views)[1..] == views[1..];
    }
  }

  /** The last time unit of a job ends past its deadline exactly when the job is known to be late. */
  lemma LateIffKnown(config: Config, sched: seq<Job>, monitored: seq<Job>, late: seq<Job>, done: set<Job>, now: int)
    requires ListsAgree(config, sched, monitored, late, done) && config.dlMissCancellations
    requires Timely(sched, Views(sched), late, now) && sched != [] && sched[0].Valid()
    requires forall j :: j in monitored ==> j.latestStartTime >= now
    ensures sched[0] in late <==> sched[0] !in monitored
    ensures sched[0].etRemain == 1 ==> (sched[0].absDeadline <= now <==> sched[0] in late)
  {
    assert sched[0] in sched;
    assert Views(sched)[0] == sched[0].View();
  }

  lemma ListsAgreeReordered(config: Config, sched: seq<Job>, monitored: seq<Job>, monitored': seq<Job>, late: seq<Job>, done: set<Job>)
    requires ListsAgree(config, sched, monitored, late, done)
    requires Distinct(monitored') && forall j :: j in monitored' <==> j in monitored
    ensures ListsAgree(config, sched, monitored', late, done)
  {
    hide Distinct;
  }

  /** What is known of the first job and of the lists when it is about to execute. */
  lemma FrontFacts(policy: Policy, config: Config, sched: seq<Job>, monitored: seq<Job>, late: seq<Job>, done: set<Job>, now: int)
    requires ListsAgree(config, sched, monitored, late, done) && sched != []
    requires Timely(sched, Views(sched), late, now) && Ordered(policy, Views(sched))
    requires forall j :: j in sched ==> j.Valid()
    requires config.dlMissCancellations ==> forall j :: j in monitored ==> j.latestStartTime >= now
    ensures Distinct(sched) && Distinct(monitored)
    ensures sched[0].etRemain >= 1
    ensures config.dlMissCancellations && config.execCancellations ==> late == []
    ensures config.dlMissCancellations ==>
              && (sched[0] in late <==> sched[0] !in monitored)
              && (sched[0].etRemain == 1 ==> (sched[0].absDeadline <= now <==> sched[0] in late))
    ensures Ordered(policy, Executed(Views(sched)))
    ensures Timely(Remaining(sched, sched[0].etRemain <= 1), Executed(Views(sched)), late, now + 1)
  {
    if config.dlMissCancellations {
      LateIffKnown(config, sched, monitored, late, done, now);
    }
    OrderedRun(policy, Views(sched));
    TimelyRun(sched, Views(sched), late, now);
  }

  function Remaining(sched: seq<Job>, fin: bool): seq<Job>
    requires sched != []
  {
    if fin then sched[1..] else sched
  }

  /** The views after the first job's time unit. */
  twostate lemma ViewsRun(sched: seq<Job>)
    requires sched != [] && Distinct(sched)
    requires old(sched[0].etRemain) >= 1 && sched[0].etRemain == old(sched[0].etRemain) - 1
    requires forall i :: 1 <= i < |sched| ==> sched[i].etRemain == old(sched[i].etRemain)
    ensures Views(Remaining(sched, sched[0].etRemain == 0)) == Executed(old(Views(sched)))
  {
  }

  twostate lemma OthersUnchanged(sched: seq<Job>)
    requires sched != [] && Distinct(sched)
    requires forall j :: j in sched && j != sched[0] ==> j.etRemain == old(j.etRemain)
    ensures forall i :: 1 <= i < |sched| ==> sched[i].etRemain == old(sched[i].etRemain)
  {
  }

  /** Only `job` has moved, and only to a later start: the rest of the list is still in order. */
  lemma SortedAfterRun(s: seq<Job>, before: seq<int>, job: Job)
    requires |before| == |s|
    requires forall i, j :: 0 <= i < j < |before| ==> before[i] <= before[j]
    requires forall i :: 0 <= i < |s| ==> before[i] <= s[i].latestStartTime
    requires forall i :: 0 <= i < |s| && s[i] != job ==> before[i] == s[i].latestStartTime
    ensures SortedBut(s, job)
  {
  }

  lemma PendingIsKnown(config: Config, sched: seq<Job>, monitored: seq<Job>, late: seq<Job>, done: set<Job>, job: Job)
    requires ListsAgree(config, sched, monitored, late, done) && job in sched && job !in monitored
    ensures job in late
  {
  }

  /** A job known to be late leaves the schedule and the list of late jobs. */
  lemma ListsAgreeForget(config: Config, sched: seq<Job>, monitored: seq<Job>, monitored': seq<Job>, late: seq<Job>, done: set<Job>,
                         p: nat, i: nat)
    requires ListsAgree(config, sched, monitored, late, done) && p < |sched| && i < |late| && late[i] == sched[p]
    requires Distinct(monitored') && forall j :: j in monitored' <==> j in monitored && j != sched[p]
    ensures ListsAgree(config, Erased(sched, p), monitored', Erased(late, i), done)
  {
    assert sched[p] in sched && late[i] in late;
    ErasedElements(sched, p);
    ErasedElements(late, i);
    hide Erased, Distinct;
  }

  lemma RemovedFromAll(policy: Policy, config: Config, sched: seq<Job>, monitored: seq<Job>, monitored': seq<Job>,
                       late: seq<Job>, late': seq<Job>, done: set<Job>, p: nat, now: int)
    requires ListsAgree(config, sched, monitored, late, done) && p < |sched|
    requires Timely(sched, Views(sched), late, now) && Ordered(policy, Views(sched))
    requires Distinct(monitored') && forall j :: j in monitored' <==> j in monitored && j != sched[p]
    requires if sched[p] in monitored then late' == late
             else exists i :: 0 <= i < |late| && late[i] == sched[p] && late' == Erased(late, i)
    ensures ListsAgree(config, Erased(sched, p), monitored', late', done)
    ensures Timely(Erased(sched, p), Views(Erased(sched, p)), late', now)
    ensures Ordered(policy, Views(Erased(sched, p)))
    ensures forall j :: j in Erased(sched, p) <==> j in sched && j != sched[p]
  {
    ErasedElements(sched, p);
    TimelyErase(sched, late, now, p);
    ViewsErased(sched, p);
    OrderedErased(policy, Views(sched), p);
    hide Timely, Ordered, Views;
    if sched[p] in monitored {
      assert sched[p] in sched;
      ListsAgreeErase(config, sched, monitored, monitored', late, done, p);
    } else {
      var i :| 0 <= i < |late| && late[i] == sched[p] && late' == Erased(late, i);
      ListsAgreeForget(config, sched, monitored, monitored', late, done, p, i);
      TimelyForget(Erased(sched, p), late, i, now);
    }
  }

  lemma TimelyForget(sched: seq<Job>, late: seq<Job>, i: nat, now: int)
    requires i < |late| && Timely(sched, Views(sched), late, now)
    ensures Timely(sched, Views(sched), Erased(late, i), now)
  {
    assert forall j :: j in Erased(late, i) ==> j in late;
  }

  lemma TimelyInsert(sched: seq<Job>, late: seq<Job>, now: int, p: nat, job: Job)
    requires Timely(sched, Views(sched), late, now) && p <= |sched|
    requires job !in late && 1 <= job.etRemain <= job.executionTime
    ensures Timely(Inserted(sched, p, job), Views(Inserted(sched, p, job)), late, now)
  {
    var r := Inserted(sched, p, job);
    assert forall i :: 0 <= i < |r| ==> r[i] == if i < p then sched[i] else if i == p then job else sched[i - 1];
  }

  lemma TimelyErase(sched: seq<Job>, late: seq<Job>, now: int, p: nat)
    requires Timely(sched, Views(sched), late, now) && p < |sched|
    ensures Timely(Erased(sched, p), Views(Erased(sched, p)), late, now)
  {
    var r := Erased(sched, p);
    assert forall i :: 0 <= i < |r| ==> r[i] == if i < p then sched[i] else sched[i + 1];
  }

  class AldScheduler {
    const policy: Policy
    const config: Config
    var mySchedule: seq<Job>
    const dlmon: DeadlineMonitor
    /** Late jobs that are still executed; finished ones are never erased. */
    var execMissJobs: seq<Job>
    /** The late jobs among them that are finished. */
    ghost var finishedLate: set<Job>
    var currentJob: Job?
    var scheduleChanged: bool

    constructor (policy: Policy, config: Config)
      ensures this.policy == policy && this.config == config
      ensures fresh(dlmon) && mySchedule == [] && execMissJobs == [] && dlmon.jobs == []
      ensures forall now :: Valid(now)
    {
      this.policy, this.config := policy, config;
      mySchedule, execMissJobs := [], [];
      finishedLate := {};
      currentJob, scheduleChanged := null, false;
      dlmon := new DeadlineMonitor();
    }

    ghost predicate Valid(now: int)
      reads this, dlmon, mySchedule, dlmon.jobs
    {
      ValidWith(dlmon.jobs, now)
    }

    /** The lists are consistent when the monitored jobs are those given. */
    ghost predicate ValidWith(monitored: seq<Job>, now: int)
      reads this, dlmon, mySchedule, dlmon.jobs
    {
      && ListsAgree(config, mySchedule, monitored, execMissJobs, finishedLate)
      && Timely(mySchedule, Views(mySchedule), execMissJobs, now)
      && Ordered(policy, Views(mySchedule))
      && (forall j :: j in mySchedule ==> j.Valid())
      && (config.dlMissCancellations ==> dlmon.Sorted())
      && (currentJob != null ==> currentJob in mySchedule)
      && (!scheduleChanged ==> mySchedule == [])
    }

    /** Every monitored job can still meet its deadline. */
    ghost predicate Checked(now: int)
      reads this, dlmon, dlmon.jobs
    {
      config.dlMissCancellations ==> forall j :: j in dlmon.jobs ==> j.latestStartTime >= now
    }

    /** The insertion of FPP and EDF. */
    method EnqueueJob(job: Job, ghost now: int)
      requires Valid(now) && Checked(now)
      requires job.Valid() && 1 <= job.etRemain == job.executionTime && job.latestStartTime >= now
      requires job !in mySchedule && job !in dlmon.jobs && job !in execMissJobs
      modifies this, dlmon
      ensures Valid(now) && Checked(now)
      ensures Views(mySchedule) == Enqueue(policy, old(Views(mySchedule)), job.View())
      ensures forall j :: j in mySchedule <==> j in old(mySchedule) || j == job
      ensures forall j :: j in dlmon.jobs <==> j in old(dlmon.jobs) || j == job
      ensures execMissJobs == old(execMissJobs) && finishedLate == old(finishedLate)
    {
      hide Inserted, Ordered, Enqueue, Views, ByLatestStart, Distinct, Timely, ListsAgree;
      ghost var (sched, monitored) := (mySchedule, dlmon.jobs);
      ListsAgreeDistinct(config, sched, monitored, execMissJobs, finishedLate);
      var it := InsertPosition(job);
      EnqueueOrdered(policy, Views(sched), job.View());
      InsertedElements(sched, it, job);
      TimelyInsert(sched, execMissJobs, now, it, job);
      mySchedule := Inserted(mySchedule, it, job);
      scheduleChanged := true;
      dlmon.AddJob(job);
      ListsAgreeInsert(config, sched, monitored, dlmon.jobs, execMissJobs, finishedLate, it, job);
    }

    /** The scan for the first job of greater key. */
    method InsertPosition(job: Job) returns (it: nat)
      ensures it <= |mySchedule|
      ensures Views(Inserted(mySchedule, it, job)) == Enqueue(policy, Views(mySchedule), job.View())
    {
      it := 0;
      while it < |mySchedule| && Key(policy, mySchedule[it].View()) <= Key(policy, job.View())
        invariant it <= |mySchedule|
        invariant forall i :: 0 <= i < it ==> Key(policy, mySchedule[i].View()) <= Key(policy, job.View())
      {
        it := it + 1;
      }
      EnqueueAt(policy, Views(mySchedule), job.View(), it);
      ViewsInserted(mySchedule, it, job);
    }

    method InternalRemoveJob(job: Job) returns (found: bool, ghost p: nat)
      modifies this
      ensures found <==> job in old(mySchedule)
      ensures found ==> p < |old(mySchedule)| && old(mySchedule)[p] == job && mySchedule == Erased(old(mySchedule), p)
      ensures found ==> scheduleChanged && currentJob == if old(currentJob) == job then null else old(currentJob)
      ensures !found ==> mySchedule == old(mySchedule) && scheduleChanged == old(scheduleChanged) && currentJob == old(currentJob)
      ensures execMissJobs == old(execMissJobs) && finishedLate == old(finishedLate)
    {
      var it := 0;
      while it < |mySchedule| && mySchedule[it] != job
        invariant it <= |mySchedule| && job !in mySchedule[..it]
      {
        it := it + 1;
      }
      p := it;
      if it == |mySchedule| {
        return false, p;
      }
      mySchedule := Erased(mySchedule, it);
      if job == currentJob {
        currentJob := null;
      }
      scheduleChanged := true;
      return true, p;
    }

    /** Cancels the jobs that cannot meet their deadline, or keeps executing those that have started. */
    method InitStep(now: int) returns (cancelled: seq<Job>)
      requires Valid(now)
      modifies this, dlmon
      ensures Valid(now) && Checked(now)
      ensures Views(mySchedule) == Survivors(config, now, old(Views(mySchedule)))
      ensures multiset(Views(cancelled)) == multiset(Doomed(config, now, old(Views(mySchedule))))
      ensures forall j :: j in cancelled ==> j in old(mySchedule)
      ensures forall j :: j in mySchedule ==> j in old(mySchedule)
      ensures finishedLate == old(finishedLate)
    {
      hide Survivors, Doomed, Ordered, Views, ByLatestStart, Distinct, Timely, ListsAgree;
      cancelled := [];
      assert multiset(Views([])) == multiset{} by {
        NoViews();
      }
      if !config.dlMissCancellations {
        CheckedSurvive(config, mySchedule, dlmon.jobs, execMissJobs, finishedLate, now);
        return;
      }
      ghost var before := Views(mySchedule);
      ListsAgreeDistinct(config, mySchedule, dlmon.jobs, execMissJobs, finishedLate);
      while true
        invariant Valid(now) && Distinct(dlmon.jobs) && finishedLate == old(finishedLate)
        invariant Survivors(config, now, Views(mySchedule)) == Survivors(config, now, before)
        invariant multiset(Views(cancelled)) + multiset(Doomed(config, now, Views(mySchedule)))
               == multiset(Doomed(config, now, before))
        invariant forall j :: j in cancelled ==> j in old(mySchedule)
        invariant forall j :: j in mySchedule ==> j in old(mySchedule)
        decreases |dlmon.jobs|
      {
        ghost var monitored := dlmon.jobs;
        var missJob := dlmon.Check(now);
        if missJob == null {
          break;
        }
        cancelled := HandleMiss(missJob, now, cancelled, monitored);
        ListsAgreeDistinct(config, mySchedule, dlmon.jobs, execMissJobs, finishedLate);
      }
      CheckedSurvive(config, mySchedule, dlmon.jobs, execMissJobs, finishedLate, now);
    }

    /** A job that can no longer meet its deadline, just taken from the monitor, is kept as late or cancelled. */
    method HandleMiss(missJob: Job, now: int, cancelled: seq<Job>, ghost monitored: seq<Job>) returns (cancelled': seq<Job>)
      requires ValidWith(monitored, now) && config.dlMissCancellations
      requires missJob in monitored && missJob.latestStartTime < now
      requires Distinct(dlmon.jobs) && forall j :: j in dlmon.jobs <==> j in monitored && j != missJob
      modifies this
      ensures Valid(now)
      ensures Survivors(config, now, Views(mySchedule)) == old(Survivors(config, now, Views(mySchedule)))
      ensures multiset(Views(cancelled')) + multiset(Doomed(config, now, Views(mySchedule)))
           == multiset(Views(cancelled)) + old(multiset(Doomed(config, now, Views(mySchedule))))
      ensures forall j :: j in cancelled' ==> j in cancelled || j in old(mySchedule)
      ensures forall j :: j in mySchedule ==> j in old(mySchedule)
      ensures finishedLate == old(finishedLate)
    {
      hide Survivors, Doomed, Ordered, Views, ByLatestStart, Timely, ListsAgree, Distinct;
      ghost var (sched, late) := (mySchedule, execMissJobs);
      MonitoredIsPending(config, sched, monitored, late, finishedLate, missJob);
      if !config.execCancellations && missJob.etRemain < missJob.executionTime {
        ListsAgreeLate(config, sched, monitored, dlmon.jobs, late, finishedLate, missJob);
        TimelyLate(sched, late, now, missJob);
        execMissJobs := execMissJobs + [missJob];
        cancelled' := cancelled;
      } else {
        cancelled' := cancelled + [missJob];
        ViewsSnoc(cancelled, missJob);
        ghost var found, p := InternalRemoveJob(missJob);
        CancelAt(policy, config, now, sched, p);
        TimelyErase(sched, late, now, p);
        ListsAgreeErase(config, sched, monitored, dlmon.jobs, late, finishedLate, p);
        ErasedElements(sched, p);
      }
    }

    /** `removeJob`, by which a policy takes a pending job out; the job is monitored or known to be late. */
    method RemoveJob(job: Job, ghost now: int) returns (found: bool, ghost p: nat)
      requires Valid(now)
      modifies this, dlmon
      ensures Valid(now)
      ensures old(Checked(now)) ==> Checked(now)
      ensures found <==> job in old(mySchedule)
      ensures found ==> p < |old(mySchedule)| && old(mySchedule)[p] == job && mySchedule == Erased(old(mySchedule), p)
      ensures !found ==> mySchedule == old(mySchedule)
      ensures finishedLate == old(finishedLate)
    {
      hide Ordered, Views, Timely, ListsAgree, Erased, ByLatestStart, Distinct;
      ghost var (sched, monitored, late) := (mySchedule, dlmon.jobs, execMissJobs);
      ListsAgreeDistinct(config, sched, monitored, late, finishedLate);
      if job !in mySchedule {
        return false, 0;
      }
      if config.dlMissCancellations {
        SortedIsSortedBut(monitored, job);
      }
      var monitoredJob := dlmon.RemoveJob(job);
      if !monitoredJob {
        var it := 0;
        while it < |execMissJobs| && execMissJobs[it] != job
          invariant it <= |execMissJobs| && job !in execMissJobs[..it]
        {
          it := it + 1;
        }
        PendingIsKnown(config, sched, monitored, late, finishedLate, job);
        execMissJobs := Erased(execMissJobs, it);
      }
      found, p := InternalRemoveJob(job);
      RemovedFromAll(policy, config, sched, monitored, dlmon.jobs, late, execMissJobs, finishedLate, p, now);
    }

    /** `dispatch`: the first job of the list executes for one time unit. */
    method Dispatch(now: int) returns (finished: Job?, idle: bool, dlMiss: bool)
      requires Valid(now) && Checked(now)
      modifies this, dlmon, mySchedule
      ensures Valid(now + 1)
      ensures Views(mySchedule) == Executed(old(Views(mySchedule)))
      ensures forall j :: j in mySchedule ==> j in old(mySchedule)
      ensures idle <==> old(mySchedule) == []
      ensures finished != null <==> old(mySchedule) != [] && old(mySchedule[0].etRemain) == 1
      ensures old(mySchedule) != [] ==> old(mySchedule[0].etRemain) >= 1
      ensures finished != null ==> finished == old(mySchedule)[0] && finished.etRemain == 0
      ensures dlMiss <==> finished != null && finished.absDeadline <= now
      ensures finished != null && config.dlMissCancellations ==> (dlMiss <==> finished in old(execMissJobs))
      ensures config.dlMissCancellations && config.execCancellations ==> !dlMiss
      ensures execMissJobs == old(execMissJobs)
      ensures finishedLate == old(finishedLate) + if finished in old(execMissJobs) then {finished} else {}
    {
      hide Valid, Executing, Checked, Views;
      SelectJob(now);
      if currentJob == null {
        IdleStep(now);
        return null, true, false;
      }
      idle := false;
      var fin := ExecuteCurrent(now);
      if fin {
        finished := currentJob;
        dlMiss := finished.absDeadline <= now;
        FinishCurrent(now);
      } else {
        finished, dlMiss := null, false;
        KeepCurrent(now);
      }
    }

    /** Nothing is pending, so nothing can be late in the next step. */
    lemma IdleStep(now: int)
      requires Valid(now) && mySchedule == []
      ensures Valid(now + 1)
      ensures Views(mySchedule) == Executed(Views(mySchedule))
    {
    }

    /** The choice of the job to execute: the front of the list. */
    method SelectJob(ghost now: int)
      requires Valid(now)
      modifies `currentJob, mySchedule`preemptions
      ensures Valid(now)
      ensures old(Checked(now)) ==> Checked(now)
      ensures currentJob == if mySchedule == [] then null else mySchedule[0]
      ensures Views(mySchedule) == old(Views(mySchedule))
      ensures forall j :: j in mySchedule ==>
                j.preemptions == old(j.preemptions) + if j == old(currentJob) && j != currentJob then 1 else 0
    {
      hide Ordered, Timely, ListsAgree;
      var prevJob := currentJob;
      if currentJob == null || scheduleChanged {
        if |mySchedule| > 0 {
          currentJob := mySchedule[0];
          if prevJob != null && prevJob != currentJob {
            prevJob.Preempt();
          }
        } else {
          currentJob := null;
        }
      }
      assert Views(mySchedule) == old(Views(mySchedule));
    }

    /** The state of the lists between the job's time unit and the bookkeeping for it. */
    ghost predicate Executing(now: int, fin: bool)
      reads this, dlmon, mySchedule, dlmon.jobs
    {
      && mySchedule != [] && currentJob == mySchedule[0] && scheduleChanged
      && ListsAgree(config, mySchedule, dlmon.jobs, execMissJobs, finishedLate)
      && Distinct(dlmon.jobs)
      && Timely(Remaining(mySchedule, fin), Views(Remaining(mySchedule, fin)), execMissJobs, now + 1)
      && Ordered(policy, Views(Remaining(mySchedule, fin)))
      && (forall j :: j in mySchedule ==> j.Valid())
      && (config.dlMissCancellations ==> SortedBut(dlmon.jobs, mySchedule[0]))
      && (config.dlMissCancellations && mySchedule[0].absDeadline <= now && fin ==> mySchedule[0] !in dlmon.jobs)
    }

    method ExecuteCurrent(now: int) returns (fin: bool)
      requires Valid(now) && Checked(now)
      requires mySchedule != [] && currentJob == mySchedule[0]
      modifies currentJob
      ensures Executing(now, fin)
      ensures Views(Remaining(mySchedule, fin)) == Executed(old(Views(mySchedule)))
      ensures fin <==> old(currentJob.etRemain) == 1
      ensures old(currentJob.etRemain) >= 1
      ensures fin ==> currentJob.etRemain == 0
      ensures fin && config.dlMissCancellations && config.execCancellations ==> currentJob.absDeadline > now
      ensures fin && config.dlMissCancellations ==> (currentJob.absDeadline <= now <==> currentJob in execMissJobs)
    {
      hide Ordered, Timely, ListsAgree, ByLatestStart, Views, Executed, Distinct, SortedBut, StartTimes;
      ghost var starts := StartTimes(dlmon.jobs);
      FrontFacts(policy, config, mySchedule, dlmon.jobs, execMissJobs, finishedLate, now);
      fin := currentJob.ExecStep();
      OthersUnchanged(mySchedule);
      ViewsRun(mySchedule);
      if config.dlMissCancellations {
        SortedAfterRun(dlmon.jobs, starts, currentJob);
      }
    }

    /** The monitor is told about the execution of an unfinished job. */
    method KeepCurrent(now: int)
      requires Executing(now, false)
      modifies dlmon
      ensures Valid(now + 1)
    {
      hide Ordered, Timely, ListsAgree, ByLatestStart, Views, Distinct, SortedBut;
      ghost var monitored := dlmon.jobs;
      var isMonitored := dlmon.JobExecuted(currentJob);
      ListsAgreeReordered(config, mySchedule, monitored, dlmon.jobs, execMissJobs, finishedLate);
    }

    /** A finished job leaves the schedule and, unless it is late, the monitor. */
    method FinishCurrent(now: int)
      requires Executing(now, true)
      modifies this, dlmon
      ensures Valid(now + 1)
      ensures mySchedule == old(mySchedule)[1..] && execMissJobs == old(execMissJobs)
      ensures finishedLate == old(finishedLate) + if old(mySchedule)[0] in execMissJobs then {old(mySchedule)[0]} else {}
    {
      hide Ordered, Timely, ListsAgree, ByLatestStart, Views, Distinct, SortedBut;
      var finishedJob := mySchedule[0];
      ghost var (sched, monitored) := (mySchedule, dlmon.jobs);
      if config.dlMissCancellations && finishedJob !in monitored {
        SortedWithout(monitored, finishedJob);
      }
      mySchedule := mySchedule[1..];
      currentJob := null;
      if finishedJob.absDeadline > now {
        var wasMonitored := dlmon.RemoveJob(finishedJob);
      }
      ListsAgreeFinish(config, sched, monitored, dlmon.jobs, execMissJobs, finishedLate);
      if finishedJob in execMissJobs {
        finishedLate := finishedLate + {finishedJob};
      }
    }
  }
}
