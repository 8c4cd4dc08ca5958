/**
  Jobs (src/core/job.cpp) and the list that monitors their deadlines
  (src/core/deadlinemonitor.cpp).
 */
module Jobs {
  import opened Machine

  class Job {
    /** The owner's position in the task set. */
    const task: nat
    const jobId: nat
    const activationTime: int
    const executionTime: nat
    const absDeadline: int
    const priority: nat
    var etRemain: nat
    var latestStartTime: int
    var preemptions: nat

    ghost predicate Valid()
      reads this
    {
      latestStartTime == absDeadline - etRemain
    }

    constructor (task: nat, jobId: nat, activationTime: int, executionTime: nat, absDeadline: int, priority: nat)
      ensures Valid()
      ensures View() == JobV(task, jobId, activationTime, executionTime, absDeadline, priority, executionTime)
    {
      this.task, this.jobId, this.activationTime := task, jobId, activationTime;
      this.executionTime, this.absDeadline, this.priority := executionTime, absDeadline, priority;
      etRemain, preemptions := executionTime, 0;
      latestStartTime := absDeadline - executionTime;
    }

    /** The job as a value. */
    function View(): JobV
      reads this
    {
      JobV(task, jobId, activationTime, executionTime, absDeadline, priority, etRemain)
    }

    /** One time unit of execution; tells whether the job is finished. */
    method ExecStep() returns (finished: bool)
      requires Valid() && etRemain >= 1
      modifies `etRemain, `latestStartTime
      ensures Valid() && etRemain == old(etRemain) - 1
      ensures latestStartTime == old(latestStartTime) + 1
      ensures finished <==> etRemain == 0
    {
      etRemain := etRemain - 1;
      latestStartTime := absDeadline - etRemain;
      finished := etRemain <= 0;
    }

    method Preempt()
      modifies `preemptions
      ensures preemptions == old(preemptions) + 1
    {
      preemptions := preemptions + 1;
    }
  }

  function Views(s: seq<Job>): (r: seq<JobV>)
    reads s
    ensures |r| == |s|
    ensures forall i :: 0 <= i < |s| ==> r[i] == s[i].View()
  {
    seq(|s|, i requires 0 <= i < |s| reads s => s[i].View())
  }

  ghost predicate Distinct(s: seq<Job>) {
    forall i, j :: 0 <= i < j < |s| ==> s[i] != s[j]
  }

  /** Inserting x at position p. */
  function Inserted(s: seq<Job>, p: nat, x: Job): seq<Job>
    requires p <= |s|
  {
    s[..p] + [x] + s[p..]
  }

  /** Erasing the entry at position p. */
  function Erased(s: seq<Job>, p: nat): seq<Job>
    requires p < |s|
  {
    s[..p] + s[p + 1..]
  }

  lemma InsertedElements(s: seq<Job>, p: nat, x: Job)
    requires p <= |s| && Distinct(s) && x !in s
    ensures Distinct(Inserted(s, p, x))
    ensures forall y :: y in Inserted(s, p, x) <==> y in s || y == x
  {
    assert forall y :: y in s ==> y in s[..p] || y in s[p..];
    var r := Inserted(s, p, x);
    assert forall i :: 0 <= i < |r| ==> r[i] == if i < p then s[i] else if i == p then x else s[i - 1];
  }

  lemma ErasedElements(s: seq<Job>, p: nat)
    requires p < |s| && Distinct(s)
    ensures Distinct(Erased(s, p))
    ensures forall y :: y in Erased(s, p) <==> y in s && y != s[p]
  {
    var r := Erased(s, p);
    assert forall i :: 0 <= i < |r| ==> r[i] == if i < p then s[i] else s[i + 1];
    forall y | y in s && y != s[p]
      ensures y in r
    {
      var i :| 0 <= i < |s| && s[i] == y;
      assert r[if i < p then i else i - 1] == y;
    }
  }

  /** Jobs in the order of their latest start times. */
  ghost predicate ByLatestStart(s: seq<Job>)
    reads s
  {
    forall i, j :: 0 <= i < j < |s| ==> s[i].latestStartTime <= s[j].latestStartTime
  }

  lemma ErasedSorted(s: seq<Job>, p: nat)
    requires p < |s|
    requires forall i, j :: 0 <= i < j < |s| && i != p && j != p ==> s[i].latestStartTime <= s[j].latestStartTime
    ensures ByLatestStart(Erased(s, p))
  {
    var r := Erased(s, p);
    assert forall i :: 0 <= i < |r| ==> r[i] == if i < p then s[i] else s[i + 1];
  }

  lemma PopFront(s: seq<Job>)
    requires s != [] && Distinct(s)
    ensures Distinct(s[1..])
    ensures ByLatestStart(s) ==> ByLatestStart(s[1..])
    ensures forall y :: y in s[1..] <==> y in s && y != s[0]
  {
    ErasedElements(s, 0);
    if ByLatestStart(s) {
      ErasedSorted(s, 0);
    }
    assert Erased(s, 0) == s[1..];
  }

  lemma FrontStartsFirst(s: seq<Job>)
    requires s != [] && ByLatestStart(s)
    ensures forall y :: y in s ==> s[0].latestStartTime <= y.latestStartTime
  {
  }

  lemma InsertedSorted(s: seq<Job>, p: nat, x: Job)
    requires p <= |s| && ByLatestStart(s)
    requires p > 0 ==> s[p - 1].latestStartTime <= x.latestStartTime
    requires p < |s| ==> x.latestStartTime <= s[p].latestStartTime
    ensures ByLatestStart(Inserted(s, p, x))
  {
    var r := Inserted(s, p, x);
    assert forall i :: 0 <= i < |r| ==> r[i] == if i < p then s[i] else if i == p then x else s[i - 1];
  }

  /** The order `jobs` has after the latest start time of `job` has grown. */
  ghost predicate SortedBut(s: seq<Job>, job: Job)
    reads s, job
  {
    forall i, j :: 0 <= i < j < |s| && s[i] != job ==> s[i].latestStartTime <= s[j].latestStartTime
  }

  /** When the next job does not start earlier, the whole list is still in order. */
  lemma StillSorted(s: seq<Job>, p: nat)
    requires p < |s| && SortedBut(s, s[p])
    requires p + 1 < |s| ==> s[p].latestStartTime <= s[p + 1].latestStartTime
    requires Distinct(s)
    ensures ByLatestStart(s)
  {
    forall i, j | 0 <= i < j < |s|
      ensures s[i].latestStartTime <= s[j].latestStartTime
    {
      if i == p && j > p + 1 {
        assert s[p + 1].latestStartTime <= s[j].latestStartTime;
      }
    }
  }

  ghost function StartTimes(s: seq<Job>): (r: seq<int>)
    reads s
    ensures |r| == |s|
    ensures forall i :: 0 <= i < |s| ==> r[i] == s[i].latestStartTime
    ensures ByLatestStart(s) ==> forall i, j :: 0 <= i < j < |r| ==> r[i] <= r[j]
  {
    seq(|s|, i requires 0 <= i < |s| reads s => s[i].latestStartTime)
  }

  lemma SortedIsSortedBut(s: seq<Job>, job: Job)
    requires ByLatestStart(s)
    ensures SortedBut(s, job)
  {
  }

  lemma SortedWithout(s: seq<Job>, job: Job)
    requires SortedBut(s, job) && job !in s
    ensures ByLatestStart(s)
  {
  }

  /** The job stands behind those that start no later, in front of the first that starts later. */
  ghost predicate AddedAt(before: seq<Job>, after: seq<Job>, it: nat, job: Job)
    reads before, job
  {
    && it <= |before| && after == Inserted(before, it, job)
    && (forall i :: 0 <= i < it ==> before[i].latestStartTime <= job.latestStartTime)
    && (it < |before| ==> before[it].latestStartTime > job.latestStartTime)
  }

  /** The job at position p has gone behind those after it that start earlier, to position q. */
  ghost predicate MovedBack(before: seq<Job>, after: seq<Job>, p: nat, q: nat, job: Job)
    reads before, job
  {
    && p <= q < |before| && before[p] == job
    && after == Inserted(Erased(before, p), q, job)
    && (forall i :: p < i <= q ==> before[i].latestStartTime < job.latestStartTime)
    && (q + 1 < |before| ==> before[q + 1].latestStartTime >= job.latestStartTime)
  }

  lemma MovedNowhere(s: seq<Job>, p: nat)
    requires p < |s| && (p + 1 < |s| ==> s[p + 1].latestStartTime >= s[p].latestStartTime)
    ensures MovedBack(s, s, p, p, s[p])
  {
    assert Inserted(Erased(s, p), p, s[p]) == s;
  }

  lemma MovedTo(s: seq<Job>, p: nat, q: nat)
    requires p <= q < |s| && |Erased(s, p)| == |s| - 1
    requires forall i :: p <= i < q ==> Erased(s, p)[i].latestStartTime < s[p].latestStartTime
    requires q < |s| - 1 ==> Erased(s, p)[q].latestStartTime >= s[p].latestStartTime
    ensures MovedBack(s, Inserted(Erased(s, p), q, s[p]), p, q, s[p])
  {
    var rest := Erased(s, p);
    assert forall i :: p <= i < |rest| ==> rest[i] == s[i + 1];
    assert forall i :: p < i <= q ==> s[i] == rest[i - 1];
  }

  lemma Reordered(s: seq<Job>, p: nat, q: nat)
    requires Distinct(s) && p <= q < |s|
    requires forall i :: p <= i < q ==> Erased(s, p)[i].latestStartTime < s[p].latestStartTime
    requires q < |s| - 1 ==> Erased(s, p)[q].latestStartTime >= s[p].latestStartTime
    ensures var r := Inserted(Erased(s, p), q, s[p]);
            && Distinct(r) && (forall y :: y in r <==> y in s)
            && MovedBack(s, r, p, q, s[p])
            && (SortedBut(s, s[p]) ==> ByLatestStart(r))
  {
    MovedTo(s, p, q);
    ErasedElements(s, p);
    hide MovedBack;
    InsertedElements(Erased(s, p), q, s[p]);
    if SortedBut(s, s[p]) {
      ErasedSorted(s, p);
      EarlierInFront(s, p, q);
      hide SortedBut, Erased, Distinct;
      InsertedSorted(Erased(s, p), q, s[p]);
    }
  }

  lemma EarlierInFront(s: seq<Job>, p: nat, q: nat)
    requires Distinct(s) && p <= q < |s| && SortedBut(s, s[p])
    requires forall i :: p <= i < q ==> Erased(s, p)[i].latestStartTime < s[p].latestStartTime
    ensures q > 0 ==> Erased(s, p)[q - 1].latestStartTime <= s[p].latestStartTime
  {
    if 0 < q == p {
      assert Erased(s, p)[q - 1] == s[q - 1] && s[q - 1] != s[p];
    }
  }

  class DeadlineMonitor {
    var jobs: seq<Job>

    constructor ()
      ensures jobs == []
    {
      jobs := [];
    }

    /** The list is in order. */
    ghost predicate Sorted()
      reads this, jobs
    {
      ByLatestStart(jobs)
    }

    method AddJob(job: Job)
      requires Distinct(jobs) && job !in jobs
      modifies this
      ensures Distinct(jobs)
      ensures old(Sorted()) ==> Sorted()
      ensures forall y :: y in jobs <==> y in old(jobs) || y == job
      ensures exists it: nat :: AddedAt(old(jobs), jobs, it, job)
    {
      var it := 0;
      while it < |jobs| && jobs[it].latestStartTime <= job.latestStartTime
        invariant it <= |jobs|
        invariant forall i :: 0 <= i < it ==> jobs[i].latestStartTime <= job.latestStartTime
        invariant it > 0 ==> jobs[it - 1].latestStartTime <= job.latestStartTime
      {
        it := it + 1;
      }
      hide Inserted, Distinct, ByLatestStart;
      InsertedElements(jobs, it, job);
      if Sorted() {
        InsertedSorted(jobs, it, job);
      }
      ghost var before := jobs;
      jobs := Inserted(jobs, it, job);
      assert AddedAt(before, jobs, it, job);
    }

    /** Takes out the first job if it can no longer meet its deadline. */
    method Check(now: int) returns (job: Job?)
      requires Distinct(jobs) && Sorted()
      modifies this
      ensures Distinct(jobs) && Sorted()
      ensures job == null ==> jobs == old(jobs) && forall y :: y in jobs ==> y.latestStartTime >= now
      ensures job != null ==> job in old(jobs) && job.latestStartTime < now
      ensures job != null ==> forall y :: y in jobs <==> y in old(jobs) && y != job
      ensures job != null ==> |old(jobs)| > 0 && job == old(jobs)[0] && jobs == old(jobs)[1..]
    {
      if |jobs| == 0 {
        return null;
      }
      if jobs[0].latestStartTime < now {
        job := jobs[0];
        PopFront(jobs);
        hide Distinct, ByLatestStart;
        jobs := jobs[1..];
      } else {
        FrontStartsFirst(jobs);
        return null;
      }
    }

    method Find(job: Job) returns (it: nat)
      ensures it <= |jobs| && job !in jobs[..it]
      ensures it < |jobs| ==> jobs[it] == job
      ensures it == |jobs| ==> job !in jobs
    {
      it := 0;
      while it < |jobs| && jobs[it] != job
        invariant it <= |jobs| && job !in jobs[..it]
      {
        it := it + 1;
      }
    }

    /** Restores the order after the latest start time of `job` has grown. */
    method JobExecuted(job: Job) returns (found: bool)
      requires Distinct(jobs)
      modifies this
      ensures Distinct(jobs)
      ensures old(SortedBut(jobs, job)) ==> Sorted()
      ensures found <==> job in old(jobs)
      ensures forall y :: y in jobs <==> y in old(jobs)
      ensures !found ==> jobs == old(jobs)
      ensures found ==> exists p: nat, q: nat :: MovedBack(old(jobs), jobs, p, q, job)
    {
      var itJob := Find(job);
      if itJob == |jobs| {
        if SortedBut(jobs, job) {
          SortedWithout(jobs, job);
        }
        return false;
      }
      var it := itJob + 1;
      if it == |jobs| || jobs[it].latestStartTime >= job.latestStartTime {
        MovedNowhere(jobs, itJob);
        if SortedBut(jobs, job) {
          StillSorted(jobs, itJob);
        }
        return true;
      }
      Reorder(itJob, job);
      return true;
    }

    /** The scan for the first job that does not start earlier. */
    static method BehindEarlier(rest: seq<Job>, start: nat, job: Job) returns (it: nat)
      requires start <= |rest|
      ensures start <= it <= |rest|
      ensures forall i :: start <= i < it ==> rest[i].latestStartTime < job.latestStartTime
      ensures it < |rest| ==> rest[it].latestStartTime >= job.latestStartTime
    {
      it := start;
      while it < |rest| && rest[it].latestStartTime < job.latestStartTime
        invariant start <= it <= |rest|
        invariant forall i :: start <= i < it ==> rest[i].latestStartTime < job.latestStartTime
      {
        it := it + 1;
      }
    }

    /** Takes the job out and puts it back behind those that start earlier. */
    method Reorder(itJob: nat, job: Job)
      requires Distinct(jobs) && itJob < |jobs| && jobs[itJob] == job
      modifies this
      ensures Distinct(jobs)
      ensures old(SortedBut(jobs, job)) ==> Sorted()
      ensures forall y :: y in jobs <==> y in old(jobs)
      ensures exists q: nat :: MovedBack(old(jobs), jobs, itJob, q, job)
    {
      ghost var before := jobs;
      var rest := Erased(jobs, itJob);
      hide Distinct, ByLatestStart, MovedBack, SortedBut;
      var it := BehindEarlier(rest, itJob, job);
      Reordered(before, itJob, it);
      jobs := Inserted(rest, it, job);
      assert MovedBack(before, jobs, itJob, it, job);
    }

    method RemoveJob(job: Job) returns (found: bool)
      requires Distinct(jobs)
      modifies this
      ensures Distinct(jobs)
      ensures old(SortedBut(jobs, job)) ==> Sorted()
      ensures found <==> job in old(jobs)
      ensures !found ==> jobs == old(jobs)
      ensures forall y :: y in jobs <==> y in old(jobs) && y != job
      ensures found ==> exists p: nat :: p < |old(jobs)| && old(jobs)[p] == job && jobs == Erased(old(jobs), p)
    {
      var it := Find(job);
      if it == |jobs| {
        if SortedBut(jobs, job) {
          SortedWithout(jobs, job);
        }
        return false;
      }
      ErasedElements(jobs, it);
      if SortedBut(jobs, job) {
        ErasedSorted(jobs, it);
      }
      hide Erased, Distinct, ByLatestStart;
      jobs := Erased(jobs, it);
      return true;
    }
  }
}
