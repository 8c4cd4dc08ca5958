/**
  The EDF feasibility check (src/schedulers/edf.cpp) is exact, and what follows
  from that for the greedy and overload-resolving schedulers built on it.
 */
module EdfFeasibility {
  import opened Machine
  import opened MachineInvariants
  import opened Jobs

  /** Executed one after the other from `time` on, all jobs meet their deadlines. */
  predicate Meets(time: int, s: seq<JobV>)
    decreases |s|
  {
    s == [] || (time + s[0].rem <= s[0].deadline && Meets(time + s[0].rem, s[1..]))
  }

  /** The position of the first job that misses its deadline; the length if none does. */
  function FirstMiss(time: int, s: seq<JobV>): (p: nat)
    ensures p <= |s|
    decreases |s|
  {
    if s == [] || time + s[0].rem > s[0].deadline then 0 else 1 + FirstMiss(time + s[0].rem, s[1..])
  }

  function Total(s: seq<JobV>): nat {
    if s == [] then 0 else s[0].rem + Total(s[1..])
  }

  /** The remaining work with deadlines up to d. */
  function DueWork(s: seq<JobV>, d: int): nat {
    if s == [] then 0 else (if s[0].deadline <= d then s[0].rem else 0) + DueWork(s[1..], d)
  }

  // ----- The check -----

  lemma {:induction false} FirstMissMeets(time: int, s: seq<JobV>)
    ensures FirstMiss(time, s) == |s| <==> Meets(time, s)
    decreases |s|
  {
    if s != [] {
      FirstMissMeets(time + s[0].rem, s[1..]);
    }
  }

  lemma {:induction false} FirstMissAt(time: int, s: seq<JobV>, p: nat)
    requires p < |s| && Meets(time, s[..p]) && time + Total(s[..p]) + s[p].rem > s[p].deadline
    ensures FirstMiss(time, s) == p
    decreases |s|
  {
    if p > 0 {
      assert s[..p][1..] == s[1..][..p - 1];
      FirstMissAt(time + s[0].rem, s[1..], p - 1);
    }
  }

  lemma {:induction false} MeetsSnoc(time: int, s: seq<JobV>, job: JobV)
    ensures Meets(time, s + [job]) <==> Meets(time, s) && time + Total(s) + job.rem <= job.deadline
    ensures Total(s + [job]) == Total(s) + job.rem
    decreases |s|
  {
    if s == [] {
      assert s + [job] == [job];
    } else {
      assert (s + [job])[1..] == s[1..] + [job];
      MeetsSnoc(time + s[0].rem, s[1..], job);
    }
  }

  /** `checkEDFSchedule`: the first job that would miss its deadline, or null. */
  method CheckEDFSchedule(now: int, schedule: seq<Job>) returns (miss: Job?)
    ensures miss == null <==> Meets(now, Views(schedule))
    ensures miss != null ==> FirstMiss(now, Views(schedule)) < |schedule| && miss == schedule[FirstMiss(now, Views(schedule))]
  {
    hide Views, FirstMiss;
    ghost var views := Views(schedule);
    var time := now;
    assert views[..0] == [];
    for i := 0 to |schedule|
      invariant Meets(now, views[..i]) && time == now + Total(views[..i])
    {
      assert views[i] == schedule[i].View();
      time := time + schedule[i].etRemain;
      if time > schedule[i].absDeadline {
        FirstMissAt(now, views, i);
        FirstMissMeets(now, views);
        return schedule[i];
      }
      MeetsSnoc(now, views[..i], views[i]);
      assert views[..i + 1] == views[..i] + [views[i]];
    }
    assert views[..|schedule|] == views;
    return null;
  }

  // ----- Exactness -----

  lemma {:induction false} DueNone(s: seq<JobV>, d: int)
    requires forall j :: j in s ==> j.deadline > d
    ensures DueWork(s, d) == 0
  {
    if s != [] {
      DueNone(s[1..], d);
    }
  }

  /** In any order that meets all deadlines, the work due by d ends by d. */
  lemma {:induction false} MeetsBoundsDue(time: int, s: seq<JobV>, d: int)
    requires Meets(time, s)
    requires exists j :: j in s && j.deadline <= d
    ensures time + DueWork(s, d) <= d
    decreases |s|
  {
    if exists j :: j in s[1..] && j.deadline <= d {
      MeetsBoundsDue(time + s[0].rem, s[1..], d);
    } else {
      DueNone(s[1..], d);
      var j :| j in s && j.deadline <= d;
      assert j == s[0];
    }
  }

  ghost predicate DueInTime(time: int, s: seq<JobV>) {
    forall j :: j in s ==> time + DueWork(s, j.deadline) <= j.deadline
  }

  /** In deadline order it suffices that all due work ends in time. */
  lemma {:induction false} DueInTimeMeets(time: int, s: seq<JobV>)
    requires Ordered(EDF, s) && DueInTime(time, s)
    ensures Meets(time, s)
    decreases |s|
  {
    if s != [] {
      OrderedFront(EDF, s);
      assert s[0] in s;
      forall j | j in s[1..]
        ensures time + s[0].rem + DueWork(s[1..], j.deadline) <= j.deadline
      {
        assert j in s && Key(EDF, s[0]) <= Key(EDF, j);
      }
      DueInTimeMeets(time + s[0].rem, s[1..]);
    }
  }

  lemma {:induction false} DueAppend(s: seq<JobV>, t: seq<JobV>, d: int)
    ensures DueWork(s + t, d) == DueWork(s, d) + DueWork(t, d)
  {
    if s == [] {
      assert s + t == t;
    } else {
      assert (s + t)[1..] == s[1..] + t;
      DueAppend(s[1..], t, d);
    }
  }

  lemma DueWithout(t: seq<JobV>, i: nat, d: int)
    requires i < |t|
    ensures DueWork(t, d) == DueWork([t[i]], d) + DueWork(t[..i] + t[i + 1..], d)
  {
    assert t == t[..i] + ([t[i]] + t[i + 1..]);
    hide DueWork;
    DueAppend(t[..i], [t[i]] + t[i + 1..], d);
    DueAppend([t[i]], t[i + 1..], d);
    DueAppend(t[..i], t[i + 1..], d);
  }

  lemma {:induction false} DuePermutation(s: seq<JobV>, t: seq<JobV>, d: int)
    requires multiset(s) == multiset(t)
    ensures DueWork(s, d) == DueWork(t, d)
    decreases |s|
  {
    assert |s| == |multiset(s)| && |t| == |multiset(t)|;
    if s != [] {
      hide DueWork;
      assert s[0] in multiset(t);
      var i :| 0 <= i < |t| && t[i] == s[0];
      assert s[..0] + s[1..] == s[1..];
      RemovedOnce(s, 0);
      RemovedOnce(t, i);
      DueWithout(s, 0, d);
      DueWithout(t, i, d);
      DuePermutation(s[1..], t[..i] + t[i + 1..], d);
    }
  }

  lemma MeetsIsDueInTime(time: int, s: seq<JobV>)
    requires Meets(time, s)
    ensures DueInTime(time, s)
  {
    forall j | j in s
      ensures time + DueWork(s, j.deadline) <= j.deadline
    {
      MeetsBoundsDue(time, s, j.deadline);
    }
  }

  lemma SameElements(s: seq<JobV>, t: seq<JobV>)
    requires multiset(s) == multiset(t)
    ensures forall j :: j in s <==> j in t
  {
    forall j
      ensures j in s <==> j in t
    {
      assert j in s <==> j in multiset(s);
      assert j in t <==> j in multiset(t);
    }
  }

  /**
    The check on the deadline-ordered list is exact: it finds no miss if and
    only if some order of the same jobs meets every deadline.
   */
  lemma EdfCheckIsExact(now: int, s: seq<JobV>)
    requires Ordered(EDF, s)
    ensures FirstMiss(now, s) == |s| <==> exists p :: multiset(p) == multiset(s) && Meets(now, p)
  {
    FirstMissMeets(now, s);
    if p :| multiset(p) == multiset(s) && Meets(now, p) {
      MeetsIsDueInTime(now, p);
      SameElements(s, p);
      forall j | j in s
        ensures now + DueWork(s, j.deadline) <= j.deadline
      {
        DuePermutation(s, p, j.deadline);
      }
      DueInTimeMeets(now, s);
    }
  }

  // ----- Sublists of feasible lists -----

  /** Any deadline-ordered list with no more due work than a feasible list that contains its jobs is feasible. */
  lemma LessDueMeets(now: int, s: seq<JobV>, t: seq<JobV>)
    requires Ordered(EDF, s) && Meets(now, t)
    requires forall j :: j in s ==> j in t
    requires forall d :: DueWork(s, d) <= DueWork(t, d)
    ensures Meets(now, s)
  {
    MeetsIsDueInTime(now, t);
    DueInTimeMeets(now, s);
  }

  lemma DueEnqueue(s: seq<JobV>, job: JobV, d: int)
    ensures DueWork(Enqueue(EDF, s, job), d) == DueWork(s, d) + if job.deadline <= d then job.rem else 0
  {
    EnqueueElements(EDF, s, job);
    assert multiset(Enqueue(EDF, s, job)) == multiset(s + [job]);
    DuePermutation(Enqueue(EDF, s, job), s + [job], d);
    DueAppend(s, [job], d);
  }
}
