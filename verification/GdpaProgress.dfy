/**
  What one unit of execution changes for GDPA: nothing. A unit later it makes the
  same choices, so its schedule is what the unit leaves of the one before.
 */
module GdpaProgress {
  import opened Machine
  import opened MachineInvariants
  import opened AldScheduling
  import opened EdfFeasibility
  import opened Gdpa
  import opened GdpaOrder

  /** The list that `schedule` goes through once `initStep` has cancelled what is too late. */
  function ListOf(distance: nat -> int, config: Config, now: int, sched: seq<JobV>): seq<JobV> {
    DistanceList(distance, Survivors(config, now, sched))
  }

  /** The schedule it builds. */
  function Choice(distance: nat -> int, config: Config, now: int, sched: seq<JobV>): seq<JobV> {
    Greedy(now, ListOf(distance, config, now, sched))
  }

  // ----- One unit of work for a job -----

  /** The list after the job has been executed for one unit. */
  function Worked(s: seq<JobV>, job: JobV): seq<JobV> {
    if s == [] then []
    else if s[0] == job then Left(job) + s[1..]
    else [s[0]] + Worked(s[1..], job)
  }

  /** What is left of a job after one unit. */
  function Left(job: JobV): seq<JobV> {
    if job.rem <= 1 then [] else [job.(rem := job.rem - 1)]
  }

  lemma {:induction false} WorkedElsewhere(s: seq<JobV>, job: JobV)
    requires job !in s
    ensures Worked(s, job) == s
  {
    if s != [] {
      WorkedElsewhere(s[1..], job);
    }
  }

  lemma {:induction false} WorkedMultiset(s: seq<JobV>, job: JobV)
    requires job in s
    ensures multiset(Worked(s, job)) == multiset(s) - multiset{job} + multiset(Left(job))
  {
    assert s == [s[0]] + s[1..];
    if s[0] != job {
      WorkedMultiset(s[1..], job);
    }
  }

  lemma {:induction false} WorkedSnoc(s: seq<JobV>, last: JobV, job: JobV)
    ensures Worked(s + [last], job) == if job in s || last != job then Worked(s, job) + [last] else s + Left(job)
  {
    if s == [] {
      assert s + [last] == [last];
    } else {
      assert (s + [last])[1..] == s[1..] + [last];
      WorkedSnoc(s[1..], last, job);
    }
  }

  lemma {:induction false} WorkedMembers(s: seq<JobV>, job: JobV)
    ensures forall j :: j in Worked(s, job) ==> j in s || (job in s && j in Left(job))
  {
    if s != [] {
      WorkedMembers(s[1..], job);
    }
  }

  lemma {:induction false} WorkedSorted(distance: nat -> int, s: seq<JobV>, job: JobV)
    requires Sorted(distance, s)
    ensures Sorted(distance, Worked(s, job))
  {
    if s != [] {
      var rest := s[1..];
      if s[0] == job {
        assert job.rem > 1 ==> (Left(job) + rest)[1..] == rest && (Left(job) + rest)[0] == Left(job)[0];
        assert job.rem <= 1 ==> Left(job) + rest == rest;
      } else {
        WorkedSorted(distance, rest, job);
        WorkedMembers(rest, job);
        assert ([s[0]] + Worked(rest, job))[1..] == Worked(rest, job);
      }
    }
  }

  lemma {:induction false} WorkedOrdered(s: seq<JobV>, job: JobV)
    requires Ordered(EDF, s)
    ensures Ordered(EDF, Worked(s, job))
  {
    if s != [] {
      var rest := s[1..];
      OrderedFront(EDF, s);
      if s[0] == job {
        if job.rem > 1 {
          assert forall j :: j in rest ==> j in s;
          PrependOrdered(Left(job)[0], rest);
          assert Left(job) + rest == [Left(job)[0]] + rest;
        } else {
          assert Left(job) + rest == rest;
        }
      } else {
        WorkedOrdered(rest, job);
        WorkedMembers(rest, job);
        forall j | j in Worked(rest, job)
          ensures Key(EDF, s[0]) <= Key(EDF, j)
        {
          if j !in rest {
            assert job in s && Key(EDF, j) == Key(EDF, job);
          }
        }
        PrependOrdered(s[0], Worked(rest, job));
      }
    }
  }

  lemma PrependOrdered(job: JobV, s: seq<JobV>)
    requires Ordered(EDF, s) && forall j :: j in s ==> Key(EDF, job) <= Key(EDF, j)
    ensures Ordered(EDF, [job] + s)
  {
    if s != [] {
      assert ([job] + s)[1..] == s && s[0] in s;
    }
  }

  lemma EnqueueWorkedFront(job: JobV, rest: seq<JobV>, more: JobV)
    requires more != job && forall j :: j in rest ==> Key(EDF, job) <= Key(EDF, j)
    ensures Enqueue(EDF, Left(job) + rest, more) == Worked(Enqueue(EDF, [job] + rest, more), job)
  {
    assert ([job] + rest)[1..] == rest;
    EnqueueFront(rest, more, job);
    if Key(EDF, job) <= Key(EDF, more) {
      var later := Enqueue(EDF, rest, more);
      assert ([job] + later)[1..] == later;
      assert job.rem > 1 ==> (Left(job) + rest)[0] == Left(job)[0] && (Left(job) + rest)[1..] == rest;
      assert job.rem <= 1 ==> Left(job) + rest == rest && Left(job) + later == later;
    } else {
      assert ([more] + ([job] + rest))[1..] == [job] + rest;
      assert job.rem > 1 ==> (Left(job) + rest)[0] == Left(job)[0];
      assert job.rem <= 1 ==> Left(job) + rest == rest;
    }
  }

  lemma {:induction false} EnqueueWorked(s: seq<JobV>, job: JobV, more: JobV)
    requires Ordered(EDF, s) && more != job
    ensures Enqueue(EDF, Worked(s, job), more) == Worked(Enqueue(EDF, s, more), job)
  {
    if s != [] {
      var rest := s[1..];
      assert s == [s[0]] + rest;
      OrderedFront(EDF, s);
      if s[0] == job {
        assert forall j :: j in rest ==> j in s;
        EnqueueWorkedFront(job, rest, more);
      } else {
        EnqueueWorked(rest, job, more);
      }
    }
  }

  /** A job of an earlier deadline than all others goes to the front. */
  lemma EnqueueFront(s: seq<JobV>, more: JobV, front: JobV)
    requires forall j :: j in s ==> Key(EDF, front) <= Key(EDF, j)
    ensures Key(EDF, more) < Key(EDF, front) ==> Enqueue(EDF, s, more) == [more] + s
  {
    assert s != [] ==> s[0] in s;
  }

  lemma {:induction false} EnqueueItself(s: seq<JobV>, job: JobV)
    requires job !in s
    ensures Worked(Enqueue(EDF, s, job), job) == if job.rem <= 1 then s else Enqueue(EDF, s, Left(job)[0])
  {
    if s != [] && s[0].deadline <= job.deadline {
      EnqueueItself(s[1..], job);
      assert s == [s[0]] + s[1..];
    }
  }

  // ----- Due work -----

  lemma {:induction false} DueSub(s: seq<JobV>, t: seq<JobV>, d: int)
    requires multiset(s) <= multiset(t)
    ensures DueWork(s, d) <= DueWork(t, d)
    decreases |s|
  {
    if s != [] {
      assert s[0] in multiset(s) && s[0] in multiset(t);
      var i :| 0 <= i < |t| && t[i] == s[0];
      assert s == [s[0]] + s[1..];
      RemovedOnce(t, i);
      DueWithout(t, i, d);
      DueSub(s[1..], t[..i] + t[i + 1..], d);
    }
  }

  lemma SubMeets(time: int, s: seq<JobV>, t: seq<JobV>)
    requires Ordered(EDF, s) && multiset(s) <= multiset(t) && Meets(time, t)
    ensures Meets(time, s)
  {
    forall j | j in s
      ensures j in t
    {
      assert j in multiset(s);
    }
    forall d
      ensures DueWork(s, d) <= DueWork(t, d)
    {
      DueSub(s, t, d);
    }
    LessDueMeets(time, s, t);
  }

  lemma {:induction false} DueWorked(s: seq<JobV>, job: JobV, d: int)
    requires job.rem >= 1
    ensures DueWork(s, d) <= DueWork(Worked(s, job), d) + 1
  {
    if s != [] {
      if s[0] == job {
        DueAppend(Left(job), s[1..], d);
      } else {
        DueWorked(s[1..], job, d);
      }
    }
  }

  /** A list that is feasible after a unit of a job that is itself in time was feasible before. */
  lemma MeetsBefore(now: int, s: seq<JobV>, job: JobV)
    requires Ordered(EDF, s) && 1 <= job.rem <= job.deadline - now
    requires Meets(now + 1, Worked(s, job))
    ensures Meets(now, s)
  {
    var after := Worked(s, job);
    forall j | j in s
      ensures now + DueWork(s, j.deadline) <= j.deadline
    {
      DueWorked(s, job, j.deadline);
      if exists k :: k in after && k.deadline <= j.deadline {
        MeetsBoundsDue(now + 1, after, j.deadline);
      } else {
        DueNone(after, j.deadline);
        StillThere(s, job, j);
      }
    }
    DueInTimeMeets(now, s);
  }

  lemma {:induction false} StillThere(s: seq<JobV>, job: JobV, j: JobV)
    requires j in s
    ensures j == job || j in Worked(s, job)
    ensures j == job && job.rem > 1 ==> Left(job)[0] in Worked(s, job)
  {
    if s[0] != job && j != s[0] {
      StillThere(s[1..], job, j);
    }
  }

  // ----- The greedy schedule one unit later -----

  lemma TooLate(now: int, s: seq<JobV>, job: JobV)
    requires job.LatestStart() < now
    ensures !Meets(now, Enqueue(EDF, s, job))
  {
    var candidate := Enqueue(EDF, s, job);
    EnqueueElements(EDF, s, job);
    if Meets(now, candidate) {
      MeetsBoundsDue(now, candidate, job.deadline);
      DueEnqueue(s, job, job.deadline);
    }
  }

  /** Jobs that are too late do not influence the schedule. */
  lemma {:induction false} GreedyIgnoresLate(config: Config, now: int, list: seq<JobV>)
    ensures Greedy(now, Survivors(config, now, list)) == Greedy(now, list)
  {
    if list != [] {
      var (rest, last) := (list[..|list| - 1], list[|list| - 1]);
      assert list == rest + [last];
      GreedyIgnoresLate(config, now, rest);
      SurvivorsSnoc(config, now, rest, last);
      if Survives(config, now, last) {
        var s := Survivors(config, now, rest) + [last];
        assert s[..|s| - 1] == Survivors(config, now, rest);
      } else {
        TooLate(now, Greedy(now, rest), last);
        assert Survivors(config, now, rest) + [] == Survivors(config, now, rest);
      }
    }
  }

  lemma {:induction false} SurvivorsSnoc(config: Config, now: int, s: seq<JobV>, last: JobV)
    ensures Survivors(config, now, s + [last])
         == Survivors(config, now, s) + if Survives(config, now, last) then [last] else []
  {
    if s == [] {
      assert s + [last] == [last];
    } else {
      assert (s + [last])[1..] == s[1..] + [last];
      SurvivorsSnoc(config, now, s[1..], last);
    }
  }

  lemma {:induction false} GreedyOfLate(now: int, list: seq<JobV>)
    requires forall j :: j in list ==> j.LatestStart() < now
    ensures Greedy(now, list) == []
  {
    if list != [] {
      GreedyOfLate(now, list[..|list| - 1]);
      TooLate(now, [], list[|list| - 1]);
    }
  }

  lemma GreedyLast(now: int, rest: seq<JobV>, last: JobV)
    ensures var (chosen, candidate) := (Greedy(now, rest), Enqueue(EDF, Greedy(now, rest), last));
            Greedy(now, rest + [last]) == if Meets(now, candidate) then candidate else chosen
  {
    assert (rest + [last])[..|rest|] == rest;
  }

  /** A feasible schedule whose first job has work to do. */
  ghost predicate Running(now: int, whole: seq<JobV>) {
    whole != [] && Ordered(EDF, whole) && Meets(now, whole) && whole[0].rem >= 1
  }

  lemma RunningWorked(now: int, whole: seq<JobV>)
    requires Running(now, whole)
    ensures Worked(whole, whole[0]) == Executed(whole) && Meets(now + 1, Worked(whole, whole[0]))
    ensures 1 <= whole[0].rem <= whole[0].deadline - now
  {
    var (job, rest) := (whole[0], whole[1..]);
    if job.rem > 1 {
      var s := [job.(rem := job.rem - 1)] + rest;
      assert s[0].rem == job.rem - 1 && s[1..] == rest;
    } else {
      assert [] + rest == rest;
    }
  }

  lemma PartOfWorked(s: seq<JobV>, whole: seq<JobV>, job: JobV)
    requires multiset(s) <= multiset(whole) && job in whole
    ensures multiset(Worked(s, job)) <= multiset(Worked(whole, job))
  {
    WorkedMultiset(whole, job);
    if job in s {
      WorkedMultiset(s, job);
    } else {
      WorkedElsewhere(s, job);
      assert job !in multiset(s);
    }
  }

  /** What belongs to the schedule is feasible one unit later; what is feasible then was so before. */
  lemma CandidateWorked(now: int, candidate: seq<JobV>, whole: seq<JobV>)
    requires Running(now, whole) && Ordered(EDF, candidate)
    ensures multiset(candidate) <= multiset(whole) ==> Meets(now + 1, Worked(candidate, whole[0]))
    ensures Meets(now + 1, Worked(candidate, whole[0])) ==> Meets(now, candidate)
  {
    var job := whole[0];
    hide Meets, Worked, Ordered;
    RunningWorked(now, whole);
    WorkedOrdered(candidate, job);
    if multiset(candidate) <= multiset(whole) {
      PartOfWorked(candidate, whole, job);
      SubMeets(now + 1, Worked(candidate, job), Worked(whole, job));
    }
    if Meets(now + 1, Worked(candidate, job)) {
      MeetsBefore(now, candidate, job);
    }
  }

  lemma OtherJobLast(now: int, rest: seq<JobV>, last: JobV, whole: seq<JobV>)
    requires Running(now, whole) && last != whole[0]
    requires multiset(Greedy(now, rest + [last])) <= multiset(whole)
    requires Greedy(now + 1, Worked(rest, whole[0])) == Worked(Greedy(now, rest), whole[0])
    ensures Greedy(now + 1, Worked(rest + [last], whole[0])) == Worked(Greedy(now, rest + [last]), whole[0])
  {
    var (job, chosen) := (whole[0], Greedy(now, rest));
    var candidate := Enqueue(EDF, chosen, last);
    GreedyIsMaximal(now, rest);
    EnqueueOrdered(EDF, chosen, last);
    hide Greedy, Meets, Enqueue, Worked, Ordered;
    GreedyLast(now, rest, last);
    GreedyLast(now + 1, Worked(rest, job), last);
    WorkedSnoc(rest, last, job);
    EnqueueWorked(chosen, job, last);
    CandidateWorked(now, candidate, whole);
  }

  lemma SameJobLast(now: int, rest: seq<JobV>, whole: seq<JobV>)
    requires Running(now, whole) && whole[0] !in rest
    requires whole[0] in Greedy(now, rest + [whole[0]])
    requires multiset(Greedy(now, rest + [whole[0]])) <= multiset(whole)
    requires Greedy(now + 1, Worked(rest, whole[0])) == Worked(Greedy(now, rest), whole[0])
    ensures Greedy(now + 1, Worked(rest + [whole[0]], whole[0])) == Worked(Greedy(now, rest + [whole[0]]), whole[0])
  {
    var (job, chosen) := (whole[0], Greedy(now, rest));
    var candidate := Enqueue(EDF, chosen, job);
    GreedyIsMaximal(now, rest);
    MembersOf(chosen, rest);
    EnqueueOrdered(EDF, chosen, job);
    hide Greedy, Meets, Enqueue, Worked, Ordered;
    WorkedElsewhere(rest, job);
    WorkedElsewhere(chosen, job);
    WorkedSnoc(rest, job, job);
    EnqueueItself(chosen, job);
    GreedyLast(now, rest, job);
    CandidateWorked(now, candidate, whole);
    if job.rem > 1 {
      GreedyLast(now + 1, rest, Left(job)[0]);
    } else {
      assert rest + Left(job) == rest;
    }
  }

  lemma MembersOf(s: seq<JobV>, t: seq<JobV>)
    requires multiset(s) <= multiset(t)
    ensures forall j :: j in s ==> j in t
  {
    forall j | j in s
      ensures j in t
    {
      assert j in multiset(s);
    }
  }

  /**
    After one unit of the first job of the whole schedule, the greedy construction
    makes the same choices from every part of the list.
   */
  lemma {:induction false} GreedyWorked(now: int, list: seq<JobV>, whole: seq<JobV>)
    requires Running(now, whole) && multiset(Greedy(now, list)) <= multiset(whole)
    requires multiset(list)[whole[0]] <= 1
    requires whole[0] in list ==> whole[0] in Greedy(now, list)
    ensures Greedy(now + 1, Worked(list, whole[0])) == Worked(Greedy(now, list), whole[0])
  {
    if list != [] {
      var (rest, last, job) := (list[..|list| - 1], list[|list| - 1], whole[0]);
      assert list == rest + [last];
      assert multiset(list) == multiset(rest) + multiset{last};
      EnqueueElements(EDF, Greedy(now, rest), last);
      GreedyLast(now, rest, last);
      assert job in rest ==> multiset(rest)[job] >= 1;
      assert multiset(Greedy(now, rest)) <= multiset(Greedy(now, list));
      hide Greedy, Meets, Enqueue, Worked;
      GreedyWorked(now, rest, whole);
      if last == job {
        SameJobLast(now, rest, whole);
      } else {
        OtherJobLast(now, rest, last, whole);
      }
    }
  }

  // ----- One iteration -----

  /** No job is done, and all arrived differently. */
  ghost predicate Orderly(sched: seq<JobV>) {
    Different(multiset(sched)) && forall j :: j in sched ==> j.rem >= 1
  }

  lemma {:induction false} SurvivorsMultiset(config: Config, now: int, s: seq<JobV>)
    ensures forall j :: multiset(Survivors(config, now, s))[j] == if Survives(config, now, j) then multiset(s)[j] else 0
  {
    if s != [] {
      hide Survives;
      SurvivorsMultiset(config, now, s[1..]);
      assert s == [s[0]] + s[1..];
      var rest := Survivors(config, now, s[1..]);
      assert Survives(config, now, s[0]) ==> multiset([s[0]] + rest) == multiset{s[0]} + multiset(rest);
      assert [] + rest == rest;
    }
  }

  lemma SameSurvivors(config: Config, now: int, s: seq<JobV>, t: seq<JobV>)
    requires multiset(s) == multiset(t)
    ensures multiset(Survivors(config, now, s)) == multiset(Survivors(config, now, t))
  {
    hide Survives;
    SurvivorsMultiset(config, now, s);
    SurvivorsMultiset(config, now, t);
    assert forall j :: multiset(Survivors(config, now, s))[j] == multiset(Survivors(config, now, t))[j];
  }

  lemma {:induction false} SurvivorsSorted(distance: nat -> int, config: Config, now: int, s: seq<JobV>)
    requires Sorted(distance, s)
    ensures Sorted(distance, Survivors(config, now, s))
  {
    if s != [] {
      SurvivorsSorted(distance, config, now, s[1..]);
      SurvivorsAndDoomed(config, now, s[1..]);
      var rest := Survivors(config, now, s[1..]);
      assert ([s[0]] + rest)[1..] == rest && [] + rest == rest;
    }
  }

  lemma FewerDiffer(a: multiset<JobV>, b: multiset<JobV>)
    requires a <= b && Different(b)
    ensures Different(a)
  {
  }

  /** What is left of a job differs from the other jobs as the job did. */
  lemma LeftDiffers(jobs: multiset<JobV>, job: JobV, left: JobV)
    requires Different(jobs) && job in jobs && SameArrival(left, job) && left != job
    ensures left !in jobs && Different(jobs - multiset{job} + multiset{left})
  {
    var others := jobs - multiset{job};
    assert jobs[job] == 1 && job !in others;
    assert forall j :: j in others ==> j in jobs && !SameArrival(j, job);
  }

  lemma WorkedDiffer(s: seq<JobV>, job: JobV)
    requires Different(multiset(s)) && job in s
    ensures Different(multiset(Worked(s, job)))
    ensures job !in Worked(s, job)
    ensures forall j :: j in Left(job) ==> j !in s
  {
    WorkedMultiset(s, job);
    var (before, after) := (multiset(s), multiset(Worked(s, job)));
    assert job in before && before[job] == 1;
    if job.rem > 1 {
      hide Different;
      LeftDiffers(before, job, Left(job)[0]);
      assert multiset(Left(job)) == multiset{Left(job)[0]};
    } else {
      FewerDiffer(before - multiset{job}, before);
    }
    assert job !in after;
  }

  lemma OrderlySurvivors(config: Config, now: int, s: seq<JobV>)
    requires Orderly(s)
    ensures Orderly(Survivors(config, now, s))
  {
    SurvivorsMultiset(config, now, s);
    SurvivorsAndDoomed(config, now, s);
    FewerDiffer(multiset(Survivors(config, now, s)), multiset(s));
  }

  /** What an iteration makes of the list. */
  function ListAfter(distance: nat -> int, config: Config, now: int, sched: seq<JobV>): seq<JobV> {
    var (list, chosen) := (ListOf(distance, config, now, sched), Choice(distance, config, now, sched));
    if chosen == [] then list else Worked(list, chosen[0])
  }

  /** What the list and the schedule are made of. */
  lemma ListFacts(distance: nat -> int, config: Config, now: int, sched: seq<JobV>)
    requires Orderly(sched)
    ensures var list := ListOf(distance, config, now, sched);
            && multiset(list) == multiset(Survivors(config, now, sched))
            && Sorted(distance, list) && Orderly(list)
  {
    var left := Survivors(config, now, sched);
    OrderlySurvivors(config, now, sched);
    hide Survivors, Different;
    DistanceListSorted(distance, left);
    MembersOf(ListOf(distance, config, now, sched), left);
  }

  lemma ChoiceFacts(distance: nat -> int, config: Config, now: int, sched: seq<JobV>)
    requires Orderly(sched)
    ensures var (list, chosen) := (ListOf(distance, config, now, sched), Choice(distance, config, now, sched));
            && Ordered(EDF, chosen) && Meets(now, chosen) && multiset(chosen) <= multiset(list)
            && (chosen != [] ==> Running(now, chosen) && chosen[0] in list)
            && (forall j :: j in list ==> j in chosen || Rejected(now, chosen, j))
  {
    var list := ListOf(distance, config, now, sched);
    ListFacts(distance, config, now, sched);
    hide ListOf, Ordered, Meets, Survivors, Different, Sorted;
    GreedyIsMaximal(now, list);
    MembersOf(Choice(distance, config, now, sched), list);
  }

  lemma AfterFacts(distance: nat -> int, config: Config, now: int, sched: seq<JobV>)
    requires Orderly(sched)
    ensures var after := ListAfter(distance, config, now, sched);
            Sorted(distance, after) && Orderly(after)
  {
    var (list, chosen) := (ListOf(distance, config, now, sched), Choice(distance, config, now, sched));
    ListFacts(distance, config, now, sched);
    ChoiceFacts(distance, config, now, sched);
    hide ListOf, Choice, Ordered, Meets, Survivors, Different, Sorted, Rejected;
    if chosen != [] {
      WorkedDiffer(list, chosen[0]);
      WorkedSorted(distance, list, chosen[0]);
      WorkedMembers(list, chosen[0]);
    }
  }

  /** Whatever the order in which the jobs are kept, the next list is what is left of this one. */
  lemma NextList(distance: nat -> int, config: Config, now: int, sched: seq<JobV>, next: seq<JobV>)
    requires Orderly(sched) && multiset(next) == multiset(ListAfter(distance, config, now, sched))
    ensures Orderly(next)
    ensures ListOf(distance, config, now + 1, next) == Survivors(config, now + 1, ListAfter(distance, config, now, sched))
  {
    var after := ListAfter(distance, config, now, sched);
    AfterFacts(distance, config, now, sched);
    MembersOf(next, after);
    hide ListAfter, Different, ListOf, Sorted, Survivors;
    ListFacts(distance, config, now + 1, next);
    SurvivorsSorted(distance, config, now + 1, after);
    SameSurvivors(config, now + 1, next, after);
    SortedUnique(distance, ListOf(distance, config, now + 1, next), Survivors(config, now + 1, after));
  }

  /** Jobs that do not even fit an empty schedule are too late, now and later. */
  lemma AllLate(now: int, list: seq<JobV>)
    requires forall j :: j in list ==> Rejected(now, [], j)
    ensures Greedy(now + 1, list) == []
  {
    forall j | j in list
      ensures j.LatestStart() < now + 1
    {
      assert Enqueue(EDF, [], j) == [j] && [j][1..] == [];
      assert Meets(now, [j]) <==> now + j.rem <= j.deadline;
      assert Rejected(now, [], j);
    }
    GreedyOfLate(now + 1, list);
  }

  lemma OnceIn(s: seq<JobV>, job: JobV)
    requires Different(multiset(s))
    ensures multiset(s)[job] <= 1
  {
  }

  lemma GreedyAfter(distance: nat -> int, config: Config, now: int, sched: seq<JobV>)
    requires Orderly(sched)
    ensures Greedy(now + 1, ListAfter(distance, config, now, sched)) == Executed(Choice(distance, config, now, sched))
  {
    var (list, chosen) := (ListOf(distance, config, now, sched), Choice(distance, config, now, sched));
    ListFacts(distance, config, now, sched);
    ChoiceFacts(distance, config, now, sched);
    hide ListOf, Greedy, Meets, Ordered, Survivors, Different, Sorted, Rejected, Worked;
    if chosen == [] {
      AllLate(now, list);
    } else {
      OnceIn(list, chosen[0]);
      GreedyWorked(now, list, chosen);
      RunningWorked(now, chosen);
    }
  }

  /** The next schedule is what the unit leaves of this one. */
  lemma NextChoice(distance: nat -> int, config: Config, now: int, sched: seq<JobV>, next: seq<JobV>)
    requires Orderly(sched) && multiset(next) == multiset(ListAfter(distance, config, now, sched))
    ensures Choice(distance, config, now + 1, next) == Executed(Choice(distance, config, now, sched))
  {
    NextList(distance, config, now, sched, next);
    GreedyAfter(distance, config, now, sched);
    hide ListOf, ListAfter, Greedy, Survivors, Executed;
    GreedyIgnoresLate(config, now + 1, ListAfter(distance, config, now, sched));
  }
}
