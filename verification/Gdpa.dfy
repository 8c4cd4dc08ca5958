/**
  Guaranteed dynamic priority assignment (src/schedulers/gdpa.cpp): a greedy
  construction of a feasible EDF schedule, nearest failure distance first.
 */
module Gdpa {
  import opened Machine
  import opened MachineInvariants
  import opened Jobs
  import opened AldScheduling
  import opened EdfFeasibility

  /** Insertion behind all jobs of smaller or equal distance. */
  function InsertByDistance(distance: nat -> int, s: seq<JobV>, job: JobV): seq<JobV> {
    if s != [] && distance(s[0].task) <= distance(job.task)
    then [s[0]] + InsertByDistance(distance, s[1..], job)
    else [job] + s
  }

  /** The queue sorted by distance, keeping the order of equal distances. */
  function ByDistance(distance: nat -> int, queue: seq<JobV>): seq<JobV> {
    if queue == [] then []
    else InsertByDistance(distance, ByDistance(distance, queue[..|queue| - 1]), queue[|queue| - 1])
  }

  /** Takes each job of the list in turn if the schedule stays feasible with it. */
  function Greedy(now: int, list: seq<JobV>): seq<JobV> {
    if list == [] then []
    else
      var chosen := Greedy(now, list[..|list| - 1]);
      var candidate := Enqueue(EDF, chosen, list[|list| - 1]);
      if Meets(now, candidate) then candidate else chosen
  }

  // ----- The list by distance -----

  ghost predicate SortedByDistance(distance: nat -> int, s: seq<JobV>) {
    forall i, j :: 0 <= i < j < |s| ==> distance(s[i].task) <= distance(s[j].task)
  }

  lemma {:induction false} InsertByDistanceElements(distance: nat -> int, s: seq<JobV>, job: JobV)
    ensures multiset(InsertByDistance(distance, s, job)) == multiset(s) + multiset{job}
    ensures forall j :: j in InsertByDistance(distance, s, job) <==> j in s || j == job
  {
    if s != [] && distance(s[0].task) <= distance(job.task) {
      InsertByDistanceElements(distance, s[1..], job);
      assert s == [s[0]] + s[1..];
    }
  }

  lemma {:induction false} InsertByDistanceSorted(distance: nat -> int, s: seq<JobV>, job: JobV)
    requires SortedByDistance(distance, s)
    ensures SortedByDistance(distance, InsertByDistance(distance, s, job))
  {
    if s != [] && distance(s[0].task) <= distance(job.task) {
      var rest := InsertByDistance(distance, s[1..], job);
      InsertByDistanceSorted(distance, s[1..], job);
      InsertByDistanceElements(distance, s[1..], job);
      forall j | 0 <= j < |rest|
        ensures distance(s[0].task) <= distance(rest[j].task)
      {
        assert rest[j] in rest;
        if rest[j] != job {
          var i :| 0 <= i < |s[1..]| && s[1..][i] == rest[j];
          assert s[1 + i] == rest[j];
        }
      }
    }
  }

  /** Sorting loses no job, duplicates none, and orders them by distance. */
  lemma {:induction false} ByDistanceSorts(distance: nat -> int, queue: seq<JobV>)
    ensures SortedByDistance(distance, ByDistance(distance, queue))
    ensures multiset(ByDistance(distance, queue)) == multiset(queue)
    ensures forall j :: j in ByDistance(distance, queue) <==> j in queue
  {
    if queue != [] {
      var (rest, last) := (queue[..|queue| - 1], queue[|queue| - 1]);
      assert queue == rest + [last];
      ByDistanceSorts(distance, rest);
      InsertByDistanceSorted(distance, ByDistance(distance, rest), last);
      InsertByDistanceElements(distance, ByDistance(distance, rest), last);
    }
  }

  // ----- The greedy schedule -----

  /** Adding the job to the schedule would make some job miss its deadline. */
  ghost predicate Rejected(now: int, schedule: seq<JobV>, job: JobV) {
    !Meets(now, Enqueue(EDF, schedule, job))
  }

  /** A job that does not fit a schedule does not fit a schedule with one job more. */
  lemma StillRejected(now: int, schedule: seq<JobV>, more: JobV, job: JobV)
    requires Ordered(EDF, schedule) && Rejected(now, schedule, job)
    ensures Rejected(now, Enqueue(EDF, schedule, more), job)
  {
    var larger := Enqueue(EDF, schedule, more);
    if Meets(now, Enqueue(EDF, larger, job)) {
      EnqueueOrdered(EDF, schedule, job);
      EnqueueElements(EDF, schedule, more);
      EnqueueElements(EDF, schedule, job);
      EnqueueElements(EDF, larger, job);
      forall d
        ensures DueWork(Enqueue(EDF, schedule, job), d) <= DueWork(Enqueue(EDF, larger, job), d)
      {
        DueEnqueue(schedule, more, d);
        DueEnqueue(schedule, job, d);
        DueEnqueue(larger, job, d);
      }
      LessDueMeets(now, Enqueue(EDF, schedule, job), Enqueue(EDF, larger, job));
    }
  }

  /**
    The greedy schedule is deadline-ordered, feasible, made of jobs of the list,
    and maximal: no job left out could be added to it.
   */
  lemma {:induction false} GreedyIsMaximal(now: int, list: seq<JobV>)
    ensures Ordered(EDF, Greedy(now, list)) && Meets(now, Greedy(now, list))
    ensures multiset(Greedy(now, list)) <= multiset(list)
    ensures forall j :: j in list ==> j in Greedy(now, list) || Rejected(now, Greedy(now, list), j)
  {
    if list != [] {
      var (rest, last) := (list[..|list| - 1], list[|list| - 1]);
      var (chosen, result) := (Greedy(now, rest), Greedy(now, list));
      assert list == rest + [last];
      GreedyIsMaximal(now, rest);
      EnqueueElements(EDF, chosen, last);
      EnqueueOrdered(EDF, chosen, last);
      hide Greedy, Meets, Enqueue, Ordered, Rejected;
      if result != chosen {
        forall j | j in rest && j !in result
          ensures Rejected(now, result, j)
        {
          StillRejected(now, chosen, last, j);
        }
      }
    }
  }

  // ----- The decision of one `schedule` call -----

  /** The ready queue holds the jobs in the order of their activations, those of one instant in task-set order. */
  function InsertByArrival(s: seq<JobV>, job: JobV): seq<JobV> {
    if s != [] && (s[0].activation < job.activation || (s[0].activation == job.activation && s[0].task <= job.task))
    then [s[0]] + InsertByArrival(s[1..], job)
    else [job] + s
  }

  function ByArrival(s: seq<JobV>): seq<JobV> {
    if s == [] then [] else InsertByArrival(ByArrival(s[..|s| - 1]), s[|s| - 1])
  }

  /** The jobs of the queue that are not among those chosen. */
  function NotChosen(queue: seq<JobV>, chosen: multiset<JobV>): seq<JobV> {
    if queue == [] then []
    else if queue[0] in chosen then NotChosen(queue[1..], chosen - multiset{queue[0]})
    else [queue[0]] + NotChosen(queue[1..], chosen)
  }

  /** The greedy schedule comes first; when it is empty the processor idles. */
  function GdpaDecision(distance: nat -> int, st: State): Decision {
    var queue := ByArrival(st.sched);
    var chosen := Greedy(st.now, ByDistance(distance, queue));
    Decision(chosen + NotChosen(queue, multiset(chosen)), [], chosen == [])
  }

  function GdpaPlanner(distance: nat -> int): Planner {
    Planned((st: State) => GdpaDecision(distance, st))
  }

  lemma {:induction false} InsertByArrivalElements(s: seq<JobV>, job: JobV)
    ensures multiset(InsertByArrival(s, job)) == multiset(s) + multiset{job}
  {
    if s != [] {
      InsertByArrivalElements(s[1..], job);
      assert s == [s[0]] + s[1..];
    }
  }

  lemma {:induction false} ByArrivalElements(s: seq<JobV>)
    ensures multiset(ByArrival(s)) == multiset(s)
  {
    if s != [] {
      ByArrivalElements(s[..|s| - 1]);
      InsertByArrivalElements(ByArrival(s[..|s| - 1]), s[|s| - 1]);
      assert s == s[..|s| - 1] + [s[|s| - 1]];
    }
  }

  lemma {:induction false} NotChosenElements(queue: seq<JobV>, chosen: multiset<JobV>)
    requires chosen <= multiset(queue)
    ensures multiset(NotChosen(queue, chosen)) == multiset(queue) - chosen
  {
    if queue != [] {
      assert queue == [queue[0]] + queue[1..];
      if queue[0] in chosen {
        NotChosenElements(queue[1..], chosen - multiset{queue[0]});
      } else {
        NotChosenElements(queue[1..], chosen);
      }
    }
  }

  lemma GdpaPlannerIsValid(distance: nat -> int)
    ensures ValidPlanner(GdpaPlanner(distance))
  {
    var planner := GdpaPlanner(distance);
    forall st: State
      ensures Partitions(st.sched, planner.decide(st))
    {
      var queue := ByArrival(st.sched);
      var chosen := Greedy(st.now, ByDistance(distance, queue));
      ByArrivalElements(st.sched);
      ByDistanceSorts(distance, queue);
      GreedyIsMaximal(st.now, ByDistance(distance, queue));
      NotChosenElements(queue, multiset(chosen));
    }
  }

  class GdpaScheduler {
    var readyQueue: seq<Job>
    var mySchedule: seq<Job>
    const dlmon: DeadlineMonitor
    var readyQueueChanged: bool
    var scheduleChanged: bool

    constructor ()
      ensures readyQueue == [] && mySchedule == []
      ensures fresh(dlmon) && dlmon.jobs == []
    {
      readyQueue, mySchedule, readyQueueChanged, scheduleChanged := [], [], false, false;
      dlmon := new DeadlineMonitor();
    }

    method EnqueueJob(job: Job)
      requires Distinct(dlmon.jobs) && job !in dlmon.jobs
      modifies this, dlmon
      ensures readyQueue == old(readyQueue) + [job] && mySchedule == old(mySchedule)
      ensures exists it: nat :: AddedAt(old(dlmon.jobs), dlmon.jobs, it, job)
      ensures Distinct(dlmon.jobs) && (old(dlmon.Sorted()) ==> dlmon.Sorted())
    {
      readyQueue := readyQueue + [job];
      readyQueueChanged := true;
      dlmon.AddJob(job);
    }

    /** Forgets a job that was completed or cancelled. */
    method JobFinished(job: Job)
      requires Distinct(readyQueue)
      modifies this
      ensures Distinct(readyQueue) && mySchedule == old(mySchedule)
      ensures forall j :: j in readyQueue <==> j in old(readyQueue) && j != job
      ensures job !in old(readyQueue) ==> readyQueue == old(readyQueue)
      ensures job in old(readyQueue) ==>
                exists p: nat :: p < |old(readyQueue)| && old(readyQueue)[p] == job && readyQueue == Erased(old(readyQueue), p)
    {
      var it := 0;
      while it < |readyQueue| && readyQueue[it] != job
        invariant it <= |readyQueue| && job !in readyQueue[..it]
      {
        it := it + 1;
      }
      if it != |readyQueue| {
        ErasedElements(readyQueue, it);
        readyQueue := Erased(readyQueue, it);
      }
    }

    /** Builds the schedule anew; the distances are those the tasks report. */
    method Schedule(now: int, distance: nat -> int)
      modifies this
      ensures readyQueue == old(readyQueue)
      ensures Views(mySchedule) == Greedy(now, ByDistance(distance, Views(readyQueue)))
      ensures forall j :: j in mySchedule ==> j in readyQueue
    {
      hide Views, ByDistance, Greedy;
      var sdfList := SortByDistance(distance);
      BuildGreedy(now, sdfList);
      readyQueueChanged := false;
      scheduleChanged := true;
    }

    /** Tries the jobs of the list one after the other, starting from an empty schedule. */
    method BuildGreedy(now: int, sdfList: seq<Job>)
      modifies `mySchedule
      ensures Views(mySchedule) == Greedy(now, Views(sdfList))
      ensures forall j :: j in mySchedule ==> j in sdfList
    {
      ghost var views := Views(sdfList);
      hide Views, Greedy, Enqueue, Meets;
      mySchedule := [];
      GreedyStart(now, views);
      for i := 0 to |sdfList|
        invariant Views(mySchedule) == Greedy(now, views[..i])
        invariant forall j :: j in mySchedule ==> j in sdfList
      {
        GreedyNext(now, views, i);
        TryJob(now, sdfList[i]);
      }
      assert views[..|sdfList|] == views;
    }

    /** Keeps the job in the schedule if the schedule stays feasible. */
    method TryJob(now: int, job: Job)
      modifies `mySchedule
      ensures var candidate := Enqueue(EDF, old(Views(mySchedule)), job.View());
              Views(mySchedule) == if Meets(now, candidate) then candidate else old(Views(mySchedule))
      ensures forall j :: j in mySchedule ==> j in old(mySchedule) || j == job
    {
      hide Views, Meets, Enqueue;
      var ins := DeadlinePosition(job);
      var before := mySchedule;
      mySchedule := Inserted(mySchedule, ins, job);
      var fjob := CheckEDFSchedule(now, mySchedule);
      if fjob != null {
        mySchedule := before;
      }
    }

    method SortByDistance(distance: nat -> int) returns (sdfList: seq<Job>)
      ensures Views(sdfList) == ByDistance(distance, Views(readyQueue))
      ensures forall j :: j in sdfList ==> j in readyQueue
    {
      ghost var views := Views(readyQueue);
      hide Views;
      sdfList := [];
      assert Views(sdfList) == ByDistance(distance, views[..0]) by {
        NoViews();
      }
      for i := 0 to |readyQueue|
        invariant Views(sdfList) == ByDistance(distance, views[..i])
        invariant forall j :: j in sdfList ==> j in readyQueue
      {
        var job := readyQueue[i];
        assert views[..i + 1][..i] == views[..i];
        assert job in readyQueue && job.View() == views[i];
        var ins := DistancePosition(distance, sdfList, job);
        sdfList := Inserted(sdfList, ins, job);
      }
      assert views[..|readyQueue|] == views;
    }

    /** The scan for the first job of greater distance. */
    static method DistancePosition(distance: nat -> int, list: seq<Job>, job: Job) returns (ins: nat)
      ensures ins <= |list|
      ensures Views(Inserted(list, ins, job)) == InsertByDistance(distance, Views(list), job.View())
    {
      ins := 0;
      while ins < |list| && distance(list[ins].task) <= distance(job.task)
        invariant ins <= |list|
        invariant forall i :: 0 <= i < ins ==> distance(list[i].task) <= distance(job.task)
      {
        ins := ins + 1;
      }
      InsertByDistanceAt(distance, Views(list), job.View(), ins);
      ViewsInserted(list, ins, job);
    }

    /** The scan for the first job of later deadline. */
    method DeadlinePosition(job: Job) returns (ins: nat)
      ensures ins <= |mySchedule|
      ensures Views(Inserted(mySchedule, ins, job)) == Enqueue(EDF, Views(mySchedule), job.View())
    {
      ins := 0;
      while ins < |mySchedule| && mySchedule[ins].absDeadline <= job.absDeadline
        invariant ins <= |mySchedule|
        invariant forall i :: 0 <= i < ins ==> mySchedule[i].absDeadline <= job.absDeadline
      {
        ins := ins + 1;
      }
      EnqueueAt(EDF, Views(mySchedule), job.View(), ins);
      ViewsInserted(mySchedule, ins, job);
    }
  }

  lemma GreedyStart(now: int, list: seq<JobV>)
    ensures Greedy(now, list[..0]) == Views([])
  {
  }

  lemma GreedyNext(now: int, list: seq<JobV>, i: nat)
    requires i < |list|
    ensures var (chosen, candidate) := (Greedy(now, list[..i]), Enqueue(EDF, Greedy(now, list[..i]), list[i]));
            Greedy(now, list[..i + 1]) == if Meets(now, candidate) then candidate else chosen
  {
    assert list[..i + 1][..i] == list[..i];
  }

  lemma {:induction false} InsertByDistanceAt(distance: nat -> int, s: seq<JobV>, job: JobV, p: nat)
    requires p <= |s|
    requires forall i :: 0 <= i < p ==> distance(s[i].task) <= distance(job.task)
    requires p < |s| ==> distance(s[p].task) > distance(job.task)
    ensures InsertByDistance(distance, s, job) == s[..p] + [job] + s[p..]
  {
    if p > 0 {
      InsertByDistanceAt(distance, s[1..], job, p - 1);
      assert s == [s[0]] + s[1..];
    }
  }
}
