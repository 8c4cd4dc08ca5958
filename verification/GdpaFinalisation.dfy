/**
  When `finalise` (src/core/simulation.cpp) comes to an end under GDPA, whose
  schedule can be empty although jobs are pending: exactly when every pending
  job is in the first greedy schedule or is cancelled once it is too late.
 */
module GdpaFinalisation {
  import opened Machine
  import opened MachineInvariants
  import opened AldScheduling
  import opened EdfFeasibility
  import opened Gdpa
  import opened GdpaOrder
  import opened GdpaProgress

  /** `initStep` cancels the job as soon as it is too late. */
  predicate Droppable(config: Config, job: JobV) {
    config.dlMissCancellations && (config.execCancellations || !job.Started())
  }

  /** Every job that `initStep` leaves pending is scheduled or can be cancelled. */
  ghost predicate AllLeave(distance: nat -> int, config: Config, now: int, sched: seq<JobV>) {
    forall j :: j in Survivors(config, now, sched) ==> j in Choice(distance, config, now, sched) || Droppable(config, j)
  }

  // ----- The iteration of the machine -----

  lemma ExecutedMultiset(s: seq<JobV>)
    requires s != []
    ensures multiset(Executed(s)) == multiset(s) - multiset{s[0]} + multiset(Left(s[0]))
  {
    assert s == [s[0]] + s[1..];
    if s[0].rem > 1 {
      assert Executed(s) == Left(s[0]) + s[1..];
    }
  }

  /** The decision in terms of the chosen jobs, which come first. */
  lemma DecisionOf(distance: nat -> int, st: State)
    ensures var (d, chosen) := (GdpaDecision(distance, st), Greedy(st.now, DistanceList(distance, st.sched)));
            && d.cancelled == [] && multiset(d.kept) == multiset(st.sched)
            && d.idle == (chosen == []) && (chosen != [] ==> d.kept != [] && d.kept[0] == chosen[0])
  {
    GdpaPlannerIsValid(distance);
    assert Partitions(st.sched, GdpaPlanner(distance).decide(st));
  }

  lemma StepSchedule(distance: nat -> int, sys: System, st: State)
    requires ValidSystem(sys) && ValidState(sys, st) && sys.planner == GdpaPlanner(distance)
    ensures var (next, d) := (FinaliseStep(sys, st), GdpaDecision(distance, InitStep(sys, st).0));
            && next.now == st.now + 1 && next.sched == if d.idle then d.kept else Executed(d.kept)
  {
    var init := InitStep(sys, st).0;
    assert Decide(sys, init) == GdpaDecision(distance, init);
    ExecuteSchedule(sys, Schedule(sys, init).0);
    assert Execute(sys, Schedule(sys, init).0).now == init.now;
    hide InitStep, Execute, GdpaDecision;
  }

  /** An iteration of the loop gives the first chosen job one unit and keeps the rest. */
  lemma StepWorks(distance: nat -> int, sys: System, st: State)
    requires ValidSystem(sys) && ValidState(sys, st) && sys.planner == GdpaPlanner(distance) && Orderly(st.sched)
    ensures FinaliseStep(sys, st).now == st.now + 1
    ensures multiset(FinaliseStep(sys, st).sched) == multiset(ListAfter(distance, sys.config, st.now, st.sched))
  {
    var init := InitStep(sys, st).0;
    var (list, chosen) := (ListOf(distance, sys.config, st.now, st.sched), Choice(distance, sys.config, st.now, st.sched));
    ListFacts(distance, sys.config, st.now, st.sched);
    ChoiceFacts(distance, sys.config, st.now, st.sched);
    StepSchedule(distance, sys, st);
    hide FinaliseStep, Survivors, Greedy, Different, Sorted, Worked, DistanceList;
    DecisionOf(distance, init);
    if chosen != [] {
      ExecutedMultiset(GdpaDecision(distance, init).kept);
      WorkedMultiset(list, chosen[0]);
    }
  }

  // ----- Jobs that leave and jobs that stay -----

  /** A job that is neither scheduled nor cancelled is in the same position after an iteration. */
  lemma Stays(distance: nat -> int, config: Config, now: int, sched: seq<JobV>, next: seq<JobV>, job: JobV)
    requires Orderly(sched) && multiset(next) == multiset(ListAfter(distance, config, now, sched))
    requires job in Survivors(config, now, sched) && job !in Choice(distance, config, now, sched) && !Droppable(config, job)
    ensures job in next && job in Survivors(config, now + 1, next) && job !in Choice(distance, config, now + 1, next)
  {
    var (list, chosen) := (ListOf(distance, config, now, sched), Choice(distance, config, now, sched));
    ListFacts(distance, config, now, sched);
    ChoiceFacts(distance, config, now, sched);
    NextChoice(distance, config, now, sched, next);
    SurvivorsAndDoomed(config, now + 1, next);
    MembersOf(Survivors(config, now, sched), list);
    hide ListOf, Choice, Different, Sorted, Survivors, Worked, Greedy, Ordered, Meets;
    if chosen != [] {
      StillThere(list, chosen[0], job);
      WorkedDiffer(list, chosen[0]);
      ExecutedMembers(chosen);
    }
    MembersOf(ListAfter(distance, config, now, sched), next);
  }

  lemma ExecutedMembers(s: seq<JobV>)
    requires s != []
    ensures forall j :: j in Executed(s) ==> j in s || j in Left(s[0])
    ensures forall j :: (j in s && j != s[0]) || j in Left(s[0]) ==> j in Executed(s)
  {
    assert s == [s[0]] + s[1..];
  }

  lemma LeavesLater(distance: nat -> int, config: Config, now: int, sched: seq<JobV>, next: seq<JobV>)
    requires Orderly(sched) && multiset(next) == multiset(ListAfter(distance, config, now, sched))
    requires AllLeave(distance, config, now, sched)
    ensures AllLeave(distance, config, now + 1, next)
  {
    var (list, chosen) := (ListOf(distance, config, now, sched), Choice(distance, config, now, sched));
    ListFacts(distance, config, now, sched);
    ChoiceFacts(distance, config, now, sched);
    NextChoice(distance, config, now, sched, next);
    SurvivorsAndDoomed(config, now + 1, next);
    MembersOf(list, Survivors(config, now, sched));
    MembersOf(next, ListAfter(distance, config, now, sched));
    hide ListOf, Choice, Different, Sorted, Survivors, Worked, Greedy, Ordered, Meets;
    if chosen != [] {
      WorkedMembers(list, chosen[0]);
      WorkedDiffer(list, chosen[0]);
      ExecutedMembers(chosen);
    }
  }

  /** When all deadlines have passed, only jobs that can be cancelled are left, and they are cancelled now. */
  lemma AllGone(distance: nat -> int, config: Config, now: int, sched: seq<JobV>)
    requires Orderly(sched) && AllLeave(distance, config, now, sched)
    requires forall j :: j in sched ==> j.deadline <= now
    ensures ListAfter(distance, config, now, sched) == []
  {
    var (list, chosen) := (ListOf(distance, config, now, sched), Choice(distance, config, now, sched));
    hide ListOf, Choice, Different, Sorted, Survivors, Worked, Greedy, Ordered, Meets, Running;
    ListFacts(distance, config, now, sched);
    ChoiceFacts(distance, config, now, sched);
    SurvivorsAndDoomed(config, now, sched);
    MembersOf(list, Survivors(config, now, sched));
    if chosen != [] {
      RunningWorked(now, chosen);
    }
    assert chosen == [];
    assert forall j :: j in Survivors(config, now, sched) ==> Droppable(config, j) && j in sched;
    assert forall j :: j in sched ==> j.LatestStart() < now;
    NoMember(list);
  }

  lemma NoMember(s: seq<JobV>)
    ensures s == [] || s[0] in s
  {
  }

  lemma DeadlinesKept(distance: nat -> int, config: Config, now: int, sched: seq<JobV>, next: seq<JobV>, latest: int)
    requires Orderly(sched) && multiset(next) == multiset(ListAfter(distance, config, now, sched))
    requires forall j :: j in sched ==> j.deadline <= latest
    ensures forall j :: j in next ==> j.deadline <= latest
  {
    var (list, chosen) := (ListOf(distance, config, now, sched), Choice(distance, config, now, sched));
    ListFacts(distance, config, now, sched);
    ChoiceFacts(distance, config, now, sched);
    SurvivorsAndDoomed(config, now, sched);
    MembersOf(list, Survivors(config, now, sched));
    MembersOf(next, ListAfter(distance, config, now, sched));
    hide ListOf, Choice, Different, Sorted, Survivors, Worked, Greedy, Ordered, Meets;
    if chosen != [] {
      WorkedMembers(list, chosen[0]);
    }
  }

  // ----- The loop -----

  /** The loop of `finalise` comes to an end, because no job is pending or because a task objects. */
  ghost predicate FinaliseEnds(sys: System, st: State)
    requires ValidSystem(sys) && ValidState(sys, st)
  {
    exists n: nat :: !FinaliseFor(sys, st, n).1 || FinaliseFor(sys, st, n).0.sched == []
  }

  /** A task objects to a cancellation in the loop, which stops it. */
  ghost predicate FinaliseRefused(sys: System, st: State)
    requires ValidSystem(sys) && ValidState(sys, st)
  {
    exists n: nat :: !FinaliseFor(sys, st, n).1
  }

  /** Unless a task objects, the first iteration leads to the others. */
  lemma FirstIteration(sys: System, st: State, n: nat)
    requires ValidSystem(sys) && ValidState(sys, st) && n > 0
    ensures st.sched == [] ==> FinaliseFor(sys, st, n) == (st, true)
    ensures st.sched != [] && FinaliseFor(sys, st, n).1 ==>
              FinaliseFor(sys, st, n) == FinaliseFor(sys, FinaliseStep(sys, st), n - 1)
    ensures st.sched != [] && InitStep(sys, st).1 && Schedule(sys, InitStep(sys, st).0).1 ==>
              FinaliseFor(sys, st, n) == FinaliseFor(sys, FinaliseStep(sys, st), n - 1)
  {
    hide FinaliseStep, InitStep, Schedule;
  }

  ghost predicate GdpaState(distance: nat -> int, sys: System, st: State) {
    ValidSystem(sys) && ValidState(sys, st) && sys.planner == GdpaPlanner(distance) && Orderly(st.sched)
  }

  lemma GdpaStep(distance: nat -> int, sys: System, st: State)
    requires GdpaState(distance, sys, st)
    ensures var next := FinaliseStep(sys, st);
            && GdpaState(distance, sys, next) && next.now == st.now + 1
            && multiset(next.sched) == multiset(ListAfter(distance, sys.config, st.now, st.sched))
  {
    StepWorks(distance, sys, st);
    hide FinaliseStep, Orderly, ValidSystem;
    NextList(distance, sys.config, st.now, st.sched, FinaliseStep(sys, st).sched);
  }

  /** The job stays pending in every iteration. */
  lemma {:induction false} GdpaNeverEnds(distance: nat -> int, sys: System, st: State, job: JobV, n: nat)
    requires GdpaState(distance, sys, st) && job in Survivors(sys.config, st.now, st.sched)
    requires job !in Choice(distance, sys.config, st.now, st.sched) && !Droppable(sys.config, job)
    ensures FinaliseFor(sys, st, n).1 ==> job in FinaliseFor(sys, st, n).0.sched
    decreases n
  {
    hide FinaliseStep, Choice, Survivors, GdpaState, Droppable, FinaliseFor, Orderly, ValidSystem, ValidState, ListAfter;
    SurvivorsAndDoomed(sys.config, st.now, st.sched);
    GdpaFacts(distance, sys, st);
    if n == 0 {
      NoIteration(sys, st);
    } else {
      var next := FinaliseStep(sys, st);
      FirstIteration(sys, st, n);
      GdpaStep(distance, sys, st);
      Stays(distance, sys.config, st.now, st.sched, next.sched, job);
      GdpaNeverEnds(distance, sys, next, job, n - 1);
    }
  }

  lemma NoIteration(sys: System, st: State)
    requires ValidSystem(sys) && ValidState(sys, st)
    ensures FinaliseFor(sys, st, 0) == (st, true)
  {
  }

  lemma GdpaFacts(distance: nat -> int, sys: System, st: State)
    requires GdpaState(distance, sys, st)
    ensures ValidSystem(sys) && ValidState(sys, st) && Orderly(st.sched)
  {
  }

  /** The loop is over at the latest one iteration after the last deadline. */
  lemma {:induction false} GdpaEndsBy(distance: nat -> int, sys: System, st: State, latest: int) returns (n: nat)
    requires GdpaState(distance, sys, st) && AllLeave(distance, sys.config, st.now, st.sched)
    requires forall j :: j in st.sched ==> j.deadline <= latest
    ensures !FinaliseFor(sys, st, n).1 || FinaliseFor(sys, st, n).0.sched == []
    ensures n <= if latest > st.now then latest - st.now + 1 else 1
    decreases if latest > st.now then latest - st.now else 0
  {
    hide FinaliseStep, AllLeave, ListAfter, GdpaState, FinaliseFor, Orderly, ValidSystem, ValidState;
    GdpaFacts(distance, sys, st);
    GdpaStep(distance, sys, st);
    var next := FinaliseStep(sys, st);
    if latest <= st.now {
      AllGone(distance, sys.config, st.now, st.sched);
      assert |next.sched| == |multiset(next.sched)|;
      n := 1;
      FirstIteration(sys, st, 1);
      NoIteration(sys, next);
    } else {
      LeavesLater(distance, sys.config, st.now, st.sched, next.sched);
      DeadlinesKept(distance, sys.config, st.now, st.sched, next.sched, latest);
      var rest := GdpaEndsBy(distance, sys, next, latest);
      n := rest + 1;
      FirstIteration(sys, st, n);
    }
  }

  lemma {:induction false} LatestDeadline(s: seq<JobV>) returns (latest: int)
    ensures forall j :: j in s ==> j.deadline <= latest
  {
    if s == [] {
      latest := 0;
    } else {
      latest := LatestDeadline(s[1..]);
      assert forall j :: j in s ==> j == s[0] || j in s[1..];
      latest := if s[0].deadline > latest then s[0].deadline else latest;
    }
  }

  /**
    Under GDPA `finalise` comes to an end if and only if a task objects to a
    cancellation, or every job that the first `initStep` leaves pending is in the
    first greedy schedule or can be cancelled when it is too late.
   */
  lemma GdpaEndsExactly(distance: nat -> int, sys: System, st: State)
    requires GdpaState(distance, sys, st)
    ensures FinaliseEnds(sys, st) <==>
            AllLeave(distance, sys.config, st.now, st.sched) || FinaliseRefused(sys, st)
  {
    GdpaFacts(distance, sys, st);
    hide FinaliseFor, Survivors, Choice, Droppable, GdpaState, ValidSystem, ValidState, Orderly;
    if AllLeave(distance, sys.config, st.now, st.sched) {
      var latest := LatestDeadline(st.sched);
      var n := GdpaEndsBy(distance, sys, st, latest);
    } else {
      var job :| job in Survivors(sys.config, st.now, st.sched)
                 && job !in Choice(distance, sys.config, st.now, st.sched) && !Droppable(sys.config, job);
      forall n: nat
        ensures FinaliseFor(sys, st, n).1 ==> FinaliseFor(sys, st, n).0.sched != []
      {
        GdpaNeverEnds(distance, sys, st, job, n);
      }
    }
  }

  /** With both cancellation flags on it always comes to an end. */
  lemma GdpaEndsWithBothFlags(distance: nat -> int, sys: System, st: State)
    requires GdpaState(distance, sys, st) && sys.config == Config(true, true)
    ensures FinaliseEnds(sys, st)
  {
    GdpaEndsExactly(distance, sys, st);
  }

  // ----- Without cancellations of late jobs -----

  lemma NobodyAsked(distance: nat -> int, sys: System, st: State)
    requires GdpaState(distance, sys, st) && !sys.config.dlMissCancellations
    ensures ValidSystem(sys) && ValidState(sys, st) && InitStep(sys, st).1 && Schedule(sys, InitStep(sys, st).0).1
  {
    AllSurvive(sys.config, st.now, st.sched);
    var init := InitStep(sys, st).0;
    assert Decide(sys, init) == GdpaDecision(distance, init);
    hide GdpaDecision, Survivors, Orderly;
    DecisionOf(distance, init);
  }

  lemma {:induction false} NothingRefused(distance: nat -> int, sys: System, st: State, n: nat)
    requires GdpaState(distance, sys, st) && !sys.config.dlMissCancellations
    ensures FinaliseFor(sys, st, n).1
    decreases n
  {
    hide FinaliseStep, InitStep, Schedule, GdpaState, FinaliseFor, ValidSystem, ValidState;
    NobodyAsked(distance, sys, st);
    if n == 0 {
      NoIteration(sys, st);
    } else {
      FirstIteration(sys, st, n);
      GdpaStep(distance, sys, st);
      NothingRefused(distance, sys, FinaliseStep(sys, st), n - 1);
    }
  }

  /** A schedule that holds each of the jobs holds them as often as they are pending. */
  lemma HoldsAll(s: seq<JobV>, t: seq<JobV>)
    requires Different(multiset(s)) && forall j :: j in s ==> j in t
    ensures multiset(s) <= multiset(t)
  {
    forall j
      ensures multiset(s)[j] <= multiset(t)[j]
    {
      if j in multiset(s) {
        assert j in s && j in multiset(t);
      }
    }
  }

  /** Every job is in the greedy schedule exactly when the deadline-ordered jobs are feasible. */
  lemma AllChosenExactly(distance: nat -> int, config: Config, now: int, sched: seq<JobV>, sorted: seq<JobV>)
    requires Orderly(sched) && !config.dlMissCancellations && multiset(sorted) == multiset(sched) && Ordered(EDF, sorted)
    ensures AllLeave(distance, config, now, sched) <==> Meets(now, sorted)
  {
    var (list, chosen) := (ListOf(distance, config, now, sched), Choice(distance, config, now, sched));
    AllSurvive(config, now, sched);
    ListFacts(distance, config, now, sched);
    ChoiceFacts(distance, config, now, sched);
    MembersOf(sched, list);
    MembersOf(sorted, sched);
    MembersOf(sched, sorted);
    hide ListOf, Choice, Sorted, Survivors, Greedy, Meets, Ordered, Rejected, Different;
    if AllLeave(distance, config, now, sched) {
      HoldsAll(sorted, chosen);
      SubMeets(now, sorted, chosen);
    }
    if Meets(now, sorted) {
      forall j | j in sched
        ensures j in chosen
      {
        if j !in chosen {
          NotRejected(now, chosen, sorted, j);
          assert false;
        }
      }
    }
  }

  /** Part of a feasible list accepts each further job of it. */
  lemma NotRejected(now: int, chosen: seq<JobV>, whole: seq<JobV>, job: JobV)
    requires Ordered(EDF, chosen) && multiset(chosen) <= multiset(whole) && Meets(now, whole)
    requires job in whole && job !in chosen
    ensures !Rejected(now, chosen, job)
  {
    EnqueueOrdered(EDF, chosen, job);
    EnqueueElements(EDF, chosen, job);
    assert job in multiset(whole) && job !in multiset(chosen);
    SubMeets(now, Enqueue(EDF, chosen, job), whole);
  }

  /**
    Without deadline-miss cancellations `finalise` comes to an end if and only if
    the EDF check finds no miss in the jobs in deadline order.
   */
  lemma GdpaEndsWithoutCancellations(distance: nat -> int, sys: System, st: State, sorted: seq<JobV>)
    requires GdpaState(distance, sys, st) && !sys.config.dlMissCancellations
    requires multiset(sorted) == multiset(st.sched) && Ordered(EDF, sorted)
    ensures FinaliseEnds(sys, st) <==> FirstMiss(st.now, sorted) == |sorted|
  {
    GdpaFacts(distance, sys, st);
    hide GdpaState, AllLeave, Ordered, FirstMiss, FinaliseFor, ValidSystem, ValidState, Orderly;
    GdpaEndsExactly(distance, sys, st);
    forall n: nat
      ensures FinaliseFor(sys, st, n).1
    {
      NothingRefused(distance, sys, st, n);
    }
    AllChosenExactly(distance, sys.config, st.now, st.sched, sorted);
    FirstMissMeets(st.now, sorted);
  }

  // ----- The states of a run -----

  /** All pending jobs arrived differently: before now, or now and of a task before `upto`. */
  ghost predicate Arrived(st: State, upto: nat) {
    && Different(multiset(st.sched))
    && forall j :: j in st.sched ==> j.activation < st.now || (j.activation == st.now && j.task < upto)
  }

  lemma InitStepArrived(sys: System, st: State)
    requires ValidState(sys, st) && Arrived(st, 0)
    ensures Arrived(InitStep(sys, st).0, 0)
  {
    SurvivorsMultiset(sys.config, st.now, st.sched);
    SurvivorsAndDoomed(sys.config, st.now, st.sched);
    FewerDiffer(multiset(InitStep(sys, st).0.sched), multiset(st.sched));
  }

  lemma AddedDiffers(jobs: multiset<JobV>, job: JobV)
    requires Different(jobs) && forall j :: j in jobs ==> !SameArrival(j, job)
    ensures Different(jobs + multiset{job})
  {
    assert job !in jobs;
  }

  lemma EnqueueArrived(policy: Policy, st: State, job: JobV, tasks: seq<TaskState>)
    requires Arrived(st, job.task) && job.activation == st.now
    ensures Arrived(State(st.now, Enqueue(policy, st.sched, job), tasks), job.task + 1)
  {
    EnqueueElements(policy, st.sched, job);
    hide Different, Enqueue;
    assert forall j :: j in multiset(st.sched) ==> j in st.sched && !SameArrival(j, job);
    AddedDiffers(multiset(st.sched), job);
  }

  lemma {:induction false} ActivationsArrived(sys: System, st: State, i: nat)
    requires ValidSystem(sys) && ValidState(sys, st) && i <= |sys.specs| && Arrived(st, i)
    ensures Arrived(Activations(sys, st, i), |sys.specs|)
    decreases |sys.specs| - i
  {
    if i < |sys.specs| {
      var job := Spawn(sys.specs[i], i, st.tasks[i], st.now);
      var tasks := st.tasks[i := Activated(sys.specs[i], st.tasks[i])];
      EnqueueElements(sys.policy, st.sched, job);
      assert Arrived(st, i + 1);
      hide Different, Enqueue, Spawn, ValidSystem, Arrived;
      if Due(st, i) {
        EnqueueArrived(sys.policy, st, job, tasks);
        ActivationsArrived(sys, State(st.now, Enqueue(sys.policy, st.sched, job), tasks), i + 1);
      } else {
        ActivationsArrived(sys, st, i + 1);
      }
    }
  }

  lemma ServeArrived(sys: System, st: State)
    requires ValidSystem(sys) && ValidState(sys, st) && Arrived(st, |sys.specs|)
    ensures Arrived(Tick(Serve(sys, st)), 0)
  {
    DecisionPartitions(sys, st);
    var (kept, next) := (Decide(sys, st).kept, Serve(sys, st));
    ExecuteSchedule(sys, Schedule(sys, st).0);
    assert next.now == st.now;
    assert multiset(kept) <= multiset(st.sched);
    hide Execute, Serve, Schedule;
    FewerDiffer(multiset(kept), multiset(st.sched));
    assert next.sched == kept || next.sched == Executed(kept);
    if kept != [] {
      ExecutedMembers(kept);
      ExecutedDiffer(kept);
    }
  }

  lemma ExecutedDiffer(s: seq<JobV>)
    requires Different(multiset(s)) && s != []
    ensures Different(multiset(Executed(s)))
  {
    ExecutedMultiset(s);
    assert s[0] in multiset(s);
    if s[0].rem > 1 {
      LeftDiffers(multiset(s), s[0], Left(s[0])[0]);
      assert multiset(Left(s[0])) == multiset{Left(s[0])[0]};
    } else {
      FewerDiffer(multiset(Executed(s)), multiset(s));
    }
  }

  lemma StepArrived(sys: System, st: State)
    requires ValidSystem(sys) && ValidState(sys, st) && Arrived(st, 0)
    ensures Arrived(Step(sys, st), 0)
  {
    hide Arrived, InitStep, Activations, Serve;
    InitStepArrived(sys, st);
    ActivationsArrived(sys, InitStep(sys, st).0, 0);
    ServeArrived(sys, Ready(sys, st));
  }

  lemma {:induction false} AlwaysArrived(sys: System, t: nat)
    requires ValidSystem(sys)
    ensures Arrived(At(sys, t), 0)
  {
    hide Step;
    if t > 0 {
      AlwaysArrived(sys, t - 1);
      hide Arrived;
      StepArrived(sys, At(sys, t - 1));
    }
  }

  /** So `finalise` can start with any state of a run, under every configuration and scheduler before it. */
  lemma RunIsOrderly(sys: System, t: nat)
    requires ValidSystem(sys)
    ensures Orderly(At(sys, t).sched)
  {
    AlwaysArrived(sys, t);
    AlwaysConserved(sys, t);
    hide At;
    forall j | j in At(sys, t).sched
      ensures j.rem >= 1
    {
      assert JobOk(sys, j);
    }
  }

  /** A run under GDPA and then `finalise`. */
  lemma GdpaRunEndsExactly(distance: nat -> int, sys: System, t: nat)
    requires ValidSystem(sys) && sys.planner == GdpaPlanner(distance)
    ensures var st := At(sys, t);
            FinaliseEnds(sys, st) <==> AllLeave(distance, sys.config, st.now, st.sched) || FinaliseRefused(sys, st)
  {
    RunIsOrderly(sys, t);
    hide At, FinaliseEnds, FinaliseRefused, AllLeave;
    GdpaEndsExactly(distance, sys, At(sys, t));
  }
}
