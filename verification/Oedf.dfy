/**
  EDF with optional execution (src/schedulers/oedf.cpp): while the schedule is
  infeasible, the job of best cancellation value up to the first miss is taken
  out. The policies derived from it differ in how they value jobs.
 */
module Oedf {
  import opened Machine
  import opened MachineInvariants
  import opened Jobs
  import opened AldScheduling
  import opened EdfFeasibility
  import Utility

  /** `calcValue`, `getComparisonNeutral`, `compare` and the policy's part of `isCancelCandidate`. */
  datatype Values = Values(value: (int, JobV) -> real, neutral: real, better: (real, real) -> bool, accepts: real -> bool)

  datatype Resolution = Resolution(kept: seq<JobV>, cancelled: seq<JobV>, rounds: nat)

  /** Started jobs may only be cancelled when execution cancellations are on. */
  predicate IsCancelCandidate(values: Values, config: Config, job: JobV, value: real) {
    values.accepts(value) && (config.execCancellations || !job.Started())
  }

  function Elapsed(s: seq<JobV>): nat {
    if s == [] then 0 else s[0].et + Elapsed(s[1..])
  }

  /** The value of the job at position p; the jobs before it count with their whole execution times. */
  function ValueAt(values: Values, now: int, s: seq<JobV>, p: nat): real
    requires p < |s|
  {
    values.value(now + Elapsed(s[..p]), s[p])
  }

  /** The best value found when the search stands at candidate b (-1: no candidate). */
  function BestValue(values: Values, now: int, s: seq<JobV>, b: int): real
    requires -1 <= b < |s|
  {
    if b < 0 then values.neutral else ValueAt(values, now, s, b)
  }

  predicate CandidateAt(values: Values, config: Config, now: int, s: seq<JobV>, p: nat)
    requires p < |s|
  {
    IsCancelCandidate(values, config, s[p], ValueAt(values, now, s, p))
  }

  /** The search through the first n jobs: each candidate better than the best so far replaces it. */
  function Best(values: Values, config: Config, now: int, s: seq<JobV>, n: nat): (b: int)
    requires n <= |s|
    ensures -1 <= b < n
    ensures b >= 0 ==> CandidateAt(values, config, now, s, b)
  {
    if n == 0 then -1
    else
      var b := Best(values, config, now, s, n - 1);
      if CandidateAt(values, config, now, s, n - 1)
         && values.better(BestValue(values, now, s, b), ValueAt(values, now, s, n - 1))
      then n - 1 else b
  }

  /** The job to cancel when the job at position p misses its deadline; -1 when there is none. */
  function Victim(values: Values, config: Config, now: int, s: seq<JobV>, p: nat): (v: int)
    requires p < |s|
    ensures -1 <= v <= p
    ensures v >= 0 ==> CandidateAt(values, config, now, s, v)
  {
    var b := Best(values, config, now, s, p + 1);
    if BestValue(values, now, s, b) == values.neutral then -1 else b
  }

  /** The whole of `schedule`; `last` is where the miss examined before now stands (-1: nowhere). */
  function Resolve(values: Values, config: Config, now: int, s: seq<JobV>, last: int): Resolution
    decreases |s|
  {
    var miss := FirstMiss(now, s);
    if miss == |s| || miss == last then Resolution(s, [], 0)
    else
      var v := Victim(values, config, now, s, miss);
      if v < 0 then Resolution(s, [], 1)
      else
        var rest := Resolve(values, config, now, ErasedV(s, v), if v == miss then -1 else miss - 1);
        Resolution(rest.kept, [s[v]] + rest.cancelled, rest.rounds + 1)
  }

  // ----- The choice -----

  /** The values are compared like numbers: strictly and consistently. */
  ghost predicate StrictOrder(better: (real, real) -> bool) {
    && (forall x, y :: better(x, y) ==> !better(y, x))
    && (forall x, y, z :: better(x, y) && !better(z, y) ==> better(x, z))
  }

  /** The chosen job is a candidate that no other candidate beats; nothing is chosen only if no candidate beats the neutral value. */
  lemma {:induction false} BestIsUnbeaten(values: Values, config: Config, now: int, s: seq<JobV>, n: nat)
    requires n <= |s| && StrictOrder(values.better)
    ensures var b := Best(values, config, now, s, n);
            && (b >= 0 ==> values.better(values.neutral, ValueAt(values, now, s, b)))
            && forall p :: 0 <= p < n && CandidateAt(values, config, now, s, p) ==>
                 !values.better(BestValue(values, now, s, b), ValueAt(values, now, s, p))
  {
    if n > 0 {
      hide CandidateAt, ValueAt;
      BestIsUnbeaten(values, config, now, s, n - 1);
    }
  }

  /** Of equally good candidates the first one is chosen: it beats all candidates before it. */
  lemma {:induction false} BestIsFirst(values: Values, config: Config, now: int, s: seq<JobV>, n: nat)
    requires n <= |s| && StrictOrder(values.better)
    ensures var b := Best(values, config, now, s, n);
            forall p :: 0 <= p < b && CandidateAt(values, config, now, s, p) ==>
              values.better(ValueAt(values, now, s, p), ValueAt(values, now, s, b))
  {
    if n > 0 {
      hide CandidateAt, ValueAt;
      BestIsUnbeaten(values, config, now, s, n - 1);
      BestIsFirst(values, config, now, s, n - 1);
    }
  }

  // ----- One removal -----

  lemma {:induction false} FirstMissFacts(time: int, s: seq<JobV>)
    ensures var p := FirstMiss(time, s);
            && Meets(time, s[..p])
            && (p < |s| ==> time + Total(s[..p]) + s[p].rem > s[p].deadline)
    decreases |s|
  {
    if FirstMiss(time, s) > 0 {
      FirstMissFacts(time + s[0].rem, s[1..]);
      var p := FirstMiss(time, s);
      assert s[..p][1..] == s[1..][..p - 1];
    }
  }

  lemma {:induction false} PrefixBeforeMiss(time: int, s: seq<JobV>, p: nat)
    requires p <= |s| && Meets(time, s[..p])
    ensures FirstMiss(time, s) >= p
    decreases |s|
  {
    if p > 0 {
      assert s[..p][1..] == s[1..][..p - 1];
      PrefixBeforeMiss(time + s[0].rem, s[1..], p - 1);
    }
  }

  lemma {:induction false} MeetsEarlier(time: int, time': int, s: seq<JobV>)
    requires time' <= time && Meets(time, s)
    ensures Meets(time', s)
    decreases |s|
  {
    if s != [] {
      MeetsEarlier(time + s[0].rem, time' + s[0].rem, s[1..]);
    }
  }

  /** Taking a job out of a feasible list leaves a feasible list. */
  lemma {:induction false} ErasedMeets(time: int, s: seq<JobV>, p: nat)
    requires p < |s| && Meets(time, s)
    ensures Meets(time, ErasedV(s, p))
    ensures Total(ErasedV(s, p)) == Total(s) - s[p].rem
    decreases |s|
  {
    if p == 0 {
      assert ErasedV(s, p) == s[1..];
      MeetsEarlier(time + s[0].rem, time, s[1..]);
    } else {
      assert ErasedV(s, p)[1..] == ErasedV(s[1..], p - 1);
      ErasedMeets(time + s[0].rem, s[1..], p - 1);
    }
  }

  /** How much too late the first miss ends. */
  function Overload(now: int, s: seq<JobV>, p: nat): int
    requires p < |s|
  {
    now + Total(s[..p]) + s[p].rem - s[p].deadline
  }

  /**
    Removing a job at or before the first miss keeps every job before the miss
    feasible; the same job stays the first miss exactly when the removed job
    stood before it and had less work left than the overload.
   */
  lemma RemovalMovesMiss(now: int, s: seq<JobV>, v: nat)
    requires v <= FirstMiss(now, s) < |s|
    ensures var (miss, after) := (FirstMiss(now, s), FirstMiss(now, ErasedV(s, v)));
            && after >= (if v < miss then miss - 1 else miss)
            && (v < miss ==> (after == miss - 1 <==> s[v].rem < Overload(now, s, miss)))
  {
    var (miss, rest) := (FirstMiss(now, s), ErasedV(s, v));
    FirstMissFacts(now, s);
    if v < miss {
      ErasedMeets(now, s[..miss], v);
      assert ErasedV(s[..miss], v) == rest[..miss - 1];
      assert rest[miss - 1] == s[miss];
      PrefixBeforeMiss(now, rest, miss - 1);
      if s[v].rem < Overload(now, s, miss) {
        FirstMissAt(now, rest, miss - 1);
      } else {
        FirstMissFacts(now, rest);
      }
    } else {
      assert rest[..miss] == s[..miss];
      PrefixBeforeMiss(now, rest, miss);
    }
  }

  // ----- The whole resolution -----

  lemma ErasedMultiset(s: seq<JobV>, p: nat)
    requires p < |s|
    ensures multiset(s) == multiset(ErasedV(s, p)) + multiset{s[p]}
  {
    assert s == s[..p] + [s[p]] + s[p + 1..];
  }

  /** A cancelled job was a candidate with an acceptable value at some time. */
  ghost predicate WasCandidate(values: Values, config: Config, job: JobV) {
    exists time :: IsCancelCandidate(values, config, job, values.value(time, job))
  }

  /** Jobs are only kept or cancelled, and no more rounds are needed than there are jobs. */
  lemma {:induction false} ResolveConserves(values: Values, config: Config, now: int, s: seq<JobV>, last: int)
    ensures var r := Resolve(values, config, now, s, last);
            && multiset(r.kept) + multiset(r.cancelled) == multiset(s)
            && r.rounds <= |s|
    decreases |s|
  {
    hide Victim, FirstMiss;
    var miss := FirstMiss(now, s);
    if miss < |s| && miss != last {
      var v := Victim(values, config, now, s, miss);
      if v >= 0 {
        ResolveConserves(values, config, now, ErasedV(s, v), if v == miss then -1 else miss - 1);
        ErasedMultiset(s, v);
      }
    }
  }

  /** The jobs that are kept stay in order. */
  lemma {:induction false} ResolveKeepsOrder(values: Values, config: Config, now: int, s: seq<JobV>, last: int)
    requires Ordered(EDF, s)
    ensures Ordered(EDF, Resolve(values, config, now, s, last).kept)
    decreases |s|
  {
    hide Victim, FirstMiss, Ordered;
    var miss := FirstMiss(now, s);
    if miss < |s| && miss != last {
      var v := Victim(values, config, now, s, miss);
      if v >= 0 {
        OrderedErased(EDF, s, v);
        ResolveKeepsOrder(values, config, now, ErasedV(s, v), if v == miss then -1 else miss - 1);
      }
    }
  }

  /** Only candidates are cancelled; without execution cancellations these are jobs that have not started. */
  lemma {:induction false} ResolveCancelsCandidates(values: Values, config: Config, now: int, s: seq<JobV>, last: int)
    ensures forall j :: j in Resolve(values, config, now, s, last).cancelled ==>
              WasCandidate(values, config, j) && (!config.execCancellations ==> !j.Started())
    decreases |s|
  {
    hide Victim, FirstMiss;
    var miss := FirstMiss(now, s);
    if miss < |s| && miss != last {
      var v := Victim(values, config, now, s, miss);
      if v >= 0 {
        ResolveCancelsCandidates(values, config, now, ErasedV(s, v), if v == miss then -1 else miss - 1);
        assert IsCancelCandidate(values, config, s[v], values.value(now + Elapsed(s[..v]), s[v]));
      }
    }
  }

  /** The job is executed in time when the list is executed from `now` on. */
  ghost predicate InTime(now: int, s: seq<JobV>, job: JobV) {
    exists p :: 0 <= p < FirstMiss(now, s) && s[p] == job
  }

  lemma RemovalKeepsInTime(now: int, s: seq<JobV>, v: nat, job: JobV)
    requires v <= FirstMiss(now, s) < |s| && InTime(now, s, job) && job != s[v]
    ensures InTime(now, ErasedV(s, v), job)
  {
    RemovalMovesMiss(now, s, v);
    var p :| 0 <= p < FirstMiss(now, s) && s[p] == job;
    assert ErasedV(s, v)[if p < v then p else p - 1] == job;
  }

  /** A job that was in time before is in time afterwards, or it was cancelled. */
  lemma {:induction false} ResolveKeepsInTime(values: Values, config: Config, now: int, s: seq<JobV>, last: int, job: JobV)
    requires InTime(now, s, job)
    ensures var r := Resolve(values, config, now, s, last);
            InTime(now, r.kept, job) || job in r.cancelled
    decreases |s|
  {
    var miss := FirstMiss(now, s);
    if miss < |s| && miss != last {
      var v := Victim(values, config, now, s, miss);
      if v >= 0 && s[v] != job {
        RemovalKeepsInTime(now, s, v, job);
        ResolveKeepsInTime(values, config, now, ErasedV(s, v), if v == miss then -1 else miss - 1, job);
      }
    }
  }

  /** In every round a candidate is found that is the miss itself or has enough work left to make up for the overload. */
  predicate AlwaysRemovesEnough(values: Values, config: Config, now: int, s: seq<JobV>)
    decreases |s|
  {
    var miss := FirstMiss(now, s);
    miss == |s|
    || (var v := Victim(values, config, now, s, miss);
        && v >= 0
        && (v == miss || s[v].rem >= Overload(now, s, miss))
        && AlwaysRemovesEnough(values, config, now, ErasedV(s, v)))
  }

  /**
    `schedule` gives up at a miss it has examined before, so it resolves the
    overload if and only if every single removal suffices for its miss.
   */
  lemma {:induction false} ResolvedExactly(values: Values, config: Config, now: int, s: seq<JobV>, last: int)
    requires last != FirstMiss(now, s) || FirstMiss(now, s) == |s|
    ensures Meets(now, Resolve(values, config, now, s, last).kept) <==> AlwaysRemovesEnough(values, config, now, s)
    decreases |s|
  {
    hide Victim, Meets;
    var miss := FirstMiss(now, s);
    FirstMissMeets(now, s);
    if miss < |s| {
      var v := Victim(values, config, now, s, miss);
      if v >= 0 {
        var rest := ErasedV(s, v);
        RemovalMovesMiss(now, s, v);
        if v < miss && s[v].rem < Overload(now, s, miss) {
          FirstMissMeets(now, rest);
        } else {
          ResolvedExactly(values, config, now, rest, if v == miss then -1 else miss - 1);
        }
      }
    }
  }

  // ----- A condition on the schedule before the call -----

  /** Every job may be cancelled whenever its turn comes, and its value always beats the neutral one. */
  ghost predicate AllCancellable(values: Values, config: Config, s: seq<JobV>) {
    forall i, time :: 0 <= i < |s| ==>
      var value := values.value(time, s[i]);
      IsCancelCandidate(values, config, s[i], value) && values.better(values.neutral, value) && value != values.neutral
  }

  /** Every job has enough work left to make up for the overload of each job behind it. */
  ghost predicate EachCoversOverload(now: int, s: seq<JobV>) {
    forall i, p :: 0 <= i < p < |s| ==> s[i].rem >= Overload(now, s, p)
  }

  lemma {:induction false} TotalErased(s: seq<JobV>, p: nat)
    requires p < |s|
    ensures Total(ErasedV(s, p)) == Total(s) - s[p].rem
  {
    if p == 0 {
      assert ErasedV(s, p) == s[1..];
    } else {
      assert ErasedV(s, p)[1..] == ErasedV(s[1..], p - 1);
      TotalErased(s[1..], p - 1);
    }
  }

  /** Taking a job out raises no overload. */
  lemma OverloadErased(now: int, s: seq<JobV>, v: nat, p: nat)
    requires v < |s| && p < |s| - 1
    ensures Overload(now, ErasedV(s, v), p) <= Overload(now, s, if p < v then p else p + 1)
  {
    if p < v {
      assert ErasedV(s, v)[..p] == s[..p];
    } else {
      assert ErasedV(s, v)[..p] == ErasedV(s[..p + 1], v);
      TotalErased(s[..p + 1], v);
    }
  }

  lemma ErasedKeepsConditions(values: Values, config: Config, now: int, s: seq<JobV>, v: nat)
    requires v < |s| && AllCancellable(values, config, s) && EachCoversOverload(now, s)
    ensures AllCancellable(values, config, ErasedV(s, v)) && EachCoversOverload(now, ErasedV(s, v))
  {
    var r := ErasedV(s, v);
    assert forall i :: 0 <= i < |r| ==> r[i] == s[if i < v then i else i + 1];
    forall i, p | 0 <= i < p < |r|
      ensures r[i].rem >= Overload(now, r, p)
    {
      OverloadErased(now, s, v, p);
      assert s[if i < v then i else i + 1].rem >= Overload(now, s, if p < v then p else p + 1);
    }
  }

  /** Among cancellable jobs one is always found. */
  lemma {:induction false} AlwaysFound(values: Values, config: Config, now: int, s: seq<JobV>, n: nat)
    requires 1 <= n <= |s| && AllCancellable(values, config, s)
    ensures var b := Best(values, config, now, s, n);
            b >= 0 && BestValue(values, now, s, b) != values.neutral
  {
    assert CandidateAt(values, config, now, s, n - 1);
    if n > 1 {
      AlwaysFound(values, config, now, s, n - 1);
    }
  }

  /**
    If every job is cancellable and has enough work left for the overload of each
    job behind it, the overload is resolved, whatever the values prefer.
   */
  lemma {:induction false} ResolvedBeforehand(values: Values, config: Config, now: int, s: seq<JobV>)
    requires AllCancellable(values, config, s) && EachCoversOverload(now, s)
    ensures AlwaysRemovesEnough(values, config, now, s)
    ensures Meets(now, Resolve(values, config, now, s, -1).kept)
    decreases |s|
  {
    var miss := FirstMiss(now, s);
    if miss < |s| {
      AlwaysFound(values, config, now, s, miss + 1);
      var v := Victim(values, config, now, s, miss);
      hide AllCancellable;
      ErasedKeepsConditions(values, config, now, s, v);
      ResolvedBeforehand(values, config, now, ErasedV(s, v));
    }
    ResolvedExactly(values, config, now, s, -1);
  }

  // ----- A schedule that is given up -----

  /** All jobs of the list are candidates of the same value at all times, which beats the neutral one but not itself. */
  ghost predicate SameValue(values: Values, config: Config, s: seq<JobV>, v: real) {
    && v != values.neutral && values.better(values.neutral, v) && !values.better(v, v)
    && forall i, time :: 0 <= i < |s| ==> values.value(time, s[i]) == v && IsCancelCandidate(values, config, s[i], v)
  }

  lemma {:induction false} FirstIsChosen(values: Values, config: Config, now: int, s: seq<JobV>, n: nat, v: real)
    requires 1 <= n <= |s| && SameValue(values, config, s, v)
    ensures Best(values, config, now, s, n) == 0
  {
    if n > 1 {
      FirstIsChosen(values, config, now, s, n - 1, v);
    }
  }

  lemma ThirdMisses(a: JobV, b: JobV, c: JobV)
    requires a.rem == b.rem == 1 && c.rem == 2 && a.deadline == b.deadline == c.deadline == 2
    ensures FirstMiss(0, [a, b, c]) == 2 && FirstMiss(0, [b, c]) == 1 && Meets(0, [c])
  {
    MeetsSnoc(0, [], a);
    MeetsSnoc(0, [a], b);
    MeetsSnoc(0, [], b);
    var (s, t) := ([a, b, c], [b, c]);
    assert s[..2] == [a] + [b] && t[..1] == [] + [b] && [a] == [] + [a];
    FirstMissAt(0, s, 2);
    FirstMissAt(0, t, 1);
  }

  /** With equal values the first job goes, which is not enough; the second one, which would be, is never tried. */
  lemma StopsInfeasible(values: Values, config: Config, a: JobV, b: JobV, c: JobV, v: real)
    requires a.rem == b.rem == 1 && c.rem == 2 && a.deadline == b.deadline == c.deadline == 2
    requires SameValue(values, config, [a, b, c], v)
    ensures Resolve(values, config, 0, [a, b, c], -1).kept == [b, c]
    ensures !Meets(0, [b, c]) && Meets(0, [c]) && CandidateAt(values, config, 0, [b, c], 0)
  {
    var (s, t) := ([a, b, c], [b, c]);
    ThirdMisses(a, b, c);
    FirstMissMeets(0, t);
    FirstIsChosen(values, config, 0, s, 3, v);
    assert s[1] == b && t[0] == b;
    hide FirstMiss, Meets, Best;
    assert ErasedV(s, 0) == t;
    assert Victim(values, config, 0, s, 2) == 0;
    assert Resolve(values, config, 0, t, 1) == Resolution(t, [], 0);
  }

  // ----- The scheduler -----

  lemma {:induction false} ElapsedTake(s: seq<JobV>, i: nat)
    requires i < |s|
    ensures Elapsed(s[..i + 1]) == Elapsed(s[..i]) + s[i].et
  {
    if i > 0 {
      ElapsedTake(s[1..], i - 1);
      assert s[..i + 1][1..] == s[1..][..i] && s[..i][1..] == s[1..][..i - 1];
    }
  }

  lemma SearchStarts(values: Values, config: Config, now: int, s: seq<JobV>)
    ensures Best(values, config, now, s, 0) == -1 && BestValue(values, now, s, -1) == values.neutral
    ensures Elapsed(s[..0]) == 0
  {
  }

  lemma SearchStep(values: Values, config: Config, now: int, s: seq<JobV>, i: nat)
    requires i < |s|
    ensures var b := Best(values, config, now, s, i);
            var val := values.value(now + Elapsed(s[..i]), s[i]);
            var taken := IsCancelCandidate(values, config, s[i], val) && values.better(BestValue(values, now, s, b), val);
            Best(values, config, now, s, i + 1) == (if taken then i else b)
            && BestValue(values, now, s, Best(values, config, now, s, i + 1)) == (if taken then val else BestValue(values, now, s, b))
  {
  }

  lemma SearchEnds(values: Values, config: Config, now: int, s: seq<JobV>, miss: nat)
    requires miss < |s|
    ensures var b := Best(values, config, now, s, miss + 1);
            Victim(values, config, now, s, miss) == if BestValue(values, now, s, b) == values.neutral then -1 else b
  {
  }

  /** One round: how the rest of the resolution depends on the victim. */
  lemma ResolveRound(values: Values, config: Config, now: int, s: seq<JobV>, last: int)
    requires FirstMiss(now, s) < |s| && FirstMiss(now, s) != last
    ensures var (miss, r) := (FirstMiss(now, s), Resolve(values, config, now, s, last));
            var v := Victim(values, config, now, s, miss);
            if v < 0 then r.kept == s && r.cancelled == []
            else
              var rest := Resolve(values, config, now, ErasedV(s, v), if v == miss then -1 else miss - 1);
              r.kept == rest.kept && r.cancelled == [s[v]] + rest.cancelled
  {
  }

  lemma ResolveStops(values: Values, config: Config, now: int, s: seq<JobV>, last: int)
    requires FirstMiss(now, s) == |s| || FirstMiss(now, s) == last
    ensures Resolve(values, config, now, s, last).kept == s && Resolve(values, config, now, s, last).cancelled == []
  {
  }

  /** Comparing the jobs found is comparing their positions. */
  lemma SameMiss(sched: seq<Job>, now: int, last: int, miss: Job?, lastFound: Job?)
    requires Distinct(sched) && -1 <= last < |sched|
    requires last >= 0 ==> lastFound == sched[last]
    requires last < 0 ==> lastFound == null || lastFound !in sched
    requires var p := FirstMiss(now, Views(sched)); if miss == null then p == |sched| else p < |sched| && miss == sched[p]
    ensures var p := FirstMiss(now, Views(sched)); (miss == null || miss == lastFound) <==> (p == |sched| || p == last)
  {
    hide FirstMiss;
  }

  /** The list after the job at position p was taken out, and where the first miss then stands. */
  lemma Removed(sched: seq<Job>, p: nat, v: nat, miss: nat)
    requires Distinct(sched) && p < |sched| && v <= miss < |sched| && sched[p] == sched[v]
    ensures p == v && |Erased(sched, p)| == |sched| - 1
    ensures Views(Erased(sched, p)) == ErasedV(Views(sched), v)
    ensures v < miss ==> Erased(sched, p)[miss - 1] == sched[miss]
    ensures forall j :: j in Erased(sched, p) <==> j in sched && j != sched[v]
  {
    ErasedElements(sched, p);
    ViewsErased(sched, p);
  }

  lemma ViewsAppend(s: seq<Job>, job: Job)
    ensures Views(s + [job]) == Views(s) + [job.View()]
  {
  }

  // ----- The decision of one `schedule` call -----

  /** For each task the utility there would be if its next job failed; tasks without a constraint have no aggregator here. */
  ghost function Predicted(specs: seq<TaskSpec>, tasks: seq<TaskState>): (r: seq<real>)
    ensures |r| == |tasks|
  {
    seq(|tasks|, i requires 0 <= i < |tasks| =>
      if i < |specs| && !specs[i].model.Periodic? && specs[i].model.m > 0
      then Utility.UtilityAfter(specs[i].model.m, specs[i].model.k, tasks[i].utilities + [0.0]) else 0.0)
  }

  /** The values may depend on the predicted utilities of the tasks. */
  ghost function OedfDecision(specs: seq<TaskSpec>, config: Config, valuation: seq<real> -> Values, st: State): Decision {
    var r := Resolve(valuation(Predicted(specs, st.tasks)), config, st.now, st.sched, -1);
    Decision(r.kept, r.cancelled, false)
  }

  ghost function OedfPlanner(specs: seq<TaskSpec>, config: Config, valuation: seq<real> -> Values): Planner {
    Planned((st: State) => OedfDecision(specs, config, valuation, st))
  }

  lemma OedfPlannerIsValid(specs: seq<TaskSpec>, config: Config, valuation: seq<real> -> Values)
    ensures ValidPlanner(OedfPlanner(specs, config, valuation)) && NeverIdles(OedfPlanner(specs, config, valuation))
  {
    var planner := OedfPlanner(specs, config, valuation);
    forall st: State
      ensures Partitions(st.sched, planner.decide(st))
    {
      ResolveConserves(valuation(Predicted(specs, st.tasks)), config, st.now, st.sched, -1);
    }
  }

  class OedfScheduler {
    const base: AldScheduler
    /** How jobs are valued, given the predicted utilities of the tasks. */
    const valuation: seq<real> -> Values

    constructor (base: AldScheduler, valuation: seq<real> -> Values)
      requires base.policy == EDF
      ensures this.base == base && this.valuation == valuation
    {
      this.base, this.valuation := base, valuation;
    }

    /** The search for the job to cancel, up to and including the first miss. */
    method SelectVictim(values: Values, now: int, ghost miss: nat, missJob: Job) returns (current: int)
      requires Distinct(base.mySchedule) && miss < |base.mySchedule| && base.mySchedule[miss] == missJob
      ensures current == Victim(values, base.config, now, Views(base.mySchedule), miss)
    {
      ghost var views := Views(base.mySchedule);
      hide Best, BestValue, Elapsed, Victim, IsCancelCandidate, Views;
      var (currentVal, time, it) := (values.neutral, now, 0);
      current := -1;
      SearchStarts(values, base.config, now, views);
      while it < |base.mySchedule| && base.mySchedule[it] != missJob
        invariant it <= miss
        invariant time == now + Elapsed(views[..it])
        invariant current == Best(values, base.config, now, views, it)
        invariant currentVal == BestValue(values, now, views, current)
      {
        var job := base.mySchedule[it];
        var val := values.value(time, job.View());
        SearchStep(values, base.config, now, views, it);
        ElapsedTake(views, it);
        time := time + job.executionTime;
        if IsCancelCandidate(values, base.config, job.View(), val) {
          if values.better(currentVal, val) {
            current, currentVal := it, val;
          }
        }
        it := it + 1;
      }
      assert it == miss;
      var val := values.value(time, missJob.View());
      SearchStep(values, base.config, now, views, it);
      if IsCancelCandidate(values, base.config, missJob.View(), val) && values.better(currentVal, val) {
        current, currentVal := it, val;
      }
      SearchEnds(values, base.config, now, views, miss);
      if currentVal == values.neutral {
        current := -1;
      }
    }

    /** Cancels jobs until the schedule is feasible or the same miss is found twice. */
    method Schedule(now: int, predicted: seq<real>) returns (cancelled: seq<Job>)
      requires base.Valid(now)
      modifies base, base.dlmon
      ensures base.Valid(now)
      ensures old(base.Checked(now)) ==> base.Checked(now)
      ensures var r := Resolve(valuation(predicted), base.config, now, old(Views(base.mySchedule)), -1);
              Views(base.mySchedule) == r.kept && Views(cancelled) == r.cancelled
      ensures forall j :: j in base.mySchedule || j in cancelled ==> j in old(base.mySchedule)
      ensures forall j :: j in cancelled ==> j !in base.mySchedule
    {
      hide AldScheduler.Valid, AldScheduler.Checked, Views, Resolve, FirstMiss, Victim, Meets, Erased, ErasedV;
      var values := valuation(predicted);
      cancelled := [];
      var lastFoundJob: Job? := null;
      ghost var (last, target) := (-1, Resolve(values, base.config, now, Views(base.mySchedule), -1));
      assert Views(cancelled) == [] by {
        NoViews();
      }
      while true
        invariant base.Valid(now) && (old(base.Checked(now)) ==> base.Checked(now))
        invariant -1 <= last < |base.mySchedule|
        invariant last >= 0 ==> lastFoundJob == base.mySchedule[last]
        invariant last < 0 ==> lastFoundJob == null || lastFoundJob !in base.mySchedule
        invariant var rest := Resolve(values, base.config, now, Views(base.mySchedule), last);
                  rest.kept == target.kept && Views(cancelled) + rest.cancelled == target.cancelled
        invariant forall j :: j in base.mySchedule || j in cancelled ==> j in old(base.mySchedule)
        invariant forall j :: j in cancelled ==> j !in base.mySchedule
        decreases |base.mySchedule|, if last == FirstMiss(now, Views(base.mySchedule)) then 0 else 1
      {
        ghost var views := Views(base.mySchedule);
        var missJob := CheckEDFSchedule(now, base.mySchedule);
        FirstMissMeets(now, views);
        ScheduleDistinct(now);
        SameMiss(base.mySchedule, now, last, missJob, lastFoundJob);
        if missJob == null || missJob == lastFoundJob {
          ResolveStops(values, base.config, now, views, last);
          break;
        }
        last, cancelled := Round(values, now, last, missJob, cancelled);
        lastFoundJob := missJob;
      }
    }

    lemma ScheduleDistinct(now: int)
      requires base.Valid(now)
      ensures Distinct(base.mySchedule)
    {
    }

    /** One pass of the loop, for a miss that was not examined in the pass before. */
    method Round(values: Values, now: int, ghost last: int, missJob: Job, cancelled: seq<Job>) returns (ghost last': int, cancelled': seq<Job>)
      requires base.Valid(now)
      requires ghost var miss := FirstMiss(now, Views(base.mySchedule));
               miss < |base.mySchedule| && missJob == base.mySchedule[miss] && miss != last
      modifies base, base.dlmon
      ensures base.Valid(now) && (old(base.Checked(now)) ==> base.Checked(now))
      ensures -1 <= last' < |base.mySchedule|
      ensures last' >= 0 ==> missJob == base.mySchedule[last']
      ensures last' < 0 ==> missJob !in base.mySchedule
      ensures var (before, after) := (old(Resolve(values, base.config, now, Views(base.mySchedule), last)),
                                      Resolve(values, base.config, now, Views(base.mySchedule), last'));
              after.kept == before.kept && Views(cancelled') + after.cancelled == old(Views(cancelled)) + before.cancelled
      ensures forall j :: j in base.mySchedule ==> j in old(base.mySchedule)
      ensures forall j :: j in cancelled' ==> j in cancelled || (j in old(base.mySchedule) && j !in base.mySchedule)
      ensures |base.mySchedule| < |old(base.mySchedule)|
              || (base.mySchedule == old(base.mySchedule) && last' == FirstMiss(now, Views(base.mySchedule)))
    {
      hide AldScheduler.Valid, AldScheduler.Checked, Views, Resolve, FirstMiss, Victim, Erased, ErasedV, Distinct;
      ghost var (sched, views) := (base.mySchedule, Views(base.mySchedule));
      ghost var miss := FirstMiss(now, views);
      ScheduleDistinct(now);
      ResolveRound(values, base.config, now, views, last);
      var current := SelectVictim(values, now, miss, missJob);
      if current >= 0 {
        var cancel := base.mySchedule[current];
        ghost var found, p := base.RemoveJob(cancel, now);
        Removed(sched, p, current, miss);
        ViewsAppend(cancelled, cancel);
        cancelled' := cancelled + [cancel];
        last' := if current == miss then -1 else miss - 1;
      } else {
        cancelled' := cancelled;
        last' := miss;
        ResolveStops(values, base.config, now, views, last');
      }
    }
  }
}
