/**
  The order in which GDPA looks at the pending jobs: by failure distance, then
  by arrival. Jobs that arrived differently have exactly one such order, however
  the scheduler keeps them.
 */
module GdpaOrder {
  import opened Machine
  import opened AldScheduling
  import opened Gdpa

  predicate SameArrival(j: JobV, k: JobV) {
    j.activation == k.activation && j.task == k.task
  }

  /** j was enqueued before k. */
  predicate Arrives(j: JobV, k: JobV) {
    j.activation < k.activation || (j.activation == k.activation && j.task < k.task)
  }

  predicate Precedes(distance: nat -> int, j: JobV, k: JobV) {
    distance(j.task) < distance(k.task) || (distance(j.task) == distance(k.task) && Arrives(j, k))
  }

  /** No two jobs are of the same task and the same instant. */
  ghost predicate Different(jobs: multiset<JobV>) {
    && (forall j :: jobs[j] <= 1)
    && (forall j, k :: j in jobs && k in jobs && SameArrival(j, k) ==> j == k)
  }

  ghost predicate Sorted(distance: nat -> int, s: seq<JobV>) {
    s == [] || ((forall k :: k in s[1..] ==> Precedes(distance, s[0], k)) && Sorted(distance, s[1..]))
  }

  function NoDistance(task: nat): int {
    0
  }

  ghost predicate InArrivalOrder(s: seq<JobV>) {
    Sorted(NoDistance, s)
  }

  /** The list that `schedule` goes through. */
  function DistanceList(distance: nat -> int, s: seq<JobV>): seq<JobV> {
    ByDistance(distance, ByArrival(s))
  }

  // ----- Sorting -----

  lemma {:induction false} InsertByArrivalSorted(s: seq<JobV>, job: JobV)
    requires InArrivalOrder(s) && forall j :: j in s ==> !SameArrival(j, job)
    ensures InArrivalOrder(InsertByArrival(s, job))
  {
    if s != [] && Arrives(s[0], job) {
      InsertByArrivalSorted(s[1..], job);
      var rest := InsertByArrival(s[1..], job);
      InsertByArrivalMembers(s[1..], job);
      assert InsertByArrival(s, job) == [s[0]] + rest && ([s[0]] + rest)[1..] == rest;
    } else {
      if s != [] {
        assert s[0] in s;
        assert forall k :: k in s ==> k == s[0] || k in s[1..];
      }
      assert InsertByArrival(s, job) == [job] + s && ([job] + s)[1..] == s;
    }
  }

  lemma {:induction false} InsertByArrivalMembers(s: seq<JobV>, job: JobV)
    ensures forall j :: j in InsertByArrival(s, job) <==> j in s || j == job
  {
    if s != [] {
      InsertByArrivalMembers(s[1..], job);
    }
  }

  lemma {:induction false} ByArrivalMembers(s: seq<JobV>)
    ensures forall j :: j in ByArrival(s) <==> j in s
  {
    if s != [] {
      ByArrivalMembers(s[..|s| - 1]);
      InsertByArrivalMembers(ByArrival(s[..|s| - 1]), s[|s| - 1]);
      assert s == s[..|s| - 1] + [s[|s| - 1]];
    }
  }

  /** The last job of a list of different jobs is not among the others, and differs from them. */
  lemma LastDiffers(rest: seq<JobV>, last: JobV)
    requires Different(multiset(rest + [last]))
    ensures Different(multiset(rest))
    ensures forall j :: j in rest ==> !SameArrival(j, last)
  {
    var all := multiset(rest + [last]);
    assert all == multiset(rest) + multiset{last};
    forall j | j in multiset(rest)
      ensures j in all && !SameArrival(j, last)
    {
      assert all[j] >= multiset(rest)[j] >= 1 && last in all;
    }
    assert forall j :: j in rest ==> j in multiset(rest);
    assert forall j :: multiset(rest)[j] <= all[j];
  }

  lemma {:induction false} ByArrivalSorted(s: seq<JobV>)
    requires Different(multiset(s))
    ensures InArrivalOrder(ByArrival(s))
  {
    if s != [] {
      assert s == s[..|s| - 1] + [s[|s| - 1]];
      LastDiffers(s[..|s| - 1], s[|s| - 1]);
      ByArrivalSorted(s[..|s| - 1]);
      ByArrivalMembers(s[..|s| - 1]);
      InsertByArrivalSorted(ByArrival(s[..|s| - 1]), s[|s| - 1]);
    }
  }

  lemma {:induction false} InsertByDistanceKeepsSorted(distance: nat -> int, s: seq<JobV>, job: JobV)
    requires Sorted(distance, s) && forall j :: j in s ==> Arrives(j, job)
    ensures Sorted(distance, InsertByDistance(distance, s, job))
  {
    if s != [] && distance(s[0].task) <= distance(job.task) {
      InsertByDistanceKeepsSorted(distance, s[1..], job);
      InsertByDistanceElements(distance, s[1..], job);
      var rest := InsertByDistance(distance, s[1..], job);
      assert ([s[0]] + rest)[1..] == rest;
    } else {
      assert ([job] + s)[1..] == s;
      assert forall k :: k in s ==> k == s[0] || k in s[1..];
    }
  }

  lemma {:induction false} LastArrives(s: seq<JobV>, x: nat)
    requires InArrivalOrder(s) && x + 1 < |s|
    ensures Arrives(s[x], s[|s| - 1])
  {
    if x == 0 {
      assert s[1..][|s| - 2] in s[1..] && s[|s| - 1] == s[1..][|s| - 2];
    } else {
      LastArrives(s[1..], x - 1);
    }
  }

  lemma {:induction false} PrefixInOrder(s: seq<JobV>, n: nat)
    requires InArrivalOrder(s) && n <= |s|
    ensures InArrivalOrder(s[..n])
  {
    if n > 0 {
      PrefixInOrder(s[1..], n - 1);
      assert s[..n][1..] == s[1..][..n - 1];
      assert s[..n][0] == s[0];
    }
  }

  lemma {:induction false} ByDistanceKeepsSorted(distance: nat -> int, queue: seq<JobV>)
    requires InArrivalOrder(queue)
    ensures Sorted(distance, ByDistance(distance, queue))
  {
    if queue != [] {
      var rest := queue[..|queue| - 1];
      PrefixInOrder(queue, |queue| - 1);
      ByDistanceKeepsSorted(distance, rest);
      ByDistanceSorts(distance, rest);
      forall j | j in rest
        ensures Arrives(j, queue[|queue| - 1])
      {
        var x :| 0 <= x < |rest| && rest[x] == j;
        LastArrives(queue, x);
      }
      InsertByDistanceKeepsSorted(distance, ByDistance(distance, rest), queue[|queue| - 1]);
    }
  }

  /** The list holds the pending jobs, each once, nearest distance first and equal distances by arrival. */
  lemma DistanceListSorted(distance: nat -> int, s: seq<JobV>)
    requires Different(multiset(s))
    ensures Sorted(distance, DistanceList(distance, s))
    ensures multiset(DistanceList(distance, s)) == multiset(s)
  {
    ByArrivalSorted(s);
    ByArrivalElements(s);
    ByDistanceKeepsSorted(distance, ByArrival(s));
    ByDistanceSorts(distance, ByArrival(s));
  }

  lemma FrontIsFirst(distance: nat -> int, s: seq<JobV>, t: seq<JobV>)
    requires Sorted(distance, s) && Sorted(distance, t) && multiset(s) == multiset(t) && s != []
    ensures t != [] && s[0] == t[0]
  {
    assert |s| == |multiset(s)| && |t| == |multiset(t)|;
    assert s[0] in multiset(s) && t[0] in multiset(t);
    var (a, b, restS, restT) := (s[0], t[0], s[1..], t[1..]);
    assert a in t && b in s;
    assert (a == b || a in restT) && (a == b || b in restS);
  }

  lemma RestSorted(distance: nat -> int, s: seq<JobV>)
    requires Sorted(distance, s) && s != []
    ensures Sorted(distance, s[1..]) && multiset(s[1..]) == multiset(s) - multiset{s[0]}
  {
    assert s == [s[0]] + s[1..];
  }

  /** There is only one sorted list of the same jobs. */
  lemma {:induction false} SortedUnique(distance: nat -> int, s: seq<JobV>, t: seq<JobV>)
    requires Sorted(distance, s) && Sorted(distance, t) && multiset(s) == multiset(t)
    ensures s == t
    decreases |s|
  {
    assert |s| == |multiset(s)| && |t| == |multiset(t)|;
    if s != [] {
      FrontIsFirst(distance, s, t);
      hide Sorted;
      RestSorted(distance, s);
      RestSorted(distance, t);
      SortedUnique(distance, s[1..], t[1..]);
    }
  }

  // ----- The object's ready queue -----

  /**
    For a ready queue in the order of arrival the loops of `schedule` compute the
    decision of the planner: the same schedule comes first, and the processor
    idles exactly when it is empty.
   */
  lemma QueueDecides(distance: nat -> int, st: State, queue: seq<JobV>)
    requires InArrivalOrder(queue) && multiset(queue) == multiset(st.sched) && Different(multiset(queue))
    ensures ByArrival(st.sched) == queue
    ensures var (d, schedule) := (GdpaDecision(distance, st), Greedy(st.now, ByDistance(distance, queue)));
            && d.kept == schedule + NotChosen(queue, multiset(schedule))
            && d.idle == (schedule == [])
  {
    ByArrivalSorted(st.sched);
    ByArrivalElements(st.sched);
    SortedUnique(NoDistance, ByArrival(st.sched), queue);
  }

  /** A job that is enqueued after all others keeps the order. */
  lemma {:induction false} EnqueuedInOrder(queue: seq<JobV>, job: JobV)
    requires InArrivalOrder(queue) && forall j :: j in queue ==> Arrives(j, job)
    ensures InArrivalOrder(queue + [job])
  {
    if queue == [] {
      assert queue + [job] == [job];
    } else {
      EnqueuedInOrder(queue[1..], job);
      assert (queue + [job])[1..] == queue[1..] + [job];
    }
  }

  /** So does a job that leaves. */
  lemma {:induction false} ErasedInOrder(queue: seq<JobV>, p: nat)
    requires p < |queue| && InArrivalOrder(queue)
    ensures InArrivalOrder(ErasedV(queue, p))
  {
    if p == 0 {
      assert ErasedV(queue, 0) == queue[1..];
    } else {
      ErasedInOrder(queue[1..], p - 1);
      assert ErasedV(queue, p) == [queue[0]] + ErasedV(queue[1..], p - 1);
      assert ErasedV(queue, p)[1..] == ErasedV(queue[1..], p - 1);
    }
  }
}
