/**
  The multithreaded runner (src/utils/mtrunner.h): a generator thread, worker
  threads and an aggregator thread around two locked pools, as a state machine.

  Each step is what one thread does while it holds one lock, from acquiring the
  lock (or being woken) to releasing it (or going to sleep); steps of different
  threads are interleaved arbitrarily. Work items are numbered in the order of
  their generation, and a result goes by the number of its item.
 */
module MtRunner {

  /** `nulls` are the items for which the work function returns NULL. */
  datatype Params = Params(items: nat, threads: nat, nulls: set<nat>)

  datatype Worker = Fetching | Waiting | Working(item: nat) | Exited | Aborted

  datatype Aggregator = Polling | Asleep | Aggregating(item: nat) | Ended | Crashed

  /** How far `run` has come. */
  datatype Main = JoinGenerator | JoinWorkers(joined: nat) | JoinAggregator | Returned

  /** `results` records, beside the program's state, all results in the order of their arrival. */
  datatype State = State(
    generated: nat, generationFinished: bool, workPool: seq<nat>, workers: seq<Worker>,
    results: seq<nat>, resultPool: seq<nat>, workFinished: bool,
    aggregator: Aggregator, aggregated: seq<nat>, main: Main)

  datatype Action =
    | PutWork(woken: int)
    | FinishGeneration
    | GetWork(worker: nat)
    | PutResult(worker: nat)
    | GetResult
    | Aggregate
    | Join
    | WakeWorker(worker: nat)
    | WakeAggregator

  function Init(p: Params): State {
    State(0, false, [], seq(p.threads, _ => Fetching), [], [], false, Polling, [], JoinGenerator)
  }

  /** Wake-ups without a notification. */
  predicate Spurious(a: Action) {
    a.WakeWorker? || a.WakeAggregator?
  }

  predicate NoneWaiting(workers: seq<Worker>) {
    forall i :: 0 <= i < |workers| ==> !workers[i].Waiting?
  }

  /** The thread that takes the step has come to it and is not asleep. */
  predicate Enabled(p: Params, s: State, a: Action) {
    match a
    case PutWork(woken) =>
      && !s.generationFinished && s.generated < p.items
      && (if 0 <= woken < |s.workers| then s.workers[woken].Waiting? else NoneWaiting(s.workers))
    case FinishGeneration => !s.generationFinished && s.generated == p.items
    case GetWork(i) => i < |s.workers| && s.workers[i].Fetching?
    case PutResult(i) => i < |s.workers| && s.workers[i].Working?
    case GetResult => s.aggregator.Polling?
    case Aggregate => s.aggregator.Aggregating?
    case Join => JoinEnabled(s)
    case WakeWorker(i) => i < |s.workers| && s.workers[i].Waiting?
    case WakeAggregator => s.aggregator.Asleep?
  }

  /** The thread that `run` waits for has ended. */
  predicate JoinEnabled(s: State) {
    match s.main
    case JoinGenerator => s.generationFinished
    case JoinWorkers(k) => k < |s.workers| ==> s.workers[k].Exited?
    case JoinAggregator => s.aggregator.Ended?
    case Returned => false
  }

  function WakeAll(workers: seq<Worker>): (r: seq<Worker>)
    ensures |r| == |workers|
  {
    seq(|workers|, i requires 0 <= i < |workers| => if workers[i].Waiting? then Fetching else workers[i])
  }

  function NotifyAggregator(a: Aggregator): Aggregator {
    if a.Asleep? then Polling else a
  }

  function Apply(p: Params, s: State, a: Action): State
    requires Enabled(p, s, a)
  {
    match a
    case PutWork(woken) =>
      s.(workPool := s.workPool + [s.generated], generated := s.generated + 1,
      workers := if 0 <= woken < |s.workers| then s.workers[woken := Fetching] else s.workers)
    case FinishGeneration => s.(generationFinished := true, workers := WakeAll(s.workers))
    case GetWork(i) => ApplyGetWork(s, i)
    case PutResult(i) =>
      var item := s.workers[i].item;
      s.(results := s.results + [item], resultPool := s.resultPool + [item],
      workers := s.workers[i := Fetching], aggregator := NotifyAggregator(s.aggregator))
    case GetResult => ApplyGetResult(p, s)
    case Aggregate => s.(aggregated := s.aggregated + [s.aggregator.item], aggregator := Polling)
    case Join => ApplyJoin(s)
    case WakeWorker(i) => s.(workers := s.workers[i := Fetching])
    case WakeAggregator => s.(aggregator := Polling)
  }

  /** `getWork`, and the end of the worker when it returns NULL. */
  function ApplyGetWork(s: State, i: nat): State
    requires i < |s.workers|
  {
    if !s.generationFinished && |s.workPool| == 0 then s.(workers := s.workers[i := Waiting])
    else if |s.workPool| > 0 then
      s.(workers := s.workers[i := Working(s.workPool[0])], workPool := s.workPool[1..])
    else if s.generationFinished then s.(workers := s.workers[i := Exited])
    else s.(workers := s.workers[i := Aborted])
  }

  /** `getResult`, and the end of the aggregator when it returns NULL. */
  function ApplyGetResult(p: Params, s: State): State {
    if !s.workFinished && |s.resultPool| == 0 then s.(aggregator := Asleep)
    else if |s.resultPool| > 0 then
      var item := s.resultPool[0];
      s.(aggregator := if item in p.nulls then Ended else Aggregating(item), resultPool := s.resultPool[1..])
    else if s.workFinished then s.(aggregator := Ended)
    else s.(aggregator := Crashed)
  }

  function ApplyJoin(s: State): State {
    match s.main
    case JoinGenerator => s.(main := JoinWorkers(0))
    case JoinWorkers(k) =>
      if k < |s.workers| then s.(main := JoinWorkers(k + 1))
      else s.(workFinished := true, aggregator := NotifyAggregator(s.aggregator), main := JoinAggregator)
    case _ => s.(main := Returned)
  }

  /** The actions lead from s to r. */
  ghost predicate Trace(p: Params, s: State, actions: seq<Action>, r: State)
    decreases |actions|
  {
    if actions == [] then r == s
    else Enabled(p, s, actions[0]) && Trace(p, Apply(p, s, actions[0]), actions[1..], r)
  }

  // ----- The items -----

  function HoldsItem(w: Worker, x: nat): nat {
    if w == Working(x) then 1 else 0
  }

  /** How many workers are working on item x. */
  function Held(workers: seq<Worker>, x: nat): nat {
    if workers == [] then 0 else HoldsItem(workers[0], x) + Held(workers[1..], x)
  }

  lemma {:induction false} HeldUpdate(workers: seq<Worker>, i: nat, w: Worker, x: nat)
    requires i < |workers|
    ensures Held(workers[i := w], x) == Held(workers, x) - HoldsItem(workers[i], x) + HoldsItem(w, x)
  {
    if i == 0 {
      assert workers[i := w][1..] == workers[1..];
    } else {
      assert workers[i := w][1..] == workers[1..][i - 1 := w];
      HeldUpdate(workers[1..], i - 1, w, x);
    }
  }

  lemma {:induction false} NothingHeld(workers: seq<Worker>, x: nat)
    requires forall i :: 0 <= i < |workers| ==> !workers[i].Working?
    ensures Held(workers, x) == 0
  {
    if workers != [] {
      NothingHeld(workers[1..], x);
    }
  }

  lemma {:induction false} HeldWakeAll(workers: seq<Worker>, x: nat)
    ensures Held(WakeAll(workers), x) == Held(workers, x)
  {
    if workers != [] {
      assert WakeAll(workers)[1..] == WakeAll(workers[1..]);
      HeldWakeAll(workers[1..], x);
    }
  }

  /** How often item x occurs in the work pool, with a worker, or among the results. */
  function Occurrences(s: State, x: nat): nat {
    multiset(s.workPool)[x] + Held(s.workers, x) + multiset(s.results)[x]
  }

  /** Every generated item occurs exactly once. */
  ghost predicate Conserved(s: State) {
    forall x: nat :: Occurrences(s, x) == if x < s.generated then 1 else 0
  }

  lemma PoolTaken(pool: seq<nat>)
    requires pool != []
    ensures multiset(pool) == multiset{pool[0]} + multiset(pool[1..])
  {
    assert pool == [pool[0]] + pool[1..];
  }

  lemma PutWorkKeepsItem(p: Params, s: State, woken: int, x: nat)
    requires Enabled(p, s, PutWork(woken))
    ensures Occurrences(Apply(p, s, PutWork(woken)), x) == Occurrences(s, x) + if x == s.generated then 1 else 0
  {
    if 0 <= woken < |s.workers| {
      HeldUpdate(s.workers, woken, Fetching, x);
    }
    hide Held;
  }

  lemma PutResultKeepsItem(p: Params, s: State, i: nat, x: nat)
    requires Enabled(p, s, PutResult(i))
    ensures Occurrences(Apply(p, s, PutResult(i)), x) == Occurrences(s, x)
  {
    HeldUpdate(s.workers, i, Fetching, x);
    hide Held;
  }

  lemma GetWorkKeepsItem(s: State, i: nat, x: nat)
    requires i < |s.workers| && s.workers[i].Fetching?
    ensures Occurrences(ApplyGetWork(s, i), x) == Occurrences(s, x)
  {
    var w := ApplyGetWork(s, i).workers[i];
    assert ApplyGetWork(s, i).workers == s.workers[i := w];
    HeldUpdate(s.workers, i, w, x);
    hide Held;
    if s.workPool != [] {
      PoolTaken(s.workPool);
    }
  }

  /** A step moves items, and issues a new one only in `putWork`. */
  lemma KeepsItem(p: Params, s: State, a: Action, x: nat)
    requires Enabled(p, s, a)
    ensures Occurrences(Apply(p, s, a), x) == Occurrences(s, x) + if a.PutWork? && x == s.generated then 1 else 0
  {
    hide Held, ApplyGetWork;
    match a
    case PutWork(woken) => PutWorkKeepsItem(p, s, woken, x);
    case FinishGeneration => HeldWakeAll(s.workers, x);
    case GetWork(i) => GetWorkKeepsItem(s, i, x);
    case PutResult(i) => PutResultKeepsItem(p, s, i, x);
    case WakeWorker(i) => HeldUpdate(s.workers, i, Fetching, x);
    case _ =>
  }

  lemma KeepsItems(p: Params, s: State, a: Action)
    requires Conserved(s) && Enabled(p, s, a)
    ensures Conserved(Apply(p, s, a))
  {
    hide Occurrences;
    forall x: nat
      ensures Occurrences(Apply(p, s, a), x) == if x < Apply(p, s, a).generated then 1 else 0
    {
      KeepsItem(p, s, a, x);
    }
  }

  // ----- The workers -----

  ghost predicate WorkersOk(p: Params, s: State) {
    && |s.workers| == p.threads
    && s.generated <= p.items
    && (s.generationFinished ==> s.generated == p.items)
    && forall i :: 0 <= i < |s.workers| ==>
         && !s.workers[i].Aborted?
         && (s.workers[i].Exited? ==> s.generationFinished && s.workPool == [])
         && (s.workers[i].Waiting? ==> !s.generationFinished)
  }

  predicate Awake(w: Worker) {
    w.Fetching? || w.Working?
  }

  /** No wake-up is lost: while there is work in the pool, some worker is awake. */
  ghost predicate SomeoneAwake(s: State) {
    s.workPool != [] && |s.workers| > 0 ==> exists i :: 0 <= i < |s.workers| && Awake(s.workers[i])
  }

  lemma KeepsWorkersOk(p: Params, s: State, a: Action)
    requires WorkersOk(p, s) && Enabled(p, s, a)
    ensures WorkersOk(p, Apply(p, s, a))
  {
  }

  /** A notified worker is awake; if none was waiting, none is asleep. */
  lemma KeepsSomeoneAwake(p: Params, s: State, a: Action)
    requires WorkersOk(p, s) && SomeoneAwake(s) && Enabled(p, s, a)
    ensures SomeoneAwake(Apply(p, s, a))
  {
    var r := Apply(p, s, a);
    if r.workPool != [] && |r.workers| > 0 {
      match a
      case PutWork(woken) =>
        assert Awake(r.workers[if 0 <= woken < |s.workers| then woken else 0]);
      case GetWork(i) =>
        assert Awake(r.workers[i]);
      case PutResult(i) =>
        assert Awake(r.workers[i]);
      case WakeWorker(i) =>
        assert Awake(r.workers[i]);
      case _ =>
        var i :| 0 <= i < |s.workers| && Awake(s.workers[i]);
        assert Awake(r.workers[i]);
    }
  }

  // ----- The aggregator -----

  /** The results the aggregator has taken from the pool. */
  function Taken(s: State): seq<nat>
    requires |s.resultPool| <= |s.results|
  {
    s.results[..|s.results| - |s.resultPool|]
  }

  ghost predicate NoneNull(p: Params, items: seq<nat>) {
    forall i :: 0 <= i < |items| ==> items[i] !in p.nulls
  }

  /** Every result taken was aggregated, except the one in hand or a NULL that ended the aggregator. */
  ghost predicate AggregatorOk(p: Params, s: State) {
    && |s.resultPool| <= |s.results|
    && s.resultPool == s.results[|s.results| - |s.resultPool|..]
    && NoneNull(p, s.aggregated)
    && match s.aggregator
       case Polling => Taken(s) == s.aggregated
       case Asleep => Taken(s) == s.aggregated && s.resultPool == [] && !s.workFinished
       case Aggregating(item) => Taken(s) == s.aggregated + [item] && item !in p.nulls
       case Ended => EndedByNull(p, s) || (Taken(s) == s.aggregated && s.resultPool == [] && s.workFinished)
       case Crashed => false
  }

  ghost predicate EndedByNull(p: Params, s: State)
    requires |s.resultPool| <= |s.results|
  {
    var n := |Taken(s)|;
    n > 0 && Taken(s)[..n - 1] == s.aggregated && Taken(s)[n - 1] in p.nulls
  }

  /** How far `run` has come is justified by what the threads have done. */
  ghost predicate MainOk(s: State) {
    && (!s.main.JoinGenerator? ==> s.generationFinished)
    && (s.main.JoinWorkers? ==> s.main.joined <= |s.workers| && forall i :: 0 <= i < s.main.joined ==> s.workers[i].Exited?)
    && (s.workFinished <==> s.main.JoinAggregator? || s.main.Returned?)
    && (s.workFinished ==> forall i :: 0 <= i < |s.workers| ==> s.workers[i].Exited?)
    && (s.main.Returned? ==> s.aggregator.Ended?)
  }

  lemma KeepsMainOk(p: Params, s: State, a: Action)
    requires MainOk(s) && Enabled(p, s, a)
    ensures MainOk(Apply(p, s, a))
  {
  }

  lemma PutResultKeepsAggregator(p: Params, s: State, i: nat)
    requires AggregatorOk(p, s) && MainOk(s) && Enabled(p, s, PutResult(i))
    ensures AggregatorOk(p, Apply(p, s, PutResult(i)))
  {
    var r := Apply(p, s, PutResult(i));
    assert !s.workFinished;
    assert Taken(r) == Taken(s);
    assert r.resultPool == r.results[|r.results| - |r.resultPool|..];
  }

  lemma GetResultKeepsAggregator(p: Params, s: State)
    requires AggregatorOk(p, s) && s.aggregator.Polling?
    ensures AggregatorOk(p, ApplyGetResult(p, s))
  {
    var r := ApplyGetResult(p, s);
    if s.resultPool != [] {
      assert Taken(r) == Taken(s) + [s.resultPool[0]];
      assert Taken(r)[..|Taken(r)| - 1] == Taken(s);
      assert r.resultPool == r.results[|r.results| - |r.resultPool|..];
    }
  }

  lemma KeepsAggregatorOk(p: Params, s: State, a: Action)
    requires AggregatorOk(p, s) && MainOk(s) && Enabled(p, s, a)
    ensures AggregatorOk(p, Apply(p, s, a))
  {
    match a
    case PutResult(i) => PutResultKeepsAggregator(p, s, i);
    case GetResult => GetResultKeepsAggregator(p, s);
    case Join => JoinKeepsAggregator(p, s);
    case Aggregate => AggregateKeepsAggregator(p, s);
    case WakeAggregator => AggregatorUntouched(p, s.(aggregator := Polling), Apply(p, s, a));
    case _ => AggregatorUntouched(p, s, Apply(p, s, a));
  }

  lemma AggregatorUntouched(p: Params, s: State, r: State)
    requires AggregatorOk(p, s)
    requires r.results == s.results && r.resultPool == s.resultPool && r.aggregated == s.aggregated
    requires r.aggregator == s.aggregator && r.workFinished == s.workFinished
    ensures AggregatorOk(p, r)
  {
    assert Taken(r) == Taken(s);
  }

  lemma JoinKeepsAggregator(p: Params, s: State)
    requires AggregatorOk(p, s) && MainOk(s) && JoinEnabled(s)
    ensures AggregatorOk(p, ApplyJoin(s))
  {
    assert Taken(ApplyJoin(s)) == Taken(s);
  }

  lemma AggregateKeepsAggregator(p: Params, s: State)
    requires AggregatorOk(p, s) && s.aggregator.Aggregating?
    ensures AggregatorOk(p, s.(aggregated := s.aggregated + [s.aggregator.item], aggregator := Polling))
  {
  }

  ghost predicate Invariant(p: Params, s: State) {
    Conserved(s) && WorkersOk(p, s) && SomeoneAwake(s) && AggregatorOk(p, s) && MainOk(s)
  }

  lemma KeepsInvariant(p: Params, s: State, a: Action)
    requires Invariant(p, s) && Enabled(p, s, a)
    ensures Invariant(p, Apply(p, s, a))
  {
    KeepsItems(p, s, a);
    KeepsWorkersOk(p, s, a);
    KeepsSomeoneAwake(p, s, a);
    KeepsAggregatorOk(p, s, a);
    KeepsMainOk(p, s, a);
  }

  lemma InvariantAtStart(p: Params)
    ensures Invariant(p, Init(p))
  {
    forall x: nat
      ensures Occurrences(Init(p), x) == 0
    {
      NothingHeld(Init(p).workers, x);
    }
  }

  /**
    In every interleaving, spurious wake-ups included: items are conserved, no
    thread aborts, and a non-empty pool has a worker that is awake.
   */
  lemma {:induction false} AlwaysInvariant(p: Params, s: State, actions: seq<Action>, r: State)
    requires Invariant(p, s) && Trace(p, s, actions, r)
    ensures Invariant(p, r)
    decreases |actions|
  {
    hide Invariant, Enabled, Apply;
    if actions != [] {
      KeepsInvariant(p, s, actions[0]);
      AlwaysInvariant(p, Apply(p, s, actions[0]), actions[1..], r);
    }
  }

  // ----- The end -----

  /** The results before the first NULL. */
  function BeforeNull(p: Params, items: seq<nat>): seq<nat> {
    if items == [] || items[0] in p.nulls then [] else [items[0]] + BeforeNull(p, items[1..])
  }

  lemma {:induction false} BeforeNullIs(p: Params, items: seq<nat>, n: nat)
    requires n <= |items| && NoneNull(p, items[..n])
    requires n < |items| ==> items[n] in p.nulls
    ensures BeforeNull(p, items) == items[..n]
  {
    if n > 0 {
      assert items[0] == items[..n][0];
      assert items[..n][1..] == items[1..][..n - 1];
      BeforeNullIs(p, items[1..], n - 1);
    }
  }

  /** No result follows a NULL. */
  ghost predicate NullsLast(p: Params, items: seq<nat>) {
    forall i, j :: 0 <= i < j < |items| && items[i] in p.nulls ==> items[j] in p.nulls
  }

  ghost predicate AllDifferent(items: seq<nat>) {
    forall i, j :: 0 <= i < j < |items| ==> items[i] != items[j]
  }

  /** The items below n, each exactly once, in any order. */
  ghost predicate EachOnce(items: seq<nat>, n: nat) {
    forall x: nat :: multiset(items)[x] == if x < n then 1 else 0
  }

  lemma EachOnceDiffers(items: seq<nat>, n: nat)
    requires EachOnce(items, n)
    ensures AllDifferent(items)
    ensures forall x: nat :: x in items <==> x < n
  {
    forall x: nat
      ensures x in items <==> x < n
    {
      assert x in items <==> multiset(items)[x] > 0;
    }
    forall i, j | 0 <= i < j < |items|
      ensures items[i] != items[j]
    {
      assert items == items[..i] + [items[i]] + items[i + 1..j] + [items[j]] + items[j + 1..];
      assert multiset(items)[items[i]] <= 1;
    }
  }

  lemma {:induction false} BeforeNullPrefix(p: Params, items: seq<nat>)
    ensures var n := |BeforeNull(p, items)|;
            && n <= |items| && BeforeNull(p, items) == items[..n] && NoneNull(p, items[..n])
            && (n < |items| ==> items[n] in p.nulls)
  {
    if items != [] && items[0] !in p.nulls {
      BeforeNullPrefix(p, items[1..]);
      var n := |BeforeNull(p, items)|;
      assert items[..n] == [items[0]] + items[1..][..n - 1];
    }
  }

  lemma PrefixNotNull(p: Params, items: seq<nat>, n: nat)
    requires n <= |items| && NoneNull(p, items[..n])
    ensures forall i :: 0 <= i < n ==> items[i] !in p.nulls
  {
    forall i | 0 <= i < n
      ensures items[i] !in p.nulls
    {
      assert items[..n][i] == items[i];
    }
  }

  /** The results before the first NULL are all there are exactly when no result follows a NULL. */
  lemma BeforeNullIsAll(p: Params, items: seq<nat>)
    requires AllDifferent(items)
    ensures NullsLast(p, items) <==> forall x :: x in items && x !in p.nulls ==> x in BeforeNull(p, items)
  {
    BeforeNullPrefix(p, items);
    var n := |BeforeNull(p, items)|;
    if NullsLast(p, items) {
      forall x | x in items && x !in p.nulls
        ensures x in BeforeNull(p, items)
      {
        var i :| 0 <= i < |items| && items[i] == x;
        assert i < n;
        assert items[..n][i] == x;
      }
    } else {
      var i, j :| 0 <= i < j < |items| && items[i] in p.nulls && items[j] !in p.nulls;
      PrefixNotNull(p, items, n);
    }
  }

  lemma {:induction false} NoWorkersNoResults(p: Params, s: State, actions: seq<Action>, r: State)
    requires p.threads == 0 && s.workers == [] && s.results == [] && Trace(p, s, actions, r)
    ensures r.results == []
    decreases |actions|
  {
    if actions != [] {
      NoWorkersNoResults(p, Apply(p, s, actions[0]), actions[1..], r);
    }
  }

  /**
    When `run` has returned: each item was processed exactly once (if there is a
    worker at all), the results up to the first NULL were aggregated, each once
    and in their order, and these are all the results if and only if no other
    result arrived after a NULL.
   */
  lemma ReturnedState(p: Params, actions: seq<Action>, r: State)
    requires Trace(p, Init(p), actions, r) && r.main.Returned?
    ensures EachOnce(r.results, p.items) <==> p.threads > 0 || p.items == 0
    ensures r.aggregated == BeforeNull(p, r.results)
    ensures p.threads > 0 ==>
              (NullsLast(p, r.results) <==> forall x: nat :: x < p.items && x !in p.nulls ==> x in r.aggregated)
    ensures p.threads > 0 && (forall x: nat :: x < p.items ==> x !in p.nulls) ==> EachOnce(r.aggregated, p.items)
  {
    InvariantAtStart(p);
    AlwaysInvariant(p, Init(p), actions, r);
    AllAggregated(p, r);
    if p.threads > 0 {
      AllProcessed(p, r);
      ResultsAggregated(p, r);
    } else {
      NoWorkersNoResults(p, Init(p), actions, r);
      assert multiset(r.results)[0] == 0;
    }
  }

  lemma AllProcessed(p: Params, r: State)
    requires Invariant(p, r) && r.main.Returned? && p.threads > 0
    ensures EachOnce(r.results, p.items)
  {
    assert r.workers[0].Exited?;
    forall x: nat
      ensures multiset(r.results)[x] == if x < p.items then 1 else 0
    {
      NothingHeld(r.workers, x);
      assert Occurrences(r, x) == multiset(r.results)[x];
    }
  }

  lemma ResultsAggregated(p: Params, r: State)
    requires EachOnce(r.results, p.items) && r.aggregated == BeforeNull(p, r.results)
    ensures NullsLast(p, r.results) <==> forall x: nat :: x < p.items && x !in p.nulls ==> x in r.aggregated
    ensures (forall x: nat :: x < p.items ==> x !in p.nulls) ==> EachOnce(r.aggregated, p.items)
  {
    EachOnceDiffers(r.results, p.items);
    BeforeNullIsAll(p, r.results);
    BeforeNullPrefix(p, r.results);
    hide BeforeNull, NullsLast, AllDifferent;
    if forall x: nat :: x < p.items ==> x !in p.nulls {
      assert forall i :: 0 <= i < |r.results| ==> r.results[i] in r.results;
      assert r.results[..|r.results|] == r.results;
    }
  }

  lemma AllAggregated(p: Params, r: State)
    requires Invariant(p, r) && r.main.Returned?
    ensures r.aggregated == BeforeNull(p, r.results)
  {
    var n := |r.aggregated|;
    assert r.results[..n] == r.aggregated;
    BeforeNullIs(p, r.results, n);
  }

  // ----- Progress -----

  /** Until `run` has returned, some thread can take a step without a spurious wake-up. */
  lemma NeverStuck(p: Params, s: State) returns (a: Action)
    requires Invariant(p, s) && !s.main.Returned?
    ensures Enabled(p, s, a) && !Spurious(a)
  {
    if !s.generationFinished {
      if s.generated == p.items {
        a := FinishGeneration;
      } else if NoneWaiting(s.workers) {
        a := PutWork(-1);
      } else {
        var i :| 0 <= i < |s.workers| && s.workers[i].Waiting?;
        a := PutWork(i);
      }
    } else {
      match s.main
      case JoinGenerator => a := Join;
      case JoinWorkers(k) =>
        if k < |s.workers| && s.workers[k].Fetching? {
          a := GetWork(k);
        } else if k < |s.workers| && s.workers[k].Working? {
          a := PutResult(k);
        } else {
          a := Join;
        }
      case JoinAggregator =>
        if s.aggregator.Polling? {
          a := GetResult;
        } else if s.aggregator.Aggregating? {
          a := Aggregate;
        } else {
          a := Join;
        }
    }
  }

  function WorkerEffort(w: Worker): nat {
    match w
    case Fetching => 1
    case Working(_) => 5
    case _ => 0
  }

  /** How many steps the workers can still take with the items they hold, at most. */
  function Effort(workers: seq<Worker>): nat {
    if workers == [] then 0 else WorkerEffort(workers[0]) + Effort(workers[1..])
  }

  function AggregatorEffort(a: Aggregator): nat {
    match a
    case Polling => 1
    case Aggregating(_) => 2
    case _ => 0
  }

  function MainEffort(p: Params, m: Main): nat {
    match m
    case JoinGenerator => p.threads + 5
    case JoinWorkers(k) => if k <= p.threads then p.threads - k + 4 else 4
    case JoinAggregator => 1
    case Returned => 0
  }

  /** How many steps are still possible without spurious wake-ups, at most. */
  function Remaining(p: Params, s: State): nat
    requires s.generated <= p.items
  {
    7 * (p.items - s.generated) + (if s.generationFinished then 0 else p.threads + 1) + 5 * |s.workPool|
    + Effort(s.workers) + 2 * |s.resultPool| + AggregatorEffort(s.aggregator) + MainEffort(p, s.main)
  }

  lemma {:induction false} EffortUpdate(workers: seq<Worker>, i: nat, w: Worker)
    requires i < |workers|
    ensures Effort(workers[i := w]) == Effort(workers) - WorkerEffort(workers[i]) + WorkerEffort(w)
  {
    if i == 0 {
      assert workers[i := w][1..] == workers[1..];
    } else {
      assert workers[i := w][1..] == workers[1..][i - 1 := w];
      EffortUpdate(workers[1..], i - 1, w);
    }
  }

  lemma {:induction false} EffortWakeAll(workers: seq<Worker>)
    ensures Effort(WakeAll(workers)) <= Effort(workers) + |workers|
  {
    if workers != [] {
      assert WakeAll(workers)[1..] == WakeAll(workers[1..]);
      EffortWakeAll(workers[1..]);
    }
  }

  lemma GetWorkEffort(s: State, i: nat)
    requires i < |s.workers| && s.workers[i].Fetching?
    ensures var r := ApplyGetWork(s, i);
            5 * |r.workPool| + Effort(r.workers) < 5 * |s.workPool| + Effort(s.workers)
  {
    var w := ApplyGetWork(s, i).workers[i];
    assert ApplyGetWork(s, i).workers == s.workers[i := w];
    EffortUpdate(s.workers, i, w);
  }

  /** Every step but a spurious wake-up brings the end nearer; a spurious wake-up costs one more step. */
  lemma StepsRemaining(p: Params, s: State, a: Action)
    requires WorkersOk(p, s) && MainOk(s) && Enabled(p, s, a)
    ensures Apply(p, s, a).generated <= p.items
    ensures !Spurious(a) ==> Remaining(p, Apply(p, s, a)) < Remaining(p, s)
    ensures Spurious(a) ==> Remaining(p, Apply(p, s, a)) == Remaining(p, s) + 1
  {
    hide Effort;
    match a
    case PutWork(woken) =>
      if 0 <= woken < |s.workers| {
        EffortUpdate(s.workers, woken, Fetching);
      }
    case FinishGeneration => EffortWakeAll(s.workers);
    case GetWork(i) => GetWorkEffort(s, i);
    case PutResult(i) => EffortUpdate(s.workers, i, Fetching);
    case WakeWorker(i) => EffortUpdate(s.workers, i, Fetching);
    case _ =>
  }

  function SpuriousWakeUps(actions: seq<Action>): nat {
    if actions == [] then 0 else (if Spurious(actions[0]) then 1 else 0) + SpuriousWakeUps(actions[1..])
  }

  /** With finitely many spurious wake-ups every run comes to an end, and by NeverStuck only when `run` has returned. */
  lemma {:induction false} RunsEnd(p: Params, s: State, actions: seq<Action>, r: State)
    requires Invariant(p, s) && Trace(p, s, actions, r)
    ensures s.generated <= p.items
    ensures |actions| <= Remaining(p, s) + 2 * SpuriousWakeUps(actions)
    decreases |actions|
  {
    assert s.generated <= p.items;
    hide Invariant, Enabled, Apply, Remaining;
    if actions != [] {
      KeepsInvariant(p, s, actions[0]);
      StepsRemaining(p, s, actions[0]);
      RunsEnd(p, Apply(p, s, actions[0]), actions[1..], r);
    }
  }
}
