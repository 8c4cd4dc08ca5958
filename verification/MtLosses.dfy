/**
  Which runs of the multithreaded runner lose results (src/utils/mtrunner.h): a
  work function that returns NULL ends the aggregator early.
 */
module MtLosses {
  import opened MtRunner

  /** The non-NULL results of all items have been aggregated. */
  ghost predicate NothingLost(p: Params, r: State) {
    forall x: nat :: x < p.items && x !in p.nulls ==> x in r.aggregated
  }

  ghost predicate CompleteRun(p: Params, actions: seq<Action>, r: State) {
    Trace(p, Init(p), actions, r) && r.main.Returned?
  }

  /** Some complete run loses a result. */
  ghost predicate CanLose(p: Params) {
    exists actions, r :: CompleteRun(p, actions, r) && !NothingLost(p, r)
  }

  ghost predicate AllNull(p: Params) {
    forall x: nat :: x < p.items ==> x in p.nulls
  }

  ghost predicate NoneIsNull(p: Params) {
    forall x: nat :: x < p.items ==> x !in p.nulls
  }

  /** In the order of generation no item has a result after the first that has none. */
  ghost predicate NullsAtEnd(p: Params) {
    forall x: nat, y: nat :: x < y < p.items && x in p.nulls ==> y in p.nulls
  }

  /** A step in front of a trace. */
  lemma Before(p: Params, s: State, a: Action, next: State, actions: seq<Action>, r: State)
    requires Enabled(p, s, a) && next == Apply(p, s, a) && Trace(p, next, actions, r)
    ensures Trace(p, s, [a] + actions, r)
  {
  }

  lemma {:induction false} TraceConcat(p: Params, s: State, first: seq<Action>, mid: State, second: seq<Action>, r: State)
    requires Trace(p, s, first, mid) && Trace(p, mid, second, r)
    ensures Trace(p, s, first + second, r)
    decreases |first|
  {
    hide Enabled, Apply;
    if first == [] {
      assert first + second == second;
    } else {
      assert (first + second)[1..] == first[1..] + second;
      TraceConcat(p, Apply(p, s, first[0]), first[1..], mid, second, r);
    }
  }

  /** Every state can be run to the end. */
  lemma {:induction false} RunToEnd(p: Params, s: State) returns (actions: seq<Action>, r: State)
    requires Invariant(p, s)
    ensures Trace(p, s, actions, r) && r.main.Returned?
    ensures s.generated <= p.items
    decreases if s.generated <= p.items then Remaining(p, s) else 0
  {
    assert s.generated <= p.items;
    hide Invariant, Enabled, Apply, Remaining;
    if s.main.Returned? {
      actions, r := [], s;
    } else {
      var a := NeverStuck(p, s);
      KeepsInvariant(p, s, a);
      NotSpuriousRemaining(p, s, a);
      var rest;
      rest, r := RunToEnd(p, Apply(p, s, a));
      Before(p, s, a, Apply(p, s, a), rest, r);
      actions := [a] + rest;
    }
  }

  lemma NotSpuriousRemaining(p: Params, s: State, a: Action)
    requires Invariant(p, s) && Enabled(p, s, a) && !Spurious(a)
    ensures s.generated <= p.items && Apply(p, s, a).generated <= p.items
    ensures Remaining(p, Apply(p, s, a)) < Remaining(p, s)
  {
    StepsRemaining(p, s, a);
  }

  /** Results arrive one after the other. */
  lemma {:induction false} ResultsGrow(p: Params, s: State, actions: seq<Action>, r: State)
    requires Trace(p, s, actions, r)
    ensures s.results <= r.results
    decreases |actions|
  {
    if actions != [] {
      ResultsGrow(p, Apply(p, s, actions[0]), actions[1..], r);
    }
  }

  /** When a NULL has arrived before some other result, every run from there on loses that result. */
  lemma LosesLaterResult(p: Params, actions: seq<Action>, s: State, x: nat, y: nat)
    requires p.threads > 0 && Trace(p, Init(p), actions, s)
    requires x in s.results && y !in s.results && x in p.nulls && y !in p.nulls && y < p.items
    ensures CanLose(p)
  {
    InvariantAtStart(p);
    AlwaysInvariant(p, Init(p), actions, s);
    var rest, r := RunToEnd(p, s);
    var all := actions + rest;
    TraceConcat(p, Init(p), actions, s, rest, r);
    ReturnedState(p, all, r);
    ResultsGrow(p, s, rest, r);
    hide Trace, Invariant, BeforeNull, NullsLast;
    EachOnceDiffers(r.results, p.items);
    assert y in r.results;
    NullArrivedFirst(p, s.results, r.results, x, y);
    assert CompleteRun(p, all, r) && !NothingLost(p, r);
  }

  lemma NullArrivedFirst(p: Params, before: seq<nat>, after: seq<nat>, x: nat, y: nat)
    requires before <= after && x in before && y in after && y !in before && x in p.nulls && y !in p.nulls
    ensures !NullsLast(p, after)
  {
    var i :| 0 <= i < |before| && before[i] == x;
    var j :| 0 <= j < |after| && after[j] == y;
    assert after[i] == x;
    assert forall l :: 0 <= l < |before| ==> before[l] in before && before[l] == after[l];
  }

  /** The items in the order of their generation. */
  function Items(n: nat): seq<nat> {
    seq(n, i => i)
  }

  /** All items below n in the work pool, and nothing else has happened. */
  function Filled(p: Params, n: nat): State {
    Init(p).(generated := n, workPool := Items(n))
  }

  lemma {:induction false} FillPool(p: Params, n: nat) returns (actions: seq<Action>)
    requires n <= p.items
    ensures Trace(p, Init(p), actions, Filled(p, n))
  {
    if n == 0 {
      actions := [];
      assert Items(0) == [];
    } else {
      var before := FillPool(p, n - 1);
      var s := Filled(p, n - 1);
      assert Items(n) == Items(n - 1) + [n - 1];
      assert Apply(p, s, PutWork(-1)) == Filled(p, n);
      Before(p, s, PutWork(-1), Filled(p, n), [], Filled(p, n));
      TraceConcat(p, Init(p), before, s, [PutWork(-1)] + [], Filled(p, n));
      actions := before + ([PutWork(-1)] + []);
    }
  }

  /** The state after one worker has processed the first n items of the pool. */
  function Processed(s: State, n: nat): State
    requires n <= |s.workPool|
  {
    s.(workPool := s.workPool[n..], results := s.results + s.workPool[..n], resultPool := s.resultPool + s.workPool[..n])
  }

  lemma ProcessOne(p: Params, s: State, w: nat)
    requires w < |s.workers| && s.workers[w].Fetching? && s.aggregator.Polling? && |s.workPool| > 0
    ensures Trace(p, s, [GetWork(w), PutResult(w)], Processed(s, 1))
  {
    var s1 := Apply(p, s, GetWork(w));
    var s2 := Apply(p, s1, PutResult(w));
    assert s.workers[w := Working(s.workPool[0])][w := Fetching] == s.workers;
    assert s.workPool[..1] == [s.workPool[0]];
    assert s2 == Processed(s, 1);
    Before(p, s1, PutResult(w), s2, [], s2);
    Before(p, s, GetWork(w), s1, [PutResult(w)] + [], s2);
    assert [GetWork(w)] + ([PutResult(w)] + []) == [GetWork(w), PutResult(w)];
  }

  lemma {:induction false} ProcessMany(p: Params, s: State, w: nat, n: nat) returns (actions: seq<Action>)
    requires w < |s.workers| && s.workers[w].Fetching? && s.aggregator.Polling? && n <= |s.workPool|
    ensures Trace(p, s, actions, Processed(s, n))
  {
    if n == 0 {
      actions := [];
      assert Processed(s, 0) == s;
    } else {
      var before := ProcessMany(p, s, w, n - 1);
      var mid := Processed(s, n - 1);
      ProcessOne(p, mid, w);
      assert s.workPool[..n - 1] + mid.workPool[..1] == s.workPool[..n];
      assert Processed(mid, 1) == Processed(s, n);
      TraceConcat(p, s, before, mid, [GetWork(w), PutResult(w)], Processed(s, n));
      actions := before + [GetWork(w), PutResult(w)];
    }
  }

  /** One worker is enough to lose a result that is generated after a NULL. */
  lemma LoseLater(p: Params, x: nat, y: nat)
    requires p.threads > 0 && x < y < p.items && x in p.nulls && y !in p.nulls
    ensures CanLose(p)
  {
    var fill := FillPool(p, p.items);
    var s := Filled(p, p.items);
    var process := ProcessMany(p, s, 0, x + 1);
    var t := Processed(s, x + 1);
    TraceConcat(p, Init(p), fill, s, process, t);
    assert t.results == Items(p.items)[..x + 1];
    assert t.results[x] == x;
    LosesLaterResult(p, fill + process, t, x, y);
  }

  /** One worker holds item y while another one processes the items up to x. */
  lemma HoldBack(p: Params, x: nat, y: nat) returns (actions: seq<Action>, v: State)
    requires p.threads > 1 && y < x < p.items
    ensures Trace(p, Init(p), actions, v)
    ensures v.results == Items(p.items)[..y] + Items(p.items)[y + 1..][..x - y]
  {
    var fill := FillPool(p, p.items);
    var s := Filled(p, p.items);
    var before := ProcessMany(p, s, 0, y);
    var t := Processed(s, y);
    TraceConcat(p, Init(p), fill, s, before, t);
    var u := Apply(p, t, GetWork(0));
    Before(p, t, GetWork(0), u, [], u);
    var process := ProcessMany(p, u, 1, x - y);
    v := Processed(u, x - y);
    hide Trace, Items;
    TraceConcat(p, Init(p), fill + before, t, [GetWork(0)] + [], u);
    actions := fill + before + ([GetWork(0)] + []) + process;
    TraceConcat(p, Init(p), fill + before + ([GetWork(0)] + []), u, process, v);
  }

  /** Two workers can also lose a result that is generated before a NULL: one of them holds its item meanwhile. */
  lemma LoseEarlier(p: Params, x: nat, y: nat)
    requires p.threads > 1 && y < x < p.items && x in p.nulls && y !in p.nulls
    ensures CanLose(p)
  {
    hide Trace;
    var before, v := HoldBack(p, x, y);
    assert v.results[x - 1] == x;
    LosesLaterResult(p, before, v, x, y);
  }

  /** With one worker the results arrive in the order of generation. */
  ghost predicate InOrder(s: State) {
    && |s.workers| == 1
    && s.results + (if s.workers[0].Working? then [s.workers[0].item] else []) + s.workPool == Items(s.generated)
  }

  lemma GetWorkInOrder(s: State)
    requires InOrder(s) && s.workers[0].Fetching?
    ensures InOrder(ApplyGetWork(s, 0))
  {
    hide Items;
    if s.workPool != [] {
      assert s.workPool == [s.workPool[0]] + s.workPool[1..];
    }
  }

  lemma PutWorkInOrder(p: Params, s: State, woken: int)
    requires InOrder(s) && Enabled(p, s, PutWork(woken))
    ensures InOrder(Apply(p, s, PutWork(woken)))
  {
    assert Items(s.generated + 1) == Items(s.generated) + [s.generated];
    hide Items;
  }

  lemma KeepsOrder(p: Params, s: State, a: Action)
    requires InOrder(s) && Enabled(p, s, a)
    ensures InOrder(Apply(p, s, a))
  {
    hide Items, ApplyGetWork;
    match a
    case PutWork(woken) => PutWorkInOrder(p, s, woken);
    case GetWork(_) => GetWorkInOrder(s);
    case _ =>
  }

  lemma {:induction false} AlwaysInOrder(p: Params, s: State, actions: seq<Action>, r: State)
    requires InOrder(s) && Trace(p, s, actions, r)
    ensures InOrder(r)
    decreases |actions|
  {
    hide InOrder, Enabled, Apply;
    if actions != [] {
      KeepsOrder(p, s, actions[0]);
      AlwaysInOrder(p, Apply(p, s, actions[0]), actions[1..], r);
    }
  }

  /** The parameters with which no complete run loses a result. */
  ghost predicate Lossless(p: Params) {
    AllNull(p) || (p.threads > 0 && NoneIsNull(p)) || (p.threads == 1 && NullsAtEnd(p))
  }

  lemma LosslessRuns(p: Params, actions: seq<Action>, r: State)
    requires Lossless(p) && CompleteRun(p, actions, r)
    ensures NothingLost(p, r)
  {
    if !AllNull(p) {
      ReturnedState(p, actions, r);
      EachOnceDiffers(r.results, p.items);
      assert forall i :: 0 <= i < |r.results| ==> r.results[i] in r.results;
      if p.threads == 1 && NullsAtEnd(p) {
        assert Init(p).results + [] + Init(p).workPool == Items(0);
        AlwaysInOrder(p, Init(p), actions, r);
        InvariantAtStart(p);
        AlwaysInvariant(p, Init(p), actions, r);
        ResultsInOrder(p, r);
      }
      assert NullsLast(p, r.results);
    }
  }

  lemma ResultsInOrder(p: Params, r: State)
    requires InOrder(r) && Invariant(p, r) && r.main.Returned?
    ensures r.results == Items(p.items)
  {
    assert r.workers[0].Exited?;
  }

  lemma LossyRun(p: Params)
    requires !Lossless(p)
    ensures CanLose(p)
  {
    if p.threads == 0 {
      InvariantAtStart(p);
      var actions, r := RunToEnd(p, Init(p));
      ReturnedState(p, actions, r);
      NoWorkersNoResults(p, Init(p), actions, r);
      assert CompleteRun(p, actions, r) && !NothingLost(p, r);
    } else {
      var y: nat :| y < p.items && y !in p.nulls;
      if x: nat :| x < y && x in p.nulls {
        LoseLater(p, x, y);
      } else if p.threads == 1 {
        var x: nat, y': nat :| x < y' < p.items && x in p.nulls && y' !in p.nulls;
        LoseLater(p, x, y');
      } else {
        var x: nat :| x < p.items && x in p.nulls;
        LoseEarlier(p, x, y);
      }
    }
  }

  /**
    No complete run loses a result if and only if all items are NULL, or there is
    a worker and no item is NULL, or there is exactly one worker and the NULL
    items are the last ones.
   */
  lemma NothingLostExactly(p: Params)
    ensures Lossless(p) <==> !CanLose(p)
  {
    if Lossless(p) {
      forall actions, r | CompleteRun(p, actions, r)
        ensures NothingLost(p, r)
      {
        LosslessRuns(p, actions, r);
      }
    } else {
      LossyRun(p);
    }
  }
}
