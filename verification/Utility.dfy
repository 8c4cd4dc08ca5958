/**
  Utilities of finished jobs (src/utility/ucfirm.cpp) and their aggregation over
  a sliding window (src/utility/uawindow.cpp, src/utility/uawmk.cpp). The
  program's `double` values are exact reals here.
 */
module Utility {
  import opened MkPattern
  import opened MkWindow
  import opened Arithmetic

  function Total(s: seq<real>): real {
    if s == [] then 0.0 else s[0] + Total(s[1..])
  }

  /** The last k utilities, filled up with utilities of 1. */
  function UtilityWindow(k: nat, history: seq<real>): (w: seq<real>)
    ensures |w| == k
  {
    if k <= |history| then history[|history| - k..] else seq(k - |history|, _ => 1.0) + history
  }

  /** What the aggregator reports after a history. */
  function UtilityAfter(m: nat, k: nat, history: seq<real>): real
    requires m > 0
  {
    Total(UtilityWindow(k, history)) / m as real
  }

  lemma {:induction false} TotalAppend(s: seq<real>, t: seq<real>)
    ensures Total(s + t) == Total(s) + Total(t)
  {
    if s == [] {
      assert s + t == t;
    } else {
      assert (s + t)[1..] == s[1..] + t;
      TotalAppend(s[1..], t);
    }
  }

  lemma UtilityWindowPush(k: nat, history: seq<real>, u: real)
    requires k > 0
    ensures var w := UtilityWindow(k, history);
            && UtilityWindow(k, history + [u]) == w[1..] + [u]
            && Total(UtilityWindow(k, history + [u])) == Total(w) - w[0] + u
  {
    var w := UtilityWindow(k, history);
    assert UtilityWindow(k, history + [u]) == w[1..] + [u];
    TotalAppend(w[1..], [u]);
  }

  lemma {:induction false} TotalOfOnes(n: nat)
    ensures Total(seq(n, _ => 1.0)) == n as real
  {
    if n > 0 {
      assert seq(n, _ => 1.0)[1..] == seq(n - 1, _ => 1.0);
      TotalOfOnes(n - 1);
    }
  }

  // ----- The circular buffer -----

  lemma {:induction false} LapsDoNotMatter(a: nat, n: nat, laps: nat)
    requires n > 0
    ensures (a + n * laps) % n == a % n
  {
    var q := a / n;
    assert a == n * q + a % n;
    assert n * (q + laps) == n * q + n * laps;
    assert n * (q + laps + 1) == n * (q + laps) + n;
    FloorDivUnique(a + n * laps, n, q + laps);
  }

  class UAWindow {
    const values: array<real>
    var current: nat
    /** All utilities added so far, oldest first. */
    ghost var history: seq<real>

    /** The buffer is read forwards from `current` and holds the newest utility first. */
    ghost predicate Valid()
      reads this, values
    {
      && current < values.Length
      && OldestFirst(values[..], current) == UtilityWindow(values.Length, history)
    }

    constructor (size: nat)
      requires size > 0
      ensures Valid() && fresh(values) && values.Length == size && history == []
    {
      values := new real[size](_ => 1.0);
      current := size - 1;
      history := [];
      new;
      assert OldestFirst(values[..], current) == UtilityWindow(values.Length, history);
    }

    /** The utility added `offset` additions ago; offsets beyond the window start over. */
    method At(offset: nat) returns (u: real)
      requires Valid()
      ensures u == UtilityWindow(values.Length, history)[values.Length - 1 - offset % values.Length]
    {
      var n := values.Length;
      ghost var (o, laps) := (offset % n, offset / n);
      assert current + offset == current + o + n * laps;
      LapsDoNotMatter(current + o, n, laps);
      ModOnce(current + o, n);
      u := values[(current + offset) % n];
      assert OldestFirst(values[..], current)[n - 1 - o] == u;
    }

    method Oldest() returns (u: real)
      requires Valid()
      ensures u == UtilityWindow(values.Length, history)[0]
    {
      hide UtilityWindow;
      ModOnce(values.Length - 1, values.Length);
      u := At(values.Length - 1);
    }

    method AddHook(u: real)
      requires Valid()
      modifies this, values
      ensures Valid() && history == old(history) + [u]
    {
      hide OldestFirst, UtilityWindow, Total;
      ghost var (before, start) := (values[..], current);
      if current == 0 {
        current := current + values.Length;
      }
      current := current - 1;
      values[current] := u;
      history := history + [u];
      UtilityWindowPush(values.Length, old(history), u);
      MoveBack(before, start, u);
      assert values[..] == before[current := u];
    }
  }

  /** The entries of a circular buffer that is read forwards from `current`, in reverse. */
  ghost function OldestFirst(buffer: seq<real>, current: nat): (r: seq<real>)
    requires current < |buffer|
    ensures |r| == |buffer|
  {
    var n := |buffer|;
    seq(n, i requires 0 <= i < n => if current + n - 1 - i < n then buffer[current + n - 1 - i] else buffer[current - 1 - i])
  }

  /** Writing in front of the current entry makes the new entry the newest and drops the oldest. */
  lemma MoveBack(buffer: seq<real>, current: nat, u: real)
    requires current < |buffer|
    ensures var c := if current == 0 then |buffer| - 1 else current - 1;
            OldestFirst(buffer[c := u], c) == OldestFirst(buffer, current)[1..] + [u]
  {
  }

  // ----- The aggregator for (m,k)-constraints -----

  class UAWMK {
    const m: nat
    const k: nat
    const window: UAWindow
    var currentSum: real

    ghost predicate Valid()
      reads this, window, window.values
    {
      && m > 0 && k == window.values.Length
      && window.Valid()
      && currentSum == Total(UtilityWindow(k, window.history))
    }

    constructor (m: nat, k: nat)
      requires 0 < m && 0 < k
      ensures Valid() && fresh(window) && fresh(window.values)
      ensures this.m == m && this.k == k && window.history == []
    {
      this.m, this.k := m, k;
      window := new UAWindow(k);
      currentSum := k as real;
      new;
      TotalOfOnes(k);
      assert UtilityWindow(k, []) == seq(k, _ => 1.0);
    }

    method AddUtility(u: real)
      requires Valid()
      modifies this, window, window.values
      ensures Valid() && window.history == old(window.history) + [u]
    {
      UtilityWindowPush(k, window.history, u);
      var oldest := window.Oldest();
      currentSum := currentSum - oldest;
      window.AddHook(u);
      currentSum := currentSum + u;
    }

    method GetCurrentUtility() returns (r: real)
      requires Valid()
      ensures r == UtilityAfter(m, k, window.history)
    {
      r := currentSum / m as real;
    }

    /** The utility there would be after adding u. */
    method PredictUtility(u: real) returns (r: real)
      requires Valid()
      ensures r == UtilityAfter(m, k, window.history + [u])
    {
      var s := SumAfter(u);
      r := s / m as real;
    }

    /** The window's sum there would be after adding u. */
    method SumAfter(u: real) returns (s: real)
      requires Valid()
      ensures s == Total(UtilityWindow(k, window.history + [u]))
    {
      UtilityWindowPush(k, window.history, u);
      hide Total, UtilityWindow, OldestFirst;
      var oldest := window.Oldest();
      s := currentSum;
      s := s - oldest;
      s := s + u;
    }
  }

  // ----- Utilities and outcomes -----

  /** What a task is told: a job completed at `now`, or a job was cancelled, perhaps after it had started. */
  datatype Event = Complete(now: int, deadline: int) | Cancel(started: bool)

  /** `UCFirmRT`: a job is worth something only if it is not late. */
  function FirmUtility(now: int, deadline: int): real {
    if now <= deadline then 1.0 else 0.0
  }

  /** What the task's aggregator has been given. */
  function Utilities(events: seq<Event>): (u: seq<real>)
    ensures |u| == |events|
  {
    seq(|events|, i requires 0 <= i < |events| =>
      match events[i]
      case Complete(now, deadline) => FirmUtility(now, deadline)
      case Cancel(_) => 0.0)
  }

  /** What the task's monitor has been given: a late completion counts as a success there. */
  function Outcomes(events: seq<Event>): (o: seq<nat>)
    ensures |o| == |events|
  {
    seq(|events|, i requires 0 <= i < |events| => if events[i].Complete? then 1 else 0)
  }

  /** No completion among the last k events was late. */
  ghost predicate RecentlyInTime(k: nat, events: seq<Event>) {
    forall i :: 0 <= i < |events| && |events| - k <= i && events[i].Complete? ==> events[i].now <= events[i].deadline
  }

  /** Each utility is at most the outcome recorded for the same job. */
  ghost predicate Below(utilities: seq<real>, outcomes: seq<nat>) {
    |utilities| == |outcomes| && forall i :: 0 <= i < |utilities| ==> utilities[i] <= outcomes[i] as real
  }

  ghost predicate Same(utilities: seq<real>, outcomes: seq<nat>) {
    |utilities| == |outcomes| && forall i :: 0 <= i < |utilities| ==> utilities[i] == outcomes[i] as real
  }

  lemma {:induction false} BelowTotal(utilities: seq<real>, outcomes: seq<nat>)
    requires Below(utilities, outcomes)
    ensures Total(utilities) <= Sum(outcomes) as real
    ensures Same(utilities, outcomes) ==> Total(utilities) == Sum(outcomes) as real
  {
    if utilities != [] {
      BelowTotal(utilities[1..], outcomes[1..]);
    }
  }

  lemma WindowEntries(k: nat, u: seq<real>, o: seq<nat>, i: nat)
    requires |u| == |o| && i < k
    ensures UtilityWindow(k, u)[i] == if k <= |u| + i then u[|u| + i - k] else 1.0
    ensures Window(k, o)[i] == if k <= |o| + i then o[|o| + i - k] else 1
  {
  }

  /** The last k utilities are the outcomes of the same jobs. */
  ghost predicate RecentlySame(k: nat, utilities: seq<real>, outcomes: seq<nat>) {
    |utilities| == |outcomes|
    && forall i :: 0 <= i < |utilities| && |utilities| - k <= i ==> utilities[i] == outcomes[i] as real
  }

  /** The windows are ordered as the histories are, and equal exactly when the last k entries are. */
  lemma WindowsOfHistories(k: nat, u: seq<real>, o: seq<nat>)
    requires Below(u, o)
    ensures Below(UtilityWindow(k, u), Window(k, o))
    ensures Same(UtilityWindow(k, u), Window(k, o)) <==> RecentlySame(k, u, o)
  {
    forall i | 0 <= i < k
      ensures UtilityWindow(k, u)[i] <= Window(k, o)[i] as real
      ensures RecentlySame(k, u, o) ==> UtilityWindow(k, u)[i] == Window(k, o)[i] as real
    {
      WindowEntries(k, u, o, i);
    }
    if Same(UtilityWindow(k, u), Window(k, o)) {
      forall i | 0 <= i < |u| && |u| - k <= i
        ensures u[i] == o[i] as real
      {
        WindowEntries(k, u, o, i + k - |u|);
        assert UtilityWindow(k, u)[i + k - |u|] == Window(k, o)[i + k - |u|] as real;
      }
    }
  }

  lemma EventsRecorded(k: nat, events: seq<Event>)
    ensures Below(Utilities(events), Outcomes(events))
    ensures RecentlySame(k, Utilities(events), Outcomes(events)) <==> RecentlyInTime(k, events)
  {
    if RecentlySame(k, Utilities(events), Outcomes(events)) {
      forall i | 0 <= i < |events| && |events| - k <= i && events[i].Complete?
        ensures events[i].now <= events[i].deadline
      {
        assert Utilities(events)[i] == Outcomes(events)[i] as real;
      }
    }
  }

  /** After any events the two windows are the same if and only if no completion in them was late. */
  lemma WindowsAgree(k: nat, events: seq<Event>)
    ensures Below(UtilityWindow(k, Utilities(events)), Window(k, Outcomes(events)))
    ensures Same(UtilityWindow(k, Utilities(events)), Window(k, Outcomes(events))) <==> RecentlyInTime(k, events)
  {
    EventsRecorded(k, events);
    WindowsOfHistories(k, Utilities(events), Outcomes(events));
  }

  /**
    A utility of at least 1 means that the constraint holds; when the last k
    entries are the same, it is at least 1 exactly when the constraint holds.
   */
  lemma UtilityShowsFirm(m: nat, k: nat, utilities: seq<real>, outcomes: seq<nat>)
    requires ValidMk(m, k) && Below(utilities, outcomes)
    ensures UtilityAfter(m, k, utilities) >= 1.0 ==> Firm(m, k, outcomes)
    ensures RecentlySame(k, utilities, outcomes) ==> (UtilityAfter(m, k, utilities) >= 1.0 <==> Firm(m, k, outcomes))
  {
    WindowsOfHistories(k, utilities, outcomes);
    hide UtilityWindow, Window, Total, Sum;
    BelowTotal(UtilityWindow(k, utilities), Window(k, outcomes));
    QuotientAtLeastOne(Total(UtilityWindow(k, utilities)), m);
  }

  /** When the last k entries are the same, the utility is the window's number of successes over m. */
  lemma UtilityIsShare(m: nat, k: nat, utilities: seq<real>, outcomes: seq<nat>)
    requires m > 0 && Below(utilities, outcomes) && RecentlySame(k, utilities, outcomes)
    ensures UtilityAfter(m, k, utilities) == Sum(Window(k, outcomes)) as real / m as real
  {
    WindowsOfHistories(k, utilities, outcomes);
    hide UtilityWindow, Window, Total, Sum;
    BelowTotal(UtilityWindow(k, utilities), Window(k, outcomes));
  }

  lemma QuotientAtLeastOne(x: real, m: nat)
    requires m > 0
    ensures x / m as real >= 1.0 <==> x >= m as real
  {
    var q := x / m as real;
    assert q * m as real == x;
  }
}
