/**
  What an (m,k)-firm constraint says about a sequence of job outcomes.

  Outcomes are 0 (failed) or 1 (successful), oldest first. Jobs before the first
  recorded one count as successful.
 */
module MkWindow {
  import opened MkPattern

  function Sum(s: seq<nat>): nat {
    if s == [] then 0 else s[0] + Sum(s[1..])
  }

  function Repeat(v: nat, n: nat): seq<nat> {
    seq(n, _ => v)
  }

  function Last(k: nat, s: seq<nat>): seq<nat>
    requires k <= |s|
  {
    s[|s| - k..]
  }

  /** The last k outcomes of a history, filled up with virtual successes. */
  function Window(k: nat, history: seq<nat>): (w: seq<nat>)
    ensures |w| == k
  {
    if k <= |history| then Last(k, history) else Repeat(1, k - |history|) + history
  }

  /** The (m,k)-constraint holds after a history. */
  predicate Firm(m: nat, k: nat, history: seq<nat>) {
    Sum(Window(k, history)) >= m
  }

  /** How often a full window of k recorded outcomes was below m. */
  function Violations(m: nat, k: nat, history: seq<nat>): nat {
    if history == [] then 0
    else Violations(m, k, history[..|history| - 1])
         + if |history| >= k && Sum(Last(k, history)) < m then 1 else 0
  }

  lemma {:induction false} SumAppend(s: seq<nat>, t: seq<nat>)
    ensures Sum(s + t) == Sum(s) + Sum(t)
  {
    if s == [] {
      assert s + t == t;
    } else {
      assert (s + t)[1..] == s[1..] + t;
      SumAppend(s[1..], t);
    }
  }

  lemma SumTake(s: seq<nat>, i: nat)
    requires i < |s|
    ensures Sum(s[..i + 1]) == Sum(s[..i]) + s[i]
  {
    assert s[..i + 1] == s[..i] + [s[i]];
    SumAppend(s[..i], [s[i]]);
  }

  lemma SumDrop(s: seq<nat>, i: nat)
    requires i < |s|
    ensures Sum(s[i..]) == s[i] + Sum(s[i + 1..])
  {
    assert s[i..][1..] == s[i + 1..];
  }

  lemma {:induction false} SumRepeat(v: nat, n: nat)
    ensures Sum(Repeat(v, n)) == v * n
  {
    if n > 0 {
      assert Repeat(v, n)[1..] == Repeat(v, n - 1);
      SumRepeat(v, n - 1);
    }
  }

  /** Adding an outcome moves the window on by one. */
  lemma WindowPush(k: nat, history: seq<nat>, v: nat)
    requires k > 0
    ensures Window(k, history + [v]) == Window(k, history)[1..] + [v]
    ensures Sum(Window(k, history + [v])) == Sum(Window(k, history)) - Window(k, history)[0] + v
  {
    var w := Window(k, history);
    assert Window(k, history + [v]) == w[1..] + [v];
    SumAppend(w[1..], [v]);
  }

  /** The window of a history that starts from k successes is the window of the history. */
  lemma WindowFromSuccesses(k: nat, history: seq<nat>)
    ensures Last(k, Repeat(1, k) + history) == Window(k, history)
  {
  }

  /** All entries are 0 or 1. */
  ghost predicate Bits(s: seq<nat>) {
    forall i :: 0 <= i < |s| ==> s[i] <= 1
  }

  /** After the n-th outcome the window was full and below m. */
  ghost predicate ViolatedAt(m: nat, k: nat, history: seq<nat>, n: nat) {
    1 <= n <= |history| && k <= n && Sum(Last(k, history[..n])) < m
  }

  ghost function ViolatedTimes(m: nat, k: nat, history: seq<nat>): set<nat> {
    set n | 1 <= n <= |history| && ViolatedAt(m, k, history, n)
  }

  lemma TimesNext(m: nat, k: nat, history: seq<nat>)
    requires history != []
    ensures var (n, before) := (|history|, ViolatedTimes(m, k, history[..|history| - 1]));
            && n !in before
            && ViolatedTimes(m, k, history) == if ViolatedAt(m, k, history, n) then before + {n} else before
  {
    OneOutcomeMore(m, k, history);
    hide ViolatedAt;
  }

  lemma ViolationsNext(m: nat, k: nat, history: seq<nat>)
    requires history != []
    ensures Violations(m, k, history)
         == Violations(m, k, history[..|history| - 1]) + if ViolatedAt(m, k, history, |history|) then 1 else 0
  {
    assert history[..|history|] == history;
    hide Sum;
  }

  /** The violation counter says how often that was so. */
  lemma {:induction false} ViolationsCount(m: nat, k: nat, history: seq<nat>)
    ensures Violations(m, k, history) == |ViolatedTimes(m, k, history)|
  {
    if history == [] {
      assert ViolatedTimes(m, k, history) == {};
    } else {
      ViolationsNext(m, k, history);
      TimesNext(m, k, history);
      hide Violations, ViolatedAt, ViolatedTimes;
      ViolationsCount(m, k, history[..|history| - 1]);
    }
  }

  lemma OneOutcomeMore(m: nat, k: nat, history: seq<nat>)
    requires history != []
    ensures forall n :: 1 <= n < |history| ==>
              (ViolatedAt(m, k, history[..|history| - 1], n) <==> ViolatedAt(m, k, history, n))
  {
    hide Sum, Last;
    var rest := history[..|history| - 1];
    forall n | 1 <= n < |history|
      ensures ViolatedAt(m, k, rest, n) <==> ViolatedAt(m, k, history, n)
    {
      assert rest[..n] == history[..n];
    }
  }

  // ----- Monitors that start from recorded outcomes -----

  /** The m newest outcomes of a state, which lists the oldest first, are successes. */
  predicate NewestSucceeded(m: nat, initial: seq<nat>) {
    forall x :: 0 <= x < |initial| && |initial| - m <= x ==> initial[x] == 1
  }

  /** The constraint held after every part of the history. */
  ghost predicate AlwaysFirm(m: nat, k: nat, history: seq<nat>) {
    forall n :: 0 <= n <= |history| ==> Firm(m, k, history[..n])
  }

  /** With m successes last in its initial state a monitor's window has m successes whenever the constraint holds. */
  lemma RecordedIsFirm(m: nat, k: nat, initial: seq<nat>, history: seq<nat>)
    requires ValidMk(m, k) && |initial| == k && NewestSucceeded(m, initial) && Firm(m, k, history)
    ensures Sum(Window(k, initial + history)) >= m
  {
    var n := |history|;
    if n >= k {
      assert Last(k, initial + history) == Last(k, history);
    } else {
      assert Last(k, initial + history) == initial[n..] + history;
      SumAppend(initial[n..], history);
      if n < k - m {
        assert initial[n..] == initial[n..k - m] + Repeat(1, m);
        SumAppend(initial[n..k - m], Repeat(1, m));
        SumRepeat(1, m);
      } else {
        assert initial[n..] == Repeat(1, k - n);
        SumAppend(Repeat(1, k - n), history);
      }
    }
  }

  lemma {:induction false} FullSum(s: seq<nat>)
    requires Bits(s)
    ensures Sum(s) <= |s|
    ensures Sum(s) == |s| ==> forall i :: 0 <= i < |s| ==> s[i] == 1
  {
    if s != [] {
      FullSum(s[1..]);
      assert forall i :: 1 <= i < |s| ==> s[i] == s[1..][i - 1];
    }
  }

  lemma FailuresStayFirm(m: nat, k: nat)
    requires ValidMk(m, k)
    ensures AlwaysFirm(m, k, Repeat(0, k - m))
  {
    var failures := Repeat(0, k - m);
    forall n | 0 <= n <= |failures|
      ensures Firm(m, k, failures[..n])
    {
      assert failures[..n] == Repeat(0, n);
      assert Window(k, Repeat(0, n)) == Repeat(1, k - n) + Repeat(0, n);
      SumAppend(Repeat(1, k - n), Repeat(0, n));
      SumRepeat(1, k - n);
    }
  }

  /** Whenever the constraint has always held, the monitor's window has m successes. */
  ghost predicate AlwaysShown(m: nat, k: nat, initial: seq<nat>) {
    forall history :: Bits(history) && AlwaysFirm(m, k, history) ==> Sum(Window(k, initial + history)) >= m
  }

  lemma NewestMustSucceed(m: nat, k: nat, initial: seq<nat>)
    requires ValidMk(m, k) && |initial| == k && Bits(initial)
    requires Sum(Window(k, initial + Repeat(0, k - m))) >= m
    ensures NewestSucceeded(m, initial)
  {
    var (newest, failures) := (initial[k - m..], Repeat(0, k - m));
    assert Window(k, initial + failures) == newest + failures;
    SumAppend(newest, failures);
    SumRepeat(0, k - m);
    FullSum(newest);
    assert forall x :: k - m <= x < k ==> initial[x] == newest[x - (k - m)];
  }

  /**
    The initial states from which a monitor's window never shows fewer than m
    successes while the constraint holds are exactly those whose m newest
    outcomes are successes.
   */
  lemma InitialStateMatters(m: nat, k: nat, initial: seq<nat>)
    requires ValidMk(m, k) && |initial| == k && Bits(initial)
    ensures NewestSucceeded(m, initial) <==> AlwaysShown(m, k, initial)
  {
    hide Sum, Window, NewestSucceeded;
    if NewestSucceeded(m, initial) {
      forall history | Bits(history) && AlwaysFirm(m, k, history)
        ensures Sum(Window(k, initial + history)) >= m
      {
        assert history[..|history|] == history;
        RecordedIsFirm(m, k, initial, history);
      }
    }
    if AlwaysShown(m, k, initial) {
      FailuresStayFirm(m, k);
      NewestMustSucceed(m, k, initial);
    }
  }

  // ----- Fixed patterns keep the constraint -----

  /** Every mandatory job of the pattern succeeded; optional jobs ended arbitrarily. */
  ghost predicate MandatorySucceed(history: seq<nat>, spin: nat, m: nat, k: nat)
    requires ValidMk(m, k)
  {
    forall j :: 0 <= j < |history| && IsJobMandatory(j, spin, m, k) ==> history[j] >= 1
  }

  lemma {:induction false} StretchSum(history: seq<nat>, from: nat, len: nat, spin: nat, m: nat, k: nat)
    requires ValidMk(m, k)
    requires from + len <= |history|
    requires MandatorySucceed(history, spin, m, k)
    ensures Sum(history[from..from + len]) >= MandatoryCount(from, len, spin, m, k)
  {
    if len > 0 {
      StretchSum(history, from, len - 1, spin, m, k);
      assert history[from..from + len] == history[from..from + len - 1] + [history[from + len - 1]];
      SumAppend(history[from..from + len - 1], [history[from + len - 1]]);
    }
  }

  /**
    If every mandatory job succeeds, the constraint holds after every history,
    also while fewer than k outcomes are recorded.
   */
  lemma PatternKeepsFirm(history: seq<nat>, spin: nat, m: nat, k: nat)
    requires ValidMk(m, k)
    requires MandatorySucceed(history, spin, m, k)
    ensures Firm(m, k, history)
  {
    hide Sum, IsJobMandatory, MandatoryCount, MandatorySucceed;
    var n := |history|;
    if k <= n {
      StretchSum(history, n - k, k, spin, m, k);
      WindowCount(n - k, spin, m, k);
      assert history[n - k..n] == Last(k, history);
    } else {
      StretchSum(history, 0, n, spin, m, k);
      assert history[0..n] == history;
      PartialWindowCount(0, n, spin, m, k);
      SumAppend(Repeat(1, k - n), history);
      SumRepeat(1, k - n);
    }
  }

  /** If every mandatory job succeeds, no violation is ever counted. */
  lemma {:induction false} PatternNeverViolates(history: seq<nat>, spin: nat, m: nat, k: nat)
    requires ValidMk(m, k)
    requires MandatorySucceed(history, spin, m, k)
    ensures Violations(m, k, history) == 0
  {
    if history != [] {
      PatternNeverViolates(history[..|history| - 1], spin, m, k);
      PatternKeepsFirm(history, spin, m, k);
    }
  }

  /** The pattern is tight: failing all optional jobs leaves exactly m successes in every full window. */
  lemma {:induction false} PatternIsTight(history: seq<nat>, from: nat, len: nat, spin: nat, m: nat, k: nat)
    requires ValidMk(m, k)
    requires from + len <= |history|
    requires forall j :: 0 <= j < |history| ==>
                           history[j] == if IsJobMandatory(j, spin, m, k) then 1 else 0
    ensures Sum(history[from..from + len]) == MandatoryCount(from, len, spin, m, k)
    ensures len == k ==> Sum(history[from..from + len]) == m
  {
    if len > 0 {
      PatternIsTight(history, from, len - 1, spin, m, k);
      assert history[from..from + len] == history[from..from + len - 1] + [history[from + len - 1]];
      SumAppend(history[from..from + len - 1], [history[from + len - 1]]);
    }
    if len == k {
      WindowCount(from, spin, m, k);
    }
  }

  // ----- Failure distance -----

  /** The window after x further failures. */
  lemma {:induction false} WindowAfterFailures(k: nat, history: seq<nat>, x: nat)
    requires x <= k
    ensures Window(k, history + Repeat(0, x)) == Window(k, history)[x..] + Repeat(0, x)
    ensures Sum(Window(k, history + Repeat(0, x))) == Sum(Window(k, history)[x..])
  {
    var w := Window(k, history);
    assert Window(k, history + Repeat(0, x)) == w[x..] + Repeat(0, x);
    SumAppend(w[x..], Repeat(0, x));
    SumRepeat(0, x);
  }

  lemma {:induction false} SuffixSumMonotone(w: seq<nat>, x: nat, y: nat)
    requires x <= y <= |w|
    ensures Sum(w[y..]) <= Sum(w[x..])
  {
    assert w[x..] == w[x..y] + w[y..];
    SumAppend(w[x..y], w[y..]);
  }
}
