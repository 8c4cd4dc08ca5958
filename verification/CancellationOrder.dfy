/**
  The order in which the cancellations of one step are reported to the tasks
  does not matter: neither for what the tasks record nor for their answers.
 */
module CancellationOrder {
  import opened MkWindow
  import opened Machine

  /** Two failures of one task leave the same record in either order. */
  lemma SameTaskSwap(ts: TaskState, a: JobV, b: JobV)
    ensures CancelledJob(CancelledJob(ts, a), b) == CancelledJob(CancelledJob(ts, b), a)
    ensures CancelledJob(ts, a).history == CancelledJob(ts, b).history
  {
  }

  /** A strict task answers for the job alone; every other task answers for the record alone. */
  lemma HooksSwap(spec: TaskSpec, ts: TaskState, a: JobV, b: JobV)
    ensures CancelHook(spec, CancelledJob(ts, a), a) && CancelHook(spec, CancelledJob(CancelledJob(ts, a), b), b)
       <==> CancelHook(spec, CancelledJob(ts, b), b) && CancelHook(spec, CancelledJob(CancelledJob(ts, b), a), a)
  {
    hide Firm;
  }

  lemma UpdateSwap<T>(s: seq<T>, i: nat, x: T, j: nat, y: T)
    requires i < |s| && j < |s| && i != j
    ensures s[i := x][j := y] == s[j := y][i := x]
  {
  }

  lemma UpdateTwice<T>(s: seq<T>, i: nat, x: T, y: T)
    requires i < |s|
    ensures s[i := x][i := y] == s[i := y]
  {
  }

  lemma CancelSwap(specs: seq<TaskSpec>, tasks: seq<TaskState>, a: JobV, b: JobV, rest: seq<JobV>)
    requires |specs| == |tasks| && a.task < |specs| && b.task < |specs| && Owned(rest, |specs|)
    requires Owned([a, b] + rest, |specs|) && Owned([b, a] + rest, |specs|)
    ensures CancelAll(specs, tasks, [a, b] + rest) == CancelAll(specs, tasks, [b, a] + rest)
  {
    CancelTwo(specs, tasks, a, b, rest);
    CancelTwo(specs, tasks, b, a, rest);
    hide CancelHook, CancelledJob, CancelAll;
    var (i, j) := (a.task, b.task);
    var ta := tasks[i := CancelledJob(tasks[i], a)];
    var tb := tasks[j := CancelledJob(tasks[j], b)];
    if i == j {
      SameTaskSwap(tasks[i], a, b);
      HooksSwap(specs[i], tasks[i], a, b);
      UpdateTwice(tasks, i, ta[i], CancelledJob(ta[i], b));
      UpdateTwice(tasks, i, tb[i], CancelledJob(tb[i], a));
    } else {
      UpdateSwap(tasks, i, ta[i], j, tb[j]);
    }
  }

  lemma CancelTwo(specs: seq<TaskSpec>, tasks: seq<TaskState>, a: JobV, b: JobV, rest: seq<JobV>)
    requires |specs| == |tasks| && a.task < |specs| && b.task < |specs| && Owned([a, b] + rest, |specs|)
    requires Owned(rest, |specs|)
    ensures var ta := tasks[a.task := CancelledJob(tasks[a.task], a)];
            var tab := ta[b.task := CancelledJob(ta[b.task], b)];
            var (final, ok) := CancelAll(specs, tab, rest);
            CancelAll(specs, tasks, [a, b] + rest)
            == (final, CancelHook(specs[a.task], ta[a.task], a) && CancelHook(specs[b.task], tab[b.task], b) && ok)
  {
    hide CancelHook;
    var s := [a, b] + rest;
    assert s[1..] == [b] + rest && s[1..][1..] == rest;
  }

  function MovedToFront(s: seq<JobV>, i: nat): seq<JobV>
    requires i < |s|
  {
    [s[i]] + (s[..i] + s[i + 1..])
  }

  lemma MovedElements(s: seq<JobV>, i: nat, n: nat)
    requires i < |s| && Owned(s, n)
    ensures Owned(MovedToFront(s, i), n)
    ensures multiset(s[..i] + s[i + 1..]) == multiset(s) - multiset{s[i]}
  {
    assert s == s[..i] + [s[i]] + s[i + 1..];
  }

  lemma {:induction false} CancelToFront(specs: seq<TaskSpec>, tasks: seq<TaskState>, s: seq<JobV>, i: nat)
    requires |specs| == |tasks| && Owned(s, |specs|) && i < |s|
    requires Owned(MovedToFront(s, i), |specs|)
    ensures CancelAll(specs, tasks, s) == CancelAll(specs, tasks, MovedToFront(s, i))
    decreases i
  {
    if i == 0 {
      assert MovedToFront(s, i) == s;
    } else {
      var (first, tail) := (s[0], s[1..]);
      var rest := tail[..i - 1] + tail[i..];
      assert s == [first] + tail && tail[i - 1] == s[i];
      assert MovedToFront(s, i) == [s[i], first] + rest;
      assert s[i] in s && first in s;
      MovedElements(tail, i - 1, |specs|);
      CancelToFront(specs, tasks[first.task := CancelledJob(tasks[first.task], first)], tail, i - 1);
      assert ([first, s[i]] + rest)[1..] == MovedToFront(tail, i - 1);
      hide CancelledJob, CancelHook;
      assert CancelAll(specs, tasks, s) == CancelAll(specs, tasks, [first, s[i]] + rest);
      CancelSwap(specs, tasks, first, s[i], rest);
    }
  }

  lemma {:induction false} CancelPermutation(specs: seq<TaskSpec>, tasks: seq<TaskState>, s: seq<JobV>, t: seq<JobV>)
    requires |specs| == |tasks| && Owned(s, |specs|) && Owned(t, |specs|)
    requires multiset(s) == multiset(t)
    ensures CancelAll(specs, tasks, s) == CancelAll(specs, tasks, t)
    decreases |s|
  {
    hide CancelledJob, CancelHook;
    assert |s| == |multiset(s)| && |t| == |multiset(t)|;
    if s != [] {
      var (first, tail) := (s[0], s[1..]);
      assert s == [first] + tail;
      assert first in multiset(t);
      var i :| 0 <= i < |t| && t[i] == first;
      MovedElements(t, i, |specs|);
      CancelToFront(specs, tasks, t, i);
      var rest := t[..i] + t[i + 1..];
      assert MovedToFront(t, i)[1..] == rest;
      CancelPermutation(specs, tasks[first.task := CancelledJob(tasks[first.task], first)], tail, rest);
    }
  }
}
