/**
  How many (m,k)-states there are: the count that bounds the search of the
  general schedulability test (src/mkeval/gstsimulation.cpp).
 */
module MkStates {
  import opened TmsMath
  import opened MkWindow
  import opened MkMonitoring

  /** The codes of the k-bit windows with at least m ones. */
  function Codes(k: nat, m: nat): set<nat> {
    if k == 0 then if m == 0 then {0} else {}
    else Twice(Codes(k - 1, m), 0) + Twice(Codes(k - 1, if m == 0 then 0 else m - 1), 1)
  }

  /** The codes with one more bit at the end. */
  function Twice(s: set<nat>, bit: nat): set<nat> {
    set c | c in s :: 2 * c + bit
  }

  /** C(k,m) + C(k,m+1) + ... + C(k,k) */
  function TailSum(k: nat, m: nat): nat
    decreases k + 1 - m
  {
    if m > k then 0 else Binom(k, m) + TailSum(k, m + 1)
  }

  // ----- The codes are those of the windows -----

  lemma SumSnoc(w: seq<nat>)
    requires w != []
    ensures Sum(w) == Sum(w[..|w| - 1]) + w[|w| - 1]
  {
    assert w == w[..|w| - 1] + [w[|w| - 1]];
    SumAppend(w[..|w| - 1], [w[|w| - 1]]);
  }

  /** The code of a window with at least m ones is in the set. */
  lemma {:induction false} WindowHasCode(w: seq<nat>, m: nat)
    requires Bits(w) && Sum(w) >= m
    ensures Encode(w) in Codes(|w|, m)
  {
    if w != [] {
      var (rest, bit) := (w[..|w| - 1], w[|w| - 1]);
      SumSnoc(w);
      assert Bits(rest);
      if bit == 0 {
        WindowHasCode(rest, m);
        assert Encode(w) == 2 * Encode(rest) + 0;
      } else {
        WindowHasCode(rest, if m == 0 then 0 else m - 1);
        assert Encode(w) == 2 * Encode(rest) + 1;
      }
    }
  }

  /** Every code in the set is that of a window with at least m ones. */
  lemma {:induction false} CodeHasWindow(k: nat, m: nat, code: nat) returns (w: seq<nat>)
    requires code in Codes(k, m)
    ensures |w| == k && Bits(w) && Sum(w) >= m && Encode(w) == code
  {
    if k == 0 {
      w := [];
    } else {
      var bit, m', c := CodeSplit(k, m, code);
      hide Codes, Encode;
      var rest := CodeHasWindow(k - 1, m', c);
      w := rest + [bit];
      assert w[..|w| - 1] == rest;
      SumSnoc(w);
      EncodeSnoc(rest, bit);
    }
  }

  lemma EncodeSnoc(w: seq<nat>, bit: nat)
    requires bit <= 1
    ensures Encode(w + [bit]) == 2 * Encode(w) + bit
  {
    assert (w + [bit])[..|w|] == w;
  }

  lemma CodeSplit(k: nat, m: nat, code: nat) returns (bit: nat, m': nat, c: nat)
    requires k > 0 && code in Codes(k, m)
    ensures bit <= 1 && m' == (if bit == 0 || m == 0 then m else m - 1)
    ensures c in Codes(k - 1, m') && code == 2 * c + bit
  {
    bit, m' := if code in Twice(Codes(k - 1, m), 0) then 0 else 1, m;
    if bit == 1 && m > 0 {
      m' := m - 1;
    }
    c :| c in Codes(k - 1, m') && code == 2 * c + bit;
  }

  // ----- Their number -----

  lemma {:induction false} TwiceSize(s: set<nat>, bit: nat)
    ensures |Twice(s, bit)| == |s|
  {
    if s != {} {
      var c :| c in s;
      TwiceSize(s - {c}, bit);
      var whole := Twice(s - {c}, bit) + {2 * c + bit};
      forall y
        ensures y in Twice(s, bit) <==> y in whole
      {
        if y in Twice(s, bit) {
          var d :| d in s && y == 2 * d + bit;
          assert d != c ==> d in s - {c};
        }
      }
      assert Twice(s, bit) == whole;
    } else {
      assert Twice(s, bit) == {};
    }
  }

  /** Pascal's rule for sums of coefficients. */
  lemma {:induction false} TailSumPascal(k: nat, m: nat)
    requires k >= 1
    ensures TailSum(k, m) == TailSum(k - 1, m) + TailSum(k - 1, if m == 0 then 0 else m - 1)
    decreases k + 1 - m
  {
    if m <= k {
      TailSumPascal(k, m + 1);
      if m == k {
        BinomOutside(k - 1, k);
      }
    }
  }

  lemma EvenAndOdd(s: set<nat>, t: set<nat>)
    ensures Twice(s, 0) !! Twice(t, 1)
  {
  }

  lemma DisjointSize(s: set<nat>, t: set<nat>)
    requires s !! t
    ensures |s + t| == |s| + |t|
  {
  }

  lemma CodesSplit(k: nat, m: nat)
    requires k > 0
    ensures |Codes(k, m)| == |Codes(k - 1, m)| + |Codes(k - 1, if m == 0 then 0 else m - 1)|
  {
    var (s, t) := (Codes(k - 1, m), Codes(k - 1, if m == 0 then 0 else m - 1));
    assert Codes(k, m) == Twice(s, 0) + Twice(t, 1);
    hide Codes;
    EvenAndOdd(s, t);
    TwiceSize(s, 0);
    TwiceSize(t, 1);
    hide Twice;
    DisjointSize(Twice(s, 0), Twice(t, 1));
  }

  /** There are C(k,m) + ... + C(k,k) windows of k bits with at least m ones. */
  lemma {:induction false} CodeCount(k: nat, m: nat)
    ensures |Codes(k, m)| == TailSum(k, m)
  {
    hide Codes, TailSum, Twice, Binom;
    if k == 0 {
      NoBits(m);
    } else {
      var m' := if m == 0 then 0 else m - 1;
      CodesSplit(k, m);
      TailSumPascal(k, m);
      CodeCount(k - 1, m);
      CodeCount(k - 1, m');
    }
  }

  lemma NoBits(m: nat)
    ensures |Codes(0, m)| == TailSum(0, m)
  {
    assert TailSum(0, 1) == 0;
  }

  // ----- Joint states -----

  /** The constraint (m,k) of a task. */
  datatype Constraint = Constraint(m: nat, k: nat)

  /** The joint states in which every constraint holds. */
  function JointStates(constraints: seq<Constraint>): set<seq<nat>> {
    if constraints == [] then {[]}
    else
      var n := |constraints| - 1;
      Extend(JointStates(constraints[..n]), Codes(constraints[n].k, constraints[n].m))
  }

  function Extend(s: set<seq<nat>>, codes: set<nat>): set<seq<nat>> {
    set x, c | x in s && c in codes :: x + [c]
  }

  /** `mkFeasibilityMultiplicator` */
  function Multiplicator(constraints: seq<Constraint>): nat {
    if constraints == [] then 1
    else
      var n := |constraints| - 1;
      Multiplicator(constraints[..n]) * TailSum(constraints[n].k, constraints[n].m)
  }

  lemma {:induction false} ExtendOneSize(x: seq<nat>, codes: set<nat>)
    ensures |Extend({x}, codes)| == |codes|
  {
    if codes == {} {
      assert Extend({x}, codes) == {};
    } else {
      var c :| c in codes;
      ExtendOneSize(x, codes - {c});
      assert Extend({x}, codes) == Extend({x}, codes - {c}) + {x + [c]};
      forall y | y in Extend({x}, codes - {c})
        ensures y != x + [c]
      {
        assert y[|y| - 1] != c;
      }
    }
  }

  lemma OneMore(a: nat, b: nat)
    ensures (a + 1) * b == a * b + b
  {
  }

  lemma ExtendNothing(codes: set<nat>)
    ensures Extend({}, codes) == {}
  {
  }

  lemma {:induction false} ExtendSize(s: set<seq<nat>>, codes: set<nat>)
    ensures |Extend(s, codes)| == |s| * |codes|
  {
    hide Extend;
    if s == {} {
      ExtendNothing(codes);
    } else {
      var x :| x in s;
      var rest := s - {x};
      ExtendSize(rest, codes);
      ExtendOneSize(x, codes);
      ExtendSplit(s, x, codes);
      DisjointUnion(Extend(rest, codes), Extend({x}, codes));
      assert |s| == |rest| + 1;
      OneMore(|rest|, |codes|);
    }
  }

  lemma ExtendSplit(s: set<seq<nat>>, x: seq<nat>, codes: set<nat>)
    requires x in s
    ensures Extend(s, codes) == Extend(s - {x}, codes) + Extend({x}, codes)
    ensures Extend(s - {x}, codes) !! Extend({x}, codes)
  {
    var (rest, one) := (Extend(s - {x}, codes), Extend({x}, codes));
    forall y
      ensures y in Extend(s, codes) <==> y in rest + one
      ensures y in rest ==> y !in one
    {
      if y in Extend(s, codes) {
        var z, c :| z in s && c in codes && y == z + [c];
        assert z in s - {x} || z in {x};
      }
      if y in rest {
        var z, c :| z in s - {x} && c in codes && y == z + [c];
        assert y[..|y| - 1] == z;
      }
      if y in one {
        var c :| c in codes && y == x + [c];
        assert y[..|y| - 1] == x;
      }
    }
  }

  lemma DisjointUnion(s: set<seq<nat>>, t: set<seq<nat>>)
    requires s !! t
    ensures |s + t| == |s| + |t|
  {
  }

  /** The multiplicator is the number of joint states in which every constraint holds. */
  lemma {:induction false} JointStateCount(constraints: seq<Constraint>)
    ensures |JointStates(constraints)| == Multiplicator(constraints)
  {
    if constraints != [] {
      var n := |constraints| - 1;
      JointStateCount(constraints[..n]);
      CodeCount(constraints[n].k, constraints[n].m);
      ExtendSize(JointStates(constraints[..n]), Codes(constraints[n].k, constraints[n].m));
    }
  }

  lemma {:induction false} JointStateMember(constraints: seq<Constraint>, state: seq<nat>)
    requires |state| == |constraints|
    requires forall i :: 0 <= i < |state| ==> state[i] in Codes(constraints[i].k, constraints[i].m)
    ensures state in JointStates(constraints)
  {
    if constraints != [] {
      var n := |constraints| - 1;
      JointStateMember(constraints[..n], state[..n]);
      assert state == state[..n] + [state[n]];
    }
  }

  ghost predicate Different(states: seq<seq<nat>>) {
    forall i, j :: 0 <= i < j < |states| ==> states[i] != states[j]
  }

  lemma {:induction false} DifferentSize(states: seq<seq<nat>>, all: set<seq<nat>>)
    requires Different(states) && forall i :: 0 <= i < |states| ==> states[i] in all
    ensures |states| <= |all|
  {
    if states != [] {
      var n := |states| - 1;
      DifferentSize(states[..n], all - {states[n]});
    }
  }
}
