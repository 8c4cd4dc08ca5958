/**
  The ring buffer that monitors an (m,k)-constraint (src/taskmodels/mkmonitor.cpp)
  and the failure distance read from it (src/taskmodels/mktask.cpp).
 */
module MkMonitoring {
  import opened Arithmetic
  import opened MkWindow

  /** Bits, oldest (most significant) first, as one number. */
  function Encode(bits: seq<nat>): nat {
    if bits == [] then 0
    else 2 * Encode(bits[..|bits| - 1]) + bits[|bits| - 1] % 2
  }

  /** Two windows of one length have the same compressed state only if they are equal. */
  lemma {:induction false} EncodeInjective(s: seq<nat>, t: seq<nat>)
    requires |s| == |t|
    requires Bits(s) && Bits(t)
    requires Encode(s) == Encode(t)
    ensures s == t
  {
    if s != [] {
      var n := |s| - 1;
      EncodeInjective(s[..n], t[..n]);
      assert s == s[..n] + [s[n]] && t == t[..n] + [t[n]];
    }
  }

  lemma {:induction false} EncodeShort(bits: seq<nat>)
    ensures Encode(bits) < Exp2(|bits|)
  {
    if bits != [] {
      EncodeShort(bits[..|bits| - 1]);
    }
  }

  function Exp2(n: nat): nat {
    if n == 0 then 1 else 2 * Exp2(n - 1)
  }

  /** The oldest entry is the most significant bit. */
  lemma {:induction false} EncodeFront(b: nat, bits: seq<nat>)
    requires b <= 1
    ensures Encode([b] + bits) == b * Exp2(|bits|) + Encode(bits)
  {
    var all := [b] + bits;
    if bits == [] {
      assert all == [b] && all[..0] == [];
    } else {
      EncodeFront(b, bits[..|bits| - 1]);
      assert all[..|all| - 1] == [b] + bits[..|bits| - 1];
    }
  }

  lemma EncodeSnoc(bits: seq<nat>, v: nat)
    requires v <= 1
    ensures Encode(bits + [v]) == 2 * Encode(bits) + v
  {
    assert (bits + [v])[..|bits|] == bits;
  }

  /** A new outcome shifts the code by one bit: the oldest bit goes, the outcome becomes the lowest bit. */
  lemma EncodePush(window: seq<nat>, v: nat)
    requires window != [] && Bits(window) && v <= 1
    ensures Encode(window[1..] + [v]) == 2 * Encode(window) + v - window[0] * Exp2(|window|)
    ensures Encode(window[1..] + [v]) < Exp2(|window|)
  {
    var (oldest, rest) := (window[0], window[1..]);
    assert window == [oldest] + rest && Exp2(|window|) == 2 * Exp2(|rest|);
    EncodeShort(rest + [v]);
    EncodeFront(oldest, rest);
    EncodeSnoc(rest, v);
    hide Encode, Exp2;
    DoubleProduct(oldest, Exp2(|rest|));
  }

  lemma DoubleProduct(x: nat, y: nat)
    ensures 2 * (x * y) == x * (2 * y)
  {
  }

  /** The entries of a ring buffer whose oldest entry is at `pos`, oldest first. */
  ghost function Rotated(buffer: seq<nat>, pos: nat): (r: seq<nat>)
    requires pos <= |buffer|
    ensures |r| == |buffer|
  {
    buffer[pos..] + buffer[..pos]
  }

  /** Overwriting the oldest entry and moving on drops the oldest entry and appends the new one. */
  lemma RotatedPush(buffer: seq<nat>, pos: nat, v: nat)
    requires pos < |buffer|
    ensures Rotated(buffer[pos := v], if pos + 1 >= |buffer| then 0 else pos + 1)
            == Rotated(buffer, pos)[1..] + [v]
    ensures buffer[pos] == Rotated(buffer, pos)[0] <= Sum(Rotated(buffer, pos))
    ensures Sum(Rotated(buffer, pos)[1..] + [v]) == Sum(Rotated(buffer, pos)) - buffer[pos] + v
  {
    SumAppend(Rotated(buffer, pos)[1..], [v]);
  }

  lemma RotatedAt(buffer: seq<nat>, pos: nat, i: nat)
    requires pos < |buffer| && i < |buffer|
    ensures Rotated(buffer, pos)[i] == buffer[(pos + i) % |buffer|]
    ensures (pos + i) % |buffer| == if pos + i < |buffer| then pos + i else pos + i - |buffer|
  {
    ModOnce(pos + i, |buffer|);
  }

  lemma ViolationsPush(m: nat, k: nat, history: seq<nat>, v: nat)
    ensures Violations(m, k, history + [v])
            == Violations(m, k, history)
               + if |history| + 1 >= k && Sum(Last(k, history + [v])) < m then 1 else 0
  {
    assert (history + [v])[..|history|] == history;
  }

  lemma FreshBuffer(m: nat, buffer: seq<nat>)
    ensures Rotated(buffer, 0) == buffer == Last(|buffer|, buffer + [])
    ensures Violations(m, |buffer|, []) == 0
  {
  }

  lemma LastSuffix(k: nat, s: seq<nat>, t: seq<nat>)
    requires k <= |t|
    ensures Last(k, s + t) == Last(k, t)
  {
  }

  lemma LastPush(k: nat, s: seq<nat>, v: nat)
    requires 0 < k <= |s|
    ensures Last(k, s + [v]) == Last(k, s)[1..] + [v]
  {
  }

  class MkMonitor {
    const m: nat
    const k: nat
    var pos: nat
    const vals: array<nat>
    var sum: nat
    var recorded: nat
    var violations: nat
    /** The bits the buffer started with, and everything pushed since, oldest first. */
    ghost const initial: seq<nat>
    ghost var history: seq<nat>

    /** The buffer's entries, oldest first. */
    ghost function Ring(): (r: seq<nat>)
      requires pos <= vals.Length
      reads this, vals
      ensures |r| == vals.Length
    {
      Rotated(vals[..], pos)
    }

    /** Everything the buffer was given, its initial bits included. */
    ghost function Recorded(): seq<nat>
      reads this
    {
      initial + history
    }

    ghost predicate Valid()
      reads this, vals
    {
      && 0 < k == vals.Length == |initial|
      && pos < k
      && Ring() == Last(k, Recorded())
      && sum == Sum(Ring())
      && recorded == |history|
      && violations == Violations(m, k, history)
    }

    /** Bit i of the state word goes to vals[i]; `state` lists these bits from bit 0 on. */
    constructor (m: nat, k: nat, state: seq<nat>)
      requires 0 < k < 64 && |state| >= k
      ensures Valid() && fresh(vals)
      ensures this.m == m && this.k == k
      ensures history == [] && initial == state[..k]
    {
      this.m, this.k := m, k;
      pos, recorded, violations := 0, 0, 0;
      vals := new nat[k];
      initial := state[..k];
      history := [];
      sum := 0;
      new;
      FreshBuffer(m, initial);
      hide Rotated, Last, Violations, Sum;
      for i := 0 to k
        invariant vals[..i] == initial[..i] && sum == Sum(initial[..i])
        invariant pos == 0 && recorded == 0 && violations == 0 && history == []
      {
        vals[i] := state[i];
        sum := sum + state[i];
        SumTake(initial, i);
      }
      assert vals[..] == vals[..k] == initial[..k] == initial;
    }

    method Push(val: nat)
      requires Valid()
      modifies this, vals
      ensures Valid()
      ensures history == old(history) + [val]
    {
      hide Rotated, Sum, Violations, Last;
      ghost var buffer := vals[..];
      ghost var recordedBefore := Recorded();
      RotatedPush(buffer, pos, val);
      LastPush(k, recordedBefore, val);
      var tmp := vals[pos];
      vals[pos] := val;
      assert vals[..] == buffer[pos := val];
      sum := sum - tmp;
      sum := sum + val;
      pos := pos + 1;
      if pos >= k {
        pos := 0;
      }
      history := history + [val];
      assert Recorded() == recordedBefore + [val];
      recorded := recorded + 1;
      ViolationsPush(m, k, old(history), val);
      if recorded >= k {
        LastSuffix(k, initial, history);
        if sum < m {
          violations := violations + 1;
        }
      }
    }

    /** The history's entries are the newest of the buffer. */
    lemma TailOfRing()
      requires Valid() && recorded < k
      ensures Ring()[k - recorded..] == history
      ensures Sum(Window(k, history)) == k - recorded + Sum(history)
    {
      hide Sum, Violations, Rotated;
      assert Recorded()[|Recorded()| - recorded..] == history;
      SumAppend(Repeat(1, k - recorded), history);
      SumRepeat(1, k - recorded);
    }

    /** The number of successes among the last k outcomes, missing outcomes counting as successes. */
    method GetCurrentSum() returns (s: nat)
      requires Valid()
      ensures s == Sum(Window(k, history))
    {
      if recorded < k {
        var missing := k - recorded;
        var ctr := 0;
        var psum := sum;
        var ppos := pos;
        ghost var ring := Ring();
        TailOfRing();
        assert ring[0..] == ring;
        hide Violations, Window, Sum, Last;
        while ctr < missing
          invariant 0 <= ctr <= missing
          invariant ppos == if pos + ctr < k then pos + ctr else pos + ctr - k
          invariant psum == Sum(ring[ctr..])
        {
          SumDrop(ring, ctr);
          RotatedAt(vals[..], pos, ctr);
          psum := psum - vals[ppos];
          ppos := ppos + 1;
          if ppos >= k {
            ppos := 0;
          }
          ctr := ctr + 1;
        }
        psum := psum + missing;
        return psum;
      } else {
        assert Ring() == Last(k, history);
        return sum;
      }
    }

    method IsStateValid() returns (valid: bool)
      requires Valid()
      ensures valid <==> Firm(m, k, history)
    {
      var s := GetCurrentSum();
      valid := s >= m;
    }

    /** The last k entries as one number, the most recent in the least significant bit. */
    method GetState() returns (state: nat)
      requires Valid()
      ensures state == Encode(Last(k, Recorded()))
    {
      state := 0;
      ghost var ring := Ring();
      for i := 0 to k
        invariant state == Encode(ring[..i])
      {
        var p := (pos + i) % k;
        RotatedAt(vals[..], pos, i);
        assert ring[..i + 1][..i] == ring[..i];
        state := 2 * state + vals[p] % 2;
      }
      assert ring[..k] == ring;
    }

    /** The state without its oldest entry. */
    method GetReducedState() returns (state: nat)
      requires Valid()
      ensures state == Encode(Last(k, Recorded())[1..])
    {
      state := 0;
      ghost var rest := Ring()[1..];
      for i := 1 to k
        invariant state == Encode(rest[..i - 1])
      {
        var p := (pos + i) % k;
        RotatedAt(vals[..], pos, i);
        assert rest[..i][..i - 1] == rest[..i - 1];
        state := 2 * state + vals[p] % 2;
      }
      assert rest[..k - 1] == rest;
    }

    /**
      The position, counted from 1 at the most recent entry, of the n-th most
      recent success; k+1 when the buffer holds fewer than n successes, -1 when
      n does not fit the buffer.
     */
    method CalcL(n: nat) returns (l: int)
      requires Valid() && 1 <= n
      requires Bits(Recorded())
      ensures n > k ==> l == -1
      ensures n <= k ==> 1 <= l <= k + 1
      ensures n <= k ==> forall x :: 0 <= x <= k ==>
                            (Sum(Last(k, Recorded())[x..]) >= n <==> x + l <= k)
    {
      if n > k {
        return -1;
      }
      var p := if pos == 0 then k - 1 else pos - 1;
      var ctr := 0;
      var i := 0;
      ghost var ring := Ring();
      assert Sum(ring[k..]) == 0;
      hide Sum, Violations, Last;
      while i < k
        invariant 0 <= i <= k
        invariant i < k ==> p == if pos + k - 1 - i < k then pos + k - 1 - i else pos - 1 - i
        invariant ctr == Sum(ring[k - i..]) < n
      {
        SumDrop(ring, k - i - 1);
        assert vals[p] == ring[k - i - 1];
        if vals[p] == 1 {
          ctr := ctr + 1;
        }
        assert ctr == Sum(ring[k - i - 1..]);
        if ctr == n {
          break;
        }
        if p == 0 {
          p := k - 1;
        } else {
          p := p - 1;
        }
        i := i + 1;
      }
      l := i + 1;
      NthSuccess(ring, n, i);
    }
  }

  /** The suffixes with at least n successes are those that reach back to the n-th most recent one. */
  lemma NthSuccess(ring: seq<nat>, n: nat, i: nat)
    requires i <= |ring| && Sum(ring[|ring| - i..]) < n
    requires i < |ring| ==> Sum(ring[|ring| - i - 1..]) >= n
    ensures forall x :: 0 <= x <= |ring| ==> (Sum(ring[x..]) >= n <==> x + i + 1 <= |ring|)
  {
    hide Sum;
    var k := |ring|;
    forall x | 0 <= x <= k
      ensures Sum(ring[x..]) >= n <==> x + i + 1 <= k
    {
      if x + i + 1 <= k {
        SuffixSumMonotone(ring, x, k - i - 1);
      } else {
        SuffixSumMonotone(ring, k - i, x);
      }
    }
  }
}
