/**
  Greatest common divisors, least common multiples and binomial coefficients
  (src/utils/tmsmath.cpp).
 */
module TmsMath {
  import opened Arithmetic

  predicate IsProduct(n: int, d: int, q: int) {
    n == d * q
  }

  ghost predicate Divides(d: int, n: int) {
    exists q :: IsProduct(n, d, q)
  }

  /** g is a common divisor that every common divisor divides. */
  ghost predicate GreatestDivisor(g: nat, a: nat, b: nat) {
    && Divides(g, a) && Divides(g, b)
    && forall d :: Divides(d, a) && Divides(d, b) ==> Divides(d, g)
  }

  /** l is a common multiple that divides every common multiple. */
  ghost predicate LeastMultiple(l: int, a: nat, b: nat) {
    && Divides(a, l) && Divides(b, l)
    && forall n: nat :: Divides(a, n) && Divides(b, n) ==> Divides(l, n)
  }

  ghost function Gcd(a: nat, b: nat): nat
    decreases b
  {
    if b == 0 then a else Gcd(b, a % b)
  }

  lemma DivideSum(d: int, x: int, y: int, c: int)
    requires Divides(d, x) && Divides(d, y)
    ensures Divides(d, x + c * y) && Divides(d, x - c * y)
  {
    var p :| IsProduct(x, d, p);
    var q :| IsProduct(y, d, q);
    Distribute(d, p, q, c);
    assert IsProduct(x + c * y, d, p + c * q);
    assert IsProduct(x - c * y, d, p - c * q);
  }

  lemma Distribute(d: int, p: int, q: int, c: int)
    ensures d * (p + c * q) == d * p + c * (d * q)
    ensures d * (p - c * q) == d * p - c * (d * q)
  {
  }

  lemma {:induction false} GcdIsGreatest(a: nat, b: nat)
    ensures GreatestDivisor(Gcd(a, b), a, b)
    decreases b
  {
    if b == 0 {
      assert IsProduct(a, a, 1) && IsProduct(0, a, 0);
    } else {
      GcdIsGreatest(b, a % b);
      var (g, c) := (Gcd(b, a % b), a / b);
      assert a == a % b + c * b;
      DivideSum(g, a % b, b, c);
      forall d | Divides(d, a) && Divides(d, b)
        ensures Divides(d, g)
      {
        DivideSum(d, a, b, c);
        assert a - c * b == a % b;
      }
    }
  }

  /** The greatest common divisor is an integer combination of the two numbers. */
  lemma {:induction false} Bezout(a: nat, b: nat) returns (x: int, y: int)
    ensures Gcd(a, b) == x * a + y * b
    decreases b
  {
    if b == 0 {
      x, y := 1, 0;
    } else {
      var u, v := Bezout(b, a % b);
      x, y := v, u - (a / b) * v;
      assert a % b == a - (a / b) * b;
      calc {
        u * b + v * (a % b);
        u * b + v * a - v * ((a / b) * b);
        v * a + (u - (a / b) * v) * b;
      }
    }
  }

  /** `calculateGcd` */
  method CalculateGcd(a: nat, b: nat) returns (g: nat)
    ensures g == Gcd(a, b) && GreatestDivisor(g, a, b)
  {
    var x, y := a, b;
    while y != 0
      invariant Gcd(x, y) == Gcd(a, b)
      decreases y
    {
      x, y := y, x % y;
    }
    GcdIsGreatest(a, b);
    return x;
  }

  lemma GcdPositive(a: nat, b: nat)
    requires a > 0 || b > 0
    ensures Gcd(a, b) > 0
  {
    GcdIsGreatest(a, b);
    if Gcd(a, b) == 0 {
      var p :| IsProduct(a, 0, p);
      var q :| IsProduct(b, 0, q);
      assert false;
    }
  }

  /** Any factorisation by a greatest divisor g gives the least common multiple. */
  lemma FactorsGiveLeastMultiple(a: nat, b: nat, p: int, q: int)
    requires IsProduct(a, Gcd(a, b), p) && IsProduct(b, Gcd(a, b), q) && Gcd(a, b) > 0
    ensures LeastMultiple(a * q, a, b)
  {
    var (g, l) := (Gcd(a, b), a * q);
    ProductOverFactor(a, b, g, p, q);
    assert IsProduct(l, a, q) && IsProduct(l, b, p);
    var x, y := Bezout(a, b);
    hide IsProduct, Gcd;
    forall n: nat | Divides(a, n) && Divides(b, n)
      ensures Divides(l, n)
    {
      MultipleOfBoth(a, b, g, l, x, y, n);
    }
  }

  lemma ExactQuotient(a: nat, b: nat, g: nat, p: int, q: int)
    requires g > 0 && a == g * p && b == g * q
    ensures q >= 0 && a * b / g == a * q
    ensures a > 0 && b > 0 ==> a * q > 0
  {
    ProductOverFactor(a, b, g, p, q);
    MulMonotone(a, 0, q);
    FloorDivUnique(a * b, g, a * q);
    if a > 0 && b > 0 {
      MulMonotone(a, 1, q);
    }
  }

  /** The product divided by the greatest common divisor is the least common multiple. */
  lemma ProductOverGcd(a: nat, b: nat)
    requires a > 0 || b > 0
    ensures Gcd(a, b) > 0 && LeastMultiple(a * b / Gcd(a, b), a, b)
    ensures a > 0 && b > 0 ==> a * b / Gcd(a, b) > 0
  {
    GcdPositive(a, b);
    GcdIsGreatest(a, b);
    var g := Gcd(a, b);
    var p :| IsProduct(a, g, p);
    var q :| IsProduct(b, g, q);
    ExactQuotient(a, b, g, p, q);
    FactorsGiveLeastMultiple(a, b, p, q);
  }

  lemma ProductOverFactor(a: int, b: int, g: nat, p: int, q: int)
    requires a == g * p && b == g * q
    ensures a * b == g * (a * q) && a * q == b * p
    ensures b > 0 ==> q > 0
    ensures b >= 0 && g > 0 ==> q >= 0
  {
    if q <= 0 {
      MulMonotone(g, q, 0);
      if q < 0 {
        MulMonotone(g, q, -1);
      }
    }
    assert a * b == a * (g * q) == g * (a * q);
    assert a * q == (g * p) * q == (g * q) * p;
  }

  lemma MultipleOfBoth(a: int, b: int, g: nat, l: int, x: int, y: int, n: int)
    requires g > 0 && g == x * a + y * b && a * b == g * l
    requires Divides(a, n) && Divides(b, n)
    ensures Divides(l, n)
  {
    var s :| IsProduct(n, a, s);
    var t :| IsProduct(n, b, t);
    var z := x * t + y * s;
    Combination(a, b, g, l, x, y, n, s, t);
    CancelFactor(g, n, l * z);
    assert IsProduct(n, l, z);
  }

  lemma Combination(a: int, b: int, g: int, l: int, x: int, y: int, n: int, s: int, t: int)
    requires g == x * a + y * b && a * b == g * l && n == a * s && n == b * t
    ensures g * n == g * (l * (x * t + y * s))
  {
    calc {
      g * n;
      { assert (x * a + y * b) * n == x * a * n + y * b * n; }
      x * a * n + y * b * n;
      { assert x * a * (b * t) == a * b * (x * t); assert y * b * (a * s) == a * b * (y * s); }
      a * b * (x * t) + a * b * (y * s);
      { Distribute(a * b, x * t, y * s, 1); }
      a * b * (x * t + y * s);
      g * l * (x * t + y * s);
    }
  }

  lemma CancelFactor(g: nat, u: int, v: int)
    requires g > 0 && g * u == g * v
    ensures u == v
  {
    if u < v {
      MulMonotone(g, u + 1, v);
    } else if u > v {
      MulMonotone(g, v + 1, u);
    }
  }

  /** `calculateLcm` */
  method CalculateLcm(a: nat, b: nat) returns (l: nat)
    requires a > 0 || b > 0
    ensures LeastMultiple(l, a, b)
    ensures a > 0 && b > 0 ==> l > 0
  {
    ProductOverGcd(a, b);
    var g := CalculateGcd(a, b);
    l := a * b / g;
  }

  // ----- Least common multiples of several numbers -----

  ghost predicate CommonMultiple(numbers: seq<nat>, n: nat) {
    forall i :: 0 <= i < |numbers| ==> Divides(numbers[i], n)
  }

  /** l is positive, a common multiple, and divides every common multiple. */
  ghost predicate LeastCommonMultiple(numbers: seq<nat>, l: nat) {
    l > 0 && CommonMultiple(numbers, l) && forall n: nat :: CommonMultiple(numbers, n) ==> Divides(l, n)
  }

  lemma DividesTrans(a: int, b: int, c: int)
    requires Divides(a, b) && Divides(b, c)
    ensures Divides(a, c)
  {
    var p :| IsProduct(b, a, p);
    var q :| IsProduct(c, b, q);
    assert a * p * q == a * (p * q);
    assert IsProduct(c, a, p * q);
  }

  lemma MultipleOfNothing()
    ensures LeastCommonMultiple([], 1)
  {
    forall n: nat
      ensures Divides(1, n)
    {
      assert IsProduct(n, 1, n);
    }
  }

  /** Taking in one more number. */
  lemma MultipleOfOneMore(numbers: seq<nat>, before: nat, x: nat, after: nat)
    requires LeastCommonMultiple(numbers, before) && LeastMultiple(after, before, x) && after > 0
    ensures LeastCommonMultiple(numbers + [x], after)
  {
    hide Divides;
    forall i | 0 <= i < |numbers + [x]|
      ensures Divides((numbers + [x])[i], after)
    {
      if i < |numbers| {
        DividesTrans(numbers[i], before, after);
      }
    }
    forall n: nat | CommonMultiple(numbers + [x], n)
      ensures Divides(after, n)
    {
      assert forall i :: 0 <= i < |numbers| ==> (numbers + [x])[i] == numbers[i];
      assert (numbers + [x])[|numbers|] == x;
      assert CommonMultiple(numbers, n);
    }
  }

  // ----- Binomial coefficients -----

  /** The number of k-element subsets of n elements. */
  function Binom(n: nat, k: nat): nat {
    if k == 0 then 1
    else if n == 0 then 0
    else Binom(n - 1, k - 1) + Binom(n - 1, k)
  }

  /** Unsigned 64-bit arithmetic wraps around. */
  const WORD: nat := 0x1_0000_0000_0000_0000

  function Word(n: nat): nat {
    n % WORD
  }

  lemma WordSum(a: nat, b: nat)
    ensures Word(Word(a) + Word(b)) == Word(a + b)
  {
  }

  /** The row of Pascal's triangle that has been reached at the positions from j on, the row before it elsewhere. */
  ghost predicate PascalRow(c: seq<nat>, i: nat, j: nat)
    requires i >= 1
  {
    forall x :: 0 <= x < |c| ==> c[x] == Word(Binom(if x >= j then i else i - 1, x))
  }

  lemma {:induction false} BinomOutside(n: nat, k: nat)
    requires k > n
    ensures Binom(n, k) == 0
  {
    if n > 0 {
      BinomOutside(n - 1, k - 1);
      BinomOutside(n - 1, k);
    }
  }

  /** A row changes nothing at position 0 nor beyond its length. */
  lemma NextRow(c: seq<nat>, i: nat, j: nat)
    requires i >= 1 && c != [] && PascalRow(c, i, 1)
    requires j == if i + 1 < |c| then i + 2 else |c|
    ensures PascalRow(c, i + 1, j)
  {
    assert c[0] == Word(Binom(i - 1, 0)) == Word(Binom(i, 0));
    forall x | 0 <= x < |c|
      ensures c[x] == Word(Binom(if x >= j then i + 1 else i, x))
    {
      if x >= j {
        BinomOutside(i, x);
        BinomOutside(i + 1, x);
      }
    }
  }

  lemma PascalStep(c: seq<nat>, i: nat, j: nat)
    requires i >= 1 && 1 <= j < |c| && PascalRow(c, i, j + 1)
    ensures PascalRow(c[j := Word(c[j] + c[j - 1])], i, j)
  {
    WordSum(Binom(i - 1, j), Binom(i - 1, j - 1));
  }

  lemma FirstRow(c: seq<nat>, j: nat)
    requires c != [] && c[0] == 1 && forall x :: 1 <= x < |c| ==> c[x] == 0
    requires j == if |c| > 1 then 2 else 1
    ensures PascalRow(c, 1, j)
  {
    forall x | 0 <= x < |c|
      ensures c[x] == Word(Binom(if x >= j then 1 else 0, x))
    {
      if x > 1 {
        BinomOutside(1, x);
      }
    }
  }

  /** `binomialCoefficient` of tmsmath.cpp: one row of Pascal's triangle, updated in place. */
  method BinomialCoefficient(n: nat, k: nat) returns (r: nat)
    ensures r == Word(Binom(n, k))
  {
    hide Binom, Word, PascalRow;
    var c := new nat[k + 1](_ => 0);
    c[0] := 1;
    FirstRow(c[..], if k > 0 then 2 else 1);
    var i := 1;
    while i <= n
      invariant 1 <= i <= n + 1
      invariant PascalRow(c[..], i, if i <= k then i + 1 else k + 1)
    {
      var j := if i < k then i else k;
      while j > 0
        invariant 0 <= j <= k
        invariant PascalRow(c[..], i, j + 1)
      {
        PascalStep(c[..], i, j);
        c[j] := Word(c[j] + c[j - 1]);
        j := j - 1;
      }
      NextRow(c[..], i, if i + 1 < k + 1 then i + 2 else k + 1);
      i := i + 1;
    }
    LastRow(c[..], n, k);
    return c[k];
  }

  lemma LastRow(c: seq<nat>, n: nat, k: nat)
    requires |c| == k + 1 && PascalRow(c, n + 1, if n + 1 <= k then n + 2 else k + 1)
    ensures c[k] == Word(Binom(n, k))
  {
    if n + 1 <= k {
      BinomOutside(n, k);
      if k > n + 1 {
        BinomOutside(n + 1, k);
      }
    }
  }
}
