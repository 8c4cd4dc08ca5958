/**
  Drawing the rows of a dependency matrix (src/tseval/dependencymatrix.cpp):
  each number below C(n,k) stands for one k-element subset of n columns.

  A row is a set of columns here, where the program has a 64-bit mask.
 */
module Unranking {
  import opened Arithmetic
  import opened TmsMath

  // ----- The multiplicative binomial coefficient -----

  /** k * C(n,k) == n * C(n-1,k-1): every division in the multiplicative formula is exact. */
  lemma {:induction false} Absorption(n: nat, k: nat)
    requires n >= 1 && k >= 1
    ensures k * Binom(n, k) == n * Binom(n - 1, k - 1)
  {
    if n == 1 {
      if k > 1 {
        BinomOutside(1, k);
        BinomOutside(0, k - 1);
      }
    } else if k == 1 {
      Absorption(n - 1, 1);
    } else {
      Absorption(n - 1, k);
      Absorption(n - 1, k - 1);
      var (a, b) := (Binom(n - 2, k - 2), Binom(n - 2, k - 1));
      AbsorptionStep(n, k, Binom(n - 1, k - 1), Binom(n - 1, k), a, b);
    }
  }

  lemma AbsorptionStep(n: int, k: int, x: int, y: int, a: int, b: int)
    requires k * y == (n - 1) * b && (k - 1) * x == (n - 1) * a && x == a + b
    ensures k * (x + y) == n * x
  {
    assert (n - 1) * x == (n - 1) * a + (n - 1) * b;
    assert (k - 1) * x == k * x - x && (n - 1) * x == n * x - x;
    assert k * (x + y) == k * x + k * y;
  }

  lemma {:induction false} BinomPositive(n: nat, k: nat)
    requires k <= n
    ensures Binom(n, k) >= 1
    ensures k == n ==> Binom(n, k) == 1
    ensures k == 1 ==> Binom(n, k) == n
  {
    if k > 0 {
      BinomPositive(n - 1, k - 1);
      if k <= n - 1 {
        BinomPositive(n - 1, k);
      } else {
        BinomOutside(n - 1, k);
      }
      assert k == 1 && n > 1 ==> Binom(n - 1, 0) == 1;
    }
  }

  /** The intermediate products never exceed the last one. */
  lemma {:induction false} ProductsGrow(base: nat, i: nat, k: nat)
    requires i <= k
    ensures i * Binom(base + i, i) <= k * Binom(base + k, k)
    decreases k - i
  {
    if i < k {
      ProductsGrow(base, i + 1, k);
      var (b, b') := (Binom(base + i, i), Binom(base + i + 1, i + 1));
      assert b' == b + Binom(base + i, i + 1);
      assert i * b <= i * b' <= (i + 1) * b' by {
        MulMonotone(i, b, b');
      }
    }
  }

  /** A pass that starts from the exact coefficient divides exactly, if its product fits the word. */
  lemma ExactDivision(b: nat, factor: nat, i: nat, b': nat)
    requires i > 0 && i * b' == factor * b && i * b' < WORD
    ensures Word(b * factor) / i == b'
  {
    assert b * factor == i * b';
    FloorDivUnique(i * b', i, b');
    assert i * (b' + 1) == i * b' + i;
  }

  /** A pass whose product does not fit, or that starts too low, ends too low. */
  lemma TooLow(r: nat, b: nat, factor: nat, i: nat, b': nat)
    requires i > 0 && i * b' == factor * b && r <= b && i * b' >= WORD
    ensures Word(r * factor) / i < b'
  {
    assert r * factor <= b * factor == i * b' by {
      MulMonotone(factor, r, b);
      assert r * factor == factor * r && b * factor == factor * b;
    }
    BelowQuotient(Word(r * factor), i, b');
  }

  lemma BelowQuotient(x: nat, i: nat, b: nat)
    requires i > 0 && x < i * b
    ensures x / i < b
  {
    assert x == i * (x / i) + x % i;
    if x / i >= b {
      MulMonotone(i, b, x / i);
    }
  }

  /** The result before pass i is exact as long as no product was too large, and too low from then on. */
  ghost predicate ExactUntilOverflow(base: nat, i: nat, r: nat) {
    var b := Binom(base + i, i);
    r <= b && (r == b <==> i <= 1 || i * b < WORD)
  }

  lemma OnePass(base: nat, i: nat, r: nat)
    requires i >= 2 && ExactUntilOverflow(base, i - 1, r)
    ensures ExactUntilOverflow(base, i, Word(r * (base + i)) / i)
  {
    Absorption(base + i, i);
    ProductsGrow(base, i - 1, i);
    var (b, b') := (Binom(base + (i - 1), i - 1), Binom(base + i, i));
    assert base + i - 1 == base + (i - 1);
    hide Binom;
    if i * b' < WORD {
      ExactDivision(b, base + i, i, b');
    } else {
      TooLow(r, b, base + i, i, b');
    }
  }

  /**
    `DependencyMatrix::binomialCoefficient`: never too large, and exact if and
    only if the last product fits into 64 bits.
   */
  method MultiplicativeBinomial(n: nat, k: nat) returns (result: nat)
    ensures result <= Binom(n, k)
    ensures k <= 1 || k >= n ==> result == Binom(n, k)
    ensures 2 <= k < n ==> (result == Binom(n, k) <==> k * Binom(n, k) < WORD)
  {
    if k > n {
      BinomOutside(n, k);
      return 0;
    } else if k == 0 || k == n {
      BinomPositive(n, k);
      return 1;
    } else {
      var base := n - k;
      result := base + 1;
      var i := 2;
      FirstPass(base);
      hide Binom, ExactUntilOverflow;
      while i <= k
        invariant 2 <= i <= k + 1
        invariant ExactUntilOverflow(base, i - 1, result)
      {
        OnePass(base, i, result);
        result := Word(result * (base + i)) / i;
        i := i + 1;
      }
      LastPass(n, k, result);
    }
  }

  lemma FirstPass(base: nat)
    ensures ExactUntilOverflow(base, 1, base + 1)
  {
    BinomPositive(base + 1, 1);
  }

  lemma LastPass(n: nat, k: nat, r: nat)
    requires 1 <= k < n && ExactUntilOverflow(n - k, k, r)
    ensures r <= Binom(n, k) && (r == Binom(n, k) <==> k <= 1 || k * Binom(n, k) < WORD)
  {
    assert n - k + k == n;
  }

  /** The next coefficient along the diagonal on which the routine computes C(63,31). */
  lemma NextCoefficient(i: nat, b: nat, b': nat)
    requires i >= 1 && Binom(31 + i, i - 1) == b && i * b' == (32 + i) * b
    ensures Binom(32 + i, i) == b'
  {
    Absorption(32 + i, i);
    MulCancel(i, Binom(32 + i, i), b');
  }

  lemma MulCancel(i: nat, x: nat, y: nat)
    requires i > 0 && i * x == i * y
    ensures x == y
  {
    if x < y {
      MulMonotone(i, x + 1, y);
    } else if y < x {
      MulMonotone(i, y + 1, x);
    }
  }

  lemma DiagonalUpTo16()
    ensures Binom(48, 16) == 2254848913647
  {
    hide Binom;
    BinomPositive(33, 1);
    NextCoefficient(2, 33, 561);
    NextCoefficient(3, 561, 6545);
    NextCoefficient(4, 6545, 58905);
    NextCoefficient(5, 58905, 435897);
    NextCoefficient(6, 435897, 2760681);
    NextCoefficient(7, 2760681, 15380937);
    NextCoefficient(8, 15380937, 76904685);
    NextCoefficient(9, 76904685, 350343565);
    NextCoefficient(10, 350343565, 1471442973);
    NextCoefficient(11, 1471442973, 5752004349);
    NextCoefficient(12, 5752004349, 21090682613);
    NextCoefficient(13, 21090682613, 73006209045);
    NextCoefficient(14, 73006209045, 239877544005);
    NextCoefficient(15, 239877544005, 751616304549);
    NextCoefficient(16, 751616304549, 2254848913647);
  }

  /** The coefficient C(63,31) fits into 64 bits and yet the multiplicative routine misses it; the in-place one does not. */
  lemma MissedCoefficient()
    ensures Binom(63, 31) == 916312070471295267
    ensures Word(Binom(63, 31)) == Binom(63, 31) && 31 * Binom(63, 31) >= WORD
  {
    hide Binom;
    DiagonalUpTo16();
    NextCoefficient(17, 2254848913647, 6499270398159);
    NextCoefficient(18, 6499270398159, 18053528883775);
    NextCoefficient(19, 18053528883775, 48459472266975);
    NextCoefficient(20, 48459472266975, 125994627894135);
    NextCoefficient(21, 125994627894135, 317986441828055);
    NextCoefficient(22, 317986441828055, 780512175396135);
    NextCoefficient(23, 780512175396135, 1866442158555975);
    NextCoefficient(24, 1866442158555975, 4355031703297275);
    NextCoefficient(25, 4355031703297275, 9929472283517787);
    NextCoefficient(26, 9929472283517787, 22150361247847371);
    NextCoefficient(27, 22150361247847371, 48402641245296107);
    NextCoefficient(28, 48402641245296107, 103719945525634515);
    NextCoefficient(29, 103719945525634515, 218169540588403635);
    NextCoefficient(30, 218169540588403635, 450883717216034179);
    NextCoefficient(31, 450883717216034179, 916312070471295267);
  }

  // ----- Subsets by number -----

  /** The c-th of the k-element subsets of {offset, ..., n-1}, those with `offset` first. */
  function Unrank(n: nat, offset: nat, k: nat, c: nat): set<nat>
    requires offset <= n && c < Binom(n - offset, k)
    decreases n - offset
  {
    if k == 0 then {}
    else
      var first := Binom(n - offset - 1, k - 1);
      if c < first then {offset} + Unrank(n, offset + 1, k - 1, c)
      else Unrank(n, offset + 1, k, c - first)
  }

  /** How many k-element subsets of {offset, ..., n-1} come before s. */
  function Rank(n: nat, offset: nat, k: nat, s: set<nat>): nat
    requires offset <= n
    decreases n - offset
  {
    if k == 0 || offset == n then 0
    else if offset in s then Rank(n, offset + 1, k - 1, s)
    else Binom(n - offset - 1, k - 1) + Rank(n, offset + 1, k, s)
  }

  ghost predicate SubsetFrom(s: set<nat>, offset: nat, n: nat) {
    forall x :: x in s ==> offset <= x < n
  }

  /** Number c stands for a k-element subset, and the subset's number is c. */
  lemma {:induction false} UnrankThenRank(n: nat, offset: nat, k: nat, c: nat)
    requires offset <= n && c < Binom(n - offset, k)
    ensures var s := Unrank(n, offset, k, c);
            SubsetFrom(s, offset, n) && |s| == k && Rank(n, offset, k, s) == c
    decreases n - offset
  {
    if k > 0 {
      var first := Binom(n - offset - 1, k - 1);
      if c < first {
        var rest := Unrank(n, offset + 1, k - 1, c);
        UnrankThenRank(n, offset + 1, k - 1, c);
        RankIgnoresBefore(n, offset + 1, k - 1, rest, {offset} + rest);
      } else {
        UnrankThenRank(n, offset + 1, k, c - first);
      }
    }
  }

  lemma {:induction false} RankIgnoresBefore(n: nat, offset: nat, k: nat, s: set<nat>, t: set<nat>)
    requires offset <= n && forall x :: x >= offset ==> (x in s <==> x in t)
    ensures Rank(n, offset, k, s) == Rank(n, offset, k, t)
    decreases n - offset
  {
    if k > 0 && offset < n {
      RankIgnoresBefore(n, offset + 1, k - 1, s, t);
      RankIgnoresBefore(n, offset + 1, k, s, t);
    }
  }

  /** Every k-element subset has a number, which stands for the subset. */
  lemma {:induction false} RankThenUnrank(n: nat, offset: nat, k: nat, s: set<nat>)
    requires offset <= n && SubsetFrom(s, offset, n) && |s| == k
    ensures Rank(n, offset, k, s) < Binom(n - offset, k)
    ensures Unrank(n, offset, k, Rank(n, offset, k, s)) == s
    decreases n - offset
  {
    if offset == n || k == 0 {
      NothingToChoose(n, offset, s);
    } else if offset in s {
      var rest := s - {offset};
      RankThenUnrank(n, offset + 1, k - 1, rest);
      RankIgnoresBefore(n, offset + 1, k - 1, rest, s);
      assert {offset} + rest == s;
    } else {
      RankThenUnrank(n, offset + 1, k, s);
    }
  }

  lemma NothingToChoose(n: nat, offset: nat, s: set<nat>)
    requires SubsetFrom(s, offset, n) && (offset == n || |s| == 0)
    ensures s == {}
  {
    if x :| x in s {
      assert offset <= x < n;
    }
  }

  /** In lexicographic order s comes before t: the first column in which they differ belongs to s. */
  ghost predicate Precedes(s: set<nat>, t: set<nat>) {
    exists d :: d in s && d !in t && forall x :: 0 <= x < d ==> (x in s <==> x in t)
  }

  lemma {:induction false} RankOrder(n: nat, offset: nat, k: nat, s: set<nat>, t: set<nat>, d: nat)
    requires offset <= d < n && SubsetFrom(s, offset, n) && SubsetFrom(t, offset, n) && |s| == |t| == k
    requires d in s && d !in t && forall x :: 0 <= x < d ==> (x in s <==> x in t)
    ensures Rank(n, offset, k, s) < Rank(n, offset, k, t)
    decreases n - offset
  {
    if offset == d {
      RankBelow(n, offset + 1, k - 1, s - {offset}, s);
    } else if offset in s {
      RankOrder(n, offset + 1, k - 1, s - {offset}, t - {offset}, d);
      RankIgnoresBefore(n, offset + 1, k - 1, s - {offset}, s);
      RankIgnoresBefore(n, offset + 1, k - 1, t - {offset}, t);
    } else {
      RankOrder(n, offset + 1, k, s, t, d);
    }
  }

  lemma RankBelow(n: nat, offset: nat, k: nat, s: set<nat>, t: set<nat>)
    requires offset <= n && SubsetFrom(s, offset, n) && |s| == k
    requires forall x :: x >= offset ==> (x in s <==> x in t)
    ensures Rank(n, offset, k, t) < Binom(n - offset, k)
  {
    RankThenUnrank(n, offset, k, s);
    RankIgnoresBefore(n, offset, k, s, t);
  }

  /** The assignments are numbered in lexicographic order: those with the lower columns come first. */
  lemma AssignmentsInOrder(n: nat, k: nat, c: nat, d: nat)
    requires c < Binom(n, k) && d < Binom(n, k)
    ensures c < d <==> Precedes(Unrank(n, 0, k, c), Unrank(n, 0, k, d))
  {
    var (s, t) := (Unrank(n, 0, k, c), Unrank(n, 0, k, d));
    UnrankThenRank(n, 0, k, c);
    UnrankThenRank(n, 0, k, d);
    if Precedes(s, t) {
      var x :| x in s && x !in t && forall y :: 0 <= y < x ==> (y in s <==> y in t);
      RankOrder(n, 0, k, s, t, x);
    }
    if c < d {
      FirstDifference(n, s, t);
      if Precedes(t, s) {
        var x :| x in t && x !in s && forall y :: 0 <= y < x ==> (y in t <==> y in s);
        RankOrder(n, 0, k, t, s, x);
        assert false;
      }
    }
  }

  /** Of two different sets one comes first. */
  lemma {:induction false} FirstDifferenceFrom(n: nat, s: set<nat>, t: set<nat>, i: nat)
    requires i <= n && (forall x :: 0 <= x < i ==> (x in s <==> x in t))
    ensures Precedes(s, t) || Precedes(t, s) || forall x :: 0 <= x < n ==> (x in s <==> x in t)
    decreases n - i
  {
    if i < n && (i in s <==> i in t) {
      FirstDifferenceFrom(n, s, t, i + 1);
    }
  }

  lemma FirstDifference(n: nat, s: set<nat>, t: set<nat>)
    requires SubsetFrom(s, 0, n) && SubsetFrom(t, 0, n) && s != t
    ensures Precedes(s, t) || Precedes(t, s)
  {
    assert exists x :: !(x in s <==> x in t);
    FirstDifferenceFrom(n, s, t, 0);
  }

  ghost predicate HasNumber(n: nat, k: nat, s: set<nat>) {
    exists c: nat :: c < Binom(n, k) && Unrank(n, 0, k, c) == s
  }

  /**
    The assignments are numbered without gaps or repetitions: the numbers below
    C(n,k) and the k-element subsets of n columns correspond one to one.
   */
  lemma AssignmentsAreABijection(n: nat, k: nat)
    ensures forall c: nat :: c < Binom(n, k) ==>
              var s := Unrank(n, 0, k, c);
              SubsetFrom(s, 0, n) && |s| == k
    ensures forall c: nat, d: nat :: c < Binom(n, k) && d < Binom(n, k) && Unrank(n, 0, k, c) == Unrank(n, 0, k, d) ==> c == d
    ensures forall s: set<nat> :: SubsetFrom(s, 0, n) && |s| == k ==> HasNumber(n, k, s)
  {
    forall c: nat | c < Binom(n, k)
      ensures var s := Unrank(n, 0, k, c);
              SubsetFrom(s, 0, n) && |s| == k && Rank(n, 0, k, s) == c
    {
      UnrankThenRank(n, 0, k, c);
    }
    forall s: set<nat> | SubsetFrom(s, 0, n) && |s| == k
      ensures HasNumber(n, k, s)
    {
      RankThenUnrank(n, 0, k, s);
      var c := Rank(n, 0, k, s);
      assert c < Binom(n, k) && Unrank(n, 0, k, c) == s;
    }
  }

  // ----- The search -----

  /** The state of the search when the columns before i have been tried. */
  ghost function Passed(n: nat, offset: nat, i: nat, k: nat, ctr: int): int
    requires offset <= n && i <= n
  {
    if ctr < 0 then ctr else ctr - (Binom(n - offset, k) - Binom(n - i, k))
  }

  /** Searching from column i on instead of `offset` finds the same subset. */
  lemma UnrankSkips(n: nat, offset: nat, i: nat, k: nat, c: nat)
    requires offset <= i <= n && 1 <= k
    requires Binom(n - offset, k) - Binom(n - i, k) <= c < Binom(n - offset, k)
    ensures Unrank(n, offset, k, c) == Unrank(n, i, k, c - (Binom(n - offset, k) - Binom(n - i, k)))
    decreases n - offset
  {
    if offset < i {
      BinomShrinks(n - offset - 1, n - i, k);
      UnrankSkips(n, offset + 1, i, k, c - Binom(n - offset - 1, k - 1));
    }
  }

  lemma {:induction false} BinomShrinks(n: nat, n': nat, k: nat)
    requires n' <= n
    ensures Binom(n', k) <= Binom(n, k)
  {
    if n' < n && k > 0 {
      BinomShrinks(n - 1, n', k);
    }
  }

  /**
    `fillBuckets`: looks for the ctr-th way to place theK entries from column
    `offset` on. It either finds it and sets exactly its columns, signalled by
    -2, or leaves the bucket as it was and lowers ctr by the number of ways.
   */
  method FillBuckets(bucket: set<nat>, n: nat, offset: nat, theK: nat, ctr: int) returns (bucket': set<nat>, ctr': int)
    requires 1 <= theK <= n && offset <= n
    requires ctr >= -1
    requires forall x :: x in bucket ==> x < offset
    ensures 0 <= ctr < Binom(n - offset, theK) ==> ctr' == -2 && bucket' == bucket + Unrank(n, offset, theK, ctr)
    ensures ctr >= Binom(n - offset, theK) ==> ctr' == ctr - Binom(n - offset, theK) && bucket' == bucket
    ensures ctr == -1 ==> ctr' == -1 && bucket' == bucket
    decreases theK
  {
    hide Binom, Unrank;
    bucket', ctr' := bucket, ctr;
    var i := offset;
    while i <= n - theK
      invariant offset <= i <= n
      invariant i <= n - theK + 1 || i == offset
      invariant bucket' == bucket && ctr' >= -1 && (ctr' == -1 ==> ctr == -1)
      invariant ctr' == Passed(n, offset, i, theK, ctr)
    {
      ghost var before := ctr';
      bucket' := bucket' + {i};
      if theK > 1 {
        bucket', ctr' := FillBuckets(bucket', n, i + 1, theK - 1, ctr');
        FoundHere(n, offset, i, theK, ctr, before, bucket);
        if ctr' == -2 {
          return;
        }
      } else {
        FoundHere(n, offset, i, theK, ctr, before, bucket);
        OneEntry(n, i, before);
        if ctr' > 0 {
          ctr' := ctr' - 1;
        } else if ctr' == 0 {
          ctr' := -2;
          return;
        }
      }
      bucket' := bucket' - {i};
      assert bucket' == bucket;
      i := i + 1;
    }
    NoneLeft(n, offset, i, theK);
  }

  lemma OneEntry(n: nat, i: nat, c: int)
    requires i < n
    ensures Binom(n - i - 1, 0) == 1
    ensures c == 0 ==> Unrank(n, i + 1, 0, c) == {}
  {
  }

  lemma NoneLeft(n: nat, offset: nat, i: nat, k: nat)
    requires offset <= i <= n && i > n - k
    ensures Binom(n - i, k) == 0
  {
    BinomOutside(n - i, k);
  }

  /** What trying column i means for the whole search. */
  lemma FoundHere(n: nat, offset: nat, i: nat, k: nat, ctr: int, before: int, bucket: set<nat>)
    requires offset <= i < n && 1 <= k && ctr >= -1
    requires before == Passed(n, offset, i, k, ctr) && before >= -1 && (before == -1 ==> ctr == -1)
    ensures var here := Binom(n - i - 1, k - 1);
            && (0 <= before < here ==>
                  && 0 <= ctr < Binom(n - offset, k)
                  && Unrank(n, offset, k, ctr) == {i} + Unrank(n, i + 1, k - 1, before))
            && (before >= here ==> Passed(n, offset, i + 1, k, ctr) == before - here)
            && (before == -1 ==> Passed(n, offset, i + 1, k, ctr) == -1)
  {
    var here := Binom(n - i - 1, k - 1);
    assert Binom(n - i, k) == here + Binom(n - i - 1, k);
    BinomShrinks(n - offset, n - i, k);
    if 0 <= before < here {
      UnrankSkips(n, offset, i, k, ctr);
    }
  }

  /** `getAssignment`: the columns of assignment number num. */
  method GetAssignment(length: nat, nEntries: nat, num: nat) returns (assignment: set<nat>)
    requires 1 <= nEntries <= length && num < Binom(length, nEntries)
    ensures assignment == Unrank(length, 0, nEntries, num)
    ensures SubsetFrom(assignment, 0, length) && |assignment| == nEntries
  {
    UnrankThenRank(length, 0, nEntries, num);
    var counter;
    assignment, counter := FillBuckets({}, length, 0, nEntries, num);
  }
}
