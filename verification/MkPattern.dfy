/**
  The fixed mandatory/optional job patterns of (m,k)-firm tasks
  (src/taskmodels/mkptask.cpp, after Ramanathan 1999).
 */
module MkPattern {
  import opened Arithmetic

  ghost predicate ValidMk(m: nat, k: nat) {
    1 <= m <= k
  }

  /** The test that decides whether the job numbered `job` is mandatory. */
  predicate IsJobMandatory(job: nat, spin: nat, m: nat, k: nat)
    requires ValidMk(m, k)
  {
    (CeilDiv((job + spin) * m, k) * k) / m - spin == job
  }

  /** How many of the first n jobs of the unspun pattern are mandatory: ceil(n*m/k). */
  function Quota(n: nat, m: nat, k: nat): nat
    requires ValidMk(m, k)
  {
    CeilDiv(n * m, k)
  }

  /** The number of mandatory jobs among `len` consecutive jobs starting at `from`. */
  function MandatoryCount(from: nat, len: nat, spin: nat, m: nat, k: nat): nat
    requires ValidMk(m, k)
  {
    if len == 0 then 0
    else MandatoryCount(from, len - 1, spin, m, k)
         + if IsJobMandatory(from + len - 1, spin, m, k) then 1 else 0
  }

  /** One more job raises the quota by one or not at all. */
  lemma QuotaStep(n: nat, m: nat, k: nat)
    requires ValidMk(m, k)
    ensures Quota(n, m, k) <= Quota(n + 1, m, k) <= Quota(n, m, k) + 1
  {
    assert (n + 1) * m == n * m + m;
    CeilDivMonotone(n * m, (n + 1) * m, k);
    CeilDivSubadditive(n * m, m, k);
    CeilDivUnique(m, k, 1);
  }

  /** A job is mandatory exactly when it raises the quota. */
  lemma MandatoryRaisesQuota(job: nat, spin: nat, m: nat, k: nat)
    requires ValidMk(m, k)
    ensures IsJobMandatory(job, spin, m, k)
            <==> Quota(job + spin + 1, m, k) == Quota(job + spin, m, k) + 1
  {
    var n := job + spin;
    var c := Quota(n, m, k);
    assert (n + 1) * m == n * m + m && m * n == n * m && m * (n + 1) == n * m + m;
    CeilDivBounds(n * m, k);
    FloorDivUnique(c * k, m, n);
    QuotaStep(n, m, k);
    assert c * k == k * c;
    CeilDivBounds((n + 1) * m, k);
    if k * c < (n + 1) * m {
      if Quota(n + 1, m, k) == c {
        assert false;
      }
    } else {
      assert k * c < n * m + k;
      assert (n + 1) * m <= k * c < (n + 1) * m + k;
      CeilDivUnique((n + 1) * m, k, c);
    }
  }

  /** The number of mandatory jobs in a stretch is a difference of two quotas. */
  lemma {:induction false} MandatoryCountIsQuota(from: nat, len: nat, spin: nat, m: nat, k: nat)
    requires ValidMk(m, k)
    ensures MandatoryCount(from, len, spin, m, k)
            == Quota(from + spin + len, m, k) - Quota(from + spin, m, k)
  {
    if len > 0 {
      MandatoryCountIsQuota(from, len - 1, spin, m, k);
      var job := from + len - 1;
      assert job + spin + 1 == from + spin + len && job + spin == from + spin + (len - 1);
      MandatoryRaisesQuota(job, spin, m, k);
      QuotaStep(job + spin, m, k);
    }
  }

  /** Without spin, exactly ceil(n*m/k) of the first n jobs are mandatory. */
  lemma UnspunPrefixCount(n: nat, m: nat, k: nat)
    requires ValidMk(m, k)
    ensures MandatoryCount(0, n, 0, m, k) == CeilDiv(n * m, k)
  {
    MandatoryCountIsQuota(0, n, 0, m, k);
    assert 0 * m == 0;
    CeilDivUnique(0, k, 0);
  }

  /** Whatever the spin, any k consecutive jobs contain exactly m mandatory ones. */
  lemma WindowCount(from: nat, spin: nat, m: nat, k: nat)
    requires ValidMk(m, k)
    ensures MandatoryCount(from, k, spin, m, k) == m
  {
    MandatoryCountIsQuota(from, k, spin, m, k);
    var n := from + spin;
    assert (n + k) * m == n * m + k * m;
    CeilDivShift(n * m, k, m);
  }

  /** Whatever the spin, any n consecutive jobs contain at most ceil(n*m/k) mandatory ones. */
  lemma StretchBound(from: nat, n: nat, spin: nat, m: nat, k: nat)
    requires ValidMk(m, k)
    ensures MandatoryCount(from, n, spin, m, k) <= CeilDiv(n * m, k)
  {
    MandatoryCountIsQuota(from, n, spin, m, k);
    var f := from + spin;
    assert (f + n) * m == f * m + n * m;
    CeilDivSubadditive(f * m, n * m, k);
  }

  /** A prefix of a window misses at most as many mandatory jobs as it misses jobs. */
  lemma {:induction false} PartialWindowCount(from: nat, len: nat, spin: nat, m: nat, k: nat)
    requires ValidMk(m, k) && len <= k
    ensures MandatoryCount(from, len, spin, m, k) + (k - len) >= m
    decreases k - len
  {
    if len == k {
      WindowCount(from, spin, m, k);
    } else {
      PartialWindowCount(from, len + 1, spin, m, k);
    }
  }
}
