/** Counting and selecting set bits: the specification side of RANK and SELECT. */
module BitCount {

  /** RANK, exclusive: the number of set bits among the first n. */
  function Count(bv: seq<bool>, n: nat): (c: nat)
    requires n <= |bv|
    ensures c <= n
  {
    if n == 0 then 0 else Count(bv, n - 1) + if bv[n - 1] then 1 else 0
  }

  lemma {:induction false} CountMonotone(bv: seq<bool>, m: nat, n: nat)
    requires m <= n <= |bv|
    ensures Count(bv, m) <= Count(bv, n) <= Count(bv, m) + (n - m)
  {
    if m < n {
      CountMonotone(bv, m, n - 1);
    }
  }

  /** A set bit at p raises the count of every later prefix above the count at p. */
  lemma {:induction false} CountZero(bv: seq<bool>)
    ensures Count(bv, 0) == 0
  {
  }

  lemma {:induction false} CountStep(bv: seq<bool>, p: nat)
    requires p < |bv|
    ensures Count(bv, p + 1) == Count(bv, p) + if bv[p] then 1 else 0
  {
  }

  lemma {:induction false} CountAfterSet(bv: seq<bool>, p: nat, n: nat)
    requires p < n <= |bv| && bv[p]
    ensures Count(bv, p) < Count(bv, n)
  {
    CountMonotone(bv, p + 1, n);
  }

  /** A stretch without set bits adds nothing. */
  lemma {:induction false} CountNone(bv: seq<bool>, lo: nat, hi: nat)
    requires lo <= hi <= |bv| && forall i :: lo <= i < hi ==> !bv[i]
    ensures Count(bv, hi) == Count(bv, lo)
  {
    if lo < hi {
      CountNone(bv, lo, hi - 1);
    }
  }

  /** Counting over a window that two vectors share, the second displaced by d. */
  lemma {:induction false} CountWindow(a: seq<bool>, b: seq<bool>, d: nat, lo: nat, hi: nat)
    requires lo <= hi <= |a| && hi + d <= |b|
    requires forall i {:trigger a[i]} :: lo <= i < hi ==> b[i + d] == a[i]
    ensures Count(b, hi + d) - Count(b, lo + d) == Count(a, hi) - Count(a, lo)
  {
    if lo < hi {
      CountWindow(a, b, d, lo, hi - 1);
      assert a[hi - 1] == b[hi - 1 + d];
    }
  }

  /** SELECT inside the first n bits: the position of the k-th set bit, counting from 1. */
  function SelectIn(bv: seq<bool>, n: nat, k: nat): (p: nat)
    requires n <= |bv| && 1 <= k <= Count(bv, n)
    ensures p < n && bv[p] && Count(bv, p) == k - 1
  {
    if bv[n - 1] && Count(bv, n - 1) == k - 1 then n - 1 else SelectIn(bv, n - 1, k)
  }

  function Select(bv: seq<bool>, k: nat): (p: nat)
    requires 1 <= k <= Count(bv, |bv|)
    ensures p < |bv| && bv[p] && Count(bv, p) == k - 1
  {
    SelectIn(bv, |bv|, k)
  }

  /** A set bit is the one SELECT finds for its own rank. */
  lemma {:induction false} SelectUnique(bv: seq<bool>, p: nat)
    requires p < |bv| && bv[p]
    ensures 1 <= Count(bv, p) + 1 <= Count(bv, |bv|)
    ensures Select(bv, Count(bv, p) + 1) == p
  {
    CountMonotone(bv, p + 1, |bv|);
    var s := Select(bv, Count(bv, p) + 1);
    if s < p {
      CountAfterSet(bv, s, p);
    } else if p < s {
      CountAfterSet(bv, p, s);
    }
  }

  /** SELECT is strictly increasing in the rank. */
  lemma {:induction false} SelectMonotone(bv: seq<bool>, j: nat, k: nat)
    requires 1 <= j < k <= Count(bv, |bv|)
    ensures Select(bv, j) < Select(bv, k)
  {
    if Select(bv, k) < Select(bv, j) {
      CountAfterSet(bv, Select(bv, k), Select(bv, j));
    }
  }

  /** Which side of a prefix the k-th set bit lies on is decided by the prefix count. */
  lemma {:induction false} SelectSide(bv: seq<bool>, k: nat, n: nat)
    requires 1 <= k <= Count(bv, |bv|) && n <= |bv|
    ensures Select(bv, k) < n <==> k <= Count(bv, n)
  {
    var p := Select(bv, k);
    if p < n {
      CountAfterSet(bv, p, n);
    } else {
      CountMonotone(bv, n, p);
    }
  }
}
