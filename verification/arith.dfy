/** Facts about Euclidean division and remainder by a positive divisor, the
    arithmetic behind round-robin placement (`index % teamCount`). */
module Arith {

  /** Division and remainder are determined by any decomposition
      `a == q * k + r` with `0 <= r < k`. */
  lemma DivModUnique(a: int, k: int, q: int, r: int)
    requires k > 0 && 0 <= r < k && a == q * k + r
    ensures a / k == q && a % k == r
  {
    var q', r' := a / k, a % k;
    assert a == q' * k + r';
    assert (q' - q) * k == r - r';
    if q' > q {
      MulAtLeast(q' - q, k);
    } else if q' < q {
      MulAtLeast(q - q', k);
    }
  }

  lemma MulAtLeast(d: int, k: int)
    requires d >= 1 && k > 0
    ensures d * k >= k
  {
    assert d * k == (d - 1) * k + k;
  }

  /** Moving from `a` to `a + 1` either bumps the remainder by one or wraps
      it to zero and bumps the quotient. */
  lemma DivModSucc(a: nat, k: nat)
    requires k > 0
    ensures a % k + 1 < k ==> (a + 1) / k == a / k && (a + 1) % k == a % k + 1
    ensures a % k + 1 == k ==> (a + 1) / k == a / k + 1 && (a + 1) % k == 0
  {
    var q, r := a / k, a % k;
    if r + 1 < k {
      DivModUnique(a + 1, k, q, r + 1);
    } else {
      assert a + 1 == (q + 1) * k + 0;
      DivModUnique(a + 1, k, q + 1, 0);
    }
  }

  /** Position `m` of bucket `j` corresponds to index `j + m * k`. */
  lemma BucketIndex(j: nat, m: nat, k: nat)
    requires j < k
    ensures (j + m * k) / k == m && (j + m * k) % k == j
  {
    DivModUnique(j + m * k, k, m, j);
  }

  /** An index `j + m * k` lies below `n` exactly when `m` is smaller than
      the number of indices below `n` that are congruent to `j`. */
  lemma BucketIndexBound(n: nat, k: nat, j: nat, m: nat)
    requires j < k
    ensures j + m * k < n <==> m < n / k + (if j < n % k then 1 else 0)
  {
    var q, r := n / k, n % k;
    assert n == q * k + r;
    if m < q {
      MulAtLeast(q - m, k);
      assert (q - m) * k == q * k - m * k;
    } else if m == q {
    } else {
      MulAtLeast(m - q, k);
      assert (m - q) * k == m * k - q * k;
    }
  }

  lemma QuotientAtLeastOne(n: nat, k: nat)
    requires 0 < k <= n
    ensures n / k >= 1
  {
    DivModUnique(n, k, n / k, n % k);
  }
}
