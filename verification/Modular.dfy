/** Positions of a ring: counters taken modulo its size. */
module Modular {

  lemma Quotient(n: int, m: int, q: int, r: int)
    requires m > 0 && n == q * m + r && 0 <= r < m
    ensures n % m == r && n / m == q
  {
    var d := n / m - q;
    assert n == (n / m) * m + n % m;
    assert d * m == r - n % m;
    NoMultiple(d, m, r - n % m);
  }

  lemma ProductBound(d: int, m: nat)
    ensures d > 0 ==> d * m >= m
    ensures d < 0 ==> d * m + m <= 0
  {
  }

  lemma NoMultiple(d: int, m: int, x: int)
    requires m > 0 && d * m == x && -m < x < m
    ensures d == 0
  {
    ProductBound(d, m);
  }

  /** Stepping a counter steps its position, around the end. */
  lemma StepAround(n: nat, m: nat)
    requires m > 0
    ensures (n + 1) % m == (n % m + 1) % m
    ensures (n % m + 1) % m == if n % m + 1 == m then 0 else n % m + 1
  {
    var q, r := n / m, n % m;
    assert n == q * m + r;
    if r + 1 == m {
      assert n + 1 == (q + 1) * m + 0;
      Quotient(n + 1, m, q + 1, 0);
      Quotient(m, m, 1, 0);
    } else {
      Quotient(n + 1, m, q, r + 1);
      Quotient(r + 1, m, 0, r + 1);
    }
  }

  /** Counters less than a round apart are at different positions. */
  lemma Apart(i: nat, j: nat, m: nat)
    requires i < j < i + m
    ensures i % m != j % m
  {
    if i % m == j % m {
      assert i == i / m * m + i % m && j == j / m * m + j % m;
      assert (j / m - i / m) * m == j - i;
      NoMultiple(j / m - i / m, m, j - i);
    }
  }

  /** Adding a position and a distance is adding the counters. */
  lemma AddAround(n: nat, k: nat, m: nat)
    requires m > 0
    ensures (n % m + k) % m == (n + k) % m
  {
    var q, r := n / m, n % m;
    var s, t := (r + k) / m, (r + k) % m;
    assert n == q * m + r && r + k == s * m + t;
    assert n + k == (q + s) * m + t;
    Quotient(n + k, m, q + s, t);
  }

  lemma Small(n: nat, m: nat)
    requires n < m
    ensures n % m == n
  {
    Quotient(n, m, 0, n);
  }
}
