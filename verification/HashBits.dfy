/** Unsigned numbers bit by bit: the masks and shifts of the hash table as remainders and quotients. */
module HashBits {
  import Modular

  function Pow2(k: nat): (r: nat)
    ensures r > 0
  {
    if k == 0 then 1 else 2 * Pow2(k - 1)
  }

  /** The bitwise `&` of two unsigned numbers. */
  function BitAnd(a: nat, b: nat): (r: nat)
    ensures r <= b
  {
    if a == 0 || b == 0 then 0 else (if a % 2 == 1 && b % 2 == 1 then 1 else 0) + 2 * BitAnd(a / 2, b / 2)
  }

  /** `>>`. */
  function ShiftRight(a: nat, k: nat): nat {
    if k == 0 then a else ShiftRight(a / 2, k - 1)
  }

  lemma HalfMod(a: nat, m: nat)
    requires m > 0
    ensures a % (2 * m) == 2 * (a / 2 % m) + a % 2 && a / (2 * m) == a / 2 / m
  {
    var q, r := a / 2 / m, a / 2 % m;
    assert a / 2 == q * m + r;
    assert a == 2 * (q * m + r) + a % 2;
    assert q * (2 * m) == 2 * (q * m);
    Modular.Quotient(a, 2 * m, q, 2 * r + a % 2);
  }

  /** Masking with 2^k - 1 is the remainder modulo 2^k. */
  lemma {:induction false} MaskIsMod(a: nat, k: nat)
    ensures BitAnd(a, Pow2(k) - 1) == a % Pow2(k)
  {
    if k > 0 {
      var m := Pow2(k - 1);
      assert (2 * m - 1) % 2 == 1 && (2 * m - 1) / 2 == m - 1;
      HalfMod(a, m);
      MaskIsMod(a / 2, k - 1);
    } else {
      assert a % 1 == 0;
    }
  }

  lemma {:induction false} ShiftIsDiv(a: nat, k: nat)
    ensures ShiftRight(a, k) == a / Pow2(k)
  {
    if k > 0 {
      ShiftIsDiv(a / 2, k - 1);
      HalfMod(a, Pow2(k - 1));
    }
  }

  function CeilDiv(n: nat, d: nat): nat
    requires d > 0
  {
    if n % d == 0 then n / d else n / d + 1
  }

  /** The least number of chains' length that holds n elements in d chains. */
  lemma CeilDivIs(n: nat, d: nat)
    requires d > 0
    ensures n <= CeilDiv(n, d) * d && (CeilDiv(n, d) > 0 ==> (CeilDiv(n, d) - 1) * d < n)
    ensures n > 0 ==> CeilDiv(n, d) > 0
  {
    var q := n / d;
    assert n == q * d + n % d;
    assert (q + 1) * d == q * d + d;
    assert (q - 1) * d == q * d - d;
  }

  /** The shift and the mask of the expansion compute the rounded-up quotient. */
  lemma CeilByBits(n: nat, k: nat)
    ensures CeilDiv(n, Pow2(k)) == ShiftRight(n, k) + (if BitAnd(n, Pow2(k) - 1) != 0 then 1 else 0)
  {
    MaskIsMod(n, k);
    ShiftIsDiv(n, k);
  }

  /** A residue modulo 2n is a residue modulo n too: expansion splits each chain in two. */
  lemma ResidueSplits(a: nat, n: nat)
    requires n > 0
    ensures a % (2 * n) % n == a % n
  {
    var q, r := a / (2 * n), a % (2 * n);
    assert a == q * (2 * n) + r && q * (2 * n) == 2 * q * n;
    var s, t := r / n, r % n;
    assert r == s * n + t;
    assert (2 * q + s) * n == 2 * q * n + s * n;
    Modular.Quotient(a, n, 2 * q + s, t);
  }
}
