/**
 The arithmetic of bucket expansion: how many items lie beyond the ideal chain length, and the multiplier
 that keeps an overused bucket from expanding the table again.
 */
module HashExpansion {
  import opened Seqs

  /** The multiplier of a bucket that has received n items, one by one, during an expansion. */
  function Multiplier(n: nat, ideal: nat): nat {
    if n == 0 then 0
    else
      var m := Multiplier(n - 1, ideal);
      if n > ideal && n > m * ideal then m + 1 else m
  }

  /** The multiplier bounds the chain. */
  lemma {:induction false} MultiplierBounds(n: nat, ideal: nat)
    requires ideal > 0
    ensures n <= (Multiplier(n, ideal) + 1) * ideal
    ensures n <= ideal <==> Multiplier(n, ideal) == 0
  {
    if n > 0 {
      var m := Multiplier(n - 1, ideal);
      MultiplierBounds(n - 1, ideal);
      assert (m + 1) * ideal == m * ideal + ideal;
      assert (m + 2) * ideal == (m + 1) * ideal + ideal;
    }
  }

  function Over(n: nat, ideal: nat): nat {
    if n > ideal then n - ideal else 0
  }

  /** The items beyond the ideal length, over all chains. */
  function Excess<T>(chains: seq<seq<T>>, ideal: nat): nat {
    if chains == [] then 0 else Over(|chains[0]|, ideal) + Excess(chains[1..], ideal)
  }

  lemma {:induction false} ExcessUpdate<T>(chains: seq<seq<T>>, b: nat, chain: seq<T>, ideal: nat)
    requires b < |chains|
    ensures Excess(chains[b := chain], ideal) ==
      Excess(chains, ideal) - Over(|chains[b]|, ideal) + Over(|chain|, ideal)
  {
    if b == 0 {
      assert chains[0 := chain][1..] == chains[1..];
    } else {
      ExcessUpdate(chains[1..], b - 1, chain, ideal);
      assert chains[b := chain][1..] == chains[1..][b - 1 := chain];
    }
  }

  lemma {:induction false} NoExcess<T>(chains: seq<seq<T>>, ideal: nat)
    requires forall b :: 0 <= b < |chains| ==> chains[b] == []
    ensures Excess(chains, ideal) == 0
  {
    if chains != [] {
      NoExcess(chains[1..], ideal);
    }
  }

  /** All chains together. */
  function Total<T>(chains: seq<seq<T>>): nat {
    if chains == [] then 0 else |chains[0]| + Total(chains[1..])
  }

  lemma {:induction false} TotalUpdate<T>(chains: seq<seq<T>>, b: nat, chain: seq<T>)
    requires b < |chains|
    ensures Total(chains[b := chain]) == Total(chains) - |chains[b]| + |chain|
  {
    if b == 0 {
      assert chains[0 := chain][1..] == chains[1..];
    } else {
      TotalUpdate(chains[1..], b - 1, chain);
      assert chains[b := chain][1..] == chains[1..][b - 1 := chain];
    }
  }

  lemma {:induction false} NoTotal<T>(chains: seq<seq<T>>)
    requires forall b :: 0 <= b < |chains| ==> chains[b] == []
    ensures Total(chains) == 0
  {
    if chains != [] {
      NoTotal(chains[1..]);
    }
  }

  lemma {:induction false} TotalSum<T>(a: seq<seq<T>>, b: seq<seq<T>>)
    ensures Total(a + b) == Total(a) + Total(b)
  {
    if a == [] {
      AppendNothing(b);
    } else {
      TotalSum(a[1..], b);
      SumTail(a, b);
    }
  }

  lemma TotalPrefix<T>(chains: seq<seq<T>>, b: nat)
    requires b < |chains|
    ensures Total(chains[..b + 1]) == Total(chains[..b]) + |chains[b]|
  {
    assert chains[..b + 1] == chains[..b] + [chains[b]];
    TotalSum(chains[..b], [chains[b]]);
  }
}
