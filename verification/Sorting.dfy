/**
 The mergesort of `sort_list` on sequences: which element ends up where. The linked-list method in
 LinkedSort is proved to leave exactly this order.
 */
module Sorting {
  import opened CStrings
  import opened Seqs

  /** Every adjacent pair is in strict order: the test that leaves a list alone. */
  predicate StrictlySorted<T>(s: seq<T>, key: T -> string, cs: bool) {
    forall i :: 0 <= i < |s| - 1 ==> CompareStrings(key(s[i]), key(s[i + 1]), cs) < 0
  }

  predicate Sorted<T>(s: seq<T>, key: T -> string, cs: bool) {
    forall i, j :: 0 <= i < j < |s| ==> CompareStrings(key(s[i]), key(s[j]), cs) <= 0
  }

  /** Merge of two runs; on equal keys the element of the second run comes first. */
  function Merge<T>(a: seq<T>, b: seq<T>, key: T -> string, cs: bool): (r: seq<T>)
    ensures |r| == |a| + |b|
  {
    if a == [] then b
    else if b == [] then a
    else if CompareStrings(key(a[0]), key(b[0]), cs) < 0 then [a[0]] + Merge(a[1..], b, key, cs)
    else [b[0]] + Merge(a, b[1..], key, cs)
  }

  lemma {:induction false} MergePermutes<T>(a: seq<T>, b: seq<T>, key: T -> string, cs: bool)
    ensures multiset(Merge(a, b, key, cs)) == multiset(a) + multiset(b)
  {
    if a != [] && b != [] {
      if CompareStrings(key(a[0]), key(b[0]), cs) < 0 {
        MergePermutes(a[1..], b, key, cs);
        HeadTail(a);
      } else {
        MergePermutes(a, b[1..], key, cs);
        HeadTail(b);
      }
    }
  }

  /** Lists already in strict order are kept; others are cut after the first half, rounded up. */
  function Sort<T>(s: seq<T>, key: T -> string, cs: bool): (r: seq<T>)
    ensures |r| == |s|
    decreases |s|
  {
    if |s| <= 1 || StrictlySorted(s, key, cs) then s
    else
      var h := (|s| + 1) / 2;
      Merge(Sort(s[..h], key, cs), Sort(s[h..], key, cs), key, cs)
  }

  /** `sort_list` loses and adds no element. */
  lemma {:induction false} SortPermutes<T>(s: seq<T>, key: T -> string, cs: bool)
    ensures multiset(Sort(s, key, cs)) == multiset(s)
    decreases |s|
  {
    if |s| > 1 && !StrictlySorted(s, key, cs) {
      var h := (|s| + 1) / 2;
      SortPermutes(s[..h], key, cs);
      SortPermutes(s[h..], key, cs);
      MergePermutes(Sort(s[..h], key, cs), Sort(s[h..], key, cs), key, cs);
      CutAt(s, h);
    }
  }

  lemma CompareTransitive(a: string, b: string, c: string, cs: bool)
    requires CompareStrings(a, b, cs) <= 0 && CompareStrings(b, c, cs) <= 0
    ensures CompareStrings(a, c, cs) <= 0
    ensures CompareStrings(a, b, cs) < 0 || CompareStrings(b, c, cs) < 0 ==> CompareStrings(a, c, cs) < 0
  {
    StrCmpTransitive(Fold(a, cs), Fold(b, cs), Fold(c, cs));
  }

  lemma CompareTotal(a: string, b: string, cs: bool)
    ensures CompareStrings(a, b, cs) < 0 <==> CompareStrings(b, a, cs) > 0
    ensures CompareStrings(a, b, cs) == 0 <==> Fold(a, cs) == Fold(b, cs)
  {
    StrCmpAntisymmetric(Fold(a, cs), Fold(b, cs));
    StrCmpZero(Fold(a, cs), Fold(b, cs));
  }

  lemma {:induction false} AdjacentToAll<T>(s: seq<T>, key: T -> string, cs: bool, i: nat, j: nat)
    requires StrictlySorted(s, key, cs) && i < j < |s|
    ensures CompareStrings(key(s[i]), key(s[j]), cs) < 0
    decreases j - i
  {
    if i + 1 < j {
      AdjacentToAll(s, key, cs, i + 1, j);
      CompareTransitive(key(s[i]), key(s[i + 1]), key(s[j]), cs);
    }
  }

  /** x is no later than anything in a sorted run that starts no earlier than x. */
  lemma BelowSorted<T>(x: T, s: seq<T>, key: T -> string, cs: bool)
    requires Sorted(s, key, cs)
    requires s == [] || CompareStrings(key(x), key(s[0]), cs) <= 0
    ensures forall y :: y in s ==> CompareStrings(key(x), key(y), cs) <= 0
  {
    forall y | y in s
      ensures CompareStrings(key(x), key(y), cs) <= 0
    {
      var k :| 0 <= k < |s| && s[k] == y;
      if k > 0 {
        CompareTransitive(key(x), key(s[0]), key(s[k]), cs);
      }
    }
  }

  lemma ConsSorted<T>(x: T, s: seq<T>, key: T -> string, cs: bool)
    requires Sorted(s, key, cs)
    requires forall y :: y in s ==> CompareStrings(key(x), key(y), cs) <= 0
    ensures Sorted([x] + s, key, cs)
  {
    var r := [x] + s;
    forall i, j | 0 <= i < j < |r|
      ensures CompareStrings(key(r[i]), key(r[j]), cs) <= 0
    {
      if i == 0 {
        assert r[j] == s[j - 1];
        assert s[j - 1] in s;
      } else {
        assert r[i] == s[i - 1] && r[j] == s[j - 1];
      }
    }
  }

  /** A key no later than the heads of two sorted runs goes in front of their merge. */
  lemma ConsMerged<T>(x: T, a: seq<T>, b: seq<T>, m: seq<T>, key: T -> string, cs: bool)
    requires Sorted(a, key, cs) && Sorted(b, key, cs) && Sorted(m, key, cs)
    requires multiset(m) == multiset(a) + multiset(b)
    requires a == [] || CompareStrings(key(x), key(a[0]), cs) <= 0
    requires b == [] || CompareStrings(key(x), key(b[0]), cs) <= 0
    ensures Sorted([x] + m, key, cs)
  {
    BelowSorted(x, a, key, cs);
    BelowSorted(x, b, key, cs);
    forall y | y in m
      ensures CompareStrings(key(x), key(y), cs) <= 0
    {
      MembersOfSum(m, a, b);
    }
    ConsSorted(x, m, key, cs);
  }

  lemma {:induction false} MergeSorted<T>(a: seq<T>, b: seq<T>, key: T -> string, cs: bool)
    requires Sorted(a, key, cs) && Sorted(b, key, cs)
    ensures Sorted(Merge(a, b, key, cs), key, cs)
  {
    if a != [] && b != [] {
      CompareTotal(key(a[0]), key(b[0]), cs);
      if CompareStrings(key(a[0]), key(b[0]), cs) < 0 {
        MergeSorted(a[1..], b, key, cs);
        MergePermutes(a[1..], b, key, cs);
        ConsMerged(a[0], a[1..], b, Merge(a[1..], b, key, cs), key, cs);
      } else {
        MergeSorted(a, b[1..], key, cs);
        MergePermutes(a, b[1..], key, cs);
        ConsMerged(b[0], a, b[1..], Merge(a, b[1..], key, cs), key, cs);
      }
    }
  }

  lemma MembersOfSum<T>(m: seq<T>, a: seq<T>, b: seq<T>)
    requires multiset(m) == multiset(a) + multiset(b)
    ensures forall y :: y in m <==> y in a || y in b
  {
    forall y
      ensures y in m <==> y in a || y in b
    {
      assert y in m <==> y in multiset(m);
      assert y in a <==> y in multiset(a);
      assert y in b <==> y in multiset(b);
    }
  }

  lemma SameMembers<T>(m: seq<T>, a: seq<T>)
    requires multiset(m) == multiset(a)
    ensures forall y :: y in m <==> y in a
  {
    MembersOfSum(m, a, []);
  }

  lemma MemberOf<T>(m: seq<T>, a: seq<T>, k: nat)
    requires multiset(m) == multiset(a) && k < |m|
    ensures m[k] in a
  {
    assert m[k] in multiset(m);
  }

  /** `sort_list` sorts: the result is in non-decreasing key order. */
  lemma {:induction false} SortSorted<T>(s: seq<T>, key: T -> string, cs: bool)
    ensures Sorted(Sort(s, key, cs), key, cs)
    decreases |s|
  {
    if |s| <= 1 {
    } else if StrictlySorted(s, key, cs) {
      forall i, j | 0 <= i < j < |s|
        ensures CompareStrings(key(s[i]), key(s[j]), cs) <= 0
      {
        AdjacentToAll(s, key, cs, i, j);
      }
    } else {
      var h := (|s| + 1) / 2;
      SortSorted(s[..h], key, cs);
      SortSorted(s[h..], key, cs);
      MergeSorted(Sort(s[..h], key, cs), Sort(s[h..], key, cs), key, cs);
    }
  }

  // ---------------------------------------------------------------- which order that is

  /** In a sorted list no key precedes an earlier one, byte for byte, once both are folded. */
  lemma SortOrders<T>(s: seq<T>, key: T -> string, cs: bool)
    ensures var r := Sort(s, key, cs);
      forall i, j :: 0 <= i < j < |r| ==> !Precedes(Fold(key(r[j]), cs), Fold(key(r[i]), cs))
  {
    var r := Sort(s, key, cs);
    SortSorted(s, key, cs);
    forall i, j | 0 <= i < j < |r|
      ensures !Precedes(Fold(key(r[j]), cs), Fold(key(r[i]), cs))
    {
      CompareOrders(key(r[i]), key(r[j]), cs);
    }
  }

  /** The elements whose folded key is k, in order. */
  function Alike<T>(s: seq<T>, k: string, key: T -> string, cs: bool): seq<T> {
    if s == [] then [] else (if Fold(key(s[0]), cs) == k then [s[0]] else []) + Alike(s[1..], k, key, cs)
  }

  function Reversed<T>(s: seq<T>): (r: seq<T>)
    ensures |r| == |s| && forall i :: 0 <= i < |s| ==> r[i] == s[|s| - 1 - i]
  {
    seq(|s|, i requires 0 <= i < |s| => s[|s| - 1 - i])
  }

  lemma {:induction false} AlikeSum<T>(a: seq<T>, b: seq<T>, k: string, key: T -> string, cs: bool)
    ensures Alike(a + b, k, key, cs) == Alike(a, k, key, cs) + Alike(b, k, key, cs)
  {
    if a == [] {
      AppendNothing(b);
    } else {
      var first := if Fold(key(a[0]), cs) == k then [a[0]] else [];
      SumTail(a, b);
      AlikeSum(a[1..], b, k, key, cs);
      AppendAssociates(first, Alike(a[1..], k, key, cs), Alike(b, k, key, cs));
      assert (a + b)[0] == a[0];
    }
  }

  lemma {:induction false} NoneAlike<T>(s: seq<T>, k: string, key: T -> string, cs: bool)
    requires forall i :: 0 <= i < |s| ==> Fold(key(s[i]), cs) != k
    ensures Alike(s, k, key, cs) == []
  {
    if s != [] {
      NoneAlike(s[1..], k, key, cs);
    }
  }

  /** What is behind a smaller key in a sorted list. */
  lemma AllLarger<T>(s: seq<T>, k: string, key: T -> string, cs: bool)
    requires Sorted(s, key, cs) && s != [] && StrCmp(k, Fold(key(s[0]), cs)) < 0
    ensures Alike(s, k, key, cs) == []
  {
    forall i | 0 <= i < |s|
      ensures Fold(key(s[i]), cs) != k
    {
      if i > 0 {
        assert CompareStrings(key(s[0]), key(s[i]), cs) <= 0;
        StrCmpTransitive(k, Fold(key(s[0]), cs), Fold(key(s[i]), cs));
      }
      StrCmpZero(k, Fold(key(s[i]), cs));
    }
    NoneAlike(s, k, key, cs);
  }

  /** Of elements with one key a merge takes those of the second run first. */
  lemma {:induction false} MergeAlike<T>(a: seq<T>, b: seq<T>, k: string, key: T -> string, cs: bool)
    requires Sorted(a, key, cs) && Sorted(b, key, cs)
    ensures Alike(Merge(a, b, key, cs), k, key, cs) == Alike(b, k, key, cs) + Alike(a, k, key, cs)
  {
    if a == [] {
      AppendNothing(Alike(b, k, key, cs));
    } else if b == [] {
      AppendNothing(Alike(a, k, key, cs));
    } else if CompareStrings(key(a[0]), key(b[0]), cs) < 0 {
      var m := Merge(a[1..], b, key, cs);
      MergeAlike(a[1..], b, k, key, cs);
      ConsTail(a[0], m);
      if Fold(key(a[0]), cs) == k {
        AllLarger(b, k, key, cs);
        AppendNothing(Alike(a, k, key, cs));
        AppendNothing(Alike(a[1..], k, key, cs));
      } else {
        AppendNothing(Alike(a[1..], k, key, cs));
        AppendNothing(Alike(m, k, key, cs));
      }
    } else {
      var m := Merge(a, b[1..], key, cs);
      MergeAlike(a, b[1..], k, key, cs);
      ConsTail(b[0], m);
      AppendAssociates(if Fold(key(b[0]), cs) == k then [b[0]] else [], Alike(b[1..], k, key, cs),
                       Alike(a, k, key, cs));
    }
  }

  lemma ReversedSum<T>(a: seq<T>, b: seq<T>)
    ensures Reversed(a + b) == Reversed(b) + Reversed(a)
  {
  }

  /** A list without equal keys, or of one element at most, has at most one element of each key. */
  lemma {:induction false} StrictAlike<T>(s: seq<T>, k: string, key: T -> string, cs: bool)
    requires |s| <= 1 || StrictlySorted(s, key, cs)
    ensures |Alike(s, k, key, cs)| <= 1
  {
    if |s| > 1 {
      StrictAlike(s[1..], k, key, cs);
      if Fold(key(s[0]), cs) == k {
        forall i | 0 <= i < |s[1..]|
          ensures Fold(key(s[1..][i]), cs) != k
        {
          AdjacentToAll(s, key, cs, 0, i + 1);
          CompareTotal(key(s[0]), key(s[i + 1]), cs);
        }
        NoneAlike(s[1..], k, key, cs);
      }
    }
  }

  /** `sort_list` is not stable: elements with equal keys come out in the reverse of their order. */
  lemma {:induction false} SortReversesAlike<T>(s: seq<T>, k: string, key: T -> string, cs: bool)
    ensures Alike(Sort(s, key, cs), k, key, cs) == Reversed(Alike(s, k, key, cs))
    decreases |s|
  {
    if |s| <= 1 || StrictlySorted(s, key, cs) {
      StrictAlike(s, k, key, cs);
    } else {
      var h := (|s| + 1) / 2;
      SortReversesAlike(s[..h], k, key, cs);
      SortReversesAlike(s[h..], k, key, cs);
      SortSorted(s[..h], key, cs);
      SortSorted(s[h..], key, cs);
      MergeAlike(Sort(s[..h], key, cs), Sort(s[h..], key, cs), k, key, cs);
      CutAt(s, h);
      AlikeSum(s[..h], s[h..], k, key, cs);
      ReversedSum(Alike(s[..h], k, key, cs), Alike(s[h..], k, key, cs));
    }
  }
}
