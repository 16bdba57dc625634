/**
 The bottom-up mergesort of `HASH_SRT` on sequences. Runs of one length are merged in pairs until one merge
 covers everything. The linked-list method in HashSort leaves exactly this order.
 */
module BottomUpSort {
  import opened Seqs

  /** What a comparison function sees of an element: its key, and what else it holds. */
  datatype Entry = Entry(key: string, data: int)

  type Compare = (Entry, Entry) -> int

  /** A total preorder, as a C comparison function expresses it. */
  ghost predicate TotalPreorder(cmp: Compare) {
    && (forall a, b {:trigger cmp(a, b)} :: cmp(a, b) <= 0 <==> cmp(b, a) >= 0)
    && (forall a, b, c {:trigger cmp(a, b), cmp(b, c)} :: cmp(a, b) <= 0 && cmp(b, c) <= 0 ==> cmp(a, c) <= 0)
  }

  /** The merge of two runs: on equal elements the first run goes first. */
  function Merge<T>(p: seq<T>, q: seq<T>, key: T -> Entry, cmp: Compare): (r: seq<T>)
    ensures |r| == |p| + |q|
  {
    if p == [] then q
    else if q == [] then p
    else if cmp(key(p[0]), key(q[0])) <= 0 then [p[0]] + Merge(p[1..], q, key, cmp)
    else [q[0]] + Merge(p, q[1..], key, cmp)
  }

  /** One pass: pairs of runs of k elements are merged. */
  function Pass<T>(s: seq<T>, k: nat, key: T -> Entry, cmp: Compare): (r: seq<T>)
    requires k > 0
    ensures |r| == |s|
    decreases |s|
  {
    if s == [] then []
    else
      var a, b := Min(k, |s|), Min(2 * k, |s|);
      Merge(s[..a], s[a..b], key, cmp) + Pass(s[b..], k, key, cmp)
  }

  /** Passes with runs of k, 2k, 4k... elements until a pass needs a single merge. */
  function SortFrom<T>(s: seq<T>, k: nat, key: T -> Entry, cmp: Compare): (r: seq<T>)
    requires k > 0
    ensures |r| == |s|
    decreases if |s| > k then |s| - k else 0
  {
    var r := Pass(s, k, key, cmp);
    if |s| <= 2 * k then r else SortFrom(r, 2 * k, key, cmp)
  }

  // ---------------------------------------------------------------- what the passes keep

  predicate Sorted<T>(s: seq<T>, key: T -> Entry, cmp: Compare) {
    forall i, j :: 0 <= i < j < |s| ==> cmp(key(s[i]), key(s[j])) <= 0
  }

  /** Every run of k elements is sorted. */
  predicate SortedRuns<T>(s: seq<T>, k: nat, key: T -> Entry, cmp: Compare)
    requires k > 0
    decreases |s|
  {
    s == [] || (Sorted(s[..Min(k, |s|)], key, cmp) && SortedRuns(s[Min(k, |s|)..], k, key, cmp))
  }

  /** The elements that compare equal to x, in order. */
  function Equals<T>(s: seq<T>, x: Entry, key: T -> Entry, cmp: Compare): seq<T> {
    if s == [] then []
    else (if cmp(key(s[0]), x) == 0 then [s[0]] else []) + Equals(s[1..], x, key, cmp)
  }

  lemma {:induction false} EqualsSum<T>(a: seq<T>, b: seq<T>, x: Entry, key: T -> Entry, cmp: Compare)
    ensures Equals(a + b, x, key, cmp) == Equals(a, x, key, cmp) + Equals(b, x, key, cmp)
  {
    if a == [] {
      AppendNothing(b);
      AppendNothing(Equals(b, x, key, cmp));
    } else {
      EqualsSum(a[1..], b, x, key, cmp);
      SumTail(a, b);
      AppendAssociates(if cmp(key(a[0]), x) == 0 then [a[0]] else [], Equals(a[1..], x, key, cmp),
                       Equals(b, x, key, cmp));
    }
  }

  lemma {:induction false} MergePermutes<T>(p: seq<T>, q: seq<T>, key: T -> Entry, cmp: Compare)
    ensures multiset(Merge(p, q, key, cmp)) == multiset(p) + multiset(q)
  {
    if p != [] && q != [] {
      if cmp(key(p[0]), key(q[0])) <= 0 {
        MergePermutes(p[1..], q, key, cmp);
        HeadTail(p);
      } else {
        MergePermutes(p, q[1..], key, cmp);
        HeadTail(q);
      }
    }
  }

  /** x is no later than anything in s. */
  ghost predicate Below<T>(x: T, s: seq<T>, key: T -> Entry, cmp: Compare) {
    forall y :: y in s ==> cmp(key(x), key(y)) <= 0
  }

  lemma HeadBelow<T>(s: seq<T>, key: T -> Entry, cmp: Compare)
    requires Sorted(s, key, cmp) && s != []
    ensures Below(s[0], s[1..], key, cmp) && Sorted(s[1..], key, cmp)
  {
  }

  lemma ConsSorted<T>(x: T, s: seq<T>, key: T -> Entry, cmp: Compare)
    requires Sorted(s, key, cmp) && Below(x, s, key, cmp)
    ensures Sorted([x] + s, key, cmp)
  {
    var r := [x] + s;
    forall i, j | 0 <= i < j < |r|
      ensures cmp(key(r[i]), key(r[j])) <= 0
    {
      assert r[j] == s[j - 1] && s[j - 1] in s;
      assert i > 0 ==> r[i] == s[i - 1];
    }
  }

  lemma BelowThrough<T>(x: T, y: T, s: seq<T>, key: T -> Entry, cmp: Compare)
    requires TotalPreorder(cmp) && cmp(key(x), key(y)) <= 0 && Below(y, s, key, cmp)
    ensures Below(x, s, key, cmp)
  {
    forall z | z in s
      ensures cmp(key(x), key(z)) <= 0
    {
      assert cmp(key(y), key(z)) <= 0;
    }
  }

  lemma BelowMerged<T>(x: T, p: seq<T>, q: seq<T>, key: T -> Entry, cmp: Compare)
    requires Below(x, p, key, cmp) && Below(x, q, key, cmp)
    ensures Below(x, Merge(p, q, key, cmp), key, cmp)
  {
    MergePermutes(p, q, key, cmp);
    var m := Merge(p, q, key, cmp);
    forall y | y in m
      ensures cmp(key(x), key(y)) <= 0
    {
      assert y in multiset(m);
      assert y in multiset(p) || y in multiset(q);
    }
  }

  lemma {:induction false} MergeSorted<T>(p: seq<T>, q: seq<T>, key: T -> Entry, cmp: Compare)
    requires TotalPreorder(cmp) && Sorted(p, key, cmp) && Sorted(q, key, cmp)
    ensures Sorted(Merge(p, q, key, cmp), key, cmp)
  {
    if p != [] && q != [] {
      HeadBelow(p, key, cmp);
      HeadBelow(q, key, cmp);
      HeadTail(p);
      HeadTail(q);
      if cmp(key(p[0]), key(q[0])) <= 0 {
        MergeSorted(p[1..], q, key, cmp);
        BelowThrough(p[0], q[0], q[1..], key, cmp);
        BelowMerged(p[0], p[1..], q, key, cmp);
        ConsSorted(p[0], Merge(p[1..], q, key, cmp), key, cmp);
      } else {
        MergeSorted(p, q[1..], key, cmp);
        assert cmp(key(q[0]), key(p[0])) <= 0;
        BelowThrough(q[0], p[0], p[1..], key, cmp);
        BelowMerged(q[0], p, q[1..], key, cmp);
        ConsSorted(q[0], Merge(p, q[1..], key, cmp), key, cmp);
      }
    }
  }

  /** No element of a sorted run equals x when its first one is greater. */
  lemma {:induction false} NoneEqual<T>(p: seq<T>, y: T, x: Entry, key: T -> Entry, cmp: Compare)
    requires TotalPreorder(cmp) && cmp(key(y), x) == 0 && cmp(x, key(y)) == 0
    requires forall i :: 0 <= i < |p| ==> cmp(key(p[i]), key(y)) > 0
    ensures Equals(p, x, key, cmp) == []
  {
    if p != [] {
      NoneEqual(p[1..], y, x, key, cmp);
      assert cmp(key(p[0]), key(y)) > 0;
    }
  }

  lemma AllGreater<T>(p: seq<T>, y: T, key: T -> Entry, cmp: Compare)
    requires TotalPreorder(cmp) && Sorted(p, key, cmp) && p != [] && cmp(key(p[0]), key(y)) > 0
    ensures forall i :: 0 <= i < |p| ==> cmp(key(p[i]), key(y)) > 0
  {
    forall i | 0 <= i < |p|
      ensures cmp(key(p[i]), key(y)) > 0
    {
      assert i > 0 ==> cmp(key(p[0]), key(p[i])) <= 0;
    }
  }

  lemma EqualIsSymmetric(cmp: Compare, a: Entry, b: Entry)
    requires TotalPreorder(cmp)
    ensures cmp(a, b) == 0 <==> cmp(b, a) == 0
  {
    assert cmp(a, b) <= 0 <==> cmp(b, a) >= 0;
    assert cmp(b, a) <= 0 <==> cmp(a, b) >= 0;
  }

  /** Merging is stable: equal elements of the first run stay in front of those of the second. */
  lemma {:induction false} MergeStable<T>(p: seq<T>, q: seq<T>, x: Entry, key: T -> Entry, cmp: Compare)
    requires TotalPreorder(cmp) && Sorted(p, key, cmp)
    ensures Equals(Merge(p, q, key, cmp), x, key, cmp) == Equals(p, x, key, cmp) + Equals(q, x, key, cmp)
  {
    if p == [] {
      AppendNothing(Equals(q, x, key, cmp));
    } else if q == [] {
      AppendNothing(Equals(p, x, key, cmp));
    } else if cmp(key(p[0]), key(q[0])) <= 0 {
      HeadBelow(p, key, cmp);
      MergeStable(p[1..], q, x, key, cmp);
      ConsTail(p[0], Merge(p[1..], q, key, cmp));
      AppendAssociates(if cmp(key(p[0]), x) == 0 then [p[0]] else [], Equals(p[1..], x, key, cmp),
                       Equals(q, x, key, cmp));
    } else {
      MergeStable(p, q[1..], x, key, cmp);
      ConsTail(q[0], Merge(p, q[1..], key, cmp));
      var rest := Equals(q[1..], x, key, cmp);
      if cmp(key(q[0]), x) == 0 {
        EqualIsSymmetric(cmp, key(q[0]), x);
        AllGreater(p, q[0], key, cmp);
        NoneEqual(p, q[0], x, key, cmp);
        AppendNothing(rest);
        AppendNothing([q[0]] + rest);
      } else {
        AppendNothing(rest);
        AppendNothing(Equals(p, x, key, cmp) + rest);
      }
    }
  }

  // ---------------------------------------------------------------- passes

  lemma CutPass<T>(s: seq<T>, k: nat)
    requires k > 0 && s != []
    ensures var a, b := Min(k, |s|), Min(2 * k, |s|);
      s == s[..a] + s[a..b] + s[b..] && s[a..][..b - a] == s[a..b] && s[a..][b - a..] == s[b..]
  {
  }

  lemma {:induction false} PassPermutes<T>(s: seq<T>, k: nat, key: T -> Entry, cmp: Compare)
    requires k > 0
    ensures multiset(Pass(s, k, key, cmp)) == multiset(s)
    decreases |s|
  {
    if s != [] {
      var a, b := Min(k, |s|), Min(2 * k, |s|);
      CutPass(s, k);
      MergePermutes(s[..a], s[a..b], key, cmp);
      PassPermutes(s[b..], k, key, cmp);
    }
  }

  lemma FirstRun<T>(s: seq<T>, k: nat, key: T -> Entry, cmp: Compare)
    requires k > 0 && s != [] && SortedRuns(s, k, key, cmp)
    ensures Sorted(s[..Min(k, |s|)], key, cmp) && SortedRuns(s[Min(k, |s|)..], k, key, cmp)
  {
  }

  lemma NoRuns<T>(k: nat, key: T -> Entry, cmp: Compare)
    requires k > 0
    ensures Sorted([], key, cmp) && SortedRuns([], k, key, cmp)
  {
  }

  /** The two runs at the front of a list of sorted runs. */
  lemma RunsSplit<T>(s: seq<T>, k: nat, key: T -> Entry, cmp: Compare)
    requires k > 0 && s != [] && SortedRuns(s, k, key, cmp)
    ensures var a, b := Min(k, |s|), Min(2 * k, |s|);
      Sorted(s[..a], key, cmp) && Sorted(s[a..b], key, cmp) && SortedRuns(s[b..], k, key, cmp)
  {
    var a, b := Min(k, |s|), Min(2 * k, |s|);
    FirstRun(s, k, key, cmp);
    CutPass(s, k);
    if a == |s| {
      NoRuns(k, key, cmp);
    } else {
      FirstRun(s[a..], k, key, cmp);
    }
  }

  /** A pass doubles the length of the sorted runs. */
  lemma {:induction false} PassSorts<T>(s: seq<T>, k: nat, key: T -> Entry, cmp: Compare)
    requires TotalPreorder(cmp) && k > 0 && SortedRuns(s, k, key, cmp)
    ensures SortedRuns(Pass(s, k, key, cmp), 2 * k, key, cmp)
    decreases |s|
  {
    if s != [] {
      var a, b := Min(k, |s|), Min(2 * k, |s|);
      RunsSplit(s, k, key, cmp);
      MergeSorted(s[..a], s[a..b], key, cmp);
      PassSorts(s[b..], k, key, cmp);
      var m, rest := Merge(s[..a], s[a..b], key, cmp), Pass(s[b..], k, key, cmp);
      assert (m + rest)[..b] == m && (m + rest)[b..] == rest;
    }
  }

  lemma {:induction false} PassStable<T>(s: seq<T>, k: nat, x: Entry, key: T -> Entry, cmp: Compare)
    requires TotalPreorder(cmp) && k > 0 && SortedRuns(s, k, key, cmp)
    ensures Equals(Pass(s, k, key, cmp), x, key, cmp) == Equals(s, x, key, cmp)
    decreases |s|
  {
    if s != [] {
      var a, b := Min(k, |s|), Min(2 * k, |s|);
      RunsSplit(s, k, key, cmp);
      CutPass(s, k);
      MergeStable(s[..a], s[a..b], x, key, cmp);
      PassStable(s[b..], k, x, key, cmp);
      EqualsSum(Merge(s[..a], s[a..b], key, cmp), Pass(s[b..], k, key, cmp), x, key, cmp);
      EqualsSum(s[..a], s[a..b], x, key, cmp);
      EqualsSum(s[..a] + s[a..b], s[b..], x, key, cmp);
    }
  }

  /** Sorting leaves the same elements. */
  lemma {:induction false} SortPermutes<T>(s: seq<T>, k: nat, key: T -> Entry, cmp: Compare)
    requires k > 0
    ensures multiset(SortFrom(s, k, key, cmp)) == multiset(s)
    decreases if |s| > k then |s| - k else 0
  {
    PassPermutes(s, k, key, cmp);
    if |s| > 2 * k {
      SortPermutes(Pass(s, k, key, cmp), 2 * k, key, cmp);
    }
  }

  /** From sorted runs of k elements the remaining passes lead to one sorted list, and they are stable. */
  lemma {:induction false} SortSorts<T>(s: seq<T>, k: nat, x: Entry, key: T -> Entry, cmp: Compare)
    requires TotalPreorder(cmp) && k > 0 && SortedRuns(s, k, key, cmp)
    ensures Sorted(SortFrom(s, k, key, cmp), key, cmp)
    ensures Equals(SortFrom(s, k, key, cmp), x, key, cmp) == Equals(s, x, key, cmp)
    decreases if |s| > k then |s| - k else 0
  {
    PassSorts(s, k, key, cmp);
    PassStable(s, k, x, key, cmp);
    var r := Pass(s, k, key, cmp);
    if |s| > 2 * k {
      SortSorts(r, 2 * k, x, key, cmp);
    } else {
      assert r[..|r|] == r;
    }
  }

  lemma {:induction false} SingleRuns<T>(s: seq<T>, key: T -> Entry, cmp: Compare)
    ensures SortedRuns(s, 1, key, cmp)
    decreases |s|
  {
    if s != [] {
      SingleRuns(s[1..], key, cmp);
    }
  }

  /** `HASH_SRT`: a stable sorted permutation, for every total preorder. */
  lemma SortIsStableSort<T>(s: seq<T>, key: T -> Entry, cmp: Compare)
    requires TotalPreorder(cmp)
    ensures var r := SortFrom(s, 1, key, cmp);
      multiset(r) == multiset(s) && Sorted(r, key, cmp)
      && forall x :: Equals(r, x, key, cmp) == Equals(s, x, key, cmp)
  {
    SortPermutes(s, 1, key, cmp);
    SingleRuns(s, key, cmp);
    forall x
      ensures Sorted(SortFrom(s, 1, key, cmp), key, cmp)
      ensures Equals(SortFrom(s, 1, key, cmp), x, key, cmp) == Equals(s, x, key, cmp)
    {
      SortSorts(s, 1, x, key, cmp);
    }
    if s != [] {
      SortSorts(s, 1, key(s[0]), key, cmp);
    } else {
      assert SortFrom(s, 1, key, cmp) == [];
    }
  }
}
