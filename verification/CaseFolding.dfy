/**
 Comparing and merging while ignoring case, for trees with any keys: both act on trees as they act on the
 trees with every key folded.
 */
module CaseFolding {
  import opened CStrings
  import opened Sorting
  import opened JsonValues
  import opened Compare
  import opened MemberLists
  import opened MergePatches

  /** The tree with every key written the way a comparison in this mode sees it. */
  function Folded(j: Json, cs: bool): Json {
    match j
    case Array(items) => Array(seq(|items|, i requires 0 <= i < |items| => Folded(items[i], cs)))
    case Object(ms) =>
      Object(seq(|ms|, i requires 0 <= i < |ms| => Member(Fold(ms[i].key, cs), Folded(ms[i].value, cs))))
    case _ => j
  }

  function FoldedMember(m: Member, cs: bool): Member {
    Member(Fold(m.key, cs), Folded(m.value, cs))
  }

  function FoldedItems(xs: seq<Json>, cs: bool): (r: seq<Json>)
    ensures |r| == |xs| && forall i :: 0 <= i < |xs| ==> r[i] == Folded(xs[i], cs)
  {
    seq(|xs|, i requires 0 <= i < |xs| => Folded(xs[i], cs))
  }

  function FoldedMembers(ms: seq<Member>, cs: bool): (r: seq<Member>)
    ensures |r| == |ms| && forall i :: 0 <= i < |ms| ==> r[i] == FoldedMember(ms[i], cs)
  {
    seq(|ms|, i requires 0 <= i < |ms| => FoldedMember(ms[i], cs))
  }

  lemma FoldedArray(xs: seq<Json>, cs: bool)
    ensures Folded(Array(xs), cs) == Array(FoldedItems(xs, cs))
  {
  }

  lemma FoldedObject(ms: seq<Member>, cs: bool)
    ensures Folded(Object(ms), cs) == Object(FoldedMembers(ms, cs))
  {
  }

  lemma FoldTwice(k: string, cs: bool)
    ensures Fold(Fold(k, cs), cs) == Fold(k, cs)
  {
    assert Lower(Lower(k)) == Lower(k);
  }

  lemma FoldedCons(m: Member, ms: seq<Member>, cs: bool)
    ensures FoldedMembers([m] + ms, cs) == [FoldedMember(m, cs)] + FoldedMembers(ms, cs)
  {
  }

  lemma FoldedItemsCons(x: Json, xs: seq<Json>, cs: bool)
    ensures FoldedItems([x] + xs, cs) == [Folded(x, cs)] + FoldedItems(xs, cs)
  {
  }

  lemma FoldedSlice(ms: seq<Member>, h: nat, cs: bool)
    requires h <= |ms|
    ensures FoldedMembers(ms[..h], cs) == FoldedMembers(ms, cs)[..h]
    ensures FoldedMembers(ms[h..], cs) == FoldedMembers(ms, cs)[h..]
  {
  }

  lemma FoldedSum(a: seq<Member>, b: seq<Member>, cs: bool)
    ensures FoldedMembers(a + b, cs) == FoldedMembers(a, cs) + FoldedMembers(b, cs)
  {
  }

  /** When case matters nothing is folded. */
  lemma {:induction false} FoldedNothing(j: Json)
    ensures Folded(j, true) == j
    decreases j
  {
    match j
    case Array(items) =>
      forall i | 0 <= i < |items|
        ensures Folded(items[i], true) == items[i]
      {
        FoldedNothing(items[i]);
      }
      FoldedArray(items, true);
      assert FoldedItems(items, true) == items;
    case Object(ms) =>
      forall i | 0 <= i < |ms|
        ensures FoldedMember(ms[i], true) == ms[i]
      {
        FoldedNothing(ms[i].value);
      }
      FoldedObject(ms, true);
      assert FoldedMembers(ms, true) == ms;
    case _ =>
  }

  // ---------------------------------------------------------------- sorting

  lemma FoldedOrder(a: Member, b: Member, cs: bool)
    ensures CompareStrings(FoldedMember(a, cs).key, FoldedMember(b, cs).key, cs) == CompareStrings(a.key, b.key, cs)
  {
    FoldTwice(a.key, cs);
    FoldTwice(b.key, cs);
  }

  lemma {:induction false} FoldedMerge(a: seq<Member>, b: seq<Member>, cs: bool)
    ensures Merge(FoldedMembers(a, cs), FoldedMembers(b, cs), KeyOf, cs) == FoldedMembers(Merge(a, b, KeyOf, cs), cs)
    decreases |a| + |b|
  {
    if a != [] && b != [] {
      FoldedOrder(a[0], b[0], cs);
      FoldedSlice(a, 1, cs);
      FoldedSlice(b, 1, cs);
      if CompareStrings(a[0].key, b[0].key, cs) < 0 {
        FoldedMerge(a[1..], b, cs);
        FoldedCons(a[0], Merge(a[1..], b, KeyOf, cs), cs);
      } else {
        FoldedMerge(a, b[1..], cs);
        FoldedCons(b[0], Merge(a, b[1..], KeyOf, cs), cs);
      }
    }
  }

  lemma FoldedStrictly(ms: seq<Member>, cs: bool)
    ensures StrictlySorted(FoldedMembers(ms, cs), KeyOf, cs) <==> StrictlySorted(ms, KeyOf, cs)
  {
    var fs := FoldedMembers(ms, cs);
    forall i | 0 <= i < |ms| - 1
      ensures CompareStrings(KeyOf(fs[i]), KeyOf(fs[i + 1]), cs) == CompareStrings(KeyOf(ms[i]), KeyOf(ms[i + 1]), cs)
    {
      FoldedOrder(ms[i], ms[i + 1], cs);
    }
  }

  lemma {:induction false} FoldedSort(ms: seq<Member>, cs: bool)
    ensures Sort(FoldedMembers(ms, cs), KeyOf, cs) == FoldedMembers(Sort(ms, KeyOf, cs), cs)
    decreases |ms|
  {
    FoldedStrictly(ms, cs);
    if |ms| > 1 && !StrictlySorted(ms, KeyOf, cs) {
      var h := (|ms| + 1) / 2;
      FoldedSlice(ms, h, cs);
      FoldedSort(ms[..h], cs);
      FoldedSort(ms[h..], cs);
      FoldedMerge(Sort(ms[..h], KeyOf, cs), Sort(ms[h..], KeyOf, cs), cs);
    }
  }

  // ---------------------------------------------------------------- comparing

  function FoldedCompared(r: Compared, cs: bool): Compared {
    Compared(r.same, Folded(r.a, cs), Folded(r.b, cs))
  }

  /** Comparing folded trees gives the same answer, and the folded trees as the comparison leaves them. */
  lemma {:induction false} CompareFolded(a: Json, b: Json, cs: bool)
    ensures CompareJson(Folded(a, cs), Folded(b, cs), cs) == FoldedCompared(CompareJson(a, b, cs), cs)
    decreases Weight(a), 0, 0
  {
    if SameType(a, b) && a.Array? {
      var r := CompareItems(a.items, b.items, cs);
      CompareItemsFolded(a.items, b.items, cs);
      FoldedArray(a.items, cs);
      FoldedArray(b.items, cs);
      FoldedArray(r.xs, cs);
      FoldedArray(r.ys, cs);
    } else if SameType(a, b) && a.Object? {
      var xs, ys := SortMembers(a.members, cs), SortMembers(b.members, cs);
      var r := CompareMembers(xs, ys, cs);
      CompareMembersFolded(xs, ys, cs);
      FoldedSort(a.members, cs);
      FoldedSort(b.members, cs);
      FoldedObject(a.members, cs);
      FoldedObject(b.members, cs);
      FoldedObject(r.xs, cs);
      FoldedObject(r.ys, cs);
    }
  }

  lemma {:induction false} CompareItemsFolded(xs: seq<Json>, ys: seq<Json>, cs: bool)
    ensures var r := CompareItems(xs, ys, cs);
      CompareItems(FoldedItems(xs, cs), FoldedItems(ys, cs), cs) ==
      ComparedItems(r.same, FoldedItems(r.xs, cs), FoldedItems(r.ys, cs))
    decreases ItemsWeight(xs), 1, |xs|
  {
    if xs != [] && ys != [] {
      var h := CompareJson(xs[0], ys[0], cs);
      CompareFolded(xs[0], ys[0], cs);
      assert FoldedItems(xs, cs)[1..] == FoldedItems(xs[1..], cs);
      assert FoldedItems(ys, cs)[1..] == FoldedItems(ys[1..], cs);
      if h.same {
        CompareItemsFolded(xs[1..], ys[1..], cs);
        var t := CompareItems(xs[1..], ys[1..], cs);
        FoldedItemsCons(h.a, t.xs, cs);
        FoldedItemsCons(h.b, t.ys, cs);
      } else {
        FoldedItemsCons(h.a, xs[1..], cs);
        FoldedItemsCons(h.b, ys[1..], cs);
      }
    }
  }

  lemma {:induction false} CompareMembersFolded(xs: seq<Member>, ys: seq<Member>, cs: bool)
    ensures var r := CompareMembers(xs, ys, cs);
      CompareMembers(FoldedMembers(xs, cs), FoldedMembers(ys, cs), cs) ==
      ComparedMembers(r.same, FoldedMembers(r.xs, cs), FoldedMembers(r.ys, cs))
    decreases MembersWeight(xs), 1, |xs|
  {
    if xs != [] && ys != [] {
      FoldedOrder(xs[0], ys[0], cs);
      FoldedSlice(xs, 1, cs);
      FoldedSlice(ys, 1, cs);
      if CompareStrings(xs[0].key, ys[0].key, cs) == 0 {
        var h := CompareJson(xs[0].value, ys[0].value, cs);
        CompareFolded(xs[0].value, ys[0].value, cs);
        var x, y := Member(xs[0].key, h.a), Member(ys[0].key, h.b);
        if h.same {
          CompareMembersFolded(xs[1..], ys[1..], cs);
          var t := CompareMembers(xs[1..], ys[1..], cs);
          FoldedCons(x, t.xs, cs);
          FoldedCons(y, t.ys, cs);
        } else {
          FoldedCons(x, xs[1..], cs);
          FoldedCons(y, ys[1..], cs);
        }
      }
    }
  }

  lemma {:induction false} FoldedIsGood(j: Json, cs: bool)
    requires Comparable(j, cs)
    ensures Good(Folded(j, cs), cs)
    decreases j
  {
    match j
    case Array(items) =>
      forall i | 0 <= i < |items|
        ensures Good(Folded(items[i], cs), cs)
      {
        FoldedIsGood(items[i], cs);
      }
      FoldedArray(items, cs);
    case Object(ms) =>
      forall i | 0 <= i < |ms|
        ensures Good(FoldedMember(ms[i], cs).value, cs) && Fold(Fold(ms[i].key, cs), cs) == Fold(ms[i].key, cs)
      {
        FoldedIsGood(ms[i].value, cs);
        FoldTwice(ms[i].key, cs);
      }
      FoldedObject(ms, cs);
    case _ =>
  }

  /** The value of a tree with its keys folded. */
  function FoldedAbs(j: Json, cs: bool): Val {
    Abs(Folded(j, cs))
  }

  /** Comparing decides whether two trees have the same value once keys are folded, for trees with any keys. */
  lemma CompareDecidesFolded(a: Json, b: Json, cs: bool)
    requires Comparable(a, cs) && Comparable(b, cs)
    ensures CompareJson(a, b, cs).same <==> FoldedAbs(a, cs) == FoldedAbs(b, cs)
  {
    FoldedIsGood(a, cs);
    FoldedIsGood(b, cs);
    CompareFolded(a, b, cs);
    CompareDecidesValue(Folded(a, cs), Folded(b, cs), cs);
  }

  // ---------------------------------------------------------------- merging

  function FoldedOption(j: Option<Json>, cs: bool): Option<Json> {
    if j == None then None else Some(Folded(j.value, cs))
  }

  lemma {:induction false} FoldedIndex(ms: seq<Member>, k: string, cs: bool)
    ensures KeyIndex(FoldedMembers(ms, cs), Fold(k, cs), cs) == KeyIndex(ms, k, cs)
  {
    if ms != [] {
      FoldTwice(k, cs);
      FoldTwice(ms[0].key, cs);
      FoldedSlice(ms, 1, cs);
      FoldedIndex(ms[1..], k, cs);
    }
  }

  lemma FoldedWithout(ms: seq<Member>, k: string, cs: bool)
    ensures FoldedMembers(Without(ms, k, cs), cs) == Without(FoldedMembers(ms, cs), Fold(k, cs), cs)
    ensures FoldedOption(ValueOf(ms, k, cs), cs) == ValueOf(FoldedMembers(ms, cs), Fold(k, cs), cs)
  {
    FoldedIndex(ms, k, cs);
    var i := KeyIndex(ms, k, cs);
    if i != -1 {
      FoldedSlice(ms, i, cs);
      FoldedSlice(ms, i + 1, cs);
      FoldedSum(ms[..i], ms[i + 1..], cs);
    }
  }

  /** Merging folded trees leaves what merging the trees leaves, folded. */
  lemma {:induction false} MergeFolded(target: Option<Json>, patch: Json, cs: bool)
    ensures Folded(MergePatch(target, patch, cs), cs) == MergePatch(FoldedOption(target, cs), Folded(patch, cs), cs)
    decreases patch
  {
    if patch.Object? {
      var ms := TargetMembers(target);
      MergeMembersFolded(ms, patch.members, cs);
      FoldedObject(patch.members, cs);
      FoldedObject(ms, cs);
      FoldedObject(MergeMembers(ms, patch.members, cs), cs);
      assert TargetMembers(FoldedOption(target, cs)) == FoldedMembers(ms, cs);
    }
  }

  lemma {:induction false} MergeMembersFolded(ms: seq<Member>, patch: seq<Member>, cs: bool)
    ensures FoldedMembers(MergeMembers(ms, patch, cs), cs) ==
      MergeMembers(FoldedMembers(ms, cs), FoldedMembers(patch, cs), cs)
    decreases patch
  {
    if patch != [] {
      MergeMemberFolded(ms, patch[0], cs);
      FoldedSlice(patch, 1, cs);
      MergeMembersFolded(MergeMember(ms, patch[0], cs), patch[1..], cs);
    }
  }

  lemma MergeMemberFolded(ms: seq<Member>, p: Member, cs: bool)
    ensures FoldedMembers(MergeMember(ms, p, cs), cs) == MergeMember(FoldedMembers(ms, cs), FoldedMember(p, cs), cs)
    decreases p
  {
    FoldedWithout(ms, p.key, cs);
    if !p.value.Null? {
      var target := ValueOf(ms, p.key, cs);
      MergeFolded(target, p.value, cs);
      FoldedSum(Without(ms, p.key, cs), [Member(p.key, MergePatch(target, p.value, cs))], cs);
      FoldedOne(Member(p.key, MergePatch(target, p.value, cs)), cs);
    }
  }

  /** Folding a list of one member folds that member. */
  lemma FoldedOne(m: Member, cs: bool)
    ensures FoldedMembers([m], cs) == [FoldedMember(m, cs)]
  {
  }

  /**
   With keys folded, merging computes the MergePatch function of section 2 of RFC 7396, for trees with any
   keys that are distinct in the case mode in use.
   */
  lemma MergeComputesRfcFolded(target: Option<Json>, patch: Json, cs: bool)
    requires (target.Some? ==> Comparable(target.value, cs)) && Comparable(patch, cs)
    ensures FoldedAbs(MergePatch(target, patch, cs), cs) ==
      Rfc(if target == None then None else Some(FoldedAbs(target.value, cs)), FoldedAbs(patch, cs))
  {
    if target.Some? {
      FoldedIsGood(target.value, cs);
    }
    FoldedIsGood(patch, cs);
    MergeFolded(target, patch, cs);
    MergeComputesRfc(FoldedOption(target, cs), Folded(patch, cs), cs);
  }

  /** Merging the same patch twice leaves, with keys folded, what merging it once leaves. */
  lemma MergeTwiceFolded(target: Option<Json>, patch: Json, cs: bool)
    requires (target.Some? ==> Comparable(target.value, cs)) && Comparable(patch, cs)
    ensures var once := MergePatch(target, patch, cs);
      FoldedAbs(MergePatch(Some(once), patch, cs), cs) == FoldedAbs(once, cs)
  {
    var once := MergePatch(target, patch, cs);
    if target.Some? {
      FoldedIsGood(target.value, cs);
    }
    FoldedIsGood(patch, cs);
    MergeFolded(target, patch, cs);
    MergeFolded(Some(once), patch, cs);
    MergeTwice(FoldedOption(target, cs), Folded(patch, cs), cs);
  }
}
