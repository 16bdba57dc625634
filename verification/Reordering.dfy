/**
 What `compare_json` and the sorting that other functions do on the way leave behind: the same values, with the
 members of objects in another order.
 */
module Reordering {
  import opened Seqs
  import opened CStrings
  import opened Sorting
  import opened JsonValues
  import opened Compare

  // ---------------------------------------------------------------- lists that differ in order below only

  /** Pairwise the same keys and values, with keys distinct in the given mode below. */
  ghost predicate AlikeLists(xs: seq<Member>, ys: seq<Member>, mode: bool) {
    |xs| == |ys| && forall i :: 0 <= i < |xs| ==>
      xs[i].key == ys[i].key && Abs(xs[i].value) == Abs(ys[i].value) &&
      Comparable(xs[i].value, mode) && Comparable(ys[i].value, mode)
  }

  lemma AlikeCons(xs: seq<Member>, ys: seq<Member>, mode: bool)
    requires xs != [] && ys != [] && xs[0].key == ys[0].key && Abs(xs[0].value) == Abs(ys[0].value)
    requires Comparable(xs[0].value, mode) && Comparable(ys[0].value, mode) && AlikeLists(xs[1..], ys[1..], mode)
    ensures AlikeLists(xs, ys, mode)
  {
    assert forall i :: 0 < i < |xs| ==> xs[1..][i - 1] == xs[i];
    assert forall i :: 0 < i < |ys| ==> ys[1..][i - 1] == ys[i];
  }

  lemma AlikeTails(xs: seq<Member>, ys: seq<Member>, mode: bool)
    requires AlikeLists(xs, ys, mode)
    ensures xs != [] ==> AlikeLists(xs[1..], ys[1..], mode)
  {
  }

  lemma AlikeFront(x: Member, rest: seq<Member>, xs: seq<Member>, mode: bool)
    requires xs != [] && AlikeLists(rest, xs[1..], mode) && x.key == xs[0].key && Abs(x.value) == Abs(xs[0].value)
    requires Comparable(x.value, mode) && Comparable(xs[0].value, mode)
    ensures AlikeLists([x] + rest, xs, mode)
  {
    ConsTail(x, rest);
    AlikeCons([x] + rest, xs, mode);
  }

  lemma {:induction false} AlikeFields(xs: seq<Member>, ys: seq<Member>, mode: bool)
    requires AlikeLists(xs, ys, mode)
    ensures Fields(xs) == Fields(ys)
  {
    if xs != [] {
      AlikeTails(xs, ys, mode);
      AlikeFields(xs[1..], ys[1..], mode);
      HeadTail(xs);
      HeadTail(ys);
      FieldsCons(xs[0], xs[1..]);
      FieldsCons(ys[0], ys[1..]);
    }
  }

  lemma ReorderedObject(ms: seq<Member>, xs: seq<Member>, rs: seq<Member>, mode: bool)
    requires Fields(xs) == Fields(ms) && DistinctUnder(xs, mode) && AlikeLists(rs, xs, mode)
    ensures Abs(Object(rs)) == Abs(Object(ms)) && Comparable(Object(rs), mode)
  {
    AbsObject(ms);
    AbsObject(rs);
    AlikeFields(rs, xs, mode);
  }

  /** The same for the items of two arrays. */
  ghost predicate AlikeItems(xs: seq<Json>, ys: seq<Json>, mode: bool) {
    |xs| == |ys| && forall i :: 0 <= i < |xs| ==>
      Abs(xs[i]) == Abs(ys[i]) && Comparable(xs[i], mode) && Comparable(ys[i], mode)
  }

  lemma AlikeItemsFront(x: Json, rest: seq<Json>, xs: seq<Json>, mode: bool)
    requires xs != [] && AlikeItems(rest, xs[1..], mode) && Abs(x) == Abs(xs[0])
    requires Comparable(x, mode) && Comparable(xs[0], mode)
    ensures AlikeItems([x] + rest, xs, mode)
  {
    var rs := [x] + rest;
    forall i | 0 < i < |xs|
      ensures Abs(rs[i]) == Abs(xs[i]) && Comparable(rs[i], mode) && Comparable(xs[i], mode)
    {
      assert rs[i] == rest[i - 1] && xs[1..][i - 1] == xs[i];
    }
  }

  lemma ReorderedArray(xs: seq<Json>, rs: seq<Json>, mode: bool)
    requires AlikeItems(rs, xs, mode)
    ensures Abs(Array(rs)) == Abs(Array(xs)) && Comparable(Array(rs), mode)
  {
    AbsArray(xs);
    AbsArray(rs);
    assert Values(rs) == Values(xs);
  }

  lemma DistinctUnique(ms: seq<Member>, mode: bool)
    requires DistinctUnder(ms, mode)
    ensures UniqueKeys(ms)
  {
  }

  /** Sorting, in whichever mode, keeps the fields and what is distinct. */
  lemma SortedMembersAre(ms: seq<Member>, cs: bool, mode: bool)
    requires Comparable(Object(ms), mode)
    ensures Fields(SortMembers(ms, cs)) == Fields(ms) && DistinctUnder(SortMembers(ms, cs), mode)
    ensures forall i :: 0 <= i < |SortMembers(ms, cs)| ==> Comparable(SortMembers(ms, cs)[i].value, mode)
  {
    var r := SortMembers(ms, cs);
    DistinctUnique(ms, mode);
    SortPermutes(ms, KeyOf, cs);
    SameMembers(r, ms);
    forall i | 0 <= i < |r|
      ensures Comparable(r[i].value, mode)
    {
      assert r[i] in ms;
    }
    PermutedFields(ms, r);
    PermutedUnique(ms, r);
    PermutedDistinct(ms, r, mode);
  }

  lemma PermutedDistinct(a: seq<Member>, b: seq<Member>, mode: bool)
    requires DistinctUnder(a, mode) && UniqueKeys(b) && multiset(a) == multiset(b)
    ensures DistinctUnder(b, mode)
  {
    SameMembers(b, a);
    forall i, j | 0 <= i < j < |b|
      ensures Fold(b[i].key, mode) != Fold(b[j].key, mode)
    {
      assert b[i] in a && b[j] in a;
      var x :| 0 <= x < |a| && a[x] == b[i];
      var y :| 0 <= y < |a| && a[y] == b[j];
      assert x != y;
    }
  }

  // ---------------------------------------------------------------- comparing reorders

  /** A comparison only reorders members: values stay, and keys stay distinct. */
  lemma {:induction false} CompareReorders(a: Json, b: Json, cs: bool, mode: bool)
    requires Comparable(a, mode) && Comparable(b, mode)
    ensures var r := CompareJson(a, b, cs);
      Abs(r.a) == Abs(a) && Abs(r.b) == Abs(b) && Comparable(r.a, mode) && Comparable(r.b, mode)
    decreases Weight(a), 0, 0
  {
    if SameType(a, b) && a.Array? {
      CompareItemsReorders(a.items, b.items, cs, mode);
      var r := CompareItems(a.items, b.items, cs);
      ReorderedArray(a.items, r.xs, mode);
      ReorderedArray(b.items, r.ys, mode);
    } else if SameType(a, b) && a.Object? {
      var xs, ys := SortMembers(a.members, cs), SortMembers(b.members, cs);
      SortedMembersAre(a.members, cs, mode);
      SortedMembersAre(b.members, cs, mode);
      CompareMembersReorders(xs, ys, cs, mode);
      var r := CompareMembers(xs, ys, cs);
      ReorderedObject(a.members, xs, r.xs, mode);
      ReorderedObject(b.members, ys, r.ys, mode);
    }
  }

  lemma {:induction false} CompareItemsReorders(xs: seq<Json>, ys: seq<Json>, cs: bool, mode: bool)
    requires AlikeItems(xs, xs, mode) && AlikeItems(ys, ys, mode)
    ensures var r := CompareItems(xs, ys, cs); AlikeItems(r.xs, xs, mode) && AlikeItems(r.ys, ys, mode)
    decreases ItemsWeight(xs), 1, |xs|
  {
    if xs != [] && ys != [] {
      CompareReorders(xs[0], ys[0], cs, mode);
      var h := CompareJson(xs[0], ys[0], cs);
      var xt, yt := xs[1..], ys[1..];
      if h.same {
        CompareItemsReorders(xt, yt, cs, mode);
        var t := CompareItems(xt, yt, cs);
        xt, yt := t.xs, t.ys;
      }
      AlikeItemsFront(h.a, xt, xs, mode);
      AlikeItemsFront(h.b, yt, ys, mode);
    }
  }

  lemma {:induction false} CompareMembersReorders(xs: seq<Member>, ys: seq<Member>, cs: bool, mode: bool)
    requires AlikeLists(xs, xs, mode) && AlikeLists(ys, ys, mode)
    ensures var r := CompareMembers(xs, ys, cs); AlikeLists(r.xs, xs, mode) && AlikeLists(r.ys, ys, mode)
    decreases MembersWeight(xs), 1, |xs|
  {
    if xs != [] && ys != [] && CompareStrings(xs[0].key, ys[0].key, cs) == 0 {
      CompareReorders(xs[0].value, ys[0].value, cs, mode);
      var h := CompareJson(xs[0].value, ys[0].value, cs);
      var xt, yt := xs[1..], ys[1..];
      if h.same {
        CompareMembersReorders(xt, yt, cs, mode);
        var t := CompareMembers(xt, yt, cs);
        xt, yt := t.xs, t.ys;
      }
      var x, y := Member(xs[0].key, h.a), Member(ys[0].key, h.b);
      ConsTail(x, xt);
      ConsTail(y, yt);
      AlikeCons([x] + xt, xs, mode);
      AlikeCons([y] + yt, ys, mode);
    }
  }
}
