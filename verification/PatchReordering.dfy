/**
 What generating patches leaves of its arguments: the same values, with the members of objects in another order, in
 both modes.
 */
module PatchReordering {
  import opened JsonValues
  import opened Compare
  import opened Patches
  import opened Reordering

  /** Where case matters, keys compare equal if they are equal. */
  lemma {:induction false} UniqueComparable(j: Json)
    ensures Unique(j) <==> Comparable(j, true)
  {
    match j
    case Array(items) =>
      forall i | 0 <= i < |items|
        ensures Unique(items[i]) <==> Comparable(items[i], true)
      {
        UniqueComparable(items[i]);
      }
    case Object(ms) =>
      forall i | 0 <= i < |ms|
        ensures Unique(ms[i].value) <==> Comparable(ms[i].value, true)
      {
        UniqueComparable(ms[i].value);
      }
    case _ =>
  }

  /** Generating patches reorders members of its source and keeps its value; keys distinct in a mode stay so. */
  lemma {:induction false} SourceReorders(from: Json, to: Json, cs: bool, mode: bool)
    requires Comparable(from, mode)
    ensures Abs(LeftSource(from, to, cs)) == Abs(from) && Comparable(LeftSource(from, to, cs), mode)
    decreases Weight(from), 0, 0
  {
    if SameType(from, to) && from.Array? {
      SourceItemsReorder(from.items, to.items, cs, mode);
      ReorderedArray(from.items, LeftItems(from.items, to.items, cs), mode);
    } else if SameType(from, to) && from.Object? {
      var fs, ts := SortMembers(from.members, cs), SortMembers(to.members, cs);
      SortedMembersAre(from.members, cs, mode);
      SourceMembersReorder(fs, ts, cs, mode);
      ReorderedObject(from.members, fs, LeftMembers(fs, ts, cs), mode);
    }
  }

  lemma {:induction false} SourceItemsReorder(from: seq<Json>, to: seq<Json>, cs: bool, mode: bool)
    requires AlikeItems(from, from, mode)
    ensures AlikeItems(LeftItems(from, to, cs), from, mode)
    decreases ItemsWeight(from), 1, |from| + |to|
  {
    if from != [] && to != [] {
      SourceReorders(from[0], to[0], cs, mode);
      SourceItemsReorder(from[1..], to[1..], cs, mode);
      AlikeItemsFront(LeftSource(from[0], to[0], cs), LeftItems(from[1..], to[1..], cs), from, mode);
    }
  }

  lemma {:induction false} SourceMembersReorder(from: seq<Member>, to: seq<Member>, cs: bool, mode: bool)
    requires AlikeLists(from, from, mode)
    ensures AlikeLists(LeftMembers(from, to, cs), from, mode)
    decreases MembersWeight(from), 1, |from| + |to|
  {
    if from != [] {
      var f, diff := from[0], MergeOrder(from, to, cs);
      AlikeTails(from, from, mode);
      if diff < 0 {
        SourceMembersReorder(from[1..], to, cs, mode);
        AlikeFront(f, LeftMembers(from[1..], to, cs), from, mode);
      } else if diff > 0 {
        SourceMembersReorder(from, to[1..], cs, mode);
      } else {
        SourceReorders(f.value, to[0].value, cs, mode);
        SourceMembersReorder(from[1..], to[1..], cs, mode);
        AlikeFront(Member(f.key, LeftSource(f.value, to[0].value, cs)), LeftMembers(from[1..], to[1..], cs), from,
                   mode);
      }
    }
  }

  /** And members of its target. */
  lemma {:induction false} TargetReorders(from: Json, to: Json, cs: bool, mode: bool)
    requires Comparable(to, mode)
    ensures Abs(LeftTarget(from, to, cs)) == Abs(to) && Comparable(LeftTarget(from, to, cs), mode)
    decreases Weight(from), 0, 0
  {
    if SameType(from, to) && from.Array? {
      TargetItemsReorder(from.items, to.items, cs, mode);
      ReorderedArray(to.items, LeftTargetItems(from.items, to.items, cs), mode);
    } else if SameType(from, to) && from.Object? {
      var fs, ts := SortMembers(from.members, cs), SortMembers(to.members, cs);
      SortedMembersAre(to.members, cs, mode);
      TargetMembersReorder(fs, ts, cs, mode);
      ReorderedObject(to.members, ts, LeftTargetMembers(fs, ts, cs), mode);
    }
  }

  lemma {:induction false} TargetItemsReorder(from: seq<Json>, to: seq<Json>, cs: bool, mode: bool)
    requires AlikeItems(to, to, mode)
    ensures AlikeItems(LeftTargetItems(from, to, cs), to, mode)
    decreases ItemsWeight(from), 1, |from| + |to|
  {
    if from != [] && to != [] {
      TargetReorders(from[0], to[0], cs, mode);
      TargetItemsReorder(from[1..], to[1..], cs, mode);
      AlikeItemsFront(LeftTarget(from[0], to[0], cs), LeftTargetItems(from[1..], to[1..], cs), to, mode);
    }
  }

  lemma {:induction false} TargetMembersReorder(from: seq<Member>, to: seq<Member>, cs: bool, mode: bool)
    requires AlikeLists(to, to, mode)
    ensures AlikeLists(LeftTargetMembers(from, to, cs), to, mode)
    decreases MembersWeight(from), 1, |from| + |to|
  {
    if to != [] {
      var t, diff := to[0], MergeOrder(from, to, cs);
      AlikeTails(to, to, mode);
      if diff < 0 {
        TargetMembersReorder(from[1..], to, cs, mode);
      } else if diff > 0 {
        TargetMembersReorder(from, to[1..], cs, mode);
        AlikeFront(t, LeftTargetMembers(from, to[1..], cs), to, mode);
      } else {
        TargetReorders(from[0].value, t.value, cs, mode);
        TargetMembersReorder(from[1..], to[1..], cs, mode);
        AlikeFront(Member(t.key, LeftTarget(from[0].value, t.value, cs)), LeftTargetMembers(from[1..], to[1..], cs),
                   to, mode);
      }
    }
  }
}
