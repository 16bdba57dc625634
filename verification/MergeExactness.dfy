/**
 When merge-diff then merge reaches the target, for trees with any keys that are distinct in the case mode of
 the merge. The generator walks by `strcmp` two lists that may be sorted ignoring case, so it can pass the two
 members of a common key at different times: the patch then removes the key and sets it anew, or sets it and
 removes it again.
 */
module MergeExactness {
  import opened CStrings
  import opened Seqs
  import opened Sorting
  import opened JsonValues
  import opened Compare
  import opened MemberLists
  import opened Reordering
  import opened MergePatches
  import opened CaseFolding

  // ---------------------------------------------------------------- the condition

  /**
   Generating in mode cs and merging in mode `mode` reaches the target. What is set as a whole, and not
   merged with a member of the source, may hold no null members.
   */
  ghost predicate Settles(from: Json, to: Json, cs: bool, mode: bool)
    decreases Weight(from), 0, 0
  {
    if !to.Object? || !from.Object? then NoNullMembers(Abs(to))
    else WalkSettles(SortMembers(from.members, cs), SortMembers(to.members, cs), cs, mode)
  }

  /**
   The walk by `strcmp` over what is left of the two lists: where it passes a member of the target alone, no
   member of the source that is still to be passed, and so to be removed, may have that key.
   */
  ghost predicate WalkSettles(fs: seq<Member>, ts: seq<Member>, cs: bool, mode: bool)
    decreases MembersWeight(fs), 1, |fs| + |ts|
  {
    if fs == [] && ts == [] then true
    else
      var diff := StrictOrder(fs, ts);
      if diff < 0 then WalkSettles(fs[1..], ts, cs, mode)
      else if diff > 0 then
        KeyIndex(fs, ts[0].key, mode) == -1 && SetWhole(ts[0].value) && WalkSettles(fs, ts[1..], cs, mode)
      else
        MemberSettles(fs[0].value, ts[0].value, cs, mode) && WalkSettles(fs[1..], ts[1..], cs, mode)
  }

  ghost predicate SetWhole(t: Json) {
    t != Null && NoNullMembers(Abs(t))
  }

  /**
   A common member: equal where the comparison sees no difference, else settled below in the order in which the
   comparison leaves both, and nested patches always ignore case.
   */
  ghost predicate MemberSettles(f: Json, t: Json, cs: bool, mode: bool)
    decreases Weight(f), 1, 0
  {
    CompareKeepsWeight(f, t, cs);
    var r := CompareJson(f, t, cs);
    if r.same then Abs(f) == Abs(t) else t != Null && Settles(r.a, r.b, false, mode)
  }

  // ---------------------------------------------------------------- members by folded key

  /** The members filed under their folded keys, each with the key as it is spelled. */
  function Filed(ms: seq<Member>, mode: bool): (r: seq<Member>)
    ensures |r| == |ms|
    ensures forall i :: 0 <= i < |ms| ==> r[i] == File(ms[i], mode)
  {
    seq(|ms|, i requires 0 <= i < |ms| => File(ms[i], mode))
  }

  function File(m: Member, mode: bool): Member {
    Member(Fold(m.key, mode), Array([String(m.key), m.value]))
  }

  function Entry(m: Member): Val {
    VArray([VString(m.key), Abs(m.value)])
  }

  lemma EntryIs(m: Member, mode: bool)
    ensures Abs(File(m, mode).value) == Entry(m)
  {
    AbsArray([String(m.key), m.value]);
  }

  lemma EntryDecides(m: Member, n: Member)
    ensures Entry(m) == Entry(n) <==> m.key == n.key && Abs(m.value) == Abs(n.value)
  {
    var a, b := [VString(m.key), Abs(m.value)], [VString(n.key), Abs(n.value)];
    if a == b {
      assert a[0] == b[0] && a[1] == b[1];
    }
  }

  function Index(ms: seq<Member>, mode: bool): map<string, Val> {
    Fields(Filed(ms, mode))
  }

  function Classes(ms: seq<Member>, mode: bool): set<string> {
    Keys(Filed(ms, mode))
  }

  lemma FiledUnique(ms: seq<Member>, mode: bool)
    ensures UniqueKeys(Filed(ms, mode)) <==> DistinctUnder(ms, mode)
  {
    var r := Filed(ms, mode);
    assert forall i :: 0 <= i < |ms| ==> r[i].key == Fold(ms[i].key, mode);
  }

  lemma FiledAt(ms: seq<Member>, i: nat, mode: bool)
    requires DistinctUnder(ms, mode) && i < |ms|
    ensures Fold(ms[i].key, mode) in Index(ms, mode) && Index(ms, mode)[Fold(ms[i].key, mode)] == Entry(ms[i])
  {
    FiledUnique(ms, mode);
    FieldOf(Filed(ms, mode), i);
    EntryIs(ms[i], mode);
  }

  lemma FiledHead(ms: seq<Member>, mode: bool)
    requires DistinctUnder(ms, mode) && ms != []
    ensures DistinctUnder(ms[1..], mode)
    ensures var c := Fold(ms[0].key, mode);
      c !in Classes(ms[1..], mode) && Classes(ms, mode) == {c} + Classes(ms[1..], mode)
      && Index(ms, mode) == Index(ms[1..], mode)[c := Entry(ms[0])]
  {
    var r := Filed(ms, mode);
    FiledUnique(ms, mode);
    HeadTail(r);
    assert r[1..] == Filed(ms[1..], mode);
    FirstKeyOnce(r);
    KeysCons(r[0], r[1..]);
    FieldsCons(r[0], r[1..]);
    EntryIs(ms[0], mode);
    FiledUnique(ms[1..], mode);
  }

  lemma FoundClass(ms: seq<Member>, k: string, mode: bool)
    ensures KeyIndex(ms, k, mode) == -1 <==> Fold(k, mode) !in Classes(ms, mode)
  {
    var i, r := KeyIndex(ms, k, mode), Filed(ms, mode);
    if i != -1 {
      assert r[i].key == Fold(k, mode);
    }
  }

  lemma FiledWithout(ms: seq<Member>, k: string, mode: bool)
    requires DistinctUnder(ms, mode)
    ensures DistinctUnder(Without(ms, k, mode), mode)
    ensures Index(Without(ms, k, mode), mode) == Index(ms, mode) - {Fold(k, mode)}
  {
    var i, r := KeyIndex(ms, k, mode), Filed(ms, mode);
    FiledUnique(ms, mode);
    FoundClass(ms, k, mode);
    if i == -1 {
      NothingDropped(Fields(r), Fold(k, mode));
    } else {
      FiledRemoved(ms, i, mode);
      RemovedFields(r, i);
      FiledUnique(RemoveIndex(ms, i), mode);
    }
  }

  lemma FiledRemoved(ms: seq<Member>, i: nat, mode: bool)
    requires i < |ms|
    ensures Filed(RemoveIndex(ms, i), mode) == RemoveIndex(Filed(ms, mode), i)
  {
  }

  lemma FiledAppended(ms: seq<Member>, m: Member, mode: bool)
    requires DistinctUnder(ms, mode) && Fold(m.key, mode) !in Classes(ms, mode)
    ensures DistinctUnder(ms + [m], mode)
    ensures Index(ms + [m], mode) == Index(ms, mode)[Fold(m.key, mode) := Entry(m)]
  {
    var r, f := Filed(ms, mode), File(m, mode);
    FiledUnique(ms, mode);
    AppendedFields(r, f.key, f.value);
    EntryIs(m, mode);
    assert Filed(ms + [m], mode) == r + [Member(f.key, f.value)];
    FiledUnique(ms + [m], mode);
  }

  /** Two lists have the same values by key if and only if they have the same entries by folded key. */
  lemma IndexDecides(a: seq<Member>, b: seq<Member>, mode: bool)
    requires DistinctUnder(a, mode) && DistinctUnder(b, mode)
    ensures Index(a, mode) == Index(b, mode) <==> Fields(a) == Fields(b)
  {
    DistinctUnique(a, mode);
    DistinctUnique(b, mode);
    if Index(a, mode) == Index(b, mode) {
      SameIndexSubset(a, b, mode);
      SameIndexSubset(b, a, mode);
      SameFields(Fields(a), Fields(b));
    }
    if Fields(a) == Fields(b) {
      SameFieldsSubset(a, b, mode);
      SameFieldsSubset(b, a, mode);
      SameFields(Index(a, mode), Index(b, mode));
    }
  }

  lemma SameIndexSubset(a: seq<Member>, b: seq<Member>, mode: bool)
    requires DistinctUnder(a, mode) && DistinctUnder(b, mode) && Index(a, mode) == Index(b, mode)
    ensures forall k :: k in Fields(a) ==> k in Fields(b) && Fields(b)[k] == Fields(a)[k]
  {
    DistinctUnique(a, mode);
    DistinctUnique(b, mode);
    forall k | k in Fields(a)
      ensures k in Fields(b) && Fields(b)[k] == Fields(a)[k]
    {
      var i := IndexOf(a, k);
      FieldOf(a, i);
      FiledAt(a, i, mode);
      var j := KeyIndex(b, k, mode);
      FoundClass(b, k, mode);
      FiledAt(b, j, mode);
      EntryDecides(a[i], b[j]);
      FieldOf(b, j);
    }
  }

  lemma SameFieldsSubset(a: seq<Member>, b: seq<Member>, mode: bool)
    requires DistinctUnder(a, mode) && DistinctUnder(b, mode) && Fields(a) == Fields(b)
    ensures forall c :: c in Index(a, mode) ==> c in Index(b, mode) && Index(b, mode)[c] == Index(a, mode)[c]
  {
    DistinctUnique(a, mode);
    DistinctUnique(b, mode);
    forall c | c in Index(a, mode)
      ensures c in Index(b, mode) && Index(b, mode)[c] == Index(a, mode)[c]
    {
      var i := IndexOf(Filed(a, mode), c);
      FiledAt(a, i, mode);
      FieldOf(a, i);
      assert a[i].key in Keys(b);
      var j := IndexOf(b, a[i].key);
      FieldOf(b, j);
      FiledAt(b, j, mode);
      EntryDecides(a[i], b[j]);
    }
  }

  // ---------------------------------------------------------------- merging a list of patch members

  lemma {:induction false} MergeSum(ms: seq<Member>, a: seq<Member>, b: seq<Member>, mode: bool)
    ensures MergeMembers(ms, a + b, mode) == MergeMembers(MergeMembers(ms, a, mode), b, mode)
    decreases |a|
  {
    if a == [] {
      AppendNothing(b);
    } else {
      SumTail(a, b);
      MergeSum(MergeMember(ms, a[0], mode), a[1..], b, mode);
    }
  }

  /** One member of the patch changes the entry of its own folded key and no other. */
  lemma MergeOneIndex(ms: seq<Member>, p: Member, mode: bool)
    requires DistinctUnder(ms, mode)
    ensures var c, r := Fold(p.key, mode), MergeMember(ms, p, mode);
      DistinctUnder(r, mode) && Index(r, mode) ==
        if p.value.Null? then Index(ms, mode) - {c}
        else Index(ms, mode)[c := Entry(Member(p.key, MergePatch(ValueOf(ms, p.key, mode), p.value, mode)))]
  {
    var c, rest := Fold(p.key, mode), Without(ms, p.key, mode);
    FiledWithout(ms, p.key, mode);
    if !p.value.Null? {
      var m := Member(p.key, MergePatch(ValueOf(ms, p.key, mode), p.value, mode));
      assert c !in Index(rest, mode);
      FiledAppended(rest, m, mode);
      PutBack(Index(ms, mode), c, Entry(m));
    }
  }

  /** Members of the patch with other keys leave an entry as it is. */
  lemma {:induction false} OthersKeep(ms: seq<Member>, ps: seq<Member>, c: string, mode: bool)
    requires DistinctUnder(ms, mode) && c !in Classes(ps, mode)
    ensures var r := MergeMembers(ms, ps, mode);
      DistinctUnder(r, mode) && (c in Index(r, mode) <==> c in Index(ms, mode)) &&
      (c in Index(ms, mode) ==> Index(r, mode)[c] == Index(ms, mode)[c])
    decreases |ps|
  {
    if ps != [] {
      ClassesCons(ps[0], ps[1..], mode);
      HeadTail(ps);
      MergeOneIndex(ms, ps[0], mode);
      OthersKeep(MergeMember(ms, ps[0], mode), ps[1..], c, mode);
    }
  }

  lemma ClassesCons(m: Member, ms: seq<Member>, mode: bool)
    ensures Classes([m] + ms, mode) == {Fold(m.key, mode)} + Classes(ms, mode)
  {
    assert Filed([m] + ms, mode) == [File(m, mode)] + Filed(ms, mode);
    KeysCons(File(m, mode), Filed(ms, mode));
  }

  lemma {:induction false} MergeKeepsDistinct(ms: seq<Member>, ps: seq<Member>, mode: bool)
    requires DistinctUnder(ms, mode)
    ensures DistinctUnder(MergeMembers(ms, ps, mode), mode)
    decreases |ps|
  {
    if ps != [] {
      MergeOneIndex(ms, ps[0], mode);
      MergeKeepsDistinct(MergeMember(ms, ps[0], mode), ps[1..], mode);
    }
  }

  lemma ValueFound(ms: seq<Member>, k: string, mode: bool)
    requires DistinctUnder(ms, mode)
    ensures ValueOf(ms, k, mode) == None <==> Fold(k, mode) !in Index(ms, mode)
    ensures var i := KeyIndex(ms, k, mode); i != -1 ==> Index(ms, mode)[Fold(k, mode)] == Entry(ms[i])
  {
    FoundClass(ms, k, mode);
    var i := KeyIndex(ms, k, mode);
    if i != -1 {
      FiledAt(ms, i, mode);
    }
  }

  // ---------------------------------------------------------------- what is set as a whole

  /** A tree without its null members. */
  function Stripped(j: Json): Json {
    match j
    case Object(ms) => Object(StrippedMembers(ms))
    case _ => j
  }

  function StrippedMembers(ms: seq<Member>): seq<Member> {
    if ms == [] then []
    else (if ms[0].value.Null? then [] else [Member(ms[0].key, Stripped(ms[0].value))]) + StrippedMembers(ms[1..])
  }

  /** Merging a tree into nothing drops its null members. */
  lemma {:induction false} MergeStrips(target: Option<Json>, t: Json, mode: bool)
    requires TargetMembers(target) == [] && Comparable(t, mode)
    ensures MergePatch(target, t, mode) == Stripped(t)
    decreases t, 1
  {
    if t.Object? {
      MergeStripsMembers([], t.members, mode);
      AppendNothing(StrippedMembers(t.members));
    }
  }

  lemma {:induction false} MergeStripsMembers(done: seq<Member>, ts: seq<Member>, mode: bool)
    requires DistinctUnder(done, mode) && DistinctUnder(ts, mode) && Classes(done, mode) !! Classes(ts, mode)
    requires forall i :: 0 <= i < |ts| ==> Comparable(ts[i].value, mode)
    ensures MergeMembers(done, ts, mode) == done + StrippedMembers(ts)
    decreases ts, 0
  {
    if ts == [] {
      AppendNothing(done);
    } else {
      var t, rest := ts[0], ts[1..];
      FiledHead(ts, mode);
      FoundClass(done, t.key, mode);
      if t.value.Null? {
        MergeStripsMembers(done, rest, mode);
        AppendNothing(StrippedMembers(rest));
      } else {
        var m := Member(t.key, Stripped(t.value));
        MergeStrips(None, t.value, mode);
        FiledAppended(done, m, mode);
        MergeStripsMembers(done + [m], rest, mode);
        AppendAssociates(done, [m], StrippedMembers(rest));
      }
    }
  }

  lemma {:induction false} StrippedKeeps(t: Json, mode: bool)
    requires Comparable(t, mode)
    ensures Abs(Stripped(t)) == Abs(t) <==> NoNullMembers(Abs(t))
    decreases t, 1
  {
    if t.Object? {
      DistinctUnique(t.members, mode);
      StrippedFields(t.members, mode);
      AbsObject(t.members);
      AbsObject(StrippedMembers(t.members));
    }
  }

  lemma {:induction false} StrippedFields(ms: seq<Member>, mode: bool)
    requires UniqueKeys(ms) && forall i :: 0 <= i < |ms| ==> Comparable(ms[i].value, mode)
    ensures Keys(StrippedMembers(ms)) <= Keys(ms)
    ensures Fields(StrippedMembers(ms)) == Fields(ms) <==> NoNullMembers(VObject(Fields(ms)))
    decreases ms, 0
  {
    if ms != [] {
      var m, rest := ms[0], ms[1..];
      FirstKeyOnce(ms);
      HeadTail(ms);
      FieldsCons(m, rest);
      KeysCons(m, rest);
      StrippedFields(rest, mode);
      NoNullsCons(Fields(rest), m.key, Abs(m.value));
      if m.value.Null? {
        AppendNothing(StrippedMembers(rest));
        assert m.key !in Fields(StrippedMembers(rest));
      } else {
        var n := Member(m.key, Stripped(m.value));
        StrippedKeeps(m.value, mode);
        FieldsCons(n, StrippedMembers(rest));
        KeysCons(n, StrippedMembers(rest));
        UpdatedMaps(Fields(StrippedMembers(rest)), Fields(rest), m.key, Abs(n.value), Abs(m.value));
      }
    }
  }

  lemma NoNullsCons(m: map<string, Val>, k: string, v: Val)
    requires k !in m
    ensures NoNullMembers(VObject(m[k := v])) <==> v != VNull && NoNullMembers(v) && NoNullMembers(VObject(m))
  {
    var n := m[k := v];
    assert n[k] == v && forall x :: x in m ==> n[x] == m[x];
  }

  // ---------------------------------------------------------------- generating reorders

  /** Generating a merge patch reorders members of both its arguments and keeps their values. */
  lemma {:induction false} GeneratingReorders(from: Json, to: Json, cs: bool, mode: bool)
    requires Comparable(from, mode) && Comparable(to, mode)
    ensures var r := LeftByMerge(from, to, cs);
      Abs(r.from) == Abs(from) && Abs(r.to) == Abs(to) && Comparable(r.from, mode) && Comparable(r.to, mode)
    decreases Weight(from), 0, 0
  {
    if from.Object? && to.Object? {
      var fs, ts := SortMembers(from.members, cs), SortMembers(to.members, cs);
      SortedLighter(from, cs);
      SortedMembersAre(from.members, cs, mode);
      SortedMembersAre(to.members, cs, mode);
      GeneratingReordersMembers(fs, ts, cs, mode);
      var r := LeftByMembers(fs, ts, cs);
      ReorderedObject(from.members, fs, r.from, mode);
      ReorderedObject(to.members, ts, r.to, mode);
    }
  }

  lemma {:induction false} GeneratingReordersMembers(fs: seq<Member>, ts: seq<Member>, cs: bool, mode: bool)
    requires AlikeLists(fs, fs, mode) && AlikeLists(ts, ts, mode)
    ensures var r := LeftByMembers(fs, ts, cs); AlikeLists(r.from, fs, mode) && AlikeLists(r.to, ts, mode)
    decreases MembersWeight(fs), 1, |fs| + |ts|
  {
    if fs != [] || ts != [] {
      var diff := StrictOrder(fs, ts);
      AlikeTails(fs, fs, mode);
      AlikeTails(ts, ts, mode);
      if diff < 0 {
        GeneratingReordersMembers(fs[1..], ts, cs, mode);
        var r := LeftByMembers(fs[1..], ts, cs);
        AlikeFront(fs[0], r.from, fs, mode);
        AppendNothing(r.to);
      } else if diff > 0 {
        GeneratingReordersMembers(fs, ts[1..], cs, mode);
        var r := LeftByMembers(fs, ts[1..], cs);
        AlikeFront(ts[0], r.to, ts, mode);
        AppendNothing(r.from);
      } else {
        GeneratingReordersMember(fs[0].value, ts[0].value, cs, mode);
        GeneratingReordersMembers(fs[1..], ts[1..], cs, mode);
        var r, v := LeftByMembers(fs[1..], ts[1..], cs), LeftByMember(fs[0].value, ts[0].value, cs);
        AlikeFront(Member(fs[0].key, v.from), r.from, fs, mode);
        AlikeFront(Member(ts[0].key, v.to), r.to, ts, mode);
      }
    }
  }

  lemma {:induction false} GeneratingReordersMember(f: Json, t: Json, cs: bool, mode: bool)
    requires Comparable(f, mode) && Comparable(t, mode)
    ensures var r := LeftByMember(f, t, cs);
      Abs(r.from) == Abs(f) && Abs(r.to) == Abs(t) && Comparable(r.from, mode) && Comparable(r.to, mode)
    decreases Weight(f), 1, 0
  {
    CompareReorders(f, t, cs, mode);
    var c := CompareJson(f, t, cs);
    if !c.same {
      CompareKeepsWeight(f, t, cs);
      GeneratingReorders(c.a, c.b, false, mode);
    }
  }

  // ---------------------------------------------------------------- the walk and the document

  /**
   The document in the middle of the walk: members of the source still to be passed are in it with their
   values, and a member of the target has no other member with an alike key there.
   */
  ghost predicate WalkReady(ms: seq<Member>, fs: seq<Member>, ts: seq<Member>, mode: bool) {
    DistinctUnder(ms, mode) && DistinctUnder(fs, mode) && DistinctUnder(ts, mode) &&
    (forall i :: 0 <= i < |fs| ==> Present(ms, fs[i], mode)) &&
    (forall i :: 0 <= i < |ts| ==> Comparable(ts[i].value, mode) && Awaited(ms, fs, ts[i], mode))
  }

  ghost predicate Present(ms: seq<Member>, f: Member, mode: bool) {
    var i := KeyIndex(ms, f.key, mode);
    i != -1 && Entry(ms[i]) == Entry(f) && Comparable(ms[i].value, mode) && Comparable(f.value, mode)
  }

  ghost predicate Awaited(ms: seq<Member>, fs: seq<Member>, t: Member, mode: bool) {
    KeyIndex(ms, t.key, mode) != -1 ==> KeyIndex(fs, t.key, mode) != -1
  }

  /** What the rest of the walk is to reach. */
  function Goal(ms: seq<Member>, fs: seq<Member>, ts: seq<Member>, mode: bool): map<string, Val> {
    (Index(ms, mode) - Classes(fs, mode)) + Index(ts, mode)
  }

  /** What the rest of the walk leaves. */
  function Walked(ms: seq<Member>, fs: seq<Member>, ts: seq<Member>, cs: bool, mode: bool): seq<Member> {
    MergeMembers(ms, GenerateMembers(fs, ts, cs), mode)
  }

  lemma GeneratedNull(fs: seq<Member>, ts: seq<Member>, cs: bool)
    requires (fs != [] || ts != []) && StrictOrder(fs, ts) < 0
    ensures GenerateMembers(fs, ts, cs) == [Member(fs[0].key, Null)] + GenerateMembers(fs[1..], ts, cs)
  {
  }

  lemma WalkedNull(ms: seq<Member>, fs: seq<Member>, ts: seq<Member>, cs: bool, mode: bool)
    requires (fs != [] || ts != []) && StrictOrder(fs, ts) < 0
    ensures Walked(ms, fs, ts, cs, mode) == Walked(Without(ms, fs[0].key, mode), fs[1..], ts, cs, mode)
  {
    var p, rest := Member(fs[0].key, Null), GenerateMembers(fs[1..], ts, cs);
    GeneratedNull(fs, ts, cs);
    ConsTail(p, rest);
    assert MergeMember(ms, p, mode) == Without(ms, p.key, mode);
  }

  lemma WalkedSet(ms: seq<Member>, fs: seq<Member>, ts: seq<Member>, cs: bool, mode: bool)
    requires (fs != [] || ts != []) && StrictOrder(fs, ts) > 0
    ensures Walked(ms, fs, ts, cs, mode) == Walked(MergeMember(ms, ts[0], mode), fs, ts[1..], cs, mode)
  {
    ConsTail(ts[0], GenerateMembers(fs, ts[1..], cs));
  }

  lemma WalkedCommon(ms: seq<Member>, fs: seq<Member>, ts: seq<Member>, cs: bool, mode: bool)
    requires (fs != [] || ts != []) && StrictOrder(fs, ts) == 0
    ensures Walked(ms, fs, ts, cs, mode) ==
      Walked(MergeMembers(ms, GenerateMember(fs[0], ts[0], cs), mode), fs[1..], ts[1..], cs, mode)
  {
    MergeSum(ms, GenerateMember(fs[0], ts[0], cs), GenerateMembers(fs[1..], ts[1..], cs), mode);
  }

  /** The keys of a generated patch are keys of the two lists. */
  lemma {:induction false} GeneratedClasses(fs: seq<Member>, ts: seq<Member>, cs: bool, mode: bool)
    ensures Classes(GenerateMembers(fs, ts, cs), mode) <= Classes(fs, mode) + Classes(ts, mode)
    decreases |fs| + |ts|
  {
    if fs == [] && ts == [] {
      NoClasses(mode);
    } else {
      var diff := StrictOrder(fs, ts);
      if fs != [] {
        HeadTail(fs);
        ClassesCons(fs[0], fs[1..], mode);
      }
      if ts != [] {
        HeadTail(ts);
        ClassesCons(ts[0], ts[1..], mode);
      }
      if diff < 0 {
        GeneratedClasses(fs[1..], ts, cs, mode);
        ClassesCons(Member(fs[0].key, Null), GenerateMembers(fs[1..], ts, cs), mode);
      } else if diff > 0 {
        GeneratedClasses(fs, ts[1..], cs, mode);
        ClassesCons(ts[0], GenerateMembers(fs, ts[1..], cs), mode);
      } else {
        GeneratedClasses(fs[1..], ts[1..], cs, mode);
        var g, rest := GenerateMember(fs[0], ts[0], cs), GenerateMembers(fs[1..], ts[1..], cs);
        AppendNothing(rest);
        if g != [] {
          HeadTail(g);
          AppendNothing([g[0]]);
          ClassesCons(g[0], rest, mode);
        }
      }
    }
  }

  lemma NoClasses(mode: bool)
    ensures Classes([], mode) == {} && Index([], mode) == map[]
  {
  }

  /** Entries that neither list has a key for are not touched. */
  lemma WalkedKeeps(ms: seq<Member>, fs: seq<Member>, ts: seq<Member>, cs: bool, mode: bool, c: string)
    requires DistinctUnder(ms, mode) && c !in Classes(fs, mode) && c !in Classes(ts, mode)
    ensures var r := Walked(ms, fs, ts, cs, mode);
      DistinctUnder(r, mode) && (c in Index(r, mode) <==> c in Index(ms, mode)) &&
      (c in Index(ms, mode) ==> Index(r, mode)[c] == Index(ms, mode)[c])
  {
    GeneratedClasses(fs, ts, cs, mode);
    OthersKeep(ms, GenerateMembers(fs, ts, cs), c, mode);
  }

  /** A member of the source that the target has not got any more will be removed. */
  lemma {:induction false} Lost(ms: seq<Member>, fs: seq<Member>, ts: seq<Member>, cs: bool, mode: bool, c: string)
    requires DistinctUnder(ms, mode) && DistinctUnder(fs, mode) && DistinctUnder(ts, mode)
    requires c in Classes(fs, mode) && c !in Classes(ts, mode)
    ensures c !in Index(Walked(ms, fs, ts, cs, mode), mode)
    decreases |fs| + |ts|
  {
    if fs == [] {
      NoClasses(mode);
    } else {
      var diff := StrictOrder(fs, ts);
      FiledHead(fs, mode);
      if diff < 0 {
        WalkedNull(ms, fs, ts, cs, mode);
        FiledWithout(ms, fs[0].key, mode);
        if c == Fold(fs[0].key, mode) {
          WalkedKeeps(Without(ms, fs[0].key, mode), fs[1..], ts, cs, mode, c);
        } else {
          Lost(Without(ms, fs[0].key, mode), fs[1..], ts, cs, mode, c);
        }
      } else {
        FiledHead(ts, mode);
        if diff > 0 {
          WalkedSet(ms, fs, ts, cs, mode);
          MergeOneIndex(ms, ts[0], mode);
          Lost(MergeMember(ms, ts[0], mode), fs, ts[1..], cs, mode, c);
        } else {
          StrCmpZero(fs[0].key, ts[0].key);
          WalkedCommon(ms, fs, ts, cs, mode);
          var g := GenerateMember(fs[0], ts[0], cs);
          MergeKeepsDistinct(ms, g, mode);
          Lost(MergeMembers(ms, g, mode), fs[1..], ts[1..], cs, mode, c);
        }
      }
    }
  }

  // ---------------------------------------------------------------- steps that keep the walk ready

  /** Readiness survives a change to the entry of one folded key that nothing else in the lists has. */
  lemma PresentKept(ms: seq<Member>, rs: seq<Member>, f: Member, c: string, mode: bool)
    requires DistinctUnder(ms, mode) && DistinctUnder(rs, mode) && Present(ms, f, mode) && Fold(f.key, mode) != c
    requires Index(rs, mode) - {c} == Index(ms, mode) - {c}
    requires forall m :: m in rs && Fold(m.key, mode) != c ==> m in ms
    ensures Present(rs, f, mode)
  {
    EntryKept(ms, rs, f, c, mode);
    var i, j := KeyIndex(ms, f.key, mode), KeyIndex(rs, f.key, mode);
    assert rs[j] in ms;
    var x :| 0 <= x < |ms| && ms[x] == rs[j];
    OneOfClass(ms, x, i, mode);
  }

  lemma EntryKept(ms: seq<Member>, rs: seq<Member>, f: Member, c: string, mode: bool)
    requires DistinctUnder(ms, mode) && DistinctUnder(rs, mode) && Present(ms, f, mode) && Fold(f.key, mode) != c
    requires Index(rs, mode) - {c} == Index(ms, mode) - {c}
    ensures var j := KeyIndex(rs, f.key, mode); j != -1 && Entry(rs[j]) == Entry(f)
  {
    var k := Fold(f.key, mode);
    ValueFound(ms, f.key, mode);
    ValueFound(rs, f.key, mode);
    assert k in Index(ms, mode) - {c} && (Index(rs, mode) - {c})[k] == (Index(ms, mode) - {c})[k];
  }

  lemma OneOfClass(ms: seq<Member>, x: nat, i: nat, mode: bool)
    requires DistinctUnder(ms, mode) && x < |ms| && i < |ms| && Fold(ms[x].key, mode) == Fold(ms[i].key, mode)
    ensures x == i
  {
  }

  lemma AwaitedKept(ms: seq<Member>, rs: seq<Member>, fs: seq<Member>, gs: seq<Member>, t: Member, c: string,
          mode: bool)
    requires Awaited(ms, fs, t, mode) && Fold(t.key, mode) != c
    requires Classes(rs, mode) <= Classes(ms, mode) + {c} && Classes(fs, mode) <= Classes(gs, mode) + {c}
    ensures Awaited(rs, gs, t, mode)
  {
    FoundClass(ms, t.key, mode);
    FoundClass(rs, t.key, mode);
    FoundClass(fs, t.key, mode);
    FoundClass(gs, t.key, mode);
  }

  lemma InClasses(ms: seq<Member>, i: nat, mode: bool)
    requires i < |ms|
    ensures Fold(ms[i].key, mode) in Classes(ms, mode)
  {
    assert Filed(ms, mode)[i].key == Fold(ms[i].key, mode);
  }

  /** A step that changes only the entry of c, which no remaining member of either list has. */
  lemma StepReady(ms: seq<Member>, rs: seq<Member>, fs: seq<Member>, ts: seq<Member>, gs: seq<Member>, us: seq<Member>,
          c: string, mode: bool)
    requires WalkReady(ms, fs, ts, mode) && DistinctUnder(rs, mode)
    requires Index(rs, mode) - {c} == Index(ms, mode) - {c}
    requires forall m :: m in rs && Fold(m.key, mode) != c ==> m in ms
    requires gs == fs || (fs != [] && gs == fs[1..])
    requires us == ts || (ts != [] && us == ts[1..])
    requires c !in Classes(gs, mode) && c !in Classes(us, mode) && Classes(fs, mode) <= Classes(gs, mode) + {c}
    ensures WalkReady(rs, gs, us, mode)
  {
    forall i | 0 <= i < |gs|
      ensures Present(rs, gs[i], mode)
    {
      InClasses(gs, i, mode);
      assert gs[i] == fs[if gs == fs then i else i + 1];
      PresentKept(ms, rs, gs[i], c, mode);
    }
    ClassesOnly(ms, rs, c, mode);
    forall i | 0 <= i < |us|
      ensures Comparable(us[i].value, mode) && Awaited(rs, gs, us[i], mode)
    {
      InClasses(us, i, mode);
      assert us[i] == ts[if us == ts then i else i + 1];
      AwaitedKept(ms, rs, fs, gs, us[i], c, mode);
    }
  }

  lemma ClassesOnly(ms: seq<Member>, rs: seq<Member>, c: string, mode: bool)
    requires Index(rs, mode) - {c} == Index(ms, mode) - {c}
    ensures Classes(rs, mode) <= Classes(ms, mode) + {c}
  {
    forall k | k in Classes(rs, mode) && k != c
      ensures k in Classes(ms, mode)
    {
      assert k in Index(rs, mode) - {c};
    }
  }

  lemma WithoutMembers(ms: seq<Member>, k: string, mode: bool)
    ensures forall m :: m in Without(ms, k, mode) ==> m in ms
  {
  }

  lemma MergeOneMembers(ms: seq<Member>, p: Member, mode: bool)
    ensures forall m :: m in MergeMember(ms, p, mode) && Fold(m.key, mode) != Fold(p.key, mode) ==> m in ms
  {
    WithoutMembers(ms, p.key, mode);
  }

  lemma MergeOneOthers(ms: seq<Member>, p: Member, mode: bool)
    requires DistinctUnder(ms, mode)
    ensures var c, r := Fold(p.key, mode), MergeMember(ms, p, mode);
      DistinctUnder(r, mode) && Index(r, mode) - {c} == Index(ms, mode) - {c}
  {
    MergeOneIndex(ms, p, mode);
  }

  // ---------------------------------------------------------------- the goal at every step

  lemma GoalDrops(m: map<string, Val>, ks: set<string>, t: map<string, Val>, c: string)
    ensures ((m - {c}) - ks) + t == (m - ({c} + ks)) + t
  {
  }

  lemma GoalSets(m: map<string, Val>, ks: set<string>, t: map<string, Val>, c: string, v: Val)
    requires c !in ks && c !in t
    ensures (m[c := v] - ks) + t == ((m - ks) + t)[c := v]
    ensures (m - ({c} + ks)) + t[c := v] == ((m - ks) + t)[c := v]
    ensures (m - ks) + t[c := v] == ((m - ks) + t)[c := v]
  {
  }

  /** A member of the target that the result has not got. */
  lemma Missing(ms: seq<Member>, fs: seq<Member>, ts: seq<Member>, mode: bool, r: map<string, Val>)
    requires DistinctUnder(ts, mode) && ts != [] && Fold(ts[0].key, mode) !in r
    ensures r != Goal(ms, fs, ts, mode)
  {
    FiledAt(ts, 0, mode);
    assert Fold(ts[0].key, mode) in Goal(ms, fs, ts, mode);
  }

  // ---------------------------------------------------------------- the theorem

  /** What the case of one pair of trees says: d is any document with the value of the source. */
  ghost predicate Exactly(d: Json, from: Json, to: Json, cs: bool, mode: bool) {
    Abs(Outcome(d, from, to, cs, mode)) == Abs(to) <==> Settles(from, to, cs, mode)
  }

  /** The document after merging the generated patch into it; without a patch it is left alone. */
  function Outcome(d: Json, from: Json, to: Json, cs: bool, mode: bool): Json {
    var p := GenerateMergePatch(from, to, cs);
    if p == None then d else MergePatch(Some(d), p.value, mode)
  }

  lemma {:induction false} MergesExactly(d: Json, from: Json, to: Json, cs: bool, mode: bool)
    requires Comparable(d, mode) && Comparable(from, mode) && Comparable(to, mode) && Abs(d) == Abs(from)
    ensures Exactly(d, from, to, cs, mode)
    decreases Weight(from), 0, 1
  {
    if to.Object? && from.Object? {
      ObjectMergesExactly(d.members, from.members, to.members, cs, mode);
    } else if to.Object? {
      MergeStrips(Some(d), to, mode);
      StrippedKeeps(to, mode);
    }
  }

  lemma {:induction false} ObjectMergesExactly(ds: seq<Member>, from: seq<Member>, to: seq<Member>, cs: bool,
          mode: bool)
    requires Comparable(Object(ds), mode) && Comparable(Object(from), mode) && Comparable(Object(to), mode)
    requires Abs(Object(ds)) == Abs(Object(from))
    ensures Exactly(Object(ds), Object(from), Object(to), cs, mode)
    decreases Weight(Object(from)), 0, 0
  {
    var fs, ts := SortMembers(from, cs), SortMembers(to, cs);
    SortedMembersAre(from, cs, mode);
    SortedMembersAre(to, cs, mode);
    StartReady(ds, from, to, cs, mode);
    Walk(ds, fs, ts, cs, mode);
    WholeGoal(ds, from, to, cs, mode);
    var r := Walked(ds, fs, ts, cs, mode);
    IndexDecides(r, to, mode);
    AbsObject(r);
    AbsObject(to);
    OutcomeIs(ds, from, to, cs, mode);
  }

  lemma OutcomeIs(ds: seq<Member>, from: seq<Member>, to: seq<Member>, cs: bool, mode: bool)
    ensures Outcome(Object(ds), Object(from), Object(to), cs, mode) ==
      Object(Walked(ds, SortMembers(from, cs), SortMembers(to, cs), cs, mode))
  {
  }

  lemma StartReady(ds: seq<Member>, from: seq<Member>, to: seq<Member>, cs: bool, mode: bool)
    requires Comparable(Object(ds), mode) && Comparable(Object(from), mode) && Comparable(Object(to), mode)
    requires Abs(Object(ds)) == Abs(Object(from))
    ensures WalkReady(ds, SortMembers(from, cs), SortMembers(to, cs), mode)
  {
    var fs, ts := SortMembers(from, cs), SortMembers(to, cs);
    SortedMembersAre(from, cs, mode);
    SortedMembersAre(to, cs, mode);
    AbsObject(ds);
    AbsObject(from);
    IndexDecides(ds, fs, mode);
    forall i | 0 <= i < |fs|
      ensures Present(ds, fs[i], mode)
    {
      FiledAt(fs, i, mode);
      ValueFound(ds, fs[i].key, mode);
    }
    forall i | 0 <= i < |ts|
      ensures Awaited(ds, fs, ts[i], mode)
    {
      FoundClass(ds, ts[i].key, mode);
      FoundClass(fs, ts[i].key, mode);
      assert Index(ds, mode).Keys == Index(fs, mode).Keys;
    }
  }

  /** At the start of the walk the goal is the target. */
  lemma WholeGoal(ds: seq<Member>, from: seq<Member>, to: seq<Member>, cs: bool, mode: bool)
    requires Comparable(Object(ds), mode) && Comparable(Object(from), mode) && Comparable(Object(to), mode)
    requires Abs(Object(ds)) == Abs(Object(from))
    ensures DistinctUnder(to, mode) && Goal(ds, SortMembers(from, cs), SortMembers(to, cs), mode) == Index(to, mode)
  {
    var fs, ts := SortMembers(from, cs), SortMembers(to, cs);
    SortedMembersAre(from, cs, mode);
    SortedMembersAre(to, cs, mode);
    AbsObject(ds);
    AbsObject(from);
    IndexDecides(ds, fs, mode);
    IndexDecides(ts, to, mode);
    AllDropped(Index(ds, mode), Classes(fs, mode), Index(to, mode));
  }

  lemma AllDropped(m: map<string, Val>, ks: set<string>, t: map<string, Val>)
    requires m.Keys == ks
    ensures (m - ks) + t == t
  {
  }

  ghost predicate WalksExactly(ms: seq<Member>, fs: seq<Member>, ts: seq<Member>, cs: bool, mode: bool) {
    var r := Walked(ms, fs, ts, cs, mode);
    DistinctUnder(r, mode) && (Index(r, mode) == Goal(ms, fs, ts, mode) <==> WalkSettles(fs, ts, cs, mode))
  }

  lemma {:induction false} Walk(ms: seq<Member>, fs: seq<Member>, ts: seq<Member>, cs: bool, mode: bool)
    requires WalkReady(ms, fs, ts, mode)
    ensures WalksExactly(ms, fs, ts, cs, mode)
    decreases MembersWeight(fs), 1, |fs| + |ts|
  {
    if fs == [] && ts == [] {
      NoClasses(mode);
      NothingToReach(Index(ms, mode));
    } else {
      var diff := StrictOrder(fs, ts);
      if diff < 0 {
        WalkNull(ms, fs, ts, cs, mode);
      } else if diff > 0 {
        WalkSet(ms, fs, ts, cs, mode);
      } else {
        WalkCommon(ms, fs, ts, cs, mode);
      }
    }
  }

  lemma NothingToReach(m: map<string, Val>)
    ensures (m - {}) + map[] == m
  {
  }

  lemma {:induction false} WalkNull(ms: seq<Member>, fs: seq<Member>, ts: seq<Member>, cs: bool, mode: bool)
    requires WalkReady(ms, fs, ts, mode) && fs != [] && StrictOrder(fs, ts) < 0
    ensures WalksExactly(ms, fs, ts, cs, mode)
    decreases MembersWeight(fs), 1, |fs| + |ts|, 0
  {
    var rs, c := Without(ms, fs[0].key, mode), Fold(fs[0].key, mode);
    FiledHead(fs, mode);
    FiledWithout(ms, fs[0].key, mode);
    WalkedNull(ms, fs, ts, cs, mode);
    GoalDrops(Index(ms, mode), Classes(fs[1..], mode), Index(ts, mode), c);
    NullReady(ms, fs, ts, mode);
    Walk(rs, fs[1..], ts, cs, mode);
  }

  lemma DropTwice(m: map<string, Val>, c: string)
    ensures (m - {c}) - {c} == m - {c}
  {
  }

  lemma NullPresent(ms: seq<Member>, fs: seq<Member>, mode: bool)
    requires DistinctUnder(ms, mode) && DistinctUnder(fs, mode) && fs != []
    requires forall i :: 0 <= i < |fs| ==> Present(ms, fs[i], mode)
    ensures forall i :: 0 <= i < |fs[1..]| ==> Present(Without(ms, fs[0].key, mode), fs[1..][i], mode)
  {
    var rs, c := Without(ms, fs[0].key, mode), Fold(fs[0].key, mode);
    FiledHead(fs, mode);
    FiledWithout(ms, fs[0].key, mode);
    WithoutMembers(ms, fs[0].key, mode);
    DropTwice(Index(ms, mode), c);
    forall i | 0 <= i < |fs[1..]|
      ensures Present(rs, fs[1..][i], mode)
    {
      InClasses(fs[1..], i, mode);
      assert fs[1..][i] == fs[i + 1];
      PresentKept(ms, rs, fs[i + 1], c, mode);
    }
  }

  /** A removal leaves the walk ready even if the target has a member with an alike key still to come. */
  lemma NullReady(ms: seq<Member>, fs: seq<Member>, ts: seq<Member>, mode: bool)
    requires WalkReady(ms, fs, ts, mode) && fs != []
    ensures WalkReady(Without(ms, fs[0].key, mode), fs[1..], ts, mode)
  {
    var rs, c := Without(ms, fs[0].key, mode), Fold(fs[0].key, mode);
    FiledHead(fs, mode);
    FiledWithout(ms, fs[0].key, mode);
    NullPresent(ms, fs, mode);
    DroppedClass(ms, rs, c, mode);
    forall i | 0 <= i < |ts|
      ensures Awaited(rs, fs[1..], ts[i], mode)
    {
      NullAwaited(ms, rs, fs, fs[1..], ts[i], c, mode);
    }
  }

  lemma DroppedClass(ms: seq<Member>, rs: seq<Member>, c: string, mode: bool)
    requires Index(rs, mode) == Index(ms, mode) - {c}
    ensures Classes(rs, mode) <= Classes(ms, mode) && c !in Classes(rs, mode)
  {
    assert Index(rs, mode).Keys == Index(ms, mode).Keys - {c};
  }

  lemma NullAwaited(ms: seq<Member>, rs: seq<Member>, fs: seq<Member>, gs: seq<Member>, t: Member, c: string,
          mode: bool)
    requires Awaited(ms, fs, t, mode) && Classes(fs, mode) <= Classes(gs, mode) + {c}
    requires Classes(rs, mode) <= Classes(ms, mode) && c !in Classes(rs, mode)
    ensures Awaited(rs, gs, t, mode)
  {
    FoundClass(ms, t.key, mode);
    FoundClass(rs, t.key, mode);
    FoundClass(fs, t.key, mode);
    FoundClass(gs, t.key, mode);
  }

  lemma {:induction false} WalkSet(ms: seq<Member>, fs: seq<Member>, ts: seq<Member>, cs: bool, mode: bool)
    requires WalkReady(ms, fs, ts, mode) && ts != [] && StrictOrder(fs, ts) > 0
    ensures WalksExactly(ms, fs, ts, cs, mode)
    decreases MembersWeight(fs), 1, |fs| + |ts|, 1
  {
    var t := ts[0];
    var rs, c := MergeMember(ms, t, mode), Fold(t.key, mode);
    FiledHead(ts, mode);
    FoundClass(fs, t.key, mode);
    WalkedSet(ms, fs, ts, cs, mode);
    MergeOneIndex(ms, t, mode);
    if KeyIndex(fs, t.key, mode) != -1 {
      MergeKeepsDistinct(rs, GenerateMembers(fs, ts[1..], cs), mode);
      Lost(rs, fs, ts[1..], cs, mode, c);
      Missing(ms, fs, ts, mode, Index(Walked(ms, fs, ts, cs, mode), mode));
    } else if t.value.Null? {
      WalkedKeeps(rs, fs, ts[1..], cs, mode, c);
      Missing(ms, fs, ts, mode, Index(Walked(ms, fs, ts, cs, mode), mode));
    } else {
      WalkSetNew(ms, fs, ts, cs, mode);
    }
  }

  lemma {:induction false} WalkSetNew(ms: seq<Member>, fs: seq<Member>, ts: seq<Member>, cs: bool, mode: bool)
    requires WalkReady(ms, fs, ts, mode) && ts != [] && StrictOrder(fs, ts) > 0
    requires KeyIndex(fs, ts[0].key, mode) == -1 && !ts[0].value.Null?
    ensures WalksExactly(ms, fs, ts, cs, mode)
    decreases MembersWeight(fs), 1, |fs| + |ts|, 0
  {
    var t := ts[0];
    SetReady(ms, fs, ts, mode);
    Walk(MergeMember(ms, t, mode), fs, ts[1..], cs, mode);
    SetNewStep(ms, fs, ts, cs, mode);
  }

  lemma SetReady(ms: seq<Member>, fs: seq<Member>, ts: seq<Member>, mode: bool)
    requires WalkReady(ms, fs, ts, mode) && ts != [] && KeyIndex(fs, ts[0].key, mode) == -1
    ensures WalkReady(MergeMember(ms, ts[0], mode), fs, ts[1..], mode)
  {
    FiledHead(ts, mode);
    FoundClass(fs, ts[0].key, mode);
    MergeOneOthers(ms, ts[0], mode);
    MergeOneMembers(ms, ts[0], mode);
    StepReady(ms, MergeMember(ms, ts[0], mode), fs, ts, fs, ts[1..], Fold(ts[0].key, mode), mode);
  }

  lemma SetIndex(ms: seq<Member>, t: Member, mode: bool)
    requires DistinctUnder(ms, mode) && KeyIndex(ms, t.key, mode) == -1 && Comparable(t.value, mode) && !t.value.Null?
    ensures DistinctUnder(MergeMember(ms, t, mode), mode)
    ensures Index(MergeMember(ms, t, mode), mode) ==
      Index(ms, mode)[Fold(t.key, mode) := Entry(Member(t.key, Stripped(t.value)))]
  {
    MergeStrips(None, t.value, mode);
    MergeOneIndex(ms, t, mode);
  }

  lemma SetNewStep(ms: seq<Member>, fs: seq<Member>, ts: seq<Member>, cs: bool, mode: bool)
    requires WalkReady(ms, fs, ts, mode) && ts != [] && StrictOrder(fs, ts) > 0
    requires KeyIndex(fs, ts[0].key, mode) == -1 && !ts[0].value.Null?
    requires WalksExactly(MergeMember(ms, ts[0], mode), fs, ts[1..], cs, mode)
    ensures WalksExactly(ms, fs, ts, cs, mode)
  {
    var t := ts[0];
    assert Awaited(ms, fs, t, mode) && Comparable(t.value, mode);
    FoundClass(fs, t.key, mode);
    SetIndex(ms, t, mode);
    StrippedKeeps(t.value, mode);
    WalkedSet(ms, fs, ts, cs, mode);
    SetGoal(ms, MergeMember(ms, t, mode), fs, fs, ts, cs, mode, Member(t.key, Stripped(t.value)));
  }

  /** From the goal after a step that set one entry to the goal before it. */
  lemma SetGoal(ms: seq<Member>, rs: seq<Member>, fs: seq<Member>, gs: seq<Member>, ts: seq<Member>, cs: bool,
          mode: bool,
          m: Member)
    requires DistinctUnder(ts, mode) && ts != [] && DistinctUnder(rs, mode) && m.key == ts[0].key
    requires var c := Fold(m.key, mode);
      c !in Classes(gs, mode) && Index(rs, mode) == Index(ms, mode)[c := Entry(m)] &&
      (Classes(fs, mode) == {c} + Classes(gs, mode) || fs == gs)
    ensures var r := Index(Walked(rs, gs, ts[1..], cs, mode), mode);
      r == Goal(ms, fs, ts, mode) <==> Abs(m.value) == Abs(ts[0].value) && r == Goal(rs, gs, ts[1..], mode)
  {
    var c := Fold(m.key, mode);
    FiledHead(ts, mode);
    EntryDecides(m, ts[0]);
    WalkedKeeps(rs, gs, ts[1..], cs, mode, c);
    var r := Index(Walked(rs, gs, ts[1..], cs, mode), mode);
    var base := (Index(ms, mode) - Classes(gs, mode)) + Index(ts[1..], mode);
    GoalSets(Index(ms, mode), Classes(gs, mode), Index(ts[1..], mode), c, Entry(m));
    GoalSets(Index(ms, mode), Classes(gs, mode), Index(ts[1..], mode), c, Entry(ts[0]));
    SetIff(r, base, c, Entry(m), Entry(ts[0]));
  }

  lemma {:induction false} WalkCommon(ms: seq<Member>, fs: seq<Member>, ts: seq<Member>, cs: bool, mode: bool)
    requires WalkReady(ms, fs, ts, mode) && fs != [] && ts != [] && StrictOrder(fs, ts) == 0
    ensures WalksExactly(ms, fs, ts, cs, mode)
    decreases MembersWeight(fs), 1, |fs| + |ts|, 0
  {
    var f, t, g := fs[0], ts[0], GenerateMember(fs[0], ts[0], cs);
    StrCmpZero(f.key, t.key);
    WalkedCommon(ms, fs, ts, cs, mode);
    assert Present(ms, f, mode) && Comparable(t.value, mode);
    CommonOutcome(ms, f, t, cs, mode);
    CommonReady(ms, fs, ts, cs, mode);
    Walk(MergeMembers(ms, g, mode), fs[1..], ts[1..], cs, mode);
    CommonStep(ms, fs, ts, cs, mode);
  }

  /** What one common member leaves in the document: removed, or a member with the value v. */
  ghost predicate CommonLeaves(ms: seq<Member>, f: Member, t: Member, cs: bool, mode: bool) {
    var rs, c := MergeMembers(ms, GenerateMember(f, t, cs), mode), Fold(f.key, mode);
    DistinctUnder(rs, mode) && Index(rs, mode) - {c} == Index(ms, mode) - {c} &&
    (forall m :: m in rs && Fold(m.key, mode) != c ==> m in ms) &&
    ((c !in Index(rs, mode) && !MemberSettles(f.value, t.value, cs, mode)) ||
     exists v :: CommonValue(ms, rs, f, t, cs, mode, v))
  }

  ghost predicate CommonValue(ms: seq<Member>, rs: seq<Member>, f: Member, t: Member, cs: bool, mode: bool, v: Json) {
    Index(rs, mode) == Index(ms, mode)[Fold(f.key, mode) := Entry(Member(f.key, v))] &&
    (Abs(v) == Abs(t.value) <==> MemberSettles(f.value, t.value, cs, mode))
  }

  lemma {:induction false} CommonOutcome(ms: seq<Member>, f: Member, t: Member, cs: bool, mode: bool)
    requires DistinctUnder(ms, mode) && Present(ms, f, mode) && Comparable(t.value, mode) && f.key == t.key
    ensures CommonLeaves(ms, f, t, cs, mode)
    decreases Weight(f.value), 1, 0
  {
    var d := ms[KeyIndex(ms, f.key, mode)];
    ValueFound(ms, f.key, mode);
    EntryDecides(d, f);
    if CompareJson(f.value, t.value, cs).same {
      Untouched(ms, f, t, cs, mode, d);
    } else {
      CommonDiffers(ms, f, t, cs, mode, d);
    }
  }

  lemma {:induction false} CommonDiffers(ms: seq<Member>, f: Member, t: Member, cs: bool, mode: bool, d: Member)
    requires DistinctUnder(ms, mode) && f.key == t.key == d.key && ValueOf(ms, f.key, mode) == Some(d.value)
    requires Fold(f.key, mode) in Index(ms, mode) && Index(ms, mode)[Fold(f.key, mode)] == Entry(d)
    requires Comparable(f.value, mode) && Comparable(t.value, mode) && Comparable(d.value, mode)
    requires Abs(d.value) == Abs(f.value) && !CompareJson(f.value, t.value, cs).same
    ensures CommonLeaves(ms, f, t, cs, mode)
    decreases Weight(f.value), 0, 2
  {
    var r := CompareJson(f.value, t.value, cs);
    CompareReorders(f.value, t.value, cs, mode);
    CompareKeepsWeight(f.value, t.value, cs);
    MergesExactly(d.value, r.a, r.b, false, mode);
    PatchNull(r.a, r.b);
    assert r.b == Null <==> t.value == Null;
    if GenerateMergePatch(r.a, r.b, false) == None {
      Untouched(ms, f, t, cs, mode, d);
    } else {
      Patched(ms, f, t, cs, mode, d);
    }
  }

  lemma Untouched(ms: seq<Member>, f: Member, t: Member, cs: bool, mode: bool, d: Member)
    requires DistinctUnder(ms, mode) && GenerateMember(f, t, cs) == []
    requires d.key == f.key && Fold(f.key, mode) in Index(ms, mode) && Index(ms, mode)[Fold(f.key, mode)] == Entry(d)
    requires Abs(d.value) == Abs(t.value) <==> MemberSettles(f.value, t.value, cs, mode)
    ensures CommonLeaves(ms, f, t, cs, mode)
  {
    assert CommonValue(ms, ms, f, t, cs, mode, d.value);
  }

  lemma Patched(ms: seq<Member>, f: Member, t: Member, cs: bool, mode: bool, d: Member)
    requires DistinctUnder(ms, mode) && f.key == t.key && ValueOf(ms, f.key, mode) == Some(d.value)
    requires var r := CompareJson(f.value, t.value, cs);
      !r.same && GenerateMergePatch(r.a, r.b, false) != None && (r.b == Null <==> t.value == Null) &&
      Abs(r.b) == Abs(t.value) &&
      (Abs(Outcome(d.value, r.a, r.b, false, mode)) == Abs(r.b) <==> Settles(r.a, r.b, false, mode))
    ensures CommonLeaves(ms, f, t, cs, mode)
  {
    var r := CompareJson(f.value, t.value, cs);
    var p := Member(t.key, GenerateMergePatch(r.a, r.b, false).value);
    var rs := MergeMember(ms, p, mode);
    GeneratedOne(ms, f, t, cs, mode, p);
    MergeOneIndex(ms, p, mode);
    MergeOneOthers(ms, p, mode);
    MergeOneMembers(ms, p, mode);
    PatchNull(r.a, r.b);
    if !p.value.Null? {
      assert CommonValue(ms, rs, f, t, cs, mode, MergePatch(Some(d.value), p.value, mode));
    }
  }

  lemma GeneratedOne(ms: seq<Member>, f: Member, t: Member, cs: bool, mode: bool, p: Member)
    requires var r := CompareJson(f.value, t.value, cs);
      !r.same && GenerateMergePatch(r.a, r.b, false) == Some(p.value) && p.key == t.key
    ensures GenerateMember(f, t, cs) == [p]
    ensures MergeMembers(ms, GenerateMember(f, t, cs), mode) == MergeMember(ms, p, mode)
  {
    assert GenerateMember(f, t, cs) == [p];
    assert MergeMembers(MergeMember(ms, p, mode), [p][1..], mode) == MergeMember(ms, p, mode);
  }

  /** The generator makes a null patch for a null target only. */
  lemma PatchNull(a: Json, b: Json)
    ensures var p := GenerateMergePatch(a, b, false); p.Some? && p.value.Null? <==> b.Null?
  {
  }

  lemma CommonReady(ms: seq<Member>, fs: seq<Member>, ts: seq<Member>, cs: bool, mode: bool)
    requires WalkReady(ms, fs, ts, mode) && fs != [] && ts != [] && fs[0].key == ts[0].key
    requires CommonLeaves(ms, fs[0], ts[0], cs, mode)
    ensures WalkReady(MergeMembers(ms, GenerateMember(fs[0], ts[0], cs), mode), fs[1..], ts[1..], mode)
  {
    FiledHead(fs, mode);
    FiledHead(ts, mode);
    StepReady(ms, MergeMembers(ms, GenerateMember(fs[0], ts[0], cs), mode), fs, ts, fs[1..], ts[1..],
              Fold(fs[0].key, mode), mode);
  }

  lemma CommonStep(ms: seq<Member>, fs: seq<Member>, ts: seq<Member>, cs: bool, mode: bool)
    requires WalkReady(ms, fs, ts, mode) && fs != [] && ts != [] && fs[0].key == ts[0].key && StrictOrder(fs, ts) == 0
    requires CommonLeaves(ms, fs[0], ts[0], cs, mode)
    requires WalksExactly(MergeMembers(ms, GenerateMember(fs[0], ts[0], cs), mode), fs[1..], ts[1..], cs, mode)
    ensures WalksExactly(ms, fs, ts, cs, mode)
  {
    var f, t := fs[0], ts[0];
    var rs, c := MergeMembers(ms, GenerateMember(f, t, cs), mode), Fold(f.key, mode);
    FiledHead(fs, mode);
    FiledHead(ts, mode);
    WalkedCommon(ms, fs, ts, cs, mode);
    if c !in Index(rs, mode) {
      WalkedKeeps(rs, fs[1..], ts[1..], cs, mode, c);
      Missing(ms, fs, ts, mode, Index(Walked(ms, fs, ts, cs, mode), mode));
    } else {
      var v :| CommonValue(ms, rs, f, t, cs, mode, v);
      SetGoal(ms, rs, fs, fs[1..], ts, cs, mode, Member(f.key, v));
    }
  }

  // ---------------------------------------------------------------- keys distinct ignoring case

  lemma DistinctAny(ms: seq<Member>, mode: bool)
    requires DistinctUnder(ms, false)
    ensures DistinctUnder(ms, mode) && UniqueKeys(ms)
  {
  }

  lemma {:induction false} ComparableAny(j: Json, cs: bool)
    requires Comparable(j, false)
    ensures Comparable(j, cs)
    decreases j
  {
    match j
    case Array(items) =>
      forall i | 0 <= i < |items|
        ensures Comparable(items[i], cs)
      {
        ComparableAny(items[i], cs);
      }
    case Object(ms) =>
      DistinctAny(ms, cs);
      forall i | 0 <= i < |ms|
        ensures Comparable(ms[i].value, cs)
      {
        ComparableAny(ms[i].value, cs);
      }
    case _ =>
  }

  lemma {:induction false} SortedAlike(xs: seq<Member>, ys: seq<Member>, cs: bool)
    requires StrictUnder(xs, cs) && StrictUnder(ys, cs) && Fields(xs) == Fields(ys)
    requires forall i :: 0 <= i < |xs| ==> Comparable(xs[i].value, false)
    requires forall i :: 0 <= i < |ys| ==> Comparable(ys[i].value, false)
    ensures AlikeLists(xs, ys, false)
    decreases |xs|
  {
    EmptyFields(xs);
    EmptyFields(ys);
    if xs != [] {
      SameFirst(xs, ys, cs);
      StrictUnique(xs, cs);
      StrictUnique(ys, cs);
      SameTails(xs, ys);
      SortedAlike(xs[1..], ys[1..], cs);
      AlikeCons(xs, ys, false);
    }
  }

  /** The sorted lists of two objects with the same value are pairwise alike. */
  lemma SortedSame(xs: seq<Member>, ys: seq<Member>, cs: bool)
    requires Comparable(Object(xs), false) && Comparable(Object(ys), false) && Abs(Object(xs)) == Abs(Object(ys))
    ensures AlikeLists(SortMembers(xs, cs), SortMembers(ys, cs), false)
  {
    AbsObject(xs);
    AbsObject(ys);
    DistinctAny(xs, cs);
    DistinctAny(ys, cs);
    SortedStrictly(xs, cs);
    SortedStrictly(ys, cs);
    SortedMembersAre(xs, cs, false);
    SortedMembersAre(ys, cs, false);
    SortedAlike(SortMembers(xs, cs), SortMembers(ys, cs), cs);
  }

  /** Trees with the same value have the same value with keys folded. */
  lemma {:induction false} FoldedSame(a: Json, b: Json, cs: bool)
    requires Comparable(a, false) && Comparable(b, false) && Abs(a) == Abs(b)
    ensures FoldedAbs(a, cs) == FoldedAbs(b, cs)
    decreases Weight(a), 0, 1
  {
    if a.Array? {
      AbsArray(a.items);
      AbsArray(b.items);
      assert |Values(a.items)| == |Values(b.items)|;
      forall i | 0 <= i < |a.items|
        ensures FoldedAbs(a.items[i], cs) == FoldedAbs(b.items[i], cs)
      {
        assert Values(a.items)[i] == Values(b.items)[i];
        ItemLighter(a.items, i);
        FoldedSame(a.items[i], b.items[i], cs);
      }
      FoldedArray(a.items, cs);
      FoldedArray(b.items, cs);
      AbsArray(FoldedItems(a.items, cs));
      AbsArray(FoldedItems(b.items, cs));
      assert Values(FoldedItems(a.items, cs)) == Values(FoldedItems(b.items, cs));
    } else if a.Object? {
      FoldedSameObject(a.members, b.members, cs);
    }
  }

  lemma {:induction false} FoldedSameObject(xs: seq<Member>, ys: seq<Member>, cs: bool)
    requires Comparable(Object(xs), false) && Comparable(Object(ys), false) && Abs(Object(xs)) == Abs(Object(ys))
    ensures FoldedAbs(Object(xs), cs) == FoldedAbs(Object(ys), cs)
    decreases Weight(Object(xs)), 0, 0
  {
    var sx, sy := SortMembers(xs, cs), SortMembers(ys, cs);
    SortedSame(xs, ys, cs);
    FoldedAlike(sx, sy, cs);
    FoldedSorted(xs, cs);
    FoldedSorted(ys, cs);
  }

  lemma {:induction false} FoldedAlike(xs: seq<Member>, ys: seq<Member>, cs: bool)
    requires AlikeLists(xs, ys, false)
    ensures Fields(FoldedMembers(xs, cs)) == Fields(FoldedMembers(ys, cs))
    decreases MembersWeight(xs), 1, |xs|
  {
    if xs != [] {
      AlikeTails(xs, ys, false);
      FoldedSame(xs[0].value, ys[0].value, cs);
      FoldedAlike(xs[1..], ys[1..], cs);
      FoldedFieldsCons(xs, cs);
      FoldedFieldsCons(ys, cs);
    }
  }

  lemma FoldedFieldsCons(ms: seq<Member>, cs: bool)
    requires ms != []
    ensures Fields(FoldedMembers(ms, cs)) ==
      Fields(FoldedMembers(ms[1..], cs))[Fold(ms[0].key, cs) := FoldedAbs(ms[0].value, cs)]
  {
    HeadTail(ms);
    FoldedCons(ms[0], ms[1..], cs);
    FieldsCons(FoldedMember(ms[0], cs), FoldedMembers(ms[1..], cs));
  }

  /** Sorting first makes no difference to the folded value. */
  lemma FoldedSorted(ms: seq<Member>, cs: bool)
    requires Comparable(Object(ms), false)
    ensures FoldedAbs(Object(ms), cs) == VObject(Fields(FoldedMembers(SortMembers(ms, cs), cs)))
  {
    var fs := FoldedMembers(ms, cs);
    DistinctAny(ms, cs);
    FoldedSort(ms, cs);
    FoldedObject(ms, cs);
    AbsObject(fs);
    FoldedDistinct(ms, cs);
    SortedStrictly(fs, cs);
  }

  lemma FoldedDistinct(ms: seq<Member>, cs: bool)
    requires DistinctUnder(ms, cs)
    ensures DistinctUnder(FoldedMembers(ms, cs), cs)
  {
    var fs := FoldedMembers(ms, cs);
    forall i, j | 0 <= i < j < |fs|
      ensures Fold(fs[i].key, cs) != Fold(fs[j].key, cs)
    {
      FoldTwice(ms[i].key, cs);
      FoldTwice(ms[j].key, cs);
    }
  }

  /** The condition depends on the values of the trees alone. */
  lemma {:induction false} SettlesSame(a: Json, b: Json, x: Json, y: Json, cs: bool, mode: bool)
    requires Comparable(a, false) && Comparable(b, false) && Comparable(x, false) && Comparable(y, false)
    requires Abs(a) == Abs(x) && Abs(b) == Abs(y)
    ensures Settles(a, b, cs, mode) <==> Settles(x, y, cs, mode)
    decreases Weight(a), 0, 0
  {
    if a.Object? && b.Object? {
      SortedSame(a.members, x.members, cs);
      SortedSame(b.members, y.members, cs);
      WalkSettlesSame(SortMembers(a.members, cs), SortMembers(b.members, cs),
                      SortMembers(x.members, cs), SortMembers(y.members, cs), cs, mode);
    }
  }

  lemma {:induction false} SameKeyIndex(xs: seq<Member>, ys: seq<Member>, k: string, mode: bool)
    requires |xs| == |ys| && forall i :: 0 <= i < |xs| ==> xs[i].key == ys[i].key
    ensures KeyIndex(xs, k, mode) == KeyIndex(ys, k, mode)
  {
    if xs != [] {
      SameKeyIndex(xs[1..], ys[1..], k, mode);
    }
  }

  lemma {:induction false} WalkSettlesSame(fs: seq<Member>, ts: seq<Member>, xs: seq<Member>, ys: seq<Member>,
          cs: bool, mode: bool)
    requires AlikeLists(fs, xs, false) && AlikeLists(ts, ys, false)
    ensures WalkSettles(fs, ts, cs, mode) <==> WalkSettles(xs, ys, cs, mode)
    decreases MembersWeight(fs), 1, |fs| + |ts|
  {
    if fs != [] || ts != [] {
      var diff := StrictOrder(fs, ts);
      AlikeTails(fs, xs, false);
      AlikeTails(ts, ys, false);
      if diff < 0 {
        WalkSettlesSame(fs[1..], ts, xs[1..], ys, cs, mode);
      } else if diff > 0 {
        SameKeyIndex(fs, xs, ts[0].key, mode);
        assert ts[0].value == Null <==> ys[0].value == Null;
        WalkSettlesSame(fs, ts[1..], xs, ys[1..], cs, mode);
      } else {
        MemberSettlesSame(fs[0].value, ts[0].value, xs[0].value, ys[0].value, cs, mode);
        WalkSettlesSame(fs[1..], ts[1..], xs[1..], ys[1..], cs, mode);
      }
    }
  }

  lemma {:induction false} MemberSettlesSame(f: Json, t: Json, x: Json, y: Json, cs: bool, mode: bool)
    requires Comparable(f, false) && Comparable(t, false) && Comparable(x, false) && Comparable(y, false)
    requires Abs(f) == Abs(x) && Abs(t) == Abs(y)
    ensures MemberSettles(f, t, cs, mode) <==> MemberSettles(x, y, cs, mode)
    decreases Weight(f), 1, 0
  {
    FoldedSame(f, x, cs);
    FoldedSame(t, y, cs);
    SeenFolded(f, t, cs);
    SeenFolded(x, y, cs);
    var r, q := CompareJson(f, t, cs), CompareJson(x, y, cs);
    CompareReorders(f, t, cs, false);
    CompareReorders(x, y, cs, false);
    CompareKeepsWeight(f, t, cs);
    if !r.same {
      SettlesSame(r.a, r.b, q.a, q.b, false, mode);
    }
  }

  /** What the comparison of a common member decides. */
  lemma SeenFolded(f: Json, t: Json, cs: bool)
    requires Comparable(f, false) && Comparable(t, false)
    ensures CompareJson(f, t, cs).same <==> FoldedAbs(f, cs) == FoldedAbs(t, cs)
  {
    ComparableAny(f, cs);
    ComparableAny(t, cs);
    CompareDecidesFolded(f, t, cs);
  }

  /** So a common member settles if it is equal, or is seen to differ with its keys folded and settles below. */
  lemma MemberSettlesByValue(f: Json, t: Json, cs: bool, mode: bool)
    requires Comparable(f, false) && Comparable(t, false)
    ensures MemberSettles(f, t, cs, mode) <==>
      Abs(f) == Abs(t) || (FoldedAbs(f, cs) != FoldedAbs(t, cs) && t != Null && Settles(f, t, false, mode))
  {
    var r := CompareJson(f, t, cs);
    SeenFolded(f, t, cs);
    CompareReorders(f, t, cs, false);
    SettlesSame(r.a, r.b, f, t, false, mode);
    if Abs(f) == Abs(t) {
      FoldedSame(f, t, cs);
    }
  }

  // ---------------------------------------------------------------- the results

  /**
   Generating a merge patch and merging it into the source reaches the target exactly under the condition, in
   every combination of case modes; without a patch the source is left as it is.
   */
  lemma MergeDiffThenMergeExactly(from: Json, to: Json, cs: bool, mode: bool)
    requires Comparable(from, mode) && Comparable(to, mode)
    ensures Abs(Outcome(from, from, to, cs, mode)) == Abs(to) <==> Settles(from, to, cs, mode)
  {
    MergesExactly(from, from, to, cs, mode);
  }

  /** Without upper-case letters in keys the condition says that the change can be expressed. */
  lemma LowerCaseIsExpressible(from: Json, to: Json, cs: bool)
    requires Good(from, false) && Good(to, false)
    ensures Settles(from, to, cs, cs) <==> Expressible(Some(Abs(from)), Abs(to))
  {
    ComparableAny(from, cs);
    ComparableAny(to, cs);
    MergesExactly(from, from, to, cs, cs);
    MergeDiffThenMerge(from, to, cs);
    if GenerateMergePatch(from, to, cs) == None {
      ExpressibleSame(Abs(to));
    }
  }

  lemma ExpressibleSame(v: Val)
    ensures Expressible(Some(v), v)
  {
  }

  /** Sorted ignoring case and walked by `strcmp`, `B` is set before it is removed. */
  lemma MixedCaseUnsettled(mode: bool)
    ensures var a, b := Member("a", True), Member("B", True); !Settles(Object([a, b]), Object([b]), false, mode)
  {
    var a, b := Member("a", True), Member("B", True);
    assert Lower("a") == "a" && Lower("B") == "b" && StrCmp("a", "b") < 0 && StrCmp("a", "B") > 0;
    assert StrictlySorted([a, b], KeyOf, false);
    assert SortMembers([a, b], false) == [a, b] && SortMembers([b], false) == [b];
    assert KeyIndex([a, b], "B", mode) == 1;
    assert !WalkSettles([a, b], [b], false, mode);
  }

  lemma SingleUnsettled(k: string, f: Json, t: Json, cs: bool, mode: bool)
    requires !MemberSettles(f, t, cs, mode)
    ensures !Settles(Object([Member(k, f)]), Object([Member(k, t)]), cs, mode)
  {
    var fs, ts := [Member(k, f)], [Member(k, t)];
    assert SortMembers(fs, cs) == fs && SortMembers(ts, cs) == ts;
    StrCmpZero(k, k);
    assert !WalkSettles(fs, ts, cs, mode);
  }

  lemma SingleComparable(k: string, v: Json, mode: bool)
    requires Comparable(v, mode)
    ensures Comparable(Object([Member(k, v)]), mode)
  {
  }

  /** A member that does not settle keeps the object that holds it from reaching its target. */
  lemma SingleLost(k: string, f: Json, t: Json, cs: bool, mode: bool)
    requires Comparable(f, mode) && Comparable(t, mode) && !MemberSettles(f, t, cs, mode)
    ensures var from, to := Object([Member(k, f)]), Object([Member(k, t)]);
      Abs(Outcome(from, from, to, cs, mode)) != Abs(to)
  {
    SingleUnsettled(k, f, t, cs, mode);
    SingleComparable(k, f, mode);
    SingleComparable(k, t, mode);
    MergesExactly(Object([Member(k, f)]), Object([Member(k, f)]), Object([Member(k, t)]), cs, mode);
  }

  lemma MixedCaseTrees()
    ensures var a, b := Member("a", True), Member("B", True);
      Comparable(Object([a, b]), false) && Comparable(Object([b]), false) && Abs(Object([a, b])) != Abs(Object([b]))
  {
    var a, b := Member("a", True), Member("B", True);
    assert Lower("a") == "a" && Lower("B") == "b";
    AbsObject([a, b]);
    AbsObject([b]);
    assert [a, b][0].key == "a" && "a" in Keys([a, b]) && "a" !in Keys([b]);
  }

  /** What the case-sensitive entry points lose: below the root they sort ignoring case. */
  lemma SensitiveLost()
    ensures var a, b := Member("a", True), Member("B", True);
      var from, to := Object([Member("x", Object([a, b]))]), Object([Member("x", Object([b]))]);
      Abs(Outcome(from, from, to, true, true)) != Abs(to)
  {
    MixedCaseUnsettled(true);
    MixedCaseTrees();
    var f, t := Object([Member("a", True), Member("B", True)]), Object([Member("B", True)]);
    ComparableAny(f, true);
    ComparableAny(t, true);
    MemberSettlesByValue(f, t, true, true);
    SingleLost("x", f, t, true, true);
  }

  // Two members whose keys differ in letter case only.

  const LITTLE := Member("a", True)
  const BIG := Member("A", False)
  const LITTLE_FIRST := Object([LITTLE, BIG])
  const BIG_FIRST := Object([BIG, LITTLE])

  lemma AlikeKeys()
    ensures CompareStrings("a", "A", false) == 0 && StrCmp("a", "A") > 0
    ensures SortMembers([LITTLE, BIG], false) == [BIG, LITTLE] && SortMembers([BIG, LITTLE], false) == [LITTLE, BIG]
    ensures Comparable(LITTLE_FIRST, true) && Comparable(BIG_FIRST, true)
  {
    assert Lower("a") == "a" && Lower("A") == "a";
    SwappedPair(LITTLE, BIG);
    SwappedPair(BIG, LITTLE);
  }

  /** The sort swaps two members with alike keys. */
  lemma SwappedPair(m: Member, n: Member)
    requires CompareStrings(m.key, n.key, false) == 0
    ensures SortMembers([m, n], false) == [n, m]
  {
    var s := [m, n];
    assert s[..1] == [m] && s[1..] == [n] && KeyOf(s[0]) == m.key && KeyOf(s[1]) == n.key;
    assert !StrictlySorted(s, KeyOf, false);
    assert Merge([m], [n], KeyOf, false) == [n] + Merge([m], [n][1..], KeyOf, false) == [n] + [m];
    assert Sort([m], KeyOf, false) == [m] && Sort([n], KeyOf, false) == [n];
  }

  /** The walk sets `A` and removes it after that. */
  lemma AlikeKeysUnsettled()
    ensures !Settles(BIG_FIRST, LITTLE_FIRST, false, true)
  {
    AlikeKeys();
    var fs, ts := [LITTLE, BIG], [BIG, LITTLE];
    assert KeyIndex(fs, "A", true) == 1;
    assert !WalkSettles(fs, ts, false, true);
  }

  /** The comparison, ignoring case as well, sees a difference between the two orders of the same object. */
  lemma AlikeKeysSeen()
    ensures !MemberSettles(LITTLE_FIRST, BIG_FIRST, false, true)
  {
    AlikeKeys();
    AlikeKeysUnsettled();
    var r := CompareMembers([BIG, LITTLE], [LITTLE, BIG], false);
    assert CompareJson(False, True, false) == Compared(false, False, True);
    assert r == ComparedMembers(false, [BIG] + [LITTLE], [LITTLE] + [BIG]);
    assert CompareJson(LITTLE_FIRST, BIG_FIRST, false) == Compared(false, BIG_FIRST, LITTLE_FIRST);
  }

  /** One level up, with a member in front of it that differs, so that comparing the two stops before it. */
  function Around(w: Json, y: Json): Json {
    Object([Member("w", w), Member("y", y)])
  }

  lemma AroundSorted(w: Json, y: Json, cs: bool)
    ensures SortMembers(Around(w, y).members, cs) == Around(w, y).members
  {
    assert Lower("w") == "w" && Lower("y") == "y" && StrCmp("w", "y") < 0;
    assert StrictlySorted(Around(w, y).members, KeyOf, cs);
  }

  lemma AroundUnsettled()
    ensures !MemberSettles(Around(True, LITTLE_FIRST), Around(False, BIG_FIRST), true, true)
  {
    var f, t := Around(True, LITTLE_FIRST), Around(False, BIG_FIRST);
    var fs, ts := f.members, t.members;
    AroundSorted(True, LITTLE_FIRST, true);
    AroundSorted(False, BIG_FIRST, true);
    AroundSorted(True, LITTLE_FIRST, false);
    AroundSorted(False, BIG_FIRST, false);
    StrCmpZero("w", "w");
    StrCmpZero("y", "y");
    CompareStops(fs, ts);
    AlikeKeysSeen();
    assert !WalkSettles(fs[1..], ts[1..], false, true);
    assert !WalkSettles(fs, ts, false, true);
  }

  lemma CompareStops(fs: seq<Member>, ts: seq<Member>)
    requires fs != [] && ts != [] && fs[0] == Member("w", True) && ts[0] == Member("w", False)
    ensures CompareMembers(fs, ts, true) == ComparedMembers(false, fs, ts)
  {
    StrCmpZero("w", "w");
    assert CompareJson(True, False, true) == Compared(false, True, False);
    HeadTail(fs);
    HeadTail(ts);
  }

  /**
   With keys that differ in case only the case-sensitive entry points can lose a member of an object that is
   the same in source and target, but for the order of its members, when another member next to it changes.
   */
  lemma AlikeKeysLost()
    ensures var from := Object([Member("x", Around(True, LITTLE_FIRST))]);
      var to := Object([Member("x", Around(False, BIG_FIRST))]);
      Abs(LITTLE_FIRST) == Abs(BIG_FIRST) && Abs(Outcome(from, from, to, true, true)) != Abs(to)
  {
    AlikeKeys();
    PermutedFields([LITTLE, BIG], [BIG, LITTLE]);
    AbsObject([LITTLE, BIG]);
    AbsObject([BIG, LITTLE]);
    AroundUnsettled();
    AroundComparable(True, LITTLE_FIRST);
    AroundComparable(False, BIG_FIRST);
    SingleLost("x", Around(True, LITTLE_FIRST), Around(False, BIG_FIRST), true, true);
  }

  lemma AroundComparable(w: Json, y: Json)
    requires Comparable(w, true) && Comparable(y, true)
    ensures Comparable(Around(w, y), true)
  {
    assert "w"[0] != "y"[0];
  }
}
