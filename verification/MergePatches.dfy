/**
 JSON Merge Patch (RFC 7396): `merge_patch` and `generate_merge_patch` on trees, the function of section 2
 of the RFC on values, and how they agree.
 */
module MergePatches {
  import opened CStrings
  import opened Sorting
  import opened JsonValues
  import opened Seqs
  import opened Compare
  import opened MemberLists

  // ---------------------------------------------------------------- the code

  /** The members after a member with this key, if there is one, has been taken out. */
  function Without(ms: seq<Member>, k: string, cs: bool): seq<Member> {
    var i := KeyIndex(ms, k, cs);
    if i == -1 then ms else RemoveIndex(ms, i)
  }

  function ValueOf(ms: seq<Member>, k: string, cs: bool): Option<Json> {
    var i := KeyIndex(ms, k, cs);
    if i == -1 then None else Some(ms[i].value)
  }

  /** `merge_patch` with a patch; a target that is absent or no object counts as an empty object. */
  function MergePatch(target: Option<Json>, patch: Json, cs: bool): Json
    decreases patch
  {
    if !patch.Object? then patch
    else Object(MergeMembers(TargetMembers(target), patch.members, cs))
  }

  function TargetMembers(target: Option<Json>): seq<Member> {
    if target.Some? && target.value.Object? then target.value.members else []
  }

  function MergeMembers(ms: seq<Member>, patch: seq<Member>, cs: bool): seq<Member>
    decreases patch
  {
    if patch == [] then ms else MergeMembers(MergeMember(ms, patch[0], cs), patch[1..], cs)
  }

  /** One member of the patch: null removes, anything else is merged and moved to the end. */
  function MergeMember(ms: seq<Member>, p: Member, cs: bool): seq<Member>
    decreases p
  {
    if p.value.Null? then Without(ms, p.key, cs)
    else Without(ms, p.key, cs) + [Member(p.key, MergePatch(ValueOf(ms, p.key, cs), p.value, cs))]
  }

  method MergePatchLoop(target: Option<Json>, patch: Json, cs: bool) returns (r: Json)
    ensures r == MergePatch(target, patch, cs)
    decreases patch
  {
    if !patch.Object? {
      return patch;
    }
    var ms := TargetMembers(target);
    ghost var all := MergeMembers(ms, patch.members, cs);
    var i := 0;
    assert patch.members[0..] == patch.members;
    while i < |patch.members|
      invariant 0 <= i <= |patch.members|
      invariant all == MergeMembers(ms, patch.members[i..], cs)
    {
      var p := patch.members[i];
      assert patch.members[i..][0] == p && patch.members[i..][1..] == patch.members[i + 1..];
      if p.value.Null? {
        ms := Without(ms, p.key, cs);
      } else {
        var replacement := MergePatchLoop(ValueOf(ms, p.key, cs), p.value, cs);
        ms := Without(ms, p.key, cs) + [Member(p.key, replacement)];
      }
      i := i + 1;
    }
    return Object(ms);
  }

  lemma SortedLighter(j: Json, cs: bool)
    requires j.Object?
    ensures MembersWeight(SortMembers(j.members, cs)) < Weight(j)
  {
    assert j == Object(j.members);
  }

  /** `generate_merge_patch`; comparing sorts the children, and nested patches always ignore case. */
  function GenerateMergePatch(from: Json, to: Json, cs: bool): Option<Json>
    decreases Weight(from), 0, 0
  {
    if !to.Object? || !from.Object? then Some(to)
    else
      SortedLighter(from, cs);
      var ms := GenerateMembers(SortMembers(from.members, cs), SortMembers(to.members, cs), cs);
      if ms == [] then None else Some(Object(ms))
  }

  function GenerateMembers(from: seq<Member>, to: seq<Member>, cs: bool): seq<Member>
    decreases MembersWeight(from), 1, |from| + |to|
  {
    if from == [] && to == [] then []
    else
      var diff := StrictOrder(from, to);
      if diff < 0 then [Member(from[0].key, Null)] + GenerateMembers(from[1..], to, cs)
      else if diff > 0 then [to[0]] + GenerateMembers(from, to[1..], cs)
      else GenerateMember(from[0], to[0], cs) + GenerateMembers(from[1..], to[1..], cs)
  }

  /** The two lists are walked by `strcmp`, whatever order they were sorted in. */
  function StrictOrder(from: seq<Member>, to: seq<Member>): (d: int)
    requires from != [] || to != []
    ensures from == [] ==> d > 0
    ensures to == [] ==> d < 0
  {
    if from == [] then 1 else if to == [] then -1 else StrCmp(from[0].key, to[0].key)
  }

  function GenerateMember(f: Member, t: Member, cs: bool): seq<Member>
    decreases Weight(f.value), 1, 0
  {
    var c := CompareJson(f.value, t.value, cs);
    if c.same then []
    else
      CompareKeepsWeight(f.value, t.value, cs);
      match GenerateMergePatch(c.a, c.b, false)
      case None => []
      case Some(p) => [Member(t.key, p)]
  }

  lemma {:induction false} CompareKeepsWeight(a: Json, b: Json, cs: bool)
    ensures Weight(CompareJson(a, b, cs).a) == Weight(a)
    decreases Weight(a), 0, 0
  {
    if SameType(a, b) && a.Array? {
      CompareItemsKeepsWeight(a.items, b.items, cs);
    } else if SameType(a, b) && a.Object? {
      CompareMembersKeepsWeight(SortMembers(a.members, cs), SortMembers(b.members, cs), cs);
    }
  }

  lemma {:induction false} CompareItemsKeepsWeight(xs: seq<Json>, ys: seq<Json>, cs: bool)
    ensures ItemsWeight(CompareItems(xs, ys, cs).xs) == ItemsWeight(xs)
    decreases ItemsWeight(xs), 1, |xs|
  {
    if xs != [] && ys != [] {
      CompareKeepsWeight(xs[0], ys[0], cs);
      var h := CompareJson(xs[0], ys[0], cs);
      if h.same {
        CompareItemsKeepsWeight(xs[1..], ys[1..], cs);
        ConsTail(h.a, CompareItems(xs[1..], ys[1..], cs).xs);
      } else {
        ConsTail(h.a, xs[1..]);
      }
    }
  }

  lemma {:induction false} CompareMembersKeepsWeight(xs: seq<Member>, ys: seq<Member>, cs: bool)
    ensures MembersWeight(CompareMembers(xs, ys, cs).xs) == MembersWeight(xs)
    decreases MembersWeight(xs), 1, |xs|
  {
    if xs != [] && ys != [] && CompareStrings(xs[0].key, ys[0].key, cs) == 0 {
      CompareKeepsWeight(xs[0].value, ys[0].value, cs);
      var h := CompareJson(xs[0].value, ys[0].value, cs);
      if h.same {
        CompareMembersKeepsWeight(xs[1..], ys[1..], cs);
        ConsWeight(Member(xs[0].key, h.a), CompareMembers(xs[1..], ys[1..], cs).xs);
      } else {
        ConsWeight(Member(xs[0].key, h.a), xs[1..]);
      }
    }
  }

  /** Two trees, or two lists of members, as `generate_merge_patch` leaves them: what it walks through is sorted. */
  datatype LeftTrees = LeftTrees(from: Json, to: Json)
  datatype LeftLists = LeftLists(from: seq<Member>, to: seq<Member>)

  function LeftByMerge(from: Json, to: Json, cs: bool): LeftTrees
    decreases Weight(from), 0, 0
  {
    if !to.Object? || !from.Object? then LeftTrees(from, to)
    else
      SortedLighter(from, cs);
      var r := LeftByMembers(SortMembers(from.members, cs), SortMembers(to.members, cs), cs);
      LeftTrees(Object(r.from), Object(r.to))
  }

  function LeftByMembers(from: seq<Member>, to: seq<Member>, cs: bool): LeftLists
    decreases MembersWeight(from), 1, |from| + |to|
  {
    if from == [] && to == [] then LeftLists([], [])
    else
      var diff := StrictOrder(from, to);
      if diff < 0 then AfterLists([from[0]], [], LeftByMembers(from[1..], to, cs))
      else if diff > 0 then AfterLists([], [to[0]], LeftByMembers(from, to[1..], cs))
      else
        var r := LeftByMember(from[0].value, to[0].value, cs);
        AfterLists([Member(from[0].key, r.from)], [Member(to[0].key, r.to)], LeftByMembers(from[1..], to[1..], cs))
  }

  function AfterLists(from: seq<Member>, to: seq<Member>, r: LeftLists): LeftLists {
    LeftLists(from + r.from, to + r.to)
  }

  /** The values of a common member: sorted by comparing them, and where they differ by generating. */
  function LeftByMember(f: Json, t: Json, cs: bool): LeftTrees
    decreases Weight(f), 1, 0
  {
    var c := CompareJson(f, t, cs);
    if c.same then LeftTrees(c.a, c.b)
    else
      CompareKeepsWeight(f, t, cs);
      LeftByMerge(c.a, c.b, false)
  }

  lemma AfterNothing(r: LeftLists)
    ensures AfterLists([], [], r) == r
  {
    AppendNothing(r.from);
    AppendNothing(r.to);
  }

  lemma AfterTwice(a: seq<Member>, b: seq<Member>, c: seq<Member>, d: seq<Member>, r: LeftLists)
    ensures AfterLists(a, b, AfterLists(c, d, r)) == AfterLists(a + c, b + d, r)
  {
    AppendAssociates(a, c, r.from);
    AppendAssociates(b, d, r.to);
  }

  method GenerateMergePatchLoop(from: Json, to: Json, cs: bool) returns (r: Option<Json>, left: LeftTrees)
    ensures r == GenerateMergePatch(from, to, cs) && left == LeftByMerge(from, to, cs)
    decreases Weight(from), 0
  {
    if !to.Object? || !from.Object? {
      return Some(to), LeftTrees(from, to);
    }
    SortedLighter(from, cs);
    var patch, lists := GenerateMembersLoop(SortMembers(from.members, cs), SortMembers(to.members, cs), cs);
    r := if patch == [] then None else Some(Object(patch));
    left := LeftTrees(Object(lists.from), Object(lists.to));
  }

  /** The walk over the two sorted lists. */
  method GenerateMembersLoop(from: seq<Member>, to: seq<Member>, cs: bool)
    returns (patch: seq<Member>, left: LeftLists)
    ensures patch == GenerateMembers(from, to, cs) && left == LeftByMembers(from, to, cs)
    decreases MembersWeight(from), 2
  {
    var fs, ts, doneFrom, doneTo := from, to, [], [];
    patch := [];
    AppendNothing(GenerateMembers(from, to, cs));
    AfterNothing(LeftByMembers(from, to, cs));
    while fs != [] || ts != []
      invariant MembersWeight(fs) <= MembersWeight(from)
      invariant GenerateMembers(from, to, cs) == patch + GenerateMembers(fs, ts, cs)
      invariant LeftByMembers(from, to, cs) == AfterLists(doneFrom, doneTo, LeftByMembers(fs, ts, cs))
      decreases |fs| + |ts|
    {
      var diff := StrictOrder(fs, ts);
      var one, f, t := [], [], [];
      if diff < 0 {
        one, f := [Member(fs[0].key, Null)], [fs[0]];
      } else if diff > 0 {
        one, t := [ts[0]], [ts[0]];
      } else {
        var values;
        one, values := GenerateMemberStep(fs[0], ts[0], cs);
        f, t := [Member(fs[0].key, values.from)], [Member(ts[0].key, values.to)];
      }
      ghost var gs, us := if diff <= 0 then fs[1..] else fs, if diff >= 0 then ts[1..] else ts;
      AppendAssociates(patch, one, GenerateMembers(gs, us, cs));
      AfterTwice(doneFrom, doneTo, f, t, LeftByMembers(gs, us, cs));
      patch, doneFrom, doneTo := patch + one, doneFrom + f, doneTo + t;
      fs, ts := if diff <= 0 then fs[1..] else fs, if diff >= 0 then ts[1..] else ts;
    }
    AppendNothing(patch);
    AfterLast(doneFrom, doneTo);
    left := LeftLists(doneFrom, doneTo);
  }

  lemma AfterLast(a: seq<Member>, b: seq<Member>)
    ensures AfterLists(a, b, LeftLists([], [])) == LeftLists(a, b)
  {
    AppendNothing(a);
    AppendNothing(b);
  }

  /** One common member: compared, and where it differs descended into. */
  method GenerateMemberStep(f: Member, t: Member, cs: bool) returns (one: seq<Member>, left: LeftTrees)
    ensures one == GenerateMember(f, t, cs) && left == LeftByMember(f.value, t.value, cs)
    decreases Weight(f.value), 1
  {
    var c := CompareJsonLoop(f.value, t.value, cs);
    if c.same {
      return [], LeftTrees(c.a, c.b);
    }
    CompareKeepsWeight(f.value, t.value, cs);
    var p;
    p, left := GenerateMergePatchLoop(c.a, c.b, false);
    one := if p.Some? then [Member(t.key, p.value)] else [];
  }

  // ---------------------------------------------------------------- RFC 7396, section 2

  function FieldsOf(v: Option<Val>): map<string, Val> {
    if v.Some? && v.value.VObject? then v.value.fields else map[]
  }

  function Get(m: map<string, Val>, k: string): Option<Val> {
    if k in m then Some(m[k]) else None
  }

  function Rfc(target: Option<Val>, patch: Val): Val
    decreases patch
  {
    match patch
    case VObject(pm) =>
      var tm := FieldsOf(target);
      VObject(map k | k in tm.Keys + pm.Keys && (k in pm ==> pm[k] != VNull) ::
        if k in pm then Rfc(Get(tm, k), pm[k]) else tm[k])
    case _ => patch
  }

  function RfcFields(tm: map<string, Val>, pm: map<string, Val>): (r: map<string, Val>)
    ensures forall k :: k in r <==> (k in tm || k in pm) && (k in pm ==> pm[k] != VNull)
    ensures forall k :: k in r ==> r[k] == if k in pm then Rfc(Get(tm, k), pm[k]) else tm[k]
  {
    map k | k in tm.Keys + pm.Keys && (k in pm ==> pm[k] != VNull) ::
      if k in pm then Rfc(Get(tm, k), pm[k]) else tm[k]
  }

  lemma RfcObject(target: Option<Val>, pm: map<string, Val>)
    ensures Rfc(target, VObject(pm)) == VObject(RfcFields(FieldsOf(target), pm))
  {
  }

  /** Merging the same patch a second time changes nothing. */
  lemma {:induction false} RfcIdempotent(target: Option<Val>, patch: Val)
    ensures Rfc(Some(Rfc(target, patch)), patch) == Rfc(target, patch)
    decreases patch
  {
    if patch.VObject? {
      var pm := patch.fields;
      var r := RfcFields(FieldsOf(target), pm);
      RfcObject(target, pm);
      RfcObject(Some(VObject(r)), pm);
      forall k | k in pm && pm[k] != VNull
        ensures Rfc(Get(r, k), pm[k]) == r[k]
      {
        RfcIdempotent(Get(FieldsOf(target), k), pm[k]);
      }
      assert RfcFields(r, pm) == r;
    }
  }

  // ---------------------------------------------------------------- merging computes the RFC function

  function AbsOption(j: Option<Json>): Option<Val> {
    if j == None then None else Some(Abs(j.value))
  }

  predicate GoodOption(j: Option<Json>, cs: bool) {
    j.Some? ==> Good(j.value, cs)
  }

  /** What the merge loop keeps true of a member list. */
  predicate GoodList(ms: seq<Member>, cs: bool) {
    UniqueKeys(ms) && GoodMembers(ms, cs)
  }

  lemma GoodObject(ms: seq<Member>, cs: bool)
    ensures Good(Object(ms), cs) <==> GoodList(ms, cs)
  {
    if GoodList(ms, cs) {
      forall i, j | 0 <= i < j < |ms|
        ensures Fold(ms[i].key, cs) != Fold(ms[j].key, cs)
      {
      }
      assert DistinctUnder(ms, cs);
      assert forall i :: 0 <= i < |ms| ==> Comparable(ms[i].value, cs) && CaseIsSettled(ms[i].value, cs);
    }
    if Good(Object(ms), cs) {
      assert forall i :: 0 <= i < |ms| ==> Comparable(ms[i].value, cs) && CaseIsSettled(ms[i].value, cs);
    }
  }

  lemma SettledIndex(ms: seq<Member>, k: string, cs: bool)
    requires GoodList(ms, cs) && Fold(k, cs) == k
    ensures KeyIndex(ms, k, cs) == IndexOf(ms, k)
  {
    var i, j := KeyIndex(ms, k, cs), IndexOf(ms, k);
    if i != -1 {
      assert ms[i].key == Fold(ms[i].key, cs) == k;
      assert ms[i].key in Keys(ms);
    }
  }

  lemma RemovedGood(ms: seq<Member>, i: nat, cs: bool)
    requires GoodList(ms, cs) && i < |ms|
    ensures GoodList(RemoveIndex(ms, i), cs)
  {
    RemovedKeys(ms, i);
    forall x | 0 <= x < |ms| - 1
      ensures Fold(RemoveIndex(ms, i)[x].key, cs) == RemoveIndex(ms, i)[x].key && Good(RemoveIndex(ms, i)[x].value, cs)
    {
      RemovedAt(ms, i, x);
    }
  }

  lemma WithoutFields(ms: seq<Member>, k: string, cs: bool)
    requires GoodList(ms, cs) && Fold(k, cs) == k
    ensures GoodList(Without(ms, k, cs), cs) && Fields(Without(ms, k, cs)) == Fields(ms) - {k}
  {
    SettledIndex(ms, k, cs);
    var i := IndexOf(ms, k);
    if i == -1 {
      NothingDropped(Fields(ms), k);
    } else {
      RemovedFields(ms, i);
      RemovedGood(ms, i, cs);
    }
  }

  lemma NothingDropped(m: map<string, Val>, k: string)
    requires k !in m
    ensures m - {k} == m
  {
  }

  lemma ValueOfField(ms: seq<Member>, k: string, cs: bool)
    requires GoodList(ms, cs) && Fold(k, cs) == k
    ensures AbsOption(ValueOf(ms, k, cs)) == Get(Fields(ms), k) && GoodOption(ValueOf(ms, k, cs), cs)
  {
    SettledIndex(ms, k, cs);
    if k in Keys(ms) {
      FieldOf(ms, IndexOf(ms, k));
    }
  }

  lemma {:induction false} MergeComputesRfc(target: Option<Json>, patch: Json, cs: bool)
    requires GoodOption(target, cs) && Good(patch, cs)
    ensures Abs(MergePatch(target, patch, cs)) == Rfc(AbsOption(target), Abs(patch))
    ensures Good(MergePatch(target, patch, cs), cs)
    decreases patch
  {
    if patch.Object? {
      var ms := TargetMembers(target);
      TargetFields(target, cs);
      GoodObject(patch.members, cs);
      MergeMembersFields(ms, patch.members, cs);
      var r := MergeMembers(ms, patch.members, cs);
      GoodObject(r, cs);
      AbsObject(patch.members);
      AbsObject(r);
      RfcObject(AbsOption(target), Fields(patch.members));
    }
  }

  lemma TargetFields(target: Option<Json>, cs: bool)
    requires GoodOption(target, cs)
    ensures GoodList(TargetMembers(target), cs) && Fields(TargetMembers(target)) == FieldsOf(AbsOption(target))
  {
    var ms := TargetMembers(target);
    if target.Some? && target.value.Object? {
      GoodObject(ms, cs);
      AbsObject(ms);
    } else {
      EmptyFields(ms);
    }
  }

  lemma {:induction false} MergeMembersFields(ms: seq<Member>, patch: seq<Member>, cs: bool)
    requires GoodList(ms, cs) && GoodList(patch, cs)
    ensures GoodList(MergeMembers(ms, patch, cs), cs)
    ensures Fields(MergeMembers(ms, patch, cs)) == RfcFields(Fields(ms), Fields(patch))
    decreases patch
  {
    if patch == [] {
      EmptyFields(patch);
      assert RfcFields(Fields(ms), map[]) == Fields(ms);
    } else {
      var p, rest := patch[0], patch[1..];
      MergeMemberFields(ms, p, cs);
      MergeMembersFields(MergeMember(ms, p, cs), rest, cs);
      HeadTail(patch);
      FieldsCons(p, rest);
      FirstKeyOnce(patch);
      RfcFieldsStep(Fields(ms), Fields(rest), p.key, Abs(p.value));
    }
  }

  /** The effect of one patch member on the values by key. */
  function RfcStep(tm: map<string, Val>, k: string, v: Val): map<string, Val> {
    if v == VNull then tm - {k} else tm[k := Rfc(Get(tm, k), v)]
  }

  lemma MergeMemberFields(ms: seq<Member>, p: Member, cs: bool)
    requires GoodList(ms, cs) && Fold(p.key, cs) == p.key && Good(p.value, cs)
    ensures GoodList(MergeMember(ms, p, cs), cs)
    ensures Fields(MergeMember(ms, p, cs)) == RfcStep(Fields(ms), p.key, Abs(p.value))
    decreases p
  {
    WithoutFields(ms, p.key, cs);
    ValueOfField(ms, p.key, cs);
    if !p.value.Null? {
      var rest, target := Without(ms, p.key, cs), ValueOf(ms, p.key, cs);
      MergeComputesRfc(target, p.value, cs);
      assert p.key !in Fields(rest).Keys;
      AppendedGood(rest, Member(p.key, MergePatch(target, p.value, cs)), cs);
      PutBack(Fields(ms), p.key, Rfc(Get(Fields(ms), p.key), Abs(p.value)));
    }
  }

  lemma AppendedGood(ms: seq<Member>, m: Member, cs: bool)
    requires GoodList(ms, cs) && m.key !in Keys(ms) && Fold(m.key, cs) == m.key && Good(m.value, cs)
    ensures GoodList(ms + [m], cs) && Fields(ms + [m]) == Fields(ms)[m.key := Abs(m.value)]
  {
    assert m == Member(m.key, m.value);
    AppendedFields(ms, m.key, m.value);
  }

  lemma RfcFieldsStep(tm: map<string, Val>, pm: map<string, Val>, k: string, v: Val)
    requires k !in pm
    ensures RfcFields(RfcStep(tm, k, v), pm) == RfcFields(tm, pm[k := v])
  {
    var a, b := RfcFields(RfcStep(tm, k, v), pm), RfcFields(tm, pm[k := v]);
    RfcStepKeys(tm, pm, k, v);
    forall x | x in a
      ensures a[x] == b[x]
    {
      assert Get(RfcStep(tm, k, v), x) ==
        if x != k then Get(tm, x) else if v == VNull then None else Some(Rfc(Get(tm, k), v));
    }
  }

  lemma RfcStepKeys(tm: map<string, Val>, pm: map<string, Val>, k: string, v: Val)
    requires k !in pm
    ensures RfcFields(RfcStep(tm, k, v), pm).Keys == RfcFields(tm, pm[k := v]).Keys
  {
  }

  // ---------------------------------------------------------------- the generated patch, on values

  function GenVal(f: Val, t: Val): (r: Option<Val>)
    ensures r == None <==> f == t && t.VObject?
    decreases f
  {
    if !t.VObject? || !f.VObject? then Some(t)
    else
      var fm, tm := f.fields, t.fields;
      var gm := map k | k in fm.Keys + tm.Keys && !(k in fm && k in tm && fm[k] == tm[k]) ::
        if k !in tm then VNull else if k !in fm then tm[k] else GenVal(fm[k], tm[k]).value;
      assert gm == map[] ==> fm == tm by {
        if gm == map[] {
          assert forall k :: k in fm.Keys + tm.Keys ==> k in fm && k in tm && fm[k] == tm[k] by {
            assert forall k :: k in gm.Keys <==> k in fm.Keys + tm.Keys && !(k in fm && k in tm && fm[k] == tm[k]);
          }
        }
      }
      if gm == map[] then None else Some(VObject(gm))
  }

  function GenFields(fm: map<string, Val>, tm: map<string, Val>): (r: map<string, Val>)
    ensures forall k :: k in r <==> (k in fm || k in tm) && !(k in fm && k in tm && fm[k] == tm[k])
    ensures forall k :: k in r ==>
      r[k] == if k !in tm then VNull else if k !in fm then tm[k] else GenVal(fm[k], tm[k]).value
  {
    map k | k in fm.Keys + tm.Keys && !(k in fm && k in tm && fm[k] == tm[k]) ::
      if k !in tm then VNull else if k !in fm then tm[k] else GenVal(fm[k], tm[k]).value
  }

  lemma GenObjects(fm: map<string, Val>, tm: map<string, Val>)
    ensures GenVal(VObject(fm), VObject(tm)) ==
      if GenFields(fm, tm) == map[] then None else Some(VObject(GenFields(fm, tm)))
  {
  }

  /**
   When a merge patch can express the change: every null member of the target that is reachable through
   objects only, and every object that holds one, is already there unchanged.
   */
  predicate Expressible(f: Option<Val>, t: Val)
    decreases t
  {
    t.VObject? ==>
      forall k :: k in t.fields ==>
        (k in FieldsOf(f) && FieldsOf(f)[k] == t.fields[k]) ||
        (t.fields[k] != VNull && Expressible(Get(FieldsOf(f), k), t.fields[k]))
  }

  /** No null member can be reached through objects only. */
  predicate NoNullMembers(v: Val) {
    v.VObject? ==> forall k :: k in v.fields ==> v.fields[k] != VNull && NoNullMembers(v.fields[k])
  }

  lemma {:induction false} NoNullsExpressible(f: Option<Val>, t: Val)
    requires NoNullMembers(t)
    ensures Expressible(f, t)
    decreases t
  {
    if t.VObject? {
      forall k | k in t.fields
        ensures Expressible(Get(FieldsOf(f), k), t.fields[k])
      {
        NoNullsExpressible(Get(FieldsOf(f), k), t.fields[k]);
      }
    }
  }

  /** Merging a value into nothing, or into something that is no object, drops its null members. */
  lemma {:induction false} MergeIntoNothing(f: Option<Val>, t: Val)
    requires FieldsOf(f) == map[]
    ensures Rfc(f, t) == t <==> Expressible(f, t)
    decreases t
  {
    if t.VObject? {
      var tm := t.fields;
      RfcObject(f, tm);
      forall k | k in tm
        ensures Rfc(None, tm[k]) == tm[k] <==> Expressible(None, tm[k])
      {
        MergeIntoNothing(None, tm[k]);
      }
      SameFields(RfcFields(map[], tm), tm);
    }
  }

  lemma SameFields(r: map<string, Val>, t: map<string, Val>)
    ensures r == t <==> (forall k :: k in r <==> k in t) && forall k :: k in r && k in t ==> r[k] == t[k]
  {
    if (forall k :: k in r <==> k in t) && forall k :: k in r && k in t ==> r[k] == t[k] {
      assert r.Keys == t.Keys;
    }
  }

  /** Exactly when generating a merge patch and merging it reaches the target. */
  lemma {:induction false} GeneratedReaches(f: Val, t: Val)
    requires GenVal(f, t) != None
    ensures Rfc(Some(f), GenVal(f, t).value) == t <==> Expressible(Some(f), t)
    decreases f
  {
    if !t.VObject? {
    } else if !f.VObject? {
      MergeIntoNothing(Some(f), t);
    } else {
      var fm, tm := f.fields, t.fields;
      var gm := GenFields(fm, tm);
      GenObjects(fm, tm);
      RfcObject(Some(f), gm);
      var r := RfcFields(fm, gm);
      forall k | k in fm && k in tm && fm[k] != tm[k]
        ensures gm[k] != VNull ==> (r[k] == tm[k] <==> Expressible(Some(fm[k]), tm[k]))
        ensures gm[k] == VNull <==> tm[k] == VNull
      {
        GeneratedReaches(fm[k], tm[k]);
      }
      forall k | k in tm && k !in fm && tm[k] != VNull
        ensures r[k] == tm[k] <==> Expressible(None, tm[k])
      {
        MergeIntoNothing(None, tm[k]);
      }
      SameFields(r, tm);
    }
  }

  // ---------------------------------------------------------------- the generated patch, on trees

  /** No key in the tree holds an upper-case letter, and keys are unique: both case modes then agree. */
  lemma {:induction false} LowerCaseSettles(j: Json, cs: bool)
    requires Good(j, false)
    ensures Good(j, cs)
    decreases j
  {
    match j
    case Array(items) =>
      forall i | 0 <= i < |items|
        ensures Comparable(items[i], cs) && CaseIsSettled(items[i], cs)
      {
        LowerCaseSettles(items[i], cs);
      }
    case Object(ms) =>
      forall i | 0 <= i < |ms|
        ensures Comparable(ms[i].value, cs) && CaseIsSettled(ms[i].value, cs)
      {
        LowerCaseSettles(ms[i].value, cs);
      }
    case _ =>
  }

  lemma SortedGoodList(ms: seq<Member>, cs: bool, mode: bool)
    requires GoodList(ms, mode)
    ensures GoodList(SortMembers(ms, cs), mode)
  {
    var r := SortMembers(ms, cs);
    SortPermutes(ms, KeyOf, cs);
    PermutedUnique(ms, r);
    SameMembers(r, ms);
    forall i | 0 <= i < |r|
      ensures Fold(r[i].key, mode) == r[i].key && Good(r[i].value, mode)
    {
      assert r[i] in ms;
    }
  }

  /** Comparing in either case mode leaves good trees good. */
  lemma {:induction false} CompareKeepsGood(a: Json, b: Json, cs: bool, mode: bool)
    requires Good(a, mode) && Good(b, mode)
    ensures Good(CompareJson(a, b, cs).a, mode) && Good(CompareJson(a, b, cs).b, mode)
    decreases Weight(a), 0, 0
  {
    if SameType(a, b) && a.Array? {
      CompareItemsKeepsGood(a.items, b.items, cs, mode);
    } else if SameType(a, b) && a.Object? {
      var xs, ys := SortMembers(a.members, cs), SortMembers(b.members, cs);
      GoodObject(a.members, mode);
      GoodObject(b.members, mode);
      SortedGoodList(a.members, cs, mode);
      SortedGoodList(b.members, cs, mode);
      CompareMembersKeepsGood(xs, ys, cs, mode);
      GoodObject(CompareMembers(xs, ys, cs).xs, mode);
      GoodObject(CompareMembers(xs, ys, cs).ys, mode);
    }
  }

  lemma {:induction false} CompareItemsKeepsGood(xs: seq<Json>, ys: seq<Json>, cs: bool, mode: bool)
    requires GoodItems(xs, mode) && GoodItems(ys, mode)
    ensures GoodItems(CompareItems(xs, ys, cs).xs, mode) && GoodItems(CompareItems(xs, ys, cs).ys, mode)
    decreases ItemsWeight(xs), 1, |xs|
  {
    if xs != [] && ys != [] {
      CompareKeepsGood(xs[0], ys[0], cs, mode);
      if CompareJson(xs[0], ys[0], cs).same {
        CompareItemsKeepsGood(xs[1..], ys[1..], cs, mode);
      }
    }
  }

  lemma {:induction false} CompareMembersKeepsGood(xs: seq<Member>, ys: seq<Member>, cs: bool, mode: bool)
    requires GoodList(xs, mode) && GoodList(ys, mode)
    ensures var r := CompareMembers(xs, ys, cs);
      GoodList(r.xs, mode) && GoodList(r.ys, mode) && SameKeys(r.xs, xs) && SameKeys(r.ys, ys)
    decreases MembersWeight(xs), 1, |xs|
  {
    if xs != [] && ys != [] && CompareStrings(xs[0].key, ys[0].key, cs) == 0 {
      CompareKeepsGood(xs[0].value, ys[0].value, cs, mode);
      var h := CompareJson(xs[0].value, ys[0].value, cs);
      var xt, yt := xs[1..], ys[1..];
      GoodTail(xs, mode);
      GoodTail(ys, mode);
      if h.same {
        CompareMembersKeepsGood(xt, yt, cs, mode);
        var t := CompareMembers(xt, yt, cs);
        xt, yt := t.xs, t.ys;
      }
      GoodCons(xs, Member(xs[0].key, h.a), xt, mode);
      GoodCons(ys, Member(ys[0].key, h.b), yt, mode);
    }
  }

  predicate SameKeys(xs: seq<Member>, ys: seq<Member>) {
    |xs| == |ys| && forall i :: 0 <= i < |xs| ==> xs[i].key == ys[i].key
  }

  lemma GoodTail(xs: seq<Member>, cs: bool)
    requires GoodList(xs, cs) && xs != []
    ensures GoodList(xs[1..], cs)
  {
    assert forall i :: 0 <= i < |xs[1..]| ==> xs[1..][i] == xs[i + 1];
  }

  lemma GoodCons(xs: seq<Member>, x: Member, xt: seq<Member>, cs: bool)
    requires GoodList(xs, cs) && xs != [] && x.key == xs[0].key && Good(x.value, cs)
    requires GoodList(xt, cs) && SameKeys(xt, xs[1..])
    ensures GoodList([x] + xt, cs) && SameKeys([x] + xt, xs)
  {
    var r := [x] + xt;
    forall i | 0 <= i < |r|
      ensures r[i].key == xs[i].key
    {
      assert i > 0 ==> r[i] == xt[i - 1] && xs[1..][i - 1] == xs[i];
    }
  }

  /** The generator on trees computes the generator on values. */
  lemma {:induction false} GenerateComputes(from: Json, to: Json, cs: bool)
    requires Good(from, false) && Good(to, false)
    ensures AbsOption(GenerateMergePatch(from, to, cs)) == GenVal(Abs(from), Abs(to))
    ensures GoodOption(GenerateMergePatch(from, to, cs), false)
    decreases Weight(from), 0, 0
  {
    if to.Object? && from.Object? {
      LowerCaseSettles(from, cs);
      LowerCaseSettles(to, cs);
      var fs, ts := SortMembers(from.members, cs), SortMembers(to.members, cs);
      SortedGood(from.members, cs);
      SortedGood(to.members, cs);
      GoodObject(from.members, false);
      GoodObject(to.members, false);
      SortedGoodList(from.members, cs, false);
      SortedGoodList(to.members, cs, false);
      GenerateMembersComputes(fs, ts, cs);
      var ms := GenerateMembers(fs, ts, cs);
      AbsObject(from.members);
      AbsObject(to.members);
      AbsObject(ms);
      EmptyFields(ms);
      GenObjects(Fields(fs), Fields(ts));
      GoodObject(ms, false);
    }
  }

  lemma {:induction false} GenerateMembersComputes(fs: seq<Member>, ts: seq<Member>, cs: bool)
    requires GoodMembers(fs, false) && GoodMembers(ts, false) && Increasing(fs) && Increasing(ts)
    ensures Computes(fs, ts, GenerateMembers(fs, ts, cs))
    decreases MembersWeight(fs), 1, |fs| + |ts|
  {
    if fs == [] && ts == [] {
      EmptyFields(fs);
      assert GenFields(map[], map[]) == map[];
    } else {
      var diff := StrictOrder(fs, ts);
      if diff < 0 {
        GenerateMembersComputes(fs[1..], ts, cs);
        RemovedComputes(fs, ts, cs);
      } else if diff > 0 {
        GenerateMembersComputes(fs, ts[1..], cs);
        AddedComputes(fs, ts, cs);
      } else {
        GenerateMemberComputes(fs[0], ts[0], cs);
        GenerateMembersComputes(fs[1..], ts[1..], cs);
        CommonComputes(fs, ts, cs);
      }
    }
  }

  ghost predicate Computes(fs: seq<Member>, ts: seq<Member>, r: seq<Member>) {
    GoodList(r, false) && Fields(r) == GenFields(Fields(fs), Fields(ts))
  }

  lemma RemovedComputes(fs: seq<Member>, ts: seq<Member>, cs: bool)
    requires GoodMembers(fs, false) && GoodMembers(ts, false) && Increasing(fs) && Increasing(ts)
    requires fs != [] && StrictOrder(fs, ts) < 0 && Computes(fs[1..], ts, GenerateMembers(fs[1..], ts, cs))
    ensures Computes(fs, ts, GenerateMembers(fs, ts, cs))
  {
    HeadAbsentFromTail(fs);
    SmallerKeyAbsent(fs[0].key, ts);
    HeadTail(fs);
    FieldsCons(fs[0], fs[1..]);
    GenRemoved(Fields(fs[1..]), Fields(ts), fs[0].key, Abs(fs[0].value));
    PrependGood(Member(fs[0].key, Null), GenerateMembers(fs[1..], ts, cs));
  }

  lemma AddedComputes(fs: seq<Member>, ts: seq<Member>, cs: bool)
    requires GoodMembers(fs, false) && GoodMembers(ts, false) && Increasing(fs) && Increasing(ts)
    requires ts != [] && StrictOrder(fs, ts) > 0 && Computes(fs, ts[1..], GenerateMembers(fs, ts[1..], cs))
    ensures Computes(fs, ts, GenerateMembers(fs, ts, cs))
  {
    HeadAbsentFromTail(ts);
    if fs != [] {
      StrCmpAntisymmetric(ts[0].key, fs[0].key);
    }
    SmallerKeyAbsent(ts[0].key, fs);
    HeadTail(ts);
    FieldsCons(ts[0], ts[1..]);
    GenAdded(Fields(fs), Fields(ts[1..]), ts[0].key, Abs(ts[0].value));
    PrependGood(ts[0], GenerateMembers(fs, ts[1..], cs));
  }

  /** What generation makes of a common member: nothing if the values are equal, one member otherwise. */
  ghost predicate OneComputes(f: Member, t: Member, r: seq<Member>) {
    (Abs(f.value) == Abs(t.value) ==> r == []) &&
    (Abs(f.value) != Abs(t.value) ==>
      |r| == 1 && r[0].key == t.key && Good(r[0].value, false) &&
      GenVal(Abs(f.value), Abs(t.value)) == Some(Abs(r[0].value)))
  }

  lemma CommonComputes(fs: seq<Member>, ts: seq<Member>, cs: bool)
    requires GoodMembers(fs, false) && GoodMembers(ts, false) && Increasing(fs) && Increasing(ts)
    requires fs != [] && ts != [] && StrictOrder(fs, ts) == 0
    requires OneComputes(fs[0], ts[0], GenerateMember(fs[0], ts[0], cs))
    requires Computes(fs[1..], ts[1..], GenerateMembers(fs[1..], ts[1..], cs))
    ensures Computes(fs, ts, GenerateMembers(fs, ts, cs))
  {
    StrCmpZero(fs[0].key, ts[0].key);
    HeadAbsentFromTail(fs);
    HeadAbsentFromTail(ts);
    HeadTail(fs);
    HeadTail(ts);
    FieldsCons(fs[0], fs[1..]);
    FieldsCons(ts[0], ts[1..]);
    var one, rest := GenerateMember(fs[0], ts[0], cs), GenerateMembers(fs[1..], ts[1..], cs);
    GenCommon(Fields(fs[1..]), Fields(ts[1..]), ts[0].key, Abs(fs[0].value), Abs(ts[0].value));
    AppendNothing(rest);
    if one != [] {
      assert one == [one[0]];
      PrependGood(one[0], rest);
    }
  }

  lemma PrependGood(m: Member, ms: seq<Member>)
    requires GoodList(ms, false) && m.key !in Keys(ms) && Fold(m.key, false) == m.key && Good(m.value, false)
    ensures GoodList([m] + ms, false) && Fields([m] + ms) == Fields(ms)[m.key := Abs(m.value)]
  {
    FieldsCons(m, ms);
    PrependUnique(m, ms);
  }

  lemma PrependUnique(m: Member, ms: seq<Member>)
    requires UniqueKeys(ms) && m.key !in Keys(ms)
    ensures UniqueKeys([m] + ms)
  {
    assert forall i :: 0 <= i < |ms| ==> ms[i].key in Keys(ms);
  }

  lemma GenerateMemberComputes(f: Member, t: Member, cs: bool)
    requires Good(f.value, false) && Good(t.value, false)
    ensures OneComputes(f, t, GenerateMember(f, t, cs))
    decreases Weight(f.value), 1, 0
  {
    LowerCaseSettles(f.value, cs);
    LowerCaseSettles(t.value, cs);
    CompareDecidesValue(f.value, t.value, cs);
    var c := CompareJson(f.value, t.value, cs);
    if !c.same {
      CompareKeepsWeight(f.value, t.value, cs);
      CompareKeepsGood(f.value, t.value, cs, false);
      GenerateComputes(c.a, c.b, false);
    }
  }

  lemma GenRemoved(fm: map<string, Val>, tm: map<string, Val>, k: string, v: Val)
    requires k !in fm && k !in tm
    ensures GenFields(fm[k := v], tm) == GenFields(fm, tm)[k := VNull]
  {
  }

  lemma GenAdded(fm: map<string, Val>, tm: map<string, Val>, k: string, v: Val)
    requires k !in fm && k !in tm
    ensures GenFields(fm, tm[k := v]) == GenFields(fm, tm)[k := v]
  {
  }

  lemma GenCommon(fm: map<string, Val>, tm: map<string, Val>, k: string, v: Val, w: Val)
    requires k !in fm && k !in tm
    ensures GenFields(fm[k := v], tm[k := w]) ==
      if v == w then GenFields(fm, tm) else GenFields(fm, tm)[k := GenVal(v, w).value]
  {
  }

  // ---------------------------------------------------------------- the results

  /** `cJSONUtils_MergePatch` run twice with one patch leaves the value it left the first time. */
  lemma MergeTwice(target: Option<Json>, patch: Json, cs: bool)
    requires GoodOption(target, cs) && Good(patch, cs)
    ensures var once := MergePatch(target, patch, cs);
      Abs(MergePatch(Some(once), patch, cs)) == Abs(once)
  {
    var once := MergePatch(target, patch, cs);
    MergeComputesRfc(target, patch, cs);
    MergeComputesRfc(Some(once), patch, cs);
    RfcIdempotent(AbsOption(target), Abs(patch));
  }

  /**
   Generate then merge: no patch exactly for objects with equal values; otherwise the merge reaches the
   target exactly when the change is expressible.
   */
  lemma MergeDiffThenMerge(from: Json, to: Json, cs: bool)
    requires Good(from, false) && Good(to, false)
    ensures var p := GenerateMergePatch(from, to, cs);
      (p == None <==> Abs(from) == Abs(to) && to.Object?) &&
      (p != None ==> (Abs(MergePatch(Some(from), p.value, cs)) == Abs(to) <==> Expressible(Some(Abs(from)), Abs(to))))
  {
    var p := GenerateMergePatch(from, to, cs);
    GenerateComputes(from, to, cs);
    if p != None {
      LowerCaseSettles(from, cs);
      LowerCaseSettles(p.value, cs);
      MergeComputesRfc(Some(from), p.value, cs);
      GeneratedReaches(Abs(from), Abs(to));
    }
  }

  /** A target without null members is always reached. */
  lemma MergeReachesWithoutNulls(from: Json, to: Json, cs: bool)
    requires Good(from, false) && Good(to, false) && NoNullMembers(Abs(to))
    ensures var p := GenerateMergePatch(from, to, cs);
      if Abs(from) == Abs(to) && to.Object? then p == None
      else p != None && Abs(MergePatch(Some(from), p.value, cs)) == Abs(to)
  {
    MergeDiffThenMerge(from, to, cs);
    NoNullsExpressible(Some(Abs(from)), Abs(to));
  }

  /** No merge patch at all adds a null member to an empty object. */
  lemma NoPatchAddsNull(p: Val)
    ensures Rfc(Some(VObject(map[])), p) != VObject(map["a" := VNull])
    decreases p
  {
    if p.VObject? {
      RfcObject(Some(VObject(map[])), p.fields);
      assert map["a" := VNull]["a"] == VNull;
    }
  }

  /** A new null member is lost: from `{}` to `{"a": null}`. */
  lemma NullMemberLost(cs: bool)
    ensures forall p :: Rfc(Some(VObject(map[])), p) != VObject(map["a" := VNull])
    ensures var from, to := Object([]), Object([Member("a", Null)]);
      GenerateMergePatch(from, to, cs) == Some(to) && MergePatch(Some(from), to, cs) == from && Abs(from) != Abs(to)
  {
    forall p
      ensures Rfc(Some(VObject(map[])), p) != VObject(map["a" := VNull])
    {
      NoPatchAddsNull(p);
    }
    var ts := [Member("a", Null)];
    assert SortMembers([], cs) == [] && SortMembers(ts, cs) == ts;
    assert ts[1..] == [] && GenerateMembers([], ts, cs) == ts;
    assert MergeMember([], ts[0], cs) == [] && MergeMembers([], ts, cs) == [];
    NotEmpty(ts[0]);
  }

  /** Lists sorted ignoring case are walked by `strcmp`: a member of both objects is set and then removed. */
  lemma MixedCasePatch()
    ensures GenerateMergePatch(Object([Member("a", True), Member("B", True)]), Object([Member("B", True)]), false) ==
      Some(Object([Member("B", True), Member("a", Null), Member("B", Null)]))
  {
    var fs, ts := [Member("a", True), Member("B", True)], [Member("B", True)];
    assert Lower("a") == "a" && Lower("B") == "b" && StrCmp("a", "b") < 0;
    assert StrictlySorted(fs, KeyOf, false);
    assert SortMembers(fs, false) == fs && SortMembers(ts, false) == ts;
    assert StrCmp("a", "B") > 0;
    assert fs[1..] == ts && ts[1..] == [];
    assert GenerateMembers(ts, [], false) == [Member("B", Null)];
    assert GenerateMembers(fs, [], false) == [Member("a", Null), Member("B", Null)];
    var ms := GenerateMembers(fs, ts, false);
    assert ms == [Member("B", True)] + [Member("a", Null), Member("B", Null)];
    assert ms == [Member("B", True), Member("a", Null), Member("B", Null)];
    assert GenerateMergePatch(Object(fs), Object(ts), false) == Some(Object(ms));
  }

  lemma MixedCaseMerged()
    ensures MergeMembers([Member("a", True), Member("B", True)],
                         [Member("B", True), Member("a", Null), Member("B", Null)], false) == []
  {
    var a, b := Member("a", True), Member("B", True);
    var patch := [b, Member("a", Null), Member("B", Null)];
    assert Lower("a") == "a" && Lower("B") == "b";
    assert KeyIndex([a, b], "B", false) == 1 && RemoveIndex([a, b], 1) == [a];
    assert KeyIndex([a, b], "a", false) == 0 && RemoveIndex([a, b], 0) == [b];
    assert KeyIndex([b], "B", false) == 0 && RemoveIndex([b], 0) == [];
    assert MergeMember([a, b], b, false) == [a, b];
    assert patch[1..] == [Member("a", Null), Member("B", Null)] && patch[1..][1..] == [Member("B", Null)];
    assert MergeMembers([b], [Member("B", Null)], false) == MergeMembers([], [Member("B", Null)][1..], false);
  }

  lemma MixedCaseLost()
    ensures var from, to := Object([Member("a", True), Member("B", True)]), Object([Member("B", True)]);
      var p := GenerateMergePatch(from, to, false);
      p.Some? && MergePatch(Some(from), p.value, false) == Object([]) && Abs(Object([])) != Abs(to)
  {
    MixedCasePatch();
    MixedCaseMerged();
    NotEmpty(Member("B", True));
  }

  lemma NotEmpty(m: Member)
    ensures Abs(Object([])) != Abs(Object([m]))
  {
    AbsObject([]);
    AbsObject([m]);
    assert [m][0].key in Keys([m]) && m.key in Fields([m]);
  }
}
