/**
 When diff then patch reaches the target. Keys that differ in letter case only can make a generated patch
 detach the wrong member; this module says for exactly which pairs of trees that happens, for the document
 that patches are generated from.
 */
module PatchExactness {
  import opened CStrings
  import opened Seqs
  import opened Sorting
  import opened JsonValues
  import opened PointerEncoding
  import opened Compare
  import opened MemberLists
  import opened Patches
  import opened KeyCoding
  import opened PatchCoding
  import opened PatchLocality
  import opened PatchRoundTrip
  import PatchMiscoded
  import opened PatchLimits
  import opened PatchReordering

  // ---------------------------------------------------------------- the condition

  /** The member is in both objects, and is edited in its place rather than removed or replaced. */
  predicate Stays(m: Member, to: seq<Member>) {
    IndexOf(to, m.key) >= 0 && !Replaced(m.value, to[IndexOf(to, m.key)].value)
  }

  /** Two keys that differ in letter case only, or not at all. */
  predicate Alike(a: string, b: string) { Lower(a) == Lower(b) }

  /** Where one member stays, every later member with an alike key stays as well. */
  ghost predicate StaysTogether(from: seq<Member>, to: seq<Member>) {
    forall a, b :: a in from && b in from && Stays(a, to) && Alike(a.key, b.key) && StrCmp(a.key, b.key) < 0 ==>
      Stays(b, to)
  }

  /** What the two trees must satisfy, at every pair of objects that the generator walks through. */
  ghost predicate Clean(from: Json, to: Json) {
    SameType(from, to) ==>
      match from
      case Array(items) =>
        forall i :: 0 <= i < |items| && i < |to.items| ==> Clean(items[i], to.items[i])
      case Object(ms) =>
        StaysTogether(ms, to.members) &&
        forall i :: 0 <= i < |ms| && IndexOf(to.members, ms[i].key) >= 0 ==>
          Clean(ms[i].value, to.members[IndexOf(to.members, ms[i].key)].value)
      case _ => true
  }

  // ---------------------------------------------------------------- what edits do when keys are alike

  /** The first member alike to k in a list: among those in front, or the member itself. */
  lemma {:induction false} FirstAlike(front: seq<Member>, m: Member, rest: seq<Member>)
    ensures KeyIndex(front + [m] + rest, m.key, false) ==
      if KeyIndex(front, m.key, false) == -1 then |front| else KeyIndex(front, m.key, false)
  {
    var all := front + [m] + rest;
    if front == [] {
      assert all[0] == m;
    } else if Fold(front[0].key, false) == Fold(m.key, false) {
      assert all[0] == front[0];
    } else {
      assert all[0] == front[0] && all[1..] == front[1..] + [m] + rest;
      FirstAlike(front[1..], m, rest);
    }
  }

  lemma ReplaceByKey(ms: seq<Member>, k: string, v: Json, junk: char)
    requires Named(k, junk) && KeyIndex(ms, k, false) >= 0
    ensures ApplyEdit(Object(ms), Edit("replace", ComposedPath("", k, junk), Some(v))) ==
      Outcome(0, Object(PutMember(RemoveIndex(ms, KeyIndex(ms, k, false)), k, v, true)))
  {
    var rest, p := RemoveIndex(ms, KeyIndex(ms, k, false)), ComposedPath("", k, junk);
    DetachFirstAlike(ms, k, junk);
    NamedAtRoot(k, junk);
    AddMember(rest, k, v, p);
  }

  lemma AddMember(ms: seq<Member>, k: string, v: Json, path: string)
    requires FindParent(Object(ms), path, true) == Some([]) && ChildToken(path) == k
    ensures AddAt(Object(ms), path, v, true) == Outcome(0, Object(PutMember(ms, k, v, true)))
  {
  }

  lemma PutInMiddle(front: seq<Member>, m: Member, rest: seq<Member>, v: Json)
    requires UniqueKeys(front + [m] + rest)
    ensures PutMember(front + [m] + rest, m.key, v, true) == front + rest + [Member(m.key, v)]
  {
    var all := front + [m] + rest;
    assert all[|front|] == m;
    KeyIndexIs(all, |front|);
    RemoveMiddle(front, m, rest);
  }

  lemma PutAfterRemoval(front: seq<Member>, m: Member, rest: seq<Member>, v: Json)
    requires UniqueKeys(front + [m] + rest)
    ensures PutMember(front + rest, m.key, v, true) == front + rest + [Member(m.key, v)]
  {
    var all := front + [m] + rest;
    assert all[|front|] == m;
    RemovedKeys(all, |front|);
    RemoveMiddle(front, m, rest);
    KeyIndexNone(front + rest, m.key);
  }

  /** Replacing a member takes out the first alike member as well as the member, and appends the new one. */
  lemma ReplaceFirst(front: seq<Member>, m: Member, rest: seq<Member>, v: Json, junk: char)
    requires UniqueKeys(front + [m] + rest) && Named(m.key, junk)
    ensures var first := KeyIndex(front, m.key, false);
      ApplyEdit(Object(front + [m] + rest), Edit("replace", ComposedPath("", m.key, junk), Some(v))) ==
      Outcome(0, Object((if first == -1 then front else RemoveIndex(front, first)) + rest + [Member(m.key, v)]))
  {
    hide *;
    FirstReplaced(front, m, rest, v);
    ReplaceByKey(front + [m] + rest, m.key, v, junk);
  }

  lemma FirstReplaced(front: seq<Member>, m: Member, rest: seq<Member>, v: Json)
    requires UniqueKeys(front + [m] + rest)
    ensures var all, first := front + [m] + rest, KeyIndex(front, m.key, false);
      KeyIndex(all, m.key, false) >= 0 &&
      PutMember(RemoveIndex(all, KeyIndex(all, m.key, false)), m.key, v, true) ==
      (if first == -1 then front else RemoveIndex(front, first)) + rest + [Member(m.key, v)]
  {
    var all, first := front + [m] + rest, KeyIndex(front, m.key, false);
    FirstAlike(front, m, rest);
    if first == -1 {
      RemoveMiddle(front, m, rest);
      PutAfterRemoval(front, m, rest, v);
    } else {
      RemovedKeys(all, first);
      RemoveFront(front, first, m, rest);
      PutInMiddle(RemoveIndex(front, first), m, rest, v);
    }
  }

  lemma RemoveMiddle(front: seq<Member>, m: Member, rest: seq<Member>)
    ensures RemoveIndex(front + [m] + rest, |front|) == front + rest
  {
  }

  lemma RemoveFront(front: seq<Member>, i: nat, m: Member, rest: seq<Member>)
    requires i < |front|
    ensures RemoveIndex(front + [m] + rest, i) == RemoveIndex(front, i) + [m] + rest
  {
  }

  /** Removing a member takes out the first alike one. */
  lemma RemoveFirst(front: seq<Member>, m: Member, rest: seq<Member>, junk: char)
    requires Named(m.key, junk)
    ensures var first := KeyIndex(front, m.key, false);
      ApplyEdit(Object(front + [m] + rest), Edit("remove", ComposedPath("", m.key, junk), None)) ==
      Outcome(0, Object(if first == -1 then front + rest else RemoveIndex(front, first) + [m] + rest))
  {
    var all := front + [m] + rest;
    assert all[|front|] == m;
    FirstAlike(front, m, rest);
    RemoveFirstAlike(all, |front|, junk);
    RemoveMiddle(front, m, rest);
    var first := KeyIndex(front, m.key, false);
    if first != -1 {
      RemoveFront(front, first, m, rest);
    }
  }

  // ---------------------------------------------------------------- the edits of one child

  lemma EditInPlace(front: seq<Member>, k: string, d: Json, rest: seq<Member>, from: Json, to: Json, junk: char,
          v: Json)
    requires UniqueKeys(front + [Member(k, d)] + rest) && NUL !in k && Passed(k, junk) && !Replaced(from, to)
    requires Generated(Diff("", from, to, true, junk)) && ApplyEdits(d, Diff("", from, to, true, junk)) == Outcome(0, v)
    ensures var es := Diff(ComposedPath("", k, junk), from, to, true, junk);
      Generated(es) &&
      ApplyEdits(Object(front + [Member(k, d)] + rest), es) == Outcome(0, Object(front + [Member(k, v)] + rest))
  {
    var all, es := front + [Member(k, d)] + rest, Diff("", from, to, true, junk);
    var p := "/" + Token(k, junk);
    EditsInner(from, to, junk);
    ComposedAtRoot(k, junk);
    DiffMovesDown(p, "", from, to, junk);
    AppendNothing(p);
    assert all[|front|] == Member(k, d);
    KeySelects(all, |front|, junk);
    EditsAreLocal(Object(all), Token(k, junk), |front|, es);
    SetMiddle(front, k, d, rest, v);
  }

  /** A common member with one value on both sides is left alone. */
  lemma EditNothing(doc: Json, k: string, d: Json, from: Json, to: Json, junk: char, v: Json)
    requires Unique(from) && Unique(to) && Abs(from) == Abs(to)
    requires Generated(Diff("", from, to, true, junk)) && ApplyEdits(d, Diff("", from, to, true, junk)) == Outcome(0, v)
    ensures v == d
    ensures var es := Diff(ComposedPath("", k, junk), from, to, true, junk);
      Generated(es) && ApplyEdits(doc, es) == Outcome(0, doc)
  {
    DiffSame("", from, to, junk);
    DiffSame(ComposedPath("", k, junk), from, to, junk);
  }

  lemma SetMiddle(front: seq<Member>, k: string, d: Json, rest: seq<Member>, v: Json)
    ensures (front + [Member(k, d)] + rest)[|front| := Member(k, v)] == front + [Member(k, v)] + rest
  {
  }

  lemma EditReplaced(front: seq<Member>, m: Member, rest: seq<Member>, from: Json, to: Json, junk: char)
    requires UniqueKeys(front + [m] + rest) && Named(m.key, junk) && Replaced(from, to)
    ensures var es, first := Diff(ComposedPath("", m.key, junk), from, to, true, junk), KeyIndex(front, m.key, false);
      Generated(es) && ApplyEdits(Object(front + [m] + rest), es) ==
      Outcome(0, Object((if first == -1 then front else RemoveIndex(front, first)) + rest + [Member(m.key, to)]))
  {
    var p := ComposedPath("", m.key, junk);
    EditsInner(from, to, junk);
    DiffMovesDown(p, "", from, to, junk);
    AppendNothing(p);
    PrefixedRoot(p, to);
    ReplaceFirst(front, m, rest, to, junk);
    ApplyEditsOne(Object(front + [m] + rest), Edit("replace", p, Some(to)));
  }

  lemma EditItemInPlace(items: seq<Json>, i: nat, from: Json, to: Json, junk: char, v: Json)
    requires i < |items| < SIZE_T && !Replaced(from, to)
    requires Generated(Diff("", from, to, true, junk))
    requires ApplyEdits(items[i], Diff("", from, to, true, junk)) == Outcome(0, v)
    ensures var es := Prefixed("/" + Decimal(i), Diff("", from, to, true, junk));
      Generated(es) && ApplyEdits(Array(items), es) == Outcome(0, Array(items[i := v]))
  {
    EditsInner(from, to, junk);
    IndexSelects(items, i);
    EditsAreLocal(Array(items), Decimal(i), i, Diff("", from, to, true, junk));
  }

  lemma EditItemReplaced(items: seq<Json>, i: nat, to: Json)
    requires i < |items| < SIZE_T
    ensures var es := Prefixed("/" + Decimal(i), [Edit("replace", "", Some(to))]);
      Generated(es) && ApplyEdits(Array(items), es) == Outcome(0, Array(items[i := to]))
  {
    var p := "/" + Decimal(i);
    PrefixedRoot(p, to);
    ReplaceItem(items, i, to);
    ApplyEditsOne(Array(items), Edit("replace", p, Some(to)));
  }

  lemma EditItem(items: seq<Json>, i: nat, from: Json, to: Json, junk: char, v: Json)
    requires i < |items| < SIZE_T
    requires Generated(Diff("", from, to, true, junk))
    requires ApplyEdits(items[i], Diff("", from, to, true, junk)) == Outcome(0, v)
    ensures var es := Diff("" + "/" + Decimal(i), from, to, true, junk);
      Generated(es) && ApplyEdits(Array(items), es) == Outcome(0, Array(items[i := v]))
  {
    PatchMiscoded.ItemPrefix(i, from, to, junk);
    EditsInner(from, to, junk);
    if Replaced(from, to) {
      PatchMiscoded.ReplaceRoot(items[i], to);
      EditItemReplaced(items, i, to);
    } else {
      EditItemInPlace(items, i, from, to, junk, v);
    }
  }

  // ---------------------------------------------------------------- the condition along the walk

  ghost predicate ChildClean(m: Member, to: seq<Member>) {
    IndexOf(to, m.key) >= 0 ==> Clean(m.value, to[IndexOf(to, m.key)].value)
  }

  /** Every member alike to one of `front` stays. */
  ghost predicate FrontSafe(front: seq<Member>, from: seq<Member>, to: seq<Member>) {
    forall p, b :: p in front && b in from && Alike(p.key, b.key) ==> Stays(b, to)
  }

  /** The condition for what is left of the two lists, with the members in `front` of it in the document. */
  ghost predicate CleanRest(front: seq<Member>, from: seq<Member>, to: seq<Member>) {
    FrontSafe(front, from, to) && StaysTogether(from, to) && forall b :: b in from ==> ChildClean(b, to)
  }

  lemma CleanRestSame(front: seq<Member>, from: seq<Member>, to: seq<Member>, other: seq<Member>)
    requires SameTargets(from, to, other)
    ensures CleanRest(front, from, to) <==> CleanRest(front, from, other)
  {
    assert forall b :: b in from ==>
      (Stays(b, to) <==> Stays(b, other)) && (ChildClean(b, to) <==> ChildClean(b, other));
  }

  lemma TailAfterHead(from: seq<Member>)
    requires Increasing(from) && from != []
    ensures forall b :: b in from[1..] ==> StrCmp(from[0].key, b.key) < 0 && !(StrCmp(b.key, from[0].key) < 0)
  {
    forall b | b in from[1..]
      ensures StrCmp(from[0].key, b.key) < 0 && !(StrCmp(b.key, from[0].key) < 0)
    {
      var i :| 0 <= i < |from[1..]| && from[1..][i] == b;
      assert from[i + 1] == b;
      CompareTotal(from[0].key, b.key, true);
    }
  }

  /** When the first member stays, it joins the members in front. */
  lemma HeadStays(front: seq<Member>, u: Member, from: seq<Member>, to: seq<Member>)
    requires Increasing(from) && from != [] && u.key == from[0].key && Stays(from[0], to)
    ensures CleanRest(front, from, to) <==> ChildClean(from[0], to) && CleanRest(front + [u], from[1..], to)
  {
    HeadOrTail(from);
    TailAfterHead(from);
    assert StrCmp(from[0].key, from[0].key) == 0 by {
      StrCmpZero(from[0].key, from[0].key);
    }
    assert forall p :: p in front + [u] <==> p in front || p == u;
  }

  /** When it does not, nothing in front may be alike. */
  lemma HeadGoes(front: seq<Member>, from: seq<Member>, to: seq<Member>)
    requires Increasing(from) && from != [] && !Stays(from[0], to)
    ensures CleanRest(front, from, to) <==> KeyIndex(front, from[0].key, false) == -1 && CleanRest(front, from[1..], to)
  {
    HeadOrTail(from);
    TailAfterHead(from);
    var i := KeyIndex(front, from[0].key, false);
    if i == -1 {
      assert forall p :: p in front ==> !Alike(p.key, from[0].key);
    } else {
      assert front[i] in front && Alike(front[i].key, from[0].key);
    }
  }

  // ---------------------------------------------------------------- one object

  /**
   One object while its members are edited: `front` are the members behind which the walk has passed, `back`
   the members that were appended, and between them stand those of `from`.
   */
  ghost predicate WalkReady(front: seq<Member>, back: seq<Member>, from: seq<Member>, to: seq<Member>) {
    UniqueKeys(front) && UniqueKeys(back) && Increasing(from) && Increasing(to) &&
    Keys(front) !! Keys(back) && Keys(front) !! Keys(from) && Keys(back) !! Keys(from) &&
    Keys(front) !! Keys(to) && Keys(back) !! Keys(to) && Fine(from) && Fine(to)
  }

  predicate Fine(ms: seq<Member>) {
    forall i :: 0 <= i < |ms| ==> NUL !in ms[i].key && Sized(ms[i].value) && Unique(ms[i].value)
  }

  /** What the walk is to reach. */
  ghost function Goal(front: seq<Member>, back: seq<Member>, to: seq<Member>): map<string, Val> {
    (Fields(front) + Fields(back)) + Fields(to)
  }

  /** What the walk leaves: r has the values it is to reach exactly when the condition holds. */
  ghost predicate Walked(front: seq<Member>, back: seq<Member>, from: seq<Member>, to: seq<Member>, r: seq<Member>) {
    UniqueKeys(r) &&
    Keys(r) <= Keys(front) + Keys(back) + Keys(from) + Keys(to) &&
    (forall m :: m in r && m.key in Keys(front) ==> m in front) &&
    (Fields(r) == Goal(front, back, to) <==> CleanRest(front, from, to))
  }

  lemma KeysSum(a: seq<Member>, b: seq<Member>)
    ensures Keys(a + b) == Keys(a) + Keys(b)
  {
    forall k
      ensures k in Keys(a + b) <==> k in Keys(a) || k in Keys(b)
    {
      if k in Keys(a) {
        assert (a + b)[IndexOf(a, k)].key == k;
      }
      if k in Keys(b) {
        assert (a + b)[|a| + IndexOf(b, k)].key == k;
      }
    }
  }

  lemma UniqueSum(a: seq<Member>, b: seq<Member>)
    requires UniqueKeys(a) && UniqueKeys(b) && Keys(a) !! Keys(b)
    ensures UniqueKeys(a + b) && Keys(a + b) == Keys(a) + Keys(b)
  {
    KeysSum(a, b);
    assert forall i :: 0 <= i < |a| ==> a[i].key in Keys(a);
    assert forall i :: 0 <= i < |b| ==> b[i].key in Keys(b);
  }

  lemma {:induction false} FieldsSum(a: seq<Member>, b: seq<Member>)
    requires Keys(a) !! Keys(b)
    ensures Fields(a + b) == Fields(a) + Fields(b)
  {
    if a == [] {
      AppendNothing(b);
      NoFields();
    } else {
      var x, rest := a[0], a[1..];
      HeadTail(a);
      KeysCons(x, rest);
      FieldsSum(rest, b);
      AppendAssociates([x], rest, b);
      FieldsCons(x, rest + b);
      FieldsCons(x, rest);
      SetAfter(Fields(rest), Fields(b), x.key, Abs(x.value));
    }
  }

  lemma IncreasingUnique(xs: seq<Member>)
    requires Increasing(xs)
    ensures UniqueKeys(xs)
  {
    forall i, j | 0 <= i < j < |xs|
      ensures xs[i].key != xs[j].key
    {
      StrCmpZero(xs[i].key, xs[j].key);
    }
  }

  lemma SameKeys(xs: seq<Member>, us: seq<Member>)
    requires |us| == |xs| && forall i :: 0 <= i < |xs| ==> us[i].key == xs[i].key
    ensures Keys(us) == Keys(xs) && (UniqueKeys(xs) ==> UniqueKeys(us))
  {
  }

  /** The document in the middle of the walk has unique keys. */
  lemma DocumentUnique(front: seq<Member>, us: seq<Member>, back: seq<Member>, from: seq<Member>, to: seq<Member>)
    requires WalkReady(front, back, from, to)
    requires |us| == |from| && forall i :: 0 <= i < |from| ==> us[i].key == from[i].key
    ensures UniqueKeys(front + us + back) && Keys(front + us + back) == Keys(front) + Keys(from) + Keys(back)
  {
    IncreasingUnique(from);
    SameKeys(from, us);
    UniqueSum(front, us);
    UniqueSum(front + us, back);
  }

  // ---------------------------------------------------------------- what every step of the walk keeps

  lemma HeadKeys(xs: seq<Member>)
    requires Increasing(xs) && Fine(xs) && xs != []
    ensures Keys(xs) == {xs[0].key} + Keys(xs[1..]) && xs[0].key !in Keys(xs[1..])
    ensures Increasing(xs[1..]) && Fine(xs[1..])
  {
    HeadFields(xs);
  }

  lemma StayReady(front: seq<Member>, back: seq<Member>, from: seq<Member>, to: seq<Member>, v: Json)
    requires WalkReady(front, back, from, to) && from != [] && to != [] && from[0].key == to[0].key
    ensures WalkReady(front + [Member(from[0].key, v)], back, from[1..], to[1..])
  {
    HeadKeys(from);
    HeadKeys(to);
    AppendedKeys(front, from[0].key, v);
  }

  lemma StayCondition(front: seq<Member>, from: seq<Member>, to: seq<Member>, u: Member)
    requires Increasing(from) && from != [] && to != [] && from[0].key == to[0].key == u.key
    requires !Replaced(from[0].value, to[0].value)
    ensures CleanRest(front, from, to) <==>
      Clean(from[0].value, to[0].value) && CleanRest(front + [u], from[1..], to[1..])
  {
    HeadAbsentFromTail(from);
    assert IndexOf(to, u.key) == 0;
    HeadStays(front, u, from, to);
    TailTargets(from[1..], to);
    CleanRestSame(front + [u], from[1..], to, to[1..]);
  }

  /** The goals before and after a member has been set differ in that member only. */
  lemma StayGoal(front: seq<Member>, back: seq<Member>, to: seq<Member>, u: Member) returns (m: map<string, Val>)
    requires UniqueKeys(front) && Increasing(to) && to != [] && u.key == to[0].key
    requires u.key !in Keys(front) && u.key !in Keys(back)
    ensures Goal(front, back, to) == m[u.key := Abs(to[0].value)]
    ensures Goal(front + [u], back, to[1..]) == m[u.key := Abs(u.value)]
  {
    var f, b, t, k := Fields(front), Fields(back), Fields(to[1..]), u.key;
    m := (f + b) + t;
    HeadFields(to);
    AppendedFields(front, k, u.value);
    assert u == Member(k, u.value);
    SetAfter(f, b, k, Abs(u.value));
    SetAfter(f + b, t, k, Abs(u.value));
    SetAfter(f + b, t, k, Abs(to[0].value));
  }

  /** A member in front that is still there has kept its value. */
  lemma StayedValue(front: seq<Member>, u: Member, r: seq<Member>)
    requires UniqueKeys(r) && UniqueKeys(front + [u])
    requires forall m :: m in r && m.key in Keys(front + [u]) ==> m in front + [u]
    ensures u.key in Fields(r) ==> Fields(r)[u.key] == Abs(u.value)
  {
    var all := front + [u];
    assert all[|front|] == u && u.key in Keys(all);
    if u.key in Keys(r) {
      var x := IndexOf(r, u.key);
      FieldOf(r, x);
      assert r[x] in r && r[x] in all;
      var y :| 0 <= y < |all| && all[y] == r[x];
      assert y == |front|;
    }
  }

  lemma InFront(front: seq<Member>, u: Member, r: seq<Member>)
    requires u.key !in Keys(front)
    requires forall m :: m in r && m.key in Keys(front + [u]) ==> m in front + [u]
    ensures forall m :: m in r && m.key in Keys(front) ==> m in front
  {
    KeysSum(front, [u]);
    assert forall m :: m in front + [u] <==> m in front || m == u;
  }

  lemma StayStep(front: seq<Member>, back: seq<Member>, from: seq<Member>, to: seq<Member>, u: Member, r: seq<Member>)
    requires WalkReady(front, back, from, to) && from != [] && to != [] && from[0].key == to[0].key == u.key
    requires !Replaced(from[0].value, to[0].value)
    requires Abs(u.value) == Abs(to[0].value) <==> Clean(from[0].value, to[0].value)
    requires Walked(front + [u], back, from[1..], to[1..], r)
    ensures Walked(front, back, from, to, r)
  {
    HeadKeys(from);
    HeadKeys(to);
    assert u == Member(u.key, u.value);
    AppendedKeys(front, u.key, u.value);
    StayCondition(front, from, to, u);
    var m := StayGoal(front, back, to, u);
    StayedValue(front, u, r);
    SetIff(Fields(r), m, u.key, Abs(u.value), Abs(to[0].value));
    InFront(front, u, r);
  }

  // ---------------------------------------------------------------- members that go, and new ones

  lemma BackGoal(front: seq<Member>, back: seq<Member>, to: seq<Member>, m: Member)
    requires UniqueKeys(back) && Increasing(to) && to != [] && m == to[0] && m.key !in Keys(back)
    ensures Goal(front, back + [m], to[1..]) == Goal(front, back, to)
  {
    var f, b, t, k, v := Fields(front), Fields(back), Fields(to[1..]), m.key, Abs(m.value);
    HeadFields(to);
    AppendedFields(back, k, m.value);
    assert m == Member(k, m.value);
    SetRight(f, b, k, v);
    SetAfter(f + b, t, k, v);
  }

  lemma NewReady(front: seq<Member>, back: seq<Member>, from: seq<Member>, to: seq<Member>)
    requires WalkReady(front, back, from, to) && to != [] && to[0].key !in Keys(from)
    ensures WalkReady(front, back + [to[0]], from, to[1..])
  {
    HeadKeys(to);
    assert to[0] == Member(to[0].key, to[0].value);
    AppendedKeys(back, to[0].key, to[0].value);
  }

  lemma NewStep(front: seq<Member>, back: seq<Member>, from: seq<Member>, to: seq<Member>, r: seq<Member>)
    requires WalkReady(front, back, from, to) && to != [] && to[0].key !in Keys(from)
    requires Walked(front, back + [to[0]], from, to[1..], r)
    ensures Walked(front, back, from, to, r)
  {
    HeadKeys(to);
    KeysSum(back, [to[0]]);
    BackGoal(front, back, to, to[0]);
    TailTargets(from, to);
    CleanRestSame(front, from, to, to[1..]);
  }

  lemma GoneReady(front: seq<Member>, back: seq<Member>, from: seq<Member>, to: seq<Member>)
    requires WalkReady(front, back, from, to) && from != []
    ensures WalkReady(front, back, from[1..], to)
  {
    HeadKeys(from);
  }

  lemma GoneStep(front: seq<Member>, back: seq<Member>, from: seq<Member>, to: seq<Member>, r: seq<Member>)
    requires WalkReady(front, back, from, to) && from != [] && from[0].key !in Keys(to)
    requires KeyIndex(front, from[0].key, false) == -1 && Walked(front, back, from[1..], to, r)
    ensures Walked(front, back, from, to, r)
  {
    HeadKeys(from);
    HeadGoes(front, from, to);
  }

  lemma ReplacedCondition(front: seq<Member>, from: seq<Member>, to: seq<Member>)
    requires Increasing(from) && from != [] && to != [] && from[0].key == to[0].key
    requires Replaced(from[0].value, to[0].value)
    ensures CleanRest(front, from, to) <==>
      KeyIndex(front, from[0].key, false) == -1 && CleanRest(front, from[1..], to[1..])
  {
    HeadAbsentFromTail(from);
    assert IndexOf(to, from[0].key) == 0;
    HeadGoes(front, from, to);
    TailTargets(from[1..], to);
    CleanRestSame(front, from[1..], to, to[1..]);
  }

  lemma ReplacedReady(front: seq<Member>, back: seq<Member>, from: seq<Member>, to: seq<Member>)
    requires WalkReady(front, back, from, to) && from != [] && to != [] && from[0].key == to[0].key
    ensures WalkReady(front, back + [to[0]], from[1..], to[1..])
  {
    HeadKeys(from);
    HeadKeys(to);
    assert to[0] == Member(to[0].key, to[0].value);
    AppendedKeys(back, to[0].key, to[0].value);
  }

  lemma ReplacedStep(front: seq<Member>, back: seq<Member>, from: seq<Member>, to: seq<Member>, r: seq<Member>)
    requires WalkReady(front, back, from, to) && from != [] && to != [] && from[0].key == to[0].key
    requires Replaced(from[0].value, to[0].value) && KeyIndex(front, from[0].key, false) == -1
    requires Walked(front, back + [to[0]], from[1..], to[1..], r)
    ensures Walked(front, back, from, to, r)
  {
    HeadKeys(from);
    HeadKeys(to);
    KeysSum(back, [to[0]]);
    BackGoal(front, back, to, to[0]);
    ReplacedCondition(front, from, to);
  }

  // ---------------------------------------------------------------- detaching the wrong member

  lemma DropReady(front: seq<Member>, back: seq<Member>, from: seq<Member>, to: seq<Member>, i: nat)
    requires WalkReady(front, back, from, to) && i < |front|
    ensures WalkReady(RemoveIndex(front, i), back, from, to)
  {
    RemovedKeys(front, i);
  }

  /** A member in front that has been taken out is not put back. */
  lemma Dropped(front: seq<Member>, back: seq<Member>, from: seq<Member>, to: seq<Member>, i: nat, r: seq<Member>)
    requires WalkReady(front, back, from, to) && i < |front|
    requires Keys(r) <= (Keys(front) - {front[i].key}) + Keys(back) + Keys(from) + Keys(to)
    ensures front[i].key !in Keys(r) && Fields(r) != Goal(front, back, to)
  {
    assert front[i].key in Keys(front) && front[i].key in Goal(front, back, to);
  }

  lemma DropInFront(front: seq<Member>, i: nat, r: seq<Member>)
    requires UniqueKeys(front) && i < |front| && front[i].key !in Keys(r)
    requires forall m :: m in r && m.key in Keys(RemoveIndex(front, i)) ==> m in RemoveIndex(front, i)
    ensures forall m :: m in r && m.key in Keys(front) ==> m in front
  {
    RemovedKeys(front, i);
    forall m | m in r && m.key in Keys(front)
      ensures m in front
    {
      var x :| 0 <= x < |r| && r[x] == m;
      assert m.key in Keys(r);
      assert m in RemoveIndex(front, i);
    }
  }

  lemma WrongRemovalKeys(front: seq<Member>, back: seq<Member>, from: seq<Member>, to: seq<Member>, u: Member,
          i: nat, r: seq<Member>)
    requires WalkReady(front, back, from, to) && from != [] && from[0].key == u.key && i < |front|
    requires Keys(r) <= Keys(RemoveIndex(front, i) + [u]) + Keys(back) + Keys(from[1..]) + Keys(to)
    ensures Keys(r) <= (Keys(front) - {front[i].key}) + Keys(back) + Keys(from) + Keys(to)
  {
    HeadKeys(from);
    RemovedKeys(front, i);
    KeysSum(RemoveIndex(front, i), [u]);
  }

  /** A removal that took out a member in front instead: that member is lost for good. */
  lemma WrongRemovalStep(front: seq<Member>, back: seq<Member>, from: seq<Member>, to: seq<Member>, u: Member,
          r: seq<Member>)
    requires WalkReady(front, back, from, to) && from != [] && from[0].key == u.key && u.key !in Keys(to)
    requires KeyIndex(front, u.key, false) != -1
    requires Walked(RemoveIndex(front, KeyIndex(front, u.key, false)) + [u], back, from[1..], to, r)
    ensures Walked(front, back, from, to, r)
  {
    var i := KeyIndex(front, u.key, false);
    WrongRemovalKeys(front, back, from, to, u, i, r);
    Dropped(front, back, from, to, i, r);
    assert u.key !in Keys(front) by {
      HeadKeys(from);
    }
    RemovedKeys(front, i);
    InFront(RemoveIndex(front, i), u, r);
    DropInFront(front, i, r);
    HeadGoes(front, from, to);
  }

  lemma WrongReplacementKeys(front: seq<Member>, back: seq<Member>, from: seq<Member>, to: seq<Member>, i: nat,
          r: seq<Member>)
    requires WalkReady(front, back, from, to) && from != [] && to != [] && i < |front|
    requires Keys(r) <= Keys(RemoveIndex(front, i)) + Keys(back + [to[0]]) + Keys(from[1..]) + Keys(to[1..])
    ensures Keys(r) <= (Keys(front) - {front[i].key}) + Keys(back) + Keys(from) + Keys(to)
  {
    HeadKeys(from);
    HeadKeys(to);
    RemovedKeys(front, i);
    KeysSum(back, [to[0]]);
  }

  /** So is the one that a replacement took out first. */
  lemma WrongReplacementStep(front: seq<Member>, back: seq<Member>, from: seq<Member>, to: seq<Member>, r: seq<Member>)
    requires WalkReady(front, back, from, to) && from != [] && to != [] && from[0].key == to[0].key
    requires Replaced(from[0].value, to[0].value) && KeyIndex(front, from[0].key, false) != -1
    requires Walked(RemoveIndex(front, KeyIndex(front, from[0].key, false)), back + [to[0]], from[1..], to[1..], r)
    ensures Walked(front, back, from, to, r)
  {
    var i := KeyIndex(front, from[0].key, false);
    WrongReplacementKeys(front, back, from, to, i, r);
    Dropped(front, back, from, to, i, r);
    DropInFront(front, i, r);
    ReplacedCondition(front, from, to);
  }

  // ---------------------------------------------------------------- the walk

  lemma Regroup(front: seq<Member>, m: Member, us: seq<Member>, back: seq<Member>)
    ensures front + ([m] + us) + back == front + [m] + (us + back)
    ensures (front + [m]) + us + back == front + [m] + (us + back)
  {
  }

  /** The edits of a member that stays. */
  lemma StayApplies(front: seq<Member>, back: seq<Member>, us: seq<Member>, k: string, d: Json, from: Json, to: Json,
                    junk: char, v: Json)
    requires UniqueKeys(front + ([Member(k, d)] + us) + back) && NUL !in k && !Replaced(from, to)
    requires Passed(k, junk) || (Unique(from) && Unique(to) && Abs(from) == Abs(to))
    requires Generated(Diff("", from, to, true, junk)) && ApplyEdits(d, Diff("", from, to, true, junk)) == Outcome(0, v)
    ensures var es := Diff(ComposedPath("", k, junk), from, to, true, junk);
      Generated(es) && ApplyEdits(Object(front + ([Member(k, d)] + us) + back), es) ==
      Outcome(0, Object((front + [Member(k, v)]) + us + back))
  {
    Regroup(front, Member(k, d), us, back);
    Regroup(front, Member(k, v), us, back);
    if Passed(k, junk) {
      EditInPlace(front, k, d, us + back, from, to, junk, v);
    } else {
      EditNothing(Object(front + ([Member(k, d)] + us) + back), k, d, from, to, junk, v);
    }
  }

  /** The members in front after one of them, if any is alike to k, has been detached. */
  function WithoutAlike(front: seq<Member>, k: string): seq<Member> {
    var i := KeyIndex(front, k, false);
    if i == -1 then front else RemoveIndex(front, i)
  }

  lemma ReplacedApplies(front: seq<Member>, back: seq<Member>, us: seq<Member>, u: Member, from: Json, to: Json,
          junk: char)
    requires UniqueKeys(front + ([u] + us) + back) && Named(u.key, junk) && Replaced(from, to)
    ensures var es := Diff(ComposedPath("", u.key, junk), from, to, true, junk);
      Generated(es) && ApplyEdits(Object(front + ([u] + us) + back), es) ==
      Outcome(0, Object(WithoutAlike(front, u.key) + us + (back + [Member(u.key, to)])))
  {
    Regroup(front, u, us, back);
    EditReplaced(front, u, us + back, from, to, junk);
    AppendAssociates(WithoutAlike(front, u.key), us, back);
    AppendAssociates(WithoutAlike(front, u.key) + us, back, [Member(u.key, to)]);
  }

  /** The members in front after the removal of u: u itself stays if another member was detached in its place. */
  function AfterRemoval(front: seq<Member>, u: Member): seq<Member> {
    var i := KeyIndex(front, u.key, false);
    if i == -1 then front else RemoveIndex(front, i) + [u]
  }

  lemma RemovalApplies(front: seq<Member>, back: seq<Member>, us: seq<Member>, u: Member, junk: char)
    requires Named(u.key, junk)
    ensures ApplyEdits(Object(front + ([u] + us) + back), [Edit("remove", ComposedPath("", u.key, junk), None)]) ==
      Outcome(0, Object(AfterRemoval(front, u) + us + back))
  {
    Regroup(front, u, us, back);
    RemoveFirst(front, u, us + back, junk);
    ApplyEditsOne(Object(front + ([u] + us) + back), Edit("remove", ComposedPath("", u.key, junk), None));
    AppendAssociates(AfterRemoval(front, u), us, back);
  }

  lemma AdditionApplies(front: seq<Member>, back: seq<Member>, us: seq<Member>, t: Member, junk: char)
    requires t.key !in Keys(front + us + back) && Named(t.key, junk)
    ensures ApplyEdits(Object(front + us + back), [Edit("add", ComposedPath("", t.key, junk), Some(t.value))]) ==
      Outcome(0, Object(front + us + (back + [t])))
  {
    assert t == Member(t.key, t.value);
    AddKey(front + us + back, t.key, t.value, junk);
    ApplyEditsOne(Object(front + us + back), Edit("add", ComposedPath("", t.key, junk), Some(t.value)));
    AppendAssociates(front + us, back, [t]);
  }

  lemma NoFields()
    ensures Keys([]) == {} && Fields([]) == map[]
  {
  }

  lemma NothingLeftClean(front: seq<Member>)
    ensures CleanRest(front, [], [])
  {
  }

  lemma OfFront(front: seq<Member>, back: seq<Member>, m: Member)
    requires Keys(front) !! Keys(back) && m in front + back && m.key in Keys(front)
    ensures m in front
  {
  }

  lemma GoalReached(front: seq<Member>, back: seq<Member>)
    requires Keys(front) !! Keys(back)
    ensures Fields(front + back) == Goal(front, back, [])
  {
    FieldsSum(front, back);
    NoFields();
  }

  lemma WalkEnds(front: seq<Member>, back: seq<Member>)
    requires WalkReady(front, back, [], [])
    ensures Walked(front, back, [], [], front + back)
  {
    UniqueSum(front, back);
    GoalReached(front, back);
    NothingLeftClean(front);
    forall m | m in front + back && m.key in Keys(front)
      ensures m in front
    {
      OfFront(front, back, m);
    }
  }

  // ---------------------------------------------------------------- the theorem

  ghost predicate FineTree(j: Json) { Unique(j) && Sized(j) }

  /** What the edits between two trees leave of the source that generation has left behind. */
  ghost predicate Exactly(from: Json, to: Json, junk: char, v: Json) {
    var es := Diff("", from, to, true, junk);
    Generated(es) && ApplyEdits(LeftSource(from, to, true), es) == Outcome(0, v) &&
    (Abs(v) == Abs(to) <==> Clean(from, to))
  }

  lemma {:induction false} EditsExactly(from: Json, to: Json, junk: char) returns (v: Json)
    requires FineTree(from) && FineTree(to) && Coded(from, to, junk)
    ensures Exactly(from, to, junk, v)
    decreases Weight(from), 0, 1
  {
    EditsInner(from, to, junk);
    if Replaced(from, to) {
      v := to;
      ApplyEditsOne(LeftSource(from, to, true), Edit("replace", "", Some(to)));
    } else if from.Array? {
      var rs := ItemsExactly([], from.items, to.items, junk);
      v := Array(rs);
      AppendNothing(LeftItems(from.items, to.items, true));
      AppendNothing(rs);
      AbsArray(rs);
      AbsArray(to.items);
    } else if from.Object? {
      v := ObjectExactly(from.members, to.members, junk);
    } else {
      v := from;
    }
  }

  // ---------------------------------------------------------------- arrays

  ghost predicate FineItems(items: seq<Json>) {
    |items| < SIZE_T && forall i :: 0 <= i < |items| ==> FineTree(items[i])
  }

  ghost predicate CleanItems(from: seq<Json>, to: seq<Json>) {
    forall i :: 0 <= i < |from| && i < |to| ==> Clean(from[i], to[i])
  }

  ghost predicate ItemsLeave(done: seq<Json>, ds: seq<Json>, es: seq<Edit>, rs: seq<Json>) {
    Generated(es) && ApplyEdits(Array(done + ds), es) == Outcome(0, Array(done + rs))
  }

  ghost predicate ItemsFit(done: seq<Json>, from: seq<Json>, to: seq<Json>, junk: char) {
    FineItems(from) && FineItems(to) && |done| + |from| < SIZE_T && |done| + |to| < SIZE_T &&
    forall i :: 0 <= i < |from| && i < |to| ==> Coded(from[i], to[i], junk)
  }

  lemma FitTail(done: seq<Json>, from: seq<Json>, to: seq<Json>, junk: char)
    requires ItemsFit(done, from, to, junk) && from != [] && to != []
    ensures FineTree(from[0]) && FineTree(to[0]) && Coded(from[0], to[0], junk)
  {
  }

  lemma FitBoth(done: seq<Json>, from: seq<Json>, to: seq<Json>, junk: char, v: Json)
    requires ItemsFit(done, from, to, junk) && from != [] && to != []
    ensures ItemsFit(done + [v], from[1..], to[1..], junk) && |done + [v]| == |done| + 1
  {
  }

  lemma FitFrom(done: seq<Json>, from: seq<Json>, to: seq<Json>, junk: char)
    requires ItemsFit(done, from, to, junk) && from != [] && to == []
    ensures ItemsFit(done, from[1..], to, junk)
  {
  }

  lemma FitTo(done: seq<Json>, from: seq<Json>, to: seq<Json>, junk: char)
    requires ItemsFit(done, from, to, junk) && from == [] && to != []
    ensures ItemsFit(done + [to[0]], from, to[1..], junk) && |done + [to[0]]| == |done| + 1
  {
  }

  lemma {:induction false} ItemsExactly(done: seq<Json>, from: seq<Json>, to: seq<Json>, junk: char)
    returns (rs: seq<Json>)
    requires ItemsFit(done, from, to, junk)
    ensures ItemsLeave(done, LeftItems(from, to, true), DiffItems("", |done|, from, to, true, junk), rs)
    ensures Values(rs) == Values(to) <==> CleanItems(from, to)
    decreases ItemsWeight(from), 1, |from| + |to|
  {
    if from != [] && to != [] {
      FitTail(done, from, to, junk);
      var v := EditsExactly(from[0], to[0], junk);
      FitBoth(done, from, to, junk, v);
      var rest := ItemsExactly(done + [v], from[1..], to[1..], junk);
      rs := [v] + rest;
      CommonItemLeaves(done, from, to, junk, v, rest);
      CommonItemValues(from, to, v, rest);
    } else if from != [] {
      FitFrom(done, from, to, junk);
      rs := ItemsExactly(done, from[1..], to, junk);
      SurplusItemLeaves(done, from, junk, rs);
      assert |LeftItems(from[1..], to, true)| == |from[1..]|;
    } else if to != [] {
      FitTo(done, from, to, junk);
      var rest := ItemsExactly(done + [to[0]], from, to[1..], junk);
      rs := [to[0]] + rest;
      NewItemLeaves(done, to, junk, rest);
      CommonItemValues([to[0]], to, to[0], rest);
    } else {
      rs := [];
    }
  }

  lemma SetNext(done: seq<Json>, d: Json, ds: seq<Json>, v: Json)
    ensures (done + ([d] + ds))[|done|] == d && (done + ([d] + ds))[|done| := v] == (done + [v]) + ds
  {
  }

  lemma CommonItemLeaves(done: seq<Json>, from: seq<Json>, to: seq<Json>, junk: char, v: Json, rest: seq<Json>)
    requires from != [] && to != [] && |done| + |from| < SIZE_T && Exactly(from[0], to[0], junk, v)
    requires ItemsLeave(done + [v], LeftItems(from[1..], to[1..], true),
                        DiffItems("", |done| + 1, from[1..], to[1..], true, junk), rest)
    ensures ItemsLeave(done, LeftItems(from, to, true), DiffItems("", |done|, from, to, true, junk), [v] + rest)
  {
    var left := LeftSource(from[0], to[0], true);
    var ds := LeftItems(from[1..], to[1..], true);
    var first := Diff("" + "/" + Decimal(|done|), from[0], to[0], true, junk);
    var all := done + ([left] + ds);
    SetNext(done, left, ds, v);
    EditItem(all, |done|, from[0], to[0], junk, v);
    ReachesThrough(Array(all), Array((done + [v]) + ds), first,
                   DiffItems("", |done| + 1, from[1..], to[1..], true, junk));
    AppendAssociates(done, [v], rest);
  }

  lemma SurplusItemLeaves(done: seq<Json>, from: seq<Json>, junk: char, rs: seq<Json>)
    requires from != [] && |done| + |from| < SIZE_T
    requires ItemsLeave(done, from[1..], DiffItems("", |done|, from[1..], [], true, junk), rs)
    ensures ItemsLeave(done, from, DiffItems("", |done|, from, [], true, junk), rs)
  {
    var e, all := Edit("remove", ComposedPath("", Decimal(|done|), junk), None), done + from;
    RemoveItem(all, |done|, junk);
    assert RemoveIndex(all, |done|) == done + from[1..];
    ApplyEditsOne(Array(all), e);
    ReachesThrough(Array(all), Array(done + from[1..]), [e], DiffItems("", |done|, from[1..], [], true, junk));
  }

  lemma NewItemLeaves(done: seq<Json>, to: seq<Json>, junk: char, rest: seq<Json>)
    requires to != []
    requires ItemsLeave(done + [to[0]], [], DiffItems("", |done| + 1, [], to[1..], true, junk), rest)
    ensures ItemsLeave(done, [], DiffItems("", |done|, [], to, true, junk), [to[0]] + rest)
  {
    var e := Edit("add", ComposedPath("", "-", junk), Some(to[0]));
    AppendItem(done, to[0], junk);
    AppendNothing(done);
    AppendNothing(done + [to[0]]);
    ApplyEditsOne(Array(done), e);
    ReachesThrough(Array(done), Array(done + [to[0]]), [e], DiffItems("", |done| + 1, [], to[1..], true, junk));
    AppendAssociates(done, [to[0]], rest);
  }

  lemma CommonItemValues(from: seq<Json>, to: seq<Json>, v: Json, rest: seq<Json>)
    requires from != [] && to != []
    ensures Values([v] + rest) == Values(to) <==> Abs(v) == Abs(to[0]) && Values(rest) == Values(to[1..])
    ensures CleanItems(from, to) <==> Clean(from[0], to[0]) && CleanItems(from[1..], to[1..])
  {
    HeadTail(to);
    ValuesCons(v, rest);
    ValuesCons(to[0], to[1..]);
    ConsTail(Abs(v), Values(rest));
    ConsTail(Abs(to[0]), Values(to[1..]));
    CleanHead(from, to);
  }

  lemma CleanHead(from: seq<Json>, to: seq<Json>)
    requires from != [] && to != []
    ensures CleanItems(from, to) <==> Clean(from[0], to[0]) && CleanItems(from[1..], to[1..])
  {
    assert forall i :: 0 < i < |from| && i < |to| ==> from[1..][i - 1] == from[i] && to[1..][i - 1] == to[i];
    if Clean(from[0], to[0]) && CleanItems(from[1..], to[1..]) {
      forall i | 0 <= i < |from| && i < |to|
        ensures Clean(from[i], to[i])
      {
        assert i > 0 ==> Clean(from[1..][i - 1], to[1..][i - 1]);
      }
    }
  }

  // ---------------------------------------------------------------- objects

  /** The edits of what is left of the two lists turn the document into r. */
  ghost predicate WalkLeaves(front: seq<Member>, back: seq<Member>, from: seq<Member>, to: seq<Member>, junk: char,
          r: seq<Member>) {
    var es := DiffMembers("", from, to, true, junk);
    Generated(es) && ApplyEdits(Object(front + LeftMembers(from, to, true) + back), es) == Outcome(0, Object(r))
  }

  lemma {:induction false} Walk(front: seq<Member>, back: seq<Member>, from: seq<Member>, to: seq<Member>, junk: char)
    returns (r: seq<Member>)
    requires WalkReady(front, back, from, to) && CodedWalk(from, to, junk)
    ensures WalkLeaves(front, back, from, to, junk, r) && Walked(front, back, from, to, r)
    decreases MembersWeight(from), 1, |from| + |to|
  {
    if from == [] && to == [] {
      r := front + back;
      AppendNothing(front);
      WalkEnds(front, back);
    } else {
      var diff := MergeOrder(from, to, true);
      if diff == 0 {
        CompareTotal(from[0].key, to[0].key, true);
        if Replaced(from[0].value, to[0].value) {
          r := WalkReplaced(front, back, from, to, junk);
        } else {
          r := WalkStays(front, back, from, to, junk);
        }
      } else if diff < 0 {
        r := WalkRemoved(front, back, from, to, junk);
      } else {
        r := WalkNew(front, back, from, to, junk);
      }
    }
  }

  /** A common member that is edited in its place, or not at all. */
  lemma {:induction false} MemberExactly(f: Member, t: Json, junk: char) returns (v: Json)
    requires FineTree(f.value) && FineTree(t) && CodedCommon(f, t, junk) && !Replaced(f.value, t)
    ensures Exactly(f.value, t, junk, v)
    decreases Weight(f.value), 0, 2
  {
    if Abs(f.value) == Abs(t) {
      v := LeftSource(f.value, t, true);
      DiffSame("", f.value, t, junk);
      LeftSourceIs(f.value, t);
      SameClean(f.value, t);
    } else {
      v := EditsExactly(f.value, t, junk);
    }
  }

  /** Trees with the same value meet the condition. */
  lemma {:induction false} SameClean(from: Json, to: Json)
    requires Unique(from) && Unique(to) && Abs(from) == Abs(to)
    ensures Clean(from, to)
    decreases from
  {
    if from.Array? {
      AbsArray(from.items);
      AbsArray(to.items);
      forall i | 0 <= i < |from.items| && i < |to.items|
        ensures Clean(from.items[i], to.items[i])
      {
        assert Values(from.items)[i] == Values(to.items)[i];
        SameClean(from.items[i], to.items[i]);
      }
    } else if from.Object? {
      AbsObject(from.members);
      AbsObject(to.members);
      SameMembersClean(from.members, to.members);
    }
  }

  lemma {:induction false} SameMembersClean(from: seq<Member>, to: seq<Member>)
    requires Unique(Object(from)) && Unique(Object(to)) && Fields(from) == Fields(to)
    ensures Clean(Object(from), Object(to))
    decreases from
  {
    forall i | 0 <= i < |from|
      ensures Stays(from[i], to) && ChildClean(from[i], to)
    {
      var t := SameMember(from, to, i);
      SameClean(from[i].value, to[t].value);
    }
    AllStay(from, to);
  }

  lemma AllStay(from: seq<Member>, to: seq<Member>)
    requires forall i :: 0 <= i < |from| ==> Stays(from[i], to) && ChildClean(from[i], to)
    ensures Clean(Object(from), Object(to))
  {
    assert StaysTogether(from, to);
  }

  lemma SameMember(from: seq<Member>, to: seq<Member>, i: nat) returns (j: nat)
    requires UniqueKeys(from) && UniqueKeys(to) && Fields(from) == Fields(to) && i < |from|
    ensures j < |to| && IndexOf(to, from[i].key) == j && Abs(from[i].value) == Abs(to[j].value)
  {
    FieldOf(from, i);
    assert from[i].key in Fields(to).Keys;
    j := IndexOf(to, from[i].key);
    FieldOf(to, j);
  }

  lemma {:induction false} WalkStays(front: seq<Member>, back: seq<Member>, from: seq<Member>, to: seq<Member>,
          junk: char)
    returns (r: seq<Member>)
    requires WalkReady(front, back, from, to) && from != [] && to != [] && MergeOrder(from, to, true) == 0
    requires from[0].key == to[0].key && !Replaced(from[0].value, to[0].value)
    requires CodedWalk(from, to, junk)
    ensures WalkLeaves(front, back, from, to, junk, r) && Walked(front, back, from, to, r)
    decreases MembersWeight(from), 1, |from| + |to|, 0
  {
    var v := MemberExactly(from[0], to[0].value, junk);
    var u := Member(from[0].key, v);
    StayReady(front, back, from, to, v);
    r := Walk(front + [u], back, from[1..], to[1..], junk);
    StayStep(front, back, from, to, u, r);
    StayLeaves(front, back, from, to, junk, u, r);
  }

  lemma StayLeaves(front: seq<Member>, back: seq<Member>, from: seq<Member>, to: seq<Member>, junk: char, u: Member,
          r: seq<Member>)
    requires WalkReady(front, back, from, to) && from != [] && to != [] && MergeOrder(from, to, true) == 0
    requires from[0].key == u.key && !Replaced(from[0].value, to[0].value)
    requires Exactly(from[0].value, to[0].value, junk, u.value) && CodedWalk(from, to, junk)
    requires WalkLeaves(front + [u], back, from[1..], to[1..], junk, r)
    ensures WalkLeaves(front, back, from, to, junk, r)
  {
    var us, f, t := LeftMembers(from[1..], to[1..], true), from[0].value, to[0].value;
    DocumentUnique(front, LeftMembers(from, to, true), back, from, to);
    StayApplies(front, back, us, u.key, LeftSource(f, t, true), f, t, junk, u.value);
    ReachesThrough(Object(front + LeftMembers(from, to, true) + back), Object((front + [u]) + us + back),
                   Diff(ComposedPath("", u.key, junk), f, t, true, junk),
                   DiffMembers("", from[1..], to[1..], true, junk));
  }

  lemma {:induction false} WalkReplaced(front: seq<Member>, back: seq<Member>, from: seq<Member>, to: seq<Member>,
          junk: char)
    returns (r: seq<Member>)
    requires WalkReady(front, back, from, to) && from != [] && to != [] && MergeOrder(from, to, true) == 0
    requires from[0].key == to[0].key && Replaced(from[0].value, to[0].value)
    requires CodedWalk(from, to, junk)
    ensures WalkLeaves(front, back, from, to, junk, r) && Walked(front, back, from, to, r)
    decreases MembersWeight(from), 1, |from| + |to|, 0
  {
    var k := from[0].key;
    ReplacedReady(front, back, from, to);
    if KeyIndex(front, k, false) != -1 {
      DropReady(front, back + [to[0]], from[1..], to[1..], KeyIndex(front, k, false));
    }
    r := Walk(WithoutAlike(front, k), back + [to[0]], from[1..], to[1..], junk);
    if KeyIndex(front, k, false) == -1 {
      ReplacedStep(front, back, from, to, r);
    } else {
      WrongReplacementStep(front, back, from, to, r);
    }
    ReplacedLeaves(front, back, from, to, junk, r);
  }

  lemma ReplacedLeaves(front: seq<Member>, back: seq<Member>, from: seq<Member>, to: seq<Member>, junk: char,
          r: seq<Member>)
    requires WalkReady(front, back, from, to) && from != [] && to != [] && MergeOrder(from, to, true) == 0
    requires from[0].key == to[0].key && Replaced(from[0].value, to[0].value) && CodedWalk(from, to, junk)
    requires WalkLeaves(WithoutAlike(front, from[0].key), back + [to[0]], from[1..], to[1..], junk, r)
    ensures WalkLeaves(front, back, from, to, junk, r)
  {
    var us, f, t, k := LeftMembers(from[1..], to[1..], true), from[0].value, to[0].value, from[0].key;
    DocumentUnique(front, LeftMembers(from, to, true), back, from, to);
    assert to[0] == Member(k, t);
    ReplacedApplies(front, back, us, Member(k, LeftSource(f, t, true)), f, t, junk);
    ReachesThrough(Object(front + LeftMembers(from, to, true) + back),
                   Object(WithoutAlike(front, k) + us + (back + [to[0]])),
                   Diff(ComposedPath("", k, junk), f, t, true, junk),
                   DiffMembers("", from[1..], to[1..], true, junk));
  }

  lemma {:induction false} WalkRemoved(front: seq<Member>, back: seq<Member>, from: seq<Member>, to: seq<Member>,
          junk: char)
    returns (r: seq<Member>)
    requires WalkReady(front, back, from, to) && from != [] && MergeOrder(from, to, true) < 0
    requires CodedWalk(from, to, junk)
    ensures WalkLeaves(front, back, from, to, junk, r) && Walked(front, back, from, to, r)
    decreases MembersWeight(from), 1, |from| + |to|, 0
  {
    SmallerKeyAbsent(from[0].key, to);
    RemovedReady(front, back, from, to);
    r := Walk(AfterRemoval(front, from[0]), back, from[1..], to, junk);
    RemovedStep(front, back, from, to, r);
    RemovedLeaves(front, back, from, to, junk, r);
  }

  lemma RemovedStep(front: seq<Member>, back: seq<Member>, from: seq<Member>, to: seq<Member>, r: seq<Member>)
    requires WalkReady(front, back, from, to) && from != [] && from[0].key !in Keys(to)
    requires Walked(AfterRemoval(front, from[0]), back, from[1..], to, r)
    ensures Walked(front, back, from, to, r)
  {
    if KeyIndex(front, from[0].key, false) == -1 {
      GoneStep(front, back, from, to, r);
    } else {
      WrongRemovalStep(front, back, from, to, from[0], r);
    }
  }

  lemma RemovedLeaves(front: seq<Member>, back: seq<Member>, from: seq<Member>, to: seq<Member>, junk: char,
          r: seq<Member>)
    requires Fine(from) && from != [] && MergeOrder(from, to, true) < 0 && Restored(from[0].key, junk)
    requires WalkLeaves(AfterRemoval(front, from[0]), back, from[1..], to, junk, r)
    ensures WalkLeaves(front, back, from, to, junk, r)
  {
    var u, us := from[0], LeftMembers(from[1..], to, true);
    RemovalApplies(front, back, us, u, junk);
    ReachesThrough(Object(front + LeftMembers(from, to, true) + back), Object(AfterRemoval(front, u) + us + back),
                   [Edit("remove", ComposedPath("", u.key, junk), None)],
                   DiffMembers("", from[1..], to, true, junk));
  }

  lemma RemovedReady(front: seq<Member>, back: seq<Member>, from: seq<Member>, to: seq<Member>)
    requires WalkReady(front, back, from, to) && from != [] && from[0].key !in Keys(to)
    ensures WalkReady(AfterRemoval(front, from[0]), back, from[1..], to)
  {
    var u, i := from[0], KeyIndex(front, from[0].key, false);
    GoneReady(front, back, from, to);
    if i != -1 {
      HeadKeys(from);
      DropReady(front, back, from[1..], to, i);
      RemovedKeys(front, i);
      assert u == Member(u.key, u.value);
      AppendedKeys(RemoveIndex(front, i), u.key, u.value);
    }
  }

  lemma {:induction false} WalkNew(front: seq<Member>, back: seq<Member>, from: seq<Member>, to: seq<Member>,
          junk: char)
    returns (r: seq<Member>)
    requires WalkReady(front, back, from, to) && to != [] && MergeOrder(from, to, true) > 0
    requires CodedWalk(from, to, junk)
    ensures WalkLeaves(front, back, from, to, junk, r) && Walked(front, back, from, to, r)
    decreases MembersWeight(from), 1, |from| + |to|, 0
  {
    NewKeyAbsent(from, to);
    NewReady(front, back, from, to);
    r := Walk(front, back + [to[0]], from, to[1..], junk);
    NewStep(front, back, from, to, r);
    NewLeaves(front, back, from, to, junk, r);
  }

  lemma NewLeaves(front: seq<Member>, back: seq<Member>, from: seq<Member>, to: seq<Member>, junk: char, r: seq<Member>)
    requires WalkReady(front, back, from, to) && to != [] && MergeOrder(from, to, true) > 0 && to[0].key !in Keys(from)
    requires Restored(to[0].key, junk)
    requires WalkLeaves(front, back + [to[0]], from, to[1..], junk, r)
    ensures WalkLeaves(front, back, from, to, junk, r)
  {
    var t, us := to[0], LeftMembers(from, to, true);
    HeadKeys(to);
    DocumentUnique(front, us, back, from, to);
    AdditionApplies(front, back, us, t, junk);
    ReachesThrough(Object(front + us + back), Object(front + us + (back + [t])),
                   [Edit("add", ComposedPath("", t.key, junk), Some(t.value))],
                   DiffMembers("", from, to[1..], true, junk));
  }

  lemma {:induction false} ObjectExactly(from: seq<Member>, to: seq<Member>, junk: char) returns (v: Json)
    requires FineTree(Object(from)) && FineTree(Object(to)) && Coded(Object(from), Object(to), junk)
    ensures Exactly(Object(from), Object(to), junk, v)
    decreases Weight(Object(from)), 0, 0
  {
    var fs, ts := SortMembers(from, true), SortMembers(to, true);
    StartWalk(from, to);
    SortedCoded(from, to, junk);
    var r := Walk([], [], fs, ts, junk);
    v := Object(r);
    NothingAround(LeftMembers(fs, ts, true));
    WalkedObject(from, to, r);
  }

  lemma NothingAround(us: seq<Member>)
    ensures [] + us + [] == us
  {
  }

  lemma StartWalk(from: seq<Member>, to: seq<Member>)
    requires FineTree(Object(from)) && FineTree(Object(to))
    ensures WalkReady([], [], SortMembers(from, true), SortMembers(to, true))
  {
    NoFields();
    FineSorted(from);
    FineSorted(to);
  }

  lemma WholeGoal(to: seq<Member>)
    requires UniqueKeys(to)
    ensures Goal([], [], SortMembers(to, true)) == Fields(to)
  {
    UniqueDistinct(to);
    SortedStrictly(to, true);
    NoFields();
  }

  lemma WalkedObject(from: seq<Member>, to: seq<Member>, r: seq<Member>)
    requires UniqueKeys(from) && UniqueKeys(to)
    requires Walked([], [], SortMembers(from, true), SortMembers(to, true), r)
    ensures Abs(Object(r)) == Abs(Object(to)) <==> Clean(Object(from), Object(to))
  {
    AbsObject(r);
    AbsObject(to);
    WholeGoal(to);
    SortedCondition(from, to);
  }

  lemma FineSorted(ms: seq<Member>)
    requires FineTree(Object(ms))
    ensures UniqueKeys(ms) && Increasing(SortMembers(ms, true)) && Fine(SortMembers(ms, true))
  {
    var ss := SortMembers(ms, true);
    UniqueDistinct(ms);
    SortedStrictly(ms, true);
    SortPermutes(ms, KeyOf, true);
    SameMembers(ss, ms);
    forall i | 0 <= i < |ss|
      ensures NUL !in ss[i].key && Sized(ss[i].value) && Unique(ss[i].value)
    {
      assert ss[i] in ms;
    }
  }

  /** The condition of the walk over the sorted lists is the condition on the objects. */
  lemma SortedCondition(from: seq<Member>, to: seq<Member>)
    requires UniqueKeys(from) && UniqueKeys(to)
    ensures CleanRest([], SortMembers(from, true), SortMembers(to, true)) <==> Clean(Object(from), Object(to))
  {
    var fs, ts := SortMembers(from, true), SortMembers(to, true);
    SortPermutes(from, KeyOf, true);
    SameMembers(fs, from);
    SortPermutes(to, KeyOf, true);
    SameMembers(ts, to);
    UniqueDistinct(to);
    SortedStrictly(to, true);
    forall b | b in fs
      ensures (IndexOf(ts, b.key) >= 0 <==> IndexOf(to, b.key) >= 0) &&
        (IndexOf(ts, b.key) >= 0 ==> ts[IndexOf(ts, b.key)].value == to[IndexOf(to, b.key)].value)
    {
      PermutedTarget(to, ts, b.key);
    }
    CleanRestSame([], fs, ts, to);
    SameCondition(from, fs, to);
  }

  lemma SameCondition(from: seq<Member>, fs: seq<Member>, to: seq<Member>)
    requires forall m :: m in fs <==> m in from
    ensures CleanRest([], fs, to) <==> Clean(Object(from), Object(to))
  {
    assert Clean(Object(from), Object(to)) <==>
      StaysTogether(from, to) && forall b :: b in from ==> ChildClean(b, to) by {
      assert forall i :: 0 <= i < |from| ==> from[i] in from;
    }
  }

  // ---------------------------------------------------------------- what generation leaves

  lemma LeftSourceIs(from: Json, to: Json)
    requires Unique(from)
    ensures Abs(LeftSource(from, to, true)) == Abs(from) && Unique(LeftSource(from, to, true))
  {
    UniqueComparable(from);
    SourceReorders(from, to, true, true);
    UniqueComparable(LeftSource(from, to, true));
  }

  /** A source without keys that differ in letter case only meets the condition for every target. */
  lemma {:induction false} FoldOkClean(from: Json, to: Json)
    requires FoldOk(from)
    ensures Clean(from, to)
    decreases from
  {
    if SameType(from, to) && from.Array? {
      forall i | 0 <= i < |from.items| && i < |to.items|
        ensures Clean(from.items[i], to.items[i])
      {
        FoldOkClean(from.items[i], to.items[i]);
      }
    } else if SameType(from, to) && from.Object? {
      var ms := from.members;
      forall i | 0 <= i < |ms| && IndexOf(to.members, ms[i].key) >= 0
        ensures Clean(ms[i].value, to.members[IndexOf(to.members, ms[i].key)].value)
      {
        FoldOkClean(ms[i].value, to.members[IndexOf(to.members, ms[i].key)].value);
      }
      forall a, b | a in ms && b in ms && Alike(a.key, b.key)
        ensures StrCmp(a.key, b.key) == 0
      {
        var i :| 0 <= i < |ms| && ms[i] == a;
        var j :| 0 <= j < |ms| && ms[j] == b;
        StrCmpZero(a.key, b.key);
        assert i == j;
      }
    }
  }

  // ---------------------------------------------------------------- the result

  /**
   Patching the very document that the patches were generated from reaches the target if and only if every path
   names its node and, in all objects walked through, the members alike to one that stays, and sorted behind it,
   stay as well. If every path names its node, the status is 0 even when the target is missed.
   */
  lemma DiffThenPatchExactly(from: Json, to: Json, junk: char)
    requires Unique(from) && Unique(to) && Sized(from) && Sized(to)
    ensures Abs(LeftSource(from, to, true)) == Abs(from)
    ensures var r := ApplyPatches(LeftSource(from, to, true), GeneratePatches(from, to, true, junk), true);
      (r.status == 0 && Abs(r.doc) == Abs(to) <==> Coded(from, to, junk) && Clean(from, to)) &&
      (Coded(from, to, junk) ==> r.status == 0)
  {
    LeftSourceIs(from, to);
    if Coded(from, to, junk) {
      var v := EditsExactly(from, to, junk);
      ComposedAllApply(LeftSource(from, to, true), Diff("", from, to, true, junk));
    } else {
      PatchMiscoded.MiscodedFails(LeftSource(from, to, true), from, to, junk);
    }
  }
}
