/**
 Diff then patch reaches the target: applying the generated patches in order to a document with the
 value of `from` succeeds and leaves a document with the value of `to`.
 */
module PatchRoundTrip {
  import opened CStrings
  import opened Sorting
  import opened JsonValues
  import opened Seqs
  import opened Pointers
  import opened PointerEncoding
  import opened Compare
  import opened MemberLists
  import opened Patches
  import opened KeyCoding
  import opened PatchCoding
  import opened PatchLocality

  // ---------------------------------------------------------------- the documents this is about

  /** No object in the tree has two keys that differ in letter case only. */
  predicate FoldOk(j: Json) {
    match j
    case Array(items) => forall i :: 0 <= i < |items| ==> FoldOk(items[i])
    case Object(ms) => FoldDistinct(ms) && forall i :: 0 <= i < |ms| ==> FoldOk(ms[i].value)
    case _ => true
  }

  // ---------------------------------------------------------------- single edits at a container

  lemma KeySelects(ms: seq<Member>, i: nat, junk: char)
    requires UniqueKeys(ms) && i < |ms| && NUL !in ms[i].key && Passed(ms[i].key, junk)
    ensures Selects(Object(ms), Token(ms[i].key, junk), i)
  {
    PassedSelects(ms, i, junk);
  }

  lemma IndexSelects(items: seq<Json>, i: nat)
    requires i < |items| < SIZE_T
    ensures Selects(Array(items), Decimal(i), i)
  {
    forall rest | Ends(rest)
      ensures ChildAt(Array(items), Decimal(i) + rest, true) == Some(i)
    {
      DecodeDecimal(i, rest);
    }
  }

  lemma OneToken(text: string)
    requires '/' !in text
    ensures LastSlash("/" + text) == 0 && ChildToken("/" + text) == DecodedText(text)
    ensures forall doc :: FindParent(doc, "/" + text, true) == Some([])
  {
    LastSlashIs("/" + text, 0);
    assert ("/" + text)[1..] == text;
  }

  lemma DecimalPlain(n: nat)
    ensures PlainKey(Decimal(n)) && Decimal(n) != "-"
  {
  }

  lemma ComposedAtRoot(k: string, junk: char)
    ensures ComposedPath("", k, junk) == "/" + Token(k, junk)
  {
    assert "" + "/" == "/";
  }

  /** The path of a key that is written and read back as it is. */
  lemma NamedAtRoot(k: string, junk: char)
    requires Named(k, junk)
    ensures var p := ComposedPath("", k, junk);
      p != "" && LastSlash(p) == 0 && ChildToken(p) == k && forall doc :: FindParent(doc, p, true) == Some([])
  {
    ComposedAtRoot(k, junk);
    RestoredToken(k, junk);
    OneToken(Token(k, junk));
  }

  lemma PlainNamed(k: string, junk: char)
    requires PlainKey(k)
    ensures Named(k, junk) && ComposedPath("", k, junk) == "/" + k
  {
    PlainRestored(k, junk);
    ComposedAtRoot(k, junk);
  }

  lemma DecodeWhole(i: nat)
    requires i < SIZE_T
    ensures DecodeIndex(Decimal(i)) == Some(i)
  {
    DecodeDecimal(i, "");
    assert Decimal(i) + "" == Decimal(i);
  }

  lemma RemoveItem(items: seq<Json>, i: nat, junk: char)
    requires i < |items| < SIZE_T
    ensures ApplyEdit(Array(items), Edit("remove", ComposedPath("", Decimal(i), junk), None)) ==
      Outcome(0, Array(RemoveIndex(items, i)))
  {
    var token := Decimal(i);
    DecimalPlain(i);
    PlainNamed(token, junk);
    NamedAtRoot(token, junk);
    DetachItem(items, i, "/" + token);
  }

  lemma DetachItem(items: seq<Json>, i: nat, path: string)
    requires i < |items| < SIZE_T && ChildToken(path) == Decimal(i) && FindParent(Array(items), path, true) == Some([])
    ensures DetachPath(Array(items), path, true) == Cut(items[i], Array(RemoveIndex(items, i)))
  {
    DecodeWhole(i);
  }

  lemma AppendItem(items: seq<Json>, v: Json, junk: char)
    ensures ApplyEdit(Array(items), Edit("add", ComposedPath("", "-", junk), Some(v))) == Outcome(0, Array(items + [v]))
  {
    PlainNamed("-", junk);
    NamedAtRoot("-", junk);
  }

  lemma ReplaceItem(items: seq<Json>, i: nat, v: Json)
    requires i < |items| < SIZE_T
    ensures ApplyEdit(Array(items), Edit("replace", "/" + Decimal(i), Some(v))) == Outcome(0, Array(items[i := v]))
  {
    var token, rest := Decimal(i), RemoveIndex(items, i);
    DecimalPlain(i);
    OneToken(token);
    DecodedPlain(token);
    DecodeWhole(i);
    assert DetachPath(Array(items), "/" + token, true) == Cut(items[i], Array(rest));
    PutBackItem(items, i, v);
    assert AddAt(Array(rest), "/" + token, v, true) == Outcome(0, Array(items[i := v]));
  }

  lemma PutBackItem(items: seq<Json>, i: nat, v: Json)
    requires i < |items|
    ensures RemoveIndex(items, i)[..i] + [v] + RemoveIndex(items, i)[i..] == items[i := v]
  {
  }

  lemma RemoveKey(ms: seq<Member>, i: nat, junk: char)
    requires UniqueKeys(ms) && i < |ms| && Named(ms[i].key, junk) && Safe(ms, ms[i].key)
    ensures ApplyEdit(Object(ms), Edit("remove", ComposedPath("", ms[i].key, junk), None)) ==
      Outcome(0, Object(RemoveIndex(ms, i)))
  {
    NamedAtRoot(ms[i].key, junk);
    KeyIndexIs(ms, i);
    assert DetachPath(Object(ms), ComposedPath("", ms[i].key, junk), true) ==
      Cut(ms[i].value, Object(RemoveIndex(ms, i)));
  }

  lemma AddKey(ms: seq<Member>, k: string, v: Json, junk: char)
    requires k !in Keys(ms) && Named(k, junk)
    ensures ApplyEdit(Object(ms), Edit("add", ComposedPath("", k, junk), Some(v))) ==
      Outcome(0, Object(ms + [Member(k, v)]))
  {
    NamedAtRoot(k, junk);
    KeyIndexNone(ms, k);
    assert AddAt(Object(ms), ComposedPath("", k, junk), v, true) == Outcome(0, Object(ms + [Member(k, v)]));
  }

  /** Replacing a member moves it to the end. */
  lemma ReplaceKey(ms: seq<Member>, i: nat, v: Json, junk: char)
    requires UniqueKeys(ms) && i < |ms| && Named(ms[i].key, junk) && Safe(ms, ms[i].key)
    ensures ApplyEdit(Object(ms), Edit("replace", ComposedPath("", ms[i].key, junk), Some(v))) ==
      Outcome(0, Object(MovedToEnd(ms, i, v)))
  {
    var k, rest, p := ms[i].key, RemoveIndex(ms, i), ComposedPath("", ms[i].key, junk);
    NamedAtRoot(k, junk);
    KeyIndexIs(ms, i);
    assert DetachPath(Object(ms), p, true) == Cut(ms[i].value, Object(rest));
    RemovedKeys(ms, i);
    KeyIndexNone(rest, k);
    assert AddAt(Object(rest), p, v, true) == Outcome(0, Object(rest + [Member(k, v)]));
  }

  // ---------------------------------------------------------------- the edits of one child

  /** What the theorem says about one subtree. */
  ghost predicate Reaches(d: Json, from: Json, to: Json, junk: char) {
    var es := Diff("", from, to, true, junk);
    Generated(es) && ApplyEdits(d, es).status == 0 && Abs(ApplyEdits(d, es).doc) == Abs(to)
  }

  lemma PrefixedRoot(p: string, to: Json)
    ensures Prefixed(p, [Edit("replace", "", Some(to))]) == [Edit("replace", p, Some(to))]
  {
    assert p + "" == p;
  }

  lemma ApplyEditsOne(d: Json, e: Edit)
    requires OpOf(e) != InvalidOp
    ensures ApplyEdits(d, [e]) == ApplyEdit(d, e)
  {
    assert [e][1..] == [];
  }

  lemma EditsInner(from: Json, to: Json, junk: char)
    ensures var es := Diff("", from, to, true, junk);
      Generated(es) && if Replaced(from, to) then es == [Edit("replace", "", Some(to))] else Inner(es)
  {
    DiffShape(from, to, junk);
    if SameType(from, to) && from.Array? {
      DiffItemsInner(0, from.items, to.items, junk);
    } else if SameType(from, to) && from.Object? {
      DiffMembersInner(SortMembers(from.members, true), SortMembers(to.members, true), junk);
    }
  }

  lemma ItemEdits(items: seq<Json>, i: nat, from: Json, to: Json, junk: char) returns (v: Json)
    requires i < |items| < SIZE_T && Reaches(items[i], from, to, junk)
    ensures Abs(v) == Abs(to)
    ensures var es := Diff("" + "/" + Decimal(i), from, to, true, junk);
      Generated(es) && ApplyEdits(Array(items), es) == Outcome(0, Array(items[i := v]))
  {
    var p, es := "" + "/" + Decimal(i), Diff("", from, to, true, junk);
    DiffMovesDown(p, "", from, to, junk);
    assert p + "" == p && p == "/" + Decimal(i);
    DiffShape(from, to, junk);
    if es == [Edit("replace", "", Some(to))] {
      v := to;
      PrefixedRoot(p, to);
      ReplaceItem(items, i, to);
      ApplyEditsOne(Array(items), Edit("replace", p, Some(to)));
    } else {
      v := ApplyEdits(items[i], es).doc;
      IndexSelects(items, i);
      EditsAreLocal(Array(items), Decimal(i), i, es);
    }
  }

  /** The member list r is ms with the value at i set: in place, or moved to the end. */
  ghost predicate MemberSet(ms: seq<Member>, i: nat, v: Json, r: seq<Member>)
    requires i < |ms|
  {
    r == Updated(ms, i, v) || r == MovedToEnd(ms, i, v)
  }

  lemma MemberSetFields(ms: seq<Member>, i: nat, v: Json, r: seq<Member>)
    requires UniqueKeys(ms) && i < |ms| && MemberSet(ms, i, v, r)
    ensures UniqueKeys(r) && Fields(r) == Fields(ms)[ms[i].key := Abs(v)]
  {
    if r == Updated(ms, i, v) {
      UpdatedFields(ms, i, v);
    } else {
      MovedFields(ms, i, v);
    }
  }

  lemma MemberSetSafe(ms: seq<Member>, i: nat, v: Json, r: seq<Member>, k: string)
    requires i < |ms| && MemberSet(ms, i, v, r) && Safe(ms, k) && k != ms[i].key
    ensures Safe(r, k)
  {
    if r == Updated(ms, i, v) {
      UpdatedSafe(ms, i, v, k);
    } else {
      RemovedSafe(ms, i, k);
      AppendedSafe(RemoveIndex(ms, i), ms[i].key, v, k);
    }
  }

  lemma MemberEdits(ms: seq<Member>, i: nat, from: Json, to: Json, junk: char) returns (v: Json, r: seq<Member>)
    requires UniqueKeys(ms) && i < |ms| && NUL !in ms[i].key && Safe(ms, ms[i].key)
    requires if Replaced(from, to) then Restored(ms[i].key, junk) else Passed(ms[i].key, junk)
    requires Reaches(ms[i].value, from, to, junk)
    ensures MemberSet(ms, i, v, r) && Abs(v) == Abs(to)
    ensures var es := Diff(ComposedPath("", ms[i].key, junk), from, to, true, junk);
      Generated(es) && ApplyEdits(Object(ms), es) == Outcome(0, Object(r))
  {
    var k := ms[i].key;
    var p, es := ComposedPath("", k, junk), Diff("", from, to, true, junk);
    ComposedAtRoot(k, junk);
    DiffMovesDown(p, "", from, to, junk);
    AppendNothing(p);
    EditsInner(from, to, junk);
    if Replaced(from, to) {
      v, r := to, MovedToEnd(ms, i, to);
      PrefixedRoot(p, to);
      ReplaceKey(ms, i, to, junk);
      ApplyEditsOne(Object(ms), Edit("replace", p, Some(to)));
    } else {
      v := ApplyEdits(ms[i].value, es).doc;
      r := Updated(ms, i, v);
      KeySelects(ms, i, junk);
      EditsAreLocal(Object(ms), Token(k, junk), i, es);
    }
  }

  /** A common member with one value on both sides is left alone. */
  lemma MemberUnedited(ms: seq<Member>, i: nat, from: Json, to: Json, junk: char) returns (v: Json, r: seq<Member>)
    requires i < |ms| && Unique(from) && Unique(to) && Abs(from) == Abs(to) == Abs(ms[i].value)
    ensures MemberSet(ms, i, v, r) && Abs(v) == Abs(to)
    ensures var es := Diff(ComposedPath("", ms[i].key, junk), from, to, true, junk);
      Generated(es) && ApplyEdits(Object(ms), es) == Outcome(0, Object(r))
  {
    DiffSame(ComposedPath("", ms[i].key, junk), from, to, junk);
    v, r := ms[i].value, ms;
    assert Updated(ms, i, v) == ms;
  }

  // ---------------------------------------------------------------- the theorem

  /** Two documents with one value, and what the diff needs of the source and target trees. */
  ghost predicate Ready(d: Json, from: Json, to: Json, junk: char) {
    Abs(d) == Abs(from) && Unique(d) && FoldOk(from) && Unique(to) && Sized(from) && Sized(to) && Coded(from, to, junk)
  }

  lemma {:induction false} EditsReachTarget(d: Json, from: Json, to: Json, junk: char)
    requires Ready(d, from, to, junk)
    ensures Reaches(d, from, to, junk)
    decreases Weight(from), 0, 1
  {
    DiffGenerated("", from, to, junk);
    if SameType(from, to) && from.Array? {
      AbsArray(from.items);
      AbsArray(d.items);
      AbsArray(to.items);
      ItemsReachTarget([], d.items, from.items, to.items, junk);
      assert [] + d.items == d.items && [] + Values(to.items) == Values(to.items) && Values([]) == [];
    } else if SameType(from, to) && from.Object? {
      ObjectReachesTarget(d, from, to, junk);
    } else {
      var es := Diff("", from, to, true, junk);
      if es != [] {
        ApplyEditsOne(d, es[0]);
      }
    }
  }

  // ---------------------------------------------------------------- arrays

  ghost predicate ItemsReady(done: seq<Json>, ds: seq<Json>, from: seq<Json>, to: seq<Json>, junk: char) {
    Values(ds) == Values(from) &&
    (forall i :: 0 <= i < |ds| ==> Unique(ds[i])) &&
    (forall i :: 0 <= i < |from| ==> FoldOk(from[i]) && Sized(from[i])) &&
    (forall i :: 0 <= i < |to| ==> Unique(to[i]) && Sized(to[i])) &&
    (forall i :: 0 <= i < |from| && i < |to| ==> Coded(from[i], to[i], junk)) &&
    |done| + |from| < SIZE_T && |done| + |to| < SIZE_T
  }

  lemma ItemsReadyTail(done: seq<Json>, ds: seq<Json>, from: seq<Json>, to: seq<Json>, junk: char, v: Json)
    requires ItemsReady(done, ds, from, to, junk) && from != [] && to != []
    ensures ds != [] && Ready(ds[0], from[0], to[0], junk) && |done| + |ds| < SIZE_T
    ensures ItemsReady(done + [v], ds[1..], from[1..], to[1..], junk)
  {
    assert |Values(ds)| == |ds| && |Values(from)| == |from|;
    assert Values(ds)[0] == Abs(ds[0]) && Values(from)[0] == Abs(from[0]);
    assert Values(ds[1..]) == Values(ds)[1..] && Values(from[1..]) == Values(from)[1..];
  }

  lemma ItemsReadyRest(done: seq<Json>, ds: seq<Json>, from: seq<Json>, to: seq<Json>, junk: char)
    requires ItemsReady(done, ds, from, to, junk) && from != [] && to == []
    ensures ds != [] && |done| + |ds| < SIZE_T && ItemsReady(done, ds[1..], from[1..], to, junk)
  {
    assert |Values(ds)| == |ds| && |Values(from)| == |from|;
    assert Values(ds[1..]) == Values(ds)[1..] && Values(from[1..]) == Values(from)[1..];
  }

  lemma ValuesSnoc(done: seq<Json>, v: Json, to: seq<Json>)
    requires to != [] && Abs(v) == Abs(to[0])
    ensures Values(done + [v]) + Values(to[1..]) == Values(done) + Values(to)
  {
    assert Values(done + [v]) == Values(done) + [Abs(v)];
    assert to == [to[0]] + to[1..];
    ValuesCons(to[0], to[1..]);
  }

  /** What the array loops reach from any position: `done` stays, the rest gets the values of `to`. */
  ghost predicate ItemsReach(done: seq<Json>, ds: seq<Json>, from: seq<Json>, to: seq<Json>, junk: char) {
    var es := DiffItems("", |done|, from, to, true, junk);
    Generated(es) &&
    ApplyEdits(Array(done + ds), es).status == 0 &&
    Abs(ApplyEdits(Array(done + ds), es).doc) == VArray(Values(done) + Values(to))
  }

  lemma {:induction false} ItemsReachTarget(done: seq<Json>, ds: seq<Json>, from: seq<Json>, to: seq<Json>, junk: char)
    requires ItemsReady(done, ds, from, to, junk)
    ensures ItemsReach(done, ds, from, to, junk)
    decreases ItemsWeight(from), 1, |from| + |to|
  {
    if from != [] && to != [] {
      ItemsReadyTail(done, ds, from, to, junk, Null);
      EditsReachTarget(ds[0], from[0], to[0], junk);
      var v := CommonItem(done, ds, from, to, junk);
      ItemsReadyTail(done, ds, from, to, junk, v);
      ItemsReachTarget(done + [v], ds[1..], from[1..], to[1..], junk);
      CommonItemReaches(done, ds, from, to, junk, v);
    } else if from != [] {
      ItemsReadyRest(done, ds, from, to, junk);
      ItemsReachTarget(done, ds[1..], from[1..], to, junk);
      SurplusItemReaches(done, ds, from, to, junk);
    } else if to != [] {
      assert |Values(ds)| == |ds|;
      ItemsReachTarget(done + [to[0]], [], [], to[1..], junk);
      NewItemReaches(done, to, junk);
      assert ds == [];
    } else {
      assert |Values(ds)| == |ds|;
      assert done + ds == done && Values(done) + Values(to) == Values(done);
      AbsArray(done);
    }
  }

  lemma CommonItem(done: seq<Json>, ds: seq<Json>, from: seq<Json>, to: seq<Json>, junk: char) returns (v: Json)
    requires from != [] && to != [] && ds != [] && |done| + |ds| < SIZE_T && Reaches(ds[0], from[0], to[0], junk)
    ensures Abs(v) == Abs(to[0])
    ensures var es := Diff("" + "/" + Decimal(|done|), from[0], to[0], true, junk);
      Generated(es) && ApplyEdits(Array(done + ds), es) == Outcome(0, Array((done + [v]) + ds[1..]))
  {
    var items, n := done + ds, |done|;
    assert items[n] == ds[0];
    v := ItemEdits(items, n, from[0], to[0], junk);
    SetInMiddle(done, ds, v);
  }

  lemma SetInMiddle(done: seq<Json>, ds: seq<Json>, v: Json)
    requires ds != []
    ensures (done + ds)[|done| := v] == (done + [v]) + ds[1..]
  {
  }

  /** Two runs of edits one after the other. */
  lemma ReachesThrough(d: Json, mid: Json, first: seq<Edit>, rest: seq<Edit>)
    requires Generated(first) && Generated(rest) && ApplyEdits(d, first) == Outcome(0, mid)
    ensures Generated(first + rest) && ApplyEdits(d, first + rest) == ApplyEdits(mid, rest)
  {
    ApplyEditsSum(d, first, rest);
  }

  lemma CommonItemReaches(done: seq<Json>, ds: seq<Json>, from: seq<Json>, to: seq<Json>, junk: char, v: Json)
    requires from != [] && to != [] && ds != [] && Abs(v) == Abs(to[0])
    requires var es := Diff("" + "/" + Decimal(|done|), from[0], to[0], true, junk);
      Generated(es) && ApplyEdits(Array(done + ds), es) == Outcome(0, Array((done + [v]) + ds[1..]))
    requires ItemsReach(done + [v], ds[1..], from[1..], to[1..], junk)
    ensures ItemsReach(done, ds, from, to, junk)
  {
    var first := Diff("" + "/" + Decimal(|done|), from[0], to[0], true, junk);
    var rest := DiffItems("", |done| + 1, from[1..], to[1..], true, junk);
    assert |done + [v]| == |done| + 1;
    ReachesThrough(Array(done + ds), Array((done + [v]) + ds[1..]), first, rest);
    ValuesSnoc(done, v, to);
  }

  lemma SurplusItemReaches(done: seq<Json>, ds: seq<Json>, from: seq<Json>, to: seq<Json>, junk: char)
    requires from != [] && to == [] && ds != [] && |done| + |ds| < SIZE_T
    requires ItemsReach(done, ds[1..], from[1..], to, junk)
    ensures ItemsReach(done, ds, from, to, junk)
  {
    var e := Edit("remove", ComposedPath("", Decimal(|done|), junk), None);
    RemoveItem(done + ds, |done|, junk);
    assert RemoveIndex(done + ds, |done|) == done + ds[1..];
    ApplyEditsOne(Array(done + ds), e);
    ReachesThrough(Array(done + ds), Array(done + ds[1..]), [e], DiffItems("", |done|, from[1..], to, true, junk));
  }

  lemma NewItemReaches(done: seq<Json>, to: seq<Json>, junk: char)
    requires to != [] && ItemsReach(done + [to[0]], [], [], to[1..], junk)
    ensures ItemsReach(done, [], [], to, junk)
  {
    var e := Edit("add", ComposedPath("", "-", junk), Some(to[0]));
    AppendItem(done, to[0], junk);
    assert done + [] == done && done + [to[0]] + [] == done + [to[0]];
    ApplyEditsOne(Array(done), e);
    assert |done + [to[0]]| == |done| + 1;
    ReachesThrough(Array(done), Array(done + [to[0]]), [e], DiffItems("", |done| + 1, [], to[1..], true, junk));
    ValuesSnoc(done, to[0], to);
  }

  // ---------------------------------------------------------------- objects

  /**
   The state of one object while its members are merged: `ms` is the document, `from` and `to` are what is
   left of the two sorted lists.
   */
  ghost predicate MembersReady(ms: seq<Member>, from: seq<Member>, to: seq<Member>) {
    UniqueKeys(ms) && Increasing(from) && Increasing(to) &&
    (forall i :: 0 <= i < |from| ==> FromReady(ms, from[i])) &&
    (forall i :: 0 <= i < |to| ==> ToReady(ms, from, to[i]))
  }

  /** A member of `from` still has its value in the document, and detaching by its key finds it. */
  ghost predicate FromReady(ms: seq<Member>, f: Member) {
    f.key in Keys(ms) && Fields(ms)[f.key] == Abs(f.value) && Safe(ms, f.key) &&
    Unique(ms[IndexOf(ms, f.key)].value) && FoldOk(f.value) && NUL !in f.key && Sized(f.value)
  }

  /** A member of `to` is not in the document unless `from` still has it. */
  ghost predicate ToReady(ms: seq<Member>, from: seq<Member>, t: Member) {
    (t.key in Keys(ms) ==> t.key in Keys(from)) && Unique(t.value) && NUL !in t.key && Sized(t.value)
  }

  ghost predicate MembersReach(ms: seq<Member>, from: seq<Member>, to: seq<Member>, junk: char) {
    var es := DiffMembers("", from, to, true, junk);
    Generated(es) &&
    ApplyEdits(Object(ms), es).status == 0 &&
    Abs(ApplyEdits(Object(ms), es).doc) == VObject((Fields(ms) - Keys(from)) + Fields(to))
  }

  lemma {:induction false} ObjectReachesTarget(d: Json, from: Json, to: Json, junk: char)
    requires Ready(d, from, to, junk) && from.Object? && to.Object?
    ensures Reaches(d, from, to, junk)
    decreases Weight(from), 0, 0
  {
    var fs, ts := SortMembers(from.members, true), SortMembers(to.members, true);
    AbsObject(d.members);
    AbsObject(from.members);
    AbsObject(to.members);
    StartReady(d.members, from.members, to.members, junk);
    MembersReachTarget(d.members, fs, ts, junk);
    UniqueDistinct(to.members);
    SortedStrictly(to.members, true);
    NothingLeft(Fields(d.members), Keys(fs), Fields(to.members));
  }

  lemma NothingLeft(m: map<string, Val>, all: set<string>, t: map<string, Val>)
    requires m.Keys == all
    ensures (m - all) + t == t
  {
  }

  lemma SetCommon(m: map<string, Val>, ks: set<string>, t: map<string, Val>, k: string, v: Val)
    requires k !in ks && k !in t
    ensures (m[k := v] - ks) + t == (m - ({k} + ks)) + t[k := v]
  {
  }

  lemma DropKey(m: map<string, Val>, ks: set<string>, k: string)
    ensures (m - {k}) - ks == m - ({k} + ks)
  {
  }

  lemma SetNew(m: map<string, Val>, ks: set<string>, t: map<string, Val>, k: string, v: Val)
    requires k !in ks && k !in t
    ensures (m[k := v] - ks) + t == (m - ks) + t[k := v]
  {
  }

  lemma StartReady(ms: seq<Member>, from: seq<Member>, to: seq<Member>, junk: char)
    requires Ready(Object(ms), Object(from), Object(to), junk) && Fields(ms) == Fields(from)
    ensures MembersReady(ms, SortMembers(from, true), SortMembers(to, true))
    ensures CodedWalk(SortMembers(from, true), SortMembers(to, true), junk)
    ensures Keys(SortMembers(from, true)) == Keys(from)
  {
    UniqueDistinct(from);
    SortedStrictly(from, true);
    StartCoded(ms, from, to, junk);
    StartMembers(ms, from, to, junk);
  }

  lemma StartCoded(ms: seq<Member>, from: seq<Member>, to: seq<Member>, junk: char)
    requires Ready(Object(ms), Object(from), Object(to), junk)
    ensures CodedWalk(SortMembers(from, true), SortMembers(to, true), junk)
  {
    UniqueDistinct(from);
    UniqueDistinct(to);
    SortedStrictly(from, true);
    SortedStrictly(to, true);
    SortedCoded(from, to, junk);
  }

  lemma StartMembers(ms: seq<Member>, from: seq<Member>, to: seq<Member>, junk: char)
    requires Ready(Object(ms), Object(from), Object(to), junk) && Fields(ms) == Fields(from)
    ensures MembersReady(ms, SortMembers(from, true), SortMembers(to, true))
  {
    var fs, ts := SortMembers(from, true), SortMembers(to, true);
    UniqueDistinct(from);
    UniqueDistinct(to);
    SortedStrictly(from, true);
    SortedStrictly(to, true);
    StartFrom(ms, from);
    StartTo(ms, from, to);
    assert forall i :: 0 <= i < |fs| ==> FromReady(ms, fs[i]);
    assert forall i :: 0 <= i < |ts| ==> ToReady(ms, fs, ts[i]);
  }

  lemma StartFrom(ms: seq<Member>, from: seq<Member>)
    requires Unique(Object(ms)) && FoldOk(Object(from)) && Sized(Object(from)) && Fields(ms) == Fields(from)
    ensures forall i :: 0 <= i < |from| ==> FromReady(ms, SortMembers(from, true)[i])
  {
    var fs := SortMembers(from, true);
    SortPermutes(from, KeyOf, true);
    SameMembers(fs, from);
    forall i | 0 <= i < |fs|
      ensures FromReady(ms, fs[i])
    {
      assert fs[i] in from;
      StartFromReady(ms, from, fs[i]);
    }
  }

  lemma StartTo(ms: seq<Member>, from: seq<Member>, to: seq<Member>)
    requires Unique(Object(to)) && Sized(Object(to)) && Fields(ms) == Fields(from) && UniqueKeys(from)
    ensures forall i :: 0 <= i < |to| ==> ToReady(ms, SortMembers(from, true), SortMembers(to, true)[i])
  {
    var fs, ts := SortMembers(from, true), SortMembers(to, true);
    UniqueDistinct(from);
    SortedStrictly(from, true);
    assert Keys(ms) == Fields(ms).Keys == Keys(fs);
    SortPermutes(to, KeyOf, true);
    SameMembers(ts, to);
    forall i | 0 <= i < |ts|
      ensures ToReady(ms, fs, ts[i])
    {
      assert ts[i] in to;
    }
  }

  lemma StartFromReady(ms: seq<Member>, from: seq<Member>, f: Member)
    requires Unique(Object(ms)) && FoldOk(Object(from)) && Sized(Object(from)) && f in from
    requires Fields(ms) == Fields(from)
    ensures FromReady(ms, f)
  {
    assert Keys(ms) == Fields(ms).Keys == Keys(from);
    SafeAtFirst(ms, from, f.key);
    var i :| 0 <= i < |from| && from[i] == f;
    FieldOf(from, i);
  }

  /** In a document with the keys of a source without near-duplicates every key is safe. */
  lemma SafeAtFirst(ms: seq<Member>, from: seq<Member>, k: string)
    requires UniqueKeys(ms) && FoldDistinct(from) && Keys(ms) == Keys(from)
    ensures Safe(ms, k)
  {
    forall i, j | 0 <= j < i < |ms| && ms[i].key == k
      ensures Lower(ms[j].key) != Lower(k)
    {
      assert ms[i].key in Keys(from) && ms[j].key in Keys(from);
      var x, y := IndexOf(from, ms[i].key), IndexOf(from, ms[j].key);
      assert x != y;
    }
  }

  lemma {:induction false} MembersReachTarget(ms: seq<Member>, from: seq<Member>, to: seq<Member>, junk: char)
    requires MembersReady(ms, from, to) && CodedWalk(from, to, junk)
    ensures MembersReach(ms, from, to, junk)
    decreases MembersWeight(from), 1, |from| + |to|
  {
    if from == [] && to == [] {
      assert Keys([]) == {} && (Fields(ms) - {}) + Fields([]) == Fields(ms);
      AbsObject(ms);
    } else {
      var diff := MergeOrder(from, to, true);
      if diff == 0 {
        CompareTotal(from[0].key, to[0].key, true);
        var i := IndexOf(ms, from[0].key);
        assert FromReady(ms, from[0]) && ToReady(ms, from, to[0]);
        var v, r := CommonMember(ms, i, from[0], to[0], junk);
        CommonReady(ms, from, to, i, v, r);
        MembersReachTarget(r, from[1..], to[1..], junk);
        CommonMemberReaches(ms, from, to, junk, i, v, r);
      } else if diff < 0 {
        var i := IndexOf(ms, from[0].key);
        assert FromReady(ms, from[0]);
        SurplusReady(ms, from, to, i);
        MembersReachTarget(RemoveIndex(ms, i), from[1..], to, junk);
        SurplusMemberReaches(ms, from, to, junk, i);
      } else {
        assert ToReady(ms, from, to[0]);
        CompareTotal(to[0].key, if from == [] then "" else from[0].key, true);
        SmallerKeyAbsent(to[0].key, from);
        NewReady(ms, from, to);
        MembersReachTarget(ms + [to[0]], from, to[1..], junk);
        NewMemberReaches(ms, from, to, junk);
      }
    }
  }

  /** The edits of one common member. */
  lemma {:induction false} CommonMember(ms: seq<Member>, i: nat, f: Member, t: Member, junk: char)
    returns (v: Json, r: seq<Member>)
    requires UniqueKeys(ms) && i < |ms| && i == IndexOf(ms, f.key) && FromReady(ms, f) && f.key == t.key
    requires Unique(t.value) && Sized(t.value) && CodedCommon(f, t.value, junk)
    ensures MemberSet(ms, i, v, r) && Abs(v) == Abs(t.value)
    ensures var es := Diff(ComposedPath("", f.key, junk), f.value, t.value, true, junk);
      Generated(es) && ApplyEdits(Object(ms), es) == Outcome(0, Object(r))
    decreases Weight(f.value), 0, 2
  {
    FieldAt(ms, i);
    if Abs(f.value) == Abs(t.value) && !Replaced(f.value, t.value) {
      FoldOkUnique(f.value);
      v, r := MemberUnedited(ms, i, f.value, t.value, junk);
    } else {
      EditsReachTarget(ms[i].value, f.value, t.value, junk);
      v, r := MemberEdits(ms, i, f.value, t.value, junk);
    }
  }

  lemma {:induction false} FoldOkUnique(j: Json)
    requires FoldOk(j)
    ensures Unique(j)
    decreases j
  {
    match j
    case Array(items) =>
      forall i | 0 <= i < |items|
        ensures Unique(items[i])
      {
        FoldOkUnique(items[i]);
      }
    case Object(ms) =>
      forall i | 0 <= i < |ms|
        ensures Unique(ms[i].value)
      {
        FoldOkUnique(ms[i].value);
      }
    case _ =>
  }

  /** A member of `from` stays ready when the document keeps that member and keeps it safe. */
  lemma FromReadyKept(ms: seq<Member>, r: seq<Member>, f: Member)
    requires UniqueKeys(ms) && UniqueKeys(r) && FromReady(ms, f)
    requires f.key in Keys(r) && Fields(r)[f.key] == Fields(ms)[f.key] && Safe(r, f.key)
    requires r[IndexOf(r, f.key)] in ms
    ensures FromReady(r, f)
  {
    var x :| 0 <= x < |ms| && ms[x] == r[IndexOf(r, f.key)];
    FieldAt(ms, x);
  }

  lemma TailKeys(xs: seq<Member>, k: string)
    requires xs != [] && k in Keys(xs) && k != xs[0].key
    ensures k in Keys(xs[1..])
  {
    var i := IndexOf(xs, k);
    assert xs[1..][i - 1].key == k;
  }

  lemma HeadNotInTail(xs: seq<Member>)
    requires Increasing(xs) && xs != []
    ensures Increasing(xs[1..]) && forall i :: 0 <= i < |xs[1..]| ==> xs[1..][i].key != xs[0].key
  {
    HeadAbsentFromTail(xs);
    assert forall i :: 0 <= i < |xs[1..]| ==> xs[1..][i].key in Keys(xs[1..]);
  }

  lemma MemberSetKeeps(ms: seq<Member>, i: nat, v: Json, r: seq<Member>, x: nat)
    requires i < |ms| && MemberSet(ms, i, v, r) && x < |r| && r[x].key != ms[i].key
    ensures r[x] in ms
  {
  }

  lemma CommonReady(ms: seq<Member>, from: seq<Member>, to: seq<Member>, i: nat, v: Json, r: seq<Member>)
    requires MembersReady(ms, from, to) && from != [] && to != [] && from[0].key == to[0].key
    requires i < |ms| && ms[i].key == from[0].key && MemberSet(ms, i, v, r)
    ensures MembersReady(r, from[1..], to[1..])
  {
    hide FromReady, ToReady;
    HeadNotInTail(from);
    HeadNotInTail(to);
    MemberSetFields(ms, i, v, r);
    assert Keys(r) == Fields(r).Keys == Keys(ms);
    CommonFromReadyAll(ms, from, i, v, r);
    CommonToReadyAll(ms, from, to, r);
  }

  lemma CommonFromReadyAll(ms: seq<Member>, from: seq<Member>, i: nat, v: Json, r: seq<Member>)
    requires UniqueKeys(ms) && from != [] && Increasing(from)
    requires forall x :: 0 <= x < |from| ==> FromReady(ms, from[x])
    requires i < |ms| && ms[i].key == from[0].key && MemberSet(ms, i, v, r)
    ensures forall x :: 0 <= x < |from[1..]| ==> FromReady(r, from[1..][x])
  {
    HeadNotInTail(from);
    forall x | 0 <= x < |from[1..]|
      ensures FromReady(r, from[1..][x])
    {
      assert FromReady(ms, from[x + 1]);
      CommonFromReady(ms, i, v, r, from[x + 1]);
    }
  }

  lemma CommonToReadyAll(ms: seq<Member>, from: seq<Member>, to: seq<Member>, r: seq<Member>)
    requires from != [] && to != [] && from[0].key == to[0].key && Keys(r) == Keys(ms) && Increasing(to)
    requires forall x :: 0 <= x < |to| ==> ToReady(ms, from, to[x])
    ensures forall x :: 0 <= x < |to[1..]| ==> ToReady(r, from[1..], to[1..][x])
  {
    HeadNotInTail(to);
    forall x | 0 <= x < |to[1..]|
      ensures ToReady(r, from[1..], to[1..][x])
    {
      assert ToReady(ms, from, to[x + 1]);
      CommonToReady(ms, from, to[x + 1], r);
    }
  }

  lemma CommonToReady(ms: seq<Member>, from: seq<Member>, t: Member, r: seq<Member>)
    requires from != [] && ToReady(ms, from, t) && t.key != from[0].key && Keys(r) == Keys(ms)
    ensures ToReady(r, from[1..], t)
  {
    if t.key in Keys(r) {
      TailKeys(from, t.key);
    }
  }

  lemma CommonFromReady(ms: seq<Member>, i: nat, v: Json, r: seq<Member>, f: Member)
    requires UniqueKeys(ms) && i < |ms| && MemberSet(ms, i, v, r) && FromReady(ms, f) && f.key != ms[i].key
    ensures FromReady(r, f)
  {
    MemberSetFields(ms, i, v, r);
    assert f.key in Fields(r).Keys;
    MemberSetSafe(ms, i, v, r, f.key);
    MemberSetKeeps(ms, i, v, r, IndexOf(r, f.key));
    FromReadyKept(ms, r, f);
  }

  lemma CommonMemberReaches(ms: seq<Member>, from: seq<Member>, to: seq<Member>, junk: char, i: nat, v: Json,
          r: seq<Member>)
    requires MembersReady(ms, from, to) && from != [] && to != [] && from[0].key == to[0].key
    requires MergeOrder(from, to, true) == 0
    requires i < |ms| && ms[i].key == from[0].key && MemberSet(ms, i, v, r) && Abs(v) == Abs(to[0].value)
    requires var es := Diff(ComposedPath("", ms[i].key, junk), from[0].value, to[0].value, true, junk);
      Generated(es) && ApplyEdits(Object(ms), es) == Outcome(0, Object(r))
    requires MembersReach(r, from[1..], to[1..], junk)
    ensures MembersReach(ms, from, to, junk)
  {
    var k := from[0].key;
    ReachesThrough(Object(ms), Object(r), Diff(ComposedPath("", k, junk), from[0].value, to[0].value, true, junk),
                   DiffMembers("", from[1..], to[1..], true, junk));
    MemberSetFields(ms, i, v, r);
    HeadFields(from);
    HeadFields(to);
    SetCommon(Fields(ms), Keys(from[1..]), Fields(to[1..]), k, Abs(v));
  }

  /** The keys and fields of an increasing list, head first. */
  lemma HeadFields(xs: seq<Member>)
    requires Increasing(xs) && xs != []
    ensures Keys(xs) == {xs[0].key} + Keys(xs[1..]) && xs[0].key !in Keys(xs[1..])
    ensures Fields(xs) == Fields(xs[1..])[xs[0].key := Abs(xs[0].value)]
  {
    assert xs == [xs[0]] + xs[1..];
    HeadAbsentFromTail(xs);
    KeysCons(xs[0], xs[1..]);
    FieldsCons(xs[0], xs[1..]);
  }

  lemma SurplusReady(ms: seq<Member>, from: seq<Member>, to: seq<Member>, i: nat)
    requires MembersReady(ms, from, to) && from != [] && i < |ms| && ms[i].key == from[0].key
    ensures MembersReady(RemoveIndex(ms, i), from[1..], to)
  {
    var k, r := from[0].key, RemoveIndex(ms, i);
    HeadNotInTail(from);
    RemovedKeys(ms, i);
    RemovedFields(ms, i);
    forall x | 0 <= x < |from[1..]|
      ensures FromReady(r, from[1..][x])
    {
      assert FromReady(ms, from[x + 1]);
      SurplusFromReady(ms, i, from[x + 1]);
    }
    forall x | 0 <= x < |to|
      ensures ToReady(r, from[1..], to[x])
    {
      assert ToReady(ms, from, to[x]);
      if to[x].key in Keys(r) {
        TailKeys(from, to[x].key);
      }
    }
  }

  lemma SurplusFromReady(ms: seq<Member>, i: nat, f: Member)
    requires UniqueKeys(ms) && i < |ms| && FromReady(ms, f) && f.key != ms[i].key
    ensures FromReady(RemoveIndex(ms, i), f)
  {
    var r := RemoveIndex(ms, i);
    RemovedKeys(ms, i);
    RemovedFields(ms, i);
    RemovedSafe(ms, i, f.key);
    RemovedAt(ms, i, IndexOf(r, f.key));
    FromReadyKept(ms, r, f);
  }

  lemma SurplusMemberReaches(ms: seq<Member>, from: seq<Member>, to: seq<Member>, junk: char, i: nat)
    requires MembersReady(ms, from, to) && from != [] && i < |ms| && ms[i].key == from[0].key
    requires MergeOrder(from, to, true) < 0 && Restored(from[0].key, junk)
    requires MembersReach(RemoveIndex(ms, i), from[1..], to, junk)
    ensures MembersReach(ms, from, to, junk)
  {
    var e := Edit("remove", ComposedPath("", from[0].key, junk), None);
    assert FromReady(ms, from[0]);
    RemoveKey(ms, i, junk);
    ApplyEditsOne(Object(ms), e);
    ReachesThrough(Object(ms), Object(RemoveIndex(ms, i)), [e], DiffMembers("", from[1..], to, true, junk));
    RemovedFields(ms, i);
    HeadFields(from);
    DropKey(Fields(ms), Keys(from[1..]), from[0].key);
  }

  lemma NewReady(ms: seq<Member>, from: seq<Member>, to: seq<Member>)
    requires MembersReady(ms, from, to) && to != [] && to[0].key !in Keys(from)
    ensures to[0].key !in Keys(ms) && MembersReady(ms + [to[0]], from, to[1..])
  {
    var k, r := to[0].key, ms + [to[0]];
    assert ToReady(ms, from, to[0]) && to[0] == Member(k, to[0].value);
    HeadNotInTail(to);
    AppendedKeys(ms, k, to[0].value);
    AppendedFields(ms, k, to[0].value);
    forall x | 0 <= x < |from|
      ensures FromReady(r, from[x])
    {
      assert FromReady(ms, from[x]) && from[x].key in Keys(from);
      NewFromReady(ms, to[0], from[x]);
    }
    forall x | 0 <= x < |to[1..]|
      ensures ToReady(r, from, to[1..][x])
    {
      assert ToReady(ms, from, to[x + 1]);
    }
  }

  lemma NewFromReady(ms: seq<Member>, t: Member, f: Member)
    requires UniqueKeys(ms) && t.key !in Keys(ms) && FromReady(ms, f)
    ensures FromReady(ms + [t], f)
  {
    var r := ms + [t];
    assert t == Member(t.key, t.value) && f.key != t.key;
    AppendedKeys(ms, t.key, t.value);
    AppendedFields(ms, t.key, t.value);
    AppendedSafe(ms, t.key, t.value, f.key);
    StillInFront(ms, t, f.key);
    FromReadyKept(ms, r, f);
  }

  lemma StillInFront(ms: seq<Member>, t: Member, k: string)
    requires k in Keys(ms) && k != t.key
    ensures k in Keys(ms + [t]) && (ms + [t])[IndexOf(ms + [t], k)] in ms
  {
    var r := ms + [t];
    assert r[IndexOf(ms, k)].key == k;
    assert r[|ms|] == t;
  }

  lemma NewMemberReaches(ms: seq<Member>, from: seq<Member>, to: seq<Member>, junk: char)
    requires MembersReady(ms, from, to) && to != [] && to[0].key !in Keys(from) && to[0].key !in Keys(ms)
    requires MergeOrder(from, to, true) > 0 && Restored(to[0].key, junk)
    requires MembersReach(ms + [to[0]], from, to[1..], junk)
    ensures MembersReach(ms, from, to, junk)
  {
    var k := to[0].key;
    var e := Edit("add", ComposedPath("", k, junk), Some(to[0].value));
    assert ToReady(ms, from, to[0]) && to[0] == Member(k, to[0].value);
    AddKey(ms, k, to[0].value, junk);
    ApplyEditsOne(Object(ms), e);
    ReachesThrough(Object(ms), Object(ms + [to[0]]), [e], DiffMembers("", from, to[1..], true, junk));
    AppendedFields(ms, k, to[0].value);
    HeadFields(to);
    SetNew(Fields(ms), Keys(from), Fields(to[1..]), k, Abs(to[0].value));
  }

  // ---------------------------------------------------------------- the result

  /**
   For every document d with the value of the source, whatever the order of its members: if no two keys of an
   object of the source differ in letter case only, and every path names its node, applying the generated patches
   in order returns 0 and leaves a document with the value of the target.
   */
  lemma DiffThenPatch(d: Json, from: Json, to: Json, junk: char)
    requires Abs(d) == Abs(from) && Unique(d) && FoldOk(from) && Unique(to) && Sized(from) && Sized(to)
    requires Coded(from, to, junk)
    ensures var r := ApplyPatches(d, GeneratePatches(from, to, true, junk), true);
      r.status == 0 && Abs(r.doc) == Abs(to)
  {
    EditsReachTarget(d, from, to, junk);
    ComposedAllApply(d, Diff("", from, to, true, junk));
  }
}
