/**
 `compare_json`: a comparison that sorts the objects it visits, in both trees.
 */
module Compare {
  import opened CStrings
  import opened Sorting
  import opened JsonValues
  import opened Seqs

  /** The answer, and both trees as the comparison leaves them. */
  datatype Compared = Compared(same: bool, a: Json, b: Json)
  datatype ComparedItems = ComparedItems(same: bool, xs: seq<Json>, ys: seq<Json>)
  datatype ComparedMembers = ComparedMembers(same: bool, xs: seq<Member>, ys: seq<Member>)

  predicate SameType(a: Json, b: Json) {
    match (a, b)
    case (Invalid, Invalid) => true
    case (Null, Null) => true
    case (False, False) => true
    case (True, True) => true
    case (Number(_), Number(_)) => true
    case (String(_), String(_)) => true
    case (Array(_), Array(_)) => true
    case (Object(_), Object(_)) => true
    case _ => false
  }

  function CompareJson(a: Json, b: Json, cs: bool): Compared
    decreases Weight(a), 0, 0
  {
    if !SameType(a, b) then Compared(false, a, b)
    else
      match a
      case Number(n) => Compared(n == b.n, a, b)
      case String(s) => Compared(s == b.s, a, b)
      case Array(items) =>
        var r := CompareItems(items, b.items, cs);
        Compared(r.same, Array(r.xs), Array(r.ys))
      case Object(ms) =>
        var r := CompareMembers(SortMembers(ms, cs), SortMembers(b.members, cs), cs);
        Compared(r.same, Object(r.xs), Object(r.ys))
      case _ => Compared(true, a, b)
  }

  function CompareItems(xs: seq<Json>, ys: seq<Json>, cs: bool): ComparedItems
    decreases ItemsWeight(xs), 1, |xs|
  {
    if xs == [] || ys == [] then ComparedItems(xs == [] && ys == [], xs, ys)
    else
      var h := CompareJson(xs[0], ys[0], cs);
      if !h.same then ComparedItems(false, [h.a] + xs[1..], [h.b] + ys[1..])
      else
        var t := CompareItems(xs[1..], ys[1..], cs);
        ComparedItems(t.same, [h.a] + t.xs, [h.b] + t.ys)
  }

  function CompareMembers(xs: seq<Member>, ys: seq<Member>, cs: bool): ComparedMembers
    decreases MembersWeight(xs), 1, |xs|
  {
    if xs == [] || ys == [] then ComparedMembers(xs == [] && ys == [], xs, ys)
    else if CompareStrings(xs[0].key, ys[0].key, cs) != 0 then ComparedMembers(false, xs, ys)
    else
      var h := CompareJson(xs[0].value, ys[0].value, cs);
      var x, y := Member(xs[0].key, h.a), Member(ys[0].key, h.b);
      if !h.same then ComparedMembers(false, [x] + xs[1..], [y] + ys[1..])
      else
        var t := CompareMembers(xs[1..], ys[1..], cs);
        ComparedMembers(t.same, [x] + t.xs, [y] + t.ys)
  }

  // ---------------------------------------------------------------- the code's loops

  method CompareJsonLoop(a: Json, b: Json, cs: bool) returns (r: Compared)
    ensures r == CompareJson(a, b, cs)
    decreases Weight(a), 0
  {
    if !SameType(a, b) {
      return Compared(false, a, b);
    }
    if a.Number? {
      return Compared(a.n == b.n, a, b);
    }
    if a.String? {
      return Compared(a.s == b.s, a, b);
    }
    if a.Array? {
      var t := CompareItemsLoop(a.items, b.items, cs);
      return Compared(t.same, Array(t.xs), Array(t.ys));
    }
    if a.Object? {
      var t := CompareMembersLoop(SortMembers(a.members, cs), SortMembers(b.members, cs), cs);
      return Compared(t.same, Object(t.xs), Object(t.ys));
    }
    return Compared(true, a, b);
  }

  method CompareItemsLoop(xs: seq<Json>, ys: seq<Json>, cs: bool) returns (r: ComparedItems)
    ensures r == CompareItems(xs, ys, cs)
    decreases ItemsWeight(xs), 1
  {
    var a, b, doneX, doneY := xs, ys, [], [];
    AfterNoItems(CompareItems(xs, ys, cs));
    while a != [] && b != []
      invariant ItemsWeight(a) <= ItemsWeight(xs)
      invariant CompareItems(xs, ys, cs) == AfterItems(doneX, doneY, CompareItems(a, b, cs))
      decreases |a|
    {
      var h := CompareJsonLoop(a[0], b[0], cs);
      a, b := a[1..], b[1..];
      if !h.same {
        return ComparedItems(false, doneX + ([h.a] + a), doneY + ([h.b] + b));
      }
      AfterItemsAssociates(doneX, doneY, h.a, h.b, CompareItems(a, b, cs));
      doneX, doneY := doneX + [h.a], doneY + [h.b];
    }
    return ComparedItems(a == [] && b == [], doneX + a, doneY + b);
  }

  function AfterItems(xs: seq<Json>, ys: seq<Json>, r: ComparedItems): ComparedItems {
    ComparedItems(r.same, xs + r.xs, ys + r.ys)
  }

  lemma AfterNoItems(r: ComparedItems)
    ensures AfterItems([], [], r) == r
  {
    assert [] + r.xs == r.xs && [] + r.ys == r.ys;
  }

  lemma AfterItemsAssociates(xs: seq<Json>, ys: seq<Json>, x: Json, y: Json, r: ComparedItems)
    ensures AfterItems(xs, ys, AfterItems([x], [y], r)) == AfterItems(xs + [x], ys + [y], r)
  {
    assert xs + ([x] + r.xs) == (xs + [x]) + r.xs;
    assert ys + ([y] + r.ys) == (ys + [y]) + r.ys;
  }

  method CompareMembersLoop(xs: seq<Member>, ys: seq<Member>, cs: bool) returns (r: ComparedMembers)
    ensures r == CompareMembers(xs, ys, cs)
    decreases MembersWeight(xs), 1
  {
    var a, b, doneX, doneY := xs, ys, [], [];
    AfterNoMembers(CompareMembers(xs, ys, cs));
    while a != [] && b != []
      invariant MembersWeight(a) <= MembersWeight(xs)
      invariant CompareMembers(xs, ys, cs) == AfterMembers(doneX, doneY, CompareMembers(a, b, cs))
      decreases |a|
    {
      if CompareStrings(a[0].key, b[0].key, cs) != 0 {
        return ComparedMembers(false, doneX + a, doneY + b);
      }
      var h := CompareJsonLoop(a[0].value, b[0].value, cs);
      var x, y := Member(a[0].key, h.a), Member(b[0].key, h.b);
      a, b := a[1..], b[1..];
      if !h.same {
        return ComparedMembers(false, doneX + ([x] + a), doneY + ([y] + b));
      }
      AfterMembersAssociates(doneX, doneY, x, y, CompareMembers(a, b, cs));
      doneX, doneY := doneX + [x], doneY + [y];
    }
    return ComparedMembers(a == [] && b == [], doneX + a, doneY + b);
  }

  function AfterMembers(xs: seq<Member>, ys: seq<Member>, r: ComparedMembers): ComparedMembers {
    ComparedMembers(r.same, xs + r.xs, ys + r.ys)
  }

  lemma AfterNoMembers(r: ComparedMembers)
    ensures AfterMembers([], [], r) == r
  {
    assert [] + r.xs == r.xs && [] + r.ys == r.ys;
  }

  lemma AfterMembersAssociates(xs: seq<Member>, ys: seq<Member>, x: Member, y: Member, r: ComparedMembers)
    ensures AfterMembers(xs, ys, AfterMembers([x], [y], r)) == AfterMembers(xs + [x], ys + [y], r)
  {
    assert xs + ([x] + r.xs) == (xs + [x]) + r.xs;
    assert ys + ([y] + r.ys) == (ys + [y]) + r.ys;
  }

  // ---------------------------------------------------------------- what it decides

  /** No two keys of any object in the tree compare equal. */
  predicate Comparable(j: Json, cs: bool) {
    match j
    case Array(items) => forall i :: 0 <= i < |items| ==> Comparable(items[i], cs)
    case Object(ms) => DistinctUnder(ms, cs) && forall i :: 0 <= i < |ms| ==> Comparable(ms[i].value, cs)
    case _ => true
  }

  /** Keys of two trees that compare equal are equal; always so when case matters. */
  predicate CaseIsSettled(j: Json, cs: bool) {
    match j
    case Array(items) => forall i :: 0 <= i < |items| ==> CaseIsSettled(items[i], cs)
    case Object(ms) => forall i :: 0 <= i < |ms| ==> Fold(ms[i].key, cs) == ms[i].key && CaseIsSettled(ms[i].value, cs)
    case _ => true
  }

  predicate Good(j: Json, cs: bool) {
    Comparable(j, cs) && CaseIsSettled(j, cs)
  }

  predicate GoodItems(xs: seq<Json>, cs: bool) {
    forall i :: 0 <= i < |xs| ==> Good(xs[i], cs)
  }

  predicate GoodMembers(xs: seq<Member>, cs: bool) {
    forall i :: 0 <= i < |xs| ==> Fold(xs[i].key, cs) == xs[i].key && Good(xs[i].value, cs)
  }

  predicate Increasing(xs: seq<Member>) {
    forall i, j :: 0 <= i < j < |xs| ==> StrCmp(xs[i].key, xs[j].key) < 0
  }

  /** Comparing trees decides whether they have the same value, and changes neither value. */
  lemma {:induction false} CompareDecidesValue(a: Json, b: Json, cs: bool)
    requires Good(a, cs) && Good(b, cs)
    ensures var r := CompareJson(a, b, cs);
      (r.same <==> Abs(a) == Abs(b)) && Abs(r.a) == Abs(a) && Abs(r.b) == Abs(b)
    decreases Weight(a), 0, 0
  {
    if SameType(a, b) {
      match a
      case Array(xs) =>
        CompareItemsDecides(xs, b.items, cs);
        var r := CompareItems(xs, b.items, cs);
        AbsArray(xs);
        AbsArray(b.items);
        AbsArray(r.xs);
        AbsArray(r.ys);
      case Object(xs) =>
        var sx, sy := SortMembers(xs, cs), SortMembers(b.members, cs);
        SortedGood(xs, cs);
        SortedGood(b.members, cs);
        CompareMembersDecides(sx, sy, cs);
        var r := CompareMembers(sx, sy, cs);
        AbsObject(xs);
        AbsObject(b.members);
        AbsObject(r.xs);
        AbsObject(r.ys);
      case _ =>
    }
  }

  lemma SortedGood(ms: seq<Member>, cs: bool)
    requires Good(Object(ms), cs)
    ensures GoodMembers(SortMembers(ms, cs), cs) && Increasing(SortMembers(ms, cs))
    ensures Fields(SortMembers(ms, cs)) == Fields(ms)
  {
    var r := SortMembers(ms, cs);
    SortedStrictly(ms, cs);
    SortPermutes(ms, KeyOf, cs);
    SameMembers(r, ms);
    forall i | 0 <= i < |r|
      ensures Fold(r[i].key, cs) == r[i].key && Good(r[i].value, cs)
    {
      assert r[i] in ms;
    }
  }

  lemma {:induction false} CompareItemsDecides(xs: seq<Json>, ys: seq<Json>, cs: bool)
    requires GoodItems(xs, cs) && GoodItems(ys, cs)
    ensures var r := CompareItems(xs, ys, cs);
      (r.same <==> Values(xs) == Values(ys)) && Values(r.xs) == Values(xs) && Values(r.ys) == Values(ys)
    decreases ItemsWeight(xs), 1, |xs|
  {
    if xs != [] && ys != [] {
      CompareDecidesValue(xs[0], ys[0], cs);
      var h := CompareJson(xs[0], ys[0], cs);
      var xt, yt := xs[1..], ys[1..];
      if h.same {
        CompareItemsDecides(xt, yt, cs);
        var t := CompareItems(xt, yt, cs);
        xt, yt := t.xs, t.ys;
      }
      SplitFirst(xs, h.a, xt);
      SplitFirst(ys, h.b, yt);
      ConsEqual(Abs(xs[0]), Values(xs[1..]), Abs(ys[0]), Values(ys[1..]));
    } else {
      assert |Values(xs)| == |xs| && |Values(ys)| == |ys|;
    }
  }

  lemma SplitFirst(xs: seq<Json>, x: Json, xt: seq<Json>)
    requires xs != [] && Abs(x) == Abs(xs[0]) && Values(xt) == Values(xs[1..])
    ensures Values(xs) == [Abs(xs[0])] + Values(xs[1..]) && Values([x] + xt) == Values(xs)
  {
    assert xs == [xs[0]] + xs[1..];
    ValuesCons(xs[0], xs[1..]);
    ValuesCons(x, xt);
  }

  lemma ValuesCons(x: Json, xs: seq<Json>)
    ensures Values([x] + xs) == [Abs(x)] + Values(xs)
  {
  }

  lemma ConsEqual<T>(x: T, xs: seq<T>, y: T, ys: seq<T>)
    ensures [x] + xs == [y] + ys <==> x == y && xs == ys
  {
    if [x] + xs == [y] + ys {
      assert ([x] + xs)[0] == x && ([y] + ys)[0] == y;
      assert ([x] + xs)[1..] == xs && ([y] + ys)[1..] == ys;
    }
  }

  lemma KeysCons(x: Member, xs: seq<Member>)
    ensures Keys([x] + xs) == {x.key} + Keys(xs)
  {
    var all := [x] + xs;
    assert all[0] == x && forall i :: 0 <= i < |xs| ==> all[i + 1] == xs[i];
    forall k
      ensures k in Keys(all) <==> k == x.key || k in Keys(xs)
    {
      if k in Keys(xs) {
        var i :| 0 <= i < |xs| && xs[i].key == k;
        assert all[i + 1].key == k;
      }
    }
  }

  lemma IndexCons(x: Member, xs: seq<Member>, k: string)
    ensures IndexOf([x] + xs, k) == if k == x.key then 0 else if IndexOf(xs, k) == -1 then -1 else IndexOf(xs, k) + 1
  {
    ConsTail(x, xs);
  }

  lemma FieldIs(ms: seq<Member>, k: string)
    requires k in Keys(ms)
    ensures IndexOf(ms, k) >= 0 && Fields(ms)[k] == Abs(ms[IndexOf(ms, k)].value)
  {
  }

  lemma HeadField(x: Member, xs: seq<Member>)
    ensures x.key in Keys([x] + xs) && Fields([x] + xs)[x.key] == Abs(x.value)
  {
    KeysCons(x, xs);
    IndexCons(x, xs, x.key);
    FieldIs([x] + xs, x.key);
  }

  lemma TailField(x: Member, xs: seq<Member>, k: string)
    requires k in Keys(xs) && k != x.key
    ensures k in Keys([x] + xs) && Fields([x] + xs)[k] == Fields(xs)[k]
  {
    KeysCons(x, xs);
    IndexCons(x, xs, k);
    FieldIs([x] + xs, k);
    FieldIs(xs, k);
  }

  lemma FieldsCons(x: Member, xs: seq<Member>)
    ensures Fields([x] + xs) == Fields(xs)[x.key := Abs(x.value)]
  {
    var all, m := [x] + xs, Fields(xs)[x.key := Abs(x.value)];
    KeysCons(x, xs);
    assert m.Keys == Keys(all);
    forall k | k in Keys(all)
      ensures Fields(all)[k] == m[k]
    {
      if k == x.key {
        HeadField(x, xs);
      } else {
        TailField(x, xs, k);
      }
    }
    SameMaps(Fields(all), m);
  }

  lemma SameMaps<K, V>(m: map<K, V>, n: map<K, V>)
    requires m.Keys == n.Keys && forall k :: k in m ==> m[k] == n[k]
    ensures m == n
  {
  }

  /** In a list in increasing key order the first key occurs nowhere else, and no smaller key occurs. */
  lemma SmallerKeyAbsent(k: string, xs: seq<Member>)
    requires Increasing(xs) && (xs == [] || StrCmp(k, xs[0].key) < 0)
    ensures k !in Keys(xs)
  {
    forall i | 0 <= i < |xs|
      ensures xs[i].key != k
    {
      if i > 0 {
        StrCmpTransitive(k, xs[0].key, xs[i].key);
      }
      StrCmpZero(k, xs[i].key);
    }
  }

  lemma HeadAbsentFromTail(xs: seq<Member>)
    requires Increasing(xs) && xs != []
    ensures xs[0].key !in Keys(xs[1..]) && Increasing(xs[1..])
  {
    SmallerKeyAbsent(xs[0].key, xs[1..]);
  }

  lemma UpdatedMaps<K, V>(m: map<K, V>, n: map<K, V>, k: K, v: V, w: V)
    requires k !in m && k !in n
    ensures m[k := v] == n[k := w] <==> m == n && v == w
  {
    if m[k := v] == n[k := w] {
      assert m[k := v][k] == v && n[k := w][k] == w;
      assert m == m[k := v] - {k} && n == n[k := w] - {k};
    }
  }

  lemma {:induction false} CompareMembersDecides(xs: seq<Member>, ys: seq<Member>, cs: bool)
    requires GoodMembers(xs, cs) && GoodMembers(ys, cs) && Increasing(xs) && Increasing(ys)
    ensures var r := CompareMembers(xs, ys, cs);
      (r.same <==> Fields(xs) == Fields(ys)) && Fields(r.xs) == Fields(xs) && Fields(r.ys) == Fields(ys)
    decreases MembersWeight(xs), 1, |xs|
  {
    if xs == [] || ys == [] {
      EmptyFields(xs);
      EmptyFields(ys);
    } else if CompareStrings(xs[0].key, ys[0].key, cs) != 0 {
      CompareTotal(xs[0].key, ys[0].key, cs);
      DifferentHeads(xs, ys);
    } else {
      var x, y := xs[0], ys[0];
      CompareTotal(x.key, y.key, cs);
      CompareDecidesValue(x.value, y.value, cs);
      var h := CompareJson(x.value, y.value, cs);
      var xt, yt := xs[1..], ys[1..];
      HeadAbsentFromTail(xs);
      HeadAbsentFromTail(ys);
      if h.same {
        CompareMembersDecides(xt, yt, cs);
        var t := CompareMembers(xt, yt, cs);
        xt, yt := t.xs, t.ys;
      }
      SplitHead(xs, Member(x.key, h.a), xt);
      SplitHead(ys, Member(y.key, h.b), yt);
      UpdatedMaps(Fields(xs[1..]), Fields(ys[1..]), x.key, Abs(x.value), Abs(y.value));
    }
  }

  lemma EmptyFields(xs: seq<Member>)
    ensures Fields(xs) == map[] <==> xs == []
  {
    if xs != [] {
      assert xs[0].key in Keys(xs);
    }
  }

  lemma SplitHead(xs: seq<Member>, x: Member, xt: seq<Member>)
    requires xs != [] && x.key == xs[0].key && Abs(x.value) == Abs(xs[0].value) && Fields(xt) == Fields(xs[1..])
    ensures Fields(xs) == Fields(xs[1..])[x.key := Abs(x.value)]
    ensures Fields([x] + xt) == Fields(xs)
  {
    assert xs == [xs[0]] + xs[1..];
    FieldsCons(xs[0], xs[1..]);
    FieldsCons(x, xt);
  }

  /** Lists in increasing order whose first keys differ do not have the same keys. */
  lemma DifferentHeads(xs: seq<Member>, ys: seq<Member>)
    requires Increasing(xs) && Increasing(ys) && xs != [] && ys != [] && xs[0].key != ys[0].key
    ensures Fields(xs) != Fields(ys)
  {
    var x, y := xs[0].key, ys[0].key;
    StrCmpAntisymmetric(x, y);
    StrCmpZero(x, y);
    assert x in Keys(xs) && y in Keys(ys);
    if StrCmp(x, y) < 0 {
      SmallerKeyAbsent(x, ys);
      assert x !in Fields(ys);
    } else {
      SmallerKeyAbsent(y, xs);
      assert y !in Fields(xs);
    }
  }

  // ---------------------------------------------------------------- strictly sorted lists

  lemma FirstKeyOnce(ms: seq<Member>)
    requires UniqueKeys(ms) && ms != []
    ensures ms[0].key !in Keys(ms[1..]) && UniqueKeys(ms[1..])
  {
    assert forall i :: 0 <= i < |ms[1..]| ==> ms[1..][i] == ms[i + 1];
  }

  ghost predicate StrictUnder(xs: seq<Member>, cs: bool) {
    forall i, j :: 0 <= i < j < |xs| ==> CompareStrings(xs[i].key, xs[j].key, cs) < 0
  }

  lemma StrictUnique(xs: seq<Member>, cs: bool)
    requires StrictUnder(xs, cs)
    ensures UniqueKeys(xs)
  {
    forall i, j | 0 <= i < j < |xs|
      ensures xs[i].key != xs[j].key
    {
      StrCmpZero(Fold(xs[i].key, cs), Fold(xs[j].key, cs));
    }
  }

  /** Two strictly sorted lists with the same keys start with the same key. */
  lemma SameFirst(xs: seq<Member>, ys: seq<Member>, cs: bool)
    requires StrictUnder(xs, cs) && StrictUnder(ys, cs) && xs != [] && ys != [] && Keys(xs) == Keys(ys)
    ensures xs[0].key == ys[0].key
  {
    assert xs[0].key in Keys(ys) && ys[0].key in Keys(xs);
    var j, i := IndexOf(ys, xs[0].key), IndexOf(xs, ys[0].key);
    CompareTotal(xs[0].key, ys[0].key, cs);
  }

  lemma SameTails(xs: seq<Member>, ys: seq<Member>)
    requires UniqueKeys(xs) && UniqueKeys(ys) && xs != [] && ys != []
    requires xs[0].key == ys[0].key && Fields(xs) == Fields(ys)
    ensures Abs(xs[0].value) == Abs(ys[0].value) && Fields(xs[1..]) == Fields(ys[1..])
  {
    FirstKeyOnce(xs);
    FirstKeyOnce(ys);
    SplitHead(xs, xs[0], xs[1..]);
    SplitHead(ys, ys[0], ys[1..]);
    UpdatedMaps(Fields(xs[1..]), Fields(ys[1..]), xs[0].key, Abs(xs[0].value), Abs(ys[0].value));
  }
}
