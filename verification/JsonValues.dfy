/**
 JSON trees as cJSON keeps them, and the values they stand for. A tree keeps the members of an object
 in list order; the value of a tree forgets that order.
 */
module JsonValues {
  import opened CStrings
  import opened Seqs
  import opened Sorting

  datatype Option<+T> = None | Some(value: T)

  /** One `cJSON` node with everything below it. `Invalid` is what removing the root leaves behind. */
  datatype Json =
    | Invalid
    | Null
    | False
    | True
    | Number(n: int)
    | String(s: string)
    | Array(items: seq<Json>)
    | Object(members: seq<Member>)

  datatype Member = Member(key: string, value: Json)

  /** The value of a tree: arrays in order, objects as maps. */
  datatype Val =
    | VInvalid
    | VNull
    | VBool(b: bool)
    | VNumber(n: int)
    | VString(s: string)
    | VArray(elems: seq<Val>)
    | VObject(fields: map<string, Val>)

  function KeyOf(m: Member): string { m.key }

  function Keys(ms: seq<Member>): (r: set<string>) {
    set i | 0 <= i < |ms| :: ms[i].key
  }

  /** The first member with exactly this key. */
  function IndexOf(ms: seq<Member>, k: string): (i: int)
    ensures -1 <= i < |ms|
    ensures 0 <= i ==> ms[i].key == k && forall j :: 0 <= j < i ==> ms[j].key != k
    ensures i == -1 <==> k !in Keys(ms)
    ensures i == -1 ==> forall j :: 0 <= j < |ms| ==> ms[j].key != k
  {
    if ms == [] then -1
    else if ms[0].key == k then 0
    else
      var i := IndexOf(ms[1..], k);
      assert k in Keys(ms[1..]) <==> k in Keys(ms) by {
        if k in Keys(ms) {
          var j :| 0 <= j < |ms| && ms[j].key == k;
          assert ms[1..][j - 1].key == k;
        }
      }
      if i == -1 then -1 else i + 1
  }

  function Abs(j: Json): Val {
    match j
    case Invalid => VInvalid
    case Null => VNull
    case False => VBool(false)
    case True => VBool(true)
    case Number(n) => VNumber(n)
    case String(s) => VString(s)
    case Array(items) => VArray(seq(|items|, i requires 0 <= i < |items| => Abs(items[i])))
    case Object(ms) => VObject(map k | k in Keys(ms) :: Abs(ms[IndexOf(ms, k)].value))
  }

  /** The values of the members of an object, by key. */
  function Fields(ms: seq<Member>): (r: map<string, Val>)
    ensures r.Keys == Keys(ms)
  {
    map k | k in Keys(ms) :: Abs(ms[IndexOf(ms, k)].value)
  }

  lemma AbsObject(ms: seq<Member>)
    ensures Abs(Object(ms)) == VObject(Fields(ms))
  {
  }

  /** The values of the items of an array, in order. */
  function Values(xs: seq<Json>): (r: seq<Val>)
    ensures |r| == |xs|
  {
    seq(|xs|, i requires 0 <= i < |xs| => Abs(xs[i]))
  }

  lemma AbsArray(xs: seq<Json>)
    ensures Abs(Array(xs)) == VArray(Values(xs))
  {
  }

  predicate UniqueKeys(ms: seq<Member>) {
    forall i, j :: 0 <= i < j < |ms| ==> ms[i].key != ms[j].key
  }

  /** No two members of this object differ in letter case only. */
  predicate FoldDistinct(ms: seq<Member>) {
    forall i, j :: 0 <= i < j < |ms| ==> Lower(ms[i].key) != Lower(ms[j].key)
  }

  /** Every object in the tree has unique keys. */
  predicate Unique(j: Json) {
    match j
    case Array(items) => forall i :: 0 <= i < |items| ==> Unique(items[i])
    case Object(ms) => UniqueKeys(ms) && forall i :: 0 <= i < |ms| ==> Unique(ms[i].value)
    case _ => true
  }

  lemma FieldAt(ms: seq<Member>, i: nat)
    requires UniqueKeys(ms) && i < |ms|
    ensures ms[i].key in Keys(ms) && IndexOf(ms, ms[i].key) == i
    ensures Fields(ms)[ms[i].key] == Abs(ms[i].value)
  {
    assert ms[i].key in Keys(ms);
    assert !(IndexOf(ms, ms[i].key) < i);
  }

  /** A measure for recursion into sorted member lists. */
  function Weight(j: Json): nat
    decreases j, 1
  {
    match j
    case Array(items) => 1 + ItemsWeight(items)
    case Object(ms) => 1 + MembersWeight(ms)
    case _ => 1
  }

  function ItemsWeight(items: seq<Json>): nat
    decreases items, 0
  {
    if items == [] then 0 else Weight(items[0]) + ItemsWeight(items[1..])
  }

  function MembersWeight(ms: seq<Member>): nat
    decreases ms, 0
  {
    if ms == [] then 0 else Weight(ms[0].value) + MembersWeight(ms[1..])
  }

  lemma {:induction false} MembersWeightSum(a: seq<Member>, b: seq<Member>)
    ensures MembersWeight(a + b) == MembersWeight(a) + MembersWeight(b)
  {
    if a == [] {
      AppendNothing(b);
    } else {
      MembersWeightSum(a[1..], b);
      SumTail(a, b);
    }
  }

  lemma ConsWeight(m: Member, ms: seq<Member>)
    ensures MembersWeight([m] + ms) == Weight(m.value) + MembersWeight(ms)
  {
    ConsTail(m, ms);
  }

  lemma {:induction false} MergeWeight(a: seq<Member>, b: seq<Member>, cs: bool)
    ensures MembersWeight(Merge(a, b, KeyOf, cs)) == MembersWeight(a) + MembersWeight(b)
  {
    if a != [] && b != [] {
      if CompareStrings(KeyOf(a[0]), KeyOf(b[0]), cs) < 0 {
        MergeWeight(a[1..], b, cs);
        ConsWeight(a[0], Merge(a[1..], b, KeyOf, cs));
      } else {
        MergeWeight(a, b[1..], cs);
        ConsWeight(b[0], Merge(a, b[1..], KeyOf, cs));
      }
    }
  }

  lemma {:induction false} SortWeight(ms: seq<Member>, cs: bool)
    ensures MembersWeight(Sort(ms, KeyOf, cs)) == MembersWeight(ms)
    decreases |ms|
  {
    if |ms| > 1 && !StrictlySorted(ms, KeyOf, cs) {
      var h := (|ms| + 1) / 2;
      SortWeight(ms[..h], cs);
      SortWeight(ms[h..], cs);
      MergeWeight(Sort(ms[..h], KeyOf, cs), Sort(ms[h..], KeyOf, cs), cs);
      MembersWeightSum(ms[..h], ms[h..]);
      CutAt(ms, h);
    }
  }

  /** `sort_object`. */
  function SortMembers(ms: seq<Member>, cs: bool): (r: seq<Member>)
    ensures |r| == |ms|
    ensures MembersWeight(r) == MembersWeight(ms)
  {
    SortWeight(ms, cs);
    Sort(ms, KeyOf, cs)
  }

  lemma {:induction false} MemberLighter(ms: seq<Member>, i: nat)
    requires i < |ms|
    ensures Weight(ms[i].value) <= MembersWeight(ms)
  {
    if i > 0 {
      MemberLighter(ms[1..], i - 1);
    }
  }

  lemma {:induction false} ItemLighter(items: seq<Json>, i: nat)
    requires i < |items|
    ensures Weight(items[i]) <= ItemsWeight(items)
  {
    if i > 0 {
      ItemLighter(items[1..], i - 1);
    }
  }

  /** A permutation of members with unique keys has the same unique keys and the same fields. */
  lemma PermutedFields(a: seq<Member>, b: seq<Member>)
    requires multiset(a) == multiset(b) && UniqueKeys(a)
    ensures UniqueKeys(b) && Keys(b) == Keys(a) && Fields(b) == Fields(a)
  {
    SameMembers(b, a);
    forall k
      ensures k in Keys(b) <==> k in Keys(a)
    {
      if k in Keys(b) {
        assert b[IndexOf(b, k)] in a;
      }
      if k in Keys(a) {
        assert a[IndexOf(a, k)] in b;
      }
    }
    assert Keys(b) == Keys(a);
    PermutedUnique(a, b);
    forall k | k in Keys(a)
      ensures Fields(b)[k] == Fields(a)[k]
    {
      var i, j := IndexOf(a, k), IndexOf(b, k);
      assert b[j] in a;
      var i' :| 0 <= i' < |a| && a[i'] == b[j];
      FieldAt(a, i');
    }
  }

  lemma PermutedUnique(a: seq<Member>, b: seq<Member>)
    requires multiset(a) == multiset(b) && UniqueKeys(a)
    ensures UniqueKeys(b)
  {
    SameMembers(b, a);
    forall i, j | 0 <= i < j < |b|
      ensures b[i].key != b[j].key
    {
      if b[i].key == b[j].key {
        assert b[i] in a && b[j] in a;
        var i' :| 0 <= i' < |a| && a[i'] == b[i];
        var j' :| 0 <= j' < |a| && a[j'] == b[j];
        assert i' == j' && b[i] == b[j];
        Twice(b, i, j);
        Once(a, i');
      }
    }
  }

  lemma Twice<T>(s: seq<T>, i: nat, j: nat)
    requires i < j < |s| && s[i] == s[j]
    ensures multiset(s)[s[i]] >= 2
  {
    assert s == s[..j] + s[j..];
    assert s[..j][i] == s[i] && s[j..][0] == s[i];
    assert s[i] in s[..j] && s[i] in s[j..];
    assert multiset(s) == multiset(s[..j]) + multiset(s[j..]);
  }

  lemma Once(ms: seq<Member>, i: nat)
    requires UniqueKeys(ms) && i < |ms|
    ensures multiset(ms)[ms[i]] == 1
  {
    assert ms == ms[..i] + ([ms[i]] + ms[i + 1..]);
    assert ms[i] !in ms[..i] && ms[i] !in ms[i + 1..];
    assert multiset(ms) == multiset(ms[..i]) + (multiset([ms[i]]) + multiset(ms[i + 1..]));
  }

  /** Keys that no two members share under the comparison in use. */
  predicate DistinctUnder(ms: seq<Member>, cs: bool) {
    forall i, j :: 0 <= i < j < |ms| ==> Fold(ms[i].key, cs) != Fold(ms[j].key, cs)
  }

  /** What sorting gives when keys are distinct: the same members, strictly increasing. */
  lemma SortedStrictly(ms: seq<Member>, cs: bool)
    requires DistinctUnder(ms, cs)
    ensures UniqueKeys(ms) && UniqueKeys(SortMembers(ms, cs))
    ensures Fields(SortMembers(ms, cs)) == Fields(ms)
    ensures Keys(SortMembers(ms, cs)) == Keys(ms)
    ensures forall i, j :: 0 <= i < j < |ms| ==>
      CompareStrings(SortMembers(ms, cs)[i].key, SortMembers(ms, cs)[j].key, cs) < 0
  {
    var r := SortMembers(ms, cs);
    SortPermutes(ms, KeyOf, cs);
    PermutedFields(ms, r);
    SortSorted(ms, KeyOf, cs);
    SameMembers(r, ms);
    forall i, j | 0 <= i < j < |ms|
      ensures CompareStrings(r[i].key, r[j].key, cs) < 0
    {
      assert CompareStrings(KeyOf(r[i]), KeyOf(r[j]), cs) <= 0;
      assert r[i] in ms && r[j] in ms;
      var i' :| 0 <= i' < |ms| && ms[i'] == r[i];
      var j' :| 0 <= j' < |ms| && ms[j'] == r[j];
      CompareTotal(r[i].key, r[j].key, cs);
    }
  }

  lemma UniqueDistinct(ms: seq<Member>)
    requires UniqueKeys(ms)
    ensures DistinctUnder(ms, true)
  {
  }
}
