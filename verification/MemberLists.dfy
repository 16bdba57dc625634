/**
 Members of one object as a list: finding, removing, updating and appending, and what each does to the
 values by key.
 */
module MemberLists {
  import opened CStrings
  import opened JsonValues
  import opened Seqs

  /** The first member whose key compares equal to k. */
  function KeyIndex(ms: seq<Member>, k: string, cs: bool): (i: int)
    ensures -1 <= i < |ms|
    ensures 0 <= i ==> Fold(ms[i].key, cs) == Fold(k, cs)
    ensures forall j :: 0 <= j < (if i == -1 then |ms| else i) ==> Fold(ms[j].key, cs) != Fold(k, cs)
  {
    if ms == [] then -1
    else if Fold(ms[0].key, cs) == Fold(k, cs) then 0
    else
      var i := KeyIndex(ms[1..], k, cs);
      if i == -1 then -1 else i + 1
  }

  /** `cJSON_DeleteItemFromObject` then `cJSON_AddItemToObject`: the member moves to the end. */
  function PutMember(ms: seq<Member>, k: string, v: Json, cs: bool): seq<Member> {
    var i := KeyIndex(ms, k, cs);
    (if i == -1 then ms else RemoveIndex(ms, i)) + [Member(k, v)]
  }

  /** No earlier member differs from k in letter case only, so that detaching by k finds k. */
  ghost predicate Safe(ms: seq<Member>, k: string) {
    forall i, j :: 0 <= j < i < |ms| && ms[i].key == k ==> Lower(ms[j].key) != Lower(k)
  }

  lemma FieldOf(a: seq<Member>, i: nat)
    requires UniqueKeys(a) && i < |a|
    ensures a[i].key in Fields(a) && Fields(a)[a[i].key] == Abs(a[i].value)
  {
    FieldAt(a, i);
  }

  lemma FieldsAre(a: seq<Member>, m: map<string, Val>)
    requires UniqueKeys(a) && m.Keys == Keys(a)
    requires forall i :: 0 <= i < |a| ==> m[a[i].key] == Abs(a[i].value)
    ensures Fields(a) == m
  {
    forall k | k in Keys(a)
      ensures Fields(a)[k] == m[k]
    {
      FieldAt(a, IndexOf(a, k));
    }
  }

  // ---------------------------------------------------------------- update in place

  function Updated(ms: seq<Member>, i: nat, v: Json): (r: seq<Member>)
    requires i < |ms|
    ensures |r| == |ms| && forall x :: 0 <= x < |ms| ==> r[x].key == ms[x].key
    ensures forall x :: 0 <= x < |ms| ==> r[x].value == if x == i then v else ms[x].value
  {
    ms[i := Member(ms[i].key, v)]
  }

  lemma UpdatedKeys(ms: seq<Member>, i: nat, v: Json)
    requires i < |ms|
    ensures Keys(Updated(ms, i, v)) == Keys(ms) && ms[i].key in Keys(ms)
    ensures UniqueKeys(ms) ==> UniqueKeys(Updated(ms, i, v))
  {
  }

  lemma UpdatedFieldAt(ms: seq<Member>, i: nat, v: Json, x: nat)
    requires UniqueKeys(ms) && i < |ms| && x < |ms|
    ensures ms[x].key in Fields(ms)
    ensures Fields(ms)[ms[i].key := Abs(v)][ms[x].key] == Abs(Updated(ms, i, v)[x].value)
  {
    FieldOf(ms, x);
    assert x != i ==> ms[x].key != ms[i].key;
  }

  lemma UpdatedFields(ms: seq<Member>, i: nat, v: Json)
    requires UniqueKeys(ms) && i < |ms|
    ensures UniqueKeys(Updated(ms, i, v)) && Fields(Updated(ms, i, v)) == Fields(ms)[ms[i].key := Abs(v)]
  {
    var r, m := Updated(ms, i, v), Fields(ms)[ms[i].key := Abs(v)];
    UpdatedKeys(ms, i, v);
    assert m.Keys == Keys(r);
    forall x | 0 <= x < |r|
      ensures m[r[x].key] == Abs(r[x].value)
    {
      UpdatedFieldAt(ms, i, v, x);
    }
    FieldsAre(r, m);
  }

  lemma UpdatedSafe(ms: seq<Member>, i: nat, v: Json, k: string)
    requires i < |ms| && Safe(ms, k)
    ensures Safe(Updated(ms, i, v), k)
  {
  }

  // ---------------------------------------------------------------- removal

  lemma RemovedKeys(ms: seq<Member>, i: nat)
    requires UniqueKeys(ms) && i < |ms|
    ensures UniqueKeys(RemoveIndex(ms, i)) && Keys(RemoveIndex(ms, i)) == Keys(ms) - {ms[i].key}
  {
    var r := RemoveIndex(ms, i);
    forall x | 0 <= x < |r|
      ensures r[x] == ms[if x < i then x else x + 1]
    {
      RemovedAt(ms, i, x);
    }
    forall k | k in Keys(ms) && k != ms[i].key
      ensures k in Keys(r)
    {
      var x := IndexOf(ms, k);
      assert r[if x < i then x else x - 1].key == k;
    }
  }

  lemma RemovedFields(ms: seq<Member>, i: nat)
    requires UniqueKeys(ms) && i < |ms|
    ensures UniqueKeys(RemoveIndex(ms, i)) && Fields(RemoveIndex(ms, i)) == Fields(ms) - {ms[i].key}
  {
    var r, m := RemoveIndex(ms, i), Fields(ms) - {ms[i].key};
    RemovedKeys(ms, i);
    forall x | 0 <= x < |r|
      ensures m[r[x].key] == Abs(r[x].value)
    {
      RemovedAt(ms, i, x);
      FieldOf(ms, if x < i then x else x + 1);
      assert r[x].key in Keys(r);
    }
    FieldsAre(r, m);
  }

  lemma RemovedSafe(ms: seq<Member>, i: nat, k: string)
    requires i < |ms| && Safe(ms, k)
    ensures Safe(RemoveIndex(ms, i), k)
  {
    var r := RemoveIndex(ms, i);
    forall x, y | 0 <= y < x < |r| && r[x].key == k
      ensures Lower(r[y].key) != Lower(k)
    {
      RemovedAt(ms, i, x);
      RemovedAt(ms, i, y);
    }
  }

  // ---------------------------------------------------------------- append

  lemma AppendedKeys(ms: seq<Member>, k: string, v: Json)
    requires UniqueKeys(ms) && k !in Keys(ms)
    ensures UniqueKeys(ms + [Member(k, v)]) && Keys(ms + [Member(k, v)]) == Keys(ms) + {k}
  {
    var r := ms + [Member(k, v)];
    assert forall x :: 0 <= x < |ms| ==> r[x] == ms[x] && ms[x].key in Keys(ms);
    assert r[|ms|].key == k;
    forall key | key in Keys(ms)
      ensures key in Keys(r)
    {
      assert r[IndexOf(ms, key)].key == key;
    }
  }

  lemma AppendedFields(ms: seq<Member>, k: string, v: Json)
    requires UniqueKeys(ms) && k !in Keys(ms)
    ensures UniqueKeys(ms + [Member(k, v)]) && Fields(ms + [Member(k, v)]) == Fields(ms)[k := Abs(v)]
  {
    var r, m := ms + [Member(k, v)], Fields(ms)[k := Abs(v)];
    AppendedKeys(ms, k, v);
    forall x | 0 <= x < |r|
      ensures m[r[x].key] == Abs(r[x].value)
    {
      if x < |ms| {
        FieldOf(ms, x);
      }
    }
    FieldsAre(r, m);
  }

  lemma AppendedSafe(ms: seq<Member>, k: string, v: Json, other: string)
    requires Safe(ms, other) && k != other
    ensures Safe(ms + [Member(k, v)], other)
  {
  }

  /** The list with the value at i set and that member moved to the end. */
  function MovedToEnd(ms: seq<Member>, i: nat, v: Json): seq<Member>
    requires i < |ms|
  {
    RemoveIndex(ms, i) + [Member(ms[i].key, v)]
  }

  lemma MovedFields(ms: seq<Member>, i: nat, v: Json)
    requires UniqueKeys(ms) && i < |ms|
    ensures UniqueKeys(MovedToEnd(ms, i, v)) && Fields(MovedToEnd(ms, i, v)) == Fields(ms)[ms[i].key := Abs(v)]
  {
    var rest, k := RemoveIndex(ms, i), ms[i].key;
    RemovedFields(ms, i);
    RemovedKeys(ms, i);
    AppendedFields(rest, k, v);
    PutBack(Fields(ms), k, Abs(v));
  }

  lemma PutBack(m: map<string, Val>, k: string, v: Val)
    ensures (m - {k})[k := v] == m[k := v]
  {
  }

  // ---------------------------------------------------------------- finding

  lemma KeyIndexIs(ms: seq<Member>, i: nat)
    requires UniqueKeys(ms) && i < |ms|
    ensures KeyIndex(ms, ms[i].key, true) == i
    ensures Safe(ms, ms[i].key) ==> KeyIndex(ms, ms[i].key, false) == i
  {
    var x, y := KeyIndex(ms, ms[i].key, true), KeyIndex(ms, ms[i].key, false);
    assert !(i < x) && !(x == -1) && !(x < i);
    assert !(i < y) && !(y == -1);
  }

  lemma KeyIndexNone(ms: seq<Member>, k: string)
    requires k !in Keys(ms)
    ensures KeyIndex(ms, k, true) == -1
  {
    assert forall i :: 0 <= i < |ms| ==> ms[i].key in Keys(ms);
  }

  // ---------------------------------------------------------------- maps

  lemma SetAfter(m: map<string, Val>, t: map<string, Val>, k: string, v: Val)
    requires k !in t
    ensures m[k := v] + t == (m + t)[k := v] == m + t[k := v]
  {
  }

  lemma SetRight(m: map<string, Val>, t: map<string, Val>, k: string, v: Val)
    ensures m + t[k := v] == (m + t)[k := v]
  {
  }

  lemma SetIff(f: map<string, Val>, m: map<string, Val>, k: string, v: Val, w: Val)
    requires k in f ==> f[k] == v
    ensures f == m[k := w] <==> v == w && f == m[k := v]
  {
    if f == m[k := w] {
      assert k in f && f[k] == w;
    }
  }
}
