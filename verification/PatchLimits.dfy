/**
 Where patching departs from RFC 6902: `detach_path` matches keys ignoring case, whatever the caller asked
 for, so removing a member can remove another one.
 */
module PatchLimits {
  import opened CStrings
  import opened Seqs
  import opened Sorting
  import opened JsonValues
  import opened PointerEncoding
  import opened MemberLists
  import opened Patches
  import opened PatchCoding
  import opened PatchLocality
  import opened PatchRoundTrip

  /** `detach_path` at the root takes out the first member whose key equals the last token up to case. */
  lemma DetachFirstAlike(ms: seq<Member>, k: string, junk: char)
    requires Named(k, junk) && KeyIndex(ms, k, false) >= 0
    ensures var first := KeyIndex(ms, k, false);
      DetachPath(Object(ms), ComposedPath("", k, junk), true) == Cut(ms[first].value, Object(RemoveIndex(ms, first)))
  {
    NamedAtRoot(k, junk);
    assert FindParent(Object(ms), ComposedPath("", k, junk), true) == Some([]);
  }

  /** Removing by a key takes out the first member whose key equals it up to case. */
  lemma RemoveFirstAlike(ms: seq<Member>, i: nat, junk: char)
    requires i < |ms| && Named(ms[i].key, junk)
    ensures var first := KeyIndex(ms, ms[i].key, false);
      0 <= first <= i
      && ApplyEdit(Object(ms), Edit("remove", ComposedPath("", ms[i].key, junk), None)) ==
           Outcome(0, Object(RemoveIndex(ms, first)))
  {
    var k, first := ms[i].key, KeyIndex(ms, ms[i].key, false);
    assert Fold(ms[i].key, false) == Fold(k, false);
    NamedAtRoot(k, junk);
    DetachFirstAlike(ms, k, junk);
  }

  lemma FirstIsSafe(ms: seq<Member>, i: nat)
    requires UniqueKeys(ms) && i < |ms|
    ensures Safe(ms, ms[i].key) <==> KeyIndex(ms, ms[i].key, false) == i
  {
    var k, first := ms[i].key, KeyIndex(ms, ms[i].key, false);
    if first == i {
      forall a, b | 0 <= b < a < |ms| && ms[a].key == k
        ensures Lower(ms[b].key) != Lower(k)
      {
        assert a == i;
      }
    } else {
      assert first < i && Lower(ms[first].key) == Lower(k);
    }
  }

  lemma StillThere(ms: seq<Member>, x: nat, m: map<string, Val>)
    requires x < |ms|
    ensures Fields(ms) != m - {ms[x].key}
  {
    assert ms[x].key in Keys(ms);
  }

  lemma OtherRemoved(ms: seq<Member>, first: nat, i: nat)
    requires first < i < |ms|
    ensures Fields(RemoveIndex(ms, first)) != Fields(ms) - {ms[i].key}
  {
    var rest := RemoveIndex(ms, first);
    RemovedAt(ms, first, i - 1);
    assert rest[i - 1] == ms[i];
    StillThere(rest, i - 1, Fields(ms));
  }

  lemma OneRemoved(ms: seq<Member>, i: nat)
    requires UniqueKeys(ms) && i < |ms|
    ensures var first := KeyIndex(ms, ms[i].key, false);
      0 <= first <= i &&
      (Fields(RemoveIndex(ms, first)) == Fields(ms) - {ms[i].key} <==> Safe(ms, ms[i].key))
  {
    var first := KeyIndex(ms, ms[i].key, false);
    FirstIsSafe(ms, i);
    if first == i {
      RemovedFields(ms, i);
    } else {
      assert Fold(ms[i].key, false) == Fold(ms[i].key, false);
      OtherRemoved(ms, first, i);
    }
  }

  /** Removing a member removes exactly that member if and only if no earlier key equals its key up to case. */
  lemma RemoveExactly(ms: seq<Member>, i: nat, junk: char)
    requires UniqueKeys(ms) && i < |ms| && Named(ms[i].key, junk)
    ensures var r := ApplyEdit(Object(ms), Edit("remove", ComposedPath("", ms[i].key, junk), None));
      r.status == 0 && (Abs(r.doc) == VObject(Fields(ms) - {ms[i].key}) <==> Safe(ms, ms[i].key))
  {
    RemoveFirstAlike(ms, i, junk);
    OneRemoved(ms, i);
    AbsObject(RemoveIndex(ms, KeyIndex(ms, ms[i].key, false)));
  }

  /** Between `{"A": null, "a": true}` and `{"A": null}` the only patch is the removal of `a`. */
  lemma NearDuplicatePatch(junk: char)
    ensures Diff("", Object([Member("A", Null), Member("a", True)]), Object([Member("A", Null)]), true, junk) ==
      [Edit("remove", ComposedPath("", "a", junk), None)]
  {
    var ms, ts := [Member("A", Null), Member("a", True)], [Member("A", Null)];
    assert StrCmp("A", "a") == -1;
    assert StrictlySorted(ms, KeyOf, true);
    assert SortMembers(ms, true) == ms && SortMembers(ts, true) == ts;
    StrCmpZero("A", "A");
    assert ms[1..] == [Member("a", True)] && ts[1..] == [] && ms[1..][1..] == [];
    assert DiffMembers("", ms[1..], ts[1..], true, junk) == [Edit("remove", ComposedPath("", "a", junk), None)];
  }

  lemma NearDuplicateRemoved(junk: char)
    ensures ApplyEdit(Object([Member("A", Null), Member("a", True)]),
                      Edit("remove", ComposedPath("", "a", junk), None)) ==
      Outcome(0, Object([Member("a", True)]))
  {
    var ms := [Member("A", Null), Member("a", True)];
    assert Lower("A")[0] == Lower("a")[0] == 'a';
    assert Lower("A") == Lower("a");
    PlainNamed("a", junk);
    RemoveFirstAlike(ms, 1, junk);
    assert KeyIndex(ms, "a", false) == 0;
    assert RemoveIndex(ms, 0) == [Member("a", True)];
  }

  /** Keys that differ in letter case only: the generated patch removes the member it should keep. */
  lemma NearDuplicateLost(junk: char)
    ensures var from, to := Object([Member("A", Null), Member("a", True)]), Object([Member("A", Null)]);
      var r := ApplyPatches(from, GeneratePatches(from, to, true, junk), true);
      r.status == 0 && Abs(r.doc) == Abs(Object([Member("a", True)])) && Abs(r.doc) != Abs(to)
  {
    var ms, ts, rest := [Member("A", Null), Member("a", True)], [Member("A", Null)], [Member("a", True)];
    var e := Edit("remove", ComposedPath("", "a", junk), None);
    NearDuplicatePatch(junk);
    NearDuplicateRemoved(junk);
    ApplyEditsOne(Object(ms), e);
    ComposedAllApply(Object(ms), [e]);
    AbsObject(rest);
    AbsObject(ts);
    FieldAt(ts, 0);
    assert "A" in Fields(ts) && "A" !in Fields(rest);
  }
}
