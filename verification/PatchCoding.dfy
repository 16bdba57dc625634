/**
 For which trees the paths of generated patches name what they are meant to name: what is added, removed or
 replaced is found by decoding, what is edited in its place by comparing with the escaped name.
 */
module PatchCoding {
  import opened CStrings
  import opened Seqs
  import opened Sorting
  import opened JsonValues
  import opened Pointers
  import opened PointerEncoding
  import opened KeyCoding
  import opened Compare
  import opened Patches

  /** Keys hold no NUL, and array lengths fit `size_t`. */
  predicate Sized(j: Json) {
    match j
    case Array(items) => |items| < SIZE_T && forall i :: 0 <= i < |items| ==> Sized(items[i])
    case Object(ms) => forall i :: 0 <= i < |ms| ==> NUL !in ms[i].key && Sized(ms[i].value)
    case _ => true
  }

  /** The generator replaces the node as a whole. */
  predicate Replaced(from: Json, to: Json) {
    !SameType(from, to) || (from.Number? && from.n != to.n) || (from.String? && from.s != to.s)
  }

  // ---------------------------------------------------------------- keys that are passed through

  /** The keys whose members the written segment selects again. */
  predicate Passed(k: string, junk: char) {
    '~' !in k && ('/' !in k || (junk == '~' && k[0] != '/'))
  }

  lemma {:induction false} WrittenEscapes(k: string, junk: char)
    requires '~' !in k && ('/' !in k || junk == '~')
    ensures Written(k, junk) == Escape(k)
  {
    if k != "" {
      assert forall i :: 0 <= i < |k[1..]| ==> k[1..][i] == k[i + 1];
      WrittenEscapes(k[1..], junk);
      if k[0] == '/' {
        assert [junk, '1'] == "~1";
      }
    }
  }

  lemma PassedToken(k: string, junk: char)
    requires NUL !in k && Passed(k, junk)
    ensures Token(k, junk) == Escape(k)
  {
    TokenIs(k, junk);
    WrittenEscapes(k, junk);
  }

  /** A key in front of a path that goes on selects its member exactly if it can be passed. */
  lemma PassedSelects(ms: seq<Member>, i: nat, junk: char)
    requires UniqueKeys(ms) && i < |ms| && NUL !in ms[i].key && Passed(ms[i].key, junk)
    ensures '/' !in Token(ms[i].key, junk)
    ensures forall rest :: Ends(rest) ==> ChildAt(Object(ms), Token(ms[i].key, junk) + rest, true) == Some(i)
  {
    var k := ms[i].key;
    PassedToken(k, junk);
    EscapeHasNoSlash(k);
    forall rest | Ends(rest)
      ensures ChildAt(Object(ms), Token(k, junk) + rest, true) == Some(i)
    {
      forall x | 0 <= x < |ms|
        ensures TokenMatches(ms[x].key, Token(k, junk) + rest, true) <==> ms[x].key == k
      {
        MatchesEscaped(ms[x].key, k, rest);
      }
    }
  }

  // ---------------------------------------------------------------- keys that are named

  lemma {:induction false} RestoredWritten(k: string, junk: char)
    requires Restored(k, junk)
    ensures '/' !in Written(k, junk)
  {
    if k != "" {
      if k[0] == '~' {
        SlashesWritten(k[1..], junk);
        assert '/' !in "~1" + Written(k[1..], junk);
      } else {
        RestoredWritten(k[1..], junk);
      }
    }
  }

  lemma {:induction false} SlashesWritten(k: string, junk: char)
    requires AllSlashes(k) && (k == "" || junk == '~')
    ensures '/' !in Written(k, junk)
  {
    if k != "" {
      AllSlashesCons(k);
      SlashesWritten(k[1..], junk);
      assert '/' !in ['~', '1'] + Written(k[1..], junk);
    }
  }

  /** A restored key is written without a '/' and read back. */
  lemma RestoredToken(k: string, junk: char)
    requires NUL !in k && Restored(k, junk)
    ensures '/' !in Token(k, junk) && DecodedText(Token(k, junk)) == k
  {
    TokenIs(k, junk);
    RestoredWritten(k, junk);
    RestoredExactly(k, junk);
  }

  lemma {:induction false} PlainRestored(k: string, junk: char)
    requires PlainKey(k)
    ensures Restored(k, junk) && Passed(k, junk) && Token(k, junk) == k
  {
    EncodedPlain(k, Leftover(k, junk));
    if k != "" {
      PlainRestored(k[1..], junk);
    }
  }

  // ---------------------------------------------------------------- whole trees

  /**
   Every path that generation writes names its node, at every pair of objects that it walks through; a common
   member with one value on both sides gets no patch.
   */
  ghost predicate Coded(from: Json, to: Json, junk: char)
    decreases from
  {
    SameType(from, to) ==>
      match from
      case Array(items) => forall i :: 0 <= i < |items| && i < |to.items| ==> Coded(items[i], to.items[i], junk)
      case Object(ms) =>
        (forall i :: 0 <= i < |ms| ==> CodedFrom(ms[i], to.members, junk)) &&
        forall i :: 0 <= i < |to.members| ==> CodedTo(ms, to.members[i], junk)
      case _ => true
  }

  ghost predicate CodedFrom(f: Member, to: seq<Member>, junk: char)
    decreases f
  {
    var j := IndexOf(to, f.key);
    if j == -1 then Restored(f.key, junk) else CodedCommon(f, to[j].value, junk)
  }

  /** A common member: replaced under its name, or passed through to what differs below. */
  ghost predicate CodedCommon(f: Member, t: Json, junk: char)
    decreases f, 0
  {
    if Replaced(f.value, t) then Restored(f.key, junk)
    else Abs(f.value) == Abs(t) || (Passed(f.key, junk) && Coded(f.value, t, junk))
  }

  ghost predicate CodedTo(from: seq<Member>, t: Member, junk: char) {
    IndexOf(from, t.key) == -1 ==> Restored(t.key, junk)
  }

  /** The same along the walk over two sorted lists. */
  ghost predicate CodedWalk(from: seq<Member>, to: seq<Member>, junk: char)
    decreases |from| + |to|
  {
    if from == [] && to == [] then true
    else
      var diff := MergeOrder(from, to, true);
      if diff == 0 then CodedCommon(from[0], to[0].value, junk) && CodedWalk(from[1..], to[1..], junk)
      else if diff < 0 then Restored(from[0].key, junk) && CodedWalk(from[1..], to, junk)
      else Restored(to[0].key, junk) && CodedWalk(from, to[1..], junk)
  }

  /** A key that is written and read back as it is. */
  predicate Named(k: string, junk: char) {
    NUL !in k && Restored(k, junk)
  }

  // ---------------------------------------------------------------- the condition on objects and along the walk

  /** Two target lists in which the members of ms find the same values. */
  ghost predicate SameTargets(ms: seq<Member>, to: seq<Member>, other: seq<Member>) {
    forall b :: b in ms ==>
      (IndexOf(to, b.key) >= 0 <==> IndexOf(other, b.key) >= 0) &&
      (IndexOf(to, b.key) >= 0 ==> to[IndexOf(to, b.key)].value == other[IndexOf(other, b.key)].value)
  }

  lemma TailTargets(from: seq<Member>, to: seq<Member>)
    requires to != [] && to[0].key !in Keys(from)
    ensures SameTargets(from, to, to[1..])
  {
    forall b | b in from
      ensures IndexOf(to, b.key) == if IndexOf(to[1..], b.key) == -1 then -1 else IndexOf(to[1..], b.key) + 1
    {
      var i :| 0 <= i < |from| && from[i] == b;
      assert b.key in Keys(from);
    }
  }

  ghost predicate CodedLists(from: seq<Member>, to: seq<Member>, junk: char) {
    (forall f :: f in from ==> CodedFrom(f, to, junk)) && forall t :: t in to ==> CodedTo(from, t, junk)
  }

  lemma HeadOrTail(from: seq<Member>)
    requires from != []
    ensures forall b :: b in from <==> b == from[0] || b in from[1..]
  {
    HeadTail(from);
  }

  lemma SameCodedFrom(ms: seq<Member>, to: seq<Member>, other: seq<Member>, junk: char)
    requires SameTargets(ms, to, other)
    ensures (forall f :: f in ms ==> CodedFrom(f, to, junk)) <==> (forall f :: f in ms ==> CodedFrom(f, other, junk))
  {
    assert forall f :: f in ms ==> (CodedFrom(f, to, junk) <==> CodedFrom(f, other, junk));
  }

  lemma SameCodedTo(ms: seq<Member>, from: seq<Member>, other: seq<Member>, junk: char)
    requires SameTargets(ms, from, other)
    ensures (forall t :: t in ms ==> CodedTo(from, t, junk)) <==> (forall t :: t in ms ==> CodedTo(other, t, junk))
  {
    assert forall t :: t in ms ==> (CodedTo(from, t, junk) <==> CodedTo(other, t, junk));
  }

  lemma {:induction false} WalkCoded(from: seq<Member>, to: seq<Member>, junk: char)
    requires Increasing(from) && Increasing(to)
    ensures CodedWalk(from, to, junk) <==> CodedLists(from, to, junk)
    decreases |from| + |to|
  {
    if from != [] || to != [] {
      var diff := MergeOrder(from, to, true);
      if diff == 0 {
        CompareTotal(from[0].key, to[0].key, true);
        WalkCodedCommon(from, to, junk);
      } else if diff < 0 {
        WalkCodedRemoved(from, to, junk);
      } else {
        WalkCodedAdded(from, to, junk);
      }
    }
  }

  lemma {:induction false} WalkCodedCommon(from: seq<Member>, to: seq<Member>, junk: char)
    requires Increasing(from) && Increasing(to) && from != [] && to != [] && MergeOrder(from, to, true) == 0
    requires from[0].key == to[0].key
    ensures CodedWalk(from, to, junk) <==> CodedLists(from, to, junk)
    decreases |from| + |to|, 0
  {
    HeadAbsentFromTail(from);
    HeadAbsentFromTail(to);
    HeadOrTail(from);
    HeadOrTail(to);
    TailTargets(from[1..], to);
    TailTargets(to[1..], from);
    SameCodedFrom(from[1..], to, to[1..], junk);
    SameCodedTo(to[1..], from, from[1..], junk);
    WalkCoded(from[1..], to[1..], junk);
    assert IndexOf(to, from[0].key) == 0 && IndexOf(from, to[0].key) == 0;
  }

  lemma {:induction false} WalkCodedRemoved(from: seq<Member>, to: seq<Member>, junk: char)
    requires Increasing(from) && Increasing(to) && from != [] && MergeOrder(from, to, true) < 0
    ensures CodedWalk(from, to, junk) <==> CodedLists(from, to, junk)
    decreases |from| + |to|, 0
  {
    SmallerKeyAbsent(from[0].key, to);
    HeadAbsentFromTail(from);
    HeadOrTail(from);
    TailTargets(to, from);
    SameCodedTo(to, from, from[1..], junk);
    WalkCoded(from[1..], to, junk);
    assert IndexOf(to, from[0].key) == -1;
    assert CodedFrom(from[0], to, junk) <==> Restored(from[0].key, junk);
    assert CodedWalk(from, to, junk) <==> Restored(from[0].key, junk) && CodedWalk(from[1..], to, junk);
  }

  lemma NewKeyAbsent(from: seq<Member>, to: seq<Member>)
    requires Increasing(from) && to != [] && MergeOrder(from, to, true) > 0
    ensures to[0].key !in Keys(from)
  {
    if from != [] {
      CompareTotal(to[0].key, from[0].key, true);
      SmallerKeyAbsent(to[0].key, from);
    }
  }

  lemma {:induction false} WalkCodedAdded(from: seq<Member>, to: seq<Member>, junk: char)
    requires Increasing(from) && Increasing(to) && to != [] && MergeOrder(from, to, true) > 0
    ensures CodedWalk(from, to, junk) <==> CodedLists(from, to, junk)
    decreases |from| + |to|, 0
  {
    NewKeyAbsent(from, to);
    HeadAbsentFromTail(to);
    HeadOrTail(to);
    TailTargets(from, to);
    SameCodedFrom(from, to, to[1..], junk);
    WalkCoded(from, to[1..], junk);
    assert IndexOf(from, to[0].key) == -1;
    assert CodedTo(from, to[0], junk) <==> Restored(to[0].key, junk);
    assert CodedWalk(from, to, junk) <==> Restored(to[0].key, junk) && CodedWalk(from, to[1..], junk);
  }

  /** A list and its permutation hold the same member under a key. */
  lemma PermutedTarget(ms: seq<Member>, ss: seq<Member>, k: string)
    requires UniqueKeys(ms) && UniqueKeys(ss) && Keys(ms) == Keys(ss) && forall m :: m in ss <==> m in ms
    ensures IndexOf(ms, k) >= 0 <==> IndexOf(ss, k) >= 0
    ensures IndexOf(ms, k) >= 0 ==> ms[IndexOf(ms, k)] == ss[IndexOf(ss, k)]
  {
    if IndexOf(ms, k) >= 0 {
      var m := ms[IndexOf(ms, k)];
      assert m in ss;
      var j :| 0 <= j < |ss| && ss[j] == m;
      assert j == IndexOf(ss, k);
    }
  }

  /** Sorting changes no target. */
  lemma SortedTargets(ms: seq<Member>, to: seq<Member>)
    requires UniqueKeys(to)
    ensures SameTargets(ms, SortMembers(to, true), to) && Increasing(SortMembers(to, true))
    ensures forall m :: m in SortMembers(to, true) <==> m in to
  {
    var ts := SortMembers(to, true);
    SortPermutes(to, KeyOf, true);
    SameMembers(ts, to);
    UniqueDistinct(to);
    SortedStrictly(to, true);
    forall b | b in ms
      ensures (IndexOf(ts, b.key) >= 0 <==> IndexOf(to, b.key) >= 0) &&
        (IndexOf(ts, b.key) >= 0 ==> ts[IndexOf(ts, b.key)].value == to[IndexOf(to, b.key)].value)
    {
      PermutedTarget(to, ts, b.key);
    }
  }

  /** The condition of the walk over the sorted lists is the condition on the objects. */
  lemma SortedCoded(from: seq<Member>, to: seq<Member>, junk: char)
    requires UniqueKeys(from) && UniqueKeys(to)
    ensures CodedWalk(SortMembers(from, true), SortMembers(to, true), junk) <==> Coded(Object(from), Object(to), junk)
  {
    var fs, ts := SortMembers(from, true), SortMembers(to, true);
    SortedTargets(fs, to);
    SortedTargets(ts, from);
    WalkCoded(fs, ts, junk);
    SameCodedFrom(fs, ts, to, junk);
    SameCodedTo(ts, fs, from, junk);
    ObjectCoded(from, to, junk);
  }

  lemma ObjectCoded(from: seq<Member>, to: seq<Member>, junk: char)
    ensures Coded(Object(from), Object(to), junk) <==> CodedLists(from, to, junk)
  {
    assert forall i :: 0 <= i < |from| ==> from[i] in from;
    assert forall i :: 0 <= i < |to| ==> to[i] in to;
  }

  // ---------------------------------------------------------------- equal values need no patch

  lemma {:induction false} DiffSame(path: string, from: Json, to: Json, junk: char)
    requires Unique(from) && Unique(to) && Abs(from) == Abs(to)
    ensures Diff(path, from, to, true, junk) == []
    decreases Weight(from), 0, 0
  {
    if from.Array? {
      AbsArray(from.items);
      AbsArray(to.items);
      DiffItemsSame(path, 0, from.items, to.items, junk);
    } else if from.Object? {
      var fs, ts := SortMembers(from.members, true), SortMembers(to.members, true);
      AbsObject(from.members);
      AbsObject(to.members);
      SortedUnique(from.members);
      SortedUnique(to.members);
      DiffMembersSame(path, fs, ts, junk);
    }
  }

  lemma SortedUnique(ms: seq<Member>)
    requires Unique(Object(ms))
    ensures var r := SortMembers(ms, true);
      StrictUnder(r, true) && Fields(r) == Fields(ms) && forall i :: 0 <= i < |r| ==> Unique(r[i].value)
  {
    var r := SortMembers(ms, true);
    UniqueDistinct(ms);
    SortedStrictly(ms, true);
    SortPermutes(ms, KeyOf, true);
    SameMembers(r, ms);
    forall i | 0 <= i < |r|
      ensures Unique(r[i].value)
    {
      assert r[i] in ms;
    }
  }

  lemma {:induction false} DiffItemsSame(path: string, index: nat, from: seq<Json>, to: seq<Json>, junk: char)
    requires forall i :: 0 <= i < |from| ==> Unique(from[i])
    requires forall i :: 0 <= i < |to| ==> Unique(to[i])
    requires Values(from) == Values(to)
    ensures DiffItems(path, index, from, to, true, junk) == []
    decreases ItemsWeight(from), 1, |from|
  {
    assert |Values(from)| == |from| && |Values(to)| == |to|;
    if from != [] {
      assert Values(from)[0] == Values(to)[0];
      assert Values(from[1..]) == Values(from)[1..] && Values(to[1..]) == Values(to)[1..];
      DiffSame(path + "/" + Decimal(index), from[0], to[0], junk);
      DiffItemsSame(path, index + 1, from[1..], to[1..], junk);
    }
  }

  lemma SameHeads(from: seq<Member>, to: seq<Member>)
    requires StrictUnder(from, true) && StrictUnder(to, true) && Fields(from) == Fields(to) && from != []
    ensures to != [] && from[0].key == to[0].key && Abs(from[0].value) == Abs(to[0].value)
    ensures MergeOrder(from, to, true) == 0
    ensures StrictUnder(from[1..], true) && StrictUnder(to[1..], true) && Fields(from[1..]) == Fields(to[1..])
  {
    EmptyFields(from);
    EmptyFields(to);
    SameFirst(from, to, true);
    StrictUnique(from, true);
    StrictUnique(to, true);
    SameTails(from, to);
    StrCmpZero(from[0].key, to[0].key);
  }

  lemma {:induction false} DiffMembersSame(path: string, from: seq<Member>, to: seq<Member>, junk: char)
    requires StrictUnder(from, true) && StrictUnder(to, true) && Fields(from) == Fields(to)
    requires forall i :: 0 <= i < |from| ==> Unique(from[i].value)
    requires forall i :: 0 <= i < |to| ==> Unique(to[i].value)
    ensures DiffMembers(path, from, to, true, junk) == []
    decreases MembersWeight(from), 1, |from|
  {
    EmptyFields(from);
    EmptyFields(to);
    if from != [] {
      SameHeads(from, to);
      DiffSame(ComposedPath(path, from[0].key, junk), from[0].value, to[0].value, junk);
      DiffMembersSame(path, from[1..], to[1..], junk);
    }
  }

  // ---------------------------------------------------------------- and no other values do without one

  lemma {:induction false} NoDiff(path: string, from: Json, to: Json, junk: char)
    requires Unique(from) && Unique(to) && Diff(path, from, to, true, junk) == []
    ensures Abs(from) == Abs(to)
    decreases Weight(from), 0, 0
  {
    if from.Array? {
      NoItemsDiff(path, 0, from.items, to.items, junk);
      AbsArray(from.items);
      AbsArray(to.items);
    } else if from.Object? {
      SortedUnique(from.members);
      SortedUnique(to.members);
      NoMembersDiff(path, SortMembers(from.members, true), SortMembers(to.members, true), junk);
      AbsObject(from.members);
      AbsObject(to.members);
    }
  }

  lemma {:induction false} NoItemsDiff(path: string, index: nat, from: seq<Json>, to: seq<Json>, junk: char)
    requires forall i :: 0 <= i < |from| ==> Unique(from[i])
    requires forall i :: 0 <= i < |to| ==> Unique(to[i])
    requires DiffItems(path, index, from, to, true, junk) == []
    ensures Values(from) == Values(to)
    decreases ItemsWeight(from), 1, |from|
  {
    if from != [] && to != [] {
      NoDiff(path + "/" + Decimal(index), from[0], to[0], junk);
      NoItemsDiff(path, index + 1, from[1..], to[1..], junk);
      HeadTail(from);
      HeadTail(to);
      ValuesCons(from[0], from[1..]);
      ValuesCons(to[0], to[1..]);
    }
  }

  lemma {:induction false} NoMembersDiff(path: string, from: seq<Member>, to: seq<Member>, junk: char)
    requires forall i :: 0 <= i < |from| ==> Unique(from[i].value)
    requires forall i :: 0 <= i < |to| ==> Unique(to[i].value)
    requires DiffMembers(path, from, to, true, junk) == []
    ensures Fields(from) == Fields(to)
    decreases MembersWeight(from), 1, |from|
  {
    if from != [] || to != [] {
      StrCmpZero(from[0].key, to[0].key);
      NoDiff(ComposedPath(path, from[0].key, junk), from[0].value, to[0].value, junk);
      NoMembersDiff(path, from[1..], to[1..], junk);
      HeadTail(from);
      HeadTail(to);
      FieldsCons(from[0], from[1..]);
      FieldsCons(to[0], to[1..]);
    }
  }

  /** The patch that is generated is empty exactly for equal values. */
  lemma EmptyExactly(path: string, from: Json, to: Json, junk: char)
    requires Unique(from) && Unique(to)
    ensures Diff(path, from, to, true, junk) == [] <==> Abs(from) == Abs(to)
  {
    if Abs(from) == Abs(to) {
      DiffSame(path, from, to, junk);
    }
    if Diff(path, from, to, true, junk) == [] {
      NoDiff(path, from, to, junk);
    }
  }
}
