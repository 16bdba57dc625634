/**
 Locality of edits: an edit whose path starts with a token acts on the child that token selects and on
 nothing else.
 */
module PatchLocality {
  import opened CStrings
  import opened JsonValues
  import opened Seqs
  import opened Pointers
  import opened PointerEncoding
  import opened Compare
  import opened MemberLists
  import opened Patches

  // ---------------------------------------------------------------- generated edits

  /** The operation a generated edit asks for. */
  function OpOf(e: Edit): Op {
    if e.op == "add" then Add else if e.op == "remove" then Remove else if e.op == "replace" then Replace else InvalidOp
  }

  function ApplyEdit(doc: Json, e: Edit): Outcome
    requires OpOf(e) != InvalidOp
  {
    ApplyOp(doc, OpOf(e), e.path, e.value, None, true)
  }

  predicate Generated(es: seq<Edit>) {
    forall i :: 0 <= i < |es| ==> OpOf(es[i]) != InvalidOp
  }

  function ApplyEdits(doc: Json, es: seq<Edit>): Outcome
    requires Generated(es)
    decreases |es|
  {
    if es == [] then Outcome(0, doc)
    else
      var r := ApplyEdit(doc, es[0]);
      if r.status != 0 then r else ApplyEdits(r.doc, es[1..])
  }

  lemma ComposedLookup(e: Edit)
    ensures GetObjectItem(Compose(e), "op", true) == Some(String(e.op))
    ensures GetObjectItem(Compose(e), "path", true) == Some(String(e.path))
    ensures GetObjectItem(Compose(e), "value", true) == e.value
    ensures GetObjectItem(Compose(e), "from", true) == None
  {
    var ms := Compose(e).members;
    assert ms[0].key == "op" && ms[1].key == "path" && (|ms| == 3 ==> ms[2].key == "value");
    assert "path"[0] != "from"[0];
    var i, p := KeyIndex(ms, "op", true), KeyIndex(ms, "path", true);
    var v, f := KeyIndex(ms, "value", true), KeyIndex(ms, "from", true);
    assert i == 0 && p == 1 && (v == |ms| - 1 || |ms| == 2);
  }

  /** A generated edit, written as a JSON object, is read back as that edit. */
  lemma ComposedApplies(doc: Json, e: Edit)
    requires OpOf(e) != InvalidOp
    ensures ApplyPatch(doc, Compose(e), true) == ApplyEdit(doc, e)
  {
    ComposedLookup(e);
  }

  lemma ComposeAllTail(es: seq<Edit>)
    requires es != []
    ensures ComposeAll(es)[0] == Compose(es[0]) && ComposeAll(es)[1..] == ComposeAll(es[1..])
  {
  }

  lemma {:induction false} ComposedAllApply(doc: Json, es: seq<Edit>)
    requires Generated(es)
    ensures ApplyAll(doc, ComposeAll(es), true) == ApplyEdits(doc, es)
    decreases |es|
  {
    if es != [] {
      ComposedApplies(doc, es[0]);
      ComposeAllTail(es);
      var r := ApplyEdit(doc, es[0]);
      if r.status == 0 {
        ComposedAllApply(r.doc, es[1..]);
      }
    }
  }

  lemma {:induction false} ApplyEditsSum(doc: Json, a: seq<Edit>, b: seq<Edit>)
    requires Generated(a) && Generated(b)
    ensures Generated(a + b)
    ensures var r := ApplyEdits(doc, a);
      ApplyEdits(doc, a + b) == if r.status != 0 then r else ApplyEdits(r.doc, b)
    decreases |a|
  {
    if a == [] {
      AppendNothing(b);
    } else {
      SumTail(a, b);
      var r := ApplyEdit(doc, a[0]);
      if r.status == 0 {
        ApplyEditsSum(r.doc, a[1..], b);
      } else {
        assert Generated(a + b);
      }
    }
  }

  // ---------------------------------------------------------------- prefixes

  function Prefix(p: string, e: Edit): Edit {
    Edit(e.op, p + e.path, e.value)
  }

  function Prefixed(p: string, es: seq<Edit>): (r: seq<Edit>)
    ensures |r| == |es|
    ensures Generated(es) ==> Generated(r)
  {
    seq(|es|, i requires 0 <= i < |es| => Prefix(p, es[i]))
  }

  lemma PrefixedSum(p: string, a: seq<Edit>, b: seq<Edit>)
    ensures Prefixed(p, a + b) == Prefixed(p, a) + Prefixed(p, b)
  {
  }

  lemma PrefixedCons(p: string, e: Edit, es: seq<Edit>)
    ensures Prefixed(p, [e] + es) == [Prefix(p, e)] + Prefixed(p, es)
  {
  }

  lemma Associates(a: string, b: string, c: string)
    ensures a + b + c == a + (b + c)
  {
  }

  /** The edits for a subtree at p + q are the edits for it at q, moved below p. */
  lemma {:induction false} DiffMovesDown(p: string, q: string, from: Json, to: Json, junk: char)
    ensures Diff(p + q, from, to, true, junk) == Prefixed(p, Diff(q, from, to, true, junk))
    decreases Weight(from), 0, 0
  {
    if SameType(from, to) && from.Array? {
      DiffItemsMoveDown(p, q, 0, from.items, to.items, junk);
    } else if SameType(from, to) && from.Object? {
      DiffMembersMoveDown(p, q, SortMembers(from.members, true), SortMembers(to.members, true), junk);
    }
  }

  lemma {:induction false} DiffItemsMoveDown(p: string, q: string, index: nat, from: seq<Json>, to: seq<Json>,
          junk: char)
    ensures DiffItems(p + q, index, from, to, true, junk) == Prefixed(p, DiffItems(q, index, from, to, true, junk))
    decreases ItemsWeight(from), 1, |from| + |to|
  {
    if from != [] && to != [] {
      var item := "/" + Decimal(index);
      DiffMovesDown(p, q + "/" + Decimal(index), from[0], to[0], junk);
      Associates(p, q + "/", Decimal(index));
      Associates(p, q, "/");
      DiffItemsMoveDown(p, q, index + 1, from[1..], to[1..], junk);
      PrefixedSum(p, Diff(q + "/" + Decimal(index), from[0], to[0], true, junk),
                  DiffItems(q, index + 1, from[1..], to[1..], true, junk));
    } else if from != [] {
      ComposedBelow(p, q, Decimal(index), junk);
      DiffItemsMoveDown(p, q, index, from[1..], to, junk);
      PrefixedCons(p, Edit("remove", ComposedPath(q, Decimal(index), junk), None),
                   DiffItems(q, index, from[1..], to, true, junk));
    } else if to != [] {
      ComposedBelow(p, q, "-", junk);
      DiffItemsMoveDown(p, q, index + 1, from, to[1..], junk);
      PrefixedCons(p, Edit("add", ComposedPath(q, "-", junk), Some(to[0])),
                   DiffItems(q, index + 1, from, to[1..], true, junk));
    }
  }

  lemma ComposedBelow(p: string, q: string, suffix: string, junk: char)
    ensures ComposedPath(p + q, suffix, junk) == p + ComposedPath(q, suffix, junk)
  {
    var text := CStr(Encoded(suffix, Leftover(suffix, junk)));
    Associates(p, q, "/");
    Associates(p, q + "/", text);
  }

  lemma {:induction false} DiffMembersMoveDown(p: string, q: string, from: seq<Member>, to: seq<Member>, junk: char)
    ensures DiffMembers(p + q, from, to, true, junk) == Prefixed(p, DiffMembers(q, from, to, true, junk))
    decreases MembersWeight(from), 1, |from| + |to|
  {
    if from != [] || to != [] {
      var diff := MergeOrder(from, to, true);
      if diff == 0 {
        ComposedBelow(p, q, from[0].key, junk);
        DiffMovesDown(p, ComposedPath(q, from[0].key, junk), from[0].value, to[0].value, junk);
        DiffMembersMoveDown(p, q, from[1..], to[1..], junk);
        PrefixedSum(p, Diff(ComposedPath(q, from[0].key, junk), from[0].value, to[0].value, true, junk),
                    DiffMembers(q, from[1..], to[1..], true, junk));
      } else if diff < 0 {
        ComposedBelow(p, q, from[0].key, junk);
        DiffMembersMoveDown(p, q, from[1..], to, junk);
        PrefixedCons(p, Edit("remove", ComposedPath(q, from[0].key, junk), None),
                     DiffMembers(q, from[1..], to, true, junk));
      } else {
        ComposedBelow(p, q, to[0].key, junk);
        DiffMembersMoveDown(p, q, from, to[1..], junk);
        PrefixedCons(p, Edit("add", ComposedPath(q, to[0].key, junk), Some(to[0].value)),
                     DiffMembers(q, from, to[1..], true, junk));
      }
    }
  }

  // ---------------------------------------------------------------- what edits look like

  lemma {:induction false} DiffGenerated(p: string, from: Json, to: Json, junk: char)
    ensures Generated(Diff(p, from, to, true, junk))
    decreases Weight(from), 0, 0
  {
    if SameType(from, to) && from.Array? {
      DiffItemsGenerated(p, 0, from.items, to.items, junk);
    } else if SameType(from, to) && from.Object? {
      DiffMembersGenerated(p, SortMembers(from.members, true), SortMembers(to.members, true), junk);
    }
  }

  lemma {:induction false} DiffItemsGenerated(p: string, index: nat, from: seq<Json>, to: seq<Json>, junk: char)
    ensures Generated(DiffItems(p, index, from, to, true, junk))
    decreases ItemsWeight(from), 1, |from| + |to|
  {
    if from != [] && to != [] {
      DiffGenerated(p + "/" + Decimal(index), from[0], to[0], junk);
      DiffItemsGenerated(p, index + 1, from[1..], to[1..], junk);
    } else if from != [] {
      DiffItemsGenerated(p, index, from[1..], to, junk);
    } else if to != [] {
      DiffItemsGenerated(p, index + 1, from, to[1..], junk);
    }
  }

  lemma {:induction false} DiffMembersGenerated(p: string, from: seq<Member>, to: seq<Member>, junk: char)
    ensures Generated(DiffMembers(p, from, to, true, junk))
    decreases MembersWeight(from), 1, |from| + |to|
  {
    if from != [] || to != [] {
      var diff := MergeOrder(from, to, true);
      if diff == 0 {
        DiffGenerated(ComposedPath(p, from[0].key, junk), from[0].value, to[0].value, junk);
        DiffMembersGenerated(p, from[1..], to[1..], junk);
      } else if diff < 0 {
        DiffMembersGenerated(p, from[1..], to, junk);
      } else {
        DiffMembersGenerated(p, from, to[1..], junk);
      }
    }
  }

  /** Every edit is strictly below the node. */
  predicate Inner(es: seq<Edit>) {
    forall i :: 0 <= i < |es| ==> es[i].path != "" && es[i].path[0] == '/'
  }

  lemma PrefixedInner(p: string, es: seq<Edit>)
    requires p != "" && p[0] == '/'
    ensures Inner(Prefixed(p, es))
  {
  }

  lemma {:induction false} DiffItemsInner(index: nat, from: seq<Json>, to: seq<Json>, junk: char)
    ensures Inner(DiffItems("", index, from, to, true, junk))
    decreases |from| + |to|
  {
    if from != [] && to != [] {
      var item := "" + "/" + Decimal(index);
      DiffMovesDown(item, "", from[0], to[0], junk);
      assert item + "" == item;
      PrefixedInner(item, Diff("", from[0], to[0], true, junk));
      DiffItemsInner(index + 1, from[1..], to[1..], junk);
    } else if from != [] {
      DiffItemsInner(index, from[1..], to, junk);
    } else if to != [] {
      DiffItemsInner(index + 1, from, to[1..], junk);
    }
  }

  lemma {:induction false} DiffMembersInner(from: seq<Member>, to: seq<Member>, junk: char)
    ensures Inner(DiffMembers("", from, to, true, junk))
    decreases |from| + |to|
  {
    if from != [] || to != [] {
      var diff := MergeOrder(from, to, true);
      if diff == 0 {
        var item := ComposedPath("", from[0].key, junk);
        DiffMovesDown(item, "", from[0].value, to[0].value, junk);
        assert item + "" == item;
        PrefixedInner(item, Diff("", from[0].value, to[0].value, true, junk));
        DiffMembersInner(from[1..], to[1..], junk);
      } else if diff < 0 {
        DiffMembersInner(from[1..], to, junk);
      } else {
        DiffMembersInner(from, to[1..], junk);
      }
    }
  }

  /** The edits for a node are either one replacement of it or all strictly below it. */
  lemma DiffShape(from: Json, to: Json, junk: char)
    ensures var es := Diff("", from, to, true, junk);
      Generated(es) && (es == [Edit("replace", "", Some(to))] || Inner(es))
  {
    DiffGenerated("", from, to, junk);
    if SameType(from, to) && from.Array? {
      DiffItemsInner(0, from.items, to.items, junk);
    } else if SameType(from, to) && from.Object? {
      DiffMembersInner(SortMembers(from.members, true), SortMembers(to.members, true), junk);
    }
  }

  // ---------------------------------------------------------------- locality

  /** Whatever follows it, the token selects child i. */
  ghost predicate Selects(j: Json, token: string, i: nat) {
    '/' !in token && HasChild(j, i) &&
    forall rest :: Ends(rest) ==> ChildAt(j, token + rest, true) == Some(i)
  }

  function Lift(j: Json, i: nat, r: Outcome): Outcome
    requires HasChild(j, i)
  {
    Outcome(r.status, SetChild(j, i, r.doc))
  }

  lemma SetChildTwice(j: Json, i: nat, u: Json, v: Json)
    requires HasChild(j, i)
    ensures SetChild(SetChild(j, i, u), i, v) == SetChild(j, i, v)
    ensures SetChild(j, i, Child(j, i)) == j
  {
  }

  lemma SelectsAfter(j: Json, token: string, i: nat, v: Json)
    requires Selects(j, token, i)
    ensures Selects(SetChild(j, i, v), token, i)
  {
    forall rest | Ends(rest)
      ensures ChildAt(SetChild(j, i, v), token + rest, true) == Some(i)
    {
      assert ChildAt(j, token + rest, true) == Some(i);
      if j.Object? {
        assert FirstMatch(j.members, token + rest, true) == i;
        FirstMatchSameKeys(j.members, SetChild(j, i, v).members, token + rest);
      }
    }
  }

  lemma {:induction false} FirstMatchSameKeys(a: seq<Member>, b: seq<Member>, t: string)
    requires |a| == |b| && forall i :: 0 <= i < |a| ==> a[i].key == b[i].key
    ensures FirstMatch(a, t, true) == FirstMatch(b, t, true)
  {
    if a != [] {
      FirstMatchSameKeys(a[1..], b[1..], t);
    }
  }

  lemma LocateBelow(j: Json, token: string, i: nat, rest: string)
    requires Selects(j, token, i) && Ends(rest)
    ensures Locate(j, "/" + token + rest, true) == After([i], Locate(Child(j, i), rest, true))
  {
    PathTail(token, rest);
    SkipsToken(token, rest);
    assert ChildAt(j, token + rest, true) == Some(i);
  }

  lemma UpdateBelow(j: Json, i: nat, a: Address, v: Json)
    requires HasChild(j, i) && ValidAddress(Child(j, i), a)
    ensures ValidAddress(j, [i] + a) && NodeAt(j, [i] + a) == NodeAt(Child(j, i), a)
    ensures ReplaceAt(j, [i] + a, v) == SetChild(j, i, ReplaceAt(Child(j, i), a, v))
  {
    assert ([i] + a)[1..] == a;
  }

  lemma LastSlashBelow(p: string, s: string)
    requires LastSlash(s) >= 0
    ensures LastSlash(p + s) == |p| + LastSlash(s)
  {
    var path, k := p + s, LastSlash(s);
    assert path[|p| + k] == s[k];
    forall x | |p| + k < x < |path|
      ensures path[x] != '/'
    {
      assert path[x] == s[x - |p|];
    }
    LastSlashIs(path, |p| + k);
  }

  lemma SlashFound(s: string, i: nat)
    requires i < |s| && s[i] == '/'
    ensures LastSlash(s) >= i
  {
    assert !(LastSlash(s) < i);
  }

  lemma StartsWithSlash(s: string)
    requires s != "" && s[0] == '/'
    ensures LastSlash(s) >= 0 && Ends(s[..LastSlash(s)])
  {
    SlashFound(s, 0);
  }

  lemma SplitBelow(p: string, s: string)
    requires s != "" && s[0] == '/'
    ensures LastSlash(s) >= 0 && Ends(s[..LastSlash(s)]) && LastSlash(p + s) >= 0
    ensures (p + s)[..LastSlash(p + s)] == p + s[..LastSlash(s)]
    ensures (p + s)[LastSlash(p + s) + 1..] == s[LastSlash(s) + 1..]
  {
    StartsWithSlash(s);
    LastSlashBelow(p, s);
    CutBelow(p, s, LastSlash(s));
  }

  lemma TokenBelow(p: string, s: string)
    requires s != "" && s[0] == '/'
    ensures ChildToken(p + s) == ChildToken(s)
  {
    SplitBelow(p, s);
  }

  /** The parent of a path below child i is found below child i. */
  lemma ParentBelow(j: Json, token: string, i: nat, s: string)
    requires Selects(j, token, i) && s != "" && s[0] == '/'
    ensures FindParent(j, "/" + token + s, true) == After([i], FindParent(Child(j, i), s, true))
  {
    SplitBelow("/" + token, s);
    LocateBelow(j, token, i, s[..LastSlash(s)]);
  }

  lemma CutBelow(p: string, s: string, k: nat)
    requires k < |s|
    ensures (p + s)[..|p| + k] == p + s[..k] && (p + s)[|p| + k + 1..] == s[k + 1..]
  {
  }

  lemma DetachBelow(j: Json, token: string, i: nat, s: string)
    requires Selects(j, token, i) && s != "" && s[0] == '/'
    ensures DetachPath(j, "/" + token + s, true) ==
      match DetachPath(Child(j, i), s, true)
      case Nothing => Nothing
      case Cut(item, rest) => Cut(item, SetChild(j, i, rest))
  {
    ParentBelow(j, token, i, s);
    TokenBelow("/" + token, s);
    var at := FindParent(Child(j, i), s, true);
    if at != None {
      var cut := DetachChild(NodeAt(Child(j, i), at.value), ChildToken(s));
      UpdateBelow(j, i, at.value, if cut.Cut? then cut.rest else Null);
    }
  }

  lemma AddBelow(j: Json, token: string, i: nat, s: string, v: Json)
    requires Selects(j, token, i) && s != "" && s[0] == '/'
    ensures AddAt(j, "/" + token + s, v, true) == Lift(j, i, AddAt(Child(j, i), s, v, true))
  {
    ParentBelow(j, token, i, s);
    TokenBelow("/" + token, s);
    SetChildTwice(j, i, Null, Null);
    var at := FindParent(Child(j, i), s, true);
    if at != None {
      var r := AddChild(NodeAt(Child(j, i), at.value), ChildToken(s), v, true);
      UpdateBelow(j, i, at.value, r.doc);
    }
  }

  /** An "add" below the root. */
  lemma AddIs(doc: Json, path: string, value: Option<Json>, cs: bool)
    requires path != ""
    ensures ApplyOp(doc, Add, path, value, None, cs) ==
      if value == None then Outcome(7, doc) else AddAt(doc, path, value.value, cs)
  {
  }

  lemma ReplaceIsLocal(j: Json, token: string, i: nat, e: Edit)
    requires Selects(j, token, i) && OpOf(e) == Replace && e.path != "" && e.path[0] == '/'
    ensures ApplyEdit(j, Prefix("/" + token, e)) == Lift(j, i, ApplyEdit(Child(j, i), e))
  {
    DetachBelow(j, token, i, e.path);
    match DetachPath(Child(j, i), e.path, true)
    case Nothing => SetChildTwice(j, i, Null, Null);
    case Cut(_, rest) =>
      if e.value.Some? {
        SelectsAfter(j, token, i, rest);
        AddBelow(SetChild(j, i, rest), token, i, e.path, e.value.value);
        SetChildTwice(j, i, rest, AddAt(rest, e.path, e.value.value, true).doc);
      }
  }

  lemma RemoveIsLocal(j: Json, token: string, i: nat, e: Edit)
    requires Selects(j, token, i) && OpOf(e) == Remove && e.path != "" && e.path[0] == '/'
    ensures ApplyEdit(j, Prefix("/" + token, e)) == Lift(j, i, ApplyEdit(Child(j, i), e))
  {
    DetachBelow(j, token, i, e.path);
    SetChildTwice(j, i, Null, Null);
  }

  lemma AddIsLocal(j: Json, token: string, i: nat, e: Edit)
    requires Selects(j, token, i) && OpOf(e) !in {InvalidOp, Remove, Replace} && e.path != "" && e.path[0] == '/'
    ensures ApplyEdit(j, Prefix("/" + token, e)) == Lift(j, i, ApplyEdit(Child(j, i), e))
  {
    SetChildTwice(j, i, Null, Null);
    if e.value.Some? {
      AddBelow(j, token, i, e.path, e.value.value);
    }
  }

  /** One edit below a child acts on that child only. */
  lemma EditIsLocal(j: Json, token: string, i: nat, e: Edit)
    requires Selects(j, token, i) && OpOf(e) != InvalidOp && e.path != "" && e.path[0] == '/'
    ensures ApplyEdit(j, Prefix("/" + token, e)) == Lift(j, i, ApplyEdit(Child(j, i), e))
  {
    if OpOf(e) == Replace {
      ReplaceIsLocal(j, token, i, e);
    } else if OpOf(e) == Remove {
      RemoveIsLocal(j, token, i, e);
    } else {
      AddIsLocal(j, token, i, e);
    }
  }

  /** So does a run of them. */
  lemma {:induction false} EditsAreLocal(j: Json, token: string, i: nat, es: seq<Edit>)
    requires Selects(j, token, i) && Generated(es) && Inner(es)
    ensures ApplyEdits(j, Prefixed("/" + token, es)) == Lift(j, i, ApplyEdits(Child(j, i), es))
    decreases |es|
  {
    SetChildTwice(j, i, Null, Null);
    if es != [] {
      EditIsLocal(j, token, i, es[0]);
      var r := ApplyEdit(Child(j, i), es[0]);
      assert Prefixed("/" + token, es)[1..] == Prefixed("/" + token, es[1..]);
      if r.status == 0 {
        SelectsAfter(j, token, i, r.doc);
        EditsAreLocal(SetChild(j, i, r.doc), token, i, es[1..]);
        SetChildTwice(j, i, r.doc, ApplyEdits(r.doc, es[1..]).doc);
      }
    }
  }
}
