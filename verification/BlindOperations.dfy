/**
 The six operations of JSON Patch at the entry point that ignores case: with the keys of the document and the
 tokens of the patch in lower case, they are the operations of RFC 6902.
 */
module BlindOperations {
  import opened CStrings
  import opened Seqs
  import opened JsonValues
  import opened Pointers
  import opened Compare
  import opened CaseFolding
  import opened Patches
  import opened PatchOperations
  import opened CaseBlind

  // ---------------------------------------------------------------- comparing

  /** Comparing while ignoring case is comparing the lower-case trees. */
  lemma {:induction false} CompareLower(a: Json, b: Json)
    ensures CompareJson(Folded(a, false), Folded(b, false), true) == FoldedCompared(CompareJson(a, b, false), false)
    decreases Weight(a), 0, 0
  {
    if SameType(a, b) && a.Array? {
      var r := CompareItems(a.items, b.items, false);
      CompareItemsLower(a.items, b.items);
      FoldedArray(a.items, false);
      FoldedArray(b.items, false);
      FoldedArray(r.xs, false);
      FoldedArray(r.ys, false);
    } else if SameType(a, b) && a.Object? {
      var xs, ys := SortMembers(a.members, false), SortMembers(b.members, false);
      var r := CompareMembers(xs, ys, false);
      CompareMembersLower(xs, ys);
      SortedLower(a.members);
      SortedLower(b.members);
      FoldedObject(a.members, false);
      FoldedObject(b.members, false);
      FoldedObject(r.xs, false);
      FoldedObject(r.ys, false);
    }
  }

  lemma {:induction false} CompareItemsLower(xs: seq<Json>, ys: seq<Json>)
    ensures var r := CompareItems(xs, ys, false);
      CompareItems(FoldedItems(xs, false), FoldedItems(ys, false), true) ==
      ComparedItems(r.same, FoldedItems(r.xs, false), FoldedItems(r.ys, false))
    decreases ItemsWeight(xs), 1, |xs|
  {
    if xs != [] && ys != [] {
      var h := CompareJson(xs[0], ys[0], false);
      CompareLower(xs[0], ys[0]);
      ItemsTail(xs);
      ItemsTail(ys);
      if h.same {
        CompareItemsLower(xs[1..], ys[1..]);
        var t := CompareItems(xs[1..], ys[1..], false);
        FoldedItemsCons(h.a, t.xs, false);
        FoldedItemsCons(h.b, t.ys, false);
      } else {
        FoldedItemsCons(h.a, xs[1..], false);
        FoldedItemsCons(h.b, ys[1..], false);
      }
    }
  }

  lemma {:induction false} CompareMembersLower(xs: seq<Member>, ys: seq<Member>)
    ensures var r := CompareMembers(xs, ys, false);
      CompareMembers(FoldedMembers(xs, false), FoldedMembers(ys, false), true) ==
      ComparedMembers(r.same, FoldedMembers(r.xs, false), FoldedMembers(r.ys, false))
    decreases MembersWeight(xs), 1, |xs|
  {
    if xs != [] && ys != [] {
      MembersTail(xs);
      MembersTail(ys);
      if CompareStrings(xs[0].key, ys[0].key, false) == 0 {
        var h := CompareJson(xs[0].value, ys[0].value, false);
        var x, y := Member(xs[0].key, h.a), Member(ys[0].key, h.b);
        CompareLower(xs[0].value, ys[0].value);
        if h.same {
          CompareMembersLower(xs[1..], ys[1..]);
          var t := CompareMembers(xs[1..], ys[1..], false);
          FoldedCons(x, t.xs, false);
          FoldedCons(y, t.ys, false);
        } else {
          FoldedCons(x, xs[1..], false);
          FoldedCons(y, ys[1..], false);
        }
      }
    }
  }

  // ---------------------------------------------------------------- test, move and copy

  lemma TestLower(doc: Json, path: string, value: Option<Json>)
    requires SteadyPath(path)
    ensures ApplyTest(Folded(doc, false), Lower(path), FoldedOption(value, false), true) ==
      LowerOutcome(ApplyTest(doc, path, value, false))
  {
    LocateLower(doc, path);
    var at := Locate(doc, path, false);
    if at.Some? && value.Some? {
      NodeLower(doc, at.value);
      CompareLower(NodeAt(doc, at.value), value.value);
      ReplaceLower(doc, at.value, CompareJson(NodeAt(doc, at.value), value.value, false).a);
    }
  }

  lemma MoveLower(doc: Json, path: string, from: string)
    requires Steady(path) && Steady(from)
    ensures AddMoved(Folded(doc, false), Lower(path), Some(String(Lower(from))), Move, true) ==
      LowerOutcome(AddMoved(doc, path, Some(String(from)), Move, false))
  {
    DetachLower(doc, from);
    var c := DetachPath(doc, from, false);
    if c.Cut? {
      AddLower(c.rest, path, c.item);
    }
  }

  lemma CopyLower(doc: Json, path: string, from: string)
    requires Steady(path) && SteadyPath(from)
    ensures AddMoved(Folded(doc, false), Lower(path), Some(String(Lower(from))), Copy, true) ==
      LowerOutcome(AddMoved(doc, path, Some(String(from)), Copy, false))
  {
    LocateLower(doc, from);
    CopyIs(doc, path, from, false);
    CopyIs(Folded(doc, false), Lower(path), Lower(from), true);
    var at := Locate(doc, from, false);
    if at.Some? {
      NodeLower(doc, at.value);
      AddLower(doc, path, NodeAt(doc, at.value));
    }
  }

  lemma CopyIs(doc: Json, path: string, from: string, cs: bool)
    ensures AddMoved(doc, path, Some(String(from)), Copy, cs) ==
      var at := Locate(doc, from, cs);
      if at == None then Outcome(5, doc) else AddAt(doc, path, NodeAt(doc, at.value), cs)
  {
  }

  // ---------------------------------------------------------------- requests in lower case

  function LowerTokens(ts: seq<string>): (r: seq<string>)
    ensures |r| == |ts| && forall i :: 0 <= i < |ts| ==> r[i] == Lower(ts[i])
  {
    seq(|ts|, i requires 0 <= i < |ts| => Lower(ts[i]))
  }

  function LowerRequest(q: Request): Request {
    Request(q.op, LowerTokens(q.path), FoldedOption(q.value, false),
            if q.from == None then None else Some(LowerTokens(q.from.value)))
  }

  lemma {:induction false} EscapeLower(t: string)
    ensures Escape(Lower(t)) == Lower(Escape(t))
  {
    if t != "" {
      LowerByte(t[0]);
      LowerParts(t, 1);
      EscapeLower(t[1..]);
      LowerSum(EscapeByte(t[0]), Escape(t[1..]));
      assert Lower(EscapeByte(t[0])) == EscapeByte(ToLower(t[0]));
    }
  }

  lemma {:induction false} RenderLower(ts: seq<string>)
    ensures Render(LowerTokens(ts)) == Lower(Render(ts))
  {
    if ts != [] {
      EscapeLower(ts[0]);
      RenderLower(ts[1..]);
      assert LowerTokens(ts)[1..] == LowerTokens(ts[1..]) && Lower("/") == "/";
      LowerSum("/", Escape(ts[0]));
      LowerSum("/" + Escape(ts[0]), Render(ts[1..]));
    }
  }

  /** In a lower-case document ignoring case detaches no other member. */
  lemma {:induction false} LowerDetachable(j: Json, path: seq<string>)
    ensures Detachable(Folded(j, false), LowerTokens(path))
    decreases |path|
  {
    var f, p := Folded(j, false), LowerTokens(path);
    if j.Object? {
      FoldedObject(j.members, false);
    }
    if |path| == 1 {
      if j.Object? {
        FoldedIndex(j.members, path[0], false);
        SettledIndex(j.members, path[0]);
      }
    } else if path != [] {
      var i := ResolveStep(f, p[0]);
      if i.Some? {
        assert p[1..] == LowerTokens(path[1..]);
        StillChild(j, i.value);
        LowerDetachable(Child(j, i.value), path[1..]);
      }
    }
  }

  lemma StillChild(j: Json, i: nat)
    requires HasChild(Folded(j, false), i)
    ensures HasChild(j, i) && Child(Folded(j, false), i) == Folded(Child(j, i), false)
  {
    FoldedChildren(j);
    FoldedChild(j, i);
  }

  lemma FoldedChildren(j: Json)
    ensures forall i: nat :: HasChild(Folded(j, false), i) <==> HasChild(j, i)
  {
    if j.Array? {
      FoldedArray(j.items, false);
    } else if j.Object? {
      FoldedObject(j.members, false);
    }
  }

  /** Keys that are distinct ignoring case are distinct once they are folded, and the other way round. */
  lemma {:induction false} FoldedComparable(j: Json)
    ensures Comparable(Folded(j, false), true) <==> Comparable(j, false)
    decreases j
  {
    match j
    case Array(items) =>
      FoldedArray(items, false);
      forall i | 0 <= i < |items|
        ensures Comparable(FoldedItems(items, false)[i], true) <==> Comparable(items[i], false)
      {
        FoldedComparable(items[i]);
      }
    case Object(ms) =>
      FoldedObject(ms, false);
      forall i | 0 <= i < |ms|
        ensures Comparable(FoldedMembers(ms, false)[i].value, true) <==> Comparable(ms[i].value, false)
      {
        FoldedComparable(ms[i].value);
      }
      FoldedUnder(ms);
    case _ =>
  }

  lemma FoldedUnder(ms: seq<Member>)
    ensures DistinctUnder(FoldedMembers(ms, false), true) <==> DistinctUnder(ms, false)
  {
    var fs := FoldedMembers(ms, false);
    assert forall i :: 0 <= i < |ms| ==> fs[i].key == Fold(ms[i].key, false);
  }

  // ---------------------------------------------------------------- the operations

  /**
   Keys are distinct ignoring case, no token that starts like a number holds an upper-case letter, and the request
   in lower case is sound on the document in lower case (where `LowerDetachable` settles what is detached).
   */
  ghost predicate BlindSound(doc: Json, q: Request) {
    Comparable(doc, false) && Steady(Render(q.path)) && (q.from.Some? ==> Steady(Render(q.from.value))) &&
    Sound(Folded(doc, false), LowerRequest(q))
  }

  /** A request at the entry point that ignores case, against RFC 6902 on folded values. */
  ghost predicate BlindApplies(doc: Json, r: Outcome, q: Request) {
    var v, l := FoldedAbs(doc, false), LowerRequest(q);
    var want := RfcApply(v, l);
    r.status == Status(v, l) &&
    (r.status == 0 <==> want.Some? && !OntoRoot(q)) &&
    (r.status == 0 ==> FoldedAbs(r.doc, false) == want.value && Comparable(r.doc, false)) &&
    (r.status != 0 ==> FoldedAbs(r.doc, false) == Left(v, l))
  }

  lemma FromLower(doc: Json, r: Outcome, q: Request)
    requires Applies(Folded(doc, false), LowerOutcome(r), LowerRequest(q))
    ensures BlindApplies(doc, r, q)
  {
    FoldedComparable(r.doc);
  }

  lemma BlindOp(doc: Json, q: Request, from: Option<Json>)
    requires q.op != InvalidOp && q.op != Test && BlindSound(doc, q)
    requires from == if q.from == None then None else Some(String(Render(q.from.value)))
    ensures BlindApplies(doc, ApplyOp(doc, q.op, Render(q.path), q.value, from, false), q)
  {
    var d, l := Folded(doc, false), LowerRequest(q);
    var lower := if q.from == None then None else Some(String(Render(l.from.value)));
    OpApplies(d, l, lower);
    RenderLower(q.path);
    if q.op == Move || q.op == Copy {
      if q.from.Some? {
        RenderLower(q.from.value);
        if q.op == Move {
          MoveLower(doc, Render(q.path), Render(q.from.value));
        } else {
          CopyLower(doc, Render(q.path), Render(q.from.value));
        }
      }
      MovingIs(doc, q.op, Render(q.path), q.value, from, false);
      MovingIs(d, q.op, Lower(Render(q.path)), l.value, lower, true);
    } else {
      OpLower(doc, q.op, Render(q.path), q.value);
      NoFrom(doc, q.op, Render(q.path), q.value, from, false);
      NoFrom(d, q.op, Lower(Render(q.path)), l.value, lower, true);
    }
    FromLower(doc, ApplyOp(doc, q.op, Render(q.path), q.value, from, false), q);
  }

  lemma MovingIs(doc: Json, op: Op, path: string, value: Option<Json>, from: Option<Json>, cs: bool)
    requires op == Move || op == Copy
    ensures ApplyOp(doc, op, path, value, from, cs) == AddMoved(doc, path, from, op, cs)
  {
  }

  lemma NoFrom(doc: Json, op: Op, path: string, value: Option<Json>, from: Option<Json>, cs: bool)
    requires op == Add || op == Remove || op == Replace
    ensures ApplyOp(doc, op, path, value, from, cs) == ApplyOp(doc, op, path, value, None, cs)
  {
  }

  /** `apply_patch`, ignoring case, does what RFC 6902 says of every one of its operations, on folded values. */
  lemma BlindFollowsRfc(doc: Json, patch: Json, q: Request)
    requires Says(patch, q, false) && BlindSound(doc, q)
    ensures BlindApplies(doc, ApplyPatch(doc, patch, false), q)
  {
    var from := GetObjectItem(patch, "from", false);
    NamesFound(patch, false);
    NamedOp(patch, false, q.op);
    PatchIs(doc, patch, false, Render(q.path), q.op, q.value, from);
    if q.op == Test {
      BlindTest(doc, q);
    } else {
      BlindOp(doc, q, from);
    }
  }

  lemma BlindTest(doc: Json, q: Request)
    requires q.op == Test && BlindSound(doc, q)
    ensures BlindApplies(doc, ApplyTest(doc, Render(q.path), q.value, false), q)
  {
    RenderLower(q.path);
    TestApplies(Folded(doc, false), LowerRequest(q));
    TestLower(doc, Render(q.path), q.value);
    FromLower(doc, ApplyTest(doc, Render(q.path), q.value, false), q);
  }

  // ---------------------------------------------------------------- whole patches

  function LowerRequests(qs: seq<Request>): (r: seq<Request>)
    ensures |r| == |qs| && forall i :: 0 <= i < |qs| ==> r[i] == LowerRequest(qs[i])
  {
    seq(|qs|, i requires 0 <= i < |qs| => LowerRequest(qs[i]))
  }

  /** Every request is sound where the run comes to it. */
  ghost predicate BlindRunSound(doc: Json, patches: seq<Json>, qs: seq<Request>)
    decreases |qs|
  {
    |patches| == |qs| && (qs == [] ||
      (Says(patches[0], qs[0], false) && BlindSound(doc, qs[0]) &&
       (ApplyPatch(doc, patches[0], false).status == 0 ==>
          BlindRunSound(ApplyPatch(doc, patches[0], false).doc, patches[1..], qs[1..]))))
  }

  /** What the law says of a run. */
  ghost predicate BlindStops(doc: Json, patches: seq<Json>, qs: seq<Request>) {
    var r, v, ls := ApplyPatches(doc, Array(patches), false), FoldedAbs(doc, false), LowerRequests(qs);
    (r.status, FoldedAbs(r.doc, false)) == RunStops(v, ls) &&
    (r.status == 0 <==> RfcRun(v, ls).Some? && forall q :: q in qs ==> !OntoRoot(q)) &&
    (r.status == 0 ==> Some(FoldedAbs(r.doc, false)) == RfcRun(v, ls))
  }

  /**
   `cJSONUtils_ApplyPatches` succeeds exactly when RFC 6902 lets the patch succeed, with its result on folded values,
   and otherwise stops at the first operation that fails, with its status.
   */
  lemma {:induction false} BlindRunFollowsRfc(doc: Json, patches: seq<Json>, qs: seq<Request>)
    requires BlindRunSound(doc, patches, qs)
    ensures BlindStops(doc, patches, qs)
    decreases |qs|
  {
    if qs != [] {
      BlindFollowsRfc(doc, patches[0], qs[0]);
      var r := ApplyPatch(doc, patches[0], false);
      if r.status == 0 {
        BlindRunFollowsRfc(r.doc, patches[1..], qs[1..]);
      }
      BlindRunTurn(doc, patches, qs, r);
    }
  }

  lemma BlindRunTurn(doc: Json, patches: seq<Json>, qs: seq<Request>, r: Outcome)
    requires qs != [] && |patches| == |qs| && r == ApplyPatch(doc, patches[0], false)
    requires BlindApplies(doc, r, qs[0]) && (r.status == 0 ==> BlindStops(r.doc, patches[1..], qs[1..]))
    ensures BlindStops(doc, patches, qs)
  {
    var ls := LowerRequests(qs);
    HeadTail(qs);
    assert ls[0] == LowerRequest(qs[0]) && ls[1..] == LowerRequests(qs[1..]);
    assert ApplyPatches(doc, Array(patches), false) ==
      if r.status != 0 then r else ApplyPatches(r.doc, Array(patches[1..]), false);
  }
}
