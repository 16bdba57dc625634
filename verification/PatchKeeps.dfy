/**
 What edits keep of the members of an object that their paths do not name.
 */
module PatchKeeps {
  import opened CStrings
  import opened Seqs
  import opened JsonValues
  import opened Pointers
  import opened MemberLists
  import opened Patches
  import opened PatchLocality

  // ---------------------------------------------------------------- what one edit does to an object

  /** The type of a node, and its value if it has no children. */
  function Shape(j: Json): Json {
    match j
    case Array(_) => Array([])
    case Object(_) => Object([])
    case _ => j
  }

  /** The path ends at this level, in a segment that is read as g. */
  ghost predicate Names(q: string, g: string) {
    LastSlash(q) == 0 && ChildToken(q) == g
  }

  /** The path ends at this level, in a segment that detaches g. */
  ghost predicate Takes(q: string, g: string) {
    LastSlash(q) == 0 && Lower(ChildToken(q)) == Lower(g)
  }

  /** The path goes on below this level, through a segment that matches g. */
  ghost predicate Enters(q: string, g: string) {
    LastSlash(q) > 0 && TokenMatches(g, q[1..LastSlash(q)], true)
  }

  function ValueAt(ms: seq<Member>, k: string): Option<Json> {
    var i := IndexOf(ms, k);
    if i == -1 then None else Some(ms[i].value)
  }

  /** What an edit with path q keeps of every member. */
  ghost predicate EditKeeps(ms: seq<Member>, rs: seq<Member>, q: string) {
    UniqueKeys(rs) &&
    (forall g :: !Names(q, g) && ValueAt(rs, g) != None ==>
       ValueAt(ms, g) != None && Shape(ValueAt(rs, g).value) == Shape(ValueAt(ms, g).value)) &&
    (forall g :: !Names(q, g) && !Enters(q, g) && ValueAt(rs, g) != None ==> ValueAt(rs, g) == ValueAt(ms, g)) &&
    forall g :: !Takes(q, g) && ValueAt(ms, g) != None ==> ValueAt(rs, g) != None
  }

  lemma ValueAtIs(ms: seq<Member>, i: nat)
    requires UniqueKeys(ms) && i < |ms|
    ensures ValueAt(ms, ms[i].key) == Some(ms[i].value)
  {
    FieldAt(ms, i);
  }

  lemma KeepsAll(ms: seq<Member>, q: string)
    requires UniqueKeys(ms)
    ensures EditKeeps(ms, ms, q)
  {
  }

  lemma ValueAfterRemoval(ms: seq<Member>, i: nat, g: string)
    requires UniqueKeys(ms) && i < |ms|
    ensures ValueAt(RemoveIndex(ms, i), g) == if g == ms[i].key then None else ValueAt(ms, g)
  {
    var rs := RemoveIndex(ms, i);
    RemovedKeys(ms, i);
    if g in Keys(rs) {
      var x := IndexOf(rs, g);
      RemovedAt(ms, i, x);
      ValueAtIs(ms, if x < i then x else x + 1);
    }
  }

  lemma ValueAfterAppend(ms: seq<Member>, m: Member, g: string)
    requires UniqueKeys(ms) && m.key !in Keys(ms)
    ensures UniqueKeys(ms + [m]) && ValueAt(ms + [m], g) == if g == m.key then Some(m.value) else ValueAt(ms, g)
  {
    var rs := ms + [m];
    assert m == Member(m.key, m.value);
    AppendedKeys(ms, m.key, m.value);
    assert rs[|ms|] == m;
    ValueAtIs(rs, |ms|);
    if g in Keys(ms) {
      var x := IndexOf(ms, g);
      assert rs[x] == ms[x];
      ValueAtIs(rs, x);
    }
  }

  lemma RemovalKeeps(ms: seq<Member>, i: nat, q: string)
    requires UniqueKeys(ms) && i < |ms| && LastSlash(q) == 0 && Lower(ms[i].key) == Lower(ChildToken(q))
    ensures EditKeeps(ms, RemoveIndex(ms, i), q)
  {
    RemovedKeys(ms, i);
    forall g
      ensures ValueAt(RemoveIndex(ms, i), g) == if g == ms[i].key then None else ValueAt(ms, g)
    {
      ValueAfterRemoval(ms, i, g);
    }
  }

  lemma KeepsThrough(ms: seq<Member>, xs: seq<Member>, rs: seq<Member>, q: string)
    requires EditKeeps(ms, xs, q) && EditKeeps(xs, rs, q)
    ensures EditKeeps(ms, rs, q)
  {
  }

  lemma PutKeeps(ms: seq<Member>, q: string, v: Json)
    requires UniqueKeys(ms) && LastSlash(q) == 0
    ensures EditKeeps(ms, PutMember(ms, ChildToken(q), v, true), q)
  {
    var k := ChildToken(q);
    var i := KeyIndex(ms, k, true);
    var rest := if i == -1 then ms else RemoveIndex(ms, i);
    if i == -1 {
      assert k !in Keys(ms);
      KeepsAll(ms, q);
    } else {
      RemovedKeys(ms, i);
      RemovalKeeps(ms, i, q);
    }
    var m := Member(k, v);
    forall g
      ensures ValueAt(rest + [m], g) == if g == k then Some(v) else ValueAt(rest, g)
      ensures UniqueKeys(rest + [m])
    {
      ValueAfterAppend(rest, m, g);
    }
    assert EditKeeps(rest, rest + [m], q);
    KeepsThrough(ms, rest, rest + [m], q);
  }

  lemma ShallowAdd(ms: seq<Member>, q: string, v: Json)
    requires q != "" && LastSlash(q) == 0
    ensures AddAt(Object(ms), q, v, true) == Outcome(0, Object(PutMember(ms, ChildToken(q), v, true)))
  {
    assert FindParent(Object(ms), q, true) == Some([]);
  }

  lemma ShallowDetach(ms: seq<Member>, q: string)
    requires q != "" && LastSlash(q) == 0
    ensures var i := KeyIndex(ms, ChildToken(q), false);
      DetachPath(Object(ms), q, true) == if i == -1 then Nothing else Cut(ms[i].value, Object(RemoveIndex(ms, i)))
  {
    assert FindParent(Object(ms), q, true) == Some([]);
  }

  lemma ShallowRemoveKeeps(ms: seq<Member>, e: Edit)
    requires UniqueKeys(ms) && OpOf(e) == Remove && e.path != "" && LastSlash(e.path) == 0
    ensures var r := ApplyEdit(Object(ms), e); r.doc.Object? && EditKeeps(ms, r.doc.members, e.path)
  {
    var i := KeyIndex(ms, ChildToken(e.path), false);
    ShallowDetach(ms, e.path);
    if i == -1 {
      KeepsAll(ms, e.path);
    } else {
      RemovalKeeps(ms, i, e.path);
    }
  }

  lemma ShallowReplaceKeeps(ms: seq<Member>, e: Edit)
    requires UniqueKeys(ms) && OpOf(e) == Replace && e.path != "" && LastSlash(e.path) == 0
    ensures var r := ApplyEdit(Object(ms), e); r.doc.Object? && EditKeeps(ms, r.doc.members, e.path)
  {
    var i := KeyIndex(ms, ChildToken(e.path), false);
    ShallowDetach(ms, e.path);
    if i == -1 {
      KeepsAll(ms, e.path);
    } else {
      var rest := RemoveIndex(ms, i);
      RemovedKeys(ms, i);
      RemovalKeeps(ms, i, e.path);
      if e.value.Some? {
        ShallowAdd(rest, e.path, e.value.value);
        PutKeeps(rest, e.path, e.value.value);
        KeepsThrough(ms, rest, PutMember(rest, ChildToken(e.path), e.value.value, true), e.path);
      }
    }
  }

  /** An edit whose path ends at this level. */
  lemma ShallowKeeps(ms: seq<Member>, e: Edit)
    requires UniqueKeys(ms) && OpOf(e) != InvalidOp && e.path != "" && LastSlash(e.path) == 0
    ensures var r := ApplyEdit(Object(ms), e); r.doc.Object? && EditKeeps(ms, r.doc.members, e.path)
  {
    if OpOf(e) == Add {
      KeepsAll(ms, e.path);
      if e.value.Some? {
        ShallowAdd(ms, e.path, e.value.value);
        PutKeeps(ms, e.path, e.value.value);
      }
    } else if OpOf(e) == Remove {
      ShallowRemoveKeeps(ms, e);
    } else {
      ShallowReplaceKeeps(ms, e);
    }
  }

  // ---------------------------------------------------------------- edits below this level

  lemma {:induction false} ReplaceKeepsShape(j: Json, a: Address, v: Json)
    requires ValidAddress(j, a) && Shape(v) == Shape(NodeAt(j, a))
    ensures Shape(ReplaceAt(j, a, v)) == Shape(j)
  {
  }

  lemma DetachKeepsShape(j: Json, token: string)
    ensures DetachChild(j, token).Cut? ==> Shape(DetachChild(j, token).rest) == Shape(j)
  {
  }

  lemma AddKeepsShape(j: Json, token: string, v: Json)
    ensures Shape(AddChild(j, token, v, true).doc) == Shape(j)
  {
  }

  /** The parent of a path that goes below this level is a member that its first segment matches, or below it. */
  lemma DeepParent(ms: seq<Member>, q: string)
    requires q != "" && q[0] == '/' && LastSlash(q) > 0
    ensures var at, i := FindParent(Object(ms), q, true), FirstMatch(ms, q[1..LastSlash(q)], true);
      at != None ==> at.value != [] && 0 <= i && at.value[0] == i && TokenMatches(ms[i].key, q[1..LastSlash(q)], true)
  {
    var p := q[..LastSlash(q)];
    assert p[0] == '/' && p[1..] == q[1..LastSlash(q)];
  }

  /** The member at i has a new value of the same type. */
  ghost predicate Reshaped(ms: seq<Member>, rs: seq<Member>, i: int) {
    rs == ms ||
    (0 <= i < |ms| && exists v :: rs == Updated(ms, i, v) && Shape(v) == Shape(ms[i].value))
  }

  lemma ReplacedBelow(ms: seq<Member>, a: Address, v: Json)
    requires ValidAddress(Object(ms), a) && a != [] && Shape(v) == Shape(NodeAt(Object(ms), a))
    ensures ReplaceAt(Object(ms), a, v).Object? && Reshaped(ms, ReplaceAt(Object(ms), a, v).members, a[0])
  {
    var w := ReplaceAt(ms[a[0]].value, a[1..], v);
    ReplaceKeepsShape(ms[a[0]].value, a[1..], v);
    assert ReplaceAt(Object(ms), a, v) == Object(Updated(ms, a[0], w));
  }

  lemma DeepDetach(ms: seq<Member>, q: string)
    requires q != "" && q[0] == '/' && LastSlash(q) > 0
    ensures var cut := DetachPath(Object(ms), q, true);
      cut.Cut? ==> cut.rest.Object? && Reshaped(ms, cut.rest.members, FirstMatch(ms, q[1..LastSlash(q)], true))
  {
    DeepParent(ms, q);
    var at := FindParent(Object(ms), q, true);
    if at != None {
      var cut := DetachChild(NodeAt(Object(ms), at.value), ChildToken(q));
      if cut.Cut? {
        DetachKeepsShape(NodeAt(Object(ms), at.value), ChildToken(q));
        ReplacedBelow(ms, at.value, cut.rest);
      }
    }
  }

  lemma DeepAdd(ms: seq<Member>, q: string, v: Json)
    requires q != "" && q[0] == '/' && LastSlash(q) > 0
    ensures var r := AddAt(Object(ms), q, v, true);
      r.doc.Object? && Reshaped(ms, r.doc.members, FirstMatch(ms, q[1..LastSlash(q)], true))
  {
    DeepParent(ms, q);
    var at := FindParent(Object(ms), q, true);
    if at != None {
      AddKeepsShape(NodeAt(Object(ms), at.value), ChildToken(q), v);
      ReplacedBelow(ms, at.value, AddChild(NodeAt(Object(ms), at.value), ChildToken(q), v, true).doc);
    }
  }

  lemma ReshapedKeeps(ms: seq<Member>, rs: seq<Member>, q: string)
    requires UniqueKeys(ms) && q != "" && q[0] == '/' && LastSlash(q) > 0
    requires Reshaped(ms, rs, FirstMatch(ms, q[1..LastSlash(q)], true))
    ensures EditKeeps(ms, rs, q) && FirstMatch(rs, q[1..LastSlash(q)], true) == FirstMatch(ms, q[1..LastSlash(q)], true)
  {
    var i := FirstMatch(ms, q[1..LastSlash(q)], true);
    if rs == ms {
      KeepsAll(ms, q);
    } else {
      var v :| rs == Updated(ms, i, v) && Shape(v) == Shape(ms[i].value);
      UpdatedKeys(ms, i, v);
      FirstMatchSameKeys(ms, rs, q[1..LastSlash(q)]);
      assert Enters(q, ms[i].key);
      forall g
        ensures ValueAt(rs, g) == if g == ms[i].key then Some(v) else ValueAt(ms, g)
      {
        ValueAfterUpdate(ms, i, v, g);
      }
      ValueAtIs(ms, i);
    }
  }

  lemma ValueAfterUpdate(ms: seq<Member>, i: nat, v: Json, g: string)
    requires UniqueKeys(ms) && i < |ms|
    ensures ValueAt(Updated(ms, i, v), g) == if g == ms[i].key then Some(v) else ValueAt(ms, g)
  {
    var rs := Updated(ms, i, v);
    UpdatedKeys(ms, i, v);
    if g in Keys(ms) {
      var x := IndexOf(ms, g);
      ValueAtIs(ms, x);
      ValueAtIs(rs, x);
    }
  }

  lemma DeepAddKeeps(ms: seq<Member>, q: string, v: Json)
    requires UniqueKeys(ms) && q != "" && q[0] == '/' && LastSlash(q) > 0
    ensures var r := AddAt(Object(ms), q, v, true); r.doc.Object? && EditKeeps(ms, r.doc.members, q)
  {
    DeepAdd(ms, q, v);
    ReshapedKeeps(ms, AddAt(Object(ms), q, v, true).doc.members, q);
  }

  lemma DeepDetachKeeps(ms: seq<Member>, q: string)
    requires UniqueKeys(ms) && q != "" && q[0] == '/' && LastSlash(q) > 0
    ensures var cut := DetachPath(Object(ms), q, true);
      cut.Cut? ==> cut.rest.Object? && EditKeeps(ms, cut.rest.members, q)
  {
    DeepDetach(ms, q);
    var cut := DetachPath(Object(ms), q, true);
    if cut.Cut? {
      ReshapedKeeps(ms, cut.rest.members, q);
    }
  }

  lemma DeepReplaceKeeps(ms: seq<Member>, q: string, v: Json)
    requires UniqueKeys(ms) && q != "" && q[0] == '/' && LastSlash(q) > 0
    ensures var cut := DetachPath(Object(ms), q, true);
      cut.Cut? ==> var r := AddAt(cut.rest, q, v, true); r.doc.Object? && EditKeeps(ms, r.doc.members, q)
  {
    DeepDetachKeeps(ms, q);
    var cut := DetachPath(Object(ms), q, true);
    if cut.Cut? {
      var rest := cut.rest.members;
      DeepAddKeeps(rest, q, v);
      KeepsThrough(ms, rest, AddAt(Object(rest), q, v, true).doc.members, q);
    }
  }

  lemma DeepAddEdit(ms: seq<Member>, e: Edit)
    requires UniqueKeys(ms) && OpOf(e) == Add && e.path != "" && e.path[0] == '/' && LastSlash(e.path) > 0
    ensures var r := ApplyEdit(Object(ms), e); r.doc.Object? && EditKeeps(ms, r.doc.members, e.path)
  {
    KeepsAll(ms, e.path);
    if e.value.Some? {
      DeepAddKeeps(ms, e.path, e.value.value);
    }
  }

  lemma DeepReplaceEdit(ms: seq<Member>, e: Edit)
    requires UniqueKeys(ms) && OpOf(e) == Replace && e.path != "" && e.path[0] == '/' && LastSlash(e.path) > 0
    ensures var r := ApplyEdit(Object(ms), e); r.doc.Object? && EditKeeps(ms, r.doc.members, e.path)
  {
    KeepsAll(ms, e.path);
    if e.value.Some? {
      DeepReplaceKeeps(ms, e.path, e.value.value);
    } else {
      DeepDetachKeeps(ms, e.path);
    }
  }

  /** An edit whose path goes on below this level. */
  lemma DeepKeeps(ms: seq<Member>, e: Edit)
    requires UniqueKeys(ms) && OpOf(e) != InvalidOp && e.path != "" && e.path[0] == '/' && LastSlash(e.path) > 0
    ensures var r := ApplyEdit(Object(ms), e); r.doc.Object? && EditKeeps(ms, r.doc.members, e.path)
  {
    KeepsAll(ms, e.path);
    if OpOf(e) == Add {
      DeepAddEdit(ms, e);
    } else if OpOf(e) == Remove {
      DeepDetachKeeps(ms, e.path);
    } else {
      DeepReplaceEdit(ms, e);
    }
  }

  lemma OneEditKeeps(ms: seq<Member>, e: Edit)
    requires UniqueKeys(ms) && OpOf(e) != InvalidOp && e.path != "" && e.path[0] == '/'
    ensures var r := ApplyEdit(Object(ms), e); r.doc.Object? && EditKeeps(ms, r.doc.members, e.path)
  {
    SlashFound(e.path, 0);
    if LastSlash(e.path) == 0 {
      ShallowKeeps(ms, e);
    } else {
      DeepKeeps(ms, e);
    }
  }

  // ---------------------------------------------------------------- a run of edits

  ghost predicate NoneNames(es: seq<Edit>, g: string) {
    forall e :: e in es ==> !Names(e.path, g)
  }

  ghost predicate NoneEnters(es: seq<Edit>, g: string) {
    forall e :: e in es ==> !Enters(e.path, g)
  }

  ghost predicate NoneTakes(es: seq<Edit>, g: string) {
    forall e :: e in es ==> !Takes(e.path, g)
  }

  /** What a run of edits keeps of the member g. */
  ghost predicate RunKeeps(ms: seq<Member>, rs: seq<Member>, es: seq<Edit>, g: string) {
    UniqueKeys(rs) &&
    (NoneNames(es, g) && ValueAt(rs, g) != None ==>
       ValueAt(ms, g) != None && Shape(ValueAt(rs, g).value) == Shape(ValueAt(ms, g).value)) &&
    (NoneNames(es, g) && NoneEnters(es, g) && ValueAt(rs, g) != None ==> ValueAt(rs, g) == ValueAt(ms, g)) &&
    (NoneTakes(es, g) && ValueAt(ms, g) != None ==> ValueAt(rs, g) != None)
  }

  lemma {:induction false} EditsKeep(ms: seq<Member>, es: seq<Edit>, g: string)
    requires UniqueKeys(ms) && Generated(es) && Inner(es)
    ensures var r := ApplyEdits(Object(ms), es); r.doc.Object? && RunKeeps(ms, r.doc.members, es, g)
    decreases |es|
  {
    if es != [] {
      var e := es[0];
      OneEditKeeps(ms, e);
      var r := ApplyEdit(Object(ms), e);
      if r.status == 0 {
        EditsKeep(r.doc.members, es[1..], g);
        KeepsFirst(ms, r.doc.members, ApplyEdits(r.doc, es[1..]).doc.members, es, g);
      } else {
        KeepsOnly(ms, r.doc.members, es, g);
      }
    }
  }

  lemma KeepsFirst(ms: seq<Member>, xs: seq<Member>, rs: seq<Member>, es: seq<Edit>, g: string)
    requires es != [] && EditKeeps(ms, xs, es[0].path) && RunKeeps(xs, rs, es[1..], g)
    ensures RunKeeps(ms, rs, es, g)
  {
    HeadTail(es);
    assert es[0] in es && forall e :: e in es[1..] ==> e in es;
  }

  lemma KeepsOnly(ms: seq<Member>, xs: seq<Member>, es: seq<Edit>, g: string)
    requires es != [] && EditKeeps(ms, xs, es[0].path)
    ensures RunKeeps(ms, xs, es, g)
  {
    assert es[0] in es;
  }
}
