/**
 The six operations of JSON Patch, as sections 4.1 to 4.6 of RFC 6902 define them on values, and what
 `apply_patch` does for each, matching case.
 */
module PatchOperations {
  import opened CStrings
  import opened Seqs
  import opened JsonValues
  import opened Pointers
  import opened KeyCoding
  import opened Compare
  import opened MemberLists
  import opened Reordering
  import opened Patches
  import opened PatchLocality

  // ---------------------------------------------------------------- the operations on values

  /** The element or field a token names. */
  function Part(v: Val, token: string): Option<Val> {
    match v
    case VArray(es) =>
      var n := RfcIndex(token);
      if n.Some? && n.value < |es| then Some(es[n.value]) else None
    case VObject(fs) => if token in fs then Some(fs[token]) else None
    case _ => None
  }

  function WithPart(v: Val, token: string, x: Val): Val
    requires Part(v, token).Some?
  {
    if v.VArray? then VArray(v.elems[RfcIndex(token).value := x]) else VObject(v.fields[token := x])
  }

  function ValueAt(v: Val, path: seq<string>): Option<Val>
    decreases |path|
  {
    if path == [] then Some(v)
    else if Part(v, path[0]) == None then None
    else ValueAt(Part(v, path[0]).value, path[1..])
  }

  /** To put a value under a token of an array or object, or to take away what is there. */
  datatype Change = Put(x: Val) | Take

  function Changed(v: Val, token: string, c: Change): Option<Val> {
    match v
    case VArray(es) =>
      var n := RfcIndex(token);
      if c.Put? && token == "-" then Some(VArray(es + [c.x]))
      else if n == None || n.value > |es| then None
      else if c.Put? then Some(VArray(es[..n.value] + [c.x] + es[n.value..]))
      else if n.value == |es| then None
      else Some(VArray(RemoveIndex(es, n.value)))
    case VObject(fs) =>
      if c.Put? then Some(VObject(fs[token := c.x]))
      else if token in fs then Some(VObject(fs - {token}))
      else None
    case _ => None
  }

  /** The same at the end of a path. */
  function ChangedAt(v: Val, path: seq<string>, c: Change): Option<Val>
    requires path != []
    decreases |path|
  {
    if |path| == 1 then Changed(v, path[0], c)
    else if Part(v, path[0]) == None then None
    else
      var r := ChangedAt(Part(v, path[0]).value, path[1..], c);
      if r == None then None else Some(WithPart(v, path[0], r.value))
  }

  /** Section 4.1. */
  function RfcAdd(v: Val, path: seq<string>, x: Val): Option<Val> {
    if path == [] then Some(x) else ChangedAt(v, path, Put(x))
  }

  /** Section 4.2. Without its root there is no document left. */
  function RfcRemove(v: Val, path: seq<string>): Option<Val> {
    if path == [] then Some(VInvalid) else ChangedAt(v, path, Take)
  }

  /** A patch object: its operation, its paths as tokens, its value. */
  datatype Request = Request(op: Op, path: seq<string>, value: Option<Json>, from: Option<seq<string>>)

  /** What a request makes of a value; nothing when it must fail. */
  function RfcApply(v: Val, q: Request): Option<Val> {
    match q.op
    case Add => if q.value == None then None else RfcAdd(v, q.path, Abs(q.value.value))
    case Remove => RfcRemove(v, q.path)
    case Replace =>
      // Section 4.3: a remove, and an add at the same location.
      if q.value == None || RfcRemove(v, q.path) == None then None
      else RfcAdd(RfcRemove(v, q.path).value, q.path, Abs(q.value.value))
    case Move =>
      // Section 4.4: a remove at "from", and an add of the value removed.
      if q.from == None || ValueAt(v, q.from.value) == None || RfcRemove(v, q.from.value) == None then None
      else RfcAdd(RfcRemove(v, q.from.value).value, q.path, ValueAt(v, q.from.value).value)
    case Copy =>
      // Section 4.5: an add of the value at "from".
      if q.from == None || ValueAt(v, q.from.value) == None then None
      else RfcAdd(v, q.path, ValueAt(v, q.from.value).value)
    case Test =>
      // Section 4.6.
      if q.value != None && ValueAt(v, q.path) == Some(Abs(q.value.value)) then Some(v) else None
    case InvalidOp => None
  }

  // ---------------------------------------------------------------- statuses

  /** The status of putting a value below the root: 9 without a container, 11 and 10 for a bad and a large index. */
  function PutStatus(v: Val, path: seq<string>): int
    requires path != []
    decreases |path|
  {
    if |path| > 1 then if Part(v, path[0]) == None then 9 else PutStatus(Part(v, path[0]).value, path[1..])
    else
      match v
      case VArray(es) =>
        var n := RfcIndex(path[0]);
        if path[0] == "-" then 0 else if n == None then 11 else if n.value > |es| then 10 else 0
      case VObject(_) => 0
      case _ => 9
  }

  /** The status of a request: 7 without "value", 4 without "from", 5 and 13 where there is nothing to take. */
  function Status(v: Val, q: Request): int {
    match q.op
    case Add => if q.value == None then 7 else if q.path == [] then 0 else PutStatus(v, q.path)
    case Remove => if RfcRemove(v, q.path) == None then 13 else 0
    case Replace => if RfcRemove(v, q.path) == None then 13 else if q.value == None then 7 else 0
    case Move =>
      if q.from == None then 4
      else if q.from.value == [] || RfcRemove(v, q.from.value) == None then 5
      else if q.path == [] then 9
      else PutStatus(RfcRemove(v, q.from.value).value, q.path)
    case Copy =>
      if q.from == None then 4
      else if ValueAt(v, q.from.value) == None then 5
      else if q.path == [] then 9
      else PutStatus(v, q.path)
    case Test => if q.value != None && ValueAt(v, q.path) == Some(Abs(q.value.value)) then 0 else 1
    case InvalidOp => 3
  }

  /** What can be taken from a value is what is there. */
  lemma {:induction false} TakenIsThere(v: Val, path: seq<string>)
    requires path != []
    ensures ChangedAt(v, path, Take) == None <==> ValueAt(v, path) == None
    decreases |path|
  {
    if |path| == 1 {
      assert path[1..] == [];
    } else if Part(v, path[0]) != None {
      TakenIsThere(Part(v, path[0]).value, path[1..]);
    }
  }

  // ---------------------------------------------------------------- children and their values

  lemma PartIs(j: Json, token: string)
    requires Comparable(j, true)
    ensures var i := ResolveStep(j, token);
      if i == None then Part(Abs(j), token) == None
      else Part(Abs(j), token) == Some(Abs(Child(j, i.value))) && Comparable(Child(j, i.value), true)
  {
    if j.Array? {
      AbsArray(j.items);
    } else if j.Object? {
      AbsObject(j.members);
    }
  }

  lemma SetPart(j: Json, token: string, v: Json)
    requires Comparable(j, true) && Comparable(v, true) && ResolveStep(j, token).Some?
    requires Part(Abs(j), token).Some?
    ensures var r := SetChild(j, ResolveStep(j, token).value, v);
      Comparable(r, true) && Abs(r) == WithPart(Abs(j), token, Abs(v))
  {
    var i := ResolveStep(j, token).value;
    if j.Array? {
      AbsArray(j.items);
      AbsArray(j.items[i := v]);
      assert Values(j.items[i := v]) == Values(j.items)[i := Abs(v)];
    } else {
      AbsObject(j.members);
      AbsObject(Updated(j.members, i, v));
      UpdatedFields(j.members, i, v);
      UpdatedComparable(j.members, i, v);
    }
  }

  lemma UpdatedComparable(ms: seq<Member>, i: nat, v: Json)
    requires Comparable(Object(ms), true) && Comparable(v, true) && i < |ms|
    ensures Comparable(Object(Updated(ms, i, v)), true)
  {
    var r := Updated(ms, i, v);
    forall x | 0 <= x < |r|
      ensures Comparable(r[x].value, true)
    {
    }
  }

  // ---------------------------------------------------------------- paths that are read as they are meant

  /** No index of the path is one the decoder misreads. */
  predicate Clear(j: Json, path: seq<string>) {
    (forall token :: token in path ==> NUL !in token) && IndicesAgree(j, path)
  }

  /** Decoding in place gives the token back, and an array index is read as RFC 6901 does. */
  predicate LastClear(j: Json, token: string) {
    NUL !in token && '/' !in token && EscapesInPlace(token) && (j.Array? ==> IndexAgrees(token))
  }

  /** The condition of `DecodedExactly`: every byte but '~' stands at its own place in the escaped text. */
  predicate EscapesInPlace(t: string) {
    |Escape(t)| >= |t| && forall j :: 0 <= j < |t| ==> t[j] == '~' || Escape(t)[j] == t[j]
  }

  /** No index on the way to the parent is misread, and the last token is one that decoding in place gives back. */
  predicate Reached(j: Json, path: seq<string>)
    decreases |path|
  {
    path == [] ||
    if |path| == 1 then LastClear(j, path[0])
    else
      NUL !in path[0] && (j.Array? ==> IndexAgrees(Escape(path[0]))) &&
      (ResolveStep(j, path[0]).Some? ==> Reached(Child(j, ResolveStep(j, path[0]).value), path[1..]))
  }

  /** The member to detach is the first whose key is the last token ignoring case, or there is none such. */
  predicate Detachable(j: Json, path: seq<string>)
    decreases |path|
  {
    path == [] ||
    if |path| == 1 then j.Object? ==> KeyIndex(j.members, path[0], false) == KeyIndex(j.members, path[0], true)
    else ResolveStep(j, path[0]).Some? ==> Detachable(Child(j, ResolveStep(j, path[0]).value), path[1..])
  }

  lemma LastToken(token: string)
    requires NUL !in token && '/' !in token && EscapesInPlace(token)
    ensures Render([token]) == "/" + Escape(token) && LastSlash(Render([token])) == 0
    ensures ChildToken(Render([token])) == token
    ensures forall j :: FindParent(j, Render([token]), true) == Some([])
  {
    var s := Escape(token);
    EscapeHasNoSlash(token);
    DecodedExactly(token);
    assert [token][1..] == [] && "/" + s + "" == "/" + s;
    assert ("/" + s)[1..] == s && ("/" + s)[..0] == "";
    LastSlashIs("/" + s, 0);
  }

  lemma StepSelects(j: Json, token: string)
    requires NUL !in token && (j.Array? ==> IndexAgrees(Escape(token))) && ResolveStep(j, token).Some?
    ensures Selects(j, Escape(token), ResolveStep(j, token).value)
  {
    EscapeHasNoSlash(token);
    forall rest | Ends(rest)
      ensures ChildAt(j, Escape(token) + rest, true) == ResolveStep(j, token)
    {
      StepReads(j, token, rest);
    }
  }

  /** A path of more than one token ends below the child of its first. */
  lemma RenderBelow(path: seq<string>)
    requires |path| > 1
    ensures Render(path) == "/" + Escape(path[0]) + Render(path[1..])
    ensures Render(path[1..]) != "" && Render(path[1..])[0] == '/'
  {
    RenderTail(path[1..]);
  }

  /** Where the first of several tokens names no child, no parent is found. */
  lemma NoParent(j: Json, path: seq<string>)
    requires |path| > 1 && NUL !in path[0] && (j.Array? ==> IndexAgrees(Escape(path[0])))
    requires ResolveStep(j, path[0]) == None
    ensures FindParent(j, Render(path), true) == None
  {
    var text, rest := Escape(path[0]), Render(path[1..]);
    RenderBelow(path);
    StartsWithSlash(rest);
    SplitBelow("/" + text, rest);
    var front := rest[..LastSlash(rest)];
    PathTail(text, front);
    EscapeHasNoSlash(path[0]);
    StepReads(j, path[0], front);
  }

  // ---------------------------------------------------------------- the value a pointer finds

  lemma {:induction false} ResolvedValue(j: Json, path: seq<string>)
    requires Comparable(j, true)
    ensures var a := Resolve(j, path);
      if a == None then ValueAt(Abs(j), path) == None
      else
        ValidAddress(j, a.value) && ValueAt(Abs(j), path) == Some(Abs(NodeAt(j, a.value))) &&
        Comparable(NodeAt(j, a.value), true)
    decreases |path|
  {
    if path != [] {
      var i := ResolveStep(j, path[0]);
      PartIs(j, path[0]);
      if i.Some? {
        ResolvedValue(Child(j, i.value), path[1..]);
        var a := Resolve(Child(j, i.value), path[1..]);
        if a.Some? {
          UpdateBelow(j, i.value, a.value, Null);
        }
      }
    }
  }

  /** Looking up a clear path finds the value at it. */
  lemma LocatedValue(j: Json, path: seq<string>)
    requires Comparable(j, true) && Clear(j, path)
    ensures var a := Locate(j, Render(path), true);
      if a == None then ValueAt(Abs(j), path) == None
      else ValueAt(Abs(j), path) == Some(Abs(NodeAt(j, a.value))) && Comparable(NodeAt(j, a.value), true)
  {
    AgreeingIndices(j, path);
    LookupFollowsTokens(j, path);
    ResolvedValue(j, path);
  }

  // ---------------------------------------------------------------- adding

  /** An outcome of the code against what the value is to become. */
  ghost predicate Gives(j: Json, r: Outcome, want: Option<Val>, status: int) {
    r.status == status &&
    if want == None then status != 0 && r.doc == j
    else status == 0 && Abs(r.doc) == want.value && Comparable(r.doc, true)
  }

  lemma AddsChild(j: Json, token: string, v: Json)
    requires Comparable(j, true) && Comparable(v, true) && LastClear(j, token)
    ensures Gives(j, AddChild(j, token, v, true), Changed(Abs(j), token, Put(Abs(v))), PutStatus(Abs(j), [token]))
  {
    if j.Array? {
      AddsItem(j.items, token, v);
    } else if j.Object? {
      AddsMember(j.members, token, v);
    }
  }

  lemma AddsItem(items: seq<Json>, token: string, v: Json)
    requires Comparable(Array(items), true) && Comparable(v, true) && LastClear(Array(items), token)
    ensures var j := Array(items);
      Gives(j, AddChild(j, token, v, true), Changed(Abs(j), token, Put(Abs(v))), PutStatus(Abs(j), [token]))
  {
    IndexOfLast(items, token);
    AbsArray(items);
    var n := RfcIndex(token);
    if token == "-" {
      AbsArray(items + [v]);
      assert Values(items + [v]) == Values(items) + [Abs(v)];
    } else if n.Some? && n.value <= |items| {
      var r := items[..n.value] + [v] + items[n.value..];
      AbsArray(r);
      InsertedValues(items, n.value, v);
      InsertedComparable(items, n.value, v);
    }
  }

  lemma InsertedValues(items: seq<Json>, n: nat, v: Json)
    requires n <= |items|
    ensures Values(items[..n] + [v] + items[n..]) == Values(items)[..n] + [Abs(v)] + Values(items)[n..]
  {
  }

  lemma InsertedComparable(items: seq<Json>, n: nat, v: Json)
    requires Comparable(Array(items), true) && Comparable(v, true) && n <= |items|
    ensures Comparable(Array(items[..n] + [v] + items[n..]), true)
  {
    var r := items[..n] + [v] + items[n..];
    forall i | 0 <= i < |r|
      ensures Comparable(r[i], true)
    {
      assert r[i] == if i < n then items[i] else if i == n then v else items[i - 1];
    }
  }

  lemma IndexOfLast(items: seq<Json>, token: string)
    requires LastClear(Array(items), token)
    ensures DecodeIndex(token) == RfcIndex(token)
  {
    DecodeIndexExact(token, "");
    assert token + "" == token;
  }

  lemma AddsMember(ms: seq<Member>, token: string, v: Json)
    requires Comparable(Object(ms), true) && Comparable(v, true)
    ensures var j := Object(ms);
      Gives(j, AddChild(j, token, v, true), Changed(Abs(j), token, Put(Abs(v))), PutStatus(Abs(j), [token]))
  {
    var i, r := KeyIndex(ms, token, true), PutMember(ms, token, v, true);
    AbsObject(ms);
    AbsObject(r);
    if i == -1 {
      KeyAbsent(ms, token);
      AppendedFields(ms, token, v);
    } else {
      MovedFields(ms, i, v);
      assert r == MovedToEnd(ms, i, v);
    }
    PutComparable(ms, token, v);
  }

  lemma KeyAbsent(ms: seq<Member>, k: string)
    requires KeyIndex(ms, k, true) == -1
    ensures k !in Keys(ms)
  {
  }

  lemma PutComparable(ms: seq<Member>, token: string, v: Json)
    requires Comparable(Object(ms), true) && Comparable(v, true) && UniqueKeys(PutMember(ms, token, v, true))
    ensures Comparable(Object(PutMember(ms, token, v, true)), true)
  {
    var r, i := PutMember(ms, token, v, true), KeyIndex(ms, token, true);
    forall x | 0 <= x < |r|
      ensures Comparable(r[x].value, true)
    {
      if i != -1 && x < |r| - 1 {
        RemovedAt(ms, i, x);
      }
    }
  }

  /** The add half of an operation: section 4.1 below the root. */
  lemma {:induction false} Adds(j: Json, path: seq<string>, v: Json)
    requires Comparable(j, true) && Comparable(v, true) && path != [] && Reached(j, path)
    ensures Gives(j, AddAt(j, Render(path), v, true), ChangedAt(Abs(j), path, Put(Abs(v))), PutStatus(Abs(j), path))
    decreases |path|
  {
    if |path| == 1 {
      assert path == [path[0]];
      LastToken(path[0]);
      AddsChild(j, path[0], v);
    } else {
      var i := ResolveStep(j, path[0]);
      PartIs(j, path[0]);
      if i == None {
        NoParent(j, path);
      } else {
        RenderBelow(path);
        StepSelects(j, path[0]);
        AddBelow(j, Escape(path[0]), i.value, Render(path[1..]), v);
        Adds(Child(j, i.value), path[1..], v);
        GivesBelow(j, path[0], AddAt(Child(j, i.value), Render(path[1..]), v, true),
                   ChangedAt(Abs(Child(j, i.value)), path[1..], Put(Abs(v))),
                   PutStatus(Abs(Child(j, i.value)), path[1..]));
      }
    }
  }

  lemma GivesBelow(j: Json, token: string, r: Outcome, want: Option<Val>, status: int)
    requires Comparable(j, true) && ResolveStep(j, token).Some? && Part(Abs(j), token).Some?
    requires Gives(Child(j, ResolveStep(j, token).value), r, want, status)
    ensures Gives(j, Lift(j, ResolveStep(j, token).value, r),
                  if want == None then None else Some(WithPart(Abs(j), token, want.value)), status)
  {
    SetChildTwice(j, ResolveStep(j, token).value, Null, Null);
    if want.Some? {
      SetPart(j, token, r.doc);
    }
  }

  // ---------------------------------------------------------------- removing

  /** What is cut out against what is there, and what is left against what is to be left. */
  ghost predicate Cuts(j: Json, c: Cut, item: Option<Val>, rest: Option<Val>) {
    if rest == None then c == Nothing
    else
      c.Cut? && item == Some(Abs(c.item)) && Abs(c.rest) == rest.value && Comparable(c.item, true) &&
      Comparable(c.rest, true)
  }

  lemma DetachesChild(j: Json, token: string)
    requires Comparable(j, true) && LastClear(j, token)
    requires j.Object? ==> KeyIndex(j.members, token, false) == KeyIndex(j.members, token, true)
    ensures Cuts(j, DetachChild(j, token), Part(Abs(j), token), Changed(Abs(j), token, Take))
  {
    if j.Array? {
      IndexOfLast(j.items, token);
      AbsArray(j.items);
      var n := RfcIndex(token);
      if n.Some? && n.value < |j.items| {
        DetachesItem(j.items, n.value);
      }
    } else if j.Object? {
      var i := KeyIndex(j.members, token, true);
      AbsObject(j.members);
      if i == -1 {
        KeyAbsent(j.members, token);
      } else {
        DetachesMember(j.members, i);
      }
    }
  }

  lemma DetachesItem(items: seq<Json>, n: nat)
    requires Comparable(Array(items), true) && n < |items|
    ensures Abs(Array(RemoveIndex(items, n))) == VArray(RemoveIndex(Values(items), n))
    ensures Comparable(Array(RemoveIndex(items, n)), true)
  {
    var r := RemoveIndex(items, n);
    AbsArray(r);
    forall i | 0 <= i < |r|
      ensures Comparable(r[i], true) && Values(r)[i] == RemoveIndex(Values(items), n)[i]
    {
      RemovedAt(items, n, i);
      RemovedAt(Values(items), n, i);
    }
    assert Values(r) == RemoveIndex(Values(items), n);
  }

  lemma DetachesMember(ms: seq<Member>, i: nat)
    requires Comparable(Object(ms), true) && i < |ms|
    ensures ms[i].key in Fields(ms) && Fields(ms)[ms[i].key] == Abs(ms[i].value)
    ensures Abs(Object(RemoveIndex(ms, i))) == VObject(Fields(ms) - {ms[i].key})
    ensures Comparable(Object(RemoveIndex(ms, i)), true)
  {
    var r := RemoveIndex(ms, i);
    FieldOf(ms, i);
    RemovedFields(ms, i);
    AbsObject(r);
    forall x | 0 <= x < |r|
      ensures Comparable(r[x].value, true)
    {
      RemovedAt(ms, i, x);
    }
  }

  /** The remove half of an operation: section 4.2 below the root. */
  lemma {:induction false} Detaches(j: Json, path: seq<string>)
    requires Comparable(j, true) && path != [] && Reached(j, path) && Detachable(j, path)
    ensures Cuts(j, DetachPath(j, Render(path), true), ValueAt(Abs(j), path), ChangedAt(Abs(j), path, Take))
    decreases |path|
  {
    if |path| == 1 {
      assert path == [path[0]] && path[1..] == [];
      LastToken(path[0]);
      DetachesChild(j, path[0]);
    } else {
      var i := ResolveStep(j, path[0]);
      PartIs(j, path[0]);
      if i == None {
        NoParent(j, path);
      } else {
        RenderBelow(path);
        StepSelects(j, path[0]);
        DetachBelow(j, Escape(path[0]), i.value, Render(path[1..]));
        Detaches(Child(j, i.value), path[1..]);
        var c := DetachPath(Child(j, i.value), Render(path[1..]), true);
        if c.Cut? {
          SetPart(j, path[0], c.rest);
        }
      }
    }
  }

  /** What is left of a container by the cut is as clear to the last token as it was. */
  lemma {:induction false} StillReached(j: Json, path: seq<string>)
    requires path != [] && Reached(j, path) && DetachPath(j, Render(path), true).Cut?
    ensures Reached(DetachPath(j, Render(path), true).rest, path)
    decreases |path|
  {
    if |path| == 1 {
      assert path == [path[0]];
      LastToken(path[0]);
    } else {
      var i := ResolveStep(j, path[0]);
      if i == None {
        NoParent(j, path);
      } else {
        RenderBelow(path);
        StepSelects(j, path[0]);
        DetachBelow(j, Escape(path[0]), i.value, Render(path[1..]));
        var c := DetachPath(Child(j, i.value), Render(path[1..]), true);
        StillReached(Child(j, i.value), path[1..]);
        SameStep(j, i.value, c.rest, path[0]);
      }
    }
  }

  lemma SameStep(j: Json, i: nat, v: Json, token: string)
    requires HasChild(j, i)
    ensures ResolveStep(SetChild(j, i, v), token) == ResolveStep(j, token)
  {
    if j.Object? {
      SameIndex(j.members, SetChild(j, i, v).members, token);
    }
  }

  lemma {:induction false} SameIndex(a: seq<Member>, b: seq<Member>, k: string)
    requires |a| == |b| && forall i :: 0 <= i < |a| ==> a[i].key == b[i].key
    ensures IndexOf(a, k) == IndexOf(b, k)
  {
    if a != [] {
      SameIndex(a[1..], b[1..], k);
    }
  }

  // ---------------------------------------------------------------- testing

  lemma {:induction false} KeysStay(j: Json)
    ensures CaseIsSettled(j, true)
    decreases j
  {
    match j
    case Array(items) =>
      forall i | 0 <= i < |items|
        ensures CaseIsSettled(items[i], true)
      {
        KeysStay(items[i]);
      }
    case Object(ms) =>
      forall i | 0 <= i < |ms|
        ensures CaseIsSettled(ms[i].value, true)
      {
        KeysStay(ms[i].value);
      }
    case _ =>
  }

  /** A node with another of the same value in its place leaves the value of the document. */
  lemma {:induction false} SameValueAt(j: Json, path: seq<string>, v: Json)
    requires Comparable(j, true) && Comparable(v, true) && Resolve(j, path).Some?
    ensures ValidAddress(j, Resolve(j, path).value)
    ensures var n := NodeAt(j, Resolve(j, path).value);
      Abs(v) == Abs(n) ==>
        Abs(ReplaceAt(j, Resolve(j, path).value, v)) == Abs(j) &&
        Comparable(ReplaceAt(j, Resolve(j, path).value, v), true)
    decreases |path|
  {
    if path != [] {
      var i := ResolveStep(j, path[0]).value;
      var a := Resolve(Child(j, i), path[1..]).value;
      PartIs(j, path[0]);
      SameValueAt(Child(j, i), path[1..], v);
      UpdateBelow(j, i, a, v);
      if Abs(v) == Abs(NodeAt(Child(j, i), a)) {
        SetPart(j, path[0], ReplaceAt(Child(j, i), a, v));
        SamePart(Abs(j), path[0]);
      }
    }
  }

  lemma SamePart(v: Val, token: string)
    requires Part(v, token).Some?
    ensures WithPart(v, token, Part(v, token).value) == v
  {
  }

  lemma Tests(j: Json, path: seq<string>, v: Json)
    requires Comparable(j, true) && Comparable(v, true) && Clear(j, path)
    ensures var r := ApplyTest(j, Render(path), Some(v), true);
      (r.status == 0 <==> ValueAt(Abs(j), path) == Some(Abs(v))) && Abs(r.doc) == Abs(j) && Comparable(r.doc, true)
  {
    AgreeingIndices(j, path);
    LookupFollowsTokens(j, path);
    ResolvedValue(j, path);
    if Resolve(j, path).Some? {
      TestsFound(j, path, v);
    }
  }

  lemma TestsFound(j: Json, path: seq<string>, v: Json)
    requires Comparable(j, true) && Comparable(v, true) && Resolve(j, path).Some?
    requires Locate(j, Render(path), true) == Resolve(j, path)
    requires ValidAddress(j, Resolve(j, path).value)
    requires Comparable(NodeAt(j, Resolve(j, path).value), true)
    ensures var n, r := NodeAt(j, Resolve(j, path).value), ApplyTest(j, Render(path), Some(v), true);
      (r.status == 0 <==> Abs(n) == Abs(v)) && (r.status == 0 || r.status == 1) && Abs(r.doc) == Abs(j) &&
      Comparable(r.doc, true)
  {
    var n := NodeAt(j, Resolve(j, path).value);
    ComparedNode(n, v);
    SameValueAt(j, path, CompareJson(n, v, true).a);
  }

  lemma ComparedNode(n: Json, v: Json)
    requires Comparable(n, true) && Comparable(v, true)
    ensures var r := CompareJson(n, v, true);
      (r.same <==> Abs(n) == Abs(v)) && Abs(r.a) == Abs(n) && Comparable(r.a, true)
  {
    KeysStay(n);
    KeysStay(v);
    CompareDecidesValue(n, v, true);
    CompareReorders(n, v, true, true);
  }

  // ---------------------------------------------------------------- the operations of the code

  /** The first member of this name, or none, when names are compared in the case mode. */
  ghost predicate Has(patch: Json, name: string, cs: bool, v: Option<Json>) {
    match v
    case None => patch.Object? ==> forall i :: 0 <= i < |patch.members| ==> Fold(patch.members[i].key, cs) != name
    case Some(x) => patch.Object? && exists i :: 0 <= i < |patch.members| && HasAt(patch.members, i, name, cs, x)
  }

  predicate HasAt(ms: seq<Member>, i: nat, name: string, cs: bool, x: Json)
    requires i < |ms|
  {
    Fold(ms[i].key, cs) == name && ms[i].value == x && forall j :: 0 <= j < i ==> Fold(ms[j].key, cs) != name
  }

  function OpName(op: Op): string {
    match op
    case Add => "add"
    case Remove => "remove"
    case Replace => "replace"
    case Move => "move"
    case Copy => "copy"
    case Test => "test"
    case InvalidOp => ""
  }

  /** A patch object read as a request. */
  ghost predicate Says(patch: Json, q: Request, cs: bool) {
    Has(patch, "path", cs, Some(String(Render(q.path)))) && Has(patch, "value", cs, q.value) &&
    q.op != InvalidOp && Has(patch, "op", cs, Some(String(OpName(q.op)))) &&
    Has(patch, "from", cs, if q.from == None then None else Some(String(Render(q.from.value))))
  }

  lemma Found(patch: Json, name: string, cs: bool)
    requires Lower(name) == name
    ensures forall v :: Has(patch, name, cs, v) <==> GetObjectItem(patch, name, cs) == v
  {
    var k := if patch.Object? then KeyIndex(patch.members, name, cs) else -1;
    if k != -1 {
      assert HasAt(patch.members, k, name, cs, patch.members[k].value);
    }
  }

  lemma NamesFound(patch: Json, cs: bool)
    ensures forall v :: Has(patch, "path", cs, v) <==> GetObjectItem(patch, "path", cs) == v
    ensures forall v :: Has(patch, "op", cs, v) <==> GetObjectItem(patch, "op", cs) == v
    ensures forall v :: Has(patch, "value", cs, v) <==> GetObjectItem(patch, "value", cs) == v
    ensures forall v :: Has(patch, "from", cs, v) <==> GetObjectItem(patch, "from", cs) == v
  {
    assert Lower("path") == "path" && Lower("op") == "op" && Lower("value") == "value" && Lower("from") == "from";
    Found(patch, "path", cs);
    Found(patch, "op", cs);
    Found(patch, "value", cs);
    Found(patch, "from", cs);
  }

  /** The operation is the one of that name. */
  lemma NamedOp(patch: Json, cs: bool, op: Op)
    ensures op != InvalidOp ==> (DecodeOp(patch, cs) == op <==> Has(patch, "op", cs, Some(String(OpName(op)))))
  {
    NamesFound(patch, cs);
    assert "add"[0] == 'a' && "remove"[2] == 'm' && "replace"[2] == 'p' && "move"[0] == 'm' && "copy"[0] == 'c' &&
      "test"[0] == 't' && "remove"[0] == 'r' && "replace"[0] == 'r';
  }

  /** Keys are unique, and the code reads each path of the request in the document it is used on as it is meant. */
  predicate Sound(doc: Json, q: Request) {
    Comparable(doc, true) && (q.value.Some? ==> Comparable(q.value.value, true)) &&
    match q.op
    case Add => Reached(doc, q.path)
    case Remove => Reached(doc, q.path) && Detachable(doc, q.path)
    case Replace => Reached(doc, q.path) && Detachable(doc, q.path)
    case Move =>
      q.from.Some? ==>
        Reached(doc, q.from.value) && Detachable(doc, q.from.value) &&
        (DetachPath(doc, Render(q.from.value), true).Cut? ==>
           Reached(DetachPath(doc, Render(q.from.value), true).rest, q.path))
    case Copy => q.from.Some? ==> Clear(doc, q.from.value) && Reached(doc, q.path)
    case Test => Clear(doc, q.path)
    case InvalidOp => true
  }

  /** The code has no case for moving or copying a value to the root of the document, and refuses it. */
  predicate OntoRoot(q: Request) {
    q.path == [] && (q.op == Move || q.op == Copy)
  }

  /** What a request that fails leaves: of a "replace" and a "move" the remove half may be done. */
  function Left(v: Val, q: Request): Val {
    var gone := if q.op == Replace then Some(q.path) else if q.op == Move then q.from else None;
    if gone == None || gone.value == [] || RfcRemove(v, gone.value) == None then v
    else RfcRemove(v, gone.value).value
  }

  /** A request is met, or refused, as RFC 6902 says, except that the root is no place to move or copy to. */
  ghost predicate Applies(doc: Json, r: Outcome, q: Request) {
    var want := RfcApply(Abs(doc), q);
    r.status == Status(Abs(doc), q) &&
    (r.status == 0 <==> want.Some? && !OntoRoot(q)) &&
    (r.status == 0 ==> Abs(r.doc) == want.value && Comparable(r.doc, true)) &&
    (r.status != 0 ==> Abs(r.doc) == Left(Abs(doc), q))
  }

  lemma PathAtRoot(path: seq<string>)
    ensures Render(path) == "" <==> path == []
    ensures LastSlash("") == -1
  {
    if path != [] {
      RenderTail(path);
    }
  }

  lemma AddApplies(doc: Json, q: Request)
    requires q.op == Add && Sound(doc, q)
    ensures Applies(doc, ApplyOp(doc, Add, Render(q.path), q.value, None, true), q)
  {
    PathAtRoot(q.path);
    if q.path != [] {
      AddIs(doc, Render(q.path), q.value, true);
      if q.value.Some? {
        Adds(doc, q.path, q.value.value);
      }
    }
  }

  lemma RemoveApplies(doc: Json, q: Request)
    requires q.op == Remove && Sound(doc, q)
    ensures Applies(doc, ApplyOp(doc, Remove, Render(q.path), q.value, None, true), q)
  {
    PathAtRoot(q.path);
    if q.path != [] {
      Detaches(doc, q.path);
    }
  }

  /** With the outcome and what fails leaves spelled out. */
  ghost predicate AppliesAs(doc: Json, r: Outcome, q: Request, want: Option<Val>, left: Val) {
    RfcApply(Abs(doc), q) == want && Left(Abs(doc), q) == left && r.status == Status(Abs(doc), q) &&
    if want == None || OntoRoot(q) then r.status != 0 && Abs(r.doc) == left
    else r.status == 0 && Abs(r.doc) == want.value && Comparable(r.doc, true)
  }

  lemma ReplaceApplies(doc: Json, q: Request)
    requires q.op == Replace && Sound(doc, q)
    ensures Applies(doc, ApplyOp(doc, Replace, Render(q.path), q.value, None, true), q)
  {
    PathAtRoot(q.path);
    if q.path == [] {
      var r := ApplyOp(doc, Replace, "", q.value, None, true);
      assert q.value == None || AppliesAs(doc, r, q, Some(Abs(q.value.value)), Abs(doc));
    } else {
      Detaches(doc, q.path);
      var c := DetachPath(doc, Render(q.path), true);
      TakenIsThere(Abs(doc), q.path);
      if c.Cut? {
        StillReached(doc, q.path);
      }
      ReplaceIs(doc, Render(q.path), q.value, c);
      ReplaceCut(doc, q, c, ApplyOp(doc, Replace, Render(q.path), q.value, None, true));
    }
  }

  /** A "replace" below the root. */
  lemma ReplaceIs(doc: Json, path: string, value: Option<Json>, c: Cut)
    requires path != "" && c == DetachPath(doc, path, true)
    ensures ApplyOp(doc, Replace, path, value, None, true) ==
      if c == Nothing then Outcome(13, doc)
      else if value == None then Outcome(7, c.rest)
      else AddAt(c.rest, path, value.value, true)
  {
  }

  lemma ReplaceCut(doc: Json, q: Request, c: Cut, r: Outcome)
    requires q.op == Replace && q.path != [] && (q.value.Some? ==> Comparable(q.value.value, true))
    requires c.Cut? ==> Reached(c.rest, q.path)
    requires Cuts(doc, c, ValueAt(Abs(doc), q.path), ChangedAt(Abs(doc), q.path, Take))
    requires r == if c == Nothing then Outcome(13, doc) else if q.value == None then Outcome(7, c.rest)
      else AddAt(c.rest, Render(q.path), q.value.value, true)
    ensures Applies(doc, r, q)
  {
    if c == Nothing {
      ReplaceMisses(doc, q);
    } else if q.value == None {
      ReplaceLacks(doc, q, c);
    } else {
      ReplaceMeans(Abs(doc), q);
      Adds(c.rest, q.path, q.value.value);
      ReplacePuts(doc, q, c, r);
    }
  }

  lemma ReplaceMisses(doc: Json, q: Request)
    requires q.op == Replace && q.path != [] && ChangedAt(Abs(doc), q.path, Take) == None
    ensures Applies(doc, Outcome(13, doc), q)
  {
  }

  lemma ReplaceLacks(doc: Json, q: Request, c: Cut)
    requires q.op == Replace && q.path != [] && q.value == None && c.Cut?
    requires ChangedAt(Abs(doc), q.path, Take) == Some(Abs(c.rest))
    ensures Applies(doc, Outcome(7, c.rest), q)
  {
  }

  lemma ReplacePuts(doc: Json, q: Request, c: Cut, r: Outcome)
    requires q.op == Replace && q.path != [] && q.value.Some? && c.Cut?
    requires ChangedAt(Abs(doc), q.path, Take) == Some(Abs(c.rest))
    requires var want := ChangedAt(Abs(c.rest), q.path, Put(Abs(q.value.value)));
      RfcApply(Abs(doc), q) == want && want.Some? && Gives(c.rest, r, want, PutStatus(Abs(c.rest), q.path))
    ensures Applies(doc, r, q)
  {
  }

  lemma ReplaceMeans(v: Val, q: Request)
    requires q.op == Replace && q.path != [] && q.value.Some? && ChangedAt(v, q.path, Take).Some?
    ensures var rest := ChangedAt(v, q.path, Take).value;
      RfcApply(v, q) == ChangedAt(rest, q.path, Put(Abs(q.value.value))) && RfcApply(v, q).Some? && Left(v, q) == rest
  {
    PutsBack(v, q.path, Abs(q.value.value));
  }

  /** Where a value has been taken away another can be put. */
  lemma {:induction false} PutsBack(v: Val, path: seq<string>, x: Val)
    requires path != [] && ChangedAt(v, path, Take).Some?
    ensures ChangedAt(ChangedAt(v, path, Take).value, path, Put(x)).Some?
    decreases |path|
  {
    if |path| > 1 {
      var p := Part(v, path[0]).value;
      PutsBack(p, path[1..], x);
      PartSet(v, path[0], ChangedAt(p, path[1..], Take).value);
    }
  }

  lemma PartSet(v: Val, token: string, x: Val)
    requires Part(v, token).Some?
    ensures Part(WithPart(v, token, x), token) == Some(x)
  {
  }

  lemma AddAtRoot(doc: Json, v: Json)
    ensures AddAt(doc, Render([]), v, true) == Outcome(9, doc) && DetachPath(doc, Render([]), true) == Nothing
  {
    PathAtRoot([]);
  }

  lemma MoveApplies(doc: Json, q: Request)
    requires q.op == Move && Sound(doc, q) && q.from.Some?
    ensures Applies(doc, AddMoved(doc, Render(q.path), Some(String(Render(q.from.value))), Move, true), q)
  {
    var r := AddMoved(doc, Render(q.path), Some(String(Render(q.from.value))), Move, true);
    if q.from.value == [] {
      MoveRoot(doc, q, r);
    } else {
      var c := DetachPath(doc, Render(q.from.value), true);
      Detaches(doc, q.from.value);
      TakenIsThere(Abs(doc), q.from.value);
      if c == Nothing {
        assert AppliesAs(doc, r, q, None, Abs(doc));
      } else {
        MoveCut(doc, q, c, r);
      }
    }
  }

  lemma MoveRoot(doc: Json, q: Request, r: Outcome)
    requires q.op == Move && q.from == Some([])
    requires r == AddMoved(doc, Render(q.path), Some(String(Render([]))), Move, true)
    ensures Applies(doc, r, q)
  {
    AddAtRoot(doc, Null);
    if q.path != [] {
      NothingInNothing(q.path, Abs(doc));
      assert AppliesAs(doc, r, q, None, Abs(doc));
    } else {
      assert AppliesAs(doc, r, q, Some(Abs(doc)), Abs(doc));
    }
  }

  /** What a "move" means for the value once there is something to take. */
  lemma MoveMeans(v: Val, q: Request)
    requires q.op == Move && q.from.Some? && q.from.value != []
    requires ValueAt(v, q.from.value).Some? && ChangedAt(v, q.from.value, Take).Some?
    ensures var rest := ChangedAt(v, q.from.value, Take).value;
      RfcApply(v, q) == RfcAdd(rest, q.path, ValueAt(v, q.from.value).value) && Left(v, q) == rest
  {
  }

  lemma MoveCut(doc: Json, q: Request, c: Cut, r: Outcome)
    requires q.op == Move && q.from.Some? && q.from.value != [] && c.Cut? && Reached(c.rest, q.path)
    requires r == AddAt(c.rest, Render(q.path), c.item, true)
    requires Cuts(doc, c, ValueAt(Abs(doc), q.from.value), ChangedAt(Abs(doc), q.from.value, Take))
    ensures Applies(doc, r, q)
  {
    MoveMeans(Abs(doc), q);
    MoveAdds(c, q.path, r);
  }

  /** The add half of a "move", which the root is no place for. */
  lemma MoveAdds(c: Cut, path: seq<string>, r: Outcome)
    requires c.Cut? && Comparable(c.item, true) && Comparable(c.rest, true) && Reached(c.rest, path)
    requires r == AddAt(c.rest, Render(path), c.item, true)
    ensures path == [] ==> r == Outcome(9, c.rest)
    ensures path != [] ==> Gives(c.rest, r, RfcAdd(Abs(c.rest), path, Abs(c.item)), PutStatus(Abs(c.rest), path))
  {
    if path == [] {
      AddAtRoot(c.rest, c.item);
    } else {
      Adds(c.rest, path, c.item);
    }
  }

  lemma NothingInNothing(path: seq<string>, x: Val)
    requires path != []
    ensures ChangedAt(VInvalid, path, Put(x)) == None
  {
  }

  lemma CopyApplies(doc: Json, q: Request)
    requires q.op == Copy && Sound(doc, q) && q.from.Some?
    ensures Applies(doc, AddMoved(doc, Render(q.path), Some(String(Render(q.from.value))), Copy, true), q)
  {
    var r := AddMoved(doc, Render(q.path), Some(String(Render(q.from.value))), Copy, true);
    LocatedValue(doc, q.from.value);
    var a := Locate(doc, Render(q.from.value), true);
    if a == None {
      assert AppliesAs(doc, r, q, None, Abs(doc));
    } else {
      CopyFound(doc, q, NodeAt(doc, a.value), r);
    }
  }

  lemma CopyFound(doc: Json, q: Request, v: Json, r: Outcome)
    requires q.op == Copy && Sound(doc, q) && q.from.Some? && Comparable(v, true)
    requires ValueAt(Abs(doc), q.from.value) == Some(Abs(v)) && r == AddAt(doc, Render(q.path), v, true)
    ensures Applies(doc, r, q)
  {
    if q.path == [] {
      CopyRoot(doc, q, v, r);
    } else {
      Adds(doc, q.path, v);
      CopyBelow(doc, q, v, r);
    }
  }

  lemma CopyRoot(doc: Json, q: Request, v: Json, r: Outcome)
    requires q.op == Copy && q.from.Some? && q.path == []
    requires ValueAt(Abs(doc), q.from.value) == Some(Abs(v)) && r == AddAt(doc, Render(q.path), v, true)
    ensures Applies(doc, r, q)
  {
    AddAtRoot(doc, v);
  }

  lemma CopyBelow(doc: Json, q: Request, v: Json, r: Outcome)
    requires q.op == Copy && q.from.Some? && q.path != [] && ValueAt(Abs(doc), q.from.value) == Some(Abs(v))
    requires Gives(doc, r, ChangedAt(Abs(doc), q.path, Put(Abs(v))), PutStatus(Abs(doc), q.path))
    ensures Applies(doc, r, q)
  {
  }

  lemma TestApplies(doc: Json, q: Request)
    requires q.op == Test && Sound(doc, q)
    ensures Applies(doc, ApplyTest(doc, Render(q.path), q.value, true), q)
  {
    if q.value.Some? {
      Tests(doc, q.path, q.value.value);
    }
  }

  /** `apply_patch`, matching case, does what RFC 6902 says of every one of its operations. */
  lemma ApplyFollowsRfc(doc: Json, patch: Json, q: Request)
    requires Says(patch, q, true) && Sound(doc, q)
    ensures Applies(doc, ApplyPatch(doc, patch, true), q)
  {
    var from := GetObjectItem(patch, "from", true);
    NamesFound(patch, true);
    NamedOp(patch, true, q.op);
    PatchIs(doc, patch, true, Render(q.path), q.op, q.value, from);
    if q.op == Test {
      TestApplies(doc, q);
    } else {
      OpApplies(doc, q, from);
    }
  }

  /** What `apply_patch` does once it has read the members of the patch object. */
  lemma PatchIs(doc: Json, patch: Json, cs: bool, path: string, op: Op, value: Option<Json>, from: Option<Json>)
    requires GetObjectItem(patch, "path", cs) == Some(String(path)) && DecodeOp(patch, cs) == op && op != InvalidOp
    requires GetObjectItem(patch, "value", cs) == value && GetObjectItem(patch, "from", cs) == from
    ensures ApplyPatch(doc, patch, cs) ==
      if op == Test then ApplyTest(doc, path, value, cs) else ApplyOp(doc, op, path, value, from, cs)
  {
  }

  lemma OpApplies(doc: Json, q: Request, from: Option<Json>)
    requires q.op != InvalidOp && q.op != Test && Sound(doc, q)
    requires from == if q.from == None then None else Some(String(Render(q.from.value)))
    ensures Applies(doc, ApplyOp(doc, q.op, Render(q.path), q.value, from, true), q)
  {
    if q.op == Add {
      AddApplies(doc, q);
    } else if q.op == Remove {
      RemoveApplies(doc, q);
    } else if q.op == Replace {
      ReplaceApplies(doc, q);
    } else if q.from == None {
      assert AppliesAs(doc, Outcome(4, doc), q, None, Abs(doc));
    } else if q.op == Move {
      MoveApplies(doc, q);
    } else {
      CopyApplies(doc, q);
    }
  }

  // ---------------------------------------------------------------- whole patches

  function RfcRun(v: Val, qs: seq<Request>): Option<Val>
    decreases |qs|
  {
    if qs == [] then Some(v)
    else if RfcApply(v, qs[0]) == None then None
    else RfcRun(RfcApply(v, qs[0]).value, qs[1..])
  }

  /** Where a patch stops: the status of its first operation that fails, or 0, and the value left behind. */
  function RunStops(v: Val, qs: seq<Request>): (int, Val)
    decreases |qs|
  {
    if qs == [] then (0, v)
    else if Status(v, qs[0]) != 0 || RfcApply(v, qs[0]) == None then (Status(v, qs[0]), Left(v, qs[0]))
    else RunStops(RfcApply(v, qs[0]).value, qs[1..])
  }

  /** Every request is sound where the run comes to it. */
  ghost predicate RunSound(doc: Json, patches: seq<Json>, qs: seq<Request>)
    decreases |qs|
  {
    |patches| == |qs| && (qs == [] ||
      (Says(patches[0], qs[0], true) && Sound(doc, qs[0]) &&
       (ApplyPatch(doc, patches[0], true).status == 0 ==>
          RunSound(ApplyPatch(doc, patches[0], true).doc, patches[1..], qs[1..]))))
  }

  /**
   `cJSONUtils_ApplyPatchesCaseSensitive` succeeds exactly when RFC 6902 lets the patch succeed, with its result, and
   otherwise stops at the first operation that fails, with its status.
   */
  lemma {:induction false} RunFollowsRfc(doc: Json, patches: seq<Json>, qs: seq<Request>)
    requires RunSound(doc, patches, qs)
    ensures var r := ApplyPatches(doc, Array(patches), true);
      (r.status, Abs(r.doc)) == RunStops(Abs(doc), qs) &&
      (r.status == 0 <==> RfcRun(Abs(doc), qs).Some? && forall q :: q in qs ==> !OntoRoot(q)) &&
      (r.status == 0 ==> Some(Abs(r.doc)) == RfcRun(Abs(doc), qs))
    decreases |qs|
  {
    if qs != [] {
      ApplyFollowsRfc(doc, patches[0], qs[0]);
      HeadTail(qs);
      var r := ApplyPatch(doc, patches[0], true);
      if r.status == 0 {
        RunFollowsRfc(r.doc, patches[1..], qs[1..]);
      }
    }
  }

  /** Which patches are malformed, and what is no patch at all. */
  lemma MalformedExactly(doc: Json, patch: Json, cs: bool)
    ensures var r := ApplyPatch(doc, patch, cs);
      (r.status == 2 <==> forall s :: !Has(patch, "path", cs, Some(String(s)))) &&
      (r.status == 3 <==>
       (exists s :: Has(patch, "path", cs, Some(String(s)))) &&
       forall op :: op != InvalidOp ==> !Has(patch, "op", cs, Some(String(OpName(op))))) &&
      (r.status == 2 || r.status == 3 ==> r.doc == doc)
    ensures !patch.Array? ==> ApplyPatches(doc, patch, cs) == Outcome(1, doc)
  {
    var r, path, op := ApplyPatch(doc, patch, cs), GetObjectItem(patch, "path", cs), DecodeOp(patch, cs);
    NamesFound(patch, cs);
    forall o: Op {
      NamedOp(patch, cs, o);
    }
    if path.Some? && path.value.String? {
      assert Has(patch, "path", cs, Some(String(path.value.s)));
      if op != InvalidOp {
        assert Has(patch, "op", cs, Some(String(OpName(op))));
        OpWellFormed(doc, op, path.value.s, GetObjectItem(patch, "value", cs), GetObjectItem(patch, "from", cs), cs);
      }
    }
  }

  lemma OpWellFormed(doc: Json, op: Op, path: string, value: Option<Json>, from: Option<Json>, cs: bool)
    requires op != InvalidOp
    ensures op != Test ==> ApplyOp(doc, op, path, value, from, cs).status !in {2, 3}
    ensures ApplyTest(doc, path, value, cs).status !in {2, 3}
  {
    hide DetachPath, AddAt, Locate, CompareJson;
    AddWellFormed(path, cs);
  }

  lemma AddWellFormed(path: string, cs: bool)
    ensures forall d, v :: AddAt(d, path, v, cs).status !in {2, 3, UNDEFINED}
  {
  }

  // ---------------------------------------------------------------- what a "move" must not be given

  /** Exactly for which patches `detach_path` is handed NULL for a path. */
  lemma UndefinedExactly(doc: Json, patch: Json, cs: bool)
    ensures ApplyPatch(doc, patch, cs).status == UNDEFINED <==>
      (exists path :: Has(patch, "path", cs, Some(String(path)))) && Has(patch, "op", cs, Some(String("move"))) &&
      exists from: Json :: Has(patch, "from", cs, Some(from)) && !from.String?
  {
    var path, from := GetObjectItem(patch, "path", cs), GetObjectItem(patch, "from", cs);
    NamesFound(patch, cs);
    NamedOp(patch, cs, Move);
    UndefinedDecoded(doc, patch, cs);
    assert path.Some? && path.value.String? ==> Has(patch, "path", cs, Some(String(path.value.s)));
    assert from.Some? ==> Has(patch, "from", cs, Some(from.value));
  }

  lemma UndefinedDecoded(doc: Json, patch: Json, cs: bool)
    ensures ApplyPatch(doc, patch, cs).status == UNDEFINED <==>
      var path, from := GetObjectItem(patch, "path", cs), GetObjectItem(patch, "from", cs);
      path.Some? && path.value.String? && DecodeOp(patch, cs) == Move && from.Some? && !from.value.String?
  {
    hide ApplyOp, GetObjectItem, DecodeOp;
    var path, op := GetObjectItem(patch, "path", cs), DecodeOp(patch, cs);
    if path.Some? && path.value.String? && op != InvalidOp && op != Test {
      OpDefined(doc, op, path.value.s, GetObjectItem(patch, "value", cs), GetObjectItem(patch, "from", cs), cs);
    }
  }

  lemma OpDefined(doc: Json, op: Op, path: string, value: Option<Json>, from: Option<Json>, cs: bool)
    requires op != InvalidOp && op != Test
    ensures ApplyOp(doc, op, path, value, from, cs).status == UNDEFINED <==>
      op == Move && from.Some? && !from.value.String?
  {
    AddWellFormed(path, cs);
  }
}
