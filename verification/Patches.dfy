/**
 JSON Patch (RFC 6902) as `apply_patch` interprets it and as `create_patches` generates it.
 */
module Patches {
  import opened CStrings
  import opened JsonValues
  import opened Pointers
  import opened PointerEncoding
  import opened Compare
  import opened MemberLists
  import opened Seqs

  /** `get_object_item`; only members of objects carry a key here. */
  function GetObjectItem(j: Json, k: string, cs: bool): Option<Json> {
    if !j.Object? || KeyIndex(j.members, k, cs) == -1 then None
    else Some(j.members[KeyIndex(j.members, k, cs)].value)
  }

  // ---------------------------------------------------------------- applying

  datatype Op = InvalidOp | Add | Remove | Replace | Move | Copy | Test

  function DecodeOp(patch: Json, cs: bool): Op {
    var op := GetObjectItem(patch, "op", cs);
    if op == None || !op.value.String? then InvalidOp
    else
      var s := op.value.s;
      if s == "add" then Add
      else if s == "remove" then Remove
      else if s == "replace" then Replace
      else if s == "move" then Move
      else if s == "copy" then Copy
      else if s == "test" then Test
      else InvalidOp
  }

  /** The status `apply_patch` returns, and the document it leaves behind. */
  datatype Outcome = Outcome(status: int, doc: Json)

  /** No status: a "move" whose "from" is no string makes `cJSONUtils_strdup` take the length of NULL. */
  const UNDEFINED: int := -1

  /** What is cut out of a container, and what remains of it. */
  datatype Cut = Nothing | Cut(item: Json, rest: Json)

  /** Detaching the child a token names; members are always matched ignoring case. */
  function DetachChild(parent: Json, token: string): Cut {
    match parent
    case Array(items) =>
      var i := DecodeIndex(token);
      if i == None || i.value >= |items| then Nothing
      else Cut(items[i.value], Array(RemoveIndex(items, i.value)))
    case Object(ms) =>
      var i := KeyIndex(ms, token, false);
      if i == -1 then Nothing else Cut(ms[i].value, Object(RemoveIndex(ms, i)))
    case _ => Nothing
  }

  /** The part of a path before its last '/', resolved; none when there is no '/' or no such node. */
  function FindParent(doc: Json, path: string, cs: bool): (r: Option<Address>)
    ensures r.Some? ==> ValidAddress(doc, r.value)
  {
    var k := LastSlash(path);
    if k == -1 then None else Locate(doc, path[..k], cs)
  }

  /** The part after the last '/', decoded. */
  function ChildToken(path: string): string {
    DecodedText(path[LastSlash(path) + 1..])
  }

  /** `detach_path`. */
  function DetachPath(doc: Json, path: string, cs: bool): Cut {
    var at := FindParent(doc, path, cs);
    if at == None then Nothing
    else
      match DetachChild(NodeAt(doc, at.value), ChildToken(path))
      case Nothing => Nothing
      case Cut(item, rest) => Cut(item, ReplaceAt(doc, at.value, rest))
  }

  /** Adding a value to a container under a token. */
  function AddChild(parent: Json, token: string, v: Json, cs: bool): Outcome {
    match parent
    case Array(items) =>
      if token == "-" then Outcome(0, Array(items + [v]))
      else
        var i := DecodeIndex(token);
        if i == None then Outcome(11, parent)
        else if i.value > |items| then Outcome(10, parent)
        else Outcome(0, Array(items[..i.value] + [v] + items[i.value..]))
    case Object(ms) => Outcome(0, Object(PutMember(ms, token, v, cs)))
    case _ => Outcome(9, parent)
  }

  function AddAt(doc: Json, path: string, v: Json, cs: bool): Outcome {
    var at := FindParent(doc, path, cs);
    if at == None then Outcome(9, doc)
    else
      var r := AddChild(NodeAt(doc, at.value), ChildToken(path), v, cs);
      Outcome(r.status, ReplaceAt(doc, at.value, r.doc))
  }

  /** Where the value to add comes from, once the operation is known to need one. */
  function AddMoved(doc: Json, path: string, from: Option<Json>, op: Op, cs: bool): Outcome {
    if from == None then Outcome(4, doc)
    else if !from.value.String? then Outcome(if op == Move then UNDEFINED else 5, doc)
    else if op == Move then
      match DetachPath(doc, from.value.s, cs)
      case Nothing => Outcome(5, doc)
      case Cut(item, rest) => AddAt(rest, path, item, cs)
    else
      var at := Locate(doc, from.value.s, cs);
      if at == None then Outcome(5, doc) else AddAt(doc, path, NodeAt(doc, at.value), cs)
  }

  function ApplyOp(doc: Json, op: Op, path: string, value: Option<Json>, from: Option<Json>, cs: bool): Outcome
    requires op != InvalidOp && op != Test
  {
    if path == "" && op == Remove then Outcome(0, Invalid)
    else if path == "" && (op == Replace || op == Add) then
      if value == None then Outcome(7, doc) else Outcome(0, value.value)
    else if op == Remove || op == Replace then
      match DetachPath(doc, path, cs)
      case Nothing => Outcome(13, doc)
      case Cut(_, rest) =>
        if op == Remove then Outcome(0, rest)
        else if value == None then Outcome(7, rest)
        else AddAt(rest, path, value.value, cs)
    else if op == Move || op == Copy then AddMoved(doc, path, from, op, cs)
    else if value == None then Outcome(7, doc)
    else AddAt(doc, path, value.value, cs)
  }

  /** The test operation compares in place and so leaves the objects it visits sorted. */
  function ApplyTest(doc: Json, path: string, value: Option<Json>, cs: bool): Outcome {
    var at := Locate(doc, path, cs);
    if at == None || value == None then Outcome(1, doc)
    else
      var r := CompareJson(NodeAt(doc, at.value), value.value, cs);
      Outcome(if r.same then 0 else 1, ReplaceAt(doc, at.value, r.a))
  }

  /** `apply_patch`. */
  function ApplyPatch(doc: Json, patch: Json, cs: bool): Outcome {
    var path := GetObjectItem(patch, "path", cs);
    if path == None || !path.value.String? then Outcome(2, doc)
    else
      var op := DecodeOp(patch, cs);
      if op == InvalidOp then Outcome(3, doc)
      else if op == Test then ApplyTest(doc, path.value.s, GetObjectItem(patch, "value", cs), cs)
      else ApplyOp(doc, op, path.value.s, GetObjectItem(patch, "value", cs), GetObjectItem(patch, "from", cs), cs)
  }

  /** `cJSONUtils_ApplyPatches`: in order, until one fails. */
  function ApplyAll(doc: Json, patches: seq<Json>, cs: bool): Outcome
    decreases |patches|
  {
    if patches == [] then Outcome(0, doc)
    else
      var r := ApplyPatch(doc, patches[0], cs);
      if r.status != 0 then r else ApplyAll(r.doc, patches[1..], cs)
  }

  function ApplyPatches(doc: Json, patches: Json, cs: bool): Outcome {
    if !patches.Array? then Outcome(1, doc) else ApplyAll(doc, patches.items, cs)
  }

  method ApplyPatchesLoop(doc: Json, patches: Json, cs: bool) returns (r: Outcome)
    ensures r == ApplyPatches(doc, patches, cs)
  {
    if !patches.Array? {
      return Outcome(1, doc);
    }
    var i, current := 0, doc;
    assert patches.items[0..] == patches.items;
    while i < |patches.items|
      invariant 0 <= i <= |patches.items|
      invariant ApplyAll(doc, patches.items, cs) == ApplyAll(current, patches.items[i..], cs)
    {
      assert patches.items[i..][0] == patches.items[i] && patches.items[i..][1..] == patches.items[i + 1..];
      r := ApplyPatch(current, patches.items[i], cs);
      if r.status != 0 {
        return;
      }
      current, i := r.doc, i + 1;
    }
    return Outcome(0, current);
  }

  // ---------------------------------------------------------------- generating

  /** One generated edit, before it becomes a JSON object. */
  datatype Edit = Edit(op: string, path: string, value: Option<Json>)

  /** `compose_patch`: the object with members "op", "path" and, where there is one, "value". */
  function Compose(e: Edit): Json {
    Object([Member("op", String(e.op)), Member("path", String(e.path))] +
           (if e.value == None then [] else [Member("value", e.value.value)]))
  }

  function ComposeAll(es: seq<Edit>): (r: seq<Json>)
    ensures |r| == |es|
  {
    seq(|es|, i requires 0 <= i < |es| => Compose(es[i]))
  }

  /** `create_patches`. Bytes that the key encoder leaves unwritten hold `junk`. */
  function Diff(path: string, from: Json, to: Json, cs: bool, junk: char): seq<Edit>
    decreases Weight(from), 0, 0
  {
    if !SameType(from, to) then [Edit("replace", path, Some(to))]
    else
      match from
      case Number(n) => if n != to.n then [Edit("replace", path, Some(to))] else []
      case String(s) => if s != to.s then [Edit("replace", path, Some(to))] else []
      case Array(items) => DiffItems(path, 0, items, to.items, cs, junk)
      case Object(ms) => DiffMembers(path, SortMembers(ms, cs), SortMembers(to.members, cs), cs, junk)
      case _ => []
  }

  /** Common items pairwise; then one removal per surplus item, all at one index; then additions. */
  function DiffItems(path: string, index: nat, from: seq<Json>, to: seq<Json>, cs: bool, junk: char): seq<Edit>
    decreases ItemsWeight(from), 1, |from| + |to|
  {
    if from != [] && to != [] then
      Diff(path + "/" + Decimal(index), from[0], to[0], cs, junk) +
      DiffItems(path, index + 1, from[1..], to[1..], cs, junk)
    else if from != [] then
      [Edit("remove", ComposedPath(path, Decimal(index), junk), None)] +
      DiffItems(path, index, from[1..], to, cs, junk)
    else if to != [] then
      [Edit("add", ComposedPath(path, "-", junk), Some(to[0]))] +
      DiffItems(path, index + 1, from, to[1..], cs, junk)
    else []
  }

  /** The two sorted member lists walked side by side. */
  function DiffMembers(path: string, from: seq<Member>, to: seq<Member>, cs: bool, junk: char): seq<Edit>
    decreases MembersWeight(from), 1, |from| + |to|
  {
    if from == [] && to == [] then []
    else
      var diff := MergeOrder(from, to, cs);
      if diff == 0 then
        Diff(ComposedPath(path, from[0].key, junk), from[0].value, to[0].value, cs, junk) +
        DiffMembers(path, from[1..], to[1..], cs, junk)
      else if diff < 0 then
        [Edit("remove", ComposedPath(path, from[0].key, junk), None)] +
        DiffMembers(path, from[1..], to, cs, junk)
      else
        [Edit("add", ComposedPath(path, to[0].key, junk), Some(to[0].value))] +
        DiffMembers(path, from, to[1..], cs, junk)
  }

  /** Which of two lists is to advance: negative for the first, positive for the second, zero for both. */
  function MergeOrder(from: seq<Member>, to: seq<Member>, cs: bool): (d: int)
    requires from != [] || to != []
    ensures from == [] ==> d > 0
    ensures to == [] ==> d < 0
  {
    if from == [] then 1
    else if to == [] then -1
    else CompareStrings(from[0].key, to[0].key, cs)
  }

  /** The source as `create_patches` leaves it: every object that it walks through has been sorted in place. */
  function LeftSource(from: Json, to: Json, cs: bool): Json
    decreases Weight(from), 0, 0
  {
    if !SameType(from, to) then from
    else
      match from
      case Array(items) => Array(LeftItems(items, to.items, cs))
      case Object(ms) => Object(LeftMembers(SortMembers(ms, cs), SortMembers(to.members, cs), cs))
      case _ => from
  }

  function LeftItems(from: seq<Json>, to: seq<Json>, cs: bool): (r: seq<Json>)
    ensures |r| == |from|
    decreases ItemsWeight(from), 1, |from| + |to|
  {
    if from == [] || to == [] then from
    else [LeftSource(from[0], to[0], cs)] + LeftItems(from[1..], to[1..], cs)
  }

  function LeftMembers(from: seq<Member>, to: seq<Member>, cs: bool): (r: seq<Member>)
    ensures |r| == |from|
    ensures forall i :: 0 <= i < |from| ==> r[i].key == from[i].key
    decreases MembersWeight(from), 1, |from| + |to|
  {
    if from == [] then []
    else
      var diff := MergeOrder(from, to, cs);
      if diff == 0 then
        [Member(from[0].key, LeftSource(from[0].value, to[0].value, cs))] + LeftMembers(from[1..], to[1..], cs)
      else if diff < 0 then [from[0]] + LeftMembers(from[1..], to, cs)
      else LeftMembers(from, to[1..], cs)
  }

  /** The target as `create_patches` leaves it, sorted in the same way. */
  function LeftTarget(from: Json, to: Json, cs: bool): Json
    decreases Weight(from), 0, 0
  {
    if !SameType(from, to) then to
    else
      match from
      case Array(items) => Array(LeftTargetItems(items, to.items, cs))
      case Object(ms) => Object(LeftTargetMembers(SortMembers(ms, cs), SortMembers(to.members, cs), cs))
      case _ => to
  }

  function LeftTargetItems(from: seq<Json>, to: seq<Json>, cs: bool): (r: seq<Json>)
    ensures |r| == |to|
    decreases ItemsWeight(from), 1, |from| + |to|
  {
    if from == [] || to == [] then to
    else [LeftTarget(from[0], to[0], cs)] + LeftTargetItems(from[1..], to[1..], cs)
  }

  function LeftTargetMembers(from: seq<Member>, to: seq<Member>, cs: bool): (r: seq<Member>)
    ensures |r| == |to|
    ensures forall i :: 0 <= i < |to| ==> r[i].key == to[i].key
    decreases MembersWeight(from), 1, |from| + |to|
  {
    if to == [] then []
    else
      var diff := MergeOrder(from, to, cs);
      if diff == 0 then
        [Member(to[0].key, LeftTarget(from[0].value, to[0].value, cs))] +
        LeftTargetMembers(from[1..], to[1..], cs)
      else if diff < 0 then LeftTargetMembers(from[1..], to, cs)
      else [to[0]] + LeftTargetMembers(from, to[1..], cs)
  }

  /** `cJSONUtils_GeneratePatchesCaseSensitive` and its case-blind twin. */
  function GeneratePatches(from: Json, to: Json, cs: bool, junk: char): Json {
    Array(ComposeAll(Diff("", from, to, cs, junk)))
  }

  /** The array of patches that generation appends to. */
  class PatchArray {
    var items: seq<Json>

    constructor ()
      ensures items == []
    {
      items := [];
    }

    method Append(op: string, path: string, value: Option<Json>)
      modifies this
      ensures items == old(items) + [Compose(Edit(op, path, value))]
    {
      var members := [Member("op", String(op)), Member("path", String(path))];
      if value.Some? {
        members := members + [Member("value", value.value)];
      }
      assert Compose(Edit(op, path, value)) == Object(members);
      items := items + [Object(members)];
    }
  }

  lemma ComposeAllCons(before: seq<Json>, e: Edit, rest: seq<Edit>)
    ensures before + ComposeAll([e] + rest) == (before + [Compose(e)]) + ComposeAll(rest)
  {
  }

  lemma ComposeAllAfter(before: seq<Json>, some: seq<Edit>, rest: seq<Edit>)
    ensures before + ComposeAll(some + rest) == (before + ComposeAll(some)) + ComposeAll(rest)
  {
  }

  lemma ComposeAllNone(before: seq<Json>)
    ensures before + ComposeAll([]) == before
  {
  }

  /** The recursion and the loops of `create_patches`, appending to one array and leaving both trees sorted. */
  method CreatePatches(patches: PatchArray, path: string, from: Json, to: Json, cs: bool, junk: char)
    returns (left: Json, leftTo: Json)
    modifies patches
    ensures left == LeftSource(from, to, cs) && leftTo == LeftTarget(from, to, cs)
    ensures patches.items == old(patches.items) + ComposeAll(Diff(path, from, to, cs, junk))
    decreases Weight(from), 0
  {
    ComposeAllNone(patches.items);
    left, leftTo := from, to;
    if !SameType(from, to) || (from.Number? && from.n != to.n) || (from.String? && from.s != to.s) {
      ComposeAllCons(patches.items, Edit("replace", path, Some(to)), []);
      patches.Append("replace", path, Some(to));
      ComposeAllNone(patches.items);
    } else if from.Array? {
      var leftItems, leftToItems := CreateItemPatches(patches, path, from.items, to.items, cs, junk);
      left, leftTo := Array(leftItems), Array(leftToItems);
    } else if from.Object? {
      var leftMembers, leftToMembers :=
        CreateMemberPatches(patches, path, SortMembers(from.members, cs), SortMembers(to.members, cs), cs, junk);
      left, leftTo := Object(leftMembers), Object(leftToMembers);
    }
  }

  method CreateItemPatches(patches: PatchArray, path: string, from: seq<Json>, to: seq<Json>, cs: bool, junk: char)
    returns (left: seq<Json>, leftTo: seq<Json>)
    modifies patches
    ensures left == LeftItems(from, to, cs) && leftTo == LeftTargetItems(from, to, cs)
    ensures patches.items == old(patches.items) + ComposeAll(DiffItems(path, 0, from, to, cs, junk))
    decreases ItemsWeight(from), 1
  {
    var index, fromRest, toRest := 0, from, to;
    left, leftTo := [], [];
    ghost var all := patches.items + ComposeAll(DiffItems(path, 0, from, to, cs, junk));
    while fromRest != [] && toRest != []
      invariant ItemsWeight(fromRest) <= ItemsWeight(from)
      invariant all == patches.items + ComposeAll(DiffItems(path, index, fromRest, toRest, cs, junk))
      invariant LeftItems(from, to, cs) == left + LeftItems(fromRest, toRest, cs)
      invariant LeftTargetItems(from, to, cs) == leftTo + LeftTargetItems(fromRest, toRest, cs)
      decreases |fromRest|
    {
      var item := path + "/" + Decimal(index);
      ComposeAllAfter(patches.items, Diff(item, fromRest[0], toRest[0], cs, junk),
                      DiffItems(path, index + 1, fromRest[1..], toRest[1..], cs, junk));
      var leftItem, leftToItem := CreatePatches(patches, item, fromRest[0], toRest[0], cs, junk);
      AppendAssociates(left, [leftItem], LeftItems(fromRest[1..], toRest[1..], cs));
      AppendAssociates(leftTo, [leftToItem], LeftTargetItems(fromRest[1..], toRest[1..], cs));
      left, leftTo := left + [leftItem], leftTo + [leftToItem];
      fromRest, toRest, index := fromRest[1..], toRest[1..], index + 1;
    }
    left, leftTo := left + fromRest, leftTo + toRest;
    while fromRest != []
      invariant fromRest == [] || toRest == []
      invariant all == patches.items + ComposeAll(DiffItems(path, index, fromRest, toRest, cs, junk))
      decreases |fromRest|
    {
      var full := ComposePath(path, Decimal(index), junk);
      ComposeAllCons(patches.items, Edit("remove", full, None),
                     DiffItems(path, index, fromRest[1..], toRest, cs, junk));
      patches.Append("remove", full, None);
      fromRest := fromRest[1..];
    }
    while toRest != []
      invariant fromRest == []
      invariant all == patches.items + ComposeAll(DiffItems(path, index, fromRest, toRest, cs, junk))
      decreases |toRest|
    {
      var full := ComposePath(path, "-", junk);
      ComposeAllCons(patches.items, Edit("add", full, Some(toRest[0])),
                     DiffItems(path, index + 1, fromRest, toRest[1..], cs, junk));
      patches.Append("add", full, Some(toRest[0]));
      toRest, index := toRest[1..], index + 1;
    }
    ComposeAllNone(patches.items);
  }

  method CreateMemberPatches(patches: PatchArray, path: string, from: seq<Member>, to: seq<Member>, cs: bool,
          junk: char)
    returns (left: seq<Member>, leftTo: seq<Member>)
    modifies patches
    ensures left == LeftMembers(from, to, cs) && leftTo == LeftTargetMembers(from, to, cs)
    ensures patches.items == old(patches.items) + ComposeAll(DiffMembers(path, from, to, cs, junk))
    decreases MembersWeight(from), 1
  {
    var fromRest, toRest := from, to;
    left, leftTo := [], [];
    ghost var all := patches.items + ComposeAll(DiffMembers(path, from, to, cs, junk));
    while fromRest != [] || toRest != []
      invariant MembersWeight(fromRest) <= MembersWeight(from)
      invariant all == patches.items + ComposeAll(DiffMembers(path, fromRest, toRest, cs, junk))
      invariant LeftMembers(from, to, cs) == left + LeftMembers(fromRest, toRest, cs)
      invariant LeftTargetMembers(from, to, cs) == leftTo + LeftTargetMembers(fromRest, toRest, cs)
      decreases |fromRest| + |toRest|
    {
      var diff := MergeOrder(fromRest, toRest, cs);
      if diff == 0 {
        var full := ComposePath(path, fromRest[0].key, junk);
        ComposeAllAfter(patches.items, Diff(full, fromRest[0].value, toRest[0].value, cs, junk),
                        DiffMembers(path, fromRest[1..], toRest[1..], cs, junk));
        var leftValue, leftToValue := CreatePatches(patches, full, fromRest[0].value, toRest[0].value, cs, junk);
        var f, t := Member(fromRest[0].key, leftValue), Member(toRest[0].key, leftToValue);
        AppendAssociates(left, [f], LeftMembers(fromRest[1..], toRest[1..], cs));
        AppendAssociates(leftTo, [t], LeftTargetMembers(fromRest[1..], toRest[1..], cs));
        left, leftTo := left + [f], leftTo + [t];
        fromRest, toRest := fromRest[1..], toRest[1..];
      } else if diff < 0 {
        var full := ComposePath(path, fromRest[0].key, junk);
        ComposeAllCons(patches.items, Edit("remove", full, None),
                       DiffMembers(path, fromRest[1..], toRest, cs, junk));
        patches.Append("remove", full, None);
        AppendAssociates(left, [fromRest[0]], LeftMembers(fromRest[1..], toRest, cs));
        left := left + [fromRest[0]];
        fromRest := fromRest[1..];
      } else {
        var full := ComposePath(path, toRest[0].key, junk);
        ComposeAllCons(patches.items, Edit("add", full, Some(toRest[0].value)),
                       DiffMembers(path, fromRest, toRest[1..], cs, junk));
        patches.Append("add", full, Some(toRest[0].value));
        AppendAssociates(leftTo, [toRest[0]], LeftTargetMembers(fromRest, toRest[1..], cs));
        leftTo := leftTo + [toRest[0]];
        toRest := toRest[1..];
      }
    }
    ComposeAllNone(patches.items);
  }
}
