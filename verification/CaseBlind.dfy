/**
 JSON Patch at the entry points that ignore case: generating and applying act on trees as the case-sensitive
 ones act on the trees, the paths and the values with every letter in lower case.
 */
module CaseBlind {
  import opened CStrings
  import opened Seqs
  import opened Sorting
  import opened JsonValues
  import opened Pointers
  import opened PointerEncoding
  import opened Compare
  import opened MemberLists
  import opened CaseFolding
  import opened Patches
  import opened PatchLocality
  import opened PatchCoding
  import opened PatchRoundTrip
  import opened PatchMiscoded

  // ---------------------------------------------------------------- lower-case text

  predicate Upper(c: char) {
    'A' <= c <= 'Z'
  }

  /** No byte that separates, escapes or counts is a letter. */
  lemma LowerByte(c: char)
    ensures forall d: char :: !Upper(d) && !('a' <= d <= 'z') ==> (ToLower(c) == d <==> c == d)
    ensures ToLower(ToLower(c)) == ToLower(c)
    ensures ToLower(c) >= '0' <==> c >= '0'
  {
  }

  lemma LowerParts(s: string, i: nat)
    requires i <= |s|
    ensures Lower(s[..i]) == Lower(s)[..i] && Lower(s[i..]) == Lower(s)[i..]
  {
  }

  lemma LowerSum(a: string, b: string)
    ensures Lower(a + b) == Lower(a) + Lower(b)
  {
  }

  lemma LowerNumber(n: nat)
    ensures Lower(Decimal(n)) == Decimal(n)
  {
  }

  // ---------------------------------------------------------------- paths

  /** A text that starts like a number has no upper-case letter before the next '/': none is weighed as a digit. */
  predicate SteadyAt(t: string) {
    '1' <= At(t, 0) <= '9' ==> forall k :: 0 <= k < |t| && '/' !in t[..k] ==> !Upper(t[k])
  }

  /** The same for every token of a path, and for the last one once it is decoded. */
  predicate Steady(path: string) {
    SteadyPath(path) && SteadyAt(ChildToken(path))
  }

  predicate SteadyPath(p: string) {
    forall i :: 0 <= i < |p| && p[i] == '/' ==> SteadyAt(p[i + 1..])
  }

  lemma SteadySuffix(p: string, k: nat)
    requires SteadyPath(p) && k <= |p|
    ensures SteadyPath(p[k..])
  {
    forall i | 0 <= i < |p[k..]| && p[k..][i] == '/'
      ensures SteadyAt(p[k..][i + 1..])
    {
      assert p[k..][i + 1..] == p[k + i + 1..] && p[k..][i] == p[k + i];
    }
  }

  lemma SteadyPrefix(p: string, k: nat)
    requires SteadyPath(p) && k <= |p|
    ensures SteadyPath(p[..k])
  {
    forall i | 0 <= i < |p[..k]| && p[..k][i] == '/'
      ensures SteadyAt(p[..k][i + 1..])
    {
      assert p[..k][i + 1..] == p[i + 1..][..k - i - 1] && p[..k][i] == p[i];
      SteadyFront(p[i + 1..], k - i - 1);
    }
  }

  lemma SteadyFront(t: string, m: nat)
    requires SteadyAt(t) && m <= |t|
    ensures SteadyAt(t[..m])
  {
    forall k | 0 <= k < m && '/' !in t[..m][..k] && '1' <= At(t[..m], 0) <= '9'
      ensures !Upper(t[..m][k])
    {
      assert t[..m][..k] == t[..k];
    }
  }

  lemma {:induction false} RunLower(t: string, pos: nat, acc: nat)
    requires SteadyAt(t) && t != "" && '1' <= t[0] <= '9' && pos <= |t| && '/' !in t[..pos]
    ensures DecodeRun(Lower(t), pos, acc) == DecodeRun(t, pos, acc)
    decreases |t| - pos
  {
    LowerByte(t[0]);
    if pos < |t| {
      LowerByte(t[pos]);
      if t[pos] >= '0' {
        assert !Upper(t[pos]) && t[..pos + 1] == t[..pos] + [t[pos]];
        RunLower(t, pos + 1, (10 * acc + (t[pos] as int - '0' as int)) % SIZE_T);
      }
    }
  }

  lemma LowerAt(t: string, i: nat)
    ensures At(Lower(t), i) == ToLower(At(t, i))
  {
  }

  lemma IndexLower(t: string)
    requires SteadyAt(t)
    ensures DecodeIndex(Lower(t)) == DecodeIndex(t)
  {
    LowerAt(t, 0);
    LowerAt(t, 1);
    LowerByte(At(t, 0));
    LowerByte(At(t, 1));
    var r := DecodeRun(t, 0, 0);
    if t != "" && '1' <= t[0] <= '9' {
      RunLower(t, 0, 0);
    } else if t != "" && t[0] == '0' {
      ZeroRun(t);
      ZeroRun(Lower(t));
    }
    LowerAt(t, r.1);
    LowerByte(At(t, r.1));
  }

  lemma ZeroRun(t: string)
    requires t != "" && t[0] == '0'
    ensures At(t, 1) == NUL || At(t, 1) == '/' ==> DecodeRun(t, 0, 0) == (0, 1)
  {
    assert DecodeRun(t, 0, 0) == DecodeRun(t, 1, 0);
  }

  lemma {:induction false} MatchesLower(name: string, t: string)
    ensures TokenMatches(Lower(name), Lower(t), true) == TokenMatches(name, t, false)
    decreases |name|
  {
    if t != "" {
      LowerByte(t[0]);
      LowerParts(t, 1);
      LowerAt(t, 1);
      LowerByte(At(t, 1));
    }
    if name != "" && !Ends(t) {
      LowerByte(name[0]);
      LowerParts(name, 1);
      if t[0] == '~' {
        if At(t, 1) == '0' || At(t, 1) == '1' {
          LowerParts(t, 2);
          MatchesLower(name[1..], t[2..]);
        }
      } else {
        MatchesLower(name[1..], t[1..]);
        assert [ToLower(name[0])] == [ToLower(t[0])] <==> ToLower(name[0]) == ToLower(t[0]);
        assert Lower([name[0]]) == [ToLower(name[0])] && Lower([t[0]]) == [ToLower(t[0])];
      }
    }
  }

  lemma {:induction false} FirstLower(ms: seq<Member>, t: string)
    ensures FirstMatch(FoldedMembers(ms, false), Lower(t), true) == FirstMatch(ms, t, false)
  {
    if ms != [] {
      MatchesLower(ms[0].key, t);
      FoldedSlice(ms, 1, false);
      FirstLower(ms[1..], t);
    }
  }

  lemma ChildLower(j: Json, t: string)
    requires SteadyAt(t)
    ensures ChildAt(Folded(j, false), Lower(t), true) == ChildAt(j, t, false)
  {
    if j.Array? {
      FoldedArray(j.items, false);
      IndexLower(t);
    } else if j.Object? {
      FoldedObject(j.members, false);
      FirstLower(j.members, t);
    }
  }

  lemma {:induction false} TokenEndLower(t: string)
    ensures TokenEnd(Lower(t)) == TokenEnd(t) && SkipToken(Lower(t)) == Lower(SkipToken(t))
  {
    var e := TokenEnd(t);
    forall i | 0 <= i < |t|
      ensures Lower(t)[i] == '/' <==> t[i] == '/'
    {
      LowerByte(t[i]);
    }
    TokenEndIs(Lower(t), e);
    LowerParts(t, e);
  }

  lemma FoldedChild(j: Json, i: nat)
    requires HasChild(j, i)
    ensures HasChild(Folded(j, false), i) && Child(Folded(j, false), i) == Folded(Child(j, i), false)
  {
  }

  lemma {:induction false} LocateLower(j: Json, p: string)
    requires SteadyPath(p)
    ensures Locate(Folded(j, false), Lower(p), true) == Locate(j, p, false)
    decreases |p|
  {
    if p != "" {
      LowerByte(p[0]);
      if p[0] == '/' {
        LowerParts(p, 1);
        ChildLower(j, p[1..]);
        var i := ChildAt(j, p[1..], false);
        if i.Some? {
          TokenEndLower(p[1..]);
          FoldedChild(j, i.value);
          SteadySuffix(p, 1);
          SteadySuffix(p[1..], TokenEnd(p[1..]));
          LocateLower(Child(j, i.value), SkipToken(p[1..]));
        }
      }
    }
  }

  lemma {:induction false} NodeLower(j: Json, a: Address)
    requires ValidAddress(j, a)
    ensures ValidAddress(Folded(j, false), a) && NodeAt(Folded(j, false), a) == Folded(NodeAt(j, a), false)
    decreases |a|
  {
    if a != [] {
      FoldedChild(j, a[0]);
      NodeLower(Child(j, a[0]), a[1..]);
    }
  }

  lemma SetLower(j: Json, i: nat, v: Json)
    requires HasChild(j, i)
    ensures HasChild(Folded(j, false), i)
    ensures SetChild(Folded(j, false), i, Folded(v, false)) == Folded(SetChild(j, i, v), false)
  {
    if j.Array? {
      FoldedArray(j.items, false);
      FoldedArray(j.items[i := v], false);
      assert FoldedItems(j.items, false)[i := Folded(v, false)] == FoldedItems(j.items[i := v], false);
    } else {
      var r := Updated(j.members, i, v);
      FoldedObject(j.members, false);
      FoldedObject(r, false);
      assert Updated(FoldedMembers(j.members, false), i, Folded(v, false)) == FoldedMembers(r, false);
    }
  }

  lemma {:induction false} ReplaceLower(j: Json, a: Address, v: Json)
    requires ValidAddress(j, a)
    ensures ValidAddress(Folded(j, false), a)
    ensures ReplaceAt(Folded(j, false), a, Folded(v, false)) == Folded(ReplaceAt(j, a, v), false)
    decreases |a|
  {
    NodeLower(j, a);
    if a != [] {
      FoldedChild(j, a[0]);
      ReplaceLower(Child(j, a[0]), a[1..], v);
      SetLower(j, a[0], ReplaceAt(Child(j, a[0]), a[1..], v));
    }
  }

  lemma SlashLower(p: string)
    ensures LastSlash(Lower(p)) == LastSlash(p)
  {
    var q, k := Lower(p), LastSlash(p);
    forall i | 0 <= i < |p|
      ensures q[i] == '/' <==> p[i] == '/'
    {
      LowerByte(p[i]);
    }
    if k >= 0 {
      LastSlashIs(q, k);
    } else {
      assert forall i :: 0 <= i < |q| ==> q[i] != '/';
    }
  }

  lemma ParentLower(j: Json, p: string)
    requires SteadyPath(p)
    ensures FindParent(Folded(j, false), Lower(p), true) == FindParent(j, p, false)
  {
    var k := LastSlash(p);
    SlashLower(p);
    if k != -1 {
      LowerParts(p, k);
      SteadyPrefix(p, k);
      LocateLower(j, p[..k]);
    }
  }

  // ---------------------------------------------------------------- the last token

  lemma {:induction false} CStrLower(m: seq<char>)
    ensures CStr(Lower(m)) == Lower(CStr(m))
  {
    if m != [] {
      LowerByte(m[0]);
      LowerParts(m, 1);
      CStrLower(m[1..]);
      if m[0] != NUL {
        LowerSum([m[0]], CStr(m[1..]));
      }
    }
  }

  lemma {:induction false} DecodedLower(m: seq<char>, w: nat, r: nat)
    requires w <= r < |m| && m[|m| - 1] == NUL
    ensures Decoded(Lower(m), w, r) == Lower(Decoded(m, w, r))
    decreases |m| - r
  {
    LowerByte(m[r]);
    if m[r] == NUL {
      assert Lower(m)[w := NUL] == Lower(m[w := NUL]);
    } else if m[r] == '~' {
      LowerByte(m[r + 1]);
      if m[r + 1] == '0' {
        assert Lower(m)[w := '~'] == Lower(m[w := '~']);
        DecodedLower(m[w := '~'], w + 1, r + 2);
      } else if m[r + 1] == '1' {
        assert Lower(m)[w + 1 := '/'] == Lower(m[w + 1 := '/']);
        DecodedLower(m[w + 1 := '/'], w + 1, r + 2);
      }
    } else {
      DecodedLower(m, w + 1, r + 1);
    }
  }

  lemma TokenLower(p: string)
    ensures ChildToken(Lower(p)) == Lower(ChildToken(p))
  {
    SlashLower(p);
    LowerParts(p, LastSlash(p) + 1);
    TextLower(p[LastSlash(p) + 1..]);
  }

  lemma TextLower(s: string)
    ensures DecodedText(Lower(s)) == Lower(DecodedText(s))
  {
    var m := s + [NUL];
    LowerSum(s, [NUL]);
    assert Lower([NUL]) == [NUL];
    DecodedLower(m, 0, 0);
    CStrLower(Decoded(m, 0, 0));
  }

  // ---------------------------------------------------------------- applying

  function LowerCut(c: Cut): Cut {
    if c.Nothing? then Nothing else Cut(Folded(c.item, false), Folded(c.rest, false))
  }

  function LowerOutcome(r: Outcome): Outcome {
    Outcome(r.status, Folded(r.doc, false))
  }

  lemma RemovedLower(ms: seq<Member>, i: nat)
    requires i < |ms|
    ensures FoldedMembers(RemoveIndex(ms, i), false) == RemoveIndex(FoldedMembers(ms, false), i)
  {
    var r := RemoveIndex(ms, i);
    forall x | 0 <= x < |r|
      ensures FoldedMembers(r, false)[x] == RemoveIndex(FoldedMembers(ms, false), i)[x]
    {
      RemovedAt(ms, i, x);
      RemovedAt(FoldedMembers(ms, false), i, x);
    }
  }

  lemma RemovedItemLower(xs: seq<Json>, i: nat)
    requires i < |xs|
    ensures FoldedItems(RemoveIndex(xs, i), false) == RemoveIndex(FoldedItems(xs, false), i)
  {
    var r := RemoveIndex(xs, i);
    forall x | 0 <= x < |r|
      ensures FoldedItems(r, false)[x] == RemoveIndex(FoldedItems(xs, false), i)[x]
    {
      RemovedAt(xs, i, x);
      RemovedAt(FoldedItems(xs, false), i, x);
    }
  }

  lemma DetachChildLower(j: Json, t: string)
    requires SteadyAt(t)
    ensures DetachChild(Folded(j, false), Lower(t)) == LowerCut(DetachChild(j, t))
  {
    if j.Array? {
      var i := DecodeIndex(t);
      IndexLower(t);
      FoldedArray(j.items, false);
      if i.Some? && i.value < |j.items| {
        RemovedItemLower(j.items, i.value);
        FoldedArray(RemoveIndex(j.items, i.value), false);
      }
    } else if j.Object? {
      var i := KeyIndex(j.members, t, false);
      FoldedIndex(j.members, t, false);
      FoldedObject(j.members, false);
      if i != -1 {
        RemovedLower(j.members, i);
        FoldedObject(RemoveIndex(j.members, i), false);
      }
    }
  }

  lemma DetachLower(j: Json, p: string)
    requires Steady(p)
    ensures DetachPath(Folded(j, false), Lower(p), true) == LowerCut(DetachPath(j, p, false))
  {
    ParentLower(j, p);
    TokenLower(p);
    var at := FindParent(j, p, false);
    if at.Some? {
      NodeLower(j, at.value);
      DetachChildLower(NodeAt(j, at.value), ChildToken(p));
      var c := DetachChild(NodeAt(j, at.value), ChildToken(p));
      if c.Cut? {
        ReplaceLower(j, at.value, c.rest);
      }
    }
  }

  /** In a list of members with lower-case keys it makes no difference whether case is ignored. */
  lemma {:induction false} SettledIndex(ms: seq<Member>, k: string)
    ensures KeyIndex(FoldedMembers(ms, false), Lower(k), true) == KeyIndex(ms, k, false)
  {
    if ms != [] {
      FoldedSlice(ms, 1, false);
      SettledIndex(ms[1..], k);
    }
  }

  lemma PutLower(ms: seq<Member>, k: string, v: Json)
    ensures PutMember(FoldedMembers(ms, false), Lower(k), Folded(v, false), true) ==
      FoldedMembers(PutMember(ms, k, v, false), false)
  {
    var i := KeyIndex(ms, k, false);
    SettledIndex(ms, k);
    if i == -1 {
      FoldedSum(ms, [Member(k, v)], false);
    } else {
      RemovedLower(ms, i);
      FoldedSum(RemoveIndex(ms, i), [Member(k, v)], false);
    }
    FoldedOne(Member(k, v), false);
  }

  lemma DashLower(t: string)
    ensures Lower(t) == "-" <==> t == "-"
  {
    if |t| == 1 {
      LowerByte(t[0]);
    }
  }

  lemma InsertLower(xs: seq<Json>, n: nat, v: Json)
    requires n <= |xs|
    ensures FoldedItems(xs[..n] + [v] + xs[n..], false) ==
      FoldedItems(xs, false)[..n] + [Folded(v, false)] + FoldedItems(xs, false)[n..]
  {
  }

  lemma AddChildLower(j: Json, t: string, v: Json)
    requires SteadyAt(t)
    ensures AddChild(Folded(j, false), Lower(t), Folded(v, false), true) == LowerOutcome(AddChild(j, t, v, false))
  {
    if j.Array? {
      var i := DecodeIndex(t);
      IndexLower(t);
      DashLower(t);
      FoldedArray(j.items, false);
      if t == "-" {
        InsertLower(j.items, |j.items|, v);
        FoldedArray(j.items + [v], false);
        assert j.items[..|j.items|] + [v] + j.items[|j.items|..] == j.items + [v];
      } else if i.Some? && i.value <= |j.items| {
        InsertLower(j.items, i.value, v);
        FoldedArray(j.items[..i.value] + [v] + j.items[i.value..], false);
      }
    } else if j.Object? {
      FoldedObject(j.members, false);
      PutLower(j.members, t, v);
      FoldedObject(PutMember(j.members, t, v, false), false);
    }
  }

  lemma AddLower(j: Json, p: string, v: Json)
    requires Steady(p)
    ensures AddAt(Folded(j, false), Lower(p), Folded(v, false), true) == LowerOutcome(AddAt(j, p, v, false))
  {
    ParentLower(j, p);
    TokenLower(p);
    var at := FindParent(j, p, false);
    if at.Some? {
      NodeLower(j, at.value);
      AddChildLower(NodeAt(j, at.value), ChildToken(p), v);
      ReplaceLower(j, at.value, AddChild(NodeAt(j, at.value), ChildToken(p), v, false).doc);
    }
  }

  /** An operation that ignores case does what the lower-case one that does not does to the folded document. */
  predicate OpAgrees(doc: Json, op: Op, path: string, value: Option<Json>)
    requires op == Add || op == Remove || op == Replace
  {
    ApplyOp(Folded(doc, false), op, Lower(path), FoldedOption(value, false), None, true) ==
    LowerOutcome(ApplyOp(doc, op, path, value, None, false))
  }

  lemma RootLower(doc: Json, op: Op, path: string, value: Option<Json>)
    requires (op == Add || op == Remove || op == Replace) && path == ""
    ensures OpAgrees(doc, op, path, value)
  {
    assert Lower(path) == "";
  }

  lemma BelowLower(doc: Json, op: Op, path: string, value: Option<Json>)
    requires (op == Add || op == Remove || op == Replace) && path != "" && Steady(path)
    ensures OpAgrees(doc, op, path, value)
  {
    var c := DetachPath(doc, path, false);
    DetachLower(doc, path);
    AddIs(doc, path, value, false);
    AddIs(Folded(doc, false), Lower(path), FoldedOption(value, false), true);
    if op == Add && value.Some? {
      AddLower(doc, path, value.value);
    } else if op == Replace && value.Some? && c.Cut? {
      AddLower(c.rest, path, value.value);
    }
  }

  /** An edit that ignores case acts as the lower-case edit that does not acts on the lower-case document. */
  lemma OpLower(doc: Json, op: Op, path: string, value: Option<Json>)
    requires (op == Add || op == Remove || op == Replace) && Steady(path)
    ensures OpAgrees(doc, op, path, value)
  {
    if path == "" {
      RootLower(doc, op, path, value);
    } else {
      BelowLower(doc, op, path, value);
    }
  }

  // ---------------------------------------------------------------- generating

  function LowerEdit(e: Edit): Edit {
    Edit(e.op, Lower(e.path), FoldedOption(e.value, false))
  }

  function LowerEdits(es: seq<Edit>): (r: seq<Edit>)
    ensures |r| == |es| && forall i :: 0 <= i < |es| ==> r[i] == LowerEdit(es[i])
  {
    seq(|es|, i requires 0 <= i < |es| => LowerEdit(es[i]))
  }

  lemma LowerEditsSum(a: seq<Edit>, b: seq<Edit>)
    ensures LowerEdits(a + b) == LowerEdits(a) + LowerEdits(b)
  {
  }

  lemma {:induction false} EncodedLengthLower(s: string)
    ensures EncodedLength(Lower(s)) == EncodedLength(s)
  {
    if s != "" {
      LowerByte(s[0]);
      LowerParts(s, 1);
      EncodedLengthLower(s[1..]);
    }
  }

  lemma {:induction false} EncodedLower(s: string, m: seq<char>)
    requires |m| > EncodedLength(s)
    ensures EncodedLength(Lower(s)) == EncodedLength(s) && Encoded(Lower(s), Lower(m)) == Lower(Encoded(s, m))
    decreases |s|
  {
    EncodedLengthLower(s);
    if s == "" {
      LowerParts(m, 1);
      LowerSum([NUL], m[1..]);
    } else {
      var h := EncodedHead(s[0], m);
      LowerByte(s[0]);
      LowerParts(s, 1);
      EncodedStep(s, m);
      EncodedStep(Lower(s), Lower(m));
      EncodedLower(s[1..], m[|h|..]);
      LowerParts(m, |h|);
      LowerSum(h, Encoded(s[1..], m[|h|..]));
      assert EncodedHead(Lower(s)[0], Lower(m)) == Lower(h);
    }
  }

  lemma ComposedLower(path: string, k: string, junk: char)
    ensures ComposedPath(Lower(path), Lower(k), ToLower(junk)) == Lower(ComposedPath(path, k, junk))
  {
    var m := Leftover(k, junk);
    EncodedLengthLower(k);
    assert Leftover(Lower(k), ToLower(junk)) == Lower(m);
    EncodedLower(k, m);
    CStrLower(Encoded(k, m));
    LowerSum(path, "/");
    LowerSum(path + "/", CStr(Encoded(k, m)));
    assert Lower("/") == "/";
  }

  lemma {:induction false} MergedLower(a: seq<Member>, b: seq<Member>)
    ensures Merge(FoldedMembers(a, false), FoldedMembers(b, false), KeyOf, true) ==
      FoldedMembers(Merge(a, b, KeyOf, false), false)
    decreases |a| + |b|
  {
    if a != [] && b != [] {
      FoldedSlice(a, 1, false);
      FoldedSlice(b, 1, false);
      if CompareStrings(a[0].key, b[0].key, false) < 0 {
        MergedLower(a[1..], b);
        FoldedCons(a[0], Merge(a[1..], b, KeyOf, false), false);
      } else {
        MergedLower(a, b[1..]);
        FoldedCons(b[0], Merge(a, b[1..], KeyOf, false), false);
      }
    }
  }

  lemma StrictlyLower(ms: seq<Member>)
    ensures StrictlySorted(FoldedMembers(ms, false), KeyOf, true) <==> StrictlySorted(ms, KeyOf, false)
  {
    var fs := FoldedMembers(ms, false);
    forall i | 0 <= i < |ms| - 1
      ensures CompareStrings(KeyOf(fs[i]), KeyOf(fs[i + 1]), true) ==
        CompareStrings(KeyOf(ms[i]), KeyOf(ms[i + 1]), false)
    {
    }
  }

  lemma {:induction false} SortedLower(ms: seq<Member>)
    ensures Sort(FoldedMembers(ms, false), KeyOf, true) == FoldedMembers(Sort(ms, KeyOf, false), false)
    decreases |ms|
  {
    StrictlyLower(ms);
    if |ms| > 1 && !StrictlySorted(ms, KeyOf, false) {
      var h := (|ms| + 1) / 2;
      FoldedSlice(ms, h, false);
      SortedLower(ms[..h]);
      SortedLower(ms[h..]);
      MergedLower(Sort(ms[..h], KeyOf, false), Sort(ms[h..], KeyOf, false));
    }
  }

  /** Generating while ignoring case makes the patch that generating from the lower-case trees makes, but for case. */
  lemma {:induction false} DiffLower(path: string, from: Json, to: Json, junk: char)
    ensures Diff(Lower(path), Folded(from, false), Folded(to, false), true, ToLower(junk)) ==
      LowerEdits(Diff(path, from, to, false, junk))
    decreases Weight(from), 0, 0
  {
    if SameType(from, to) && from.Array? {
      FoldedArray(from.items, false);
      FoldedArray(to.items, false);
      DiffItemsLower(path, 0, from.items, to.items, junk);
    } else if SameType(from, to) && from.Object? {
      FoldedObject(from.members, false);
      FoldedObject(to.members, false);
      SortedLower(from.members);
      SortedLower(to.members);
      DiffMembersLower(path, SortMembers(from.members, false), SortMembers(to.members, false), junk);
    }
  }

  lemma {:induction false} DiffItemsLower(path: string, index: nat, from: seq<Json>, to: seq<Json>, junk: char)
    ensures DiffItems(Lower(path), index, FoldedItems(from, false), FoldedItems(to, false), true, ToLower(junk)) ==
      LowerEdits(DiffItems(path, index, from, to, false, junk))
    decreases ItemsWeight(from), 1, |from| + |to|
  {
    ItemsTail(from);
    ItemsTail(to);
    if from != [] && to != [] {
      var p := path + "/" + Decimal(index);
      LowerIndex(path, index);
      DiffLower(p, from[0], to[0], junk);
      DiffItemsLower(path, index + 1, from[1..], to[1..], junk);
      LowerEditsSum(Diff(p, from[0], to[0], false, junk),
                    DiffItems(path, index + 1, from[1..], to[1..], false, junk));
    } else if from != [] {
      LowerNumber(index);
      ComposedLower(path, Decimal(index), junk);
      DiffItemsLower(path, index, from[1..], to, junk);
      LowerEditsSum([Edit("remove", ComposedPath(path, Decimal(index), junk), None)],
                    DiffItems(path, index, from[1..], to, false, junk));
    } else if to != [] {
      assert Lower("-") == "-";
      ComposedLower(path, "-", junk);
      DiffItemsLower(path, index + 1, from, to[1..], junk);
      LowerEditsSum([Edit("add", ComposedPath(path, "-", junk), Some(to[0]))],
                    DiffItems(path, index + 1, from, to[1..], false, junk));
    }
  }

  lemma ItemsTail(xs: seq<Json>)
    ensures xs != [] ==> FoldedItems(xs, false)[1..] == FoldedItems(xs[1..], false)
  {
  }

  lemma LowerIndex(path: string, index: nat)
    ensures Lower(path) + "/" + Decimal(index) == Lower(path + "/" + Decimal(index))
  {
    LowerNumber(index);
    LowerSum(path, "/");
    LowerSum(path + "/", Decimal(index));
    assert Lower("/") == "/";
  }

  /** What the walk over two member lists makes, and what the walk over the folded lists makes. */
  ghost predicate AlikeWalks(path: string, from: seq<Member>, to: seq<Member>, junk: char) {
    DiffMembers(Lower(path), FoldedMembers(from, false), FoldedMembers(to, false), true, ToLower(junk)) ==
    LowerEdits(DiffMembers(path, from, to, false, junk))
  }

  lemma {:induction false} DiffMembersLower(path: string, from: seq<Member>, to: seq<Member>, junk: char)
    ensures AlikeWalks(path, from, to, junk)
    decreases MembersWeight(from), 1, |from| + |to|
  {
    if from != [] || to != [] {
      var diff := MergeOrder(from, to, false);
      if diff == 0 {
        DiffLower(ComposedPath(path, from[0].key, junk), from[0].value, to[0].value, junk);
        DiffMembersLower(path, from[1..], to[1..], junk);
        CommonLower(path, from, to, junk);
      } else if diff < 0 {
        DiffMembersLower(path, from[1..], to, junk);
        SurplusLower(path, from, to, junk);
      } else {
        DiffMembersLower(path, from, to[1..], junk);
        NewLower(path, from, to, junk);
      }
    }
  }

  lemma SurplusLower(path: string, from: seq<Member>, to: seq<Member>, junk: char)
    requires from != [] && MergeOrder(from, to, false) < 0 && AlikeWalks(path, from[1..], to, junk)
    ensures AlikeWalks(path, from, to, junk)
  {
    var e := Edit("remove", ComposedPath(path, from[0].key, junk), None);
    MembersTail(from);
    ComposedLower(path, from[0].key, junk);
    LowerEditsSum([e], DiffMembers(path, from[1..], to, false, junk));
    assert LowerEdits([e]) == [LowerEdit(e)];
  }

  lemma NewLower(path: string, from: seq<Member>, to: seq<Member>, junk: char)
    requires to != [] && MergeOrder(from, to, false) > 0 && AlikeWalks(path, from, to[1..], junk)
    ensures AlikeWalks(path, from, to, junk)
  {
    var e := Edit("add", ComposedPath(path, to[0].key, junk), Some(to[0].value));
    MembersTail(to);
    ComposedLower(path, to[0].key, junk);
    LowerEditsSum([e], DiffMembers(path, from, to[1..], false, junk));
    assert LowerEdits([e]) == [LowerEdit(e)];
  }

  lemma CommonLower(path: string, from: seq<Member>, to: seq<Member>, junk: char)
    requires from != [] && to != [] && MergeOrder(from, to, false) == 0
    requires var p := ComposedPath(path, from[0].key, junk);
      Diff(Lower(p), Folded(from[0].value, false), Folded(to[0].value, false), true, ToLower(junk)) ==
      LowerEdits(Diff(p, from[0].value, to[0].value, false, junk))
    requires AlikeWalks(path, from[1..], to[1..], junk)
    ensures AlikeWalks(path, from, to, junk)
  {
    MembersTail(from);
    MembersTail(to);
    ComposedLower(path, from[0].key, junk);
    LowerEditsSum(Diff(ComposedPath(path, from[0].key, junk), from[0].value, to[0].value, false, junk),
                  DiffMembers(path, from[1..], to[1..], false, junk));
  }

  lemma MembersTail(ms: seq<Member>)
    ensures ms != [] ==> FoldedMembers(ms, false)[1..] == FoldedMembers(ms[1..], false)
  {
  }

  // ---------------------------------------------------------------- whole runs

  lemma BlindLookup(e: Edit)
    ensures GetObjectItem(Compose(e), "op", false) == Some(String(e.op))
    ensures GetObjectItem(Compose(e), "path", false) == Some(String(e.path))
    ensures GetObjectItem(Compose(e), "value", false) == e.value
    ensures GetObjectItem(Compose(e), "from", false) == None
  {
    assert Lower("op") == "op" && Lower("path") == "path" && Lower("value") == "value" && Lower("from") == "from";
    var ms := Compose(e).members;
    assert ms[0].key == "op" && ms[1].key == "path" && (|ms| == 3 ==> ms[2].key == "value");
    assert "path"[0] != "from"[0];
    var i, p := KeyIndex(ms, "op", false), KeyIndex(ms, "path", false);
    var v, f := KeyIndex(ms, "value", false), KeyIndex(ms, "from", false);
    assert i == 0 && p == 1 && (v == |ms| - 1 || |ms| == 2);
  }

  predicate AllSteady(es: seq<Edit>) {
    forall i :: 0 <= i < |es| ==> Steady(es[i].path)
  }

  lemma EditLower(doc: Json, e: Edit)
    requires OpOf(e) != InvalidOp && Steady(e.path)
    ensures ApplyEdit(Folded(doc, false), LowerEdit(e)) == LowerOutcome(ApplyPatch(doc, Compose(e), false))
  {
    BlindApplies(doc, e);
    OpLower(doc, OpOf(e), e.path, e.value);
  }

  /** A generated edit, written as a JSON object, is read back as that edit. */
  lemma BlindApplies(doc: Json, e: Edit)
    requires OpOf(e) != InvalidOp
    ensures ApplyPatch(doc, Compose(e), false) == ApplyOp(doc, OpOf(e), e.path, e.value, None, false)
  {
    BlindLookup(e);
  }

  lemma {:induction false} RunsLower(doc: Json, es: seq<Edit>)
    requires Generated(es) && AllSteady(es)
    ensures ApplyEdits(Folded(doc, false), LowerEdits(es)) == LowerOutcome(ApplyAll(doc, ComposeAll(es), false))
    decreases |es|
  {
    if es != [] {
      EditLower(doc, es[0]);
      ComposeAllTail(es);
      assert LowerEdits(es)[1..] == LowerEdits(es[1..]);
      var r := ApplyPatch(doc, Compose(es[0]), false);
      if r.status == 0 {
        RunsLower(r.doc, es[1..]);
      }
    }
  }

  // ---------------------------------------------------------------- the result

  lemma {:induction false} FoldedFits(j: Json)
    requires Comparable(j, false) && Sized(j)
    ensures FoldOk(Folded(j, false)) && Sized(Folded(j, false))
    decreases j
  {
    match j
    case Array(items) =>
      forall i | 0 <= i < |items|
        ensures FoldOk(Folded(items[i], false)) && Sized(Folded(items[i], false))
      {
        FoldedFits(items[i]);
      }
      FoldedArray(items, false);
    case Object(ms) =>
      forall i | 0 <= i < |ms|
        ensures FoldOk(FoldedMember(ms[i], false).value) && Sized(FoldedMember(ms[i], false).value)
        ensures NUL !in FoldedMember(ms[i], false).key
      {
        FoldedFits(ms[i].value);
        NoNulLower(ms[i].key);
      }
      FoldedObject(ms, false);
      FoldedKeysDistinct(ms);
    case _ =>
  }

  lemma NoNulLower(k: string)
    requires NUL !in k
    ensures NUL !in Lower(k)
  {
    forall i | 0 <= i < |k|
      ensures Lower(k)[i] != NUL
    {
      LowerByte(k[i]);
    }
  }

  lemma FoldedKeysDistinct(ms: seq<Member>)
    requires DistinctUnder(ms, false)
    ensures FoldDistinct(FoldedMembers(ms, false))
  {
    var fs := FoldedMembers(ms, false);
    forall i, j | 0 <= i < j < |fs|
      ensures Lower(fs[i].key) != Lower(fs[j].key)
    {
      FoldTwice(ms[i].key, false);
      FoldTwice(ms[j].key, false);
    }
  }

  /**
   Generating and applying while ignoring case, for trees whose keys are distinct ignoring case: with keys folded the
   target is reached if and only if every path names its node. No text that starts like a number may hold an
   upper-case letter, which the index decoder would weigh by its own code.
   */
  lemma BlindDiffThenPatch(d: Json, from: Json, to: Json, junk: char)
    requires Comparable(d, false) && Comparable(from, false) && Comparable(to, false)
    requires Sized(from) && Sized(to) && FoldedAbs(d, false) == FoldedAbs(from, false)
    requires AllSteady(Diff("", from, to, false, junk))
    ensures var r := ApplyPatches(d, GeneratePatches(from, to, false, junk), false);
      r.status == 0 && FoldedAbs(r.doc, false) == FoldedAbs(to, false) <==>
      Coded(Folded(from, false), Folded(to, false), ToLower(junk))
  {
    hide Diff, Folded, Coded, Comparable, Sized;
    var f, t, c := Folded(from, false), Folded(to, false), ToLower(junk);
    BlindRun(d, from, to, junk);
    FoldedFits(from);
    FoldedFits(to);
    FoldOkUnique(t);
    FoldedUnique(d);
    DiffThenPatchIff(Folded(d, false), f, t, c);
    ComposedAllApply(Folded(d, false), Diff("", f, t, true, c));
  }

  lemma BlindRun(d: Json, from: Json, to: Json, junk: char)
    requires AllSteady(Diff("", from, to, false, junk))
    ensures var es := Diff("", Folded(from, false), Folded(to, false), true, ToLower(junk));
      Generated(es) && ApplyEdits(Folded(d, false), es) ==
        LowerOutcome(ApplyPatches(d, GeneratePatches(from, to, false, junk), false))
  {
    var es := Diff("", from, to, false, junk);
    DiffLower("", from, to, junk);
    DiffGenerated("", Folded(from, false), Folded(to, false), ToLower(junk));
    assert Lower("") == "";
    SameOps(es);
    RunsLower(d, es);
    PatchesApplied(d, es);
  }

  lemma PatchesApplied(d: Json, es: seq<Edit>)
    ensures ApplyPatches(d, Array(ComposeAll(es)), false) == ApplyAll(d, ComposeAll(es), false)
  {
  }

  lemma SameOps(es: seq<Edit>)
    requires Generated(LowerEdits(es))
    ensures Generated(es)
  {
    assert forall i :: 0 <= i < |es| ==> OpOf(LowerEdits(es)[i]) == OpOf(es[i]);
  }

  lemma {:induction false} FoldedUnique(j: Json)
    requires Comparable(j, false)
    ensures Unique(Folded(j, false))
    decreases j
  {
    match j
    case Array(items) =>
      forall i | 0 <= i < |items|
        ensures Unique(Folded(items[i], false))
      {
        FoldedUnique(items[i]);
      }
      FoldedArray(items, false);
    case Object(ms) =>
      forall i | 0 <= i < |ms|
        ensures Unique(FoldedMember(ms[i], false).value)
      {
        FoldedUnique(ms[i].value);
      }
      FoldedObject(ms, false);
      FoldedKeysDistinct(ms);
    case _ =>
  }

  // ---------------------------------------------------------------- trees whose keys are plain

  /** No key holds '~' or '/', and none that starts like a number holds an upper-case letter. */
  predicate PlainKeys(j: Json) {
    match j
    case Array(items) => forall i :: 0 <= i < |items| ==> PlainKeys(items[i])
    case Object(ms) =>
      forall i :: 0 <= i < |ms| ==> PlainKey(ms[i].key) && SteadyAt(ms[i].key) && PlainKeys(ms[i].value)
    case _ => true
  }

  predicate PlainMembers(ms: seq<Member>) {
    forall i :: 0 <= i < |ms| ==> PlainKey(ms[i].key) && SteadyAt(ms[i].key) && PlainKeys(ms[i].value)
  }

  lemma SteadyBelow(path: string, text: string)
    requires Steady(path) && PlainKey(text) && SteadyAt(text)
    ensures Steady(path + "/" + text)
  {
    var p := path + "/" + text;
    forall i | 0 <= i < |p| && p[i] == '/'
      ensures SteadyAt(p[i + 1..])
    {
      if i < |path| {
        assert p[i + 1..] == path[i + 1..] + ("/" + text);
        SteadyThenSlash(path[i + 1..], "/" + text);
      } else {
        assert i == |path| && p[i + 1..] == text;
      }
    }
    LastSlashIs(p, |path|);
    assert p[|path| + 1..] == text;
    DecodedPlain(text);
  }

  lemma SteadyThenSlash(t: string, rest: string)
    requires SteadyAt(t) && rest != "" && rest[0] == '/'
    ensures SteadyAt(t + rest)
  {
    var s := t + rest;
    forall k | 0 <= k < |s| && '/' !in s[..k] && '1' <= At(s, 0) <= '9'
      ensures !Upper(s[k])
    {
      if k < |t| {
        assert s[..k] == t[..k];
      } else if k > |t| {
        SlashIn(s, |t|, k);
      }
    }
  }

  lemma SlashIn(s: string, i: nat, k: nat)
    requires i < k <= |s| && s[i] == '/'
    ensures '/' in s[..k]
  {
    assert s[..k][i] == '/';
  }

  lemma PlainPath(path: string, k: string, junk: char)
    requires Steady(path) && PlainKey(k) && SteadyAt(k)
    ensures ComposedPath(path, k, junk) == path + "/" + k && Steady(path + "/" + k)
  {
    EncodedPlain(k, Leftover(k, junk));
    SteadyBelow(path, k);
  }

  lemma DecimalSteady(n: nat)
    ensures PlainKey(Decimal(n)) && SteadyAt(Decimal(n)) && PlainKey("-") && SteadyAt("-")
  {
  }

  lemma PlainSorted(ms: seq<Member>)
    requires PlainMembers(ms)
    ensures PlainMembers(SortMembers(ms, false))
  {
    var r := SortMembers(ms, false);
    SortPermutes(ms, KeyOf, false);
    SameMembers(r, ms);
    forall i | 0 <= i < |r|
      ensures PlainKey(r[i].key) && SteadyAt(r[i].key) && PlainKeys(r[i].value)
    {
      assert r[i] in ms;
    }
  }

  lemma {:induction false} DiffSteady(path: string, from: Json, to: Json, junk: char)
    requires Steady(path) && PlainKeys(from) && PlainKeys(to)
    ensures AllSteady(Diff(path, from, to, false, junk))
    decreases Weight(from), 0, 0
  {
    if SameType(from, to) && from.Array? {
      DiffItemsSteady(path, 0, from.items, to.items, junk);
    } else if SameType(from, to) && from.Object? {
      PlainSorted(from.members);
      PlainSorted(to.members);
      DiffMembersSteady(path, SortMembers(from.members, false), SortMembers(to.members, false), junk);
    }
  }

  predicate PlainItems(xs: seq<Json>) {
    forall i :: 0 <= i < |xs| ==> PlainKeys(xs[i])
  }

  lemma {:induction false} DiffItemsSteady(path: string, index: nat, from: seq<Json>, to: seq<Json>, junk: char)
    requires Steady(path) && PlainItems(from) && PlainItems(to)
    ensures AllSteady(DiffItems(path, index, from, to, false, junk))
    decreases ItemsWeight(from), 1, |from| + |to|
  {
    if from != [] && to != [] {
      CommonSteady(path, index, from, to, junk);
    } else if from != [] {
      var e := Edit("remove", ComposedPath(path, Decimal(index), junk), None);
      DecimalSteady(index);
      PlainPath(path, Decimal(index), junk);
      DiffItemsSteady(path, index, from[1..], to, junk);
      SteadySum([e], DiffItems(path, index, from[1..], to, false, junk));
    } else if to != [] {
      var e := Edit("add", ComposedPath(path, "-", junk), Some(to[0]));
      DecimalSteady(index);
      PlainPath(path, "-", junk);
      DiffItemsSteady(path, index + 1, from, to[1..], junk);
      SteadySum([e], DiffItems(path, index + 1, from, to[1..], false, junk));
    }
  }

  lemma {:induction false} CommonSteady(path: string, index: nat, from: seq<Json>, to: seq<Json>, junk: char)
    requires Steady(path) && PlainItems(from) && PlainItems(to) && from != [] && to != []
    ensures AllSteady(DiffItems(path, index, from, to, false, junk))
    decreases ItemsWeight(from), 1, |from| + |to|, 0
  {
    var p := path + "/" + Decimal(index);
    DecimalSteady(index);
    SteadyBelow(path, Decimal(index));
    DiffSteady(p, from[0], to[0], junk);
    DiffItemsSteady(path, index + 1, from[1..], to[1..], junk);
    SteadySum(Diff(p, from[0], to[0], false, junk), DiffItems(path, index + 1, from[1..], to[1..], false, junk));
  }

  lemma {:induction false} DiffMembersSteady(path: string, from: seq<Member>, to: seq<Member>, junk: char)
    requires Steady(path) && PlainMembers(from) && PlainMembers(to)
    ensures AllSteady(DiffMembers(path, from, to, false, junk))
    decreases MembersWeight(from), 1, |from| + |to|
  {
    if from != [] || to != [] {
      var diff := MergeOrder(from, to, false);
      if diff == 0 {
        var p := ComposedPath(path, from[0].key, junk);
        PlainPath(path, from[0].key, junk);
        DiffSteady(p, from[0].value, to[0].value, junk);
        DiffMembersSteady(path, from[1..], to[1..], junk);
        SteadySum(Diff(p, from[0].value, to[0].value, false, junk),
                  DiffMembers(path, from[1..], to[1..], false, junk));
      } else if diff < 0 {
        var e := Edit("remove", ComposedPath(path, from[0].key, junk), None);
        PlainPath(path, from[0].key, junk);
        DiffMembersSteady(path, from[1..], to, junk);
        SteadySum([e], DiffMembers(path, from[1..], to, false, junk));
      } else {
        var e := Edit("add", ComposedPath(path, to[0].key, junk), Some(to[0].value));
        PlainPath(path, to[0].key, junk);
        DiffMembersSteady(path, from, to[1..], junk);
        SteadySum([e], DiffMembers(path, from, to[1..], false, junk));
      }
    }
  }

  lemma SteadySum(a: seq<Edit>, b: seq<Edit>)
    requires AllSteady(a) && AllSteady(b)
    ensures AllSteady(a + b)
  {
  }

  lemma PlainLower(k: string)
    requires PlainKey(k)
    ensures PlainKey(Lower(k))
  {
    forall i | 0 <= i < |k|
      ensures Lower(k)[i] != '~' && Lower(k)[i] != '/' && Lower(k)[i] != NUL
    {
      LowerByte(k[i]);
    }
  }

  lemma {:induction false} PlainCoded(from: Json, to: Json, junk: char)
    requires PlainKeys(from) && PlainKeys(to)
    ensures Coded(Folded(from, false), Folded(to, false), junk)
    decreases from
  {
    var f, t := Folded(from, false), Folded(to, false);
    if SameType(f, t) && from.Array? {
      FoldedArray(from.items, false);
      FoldedArray(to.items, false);
      forall i | 0 <= i < |f.items| && i < |t.items|
        ensures Coded(f.items[i], t.items[i], junk)
      {
        PlainCoded(from.items[i], to.items[i], junk);
      }
    } else if SameType(f, t) && from.Object? {
      FoldedObject(from.members, false);
      FoldedObject(to.members, false);
      forall i | 0 <= i < |f.members|
        ensures CodedFrom(f.members[i], t.members, junk)
      {
        PlainCodedFrom(from.members[i], to.members, junk);
      }
      forall i | 0 <= i < |t.members|
        ensures CodedTo(f.members, t.members[i], junk)
      {
        PlainLower(to.members[i].key);
        PlainRestored(t.members[i].key, junk);
      }
    }
  }

  lemma {:induction false} PlainCodedFrom(m: Member, to: seq<Member>, junk: char)
    requires PlainKey(m.key) && PlainKeys(m.value) && PlainKeys(Object(to))
    ensures CodedFrom(FoldedMember(m, false), FoldedMembers(to, false), junk)
    decreases m
  {
    var j := IndexOf(FoldedMembers(to, false), Lower(m.key));
    PlainLower(m.key);
    PlainRestored(Lower(m.key), junk);
    if j != -1 {
      PlainCoded(m.value, to[j].value, junk);
    }
  }

  /** With such keys generating and applying while ignoring case reaches the target, keys folded, with status 0. */
  lemma BlindReaches(d: Json, from: Json, to: Json, junk: char)
    requires Comparable(d, false) && Comparable(from, false) && Comparable(to, false)
    requires Sized(from) && Sized(to) && FoldedAbs(d, false) == FoldedAbs(from, false)
    requires PlainKeys(from) && PlainKeys(to)
    ensures var r := ApplyPatches(d, GeneratePatches(from, to, false, junk), false);
      r.status == 0 && FoldedAbs(r.doc, false) == FoldedAbs(to, false)
  {
    hide Diff, Folded, Coded, Comparable, Sized;
    assert DecodedText("") == "";
    DiffSteady("", from, to, junk);
    PlainCoded(from, to, ToLower(junk));
    BlindDiffThenPatch(d, from, to, junk);
  }
}
