/**
 Paths that do not name their nodes: if generation writes one, applying the patches does not reach the target.
 */
module PatchMiscoded {
  import opened CStrings
  import opened Seqs
  import opened Sorting
  import opened JsonValues
  import opened Pointers
  import opened PointerEncoding
  import opened KeyCoding
  import opened Compare
  import opened MemberLists
  import opened Patches
  import opened PatchCoding
  import opened PatchLocality
  import opened PatchRoundTrip
  import opened KeyRanks
  import opened PatchKeeps
  import PatchLimits

  // ---------------------------------------------------------------- where the edits of an object come from

  ghost predicate Added(from: seq<Member>, to: seq<Member>, k: string) {
    ValueAt(from, k) == None && ValueAt(to, k) != None
  }

  ghost predicate Removed(from: seq<Member>, to: seq<Member>, k: string) {
    ValueAt(from, k) != None && ValueAt(to, k) == None
  }

  ghost predicate Common(from: seq<Member>, to: seq<Member>, k: string) {
    ValueAt(from, k) != None && ValueAt(to, k) != None
  }

  ghost predicate Renewed(from: seq<Member>, to: seq<Member>, k: string) {
    Common(from, to, k) && Replaced(ValueAt(from, k).value, ValueAt(to, k).value)
  }

  ghost predicate Edited(from: seq<Member>, to: seq<Member>, k: string) {
    Common(from, to, k) && !Renewed(from, to, k) && Abs(ValueAt(from, k).value) != Abs(ValueAt(to, k).value)
  }

  ghost predicate Below(q: string, p: string) {
    |q| > |p| && q[..|p|] == p && q[|p|] == '/'
  }

  /** The edit e is written for the key k. */
  ghost predicate EditFor(e: Edit, k: string, from: seq<Member>, to: seq<Member>, junk: char) {
    var p := "/" + Token(k, junk);
    OpOf(e) != InvalidOp &&
    if Edited(from, to, k) then Below(e.path, p)
    else (Added(from, to, k) || Removed(from, to, k) || Renewed(from, to, k)) && e.path == p
  }

  /** Every edit is written for some key, and for another than `but`. */
  ghost predicate AllFor(es: seq<Edit>, from: seq<Member>, to: seq<Member>, junk: char, but: Option<string>) {
    forall e :: e in es ==> exists k :: EditFor(e, k, from, to, junk) && but != Some(k)
  }

  ghost predicate OnlyFor(es: seq<Edit>, k: string, from: seq<Member>, to: seq<Member>, junk: char) {
    forall e :: e in es ==> EditFor(e, k, from, to, junk)
  }

  lemma OnlyThenAll(a: seq<Edit>, k: string, b: seq<Edit>, from: seq<Member>, to: seq<Member>, junk: char,
          but: Option<string>)
    requires OnlyFor(a, k, from, to, junk) && but != Some(k) && AllFor(b, from, to, junk, but)
    ensures AllFor(a + b, from, to, junk, but)
  {
    forall e | e in a + b
      ensures exists x :: EditFor(e, x, from, to, junk) && but != Some(x)
    {
      if e in a {
        assert EditFor(e, k, from, to, junk);
      }
    }
  }

  /** Looking up the keys of what is left of two lists gives what it gives in the whole lists. */
  ghost predicate SameView(fs: seq<Member>, ts: seq<Member>, from: seq<Member>, to: seq<Member>) {
    forall k :: k in Keys(fs) + Keys(ts) ==> ValueAt(fs, k) == ValueAt(from, k) && ValueAt(ts, k) == ValueAt(to, k)
  }

  lemma TailValue(ms: seq<Member>, k: string)
    requires ms != [] && k != ms[0].key
    ensures ValueAt(ms, k) == ValueAt(ms[1..], k)
  {
    assert IndexOf(ms, k) == if IndexOf(ms[1..], k) == -1 then -1 else IndexOf(ms[1..], k) + 1;
  }

  lemma ViewTail(fs: seq<Member>, ts: seq<Member>, gs: seq<Member>, us: seq<Member>, from: seq<Member>, to: seq<Member>)
    requires SameView(fs, ts, from, to)
    requires gs == fs || (fs != [] && gs == fs[1..] && fs[0].key !in Keys(gs) + Keys(us))
    requires us == ts || (ts != [] && us == ts[1..] && ts[0].key !in Keys(gs) + Keys(us))
    ensures SameView(gs, us, from, to)
  {
    forall k | k in Keys(gs) + Keys(us)
      ensures ValueAt(gs, k) == ValueAt(from, k) && ValueAt(us, k) == ValueAt(to, k)
    {
      if gs != fs {
        TailValue(fs, k);
        KeysOfTail(fs);
      }
      if us != ts {
        TailValue(ts, k);
        KeysOfTail(ts);
      }
    }
  }

  lemma KeysOfTail(ms: seq<Member>)
    requires ms != []
    ensures Keys(ms[1..]) <= Keys(ms)
  {
    HeadTail(ms);
    KeysCons(ms[0], ms[1..]);
  }

  /** The edits of one common member. */
  lemma CommonFor(k: string, f: Json, t: Json, from: seq<Member>, to: seq<Member>, junk: char)
    requires Unique(f) && Unique(t) && ValueAt(from, k) == Some(f) && ValueAt(to, k) == Some(t)
    ensures OnlyFor(Diff(ComposedPath("", k, junk), f, t, true, junk), k, from, to, junk)
  {
    var p, es := "/" + Token(k, junk), Diff("", f, t, true, junk);
    ComposedAtRoot(k, junk);
    if Abs(f) == Abs(t) && !Replaced(f, t) {
      DiffSame(p, f, t, junk);
    } else {
      EditsInner(f, t, junk);
      DiffMovesDown(p, "", f, t, junk);
      AppendNothing(p);
      var ps := Prefixed(p, es);
      forall e | e in ps
        ensures EditFor(e, k, from, to, junk)
      {
        var i :| 0 <= i < |ps| && ps[i] == e;
        assert e == Prefix(p, es[i]);
        PrefixFor(p, es[i]);
      }
    }
  }

  lemma PrefixFor(p: string, e: Edit)
    ensures e.path == "" ==> Prefix(p, e).path == p
    ensures e.path != "" && e.path[0] == '/' ==> Below(Prefix(p, e).path, p)
  {
  }

  lemma HeadValue(ms: seq<Member>)
    requires ms != []
    ensures ms[0].key in Keys(ms) && ValueAt(ms, ms[0].key) == Some(ms[0].value)
  {
  }

  /** What is left of the two sorted lists, part way along the walk. */
  ghost predicate Walking(fs: seq<Member>, ts: seq<Member>, from: seq<Member>, to: seq<Member>) {
    Increasing(fs) && Increasing(ts) && SameView(fs, ts, from, to) &&
    (forall i :: 0 <= i < |fs| ==> Unique(fs[i].value)) && forall i :: 0 <= i < |ts| ==> Unique(ts[i].value)
  }

  /** What one turn of the walk takes off the lists: the key k, with the edits written for it. */
  datatype Turn = Turn(k: string, es: seq<Edit>, gs: seq<Member>, us: seq<Member>)

  ghost predicate KeyOff(ms: seq<Member>, rs: seq<Member>, k: string) {
    (k in Keys(ms) && ms != [] && rs == ms[1..] && ms[0].key == k) || (k !in Keys(ms) && rs == ms)
  }

  ghost predicate Off(fs: seq<Member>, ts: seq<Member>, from: seq<Member>, to: seq<Member>, gs: seq<Member>,
    us: seq<Member>, k: string) {
    Walking(gs, us, from, to) && KeyOff(fs, gs, k) && KeyOff(ts, us, k) && |gs| + |us| < |fs| + |ts|
  }

  ghost predicate Turns(fs: seq<Member>, ts: seq<Member>, from: seq<Member>, to: seq<Member>, junk: char, s: Turn) {
    Off(fs, ts, from, to, s.gs, s.us, s.k) && OnlyFor(s.es, s.k, from, to, junk) &&
    DiffMembers("", fs, ts, true, junk) == s.es + DiffMembers("", s.gs, s.us, true, junk) &&
    (s.k in Keys(fs) && s.k in Keys(ts) ==>
      Common(from, to, s.k) &&
      s.es == Diff(ComposedPath("", s.k, junk), ValueAt(from, s.k).value, ValueAt(to, s.k).value, true, junk))
  }

  lemma CommonOff(fs: seq<Member>, ts: seq<Member>, from: seq<Member>, to: seq<Member>)
    requires Walking(fs, ts, from, to) && fs != [] && ts != [] && fs[0].key == ts[0].key
    ensures Off(fs, ts, from, to, fs[1..], ts[1..], fs[0].key)
    ensures ValueAt(from, fs[0].key) == Some(fs[0].value) && ValueAt(to, fs[0].key) == Some(ts[0].value)
  {
    HeadValue(fs);
    HeadValue(ts);
    HeadAbsentFromTail(fs);
    HeadAbsentFromTail(ts);
    ViewTail(fs, ts, fs[1..], ts[1..], from, to);
  }

  lemma RemovedOff(fs: seq<Member>, ts: seq<Member>, from: seq<Member>, to: seq<Member>)
    requires Walking(fs, ts, from, to) && fs != [] && MergeOrder(fs, ts, true) < 0
    ensures Off(fs, ts, from, to, fs[1..], ts, fs[0].key) && Removed(from, to, fs[0].key) && fs[0].key !in Keys(ts)
  {
    HeadValue(fs);
    HeadAbsentFromTail(fs);
    SmallerKeyAbsent(fs[0].key, ts);
    ViewTail(fs, ts, fs[1..], ts, from, to);
  }

  lemma AddedOff(fs: seq<Member>, ts: seq<Member>, from: seq<Member>, to: seq<Member>)
    requires Walking(fs, ts, from, to) && ts != [] && MergeOrder(fs, ts, true) > 0
    ensures Off(fs, ts, from, to, fs, ts[1..], ts[0].key) && Added(from, to, ts[0].key) && ts[0].key !in Keys(fs)
  {
    HeadValue(ts);
    HeadAbsentFromTail(ts);
    NewKeyAbsent(fs, ts);
    ViewTail(fs, ts, fs, ts[1..], from, to);
  }

  lemma OnlyOne(e: Edit, k: string, from: seq<Member>, to: seq<Member>, junk: char)
    requires OpOf(e) != InvalidOp && (Added(from, to, k) || Removed(from, to, k)) && e.path == ComposedPath("", k, junk)
    ensures OnlyFor([e], k, from, to, junk)
  {
    ComposedAtRoot(k, junk);
  }

  lemma CommonTurn(fs: seq<Member>, ts: seq<Member>, from: seq<Member>, to: seq<Member>, junk: char) returns (s: Turn)
    requires Walking(fs, ts, from, to) && fs != [] && ts != [] && MergeOrder(fs, ts, true) == 0
    ensures Turns(fs, ts, from, to, junk, s)
  {
    var k := fs[0].key;
    CompareTotal(k, ts[0].key, true);
    CommonOff(fs, ts, from, to);
    CommonFor(k, fs[0].value, ts[0].value, from, to, junk);
    s := Turn(k, Diff(ComposedPath("", k, junk), fs[0].value, ts[0].value, true, junk), fs[1..], ts[1..]);
  }

  lemma RemovedTurn(fs: seq<Member>, ts: seq<Member>, from: seq<Member>, to: seq<Member>, junk: char)
    returns (s: Turn)
    requires Walking(fs, ts, from, to) && fs != [] && MergeOrder(fs, ts, true) < 0
    ensures Turns(fs, ts, from, to, junk, s)
  {
    var k := fs[0].key;
    RemovedOff(fs, ts, from, to);
    s := Turn(k, [Edit("remove", ComposedPath("", k, junk), None)], fs[1..], ts);
    OnlyOne(s.es[0], k, from, to, junk);
  }

  lemma AddedTurn(fs: seq<Member>, ts: seq<Member>, from: seq<Member>, to: seq<Member>, junk: char) returns (s: Turn)
    requires Walking(fs, ts, from, to) && ts != [] && MergeOrder(fs, ts, true) > 0
    ensures Turns(fs, ts, from, to, junk, s)
  {
    var k := ts[0].key;
    AddedOff(fs, ts, from, to);
    s := Turn(k, [Edit("add", ComposedPath("", k, junk), Some(ts[0].value))], fs, ts[1..]);
    OnlyOne(s.es[0], k, from, to, junk);
  }

  lemma OneTurn(fs: seq<Member>, ts: seq<Member>, from: seq<Member>, to: seq<Member>, junk: char) returns (s: Turn)
    requires Walking(fs, ts, from, to) && (fs != [] || ts != [])
    ensures Turns(fs, ts, from, to, junk, s)
  {
    var diff := MergeOrder(fs, ts, true);
    if diff == 0 {
      s := CommonTurn(fs, ts, from, to, junk);
    } else if diff < 0 {
      s := RemovedTurn(fs, ts, from, to, junk);
    } else {
      s := AddedTurn(fs, ts, from, to, junk);
    }
  }

  lemma KeyStays(ms: seq<Member>, rs: seq<Member>, k: string, c: string)
    requires KeyOff(ms, rs, k) && c != k
    ensures c in Keys(ms) <==> c in Keys(rs)
  {
    if rs != ms {
      KeysOfTail(ms);
      if c in Keys(ms) {
        TailKeys(ms, c);
      }
    }
  }

  lemma KeyGone(ms: seq<Member>, rs: seq<Member>, k: string)
    requires KeyOff(ms, rs, k) && Increasing(ms)
    ensures k !in Keys(rs)
  {
    if rs != ms {
      HeadAbsentFromTail(ms);
    }
  }

  /** Every edit is written for a key of the lists. */
  lemma {:induction false} EditsFor(fs: seq<Member>, ts: seq<Member>, from: seq<Member>, to: seq<Member>, junk: char,
          but: Option<string>)
    requires Walking(fs, ts, from, to) && (but.Some? ==> but.value !in Keys(fs) && but.value !in Keys(ts))
    ensures AllFor(DiffMembers("", fs, ts, true, junk), from, to, junk, but)
    decreases |fs| + |ts|
  {
    if fs != [] || ts != [] {
      var s := OneTurn(fs, ts, from, to, junk);
      NotBut(fs, ts, s, but);
      EditsFor(s.gs, s.us, from, to, junk, but);
      OnlyThenAll(s.es, s.k, DiffMembers("", s.gs, s.us, true, junk), from, to, junk, but);
    }
  }

  lemma NotBut(fs: seq<Member>, ts: seq<Member>, s: Turn, but: Option<string>)
    requires KeyOff(fs, s.gs, s.k) && KeyOff(ts, s.us, s.k) && |s.gs| + |s.us| < |fs| + |ts|
    requires but.Some? ==> but.value !in Keys(fs) && but.value !in Keys(ts)
    ensures but != Some(s.k) && (but.Some? ==> but.value !in Keys(s.gs) && but.value !in Keys(s.us))
  {
    if but.Some? {
      KeyStays(fs, s.gs, s.k, but.value);
      KeyStays(ts, s.us, s.k, but.value);
    }
  }

  /** The edits of one common member stand together, with edits for other keys around them. */
  ghost predicate Around(es: seq<Edit>, from: seq<Member>, to: seq<Member>, junk: char, c: string, pre: seq<Edit>,
    post: seq<Edit>) {
    Common(from, to, c) &&
    es == pre + (Diff(ComposedPath("", c, junk), ValueAt(from, c).value, ValueAt(to, c).value, true, junk) + post) &&
    AllFor(pre, from, to, junk, Some(c)) && AllFor(post, from, to, junk, Some(c))
  }

  lemma {:induction false} EditsAround(fs: seq<Member>, ts: seq<Member>, from: seq<Member>, to: seq<Member>, junk: char,
          c: string) returns (pre: seq<Edit>, post: seq<Edit>)
    requires Walking(fs, ts, from, to) && c in Keys(fs) && c in Keys(ts)
    ensures Around(DiffMembers("", fs, ts, true, junk), from, to, junk, c, pre, post)
    decreases |fs| + |ts|
  {
    var s := OneTurn(fs, ts, from, to, junk);
    if s.k == c {
      KeyGone(fs, s.gs, c);
      KeyGone(ts, s.us, c);
      EditsFor(s.gs, s.us, from, to, junk, Some(c));
      pre, post := [], DiffMembers("", s.gs, s.us, true, junk);
      AppendNothing(s.es + post);
    } else {
      KeyStays(fs, s.gs, s.k, c);
      KeyStays(ts, s.us, s.k, c);
      pre, post := EditsAround(s.gs, s.us, from, to, junk, c);
      PutAround(DiffMembers("", s.gs, s.us, true, junk), s, from, to, junk, c, pre, post);
      pre := s.es + pre;
    }
  }

  lemma PutAround(es: seq<Edit>, s: Turn, from: seq<Member>, to: seq<Member>, junk: char, c: string, pre: seq<Edit>,
          post: seq<Edit>)
    requires Around(es, from, to, junk, c, pre, post) && OnlyFor(s.es, s.k, from, to, junk) && s.k != c
    ensures Around(s.es + es, from, to, junk, c, s.es + pre, post)
  {
    OnlyThenAll(s.es, s.k, pre, from, to, junk, Some(c));
    AppendAssociates(s.es, pre, Diff(ComposedPath("", c, junk), ValueAt(from, c).value, ValueAt(to, c).value, true,
                                     junk) + post);
  }

  // ---------------------------------------------------------------- keys whose paths name something else

  /** A key that is not named as it has to be: by decoding where it is added, removed or renewed, by comparing where
      it is passed through. */
  ghost predicate Bad(from: seq<Member>, to: seq<Member>, junk: char, k: string) {
    ((Added(from, to, k) || Removed(from, to, k) || Renewed(from, to, k)) && !Restored(k, junk)) ||
    (Edited(from, to, k) && !Passed(k, junk))
  }

  /** No bad key comes before g. */
  ghost predicate FirstBad(from: seq<Member>, to: seq<Member>, junk: char, g: string) {
    Bad(from, to, junk, g) && forall k :: Bad(from, to, junk, k) ==> Rank(g, junk) <= Rank(k, junk)
  }

  lemma {:induction false} SomeFirst(from: seq<Member>, to: seq<Member>, junk: char, k: string) returns (g: string)
    requires Bad(from, to, junk, k)
    ensures FirstBad(from, to, junk, g)
    decreases Rank(k, junk)
  {
    if x :| Bad(from, to, junk, x) && Rank(x, junk) < Rank(k, junk) {
      g := SomeFirst(from, to, junk, x);
    } else {
      g := k;
    }
  }

  ghost predicate Clear(ms: seq<Member>) {
    forall k :: ValueAt(ms, k) != None ==> NUL !in k
  }

  lemma TokenPath(t: string)
    requires '/' !in t
    ensures LastSlash("/" + t) == 0 && ChildToken("/" + t) == DecodedText(t)
  {
    OneToken(t);
  }

  lemma SlashPath(t: string)
    requires '/' in t
    ensures LastSlash("/" + t) > 0
  {
    var i :| 0 <= i < |t| && t[i] == '/';
    assert ("/" + t)[i + 1] == '/';
    SlashFound("/" + t, i + 1);
  }

  lemma BelowIsDeep(q: string, p: string)
    requires Below(q, p) && p != ""
    ensures LastSlash(q) >= |p|
  {
    SlashFound(q, |p|);
  }

  /** The first of the bad keys is named by no path. */
  lemma NamesNotFirst(e: Edit, k: string, from: seq<Member>, to: seq<Member>, junk: char, g: string)
    requires EditFor(e, k, from, to, junk) && FirstBad(from, to, junk, g) && Clear(from) && Clear(to)
    ensures !Names(e.path, g)
  {
    var t := Token(k, junk);
    if Edited(from, to, k) {
      BelowIsDeep(e.path, "/" + t);
    } else if '/' in t {
      SlashPath(t);
    } else {
      TokenPath(t);
      if DecodedText(t) == g {
        if Restored(k, junk) {
          RestoredToken(k, junk);
        } else {
          NamesLater(k, g, junk);
          assert Bad(from, to, junk, k);
        }
      }
    }
  }

  /** If it is to be removed, it is not detached either. */
  lemma TakesNotFirst(e: Edit, k: string, from: seq<Member>, to: seq<Member>, junk: char, g: string)
    requires EditFor(e, k, from, to, junk) && FirstBad(from, to, junk, g) && Clear(from) && Clear(to)
    requires Removed(from, to, g)
    ensures !Takes(e.path, g)
  {
    var t := Token(k, junk);
    if Edited(from, to, k) {
      BelowIsDeep(e.path, "/" + t);
    } else if '/' in t {
      SlashPath(t);
    } else {
      TokenPath(t);
      var h := DecodedText(t);
      if Lower(h) == Lower(g) {
        AlikeRestored(h, g, junk);
        AlikeRank(h, g, junk);
        if Restored(k, junk) {
          RestoredToken(k, junk);
        } else {
          NamesLater(k, h, junk);
          assert Bad(from, to, junk, k);
        }
      }
    }
  }

  /** A token that matches up to a '/' matches as a whole. */
  lemma {:induction false} MatchesWhole(g: string, t: string, x: nat)
    requires x < |t| && t[x] == '/' && TokenMatches(g, t[..x], true)
    ensures TokenMatches(g, t, true)
    decreases |g|
  {
    if g != "" && !Ends(t[..x]) {
      if t[0] == '~' {
        assert At(t[..x], 1) == At(t, 1) && x >= 2;
        assert t[..x][2..] == t[2..][..x - 2];
        MatchesWhole(g[1..], t[2..], x - 2);
      } else {
        assert t[..x][1..] == t[1..][..x - 1];
        MatchesWhole(g[1..], t[1..], x - 1);
      }
    }
  }

  lemma SlashNotPassed(k: string, junk: char)
    requires NUL !in k && '/' in Token(k, junk)
    ensures !Passed(k, junk) && !Restored(k, junk)
  {
    if Passed(k, junk) {
      PassedToken(k, junk);
      EscapeHasNoSlash(k);
    }
    if Restored(k, junk) {
      RestoredToken(k, junk);
    }
  }

  /** What a path that goes on below the key k has in front of its last '/'. */
  lemma BelowParent(q: string, t: string) returns (rest: string)
    requires Below(q, "/" + t)
    ensures LastSlash(q) > 0 && q[1..LastSlash(q)] == t + rest && Ends(rest)
  {
    var p := "/" + t;
    BelowIsDeep(q, p);
    var x := LastSlash(q);
    rest := q[|p|..x];
    assert q[..x] == p + rest;
    assert (p + rest)[1..] == t + rest;
    assert q[1..x] == q[..x][1..];
  }

  /** The first of the bad keys is not entered, if it is one to be edited. */
  lemma EntersNotFirst(e: Edit, k: string, from: seq<Member>, to: seq<Member>, junk: char, g: string)
    requires EditFor(e, k, from, to, junk) && FirstBad(from, to, junk, g) && Clear(from) && Clear(to)
    requires Edited(from, to, g)
    ensures !Enters(e.path, g)
  {
    var t := Token(k, junk);
    if Edited(from, to, k) {
      var rest := BelowParent(e.path, t);
      if TokenMatches(g, t + rest, true) {
        if Passed(k, junk) {
          PassedToken(k, junk);
          MatchesEscaped(g, k, rest);
        } else {
          MatchesLater(k, g, rest, junk);
          assert Bad(from, to, junk, k);
        }
      }
    } else if '/' in t {
      SlashNotPassed(k, junk);
      if Enters(e.path, g) {
        EntersWhole(t, g);
        AppendNothing(t);
        MatchesLater(k, g, "", junk);
        assert Bad(from, to, junk, k);
      }
    } else {
      TokenPath(t);
    }
  }

  lemma EntersWhole(t: string, g: string)
    requires Enters("/" + t, g)
    ensures TokenMatches(g, t, true)
  {
    var q := "/" + t;
    var x := LastSlash(q);
    assert q[1..x] == t[..x - 1] && t[x - 1] == '/';
    MatchesWhole(g, t, x - 1);
  }

  // ---------------------------------------------------------------- a bad key spoils the object

  lemma FieldsValue(ms: seq<Member>, k: string)
    ensures k in Fields(ms) <==> ValueAt(ms, k) != None
    ensures k in Fields(ms) ==> Fields(ms)[k] == Abs(ValueAt(ms, k).value)
  {
  }

  lemma ShapeDiffers(f: Json, d: Json, v: Json, t: Json)
    requires Abs(d) == Abs(f) && Shape(v) == Shape(d) && Replaced(f, t)
    ensures Abs(v) != Abs(t)
  {
    SameValueKept(f, d);
    if Abs(v) == Abs(t) {
      SameValueKept(v, t);
    }
  }

  /** A tree with the same value is not one that is replaced as a whole. */
  lemma SameValueKept(a: Json, b: Json)
    requires Abs(a) == Abs(b)
    ensures !Replaced(a, b)
  {
  }

  lemma NotNamed(es: seq<Edit>, from: seq<Member>, to: seq<Member>, junk: char, g: string)
    requires AllFor(es, from, to, junk, None) && FirstBad(from, to, junk, g) && Clear(from) && Clear(to)
    ensures NoneNames(es, g)
  {
    forall e | e in es
      ensures !Names(e.path, g)
    {
      var k :| EditFor(e, k, from, to, junk);
      NamesNotFirst(e, k, from, to, junk, g);
    }
  }

  lemma NotTaken(es: seq<Edit>, from: seq<Member>, to: seq<Member>, junk: char, g: string)
    requires AllFor(es, from, to, junk, None) && FirstBad(from, to, junk, g) && Clear(from) && Clear(to)
    requires Removed(from, to, g)
    ensures NoneTakes(es, g)
  {
    forall e | e in es
      ensures !Takes(e.path, g)
    {
      var k :| EditFor(e, k, from, to, junk);
      TakesNotFirst(e, k, from, to, junk, g);
    }
  }

  lemma NotEntered(es: seq<Edit>, from: seq<Member>, to: seq<Member>, junk: char, g: string)
    requires AllFor(es, from, to, junk, None) && FirstBad(from, to, junk, g) && Clear(from) && Clear(to)
    requires Edited(from, to, g)
    ensures NoneEnters(es, g)
  {
    forall e | e in es
      ensures !Enters(e.path, g)
    {
      var k :| EditFor(e, k, from, to, junk);
      EntersNotFirst(e, k, from, to, junk, g);
    }
  }

  /** The first of the bad keys does not get what the target has under it. */
  lemma FirstBadSpoils(ms: seq<Member>, rs: seq<Member>, es: seq<Edit>, from: seq<Member>, to: seq<Member>, junk: char,
          g: string)
    requires AllFor(es, from, to, junk, None) && FirstBad(from, to, junk, g) && Clear(from) && Clear(to)
    requires Fields(ms) == Fields(from) && RunKeeps(ms, rs, es, g)
    ensures Fields(rs) != Fields(to)
  {
    FieldsValue(ms, g);
    FieldsValue(from, g);
    FieldsValue(rs, g);
    FieldsValue(to, g);
    NotNamed(es, from, to, junk, g);
    if Removed(from, to, g) {
      NotTaken(es, from, to, junk, g);
    } else if Renewed(from, to, g) {
      if ValueAt(rs, g) != None {
        ShapeDiffers(ValueAt(from, g).value, ValueAt(ms, g).value, ValueAt(rs, g).value, ValueAt(to, g).value);
      }
    } else if Edited(from, to, g) {
      NotEntered(es, from, to, junk, g);
    }
  }

  lemma BadSpoils(ms: seq<Member>, es: seq<Edit>, from: seq<Member>, to: seq<Member>, junk: char, k: string)
    requires AllFor(es, from, to, junk, None) && Bad(from, to, junk, k) && Clear(from) && Clear(to)
    requires UniqueKeys(ms) && Fields(ms) == Fields(from) && Generated(es) && Inner(es)
    ensures var r := ApplyEdits(Object(ms), es); r.doc.Object? && Fields(r.doc.members) != Fields(to)
  {
    var g := SomeFirst(from, to, junk, k);
    EditsKeep(ms, es, g);
    FirstBadSpoils(ms, ApplyEdits(Object(ms), es).doc.members, es, from, to, junk, g);
  }

  // ---------------------------------------------------------------- a child that is not reached spoils the object

  ghost predicate NoneBad(from: seq<Member>, to: seq<Member>, junk: char) {
    forall k :: !Bad(from, to, junk, k)
  }

  lemma NamedElsewhere(e: Edit, k: string, from: seq<Member>, to: seq<Member>, junk: char, c: string)
    requires EditFor(e, k, from, to, junk) && k != c && NoneBad(from, to, junk) && Clear(from) && Clear(to)
    ensures !Names(e.path, c) && !Enters(e.path, c)
  {
    var t := Token(k, junk);
    assert !Bad(from, to, junk, k);
    if Edited(from, to, k) {
      var rest := BelowParent(e.path, t);
      PassedToken(k, junk);
      MatchesEscaped(c, k, rest);
    } else {
      RestoredToken(k, junk);
      TokenPath(t);
    }
  }

  lemma AllElsewhere(es: seq<Edit>, from: seq<Member>, to: seq<Member>, junk: char, c: string)
    requires AllFor(es, from, to, junk, Some(c)) && NoneBad(from, to, junk) && Clear(from) && Clear(to)
    ensures NoneNames(es, c) && NoneEnters(es, c)
  {
    forall e | e in es
      ensures !Names(e.path, c) && !Enters(e.path, c)
    {
      var k :| EditFor(e, k, from, to, junk) && k != c;
      NamedElsewhere(e, k, from, to, junk, c);
    }
  }

  /** The edits of one child, applied where the child is, fail or do not reach t. */
  ghost predicate Misses(d: Json, from: Json, to: Json, junk: char) {
    var es := Diff("", from, to, true, junk);
    Generated(es) && !(ApplyEdits(d, es).status == 0 && Abs(ApplyEdits(d, es).doc) == Abs(to))
  }

  /** The edits of the child c, then edits elsewhere. */
  lemma ChildMissed(ms: seq<Member>, c: string, from: Json, to: Json, junk: char, post: seq<Edit>)
    requires UniqueKeys(ms) && NUL !in c && Passed(c, junk) && !Replaced(from, to) && ValueAt(ms, c) != None
    requires Misses(ValueAt(ms, c).value, from, to, junk)
    requires Generated(post) && Inner(post) && NoneNames(post, c) && NoneEnters(post, c)
    ensures var es := Diff(ComposedPath("", c, junk), from, to, true, junk) + post;
      Generated(es) && (ApplyEdits(Object(ms), es).status == 0 ==> var d := ApplyEdits(Object(ms), es).doc;
        d.Object? && (ValueAt(d.members, c) == None || Abs(ValueAt(d.members, c).value) != Abs(to)))
  {
    var i, es := IndexOf(ms, c), Diff("", from, to, true, junk);
    var p := ComposedPath("", c, junk);
    ComposedAtRoot(c, junk);
    DiffMovesDown(p, "", from, to, junk);
    AppendNothing(p);
    EditsInner(from, to, junk);
    KeySelects(ms, i, junk);
    EditsAreLocal(Object(ms), Token(c, junk), i, es);
    ApplyEditsSum(Object(ms), Prefixed(p, es), post);
    var r := ApplyEdits(ms[i].value, es);
    if r.status == 0 {
      UpdatedKeys(ms, i, r.doc);
      ValueAfterUpdate(ms, i, r.doc, c);
      assert SetChild(Object(ms), i, r.doc) == Object(Updated(ms, i, r.doc));
      EditsKeep(Updated(ms, i, r.doc), post, c);
    }
  }

  lemma PartsGenerated(a: seq<Edit>, b: seq<Edit>)
    requires Generated(a + b) && Inner(a + b)
    ensures Generated(a) && Inner(a) && Generated(b) && Inner(b)
  {
    assert forall i :: 0 <= i < |a| ==> (a + b)[i] == a[i];
    assert forall i :: 0 <= i < |b| ==> (a + b)[|a| + i] == b[i];
  }

  lemma AbsentMember(ms: seq<Member>, es: seq<Edit>, c: string)
    requires UniqueKeys(ms) && Generated(es) && Inner(es) && NoneNames(es, c) && ValueAt(ms, c) == None
    ensures var d := ApplyEdits(Object(ms), es).doc; d.Object? && ValueAt(d.members, c) == None
  {
    EditsKeep(ms, es, c);
  }

  lemma OwnEditsBelow(mid: seq<Edit>, post: seq<Edit>, from: seq<Member>, to: seq<Member>, junk: char, c: string)
    requires OnlyFor(mid, c, from, to, junk) && Edited(from, to, c) && NoneNames(post, c)
    ensures NoneNames(mid + post, c)
  {
    forall e | e in mid + post
      ensures !Names(e.path, c)
    {
      if e in mid {
        BelowIsDeep(e.path, "/" + Token(c, junk));
      }
    }
  }

  ghost predicate Lost(d: Json, c: string, t: Json) {
    d.Object? && (ValueAt(d.members, c) == None || Abs(ValueAt(d.members, c).value) != Abs(t))
  }

  /** Edits elsewhere, then the edits of the child c, then edits elsewhere. */
  lemma ChildLost(ms: seq<Member>, from: seq<Member>, to: seq<Member>, junk: char, c: string, pre: seq<Edit>,
          mid: seq<Edit>, post: seq<Edit>)
    requires UniqueKeys(ms) && Edited(from, to, c) && NUL !in c && Passed(c, junk) && ValueAt(ms, c) != None
    requires mid == Diff(ComposedPath("", c, junk), ValueAt(from, c).value, ValueAt(to, c).value, true, junk)
    requires Misses(ValueAt(ms, c).value, ValueAt(from, c).value, ValueAt(to, c).value, junk)
    requires Generated(pre + (mid + post)) && Inner(pre + (mid + post)) && OnlyFor(mid, c, from, to, junk)
    requires NoneNames(pre, c) && NoneEnters(pre, c) && NoneNames(post, c) && NoneEnters(post, c)
    ensures var r := ApplyEdits(Object(ms), pre + (mid + post)); r.status == 0 ==> Lost(r.doc, c, ValueAt(to, c).value)
  {
    PartsGenerated(pre, mid + post);
    PartsGenerated(mid, post);
    ApplyEditsSum(Object(ms), pre, mid + post);
    EditsKeep(ms, pre, c);
    var r := ApplyEdits(Object(ms), pre);
    if r.status == 0 {
      if ValueAt(r.doc.members, c) == None {
        OwnEditsBelow(mid, post, from, to, junk, c);
        AbsentMember(r.doc.members, mid + post, c);
      } else {
        ChildMissed(r.doc.members, c, ValueAt(from, c).value, ValueAt(to, c).value, junk, post);
      }
    }
  }

  lemma LostDiffers(d: Json, c: string, to: seq<Member>)
    requires ValueAt(to, c) != None && Lost(d, c, ValueAt(to, c).value)
    ensures Abs(d) != Abs(Object(to))
  {
    FieldsValue(d.members, c);
    FieldsValue(to, c);
    AbsObject(d.members);
    AbsObject(to);
  }

  // ---------------------------------------------------------------- one object

  lemma SortedValues(ms: seq<Member>)
    requires UniqueKeys(ms)
    ensures var ss := SortMembers(ms, true);
      Keys(ss) == Keys(ms) && forall k :: ValueAt(ss, k) == ValueAt(ms, k)
  {
    var ss := SortMembers(ms, true);
    SortPermutes(ms, KeyOf, true);
    SameMembers(ss, ms);
    UniqueDistinct(ms);
    SortedStrictly(ms, true);
    PermutedFields(ms, ss);
    forall k
      ensures ValueAt(ss, k) == ValueAt(ms, k)
    {
      PermutedTarget(ms, ss, k);
    }
  }

  lemma StartWalking(from: seq<Member>, to: seq<Member>)
    requires Unique(Object(from)) && Unique(Object(to))
    ensures Walking(SortMembers(from, true), SortMembers(to, true), from, to)
  {
    SortedValues(from);
    SortedValues(to);
    UniqueDistinct(from);
    UniqueDistinct(to);
    SortedStrictly(from, true);
    SortedStrictly(to, true);
    SortedUnique(from);
    SortedUnique(to);
  }

  lemma ObjectEdits(from: seq<Member>, to: seq<Member>, junk: char)
    requires Unique(Object(from)) && Unique(Object(to))
    ensures var es := Diff("", Object(from), Object(to), true, junk);
      Generated(es) && Inner(es) && AllFor(es, from, to, junk, None)
  {
    EditsInner(Object(from), Object(to), junk);
    StartWalking(from, to);
    EditsFor(SortMembers(from, true), SortMembers(to, true), from, to, junk, None);
  }

  lemma SizedClear(ms: seq<Member>)
    requires Sized(Object(ms))
    ensures Clear(ms)
  {
  }

  lemma BadObject(ms: seq<Member>, from: seq<Member>, to: seq<Member>, junk: char, k: string)
    requires UniqueKeys(ms) && Fields(ms) == Fields(from) && Unique(Object(from)) && Unique(Object(to))
    requires Sized(Object(from)) && Sized(Object(to)) && Bad(from, to, junk, k)
    ensures Misses(Object(ms), Object(from), Object(to), junk)
  {
    var es := Diff("", Object(from), Object(to), true, junk);
    ObjectEdits(from, to, junk);
    SizedClear(from);
    SizedClear(to);
    BadSpoils(ms, es, from, to, junk, k);
    AbsObject(ApplyEdits(Object(ms), es).doc.members);
    AbsObject(to);
  }

  lemma MissedObject(ms: seq<Member>, from: seq<Member>, to: seq<Member>, junk: char, c: string)
    requires UniqueKeys(ms) && Unique(Object(from)) && Unique(Object(to)) && ValueAt(ms, c) != None
    requires Sized(Object(from)) && Sized(Object(to)) && NoneBad(from, to, junk) && Edited(from, to, c)
    requires Misses(ValueAt(ms, c).value, ValueAt(from, c).value, ValueAt(to, c).value, junk)
    ensures Misses(Object(ms), Object(from), Object(to), junk)
  {
    var es, fs, ts := Diff("", Object(from), Object(to), true, junk), SortMembers(from, true), SortMembers(to, true);
    ObjectEdits(from, to, junk);
    StartWalking(from, to);
    SortedValues(from);
    SortedValues(to);
    var pre, post := EditsAround(fs, ts, from, to, junk, c);
    SizedClear(from);
    SizedClear(to);
    AllElsewhere(pre, from, to, junk, c);
    AllElsewhere(post, from, to, junk, c);
    assert !Bad(from, to, junk, c);
    ChildUnique(from, c);
    ChildUnique(to, c);
    CommonFor(c, ValueAt(from, c).value, ValueAt(to, c).value, from, to, junk);
    var mid := Diff(ComposedPath("", c, junk), ValueAt(from, c).value, ValueAt(to, c).value, true, junk);
    ChildLost(ms, from, to, junk, c, pre, mid, post);
    var r := ApplyEdits(Object(ms), es);
    if r.status == 0 {
      LostDiffers(r.doc, c, to);
    }
  }

  lemma ChildUnique(ms: seq<Member>, c: string)
    requires Unique(Object(ms)) && ValueAt(ms, c) != None
    ensures Unique(ValueAt(ms, c).value) && Weight(ValueAt(ms, c).value) < Weight(Object(ms))
  {
    MemberLighter(ms, IndexOf(ms, c));
  }

  lemma UncodedFrom(from: seq<Member>, to: seq<Member>, junk: char, i: nat)
    requires UniqueKeys(from) && i < |from| && !CodedFrom(from[i], to, junk)
    ensures var c := from[i].key;
      Bad(from, to, junk, c) || (Edited(from, to, c) && !Coded(ValueAt(from, c).value, ValueAt(to, c).value, junk))
  {
    var c := from[i].key;
    ValueAtIs(from, i);
    if IndexOf(to, c) == -1 {
      assert Removed(from, to, c);
    } else {
      var t := to[IndexOf(to, c)].value;
      assert ValueAt(to, c) == Some(t) && Common(from, to, c);
      assert !CodedCommon(from[i], t, junk);
    }
  }

  /** Where the condition fails at a pair of objects: at a bad key, or below a child that is passed through. */
  lemma WhereUncoded(from: seq<Member>, to: seq<Member>, junk: char) returns (c: string)
    requires UniqueKeys(from) && UniqueKeys(to) && !Coded(Object(from), Object(to), junk)
    ensures Bad(from, to, junk, c) ||
      (Edited(from, to, c) && !Coded(ValueAt(from, c).value, ValueAt(to, c).value, junk))
  {
    if i :| 0 <= i < |from| && !CodedFrom(from[i], to, junk) {
      c := from[i].key;
      ValueAtIs(from, i);
      UncodedFrom(from, to, junk, i);
    } else {
      var j :| 0 <= j < |to| && !CodedTo(from, to[j], junk);
      c := to[j].key;
      ValueAtIs(to, j);
    }
  }

  // ---------------------------------------------------------------- arrays

  /** What the edits of the first item that is left do, if the own edits of that item end in `child`. */
  ghost predicate HeadDone(done: seq<Json>, ds: seq<Json>, es: seq<Edit>, child: Outcome)
    requires ds != []
  {
    Generated(es) &&
    var r := ApplyEdits(Array(done + ds), es);
    r.status == child.status && (r.status == 0 ==> r.doc == Array((done + [child.doc]) + ds[1..]))
  }

  lemma HeadReplaced(done: seq<Json>, ds: seq<Json>, to: Json)
    requires ds != [] && |done| + |ds| < SIZE_T
    ensures HeadDone(done, ds, [Edit("replace", "/" + Decimal(|done|), Some(to))], Outcome(0, to))
  {
    var items, n := done + ds, |done|;
    var e := Edit("replace", "/" + Decimal(n), Some(to));
    ReplaceItem(items, n, to);
    ApplyEditsOne(Array(items), e);
    SetInMiddle(done, ds, to);
  }

  lemma HeadInPlace(done: seq<Json>, ds: seq<Json>, own: seq<Edit>)
    requires ds != [] && |done| + |ds| < SIZE_T && Generated(own) && Inner(own)
    ensures HeadDone(done, ds, Prefixed("/" + Decimal(|done|), own), ApplyEdits(ds[0], own))
  {
    var items, n := done + ds, |done|;
    assert items[n] == ds[0];
    IndexSelects(items, n);
    EditsAreLocal(Array(items), Decimal(n), n, own);
    SetInMiddle(done, ds, ApplyEdits(ds[0], own).doc);
  }

  lemma ItemPrefix(n: nat, from: Json, to: Json, junk: char)
    ensures Diff("" + "/" + Decimal(n), from, to, true, junk) ==
      Prefixed("/" + Decimal(n), Diff("", from, to, true, junk))
  {
    var p := "/" + Decimal(n);
    assert "" + "/" == "/";
    DiffMovesDown(p, "", from, to, junk);
    AppendNothing(p);
  }

  lemma ReplaceRoot(d: Json, to: Json)
    ensures ApplyEdits(d, [Edit("replace", "", Some(to))]) == Outcome(0, to)
  {
    ApplyEditsOne(d, Edit("replace", "", Some(to)));
  }

  /** The edits of the first item that is left act on that item. */
  lemma HeadEdits(done: seq<Json>, ds: seq<Json>, from: Json, to: Json, junk: char)
    requires ds != [] && |done| + |ds| < SIZE_T
    ensures Generated(Diff("", from, to, true, junk))
    ensures HeadDone(done, ds, Diff("" + "/" + Decimal(|done|), from, to, true, junk),
                     ApplyEdits(ds[0], Diff("", from, to, true, junk)))
  {
    var own := Diff("", from, to, true, junk);
    ItemPrefix(|done|, from, to, junk);
    EditsInner(from, to, junk);
    if Replaced(from, to) {
      PrefixedRoot("/" + Decimal(|done|), to);
      HeadReplaced(done, ds, to);
      ReplaceRoot(ds[0], to);
    } else {
      HeadInPlace(done, ds, own);
    }
  }

  lemma SurplusEdit(done: seq<Json>, ds: seq<Json>, junk: char)
    requires ds != [] && |done| + |ds| < SIZE_T
    ensures ApplyEdits(Array(done + ds), [Edit("remove", ComposedPath("", Decimal(|done|), junk), None)]) ==
      Outcome(0, Array(done + ds[1..]))
  {
    RemoveItem(done + ds, |done|, junk);
    assert RemoveIndex(done + ds, |done|) == done + ds[1..];
    ApplyEditsOne(Array(done + ds), Edit("remove", ComposedPath("", Decimal(|done|), junk), None));
  }

  lemma NewEdit(done: seq<Json>, t: Json, junk: char)
    ensures ApplyEdits(Array(done + []), [Edit("add", ComposedPath("", "-", junk), Some(t))]) ==
      Outcome(0, Array((done + [t]) + []))
  {
    AppendNothing(done);
    AppendNothing(done + [t]);
    AppendItem(done, t, junk);
    ApplyEditsOne(Array(done), Edit("add", ComposedPath("", "-", junk), Some(t)));
  }

  ghost predicate Starts(d: Json, done: seq<Json>) {
    d.Array? && done <= d.items
  }

  lemma StartsShorter(d: Json, done: seq<Json>, v: Json)
    requires Starts(d, done + [v])
    ensures Starts(d, done) && d.items[|done|] == v
  {
    assert (done + [v])[|done|] == v;
  }

  ghost predicate Fits(done: seq<Json>, ds: seq<Json>, from: seq<Json>, to: seq<Json>) {
    |ds| == |from| && |done| + |from| < SIZE_T && |done| + |to| < SIZE_T
  }

  ghost predicate Stay(done: seq<Json>, ds: seq<Json>, es: seq<Edit>) {
    Generated(es) && var r := ApplyEdits(Array(done + ds), es); r.status == 0 ==> Starts(r.doc, done)
  }

  /** One more item dealt with, then edits that leave it as it is. */
  lemma StayThrough(done: seq<Json>, ds: seq<Json>, first: seq<Edit>, v: Json, rest: seq<Json>, es: seq<Edit>)
    requires Generated(first) && Stay(done + [v], rest, es)
    requires var r := ApplyEdits(Array(done + ds), first); r.status == 0 ==> r.doc == Array((done + [v]) + rest)
    ensures Stay(done, ds, first + es)
  {
    ApplyEditsSum(Array(done + ds), first, es);
    var r := ApplyEdits(Array(done + ds), first + es);
    if r.status == 0 {
      StartsShorter(r.doc, done, v);
    }
  }

  /** Edits that leave alone what has been dealt with, then edits that do so. */
  lemma StayAfter(done: seq<Json>, ds: seq<Json>, first: seq<Edit>, rest: seq<Json>, es: seq<Edit>)
    requires Generated(first) && Stay(done, rest, es)
    requires ApplyEdits(Array(done + ds), first) == Outcome(0, Array(done + rest))
    ensures Stay(done, ds, first + es)
  {
    ReachesThrough(Array(done + ds), Array(done + rest), first, es);
  }

  lemma BothStay(done: seq<Json>, ds: seq<Json>, from: seq<Json>, to: seq<Json>, junk: char, v: Json)
    requires Fits(done, ds, from, to) && from != [] && to != [] && Generated(Diff("", from[0], to[0], true, junk))
    requires v == ApplyEdits(ds[0], Diff("", from[0], to[0], true, junk)).doc
    requires Stay(done + [v], ds[1..], DiffItems("", |done + [v]|, from[1..], to[1..], true, junk))
    ensures Stay(done, ds, DiffItems("", |done|, from, to, true, junk))
  {
    assert |done + [v]| == |done| + 1;
    var w := ApplyHead(done, ds, from[0], to[0], junk);
    StayThrough(done, ds, Diff("" + "/" + Decimal(|done|), from[0], to[0], true, junk), v, ds[1..],
                DiffItems("", |done| + 1, from[1..], to[1..], true, junk));
  }

  lemma SurplusStays(done: seq<Json>, ds: seq<Json>, from: seq<Json>, to: seq<Json>, junk: char)
    requires Fits(done, ds, from, to) && from != [] && to == []
    requires Stay(done, ds[1..], DiffItems("", |done|, from[1..], to, true, junk))
    ensures Stay(done, ds, DiffItems("", |done|, from, to, true, junk))
  {
    SurplusEdit(done, ds, junk);
    StayAfter(done, ds, [Edit("remove", ComposedPath("", Decimal(|done|), junk), None)], ds[1..],
              DiffItems("", |done|, from[1..], to, true, junk));
  }

  lemma NewStays(done: seq<Json>, ds: seq<Json>, from: seq<Json>, to: seq<Json>, junk: char)
    requires Fits(done, ds, from, to) && from == [] && to != []
    requires Stay(done + [to[0]], ds, DiffItems("", |done + [to[0]]|, from, to[1..], true, junk))
    ensures Stay(done, ds, DiffItems("", |done|, from, to, true, junk))
  {
    assert ds == [] && |done + [to[0]]| == |done| + 1;
    NewEdit(done, to[0], junk);
    StayThrough(done, ds, [Edit("add", ComposedPath("", "-", junk), Some(to[0]))], to[0], ds,
                DiffItems("", |done| + 1, from, to[1..], true, junk));
  }

  /** Items that have been dealt with stay as they are. */
  lemma {:induction false} ItemsStay(done: seq<Json>, ds: seq<Json>, from: seq<Json>, to: seq<Json>, junk: char)
    requires Fits(done, ds, from, to)
    ensures Stay(done, ds, DiffItems("", |done|, from, to, true, junk))
    decreases |from| + |to|
  {
    if from != [] && to != [] {
      var v := ApplyHead(done, ds, from[0], to[0], junk);
      ItemsStay(done + [v], ds[1..], from[1..], to[1..], junk);
      BothStay(done, ds, from, to, junk, v);
    } else if from != [] {
      ItemsStay(done, ds[1..], from[1..], to, junk);
      SurplusStays(done, ds, from, to, junk);
    } else if to != [] {
      ItemsStay(done + [to[0]], ds, from, to[1..], junk);
      NewStays(done, ds, from, to, junk);
    }
  }

  /** The value that the edits of the first item that is left give it. */
  lemma ApplyHead(done: seq<Json>, ds: seq<Json>, from: Json, to: Json, junk: char) returns (v: Json)
    requires ds != [] && |done| + |ds| < SIZE_T
    ensures var own := Diff("", from, to, true, junk); Generated(own) && v == ApplyEdits(ds[0], own).doc
    ensures var es := Diff("" + "/" + Decimal(|done|), from, to, true, junk);
      Generated(es) && var r := ApplyEdits(Array(done + ds), es);
      r.status == ApplyEdits(ds[0], Diff("", from, to, true, junk)).status &&
      (r.status == 0 ==> r.doc == Array((done + [v]) + ds[1..]))
  {
    HeadEdits(done, ds, from, to, junk);
    v := ApplyEdits(ds[0], Diff("", from, to, true, junk)).doc;
  }

  // ---------------------------------------------------------------- the theorem

  ghost predicate Uncoded(d: Json, from: Json, to: Json, junk: char) {
    Abs(d) == Abs(from) && Unique(d) && Unique(from) && Unique(to) && Sized(from) && Sized(to) && !Coded(from, to, junk)
  }

  ghost predicate UncodedItems(done: seq<Json>, ds: seq<Json>, from: seq<Json>, to: seq<Json>, junk: char) {
    Values(ds) == Values(from) && Fits(done, ds, from, to) &&
    (forall i :: 0 <= i < |ds| ==> Unique(ds[i])) &&
    (forall i :: 0 <= i < |from| ==> Unique(from[i]) && Sized(from[i])) &&
    (forall i :: 0 <= i < |to| ==> Unique(to[i]) && Sized(to[i])) &&
    exists i :: 0 <= i < |from| && i < |to| && !Coded(from[i], to[i], junk)
  }

  lemma UncodedHead(done: seq<Json>, ds: seq<Json>, from: seq<Json>, to: seq<Json>, junk: char, v: Json)
    requires UncodedItems(done, ds, from, to, junk)
    ensures from != [] && to != [] && ds != []
    ensures Uncoded(ds[0], from[0], to[0], junk) || UncodedItems(done + [v], ds[1..], from[1..], to[1..], junk)
  {
    assert |Values(ds)| == |ds| && |Values(from)| == |from|;
    assert Values(ds)[0] == Abs(ds[0]) && Values(from)[0] == Abs(from[0]);
    assert Values(ds[1..]) == Values(ds)[1..] && Values(from[1..]) == Values(from)[1..];
    var i :| 0 <= i < |from| && i < |to| && !Coded(from[i], to[i], junk);
    if i > 0 {
      assert from[1..][i - 1] == from[i] && to[1..][i - 1] == to[i];
    }
  }

  /** The edits of what is left of an array fail or do not reach the values of `to` behind `done`. */
  ghost predicate ItemsMiss(done: seq<Json>, ds: seq<Json>, from: seq<Json>, to: seq<Json>, junk: char) {
    var es := DiffItems("", |done|, from, to, true, junk);
    Generated(es) &&
    !(ApplyEdits(Array(done + ds), es).status == 0 &&
      Abs(ApplyEdits(Array(done + ds), es).doc) == VArray(Values(done) + Values(to)))
  }

  lemma {:induction false} UncodedMisses(d: Json, from: Json, to: Json, junk: char)
    requires Uncoded(d, from, to, junk)
    ensures Misses(d, from, to, junk)
    decreases Weight(from), 0, 1
  {
    if from.Array? {
      AbsArray(from.items);
      AbsArray(d.items);
      AbsArray(to.items);
      UncodedStart(d.items, from.items, to.items, junk);
      UncodedItemsMiss([], d.items, from.items, to.items, junk);
      AppendNothing(d.items);
      AppendNothing(Values(to.items));
    } else {
      AbsObject(d.members);
      AbsObject(from.members);
      UncodedObject(d.members, from.members, to.members, junk);
    }
  }

  lemma UncodedStart(ds: seq<Json>, from: seq<Json>, to: seq<Json>, junk: char)
    requires Uncoded(Array(ds), Array(from), Array(to), junk)
    ensures UncodedItems([], ds, from, to, junk)
  {
    AbsArray(ds);
    AbsArray(from);
    assert |Values(ds)| == |ds| && |Values(from)| == |from|;
  }

  lemma {:induction false} UncodedObject(ds: seq<Member>, from: seq<Member>, to: seq<Member>, junk: char)
    requires Uncoded(Object(ds), Object(from), Object(to), junk) && Fields(ds) == Fields(from)
    ensures Misses(Object(ds), Object(from), Object(to), junk)
    decreases Weight(Object(from)), 0, 0
  {
    if k :| Bad(from, to, junk, k) {
      BadObject(ds, from, to, junk, k);
    } else {
      var c := WhereUncoded(from, to, junk);
      UncodedChild(ds, from, to, junk, c);
      ChildUnique(from, c);
      UncodedMisses(ValueAt(ds, c).value, ValueAt(from, c).value, ValueAt(to, c).value, junk);
      MissedObject(ds, from, to, junk, c);
    }
  }

  lemma UncodedChild(ds: seq<Member>, from: seq<Member>, to: seq<Member>, junk: char, c: string)
    requires Uncoded(Object(ds), Object(from), Object(to), junk) && Fields(ds) == Fields(from)
    requires Edited(from, to, c) && !Coded(ValueAt(from, c).value, ValueAt(to, c).value, junk)
    ensures ValueAt(ds, c) != None
    ensures Uncoded(ValueAt(ds, c).value, ValueAt(from, c).value, ValueAt(to, c).value, junk)
  {
    FieldsValue(ds, c);
    FieldsValue(from, c);
    ChildUnique(ds, c);
    ChildUnique(from, c);
    ChildUnique(to, c);
  }

  lemma {:induction false} UncodedItemsMiss(done: seq<Json>, ds: seq<Json>, from: seq<Json>, to: seq<Json>,
          junk: char)
    requires UncodedItems(done, ds, from, to, junk)
    ensures ItemsMiss(done, ds, from, to, junk)
    decreases ItemsWeight(from), 1, |from| + |to|
  {
    UncodedHead(done, ds, from, to, junk, Null);
    var v := ApplyHead(done, ds, from[0], to[0], junk);
    if Uncoded(ds[0], from[0], to[0], junk) {
      UncodedMisses(ds[0], from[0], to[0], junk);
      HeadMissed(done, ds, from, to, junk, v);
    } else {
      UncodedHead(done, ds, from, to, junk, v);
      UncodedItemsMiss(done + [v], ds[1..], from[1..], to[1..], junk);
      if Abs(v) == Abs(to[0]) {
        TailMissed(done, ds, from, to, junk, v);
      } else {
        HeadMissed(done, ds, from, to, junk, v);
      }
    }
  }

  /** What is left behind the first item, after its edits. */
  lemma BehindHead(done: seq<Json>, ds: seq<Json>, from: seq<Json>, to: seq<Json>, junk: char, v: Json)
    requires Fits(done, ds, from, to) && from != [] && to != []
    requires Generated(Diff("", from[0], to[0], true, junk))
    requires v == ApplyEdits(ds[0], Diff("", from[0], to[0], true, junk)).doc
    ensures var own := ApplyEdits(ds[0], Diff("", from[0], to[0], true, junk));
      var es := DiffItems("", |done|, from, to, true, junk);
      var rest := DiffItems("", |done + [v]|, from[1..], to[1..], true, junk);
      Generated(es) && Generated(rest) &&
      (ApplyEdits(Array(done + ds), es).status == 0 ==>
        own.status == 0 && ApplyEdits(Array(done + ds), es) == ApplyEdits(Array((done + [v]) + ds[1..]), rest))
  {
    var w := ApplyHead(done, ds, from[0], to[0], junk);
    var rest := DiffItems("", |done| + 1, from[1..], to[1..], true, junk);
    assert |done + [v]| == |done| + 1;
    DiffItemsGenerated("", |done| + 1, from[1..], to[1..], junk);
    ApplyEditsSum(Array(done + ds), Diff("" + "/" + Decimal(|done|), from[0], to[0], true, junk), rest);
  }

  lemma HeadMissed(done: seq<Json>, ds: seq<Json>, from: seq<Json>, to: seq<Json>, junk: char, v: Json)
    requires Fits(done, ds, from, to) && from != [] && to != []
    requires Generated(Diff("", from[0], to[0], true, junk))
    requires var own := ApplyEdits(ds[0], Diff("", from[0], to[0], true, junk));
      v == own.doc && !(own.status == 0 && Abs(v) == Abs(to[0]))
    ensures ItemsMiss(done, ds, from, to, junk)
  {
    BehindHead(done, ds, from, to, junk, v);
    ItemsStay(done + [v], ds[1..], from[1..], to[1..], junk);
    var r := ApplyEdits(Array(done + ds), DiffItems("", |done|, from, to, true, junk));
    if r.status == 0 {
      WrongItem(r.doc, done, v, to);
    }
  }

  lemma WrongItem(d: Json, done: seq<Json>, v: Json, to: seq<Json>)
    requires Starts(d, done + [v]) && to != [] && Abs(v) != Abs(to[0])
    ensures Abs(d) != VArray(Values(done) + Values(to))
  {
    StartsShorter(d, done, v);
    AbsArray(d.items);
    assert Values(d.items)[|done|] == Abs(v);
    assert (Values(done) + Values(to))[|done|] == Abs(to[0]);
  }

  lemma TailMissed(done: seq<Json>, ds: seq<Json>, from: seq<Json>, to: seq<Json>, junk: char, v: Json)
    requires Fits(done, ds, from, to) && from != [] && to != [] && Abs(v) == Abs(to[0])
    requires Generated(Diff("", from[0], to[0], true, junk))
    requires v == ApplyEdits(ds[0], Diff("", from[0], to[0], true, junk)).doc
    requires ItemsMiss(done + [v], ds[1..], from[1..], to[1..], junk)
    ensures ItemsMiss(done, ds, from, to, junk)
  {
    BehindHead(done, ds, from, to, junk, v);
    ValuesSnoc(done, v, to);
  }

  /**
   For every document with the value of the source: if some path that generation writes does not name its node,
   applying the patches fails or leaves another value than that of the target.
   */
  lemma MiscodedFails(d: Json, from: Json, to: Json, junk: char)
    requires Abs(d) == Abs(from) && Unique(d) && Unique(from) && Unique(to) && Sized(from) && Sized(to)
    requires !Coded(from, to, junk)
    ensures var r := ApplyPatches(d, GeneratePatches(from, to, true, junk), true);
      !(r.status == 0 && Abs(r.doc) == Abs(to))
  {
    UncodedMisses(d, from, to, junk);
    ComposedAllApply(d, Diff("", from, to, true, junk));
  }

  /**
   For every document d with the value of the source, and a source without keys that differ in letter case only:
   applying the generated patches reaches the target if and only if every path names its node.
   */
  lemma DiffThenPatchIff(d: Json, from: Json, to: Json, junk: char)
    requires Abs(d) == Abs(from) && Unique(d) && FoldOk(from) && Unique(to) && Sized(from) && Sized(to)
    ensures var r := ApplyPatches(d, GeneratePatches(from, to, true, junk), true);
      r.status == 0 && Abs(r.doc) == Abs(to) <==> Coded(from, to, junk)
  {
    if Coded(from, to, junk) {
      DiffThenPatch(d, from, to, junk);
    } else {
      FoldOkUnique(from);
      MiscodedFails(d, from, to, junk);
    }
  }

  /** A key that is written wrongly is not named by its own path, in whatever letter case. */
  lemma TakesAnother(k: string, junk: char)
    requires NUL !in k && !Restored(k, junk)
    ensures !Takes("/" + Token(k, junk), k)
  {
    var t := Token(k, junk);
    if '/' in t {
      SlashPath(t);
    } else {
      TokenPath(t);
      var h := DecodedText(t);
      if Lower(h) == Lower(k) {
        AlikeRestored(h, k, junk);
        NamesLater(k, h, junk);
        AlikeRank(h, k, junk);
      }
    }
  }

  /**
   Removing a member by the path that is generated for it removes exactly that member if and only if its key is
   written so that it is read back, and no earlier key equals it up to case.
   */
  lemma RemovalExactly(ms: seq<Member>, i: nat, junk: char)
    requires UniqueKeys(ms) && i < |ms| && NUL !in ms[i].key
    ensures var r := ApplyEdit(Object(ms), Edit("remove", ComposedPath("", ms[i].key, junk), None));
      (r.status == 0 && Abs(r.doc) == VObject(Fields(ms) - {ms[i].key})) <==>
      (Restored(ms[i].key, junk) && Safe(ms, ms[i].key))
  {
    var k := ms[i].key;
    if Restored(k, junk) {
      PatchLimits.RemoveExactly(ms, i, junk);
    } else {
      var e := Edit("remove", ComposedPath("", k, junk), None);
      ComposedAtRoot(k, junk);
      TakesAnother(k, junk);
      OneEditKeeps(ms, e);
      StillKept(ms, ApplyEdit(Object(ms), e).doc.members, i);
    }
  }

  lemma StillKept(ms: seq<Member>, rs: seq<Member>, i: nat)
    requires UniqueKeys(ms) && i < |ms| && (ValueAt(ms, ms[i].key) != None ==> ValueAt(rs, ms[i].key) != None)
    ensures Abs(Object(rs)) != VObject(Fields(ms) - {ms[i].key})
  {
    ValueAtIs(ms, i);
    FieldsValue(rs, ms[i].key);
    AbsObject(rs);
  }

  lemma TildeRead()
    ensures DecodedText("~1a") == "~/"
  {
    var m := ['~', '1', 'a', NUL];
    assert "~1a" + [NUL] == m;
    var m1 := m[1 := '/'];
    assert Decoded(m, 0, 0) == Decoded(m1, 1, 2) == m1[2 := NUL];
    assert m1[2 := NUL] == ['~', '/', NUL, NUL];
    HeadCStr(['~', '/'], [NUL, NUL]);
    assert ['~', '/'] + [NUL, NUL] == ['~', '/', NUL, NUL];
  }

  lemma TildeToken(junk: char)
    ensures Token("~a", junk) == "~1a" && !Restored("~a", junk) && ComposedPath("", "~a", junk) == "/~1a"
  {
    TokenIs("~a", junk);
    assert "~a"[1..] == "a" && "a"[1..] == "";
    assert Written("a", junk) == "a";
    ComposedAtRoot("~a", junk);
  }

  lemma OneAdded(t: Member, junk: char)
    ensures Diff("", Object([]), Object([t]), true, junk) == [Edit("add", ComposedPath("", t.key, junk), Some(t.value))]
  {
    assert SortMembers([t], true) == [t];
    assert [t][1..] == [];
    assert DiffMembers("", [], [], true, junk) == [];
  }

  lemma AddsTilde()
    ensures ApplyEdit(Object([]), Edit("add", "/~1a", Some(Null))) == Outcome(0, Object([Member("~/", Null)]))
  {
    assert "/" + "~1a" == "/~1a" && '/' !in "~1a";
    TildeRead();
    TokenPath("~1a");
    ShallowAdd([], "/~1a", Null);
    assert [] + [Member("~/", Null)] == [Member("~/", Null)];
  }

  /** One run that goes wrong: the member "~a" is added as "~/", and the status is 0. */
  lemma TildeKeyLost(junk: char)
    ensures var from, to := Object([]), Object([Member("~a", Null)]);
      ApplyPatches(from, GeneratePatches(from, to, true, junk), true) == Outcome(0, Object([Member("~/", Null)])) &&
      !Coded(from, to, junk)
  {
    var t, e := Member("~a", Null), Edit("add", "/~1a", Some(Null));
    TildeToken(junk);
    OneAdded(t, junk);
    AddsTilde();
    ApplyEditsOne(Object([]), e);
    ComposedAllApply(Object([]), [e]);
    assert IndexOf([], "~a") == -1 && !CodedTo([], t, junk) && [t][0] == t;
  }
}
