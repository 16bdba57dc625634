/**
 Lookups along any text, in both modes: what each token text selects, malformed escapes and misread indices
 included.
 */
module PointerTexts {
  import opened CStrings
  import opened Seqs
  import opened JsonValues
  import Compare
  import opened Pointers

  // ---------------------------------------------------------------- token texts

  /** The key a token text stands for: "~0" is '~', "~1" is '/', and every other '~' is malformed. */
  function Spelt(u: string): Option<string> {
    if u == "" then Some("")
    else if u[0] != '~' then InFront(u[0], Spelt(u[1..]))
    else if At(u, 1) == '0' then InFront('~', Spelt(u[2..]))
    else if At(u, 1) == '1' then InFront('/', Spelt(u[2..]))
    else None
  }

  function InFront(c: char, rest: Option<string>): Option<string> {
    if rest == None then None else Some([c] + rest.value)
  }

  /** The name is the key that the text stands for, letter case as the mode wants it. */
  predicate Names(name: string, u: string, cs: bool) {
    Spelt(u).Some? && Fold(name, cs) == Fold(Spelt(u).value, cs)
  }

  lemma NothingNames(u: string, cs: bool)
    requires u != ""
    ensures !Names("", u, cs)
  {
  }

  lemma NamesNothing(name: string, cs: bool)
    ensures Names(name, "", cs) <==> name == ""
  {
  }

  /** Folding goes byte by byte. */
  lemma FoldCons(c: char, s: string, cs: bool)
    ensures Fold([c] + s, cs) == [if cs then c else ToLower(c)] + Fold(s, cs)
    ensures Fold([c], cs) == [if cs then c else ToLower(c)]
  {
    ConsTail(c, s);
    assert Lower([c]) == [ToLower(c)] + Lower([c][1..]);
  }

  lemma SameFront(a: string, c: char, rest: Option<string>, cs: bool)
    requires a != "" && rest.Some?
    ensures Fold(a, cs) == Fold(InFront(c, rest).value, cs) <==>
      Fold([a[0]], cs) == Fold([c], cs) && Fold(a[1..], cs) == Fold(rest.value, cs)
  {
    hide Fold;
    HeadTail(a);
    FoldCons(a[0], a[1..], cs);
    FoldCons(c, rest.value, cs);
    var x, y := if cs then a[0] else ToLower(a[0]), if cs then c else ToLower(c);
    Compare.ConsEqual(x, Fold(a[1..], cs), y, Fold(rest.value, cs));
    Compare.ConsEqual(x, "", y, "");
    AppendNothing([x]);
    AppendNothing([y]);
  }

  /** `compare_pointers` on any token text. */
  lemma {:induction false} MatchesText(name: string, u: string, rest: string, cs: bool)
    requires Ends(rest) && '/' !in u
    ensures TokenMatches(name, u + rest, cs) <==> Names(name, u, cs)
    decreases |u|
  {
    var t := u + rest;
    if u == "" {
      assert t == rest;
      NamesNothing(name, cs);
    } else if name == "" {
      assert t[0] == u[0] && u[0] in u;
      NothingNames(u, cs);
    } else if u[0] == '~' {
      EscapeMatches(name, u, rest, cs);
    } else {
      assert t[0] == u[0] && u[0] in u && t[1..] == u[1..] + rest;
      MatchesText(name[1..], u[1..], rest, cs);
      if Spelt(u[1..]).Some? {
        SameFront(name, u[0], Spelt(u[1..]), cs);
      }
    }
  }

  lemma {:induction false} EscapeMatches(name: string, u: string, rest: string, cs: bool)
    requires Ends(rest) && '/' !in u && u != "" && u[0] == '~' && name != ""
    ensures TokenMatches(name, u + rest, cs) <==> Names(name, u, cs)
    decreases |u|, 0
  {
    var t := u + rest;
    assert t[0] == '~' && (|u| > 1 ==> t[1] == u[1]) && (|u| == 1 ==> At(t, 1) != '0' && At(t, 1) != '1');
    if At(u, 1) == '0' || At(u, 1) == '1' {
      var c := if At(u, 1) == '0' then '~' else '/';
      assert t[2..] == u[2..] + rest;
      MatchesText(name[1..], u[2..], rest, cs);
      if Spelt(u[2..]).Some? {
        SameFront(name, c, Spelt(u[2..]), cs);
        SpecialFold(name[0], c, cs);
      }
    }
  }

  lemma SpecialFold(a: char, c: char, cs: bool)
    requires c == '~' || c == '/'
    ensures Fold([a], cs) == Fold([c], cs) <==> a == c
  {
    assert [a][0] == a && [c][0] == c;
    assert Lower([a]) == [ToLower(a)] + Lower([a][1..]) && Lower([c]) == [ToLower(c)] + Lower([c][1..]);
  }

  // ---------------------------------------------------------------- one step

  /** The index a token text is read as. */
  function TextIndex(u: string): Option<nat> {
    if IndexAgrees(u) then RfcIndex(u)
    else
      var n: nat := DigitsValue(u) % SIZE_T;
      Some(n)
  }

  /** The first member that the token text names. */
  function FirstNamed(ms: seq<Member>, u: string, cs: bool): (r: Option<nat>)
    ensures r.Some? ==> r.value < |ms| && Names(ms[r.value].key, u, cs)
    ensures forall k :: 0 <= k < (if r.Some? then r.value else |ms|) ==> !Names(ms[k].key, u, cs)
  {
    if ms == [] then None
    else if Names(ms[0].key, u, cs) then Some(0)
    else
      var r := FirstNamed(ms[1..], u, cs);
      if r.Some? then Some(r.value + 1) else None
  }

  function Step(j: Json, u: string, cs: bool): (r: Option<nat>)
    ensures r.Some? ==> HasChild(j, r.value)
  {
    match j
    case Array(items) =>
      var i := TextIndex(u);
      if i.Some? && i.value < |items| then i else None
    case Object(ms) => FirstNamed(ms, u, cs)
    case _ => None
  }

  lemma {:induction false} MemberStep(ms: seq<Member>, u: string, rest: string, cs: bool)
    requires Ends(rest) && '/' !in u
    ensures FirstNamed(ms, u, cs) == if FirstMatch(ms, u + rest, cs) == -1 then None
      else Some(FirstMatch(ms, u + rest, cs))
  {
    if ms != [] {
      MatchesText(ms[0].key, u, rest, cs);
      MemberStep(ms[1..], u, rest, cs);
    }
  }

  lemma IndexStep(u: string, rest: string)
    requires Ends(rest) && '/' !in u && NUL !in u
    ensures DecodeIndex(u + rest) == TextIndex(u)
  {
    forall i | 0 <= i < |u|
      ensures u[i] != '/' && u[i] != NUL
    {
      assert u[i] in u;
    }
    if IndexAgrees(u) {
      DecodeIndexExact(u, rest);
    } else {
      MisreadIndex(u, rest);
    }
  }

  /** The child that any token text selects. */
  lemma TextStep(j: Json, u: string, rest: string, cs: bool)
    requires Ends(rest) && '/' !in u && NUL !in u
    ensures ChildAt(j, u + rest, cs) == Step(j, u, cs)
  {
    if j.Array? {
      IndexStep(u, rest);
    } else if j.Object? {
      MemberStep(j.members, u, rest, cs);
    }
  }

  // ---------------------------------------------------------------- whole pointers

  function Joined(us: seq<string>): (p: string)
    ensures Ends(p)
  {
    if us == [] then "" else "/" + (us[0] + Joined(us[1..]))
  }

  ghost predicate Texts(us: seq<string>) {
    forall u :: u in us ==> '/' !in u && NUL !in u
  }

  /** The node that one token text after the other selects. */
  function Follow(j: Json, us: seq<string>, cs: bool): Option<Address>
    decreases |us|
  {
    if us == [] then Some([])
    else
      var i := Step(j, us[0], cs);
      if i == None then None else After([i.value], Follow(Child(j, i.value), us[1..], cs))
  }

  lemma {:induction false} JoinedFollows(j: Json, us: seq<string>, cs: bool)
    requires Texts(us)
    ensures Locate(j, Joined(us), cs) == Follow(j, us, cs)
    decreases |us|
  {
    if us != [] {
      var u, rest := us[0], Joined(us[1..]);
      assert u in us && Joined(us)[1..] == u + rest;
      TextStep(j, u, rest, cs);
      forall i | 0 <= i < |u|
        ensures u[i] != '/'
      {
        assert u[i] in u;
      }
      SkipsToken(u, rest);
      var i := Step(j, u, cs);
      if i != None {
        JoinedFollows(Child(j, i.value), us[1..], cs);
      }
    }
  }

  lemma {:induction false} CutTexts(p: string) returns (us: seq<string>)
    requires Ends(p) && NUL !in p
    ensures Texts(us) && Joined(us) == p
    decreases |p|
  {
    if p == "" {
      us := [];
    } else {
      var t := p[1..];
      var e := TokenEnd(t);
      var more := CutTexts(t[e..]);
      us := [t[..e]] + more;
      ConsTail(t[..e], more);
      assert t == t[..e] + t[e..] && p == "/" + t;
    }
  }

  /**
   `get_item_from_pointer` on any text: what does not start with a slash names the node itself; any other text is
   token texts behind slashes, and they are followed one by one.
   */
  lemma LookupTexts(j: Json, p: string, cs: bool) returns (us: seq<string>)
    requires NUL !in p
    ensures !Ends(p) ==> Locate(j, p, cs) == Some([])
    ensures Ends(p) ==> Texts(us) && Joined(us) == p && Locate(j, p, cs) == Follow(j, us, cs)
  {
    us := [];
    if Ends(p) {
      us := CutTexts(p);
      JoinedFollows(j, us, cs);
    }
  }
}
