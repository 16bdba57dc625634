/**
 Keys that are written wrongly can still be named by the segment of another key. This order on keys makes the
 other key come first, so among finitely many such keys one is named by none.
 */
module KeyRanks {
  import opened CStrings
  import opened Seqs
  import opened Pointers
  import opened PointerEncoding
  import opened KeyCoding
  import opened PatchCoding

  /** For junk that cuts the text off at a '/' (NUL) or makes it a separator ('/'). */
  function CutRank(k: string): nat {
    if k == "" then 0
    else if k[0] == '/' then 3
    else if k[0] == '~' then (if |k| == 1 then 2 else if k[1] == '/' then 1 else 0)
    else CutRank(k[1..])
  }

  function SlashRun(k: string): (n: nat)
    ensures n <= |k|
  {
    if k != "" && k[0] == '/' then 1 + SlashRun(k[1..]) else 0
  }

  /** For junk that makes an escape of every '/' ('~'). */
  function TildeRun(k: string): (n: nat)
    ensures n <= |k|
  {
    if k == "" || k[0] == '/' then 0
    else if k[0] == '~' then 1 + SlashRun(k[1..])
    else TildeRun(k[1..])
  }

  function Rank(k: string, junk: char): nat {
    if junk == '~' then (if k != "" && k[0] == '/' then |k| + 2 else TildeRun(k))
    else if junk == NUL || junk == '/' then CutRank(k)
    else 2 * |k| + if '~' !in k then 2 else if '/' in k then 1 else 0
  }

  // ---------------------------------------------------------------- ranks ignore case

  lemma LowerSpecial(a: string, b: string, i: nat)
    requires Lower(a) == Lower(b) && i < |a|
    ensures |a| == |b| && (a[i] == NUL <==> b[i] == NUL)
    ensures (a[i] == '/' <==> b[i] == '/') && (a[i] == '~' <==> b[i] == '~')
  {
    assert |Lower(a)| == |Lower(b)|;
    assert Lower(a)[i] == ToLower(a[i]) && Lower(b)[i] == ToLower(b[i]);
  }

  lemma LowerTail(a: string, b: string)
    requires Lower(a) == Lower(b) && a != ""
    ensures b != "" && Lower(a[1..]) == Lower(b[1..])
  {
    assert |Lower(a)| == |Lower(b)|;
    assert Lower(a[1..]) == Lower(a)[1..] && Lower(b[1..]) == Lower(b)[1..];
  }

  lemma LowerHas(a: string, b: string)
    requires Lower(a) == Lower(b)
    ensures ('/' in a <==> '/' in b) && ('~' in a <==> '~' in b)
  {
    assert |Lower(a)| == |Lower(b)|;
    forall i | 0 <= i < |a|
      ensures (a[i] == '/' <==> b[i] == '/') && (a[i] == '~' <==> b[i] == '~')
    {
      LowerSpecial(a, b, i);
    }
  }

  lemma LowerAllSlashes(a: string, b: string)
    requires Lower(a) == Lower(b)
    ensures AllSlashes(a) <==> AllSlashes(b)
  {
    assert |Lower(a)| == |Lower(b)|;
    forall i | 0 <= i < |a|
      ensures a[i] == '/' <==> b[i] == '/'
    {
      LowerSpecial(a, b, i);
    }
  }

  lemma {:induction false} AlikeRanks(a: string, b: string)
    requires Lower(a) == Lower(b)
    ensures CutRank(a) == CutRank(b) && TildeRun(a) == TildeRun(b) && SlashRun(a) == SlashRun(b)
  {
    assert |Lower(a)| == |Lower(b)|;
    if a != "" {
      LowerSpecial(a, b, 0);
      LowerTail(a, b);
      AlikeRanks(a[1..], b[1..]);
      if |a| > 1 {
        LowerSpecial(a, b, 1);
      }
    }
  }

  lemma {:induction false} AlikeRestored(a: string, b: string, junk: char)
    requires Lower(a) == Lower(b)
    ensures Restored(a, junk) <==> Restored(b, junk)
  {
    assert |Lower(a)| == |Lower(b)|;
    if a != "" {
      LowerSpecial(a, b, 0);
      LowerTail(a, b);
      LowerAllSlashes(a[1..], b[1..]);
      AlikeRestored(a[1..], b[1..], junk);
    }
  }

  lemma AlikeRank(a: string, b: string, junk: char)
    requires Lower(a) == Lower(b)
    ensures Rank(a, junk) == Rank(b, junk)
  {
    assert |Lower(a)| == |Lower(b)|;
    AlikeRanks(a, b);
    LowerHas(a, b);
    if a != "" {
      LowerSpecial(a, b, 0);
    }
  }

  // ---------------------------------------------------------------- what a segment names by decoding

  /** What decoding makes of the segment of a key that does not start with '/'. */
  function Read(k: string, junk: char): string
  {
    Decoding(Written(k, junk) + [NUL], 0)
  }

  lemma ReadsToken(k: string, junk: char)
    requires NUL !in k
    ensures DecodedText(Token(k, junk)) == if k != "" && k[0] == '/' then "" else Read(k, junk)
  {
    TokenIs(k, junk);
    DecodedTextIs(Token(k, junk));
    if k != "" && k[0] == '/' {
      assert Decoding("" + [NUL], 0) == "";
    }
  }

  lemma WholeHolds(k: string, junk: char)
    requires NUL !in k
    ensures Holds(Written(k, junk) + [NUL], 0, k, junk)
  {
    var m := Written(k, junk) + [NUL];
    assert m[0..] == m;
  }

  lemma ReadLength(k: string, junk: char)
    requires NUL !in k && junk != NUL
    ensures |Read(k, junk)| == |k| + if junk == '~' then 0 else Slashes(k)
  {
    WholeHolds(k, junk);
    DecodingLength(Written(k, junk) + [NUL], 0, k, junk);
  }

  /** A byte that is not special is read back, and reading goes on. */
  lemma ReadPlain(k: string, junk: char)
    requires NUL !in k && k != "" && k[0] != '~' && k[0] != '/'
    ensures Read(k, junk) == [k[0]] + Read(k[1..], junk)
  {
    var m := Written(k, junk) + [NUL];
    WholeHolds(k, junk);
    HoldsHead(m, 0, k, junk);
    DecodingHead(m, 0, k, junk);
    assert m[1..] == Written(k[1..], junk) + [NUL];
  }

  /** Memory behind the first escape. */
  function Behind(k: string, junk: char): seq<char> {
    ['/'] + (Written(k, junk) + [NUL])
  }

  lemma BehindHolds(k: string, junk: char)
    requires NUL !in k
    ensures Holds(Behind(k, junk), 1, k, junk)
  {
    assert Behind(k, junk)[1..] == Written(k, junk) + [NUL];
  }

  lemma ReadTilde(k: string, junk: char)
    requires NUL !in k && k != "" && k[0] == '~'
    ensures Behind(k[1..], junk)[|Behind(k[1..], junk)| - 1] == NUL
    ensures Read(k, junk) == ['~'] + Decoding(Behind(k[1..], junk), 1)
  {
    var m := Written(k, junk) + [NUL];
    WholeHolds(k, junk);
    HoldsHead(m, 0, k, junk);
    DecodingHead(m, 0, k, junk);
    assert Unit(k[0], junk) == "~1";
    TildeMemory(k, junk);
  }

  /** What an escaped '~' leaves for the decoder to read. */
  lemma TildeMemory(k: string, junk: char)
    requires k != "" && k[0] == '~'
    ensures var m := Written(k, junk) + [NUL];
      |m| > 1 && m[0] == '~' && m[1 := '/'][1..] == Behind(k[1..], junk) && m[|m| - 1] == NUL
  {
    var rest := Written(k[1..], junk);
    assert Written(k, junk) == "~1" + rest;
    assert ("~1" + rest + [NUL])[2..] == rest + [NUL];
  }

  /** For junk '~', a '/' is read as the escape that it has become. */
  lemma ReadSlash(k: string)
    requires NUL !in k && k != "" && k[0] == '/'
    ensures Behind(k[1..], '~')[|Behind(k[1..], '~')| - 1] == NUL
    ensures Read(k, '~') == ['~'] + Decoding(Behind(k[1..], '~'), 1)
  {
    var m := Written(k, '~') + [NUL];
    WholeHolds(k, '~');
    HoldsHead(m, 0, k, '~');
    DecodingHead(m, 0, k, '~');
    assert m[1 := '/'][1..] == Behind(k[1..], '~');
  }

  /** Behind an escape the next byte read is '/', if there is one. */
  lemma BehindStarts(m: seq<char>, lag: nat, k: string, junk: char)
    requires Holds(m, lag, k, junk) && m != [] && m[0] == '/' && lag > 0
    ensures lag < |m| && m[|m| - 1] == NUL
    ensures k == "" || (k[0] == '/' && junk == NUL) ==> Decoding(m, lag) == ""
    ensures k != "" && !(k[0] == '/' && junk == NUL) ==> Decoding(m, lag) != "" && Decoding(m, lag)[0] == '/'
  {
    HoldsEnds(m, lag, k, junk);
    if k != "" && !(k[0] == '/' && junk == NUL) {
      HoldsHead(m, lag, k, junk);
      DecodingHead(m, lag, k, junk);
    }
  }

  /** A key without '~', and without '/' that becomes one, is read as plain text. */
  lemma {:induction false} ReadWithoutTilde(k: string, junk: char)
    requires NUL !in k && '~' !in k && junk != '~' && (junk == '/' ==> '/' !in k)
    ensures '~' !in Read(k, junk) && '/' !in Read(k, junk)
  {
    if k == "" {
      assert Decoding("" + [NUL], 0) == "";
    } else if k[0] == '/' {
      if junk == NUL {
        assert Decoding("" + [NUL], 0) == "";
      } else {
        ReadJunk(k, junk);
        ReadWithoutTilde(k[1..], junk);
        assert '~' !in [junk, '1'] && '/' !in [junk, '1'];
      }
    } else {
      ReadPlain(k, junk);
      ReadWithoutTilde(k[1..], junk);
    }
  }

  lemma ReadJunk(k: string, junk: char)
    requires NUL !in k && k != "" && k[0] == '/' && junk != NUL && junk != '~'
    ensures Read(k, junk) == [junk, '1'] + Read(k[1..], junk)
  {
    var m := Written(k, junk) + [NUL];
    WholeHolds(k, junk);
    HoldsHead(m, 0, k, junk);
    DecodingHead(m, 0, k, junk);
    assert m[2..] == Written(k[1..], junk) + [NUL];
    assert m[..2] == [junk, '1'];
  }

  /** A '~' that is not at the end makes a '/' appear. */
  lemma {:induction false} ReadHasSlash(k: string, junk: char)
    requires NUL !in k && '/' !in k && !Restored(k, junk)
    ensures '/' in Read(k, junk)
  {
    if k[0] == '~' {
      ReadTilde(k, junk);
      BehindHolds(k[1..], junk);
      BehindStarts(Behind(k[1..], junk), 1, k[1..], junk);
      assert k[1..] != "" && k[1] == k[1..][0];
    } else {
      ReadPlain(k, junk);
      ReadHasSlash(k[1..], junk);
    }
  }

  // ---------------------------------------------------------------- a key named by the segment of another

  lemma {:induction false} NoSpecial(k: string, junk: char)
    requires '~' !in k && '/' !in k
    ensures Restored(k, junk) && Passed(k, junk)
  {
    if k != "" {
      assert k[0] in k;
      assert forall i :: 0 <= i < |k[1..]| ==> k[1..][i] == k[i + 1];
      NoSpecial(k[1..], junk);
    }
  }

  lemma {:induction false} SomeSlash(k: string)
    ensures Slashes(k) > 0 <==> '/' in k
  {
    if k != "" {
      SomeSlash(k[1..]);
      HeadTail(k);
    }
  }

  lemma {:induction false} JunkSlashWritten(k: string)
    requires NUL !in k && '/' in k
    ensures '/' in Written(k, '/')
  {
    if k[0] != '/' {
      assert k == [k[0]] + k[1..];
      JunkSlashWritten(k[1..]);
      if k[0] == '~' {
        assert Written(k, '/') == "~1" + Written(k[1..], '/');
      }
    }
  }

  lemma {:induction false} CutRises(k: string, junk: char)
    requires NUL !in k && !Restored(k, junk) && (junk == NUL || (junk == '/' && '/' !in k))
    ensures '~' in Read(k, junk) || '/' in Read(k, junk) ==> CutRank(k) < CutRank(Read(k, junk))
  {
    var g := Read(k, junk);
    if k[0] == '/' {
      assert Decoding("" + [NUL], 0) == "";
    } else if k[0] == '~' {
      ReadTilde(k, junk);
      BehindHolds(k[1..], junk);
      BehindStarts(Behind(k[1..], junk), 1, k[1..], junk);
      assert k[1..] != "" && k[1] == k[1..][0];
    } else {
      ReadPlain(k, junk);
      CutRises(k[1..], junk);
      ConsTail(k[0], Read(k[1..], junk));
    }
  }

  lemma {:induction false} RunRises(m: seq<char>, lag: nat, w: string)
    requires Holds(m, lag, w, '~') && m != [] && m[0] == '/' && lag > 0 && !AllSlashes(w)
    ensures lag < |m| && m[|m| - 1] == NUL && SlashRun(Decoding(m, lag)) > SlashRun(w)
    decreases |w|
  {
    HoldsEnds(m, lag, w, '~');
    HoldsHead(m, lag, w, '~');
    UnitRead(m, lag, w, '~');
    DecodingHead(m, lag, w, '~');
    var next, l := NextMemory(m, w, '~'), NextLag(lag, w, '~');
    ConsTail(m[0], Decoding(next, l));
    if w[0] == '/' {
      AllSlashesCons(w);
      RunRises(next, l, w[1..]);
    }
  }

  lemma {:induction false} TildeRises(k: string)
    requires NUL !in k && !Restored(k, '~')
    ensures Read(k, '~') != "" && TildeRun(k) < TildeRun(Read(k, '~'))
  {
    if k[0] == '/' {
      ReadSlash(k);
    } else if k[0] == '~' {
      ReadTilde(k, '~');
      BehindHolds(k[1..], '~');
      RunRises(Behind(k[1..], '~'), 1, k[1..]);
      ConsTail('~', Decoding(Behind(k[1..], '~'), 1));
    } else {
      ReadPlain(k, '~');
      TildeRises(k[1..]);
      ConsTail(k[0], Read(k[1..], '~'));
    }
  }

  /**
   If the segment written for a key that it does not restore names another key that is not written well either,
   the first key comes before the second.
   */
  lemma NamesLater(k: string, g: string, junk: char)
    requires NUL !in k && !Restored(k, junk) && '/' !in Token(k, junk) && DecodedText(Token(k, junk)) == g
    requires !Restored(g, junk) || !Passed(g, junk)
    ensures Rank(k, junk) < Rank(g, junk)
  {
    ReadsToken(k, junk);
    TokenIs(k, junk);
    if '~' !in g && '/' !in g {
      NoSpecial(g, junk);
    } else if junk == '~' {
      TildeRises(k);
      ReadFirst(k);
    } else if junk == NUL {
      CutRises(k, junk);
    } else if junk == '/' {
      if '/' in k {
        JunkSlashWritten(k);
      }
      CutRises(k, junk);
    } else {
      OrdinaryRises(k, junk);
    }
  }

  lemma ReadFirst(k: string)
    requires NUL !in k && k != "" && k[0] != '/'
    ensures Read(k, '~') != "" && Read(k, '~')[0] != '/'
  {
    if k[0] == '~' {
      ReadTilde(k, '~');
    } else {
      ReadPlain(k, '~');
    }
  }

  lemma OrdinaryRises(k: string, junk: char)
    requires NUL !in k && !Restored(k, junk) && junk != '~' && junk != NUL && junk != '/'
    requires '~' in Read(k, junk) || '/' in Read(k, junk)
    ensures Rank(k, junk) < Rank(Read(k, junk), junk)
  {
    if '~' !in k {
      ReadWithoutTilde(k, junk);
    }
    ReadLength(k, junk);
    SomeSlash(k);
    if '/' !in k {
      ReadHasSlash(k, junk);
    }
  }

  // ---------------------------------------------------------------- a key matched by the segment of another

  lemma JunkMatches(g: string, junk: char, tail: string)
    requires junk != '~' && junk != '/' && TokenMatches(g, [junk, '1'] + tail, true)
    ensures |g| >= 2 && g[0] == junk && g[1] == '1' && TokenMatches(g[2..], tail, true)
  {
    assert [junk, '1'] + tail == EscapeByte(junk) + (EscapeByte('1') + tail);
    MatchesEscapedByte(g, junk, EscapeByte('1') + tail);
    MatchesEscapedByte(g[1..], '1', tail);
    DropTwoBytes(g);
  }

  lemma DropTwoBytes(g: string)
    requires |g| >= 2
    ensures g[1..][0] == g[1] && g[1..][1..] == g[2..]
  {
  }

  /** What a name must be like to match the segment written for k: no '~', and a '/' for every escape. */
  predicate Matched(g: string, k: string, junk: char) {
    '~' !in g && (junk == '~' ==> |g| == |k|) &&
    (junk != '~' && junk != NUL && junk != '/' ==> |g| == |k| + Slashes(k)) &&
    (junk != '~' && '/' in g ==> '~' in k) &&
    ((junk == NUL || junk == '/') && '/' in g ==> CutRank(k) < 3 == CutRank(g))
  }

  lemma MatchedOne(g: string, k: string, junk: char)
    requires g != "" && k != "" && Matched(g[1..], k[1..], junk)
    requires g[0] == (if k[0] == '~' || (k[0] == '/' && junk == '~') then '/' else k[0])
    requires k[0] == '/' ==> junk == '~'
    ensures Matched(g, k, junk)
  {
    HeadTail(g);
    HeadTail(k);
  }

  lemma MatchedJunk(g: string, k: string, junk: char)
    requires |g| >= 2 && k != "" && k[0] == '/' && g[0] == junk && g[1] == '1' && Matched(g[2..], k[1..], junk)
    requires junk != '~' && junk != NUL && junk != '/'
    ensures Matched(g, k, junk)
  {
    HeadTail(k);
    assert g == [junk, '1'] + g[2..];
  }

  lemma {:induction false} MatchWritten(g: string, k: string, rest: string, junk: char)
    requires Ends(rest) && TokenMatches(g, Written(k, junk) + rest, true)
    ensures Matched(g, k, junk)
    decreases |k|
  {
    if k == "" {
      assert Written(k, junk) + rest == rest;
    } else {
      var tail := Written(k[1..], junk) + rest;
      if k[0] == '/' && junk == NUL {
        assert Written(k, junk) + rest == rest;
      } else if k[0] == '/' && junk == '/' {
        assert Ends(Written(k, junk) + rest);
      } else if k[0] == '/' && junk != '~' {
        assert Written(k, junk) + rest == [junk, '1'] + tail;
        JunkMatches(g, junk, tail);
        MatchWritten(g[2..], k[1..], rest, junk);
        MatchedJunk(g, k, junk);
      } else {
        var c := if k[0] == '~' then '/' else k[0];
        assert Written(k, junk) + rest == EscapeByte(c) + tail;
        MatchesEscapedByte(g, c, tail);
        MatchWritten(g[1..], k[1..], rest, junk);
        MatchedOne(g, k, junk);
      }
    }
  }

  /**
   If the segment written for a key that cannot be passed matches the name of another such key, the first key
   comes before the second.
   */
  lemma MatchesLater(k: string, g: string, rest: string, junk: char)
    requires NUL !in k && !Passed(k, junk) && !Passed(g, junk) && Ends(rest)
    requires TokenMatches(g, Token(k, junk) + rest, true)
    ensures Rank(k, junk) < Rank(g, junk)
  {
    TokenIs(k, junk);
    if k == "" || k[0] != '/' {
      MatchWritten(g, k, rest, junk);
    }
  }

}
