/**
 What minifying leaves of any text, by the pieces the text is built of: blanks, comments, strings, other bytes and
 slashes that open no comment.
 */
module MinifyPieces {
  import opened CStrings
  import opened Seqs
  import opened JsonParser
  import opened Minify

  // ---------------------------------------------------------------- pieces

  datatype Piece =
    | Space(b: char)
    | LineComment(body: string)
    | BlockComment(body: string)
    | Literal(body: string)
    | Other(b: char)
    | Slash

  /** What may stand at the end: nothing, or a comment or string that is not closed. */
  datatype Tail = Nothing | OpenLine(body: string) | OpenBlock(body: string) | OpenLiteral(body: string)

  predicate IsSpace(b: char) {
    b == ' ' || b == '\t' || b == '\r' || b == '\n'
  }

  /** No star with a slash behind it. */
  predicate NoClosing(s: string) {
    forall k :: 0 < k < |s| ==> !(s[k - 1] == '*' && s[k] == '/')
  }

  /** Every quote has a backslash in front of it. */
  predicate QuotesEscaped(s: string) {
    forall k :: 0 <= k < |s| && s[k] == '\"' ==> 0 < k && s[k - 1] == '\\'
  }

  predicate Proper(p: Piece) {
    match p
    case Space(b) => IsSpace(b)
    case LineComment(body) => '\n' !in body && NUL !in body
    case BlockComment(body) => NoClosing(body + "*") && NUL !in body
    case Literal(body) => QuotesEscaped(body) && NUL !in body && (body != "" ==> body[|body| - 1] != '\\')
    case Other(b) => !IsSpace(b) && b != '/' && b != '\"' && b != NUL
    case Slash => true
  }

  predicate ProperTail(t: Tail) {
    match t
    case Nothing => true
    case OpenLine(body) => '\n' !in body && NUL !in body
    case OpenBlock(body) => NoClosing(body) && NUL !in body
    case OpenLiteral(body) => QuotesEscaped(body) && NUL !in body
  }

  function Spelled(p: Piece): (s: string)
    ensures s != ""
  {
    match p
    case Space(b) => [b]
    case LineComment(body) => "//" + body + "\n"
    case BlockComment(body) => "/*" + body + "*/"
    case Literal(body) => "\"" + body + "\""
    case Other(b) => [b]
    case Slash => "/"
  }

  function SpelledTail(t: Tail): string {
    match t
    case Nothing => ""
    case OpenLine(body) => "//" + body
    case OpenBlock(body) => "/*" + body
    case OpenLiteral(body) => "\"" + body
  }

  function SpelledAll(ps: seq<Piece>, t: Tail): string {
    if ps == [] then SpelledTail(t) else Spelled(ps[0]) + SpelledAll(ps[1..], t)
  }

  /** Pieces that can stand in this order: behind a lone slash comes no byte that would make it open a comment. */
  predicate ProperAll(ps: seq<Piece>, t: Tail) {
    if ps == [] then ProperTail(t)
    else
      Proper(ps[0]) && ProperAll(ps[1..], t) &&
      (ps[0].Slash? ==> SpelledAll(ps[1..], t) == "" || SpelledAll(ps[1..], t)[0] !in "/*")
  }

  /** What stays of a piece: strings and other bytes. */
  function Kept(p: Piece): string {
    match p
    case Literal(body) => "\"" + body + "\""
    case Other(b) => [b]
    case _ => ""
  }

  function KeptTail(t: Tail): string {
    match t
    case OpenLiteral(body) => "\"" + body
    case _ => ""
  }

  function KeptAll(ps: seq<Piece>, t: Tail): string {
    if ps == [] then KeptTail(t) else Kept(ps[0]) + KeptAll(ps[1..], t)
  }

  // ---------------------------------------------------------------- bytes of the text

  /** The bytes t stand in c from i on. */
  predicate At(c: string, i: nat, t: string) {
    i + |t| <= |c| && forall k :: 0 <= k < |t| ==> c[i + k] == t[k]
  }

  lemma AtSplits(c: string, i: nat, a: string, b: string)
    requires At(c, i, a + b)
    ensures At(c, i, a) && At(c, i + |a|, b)
  {
    forall k | 0 <= k < |a|
      ensures c[i + k] == a[k]
    {
      assert (a + b)[k] == a[k];
    }
    forall k | 0 <= k < |b|
      ensures c[i + |a| + k] == b[k]
    {
      assert (a + b)[|a| + k] == b[k];
    }
  }

  lemma AtRest(c: string, i: nat, t: string)
    requires At(c, i, t) && t != ""
    ensures c[i] == t[0] && At(c, i + 1, t[1..])
  {
  }

  // ---------------------------------------------------------------- comments

  lemma {:induction false} LineEnds(c: string, i: nat, body: string)
    requires Terminated(c) && At(c, i, body + "\n") && '\n' !in body && NUL !in body && i + |body| + 1 < |c|
    ensures LineEnd(c, i) == i + |body| + 1
    decreases |body|
  {
    AtRest(c, i, body + "\n");
    if body != "" {
      assert c[i] == body[0] && body[0] in body;
      SumTail(body, "\n");
      NotInRest(body, '\n');
      NotInRest(body, NUL);
      LineEnds(c, i + 1, body[1..]);
    }
  }

  lemma NotInRest(s: string, b: char)
    requires s != "" && b !in s
    ensures s[0] != b && b !in s[1..]
  {
  }

  lemma {:induction false} LineOpen(c: string, i: nat, body: string)
    requires Terminated(c) && At(c, i, body) && '\n' !in body && NUL !in body && i + |body| + 1 == |c|
    ensures LineEnd(c, i) == |c| - 1
    decreases |body|
  {
    if body != "" {
      AtRest(c, i, body);
      NotInRest(body, '\n');
      NotInRest(body, NUL);
      LineOpen(c, i + 1, body[1..]);
    }
  }

  lemma {:induction false} BlockEnds(c: string, i: nat, body: string)
    requires Terminated(c) && At(c, i, body + "*/") && NoClosing(body + "*") && NUL !in body
    requires i + |body| + 2 < |c|
    ensures CommentEnd(c, i) == i + |body| + 2
    decreases |body|
  {
    AtRest(c, i, body + "*/");
    if body == "" {
      assert c[i + 1] == (body + "*/")[1];
    } else {
      NotInRest(body, NUL);
      SumTail(body, "*/");
      SumTail(body, "*");
      ClosingRest(body + "*");
      assert c[i + 1] == (body + "*/")[1];
      assert (body + "*")[1] == (body + "*/")[1];
      BlockEnds(c, i + 1, body[1..]);
    }
  }

  lemma ClosingRest(s: string)
    requires NoClosing(s) && |s| > 1
    ensures !(s[0] == '*' && s[1] == '/') && NoClosing(s[1..])
  {
    assert !(s[1 - 1] == '*' && s[1] == '/');
    forall k | 0 < k < |s[1..]|
      ensures !(s[1..][k - 1] == '*' && s[1..][k] == '/')
    {
      assert !(s[k + 1 - 1] == '*' && s[k + 1] == '/');
    }
  }

  lemma {:induction false} BlockOpen(c: string, i: nat, body: string)
    requires Terminated(c) && At(c, i, body) && NoClosing(body) && NUL !in body && i + |body| + 1 == |c|
    ensures CommentEnd(c, i) == |c| - 1
    decreases |body|
  {
    if body != "" {
      AtRest(c, i, body);
      NotInRest(body, NUL);
      if |body| > 1 {
        ClosingRest(body);
        assert c[i + 1] == body[1];
      }
      BlockOpen(c, i + 1, body[1..]);
    }
  }

  // ---------------------------------------------------------------- strings

  lemma EscapedRest(s: string)
    requires s != "" && QuotesEscaped(s)
    ensures s[0] != '\"'
    ensures |s| > 1 && s[1] == '\"' ==> s[0] == '\\' && QuotesEscaped(s[2..])
    ensures |s| > 1 && s[1] != '\"' ==> QuotesEscaped(s[1..])
  {
    if |s| > 1 {
      if s[1] == '\"' {
        forall k | 0 <= k < |s[2..]| && s[2..][k] == '\"'
          ensures 0 < k && s[2..][k - 1] == '\\'
        {
          assert s[k + 2] == '\"' && s[k + 1] == '\\';
        }
      } else {
        forall k | 0 <= k < |s[1..]| && s[1..][k] == '\"'
          ensures 0 < k && s[1..][k - 1] == '\\'
        {
          assert s[k + 1] == '\"' && s[k] == '\\';
        }
      }
    }
  }

  lemma PairKept(c: string, i: nat)
    requires Terminated(c) && i + 2 < |c| && c[i] == '\\' && c[i + 1] == '\"'
    ensures InString(c, i) == [c[i], c[i + 1]] + InString(c, i + 2)
  {
  }

  lemma InsideKept(c: string, i: nat)
    requires Terminated(c) && i + 1 < |c| && c[i] != NUL && c[i] != '\"' && !(c[i] == '\\' && c[i + 1] == '\"')
    ensures InString(c, i) == [c[i]] + InString(c, i + 1)
  {
  }

  lemma QuoteKept(c: string, i: nat)
    requires Terminated(c) && i + 1 < |c| && c[i] == '\"'
    ensures InString(c, i) == "\"" + Minified(c, i + 1)
  {
  }

  lemma {:induction false} StringKept(c: string, i: nat, body: string)
    requires Terminated(c) && At(c, i, body + "\"") && QuotesEscaped(body) && NUL !in body
    requires (body != "" ==> body[|body| - 1] != '\\') && i + |body| + 1 < |c|
    ensures InString(c, i) == body + "\"" + Minified(c, i + |body| + 1)
    decreases |body|
  {
    hide InString, Minified;
    AtRest(c, i, body + "\"");
    if body == "" {
      QuoteKept(c, i);
    } else {
      EscapedRest(body);
      NotInRest(body, NUL);
      SumTail(body, "\"");
      AtRest(c, i + 1, body[1..] + "\"");
      if |body| > 1 && body[1] == '\"' {
        SumTail(body[1..], "\"");
        NotInRest(body[1..], NUL);
        assert body[1..][1..] == body[2..];
        PairKept(c, i);
        StringKept(c, i + 2, body[2..]);
        TwoInFront(body, "\"", Minified(c, i + |body| + 1));
      } else {
        assert |body| > 1 ==> c[i + 1] == body[1];
        InsideKept(c, i);
        StringKept(c, i + 1, body[1..]);
        OneInFront(body, "\"", Minified(c, i + |body| + 1));
      }
    }
  }

  lemma OneInFront(body: string, quote: string, rest: string)
    requires body != ""
    ensures [body[0]] + (body[1..] + quote + rest) == body + quote + rest
  {
    HeadTail(body);
    assert [body[0]] + (body[1..] + quote + rest) == ([body[0]] + body[1..]) + quote + rest;
  }

  lemma TwoInFront(body: string, quote: string, rest: string)
    requires |body| > 1
    ensures [body[0], body[1]] + (body[2..] + quote + rest) == body + quote + rest
  {
    assert body == [body[0], body[1]] + body[2..];
    assert [body[0], body[1]] + (body[2..] + quote + rest) == ([body[0], body[1]] + body[2..]) + quote + rest;
  }

  lemma {:induction false} StringOpen(c: string, i: nat, body: string)
    requires Terminated(c) && At(c, i, body) && QuotesEscaped(body) && NUL !in body && i + |body| + 1 == |c|
    ensures InString(c, i) == body
    decreases |body|
  {
    hide InString;
    if body == "" {
      OpenEnds(c, i);
    } else {
      AtRest(c, i, body);
      EscapedRest(body);
      NotInRest(body, NUL);
      assert |body| > 1 ==> c[i + 1] == body[1];
      if |body| > 1 && body[1] == '\"' {
        AtRest(c, i + 1, body[1..]);
        NotInRest(body[1..], NUL);
        assert body[1..][1..] == body[2..];
        PairKept(c, i);
        StringOpen(c, i + 2, body[2..]);
        assert body == [body[0], body[1]] + body[2..];
      } else {
        InsideKept(c, i);
        StringOpen(c, i + 1, body[1..]);
        HeadTail(body);
      }
    }
  }

  lemma OpenEnds(c: string, i: nat)
    requires Terminated(c) && i + 1 == |c|
    ensures InString(c, i) == ""
  {
  }

  // ---------------------------------------------------------------- whole texts

  lemma LineKept(c: string, i: nat, body: string)
    requires Terminated(c) && Proper(LineComment(body)) && At(c, i, "//" + (body + "\n")) && i + |body| + 3 < |c|
    ensures Minified(c, i) == Minified(c, i + |body| + 3)
  {
    AtSplits(c, i, "//", body + "\n");
    assert c[i] == "//"[0] && c[i + 1] == "//"[1];
    LineEnds(c, i + 2, body);
  }

  lemma BlockKept(c: string, i: nat, body: string)
    requires Terminated(c) && Proper(BlockComment(body)) && At(c, i, "/*" + (body + "*/")) && i + |body| + 4 < |c|
    ensures Minified(c, i) == Minified(c, i + |body| + 4)
  {
    AtSplits(c, i, "/*", body + "*/");
    assert c[i] == "/*"[0] && c[i + 1] == "/*"[1];
    BlockEnds(c, i + 2, body);
  }

  lemma LiteralKept(c: string, i: nat, body: string)
    requires Terminated(c) && Proper(Literal(body)) && At(c, i, "\"" + (body + "\"")) && i + |body| + 2 < |c|
    ensures Minified(c, i) == "\"" + body + "\"" + Minified(c, i + |body| + 2)
  {
    AtSplits(c, i, "\"", body + "\"");
    assert c[i] == "\""[0];
    StringKept(c, i + 1, body);
    QuotesAround(body, Minified(c, i + |body| + 2));
  }

  lemma QuotesAround(body: string, rest: string)
    ensures "\"" + (body + "\"" + rest) == "\"" + body + "\"" + rest
  {
  }

  lemma ByteKept(c: string, i: nat, p: Piece)
    requires Terminated(c) && Proper(p) && i + 1 < |c| && (p.Space? || p.Other? || p.Slash?) && c[i] == Spelled(p)[0]
    requires p.Slash? ==> c[i + 1] != '/' && c[i + 1] != '*'
    ensures Minified(c, i) == Kept(p) + Minified(c, i + 1)
  {
  }

  lemma PieceKept(c: string, i: nat, p: Piece)
    requires Terminated(c) && Proper(p) && At(c, i, Spelled(p)) && i + |Spelled(p)| < |c|
    requires p.Slash? ==> c[i + 1] != '/' && c[i + 1] != '*'
    ensures Minified(c, i) == Kept(p) + Minified(c, i + |Spelled(p)|)
  {
    hide Minified, InString;
    match p
    case LineComment(body) =>
      assert Spelled(p) == "//" + (body + "\n");
      LineKept(c, i, body);
    case BlockComment(body) =>
      assert Spelled(p) == "/*" + (body + "*/");
      BlockKept(c, i, body);
    case Literal(body) =>
      assert Spelled(p) == "\"" + (body + "\"");
      LiteralKept(c, i, body);
    case _ =>
      assert c[i] == Spelled(p)[0];
      ByteKept(c, i, p);
  }

  lemma TailKept(c: string, i: nat, t: Tail)
    requires Terminated(c) && ProperTail(t) && At(c, i, SpelledTail(t)) && i + |SpelledTail(t)| + 1 == |c|
    ensures Minified(c, i) == KeptTail(t)
  {
    hide InString, LineEnd, CommentEnd;
    match t
    case Nothing =>
    case OpenLine(body) =>
      AtSplits(c, i, "//", body);
      assert c[i] == "//"[0] && c[i + 1] == "//"[1];
      LineOpen(c, i + 2, body);
    case OpenBlock(body) =>
      AtSplits(c, i, "/*", body);
      assert c[i] == "/*"[0] && c[i + 1] == "/*"[1];
      BlockOpen(c, i + 2, body);
    case OpenLiteral(body) =>
      AtSplits(c, i, "\"", body);
      assert c[i] == "\""[0];
      StringOpen(c, i + 1, body);
  }

  lemma {:induction false} PiecesKept(c: string, i: nat, ps: seq<Piece>, t: Tail)
    requires Terminated(c) && ProperAll(ps, t) && At(c, i, SpelledAll(ps, t)) && i + |SpelledAll(ps, t)| + 1 == |c|
    ensures Minified(c, i) == KeptAll(ps, t)
    decreases |ps|
  {
    hide Minified, InString, Spelled, Proper, ProperTail, SpelledTail;
    if ps == [] {
      TailKept(c, i, t);
    } else {
      var p, rest := Spelled(ps[0]), SpelledAll(ps[1..], t);
      AtSplits(c, i, p, rest);
      assert c[|c| - 1] == NUL;
      assert rest != "" ==> c[i + |p|] == rest[0];
      assert "/*"[0] == '/' && "/*"[1] == '*';
      EmptyTail();
      PieceKept(c, i, ps[0]);
      PiecesKept(c, i + |p|, ps[1..], t);
    }
  }

  /**
   Of any text that is built of pieces `cJSON_Minify` leaves exactly the pieces that stay: comments and blanks leave
   nothing, nor does a lone slash; strings and all other bytes leave themselves.
   */
  lemma MinifiedPieces(ps: seq<Piece>, t: Tail)
    requires ProperAll(ps, t)
    ensures Minified(SpelledAll(ps, t) + [NUL], 0) == KeptAll(ps, t)
  {
    var s := SpelledAll(ps, t);
    PiecesKept(s + [NUL], 0, ps, t);
  }

  // ---------------------------------------------------------------- every text is built of pieces

  lemma FindNewline(s: string, from: nat) returns (n: nat)
    requires from <= |s|
    ensures from <= n <= |s| && (n < |s| ==> s[n] == '\n') && '\n' !in s[from..n]
  {
    n := from;
    while n < |s| && s[n] != '\n'
      invariant from <= n <= |s| && forall k :: from <= k < n ==> s[k] != '\n'
    {
      n := n + 1;
    }
  }

  /** The first star from a place on that has a slash behind it, or the end. */
  lemma FindClosing(s: string, from: nat) returns (n: nat)
    requires from <= |s|
    ensures from <= n <= |s| && (n < |s| ==> n + 1 < |s| && s[n] == '*' && s[n + 1] == '/')
    ensures forall k :: from <= k < n && k + 1 < |s| ==> !(s[k] == '*' && s[k + 1] == '/')
  {
    n := from;
    while n < |s| && !(n + 1 < |s| && s[n] == '*' && s[n + 1] == '/')
      invariant from <= n <= |s|
      invariant forall k :: from <= k < n && k + 1 < |s| ==> !(s[k] == '*' && s[k + 1] == '/')
    {
      n := n + 1;
    }
  }

  /** The first quote from a place on that is there or has no backslash in front of it, or the end. */
  lemma FindQuote(s: string, from: nat) returns (n: nat)
    requires from <= |s|
    ensures from <= n <= |s| && (n < |s| ==> s[n] == '\"' && (n == from || s[n - 1] != '\\'))
    ensures forall k :: from <= k < n && s[k] == '\"' ==> k != from && s[k - 1] == '\\'
  {
    n := from;
    while n < |s| && !(s[n] == '\"' && (n == from || s[n - 1] != '\\'))
      invariant from <= n <= |s|
      invariant forall k :: from <= k < n && s[k] == '\"' ==> k != from && s[k - 1] == '\\'
    {
      n := n + 1;
    }
  }

  lemma FirstLine(s: string) returns (p: Piece, t: Tail)
    requires NUL !in s && |s| > 1 && s[..2] == "//"
    ensures FirstOr(s, p, t)
  {
    var n := FindNewline(s, 2);
    p, t := LineComment(s[2..n]), OpenLine(s[2..n]);
    if n < |s| {
      assert s == "//" + s[2..n] + "\n" + s[n + 1..];
    } else {
      assert s == "//" + s[2..n];
    }
  }

  /** The text is the tail, or starts with the piece. */
  predicate FirstOr(s: string, p: Piece, t: Tail) {
    (ProperTail(t) && s == SpelledTail(t)) || (Proper(p) && !p.Slash? && Spelled(p) <= s)
  }

  lemma FirstBlock(s: string) returns (p: Piece, t: Tail)
    requires NUL !in s && |s| > 1 && s[..2] == "/*"
    ensures FirstOr(s, p, t)
  {
    var n := FindClosing(s, 2);
    var body := s[2..n];
    p, t := BlockComment(body), OpenBlock(body);
    forall k | 0 < k < |body|
      ensures !(body[k - 1] == '*' && body[k] == '/')
    {
      var j := k + 1;
      assert 2 <= j < n && j + 1 < |s|;
      assert !(s[j] == '*' && s[j + 1] == '/');
    }
    if n < |s| {
      StarBehind(body);
      assert s[n..n + 2] == "*/";
      assert s[..n] == s[..2] + body;
      assert s[..n + 2] == s[..n] + s[n..n + 2];
    } else {
      assert s == s[..2] + body;
    }
  }

  lemma StarBehind(body: string)
    requires NoClosing(body)
    ensures NoClosing(body + "*")
  {
  }

  lemma FirstLiteral(s: string) returns (p: Piece, t: Tail)
    requires NUL !in s && s != "" && s[0] == '\"'
    ensures FirstOr(s, p, t)
  {
    var n := FindQuote(s, 1);
    var body := s[1..n];
    p, t := Literal(body), OpenLiteral(body);
    forall k | 0 <= k < |body| && body[k] == '\"'
      ensures 0 < k && body[k - 1] == '\\'
    {
      assert s[k + 1] == '\"';
    }
    if n < |s| {
      assert s == "\"" + body + "\"" + s[n + 1..];
    } else {
      assert s == "\"" + body;
    }
  }

  /** A first piece that is no lone slash, or the tail. */
  lemma First(s: string) returns (p: Piece, t: Tail)
    requires NUL !in s && s != "" && (s[0] == '/' ==> |s| > 1 && s[1] in "/*")
    ensures FirstOr(s, p, t)
  {
    if s[0] == '/' && s[1] == '/' {
      assert s[..2] == "//";
      p, t := FirstLine(s);
    } else if s[0] == '/' {
      assert s[..2] == "/*";
      p, t := FirstBlock(s);
    } else if s[0] == '\"' {
      p, t := FirstLiteral(s);
    } else {
      p, t := if IsSpace(s[0]) then Space(s[0]) else Other(s[0]), Nothing;
      assert s[..1] == [s[0]];
    }
  }

  lemma EmptyTail()
    ensures SpelledTail(Nothing) == "" && ProperTail(Nothing) && Spelled(Slash) == "/" && Proper(Slash)
  {
  }

  /** Every text is built of pieces. */
  lemma {:induction false} Decomposes(s: string) returns (ps: seq<Piece>, t: Tail)
    requires NUL !in s
    ensures ProperAll(ps, t) && SpelledAll(ps, t) == s
    decreases |s|
  {
    hide Spelled, Proper, ProperTail, SpelledTail;
    ps, t := [], Nothing;
    EmptyTail();
    if s != "" {
      var p := Slash;
      if !(s[0] == '/' && (|s| == 1 || s[1] !in "/*")) {
        p, t := First(s);
        if ProperTail(t) && s == SpelledTail(t) {
          return;
        }
      }
      assert Spelled(p) <= s;
      var rest := s[|Spelled(p)|..];
      var more;
      more, t := Decomposes(rest);
      ps := [p] + more;
      assert s == Spelled(p) + rest;
      assert rest != "" ==> rest[0] == s[|Spelled(p)|];
      ConsTail(p, more);
    }
  }

  /** What `cJSON_Minify` leaves of any text. */
  lemma MinifiesExactly(text: string) returns (ps: seq<Piece>, t: Tail)
    requires NUL !in text
    ensures ProperAll(ps, t) && SpelledAll(ps, t) == text && Minified(text + [NUL], 0) == KeptAll(ps, t)
  {
    ps, t := Decomposes(text);
    MinifiedPieces(ps, t);
  }
}
