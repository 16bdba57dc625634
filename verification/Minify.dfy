/**
 `cJSON_Minify`: the text is overwritten by itself without whitespace and comments, and that connects the
 two forms of printed text.
 */
module Minify {
  import opened CStrings
  import opened Seqs
  import opened JsonParser

  // ---------------------------------------------------------------- what is left of a text

  predicate Blank(b: char) {
    b == ' ' || b == '\t' || b == '\r' || b == '\n'
  }

  /** `skip_oneline_comment`, after the slashes. */
  function LineEnd(c: seq<char>, i: nat): (r: nat)
    requires Terminated(c) && i < |c|
    ensures i <= r < |c|
    decreases |c| - i
  {
    if c[i] == NUL then i else if c[i] == '\n' then i + 1 else LineEnd(c, i + 1)
  }

  /** `skip_multiline_comment`, after the opening. */
  function CommentEnd(c: seq<char>, i: nat): (r: nat)
    requires Terminated(c) && i < |c|
    ensures i <= r < |c|
    decreases |c| - i
  {
    if c[i] == NUL then i else if c[i] == '*' && c[i + 1] == '/' then i + 2 else CommentEnd(c, i + 1)
  }

  /** What the main loop makes of the text from offset i on. */
  function Minified(c: seq<char>, i: nat): (r: string)
    requires Terminated(c) && i < |c|
    ensures NUL !in r
    decreases |c| - i
  {
    if c[i] == NUL then ""
    else if Blank(c[i]) then Minified(c, i + 1)
    else if c[i] == '/' then
      if c[i + 1] == '/' then Minified(c, LineEnd(c, i + 2))
      else if c[i + 1] == '*' then Minified(c, CommentEnd(c, i + 2))
      else Minified(c, i + 1)
    else if c[i] == '\"' then [c[i]] + InString(c, i + 1)
    else [c[i]] + Minified(c, i + 1)
  }

  /** The same inside a string: `minify_string` looks only for a backslash in front of a quote. */
  function InString(c: seq<char>, i: nat): (r: string)
    requires Terminated(c) && i < |c|
    ensures NUL !in r
    decreases |c| - i
  {
    if c[i] == NUL then ""
    else if c[i] == '\"' then [c[i]] + Minified(c, i + 1)
    else if c[i] == '\\' && c[i + 1] == '\"' then [c[i], c[i + 1]] + InString(c, i + 2)
    else [c[i]] + InString(c, i + 1)
  }

  // ---------------------------------------------------------------- in place

  /** Nothing from the read position on has been overwritten. */
  ghost predicate Unread(json: array<char>, c: seq<char>, r: nat, w: nat)
    reads json
  {
    w <= r < |c| <= json.Length && json[r..|c|] == c[r..]
  }

  /** The next byte to read is what it was. */
  lemma NextUnread(json: array<char>, c: seq<char>, r: nat, w: nat)
    requires Unread(json, c, r, w)
    ensures json[r] == c[r]
    ensures r + 1 < |c| ==> json[r + 1] == c[r + 1] && Unread(json, c, r + 1, w)
    ensures r + 2 < |c| ==> Unread(json, c, r + 2, w)
  {
    assert json[r..|c|][0] == c[r..][0];
    if r + 1 < |c| {
      assert json[r..|c|][1] == c[r..][1];
      assert json[r + 1..|c|] == json[r..|c|][1..];
    }
    if r + 2 < |c| {
      assert json[r + 2..|c|] == json[r..|c|][2..];
    }
  }

  lemma StillUnread(json: array<char>, c: seq<char>, r: nat, w: nat, r': nat)
    requires Unread(json, c, r, w) && r <= r' < |c|
    ensures Unread(json, c, r', w)
  {
    assert json[r'..|c|] == json[r..|c|][r' - r..];
  }

  /** One byte moves from the read position to the write position. */
  method CopyByte(json: array<char>, ghost c: seq<char>, r: nat, w: nat)
    requires Unread(json, c, r, w) && r + 1 < |c|
    modifies json
    ensures Unread(json, c, r + 1, w + 1)
    ensures json[..w + 1] == old(json[..w]) + [c[r]]
    ensures json[|c|..] == old(json[|c|..])
  {
    NextUnread(json, c, r, w);
    json[w] := json[r];
    assert json[r + 1..|c|] == c[r + 1..];
  }

  method SkipOnelineComment(json: array<char>, ghost c: seq<char>, start: nat, ghost w: nat) returns (r: nat)
    requires Terminated(c) && Unread(json, c, start, w)
    ensures r == LineEnd(c, start)
  {
    r := start;
    NextUnread(json, c, r, w);
    while json[r] != NUL
      invariant Unread(json, c, r, w) && json[r] == c[r] && LineEnd(c, start) == LineEnd(c, r)
      decreases |c| - r
    {
      if json[r] == '\n' {
        return r + 1;
      }
      NextUnread(json, c, r, w);
      r := r + 1;
      NextUnread(json, c, r, w);
    }
  }

  method SkipMultilineComment(json: array<char>, ghost c: seq<char>, start: nat, ghost w: nat) returns (r: nat)
    requires Terminated(c) && Unread(json, c, start, w)
    ensures r == CommentEnd(c, start)
  {
    r := start;
    NextUnread(json, c, r, w);
    while json[r] != NUL
      invariant Unread(json, c, r, w) && json[r] == c[r] && CommentEnd(c, start) == CommentEnd(c, r)
      decreases |c| - r
    {
      NextUnread(json, c, r, w);
      if json[r] == '*' && json[r + 1] == '/' {
        return r + 2;
      }
      r := r + 1;
      NextUnread(json, c, r, w);
    }
  }

  /** One turn of the loop of `minify_string`; it may close the string. */
  method StringTurn(json: array<char>, ghost c: seq<char>, start: nat, into: nat, ghost total: string)
    returns (r: nat, w: nat, closed: bool)
    requires Terminated(c) && Unread(json, c, start, into) && c[start] != NUL
    requires json[..into] + InString(c, start) == total
    modifies json
    ensures start < r && Unread(json, c, r, w)
    ensures json[..w] + (if closed then Minified(c, r) else InString(c, r)) == total
    ensures json[|c|..] == old(json[|c|..])
  {
    NextUnread(json, c, start, into);
    r, w, closed := start + 1, into + 1, json[start] == '\"';
    if closed {
      AppendAssociates(json[..into], [c[start]], Minified(c, start + 1));
      CopyByte(json, c, start, into);
    } else if json[start] == '\\' && json[start + 1] == '\"' {
      PairAssociates(json[..into], c[start], c[start + 1], InString(c, start + 2));
      CopyByte(json, c, start, into);
      CopyByte(json, c, start + 1, into + 1);
      r, w := start + 2, into + 2;
    } else {
      AppendAssociates(json[..into], [c[start]], InString(c, start + 1));
      CopyByte(json, c, start, into);
    }
  }

  /** `minify_string`, from the opening quote on. */
  method MinifyString(json: array<char>, ghost c: seq<char>, start: nat, into: nat, ghost total: string)
    returns (r: nat, w: nat)
    requires Terminated(c) && Unread(json, c, start, into) && c[start] == '\"'
    requires json[..into] + Minified(c, start) == total
    modifies json
    ensures start < r && Unread(json, c, r, w) && json[..w] + Minified(c, r) == total
    ensures json[|c|..] == old(json[|c|..])
  {
    AppendAssociates(json[..into], [c[start]], InString(c, start + 1));
    CopyByte(json, c, start, into);
    r, w := start + 1, into + 1;
    NextUnread(json, c, r, w);
    while json[r] != NUL
      invariant start < r && Unread(json, c, r, w) && json[r] == c[r]
      invariant json[..w] + InString(c, r) == total
      invariant json[|c|..] == old(json[|c|..])
      decreases |c| - r
    {
      var closed;
      r, w, closed := StringTurn(json, c, r, w, total);
      if closed {
        return;
      }
      NextUnread(json, c, r, w);
    }
  }

  lemma PairAssociates(s: string, a: char, b: char, t: string)
    ensures s + ([a, b] + t) == s + [a] + [b] + t
  {
  }

  /** One turn of the loop of `cJSON_Minify`. */
  method MinifyTurn(json: array<char>, ghost c: seq<char>, start: nat, into: nat, ghost total: string)
    returns (r: nat, w: nat)
    requires Terminated(c) && Unread(json, c, start, into) && c[start] != NUL
    requires json[..into] + Minified(c, start) == total
    modifies json
    ensures start < r && Unread(json, c, r, w) && json[..w] + Minified(c, r) == total
    ensures json[|c|..] == old(json[|c|..])
  {
    NextUnread(json, c, start, into);
    r, w := start + 1, into;
    if Blank(json[start]) {
    } else if json[start] == '/' {
      if json[start + 1] == '/' {
        StillUnread(json, c, start, into, start + 2);
        r := SkipOnelineComment(json, c, start + 2, into);
      } else if json[start + 1] == '*' {
        StillUnread(json, c, start, into, start + 2);
        r := SkipMultilineComment(json, c, start + 2, into);
      }
      StillUnread(json, c, start, into, r);
    } else if json[start] == '\"' {
      r, w := MinifyString(json, c, start, into, total);
    } else {
      AppendAssociates(json[..into], [c[start]], Minified(c, start + 1));
      CopyByte(json, c, start, into);
      w := into + 1;
    }
  }

  /** `cJSON_Minify`: the write position never passes the read position, and nothing else is touched. */
  method MinifyInPlace(json: array<char>, ghost text: string)
    requires NUL !in text && |text| < json.Length && json[..|text|] == text && json[|text|] == NUL
    modifies json
    ensures CStr(json[..]) == Minified(text + [NUL], 0)
    ensures json[|text| + 1..] == old(json[|text| + 1..])
  {
    ghost var c := text + [NUL];
    ghost var total := Minified(c, 0);
    var r: nat, w: nat := 0, 0;
    assert json[0..|c|] == c[0..];
    assert json[..0] + total == total;
    NextUnread(json, c, r, w);
    while json[r] != NUL
      invariant Unread(json, c, r, w) && json[r] == c[r] && json[..w] + Minified(c, r) == total
      invariant json[|c|..] == old(json[|c|..])
      decreases |c| - r
    {
      r, w := MinifyTurn(json, c, r, w, total);
      NextUnread(json, c, r, w);
    }
    AppendNothing(json[..w]);
    json[w] := NUL;
    assert json[..] == total + json[w..];
    CStrCut(total, json[w..]);
  }
}
