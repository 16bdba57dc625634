/**
 What the two coders of path segments do to a key, byte by byte, and for which keys they are right.
 */
module KeyCoding {
  import opened CStrings
  import opened Seqs
  import opened Pointers
  import opened PointerEncoding

  // ---------------------------------------------------------------- the decoder

  /**
   The text that in-place decoding leaves from its write position on: m is the memory from there, and the read
   position is `lag` bytes further on. A "~1" sets the byte behind the one it writes.
   */
  function Decoding(m: seq<char>, lag: nat): string
    requires lag < |m| && m[|m| - 1] == NUL
    decreases |m| - lag
  {
    if m[lag] == NUL then ""
    else if m[lag] == '~' && m[lag + 1] == '0' then ['~'] + Decoding(m[1..], lag + 1)
    else if m[lag] == '~' && m[lag + 1] == '1' then [m[0]] + Decoding(m[1 := '/'][1..], lag + 1)
    else if m[lag] == '~' then CStr(m)
    else [m[0]] + Decoding(m[1..], lag)
  }

  lemma CStrFront(mem: seq<char>, w: nat)
    requires w < |mem| && NUL !in mem[..w]
    ensures CStr(mem) == mem[..w] + CStr(mem[w..])
    ensures CStr(mem[w := NUL]) == mem[..w]
  {
    if w > 0 {
      CStrFront(mem[1..], w - 1);
      assert mem[..w] == [mem[0]] + mem[1..][..w - 1];
      assert mem[w := NUL][1..] == mem[1..][w - 1 := NUL];
      assert mem[1..][w - 1..] == mem[w..];
      AppendAssociates([mem[0]], mem[1..][..w - 1], CStr(mem[w..]));
    } else {
      assert mem[0..] == mem;
    }
  }

  lemma WriteTurn(mem: seq<char>, next: seq<char>, w: nat, c: char, text: string)
    requires w < |mem| == |next| && next[..w] == mem[..w] && next[w] == c
    ensures next[..w + 1] + text == mem[..w] + ([c] + text)
  {
    assert next[..w + 1] == mem[..w] + [c];
  }

  lemma {:induction false} DecodingIs(mem: seq<char>, w: nat, r: nat)
    requires w <= r < |mem| && mem[|mem| - 1] == NUL && NUL !in mem[..r]
    ensures CStr(Decoded(mem, w, r)) == mem[..w] + Decoding(mem[w..], r - w)
    decreases |mem| - r
  {
    var m, lag := mem[w..], r - w;
    assert mem[r] == m[lag];
    NoNulBefore(mem, w, r);
    if mem[r] == NUL {
      CStrFront(mem, w);
      AppendNothing(mem[..w]);
    } else if mem[r] == '~' && mem[r + 1] == '0' {
      DecodingUnit(mem, mem[w := '~'], w, r, r + 2, '~');
      assert mem[w := '~'][w + 1..] == m[1..];
    } else if mem[r] == '~' && mem[r + 1] == '1' {
      DecodingUnit(mem, mem[w + 1 := '/'], w, r, r + 2, mem[w]);
      assert mem[w + 1 := '/'][w + 1..] == m[1 := '/'][1..];
    } else if mem[r] == '~' {
      CStrFront(mem, w);
    } else {
      DecodingUnit(mem, mem, w, r, r + 1, mem[w]);
      assert mem[w + 1..] == m[1..];
    }
  }

  /** One byte written. */
  lemma {:induction false} DecodingUnit(mem: seq<char>, next: seq<char>, w: nat, r: nat, r2: nat, c: char)
    requires w <= r < r2 < |mem| == |next| && next[|next| - 1] == NUL && mem[|mem| - 1] == NUL && NUL !in mem[..r]
    requires forall i :: r <= i < r2 ==> mem[i] != NUL
    requires (next == mem && c == mem[w]) || (next == mem[w := '~'] && c == '~') ||
      (next == mem[w + 1 := '/'] && c == mem[w])
    requires Decoded(mem, w, r) == Decoded(next, w + 1, r2)
    ensures CStr(Decoded(mem, w, r)) == mem[..w] + ([c] + Decoding(next[w + 1..], r2 - (w + 1)))
    decreases |mem| - r, 0
  {
    NoNulAfter(mem, w, r, r2, next);
    DecodingIs(next, w + 1, r2);
    UnitWrites(mem, next, w, c);
    var text := Decoding(next[w + 1..], r2 - (w + 1));
    WriteTurn(mem, next, w, c, text);
    assert CStr(Decoded(next, w + 1, r2)) == next[..w + 1] + text;
  }

  lemma UnitWrites(mem: seq<char>, next: seq<char>, w: nat, c: char)
    requires w + 1 < |mem| == |next|
    requires (next == mem && c == mem[w]) || (next == mem[w := '~'] && c == '~') ||
      (next == mem[w + 1 := '/'] && c == mem[w])
    ensures next[..w] == mem[..w] && next[w] == c
  {
  }

  lemma NoNulBefore(mem: seq<char>, w: nat, r: nat)
    requires w <= r < |mem| && NUL !in mem[..r]
    ensures NUL !in mem[..w]
  {
    assert forall i :: 0 <= i < w ==> mem[..w][i] == mem[..r][i];
  }

  lemma NoNulAfter(mem: seq<char>, w: nat, r: nat, r2: nat, next: seq<char>)
    requires w <= r < r2 < |mem| == |next| && NUL !in mem[..r]
    requires forall i :: r <= i < r2 ==> mem[i] != NUL
    requires next == mem || next == mem[w := '~'] || (w + 1 < |mem| && next == mem[w + 1 := '/'])
    ensures NUL !in next[..r2]
  {
    forall i | 0 <= i < r2
      ensures next[i] != NUL
    {
      if i < r {
        assert mem[..r][i] == mem[i];
      }
    }
  }

  /** What `decode_pointer_inplace` makes of a segment. */
  lemma DecodedTextIs(s: string)
    ensures DecodedText(s) == Decoding(s + [NUL], 0)
  {
    var mem := s + [NUL];
    assert mem[0..] == mem && mem[..0] == [];
    DecodingIs(mem, 0, 0);
    AppendNothing(Decoding(mem, 0));
  }

  // ---------------------------------------------------------------- decoding what RFC 6901 escapes

  /** The byte that decoding the escapes of t leaves at place k. */
  function EscapedByte(m: seq<char>, t: string, k: nat): char
    requires k < |t| && k < |m|
  {
    if t[k] == '~' then '~' else if k > 0 && t[k - 1] == '/' then '/' else m[k]
  }

  /** Decoding the escapes of section 3 of RFC 6901, byte for byte. */
  lemma {:induction false} DecodingEscaped(m: seq<char>, lag: nat, t: string)
    requires NUL !in t && lag <= |m| && m[lag..] == Escape(t) + [NUL]
    ensures lag < |m| && m[|m| - 1] == NUL && |Decoding(m, lag)| == |t| < |m|
    ensures forall k :: 0 <= k < |t| ==> Decoding(m, lag)[k] == EscapedByte(m, t, k)
    decreases |t|
  {
    EscapedEnds(m, lag, t);
    EscapeLonger(t);
    if t != "" {
      var next, lag' := EscapedStep(m, lag, t);
      DecodingEscaped(next, lag', t[1..]);
      EscapedConcludes(m, lag, t, next, lag');
    }
  }

  lemma EscapedStep(m: seq<char>, lag: nat, t: string) returns (next: seq<char>, lag': nat)
    requires t != "" && NUL !in t && lag <= |m| && m[lag..] == Escape(t) + [NUL]
    ensures lag < |m| && m[|m| - 1] == NUL
    ensures next == (if t[0] == '/' then m[1 := '/'][1..] else m[1..])
    ensures lag' <= |next| && next[lag'..] == Escape(t[1..]) + [NUL]
    ensures lag' < |next| && next[|next| - 1] == NUL
    ensures Decoding(m, lag) == [EscapedByte(m, t, 0)] + Decoding(next, lag')
  {
    EscapedHead(m, lag, t);
    next, lag' := if t[0] == '/' then m[1 := '/'][1..] else m[1..], lag + |EscapeByte(t[0])| - 1;
    ShiftTail(m, lag');
  }

  lemma ShiftTail(m: seq<char>, a: nat)
    requires a < |m|
    ensures m[1..][a..] == m[a + 1..]
    ensures a > 0 ==> m[1 := '/'][1..][a..] == m[a + 1..]
  {
  }

  lemma EscapedConcludes(m: seq<char>, lag: nat, t: string, next: seq<char>, lag': nat)
    requires t != "" && lag < |m| && m[|m| - 1] == NUL && |t| < |m| && lag' < |next| && next[|next| - 1] == NUL
    requires next == (if t[0] == '/' then m[1 := '/'][1..] else m[1..])
    requires Decoding(m, lag) == [EscapedByte(m, t, 0)] + Decoding(next, lag')
    requires |Decoding(next, lag')| == |t[1..]| < |next|
    requires forall k :: 0 <= k < |t[1..]| ==> Decoding(next, lag')[k] == EscapedByte(next, t[1..], k)
    ensures |Decoding(m, lag)| == |t|
    ensures forall k :: 0 <= k < |t| ==> Decoding(m, lag)[k] == EscapedByte(m, t, k)
  {
    var d, rest := Decoding(m, lag), Decoding(next, lag');
    forall k | 0 < k < |t|
      ensures d[k] == EscapedByte(m, t, k)
    {
      assert rest[k - 1] == EscapedByte(next, t[1..], k - 1);
    }
  }

  lemma EscapedEnds(m: seq<char>, lag: nat, t: string)
    requires lag <= |m| && m[lag..] == Escape(t) + [NUL]
    ensures lag < |m| && m[|m| - 1] == NUL && |m| == lag + |Escape(t)| + 1
  {
    assert |m[lag..]| == |Escape(t)| + 1;
    assert m[|m| - 1] == m[lag..][|m[lag..]| - 1];
  }

  lemma EscapedHead(m: seq<char>, lag: nat, t: string)
    requires t != "" && NUL !in t && lag <= |m| && m[lag..] == Escape(t) + [NUL]
    ensures lag < |m| && m[|m| - 1] == NUL && lag + |EscapeByte(t[0])| < |m|
    ensures m[lag + |EscapeByte(t[0])|..] == Escape(t[1..]) + [NUL]
    ensures if t[0] == '~' then m[lag] == '~' && m[lag + 1] == '0'
      else if t[0] == '/' then m[lag] == '~' && m[lag + 1] == '1' else m[lag] == t[0]
  {
    EscapedEnds(m, lag, t);
    var e := EscapeByte(t[0]);
    assert m[lag..] == e + (Escape(t[1..]) + [NUL]);
    assert m[lag..][0] == m[lag] && m[lag..][|e|..] == m[lag + |e|..];
    if |e| == 2 {
      assert m[lag..][1] == m[lag + 1];
    }
  }

  /**
   For which tokens the decoder undoes the escapes of RFC 6901: no '/', and behind an escaped '~' nothing but
   bytes that repeat the text one place to the left.
   */
  lemma DecodedExactly(t: string)
    requires NUL !in t
    ensures |Escape(t)| >= |t|
    ensures DecodedText(Escape(t)) == t <==>
      '/' !in t && forall j :: 0 <= j < |t| ==> t[j] == '~' || Escape(t)[j] == t[j]
  {
    var s := Escape(t);
    var m, d := s + [NUL], DecodedText(s);
    EscapeLonger(t);
    EscapeHasNoSlash(t);
    DecodedTextIs(s);
    assert m[0..] == m;
    DecodingEscaped(m, 0, t);
    if d == t {
      forall j | 0 <= j < |t|
        ensures t[j] != '/' && (t[j] == '~' || s[j] == t[j])
      {
        NoSlashUpTo(t, s, d, j);
      }
    } else {
      DiffersAt(d, t);
    }
  }

  lemma DiffersAt(a: string, b: string)
    requires |a| == |b| && a != b
    ensures exists j :: 0 <= j < |a| && a[j] != b[j]
  {
  }

  lemma {:induction false} EscapeLonger(t: string)
    ensures |Escape(t)| >= |t|
  {
    if t != "" {
      EscapeLonger(t[1..]);
    }
  }

  lemma {:induction false} NoSlashUpTo(t: string, s: string, d: string, j: nat)
    requires d == t && j < |t| && |s| >= |t| && forall i :: 0 <= i < |s| ==> s[i] != '/'
    requires forall k :: 0 <= k < |t| ==> d[k] == EscapedByte(s + [NUL], t, k)
    ensures t[j] != '/' && (t[j] == '~' || s[j] == t[j])
    decreases j
  {
    assert d[j] == EscapedByte(s + [NUL], t, j);
    if j > 0 {
      NoSlashUpTo(t, s, d, j - 1);
    }
  }

  // ---------------------------------------------------------------- what the encoder writes

  /** The text behind its first byte: "~1" for '~', and for '/' a byte of junk and '1'. */
  function Written(k: string, junk: char): string {
    if k == "" then ""
    else if k[0] == '/' then (if junk == NUL then "" else [junk, '1'] + Written(k[1..], junk))
    else if k[0] == '~' then "~1" + Written(k[1..], junk)
    else [k[0]] + Written(k[1..], junk)
  }

  /** The segment that `compose_patch` writes for a key. */
  function Token(k: string, junk: char): string {
    CStr(Encoded(k, Leftover(k, junk)))
  }

  lemma {:induction false} EncodedWritten(k: string, mem: seq<char>, junk: char)
    requires NUL !in k && |mem| > EncodedLength(k) && forall i :: 0 <= i < |mem| ==> mem[i] == junk
    ensures CStr(Encoded(k, mem)) == Written(k, junk)
    decreases |k|
  {
    if k != "" {
      var h := |EncodedHead(k[0], mem)|;
      EncodedStep(k, mem);
      EncodedWritten(k[1..], mem[h..], junk);
      HeadCStr(EncodedHead(k[0], mem), Encoded(k[1..], mem[h..]));
    }
  }

  lemma HeadCStr(head: seq<char>, mem: seq<char>)
    requires 1 <= |head| <= 2
    ensures NUL !in head ==> CStr(head + mem) == head + CStr(mem)
    ensures head[0] == NUL ==> CStr(head + mem) == ""
  {
    assert (head + mem)[1..] == head[1..] + mem;
    if |head| == 2 {
      assert head == [head[0], head[1]] && (head + mem)[1..][1..] == mem;
      assert head + CStr(mem) == [head[0]] + ([head[1]] + CStr(mem));
    } else {
      assert head == [head[0]] && (head + mem)[1..] == mem;
    }
  }

  /** A key that starts with '/' is cut off altogether, since its first byte is the terminator of the path. */
  lemma TokenIs(k: string, junk: char)
    requires NUL !in k
    ensures Token(k, junk) == if k != "" && k[0] == '/' then "" else Written(k, junk)
  {
    var mem := Leftover(k, junk);
    if k != "" {
      var head := EncodedHead(k[0], mem);
      EncodedStep(k, mem);
      EncodedWritten(k[1..], mem[|head|..], junk);
      HeadCStr(head, Encoded(k[1..], mem[|head|..]));
    }
  }

  function Slashes(k: string): nat {
    if k == "" then 0 else (if k[0] == '/' then 1 else 0) + Slashes(k[1..])
  }

  /** What decoding makes of the text written for k, from memory m with the text at `lag`. */
  ghost predicate Holds(m: seq<char>, lag: nat, k: string, junk: char) {
    NUL !in k && lag <= |m| && m[lag..] == Written(k, junk) + [NUL]
  }

  lemma HoldsEnds(m: seq<char>, lag: nat, k: string, junk: char)
    requires Holds(m, lag, k, junk)
    ensures lag < |m| && m[|m| - 1] == NUL && |m| == lag + |Written(k, junk)| + 1
    ensures Written(k, junk) == "" ==> m[lag] == NUL
  {
    assert |m[lag..]| == |Written(k, junk)| + 1;
    assert m[|m| - 1] == m[lag..][|m[lag..]| - 1];
  }

  /** The bytes written for the first byte of k, unless a NUL cuts the text off there. */
  function Unit(c: char, junk: char): string {
    if c == '/' then [junk, '1'] else if c == '~' then "~1" else [c]
  }

  lemma HoldsHead(m: seq<char>, lag: nat, k: string, junk: char)
    requires Holds(m, lag, k, junk) && k != "" && !(k[0] == '/' && junk == NUL)
    ensures var u := Unit(k[0], junk);
      lag + |u| < |m| && m[|m| - 1] == NUL && m[lag] == u[0] && (|u| == 2 ==> m[lag + 1] == u[1]) &&
      Holds(m, lag + |u|, k[1..], junk)
  {
    var u := Unit(k[0], junk);
    HoldsEnds(m, lag, k, junk);
    assert m[lag..] == u + (Written(k[1..], junk) + [NUL]);
    assert m[lag..][0] == m[lag] && m[lag..][|u|..] == m[lag + |u|..];
    if |u| == 2 {
      assert m[lag..][1] == m[lag + 1];
    }
  }

  lemma HoldsShifted(m: seq<char>, lag: nat, k: string, junk: char)
    requires Holds(m, lag, k, junk) && lag > 0
    ensures Holds(m[1..], lag - 1, k, junk)
    ensures lag > 1 ==> Holds(m[1 := '/'][1..], lag - 1, k, junk)
  {
    HoldsEnds(m, lag, k, junk);
    ShiftTail(m, lag - 1);
  }

  /** What is left of the memory, and how far behind the decoder is, after the first byte of k. */
  function NextMemory(m: seq<char>, k: string, junk: char): seq<char>
    requires k != "" && |m| > 1
  {
    var u := Unit(k[0], junk);
    if u == "~1" then m[1 := '/'][1..] else m[|u|..]
  }

  function NextLag(lag: nat, k: string, junk: char): nat
    requires k != ""
  {
    if Unit(k[0], junk) == "~1" then lag + 1 else lag
  }

  lemma UnitRead(m: seq<char>, lag: nat, k: string, junk: char)
    requires Holds(m, lag, k, junk) && k != "" && !(k[0] == '/' && junk == NUL) && |m| > 1
    ensures Holds(NextMemory(m, k, junk), NextLag(lag, k, junk), k[1..], junk)
  {
    var u := Unit(k[0], junk);
    HoldsHead(m, lag, k, junk);
    HoldsShifted(m, lag + |u|, k[1..], junk);
    if |u| == 2 && u != "~1" {
      HoldsShifted(m[1..], lag + 1, k[1..], junk);
      DropTwo(m);
    }
  }

  /** Reading what was written for the first byte of a key. */
  lemma DecodingHead(m: seq<char>, lag: nat, k: string, junk: char)
    requires Holds(m, lag, k, junk) && k != "" && !(k[0] == '/' && junk == NUL) && |m| > 1
    ensures lag < |m| && m[|m| - 1] == NUL
    ensures var next, l := NextMemory(m, k, junk), NextLag(lag, k, junk);
      l < |next| && next[|next| - 1] == NUL &&
      Decoding(m, lag) ==
      (if |Unit(k[0], junk)| == 2 && junk != '~' && k[0] == '/' then m[..2] else [m[0]]) + Decoding(next, l)
  {
    var u := Unit(k[0], junk);
    HoldsHead(m, lag, k, junk);
    UnitRead(m, lag, k, junk);
    HoldsEnds(NextMemory(m, k, junk), NextLag(lag, k, junk), k[1..], junk);
    if |u| == 2 && u != "~1" {
      TwoPlain(m, lag);
    }
  }

  lemma DropTwo(m: seq<char>)
    requires |m| > 1
    ensures m[1..][1..] == m[2..] && m[..2] == [m[0]] + [m[1]]
  {
  }

  lemma OnePlain(m: seq<char>, lag: nat)
    requires lag + 1 < |m| && m[|m| - 1] == NUL && m[lag] != NUL && m[lag] != '~'
    ensures m[1..][|m| - 2] == NUL && Decoding(m, lag) == [m[0]] + Decoding(m[1..], lag)
  {
  }

  lemma TwoPlain(m: seq<char>, lag: nat)
    requires lag + 2 < |m| && m[|m| - 1] == NUL
    requires m[lag] != NUL && m[lag] != '~' && m[lag + 1] != NUL && m[lag + 1] != '~'
    ensures m[2..][|m| - 3] == NUL && Decoding(m, lag) == m[..2] + Decoding(m[2..], lag)
  {
    OnePlain(m, lag);
    OnePlain(m[1..], lag);
    DropTwo(m);
    AppendAssociates([m[0]], [m[1]], Decoding(m[2..], lag));
  }

  /** Decoding writes one byte for a byte of the key, and two for a '/' unless the junk made it an escape. */
  lemma {:induction false} DecodingLength(m: seq<char>, lag: nat, k: string, junk: char)
    requires Holds(m, lag, k, junk) && junk != NUL
    ensures lag < |m| && m[|m| - 1] == NUL
    ensures |Decoding(m, lag)| == |k| + if junk == '~' then 0 else Slashes(k)
    decreases |k|
  {
    HoldsEnds(m, lag, k, junk);
    if k != "" {
      HoldsHead(m, lag, k, junk);
      UnitRead(m, lag, k, junk);
      DecodingHead(m, lag, k, junk);
      DecodingLength(NextMemory(m, k, junk), NextLag(lag, k, junk), k[1..], junk);
    }
  }

  // ---------------------------------------------------------------- keys that are read back

  predicate AllSlashes(k: string) {
    forall i :: 0 <= i < |k| ==> k[i] == '/'
  }

  /**
   The keys that decoding restores from what encoding has written: no '/' and no '~' except at the very end. If
   the junk happens to be '~' itself, the last '~' may be followed by '/' only.
   */
  predicate Restored(k: string, junk: char) {
    k == "" ||
    (k[0] != '/' && if k[0] == '~' then AllSlashes(k[1..]) && (k[1..] == "" || junk == '~') else Restored(k[1..], junk))
  }

  lemma AllSlashesCons(k: string)
    requires k != ""
    ensures AllSlashes(k) <==> k[0] == '/' && AllSlashes(k[1..])
  {
    assert forall i :: 0 < i < |k| ==> k[i] == k[1..][i - 1];
  }

  /** Behind an escape, with '/' at the front of the memory: only '/' is read back, and only through escapes. */
  lemma {:induction false} SlashesRestored(m: seq<char>, lag: nat, k: string)
    requires Holds(m, lag, k, '~') && m != [] && m[0] == '/' && lag > 0
    ensures lag < |m| && m[|m| - 1] == NUL && (Decoding(m, lag) == k <==> AllSlashes(k))
    decreases |k|
  {
    HoldsEnds(m, lag, k, '~');
    if k != "" {
      HoldsHead(m, lag, k, '~');
      UnitRead(m, lag, k, '~');
      DecodingHead(m, lag, k, '~');
      AllSlashesCons(k);
      var next, l := NextMemory(m, k, '~'), NextLag(lag, k, '~');
      HeadTail(k);
      ConsSame(m[0], Decoding(next, l), k[0], k[1..]);
      if k[0] == '/' {
        SlashesRestored(next, l, k[1..]);
      }
    }
  }

  lemma ConsSame(c: char, s: string, d: char, t: string)
    ensures [c] + s == [d] + t <==> c == d && s == t
  {
    if [c] + s == [d] + t {
      ConsTail(c, s);
      ConsTail(d, t);
    }
  }

  lemma SlashCount(k: string)
    requires k != "" && k[0] == '/'
    ensures Slashes(k) > 0
  {
  }

  /** Behind an escape in general. */
  lemma BehindEscape(m: seq<char>, lag: nat, k: string, junk: char)
    requires Holds(m, lag, k, junk) && m != [] && m[0] == '/' && lag > 0
    ensures lag < |m| && m[|m| - 1] == NUL
    ensures Decoding(m, lag) == k <==> AllSlashes(k) && (k == "" || junk == '~')
  {
    HoldsEnds(m, lag, k, junk);
    if junk == '~' {
      SlashesRestored(m, lag, k);
    } else if k != "" {
      if k[0] != '/' {
        HoldsHead(m, lag, k, junk);
        DecodingHead(m, lag, k, junk);
      } else if junk != NUL {
        DecodingLength(m, lag, k, junk);
      }
    }
  }

  /** From the front of a key, the decoder not being behind. */
  lemma {:induction false} WrittenRestored(k: string, junk: char)
    requires NUL !in k
    ensures Decoding(Written(k, junk) + [NUL], 0) == k <==> Restored(k, junk)
    decreases |k|
  {
    var m := Written(k, junk) + [NUL];
    assert m[0..] == m;
    HoldsEnds(m, 0, k, junk);
    if k != "" {
      if k[0] == '/' && junk == NUL {
        assert Decoding(m, 0) == "";
      } else {
        HoldsHead(m, 0, k, junk);
        UnitRead(m, 0, k, junk);
        DecodingHead(m, 0, k, junk);
        var next, l := NextMemory(m, k, junk), NextLag(0, k, junk);
        HeadTail(k);
        if k[0] == '/' {
          SlashLost(m, k, junk);
        } else {
          ConsSame(m[0], Decoding(next, l), k[0], k[1..]);
          if k[0] == '~' {
            BehindEscape(next, l, k[1..], junk);
          } else {
            assert next == Written(k[1..], junk) + [NUL];
            WrittenRestored(k[1..], junk);
          }
        }
      }
    }
  }

  lemma SlashLost(m: seq<char>, k: string, junk: char)
    requires Holds(m, 0, k, junk) && k != "" && k[0] == '/' && junk != NUL
    ensures m != [] && m[|m| - 1] == NUL && Decoding(m, 0) != k
  {
    HoldsHead(m, 0, k, junk);
    DecodingLength(m, 0, k, junk);
    DecodingHead(m, 0, k, junk);
    SlashCount(k);
  }

  /** What patching relies on: exactly the keys that decoding restores from the segment written for them. */
  lemma RestoredExactly(k: string, junk: char)
    requires NUL !in k
    ensures DecodedText(Token(k, junk)) == k <==> Restored(k, junk)
  {
    TokenIs(k, junk);
    DecodedTextIs(Token(k, junk));
    WrittenRestored(k, junk);
    if k != "" && k[0] == '/' {
      assert Decoding("" + [NUL], 0) == "";
    }
  }

  /** Over leftovers that differ from place to place a key can be read back that one leftover byte spoils. */
  lemma MixedLeftovers()
    ensures var mem := ['x', 'x', '/', 'x', NUL, 'x', 'x'];
      |mem| > EncodedLength("~//") && DecodedText(CStr(Encoded("~//", mem))) == "~//"
    ensures !Restored("~//", '/') && !Restored("~//", NUL)
  {
    var k := "~//";
    assert k[1] == '/';
    MixedWritten();
    MixedRead();
  }

  lemma MixedWritten()
    ensures var mem := ['x', 'x', '/', 'x', NUL, 'x', 'x'];
      |mem| > EncodedLength("~//") && CStr(Encoded("~//", mem)) == "~1/1"
  {
    var mem := ['x', 'x', '/', 'x', NUL, 'x', 'x'];
    assert "~//"[1..] == "//" && "//"[1..] == "/" && "/"[1..] == "";
    EncodedStep("~//", mem);
    EncodedStep("//", mem[2..]);
    EncodedStep("/", mem[4..]);
    assert Encoded("", mem[6..]) == [NUL];
    var w := Encoded("~//", mem);
    assert w == ['~', '1', '/', '1', NUL, '1', NUL] == "~1/1" + [NUL] + ['1', NUL];
    CStrOf("~1/1", ['1', NUL]);
  }

  lemma MixedRead()
    ensures DecodedText("~1/1") == "~//"
  {
    var m := "~1/1" + [NUL];
    var n := m[1 := '/'];
    assert n == ['~', '/', '/', '1', NUL];
    assert Decoded(m, 0, 0) == Decoded(n, 1, 2) == Decoded(n, 2, 3) == Decoded(n, 3, 4) == n[3 := NUL];
    assert n[3 := NUL] == "~//" + [NUL] + [NUL];
    CStrOf("~//", [NUL]);
  }
}
