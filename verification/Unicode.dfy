/**
 Strings written as "\uXXXX" escapes: what the parser makes of any sequence of Unicode scalar values, and
 that the bytes it makes are the UTF-8 form of exactly that sequence.
 */
module Unicode {
  import opened CStrings
  import opened Seqs
  import opened JsonValues
  import opened JsonText
  import opened JsonStrings
  import opened JsonRoundTrip

  /** A Unicode scalar value other than NUL. */
  predicate Scalar(cp: nat) {
    0 < cp < 0xD800 || 0xE000 <= cp < 0x110000
  }

  predicate Scalars(cps: seq<nat>) {
    forall i :: 0 <= i < |cps| ==> Scalar(cps[i])
  }

  /** The letter case of the hexadecimal digits of two escapes. */
  datatype Letters = Letters(high: Cases, low: Cases)

  /** The first half of a surrogate pair, and the second. */
  function High(cp: nat): (n: nat)
    requires 0x10000 <= cp < 0x110000
    ensures n < 0x10000
  {
    0xD800 + (cp - 0x10000) / 0x400
  }

  function Low(cp: nat): (n: nat)
    requires 0x10000 <= cp < 0x110000
    ensures n < 0x10000
  {
    0xDC00 + (cp - 0x10000) % 0x400
  }

  /** One scalar as an escape, or above U+FFFF as a surrogate pair of escapes (section 7 of RFC 8259). */
  function EscapeScalar(cp: nat, upper: Letters): string
    requires Scalar(cp)
  {
    if cp < 0x10000 then "\\u" + Hex4(cp, upper.low)
    else "\\u" + Hex4(High(cp), upper.high) + ("\\u" + Hex4(Low(cp), upper.low))
  }

  /** Every digit chooses its letter case. */
  function EscapeScalars(cps: seq<nat>, upper: seq<Letters>): string
    requires Scalars(cps) && |upper| == |cps|
  {
    if cps == [] then "" else EscapeScalar(cps[0], upper[0]) + EscapeScalars(cps[1..], upper[1..])
  }

  function Utf8All(cps: seq<nat>): string
    requires Scalars(cps)
  {
    if cps == [] then "" else Utf8(cps[0]) + Utf8All(cps[1..])
  }

  // ---------------------------------------------------------------- reading UTF-8

  predicate IsContinuation(b: char) {
    0x80 <= b as int < 0xC0
  }

  /** The first character of a UTF-8 string and its length (section 4 of RFC 3629), none if it is malformed. */
  function ReadUtf8(s: string): (r: Option<(nat, nat)>)
    ensures r.Some? ==> 0 < r.value.1 <= |s|
  {
    if s == "" then None
    else
      var b := s[0] as int;
      if b < 0x80 then Some((b, 1))
      else if 0xC0 <= b < 0xE0 && |s| >= 2 && IsContinuation(s[1]) then
        var cp := (b - 0xC0) * 64 + (s[1] as int - 0x80);
        if cp < 0x80 then None else Some((cp, 2))
      else if 0xE0 <= b < 0xF0 && |s| >= 3 && IsContinuation(s[1]) && IsContinuation(s[2]) then
        var cp := (b - 0xE0) * 4096 + (s[1] as int - 0x80) * 64 + (s[2] as int - 0x80);
        if cp < 0x800 || 0xD800 <= cp < 0xE000 then None else Some((cp, 3))
      else if 0xF0 <= b < 0xF8 && |s| >= 4 && IsContinuation(s[1]) && IsContinuation(s[2]) && IsContinuation(s[3]) then
        var cp := (b - 0xF0) * 262144 + (s[1] as int - 0x80) * 4096 + (s[2] as int - 0x80) * 64 + (s[3] as int - 0x80);
        if cp < 0x10000 || cp >= 0x110000 then None else Some((cp, 4))
      else None
  }

  function ReadAllUtf8(s: string): Option<seq<nat>> {
    if s == "" then Some([])
    else
      match ReadUtf8(s)
      case None => None
      case Some((cp, length)) =>
        match ReadAllUtf8(s[length..])
        case None => None
        case Some(rest) => Some([cp] + rest)
  }

  lemma SixBits(cp: nat)
    ensures IsContinuation(Continuation(cp)) && Continuation(cp) as int - 0x80 == cp % 64
    ensures cp == cp / 64 * 64 + cp % 64
  {
  }

  lemma Utf8Reads(cp: nat, rest: string)
    requires Scalar(cp)
    ensures ReadUtf8(Utf8(cp) + rest) == Some((cp, |Utf8(cp)|)) && NUL !in Utf8(cp)
  {
    if cp < 0x800 {
      ShortReads(cp, rest);
    } else if cp < 0x10000 {
      ThreeRead(cp, rest);
    } else {
      FourRead(cp, rest);
    }
  }

  lemma ShortReads(cp: nat, rest: string)
    requires cp < 0x800 && Scalar(cp)
    ensures ReadUtf8(Utf8(cp) + rest) == Some((cp, |Utf8(cp)|)) && NUL !in Utf8(cp)
  {
    var s := Utf8(cp) + rest;
    assert forall k :: 0 <= k < |Utf8(cp)| ==> s[k] == Utf8(cp)[k];
    SixBits(cp);
  }

  lemma ThreeRead(cp: nat, rest: string)
    requires 0x800 <= cp < 0x10000 && Scalar(cp)
    ensures ReadUtf8(Utf8(cp) + rest) == Some((cp, |Utf8(cp)|)) && NUL !in Utf8(cp)
  {
    var s := Utf8(cp) + rest;
    assert forall k :: 0 <= k < |Utf8(cp)| ==> s[k] == Utf8(cp)[k];
    SixBits(cp);
    SixBits(cp / 64);
    assert cp / 64 / 64 == cp / 4096;
  }

  lemma FourRead(cp: nat, rest: string)
    requires 0x10000 <= cp && Scalar(cp)
    ensures ReadUtf8(Utf8(cp) + rest) == Some((cp, |Utf8(cp)|)) && NUL !in Utf8(cp)
  {
    var s := Utf8(cp) + rest;
    assert forall k :: 0 <= k < |Utf8(cp)| ==> s[k] == Utf8(cp)[k];
    SixBits(cp);
    SixBits(cp / 64);
    SixBits(cp / 4096);
    assert cp / 64 / 64 == cp / 4096 && cp / 4096 / 64 == cp / 262144;
  }

  /** Reading the UTF-8 form of scalars gives back the scalars. */
  lemma {:induction false} Utf8AllReads(cps: seq<nat>)
    requires Scalars(cps)
    ensures ReadAllUtf8(Utf8All(cps)) == Some(cps) && NUL !in Utf8All(cps)
  {
    if cps != [] {
      var first, rest := Utf8(cps[0]), Utf8All(cps[1..]);
      Utf8Reads(cps[0], rest);
      Utf8AllReads(cps[1..]);
      assert (first + rest)[|first|..] == rest;
      HeadTail(cps);
    }
  }

  // ---------------------------------------------------------------- the scans

  /** The two halves of a surrogate pair combine to the scalar. */
  lemma PairCombines(cp: nat)
    requires 0x10000 <= cp < 0x110000
    ensures 0xD800 <= High(cp) < 0xDC00 <= Low(cp) < 0xE000
    ensures 0x10000 + High(cp) % 0x400 * 0x400 + Low(cp) % 0x400 == cp
  {
    var q, r := (cp - 0x10000) / 0x400, (cp - 0x10000) % 0x400;
    assert q < 0x400 && (0xD800 + q) % 0x400 == q && (0xDC00 + r) % 0x400 == r;
  }

  /** The four digits of an escape, and the first scan over it. */
  lemma EscapeStands(c: seq<char>, p: nat, e: nat, n: nat, upper: Cases)
    requires n < 0x10000 && Spans(c, p, e, "\\u" + Hex4(n, upper))
    ensures e == p + 6 && c[p] == '\\' && c[p + 1] == 'u' && ParseHex4(c, p + 2) == n
    ensures EndOfString(c, p) == EndOfString(c, e)
  {
    var m := SpansParts(c, p, e, "\\u", Hex4(n, upper));
    SpansByte(c, p, m, "\\u", 0);
    SpansByte(c, p, m, "\\u", 1);
    Hex4Read(c, m, e, n, upper);
  }

  lemma PairStands(c: seq<char>, p: nat, m: nat, e: nat, cp: nat, end: nat)
    requires 0x10000 <= cp < 0x110000 && m == p + 6 && e == p + 12 && e <= end < |c|
    requires c[p] == '\\' && c[p + 1] == 'u' && ParseHex4(c, p + 2) == High(cp)
    requires c[m] == '\\' && c[m + 1] == 'u' && ParseHex4(c, m + 2) == Low(cp)
    ensures Utf16CodePoint(c, p, end) == CodePoint(cp, 12)
  {
    PairCombines(cp);
  }

  lemma ScanScalar(c: seq<char>, p: nat, e: nat, cp: nat, upper: Letters, end: nat)
    requires Scalar(cp) && Spans(c, p, e, EscapeScalar(cp, upper)) && e <= end < |c|
    ensures EndOfString(c, p) == EndOfString(c, e)
    ensures Unescape(c, p, end) == After(Utf8(cp), Unescape(c, e, end))
  {
    if cp < 0x10000 {
      ScanHex(c, p, e, cp, upper.low, end);
    } else {
      var m := SpansParts(c, p, e, "\\u" + Hex4(High(cp), upper.high), "\\u" + Hex4(Low(cp), upper.low));
      EscapeStands(c, p, m, High(cp), upper.high);
      EscapeStands(c, m, e, Low(cp), upper.low);
      PairStands(c, p, m, e, cp, end);
    }
  }

  lemma {:induction false} ScanScalars(c: seq<char>, p: nat, e: nat, cps: seq<nat>, upper: seq<Letters>)
    requires Scalars(cps) && |upper| == |cps| && Spans(c, p, e, EscapeScalars(cps, upper)) && e < |c| && c[e] == '\"'
    ensures EndOfString(c, p) == Some(e) && Unescape(c, p, e) == Unescaped(Utf8All(cps))
    decreases |cps|
  {
    if cps != [] {
      var m := SpansParts(c, p, e, EscapeScalar(cps[0], upper[0]), EscapeScalars(cps[1..], upper[1..]));
      ScanScalar(c, p, m, cps[0], upper[0], e);
      ScanScalars(c, m, e, cps[1..], upper[1..]);
    }
  }

  /**
   A literal made of escapes, with any mixture of letter cases, parses to a string whose bytes read back, as UTF-8,
   as the scalars that were escaped.
   */
  lemma EscapedScalarsParse(c: seq<char>, i: nat, e: nat, cps: seq<nat>, upper: seq<Letters>)
    requires Scalars(cps) && |upper| == |cps| && Spans(c, i, e, "\"" + EscapeScalars(cps, upper) + "\"")
    ensures i < |c| && ParseString(c, i) == Ok(Utf8All(cps), e) && ReadAllUtf8(Utf8All(cps)) == Some(cps)
  {
    var close := SpansParts(c, i, e, "\"" + EscapeScalars(cps, upper), "\"");
    var start := SpansParts(c, i, close, "\"", EscapeScalars(cps, upper));
    SpansByte(c, i, start, "\"", 0);
    SpansByte(c, close, e, "\"", 0);
    ScanScalars(c, start, close, cps, upper);
    Utf8AllReads(cps);
    CStrWhole(Utf8All(cps));
  }
}
