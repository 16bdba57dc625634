/**
 String literals by the bytes that spell them: every spelling of section 7 of RFC 8259 is read as what it means,
 and a backslash in front of any other byte is refused.
 */
module StringSpelling {
  import opened CStrings
  import opened Seqs
  import opened JsonValues
  import opened JsonText
  import opened JsonStrings
  import opened JsonRoundTrip
  import opened Unicode

  // ---------------------------------------------------------------- spellings

  /** One way to spell one character, or one byte of it. */
  datatype Piece =
    | Raw(b: char)
    | QuoteEscape
    | BackslashEscape
    | SlashEscape
    | BackspaceEscape
    | FormFeedEscape
    | NewlineEscape
    | ReturnEscape
    | TabEscape
    | Hex(cp: nat, upper: Letters)
    | NoHex(text: string)

  const HEX_DIGITS: string := "0123456789abcdefABCDEF"

  /** Nothing that the closing quote or an escape starts with, and no terminator. */
  predicate Plain(b: char) {
    b != '\"' && b != '\\' && b != NUL
  }

  predicate Proper(p: Piece) {
    match p
    case Raw(b) => Plain(b)
    case Hex(cp, _) => cp == 0 || Scalar(cp)
    case NoHex(text) =>
      |text| == 4 && (forall i :: 0 <= i < 4 ==> Plain(text[i])) && exists i :: 0 <= i < 4 && text[i] !in HEX_DIGITS
    case _ => true
  }

  /** The bytes of a spelling; from U+10000 on it is a surrogate pair. */
  function Spelling(p: Piece): string
    requires Proper(p)
  {
    match p
    case Raw(b) => [b]
    case QuoteEscape => "\\\""
    case BackslashEscape => "\\\\"
    case SlashEscape => "\\/"
    case BackspaceEscape => "\\b"
    case FormFeedEscape => "\\f"
    case NewlineEscape => "\\n"
    case ReturnEscape => "\\r"
    case TabEscape => "\\t"
    case Hex(cp, upper) => if cp == 0 then "\\u0000" else EscapeScalar(cp, upper)
    case NoHex(text) => "\\u" + text
  }

  /** The bytes it means. Four bytes after "\u" that are not all digits are taken for zero. */
  function Meaning(p: Piece): string
    requires Proper(p)
  {
    match p
    case Raw(b) => [b]
    case QuoteEscape => [0x22 as char]
    case BackslashEscape => [0x5C as char]
    case SlashEscape => [0x2F as char]
    case BackspaceEscape => [0x08 as char]
    case FormFeedEscape => [0x0C as char]
    case NewlineEscape => [0x0A as char]
    case ReturnEscape => [0x0D as char]
    case TabEscape => [0x09 as char]
    case Hex(cp, _) => Utf8(cp)
    case NoHex(_) => [NUL]
  }

  predicate AllProper(ps: seq<Piece>) {
    forall i :: 0 <= i < |ps| ==> Proper(ps[i])
  }

  function SpellingAll(ps: seq<Piece>): string
    requires AllProper(ps)
  {
    if ps == [] then "" else Spelling(ps[0]) + SpellingAll(ps[1..])
  }

  function MeaningAll(ps: seq<Piece>): string
    requires AllProper(ps)
  {
    if ps == [] then "" else Meaning(ps[0]) + MeaningAll(ps[1..])
  }

  // ---------------------------------------------------------------- one piece

  lemma HexDigitsAre(d: char)
    ensures d in HEX_DIGITS <==> HexValue(d) != None
  {
    if '0' <= d <= '9' {
      assert HEX_DIGITS[d as int - '0' as int] == d;
    } else if 'a' <= d <= 'f' {
      assert HEX_DIGITS[10 + (d as int - 'a' as int)] == d;
    } else if 'A' <= d <= 'F' {
      assert HEX_DIGITS[16 + (d as int - 'A' as int)] == d;
    }
  }

  lemma FourPlain(c: seq<char>, p: nat, e: nat, text: string)
    requires Spans(c, p, e, text) && |text| == 4 && forall i :: 0 <= i < 4 ==> Plain(text[i])
    ensures e == p + 4 && EndOfString(c, p) == EndOfString(c, e)
    ensures forall i :: 0 <= i < 4 ==> c[p + i] == text[i]
  {
    SpansByte(c, p, e, text, 0);
    SpansByte(c, p, e, text, 1);
    SpansByte(c, p, e, text, 2);
    SpansByte(c, p, e, text, 3);
    PassOver(c, p);
    PassOver(c, p + 1);
    PassOver(c, p + 2);
    PassOver(c, p + 3);
  }

  lemma NoHexIsZero(c: seq<char>, p: nat, e: nat, text: string)
    requires Proper(NoHex(text)) && Spans(c, p, e, "\\u" + text)
    ensures e == p + 6 <= |c| && ParseHex4(c, p + 2) == 0
  {
    var m := SpansParts(c, p, e, "\\u", text);
    FourPlain(c, m, e, text);
    var i :| 0 <= i < 4 && text[i] !in HEX_DIGITS;
    HexDigitsAre(text[i]);
    assert HexValue(c[m + i]) == None;
  }

  /** A "\u" with something else than four digits behind it. */
  lemma ScanNoHex(c: seq<char>, p: nat, e: nat, text: string, end: nat)
    requires Proper(NoHex(text)) && Spans(c, p, e, "\\u" + text) && e <= end < |c|
    ensures EndOfString(c, p) == EndOfString(c, e)
    ensures Unescape(c, p, end) == After([NUL], Unescape(c, e, end))
  {
    hide ParseHex4;
    var m := SpansParts(c, p, e, "\\u", text);
    SpansByte(c, p, m, "\\u", 0);
    SpansByte(c, p, m, "\\u", 1);
    FourPlain(c, m, e, text);
    NoHexIsZero(c, p, e, text);
  }

  lemma ScanZero(c: seq<char>, p: nat, e: nat, end: nat)
    requires Spans(c, p, e, "\\u0000") && e <= end < |c|
    ensures EndOfString(c, p) == EndOfString(c, e)
    ensures Unescape(c, p, end) == After(Utf8(0), Unescape(c, e, end))
  {
    assert "\\u0000" == "\\u" + Hex4(0, LOWER_CASE);
    ScanHex(c, p, e, 0, LOWER_CASE, end);
  }

  /** The escapes of two bytes. */
  lemma ScanLetter(c: seq<char>, p: nat, e: nat, piece: Piece, end: nat)
    requires Proper(piece) && !piece.Raw? && !piece.Hex? && !piece.NoHex?
    requires Spans(c, p, e, Spelling(piece)) && e <= end < |c|
    ensures EndOfString(c, p) == EndOfString(c, e)
    ensures Unescape(c, p, end) == After(Meaning(piece), Unescape(c, e, end))
  {
    SpansByte(c, p, e, Spelling(piece), 0);
    SpansByte(c, p, e, Spelling(piece), 1);
    assert c[p] == '\\' && SimpleEscape(c[p + 1]) == Some(Meaning(piece)[0]);
  }

  lemma ScanRaw(c: seq<char>, p: nat, e: nat, b: char, end: nat)
    requires Plain(b) && Spans(c, p, e, [b]) && e <= end < |c|
    ensures EndOfString(c, p) == EndOfString(c, e)
    ensures Unescape(c, p, end) == After([b], Unescape(c, e, end))
  {
    SpansByte(c, p, e, [b], 0);
  }

  /** Both scans over one spelling. */
  lemma ScanPiece(c: seq<char>, p: nat, e: nat, piece: Piece, end: nat)
    requires Proper(piece) && Spans(c, p, e, Spelling(piece)) && e <= end < |c|
    ensures EndOfString(c, p) == EndOfString(c, e)
    ensures Unescape(c, p, end) == After(Meaning(piece), Unescape(c, e, end))
  {
    match piece
    case Raw(b) => ScanRaw(c, p, e, b, end);
    case Hex(cp, upper) =>
      if cp == 0 {
        ScanZero(c, p, e, end);
      } else {
        ScanScalar(c, p, e, cp, upper, end);
      }
    case NoHex(text) => ScanNoHex(c, p, e, text, end);
    case _ => ScanLetter(c, p, e, piece, end);
  }

  /** Both scans over a run of spellings. */
  lemma {:induction false} ScanPieces(c: seq<char>, p: nat, e: nat, ps: seq<Piece>, end: nat)
    requires AllProper(ps) && Spans(c, p, e, SpellingAll(ps)) && e <= end < |c|
    ensures EndOfString(c, p) == EndOfString(c, e)
    ensures Unescape(c, p, end) == After(MeaningAll(ps), Unescape(c, e, end))
    decreases |ps|
  {
    if ps == [] {
      AfterNothing(Unescape(c, e, end));
    } else {
      var m := SpansParts(c, p, e, Spelling(ps[0]), SpellingAll(ps[1..]));
      ScanPiece(c, p, m, ps[0], end);
      ScanPieces(c, m, e, ps[1..], end);
      AfterAfter(Meaning(ps[0]), MeaningAll(ps[1..]), Unescape(c, e, end));
    }
  }

  // ---------------------------------------------------------------- whole literals

  /** What both scans find makes up the result. */
  lemma LiteralRead(c: seq<char>, i: nat, close: nat, r: Unescaped)
    requires i < |c| && c[i] == '\"' && EndOfString(c, i + 1) == Some(close) && Unescape(c, i + 1, close) == r
    ensures ParseString(c, i) == match r case Broken(at) => Fail(at) case Unescaped(bytes) => Ok(CStr(bytes), close + 1)
  {
    hide EndOfString, Unescape, CStr;
  }

  /** At the closing quote both scans end. */
  lemma ScansEnd(c: seq<char>, close: nat)
    requires close < |c| && c[close] == '\"'
    ensures EndOfString(c, close) == Some(close) && Unescape(c, close, close) == Unescaped([])
  {
  }

  /**
   A literal made of any mixture of spellings is read as the bytes they mean, up to the first NUL among them, and
   ends behind its closing quote.
   */
  lemma SpellingsParse(c: seq<char>, i: nat, e: nat, ps: seq<Piece>)
    requires AllProper(ps) && Spans(c, i, e, "\"" + SpellingAll(ps) + "\"")
    ensures i < |c| && ParseString(c, i) == Ok(CStr(MeaningAll(ps)), e)
    ensures NUL !in MeaningAll(ps) ==> CStr(MeaningAll(ps)) == MeaningAll(ps)
  {
    hide EndOfString, Unescape, ParseString, CStr, SpellingAll, MeaningAll;
    var close := SpansParts(c, i, e, "\"" + SpellingAll(ps), "\"");
    var start := SpansParts(c, i, close, "\"", SpellingAll(ps));
    SpansByte(c, i, start, "\"", 0);
    SpansByte(c, close, e, "\"", 0);
    ScanPieces(c, start, close, ps, close);
    ScansEnd(c, close);
    AppendNothing(MeaningAll(ps));
    LiteralRead(c, i, close, Unescaped(MeaningAll(ps)));
    if NUL !in MeaningAll(ps) {
      CStrWhole(MeaningAll(ps));
    }
  }

  /** What no escape starts with: a letter other than the nine, or half a surrogate pair. */
  datatype Wrong =
    | WrongLetter(x: char)
    | LoneLow(half: nat, upper: Cases)
    | LoneHigh(half: nat, upper: Cases, next: Piece)

  predicate IsWrong(w: Wrong) {
    match w
    case WrongLetter(x) => x !in "\"\\/bfnrtu" && x != NUL
    case LoneLow(n, _) => 0xDC00 <= n < 0xE000
    case LoneHigh(n, _, next) => 0xD800 <= n < 0xDC00 && Proper(next)
  }

  function WrongText(w: Wrong): string
    requires IsWrong(w)
  {
    match w
    case WrongLetter(x) => ['\\', x]
    case LoneLow(n, upper) => "\\u" + Hex4(n, upper)
    case LoneHigh(n, upper, next) => "\\u" + Hex4(n, upper) + Spelling(next)
  }

  lemma ScanWrong(c: seq<char>, p: nat, e: nat, w: Wrong, end: nat)
    requires IsWrong(w) && Spans(c, p, e, WrongText(w)) && e <= end < |c|
    ensures p < e && EndOfString(c, p) == EndOfString(c, e) && Unescape(c, p, end) == Broken(p)
  {
    match w
    case WrongLetter(x) =>
      SpansByte(c, p, e, ['\\', x], 0);
      SpansByte(c, p, e, ['\\', x], 1);
    case LoneLow(n, upper) => EscapeStands(c, p, e, n, upper);
    case LoneHigh(n, upper, next) =>
      var m := SpansParts(c, p, e, "\\u" + Hex4(n, upper), Spelling(next));
      EscapeStands(c, p, m, n, upper);
      ScanPiece(c, m, e, next, end);
      NotLow(c, m, e, next);
  }

  /** No spelling starts with the second half of a pair. */
  lemma NotLow(c: seq<char>, m: nat, e: nat, next: Piece)
    requires Proper(next) && Spans(c, m, e, Spelling(next))
    ensures m < e && (e - m >= 6 && c[m] == '\\' && c[m + 1] == 'u' ==> !(0xDC00 <= ParseHex4(c, m + 2) < 0xE000))
    ensures e - m < 6 ==> !(c[m] == '\\' && m + 1 < e && c[m + 1] == 'u')
  {
    hide ParseHex4;
    var t := Spelling(next);
    SpansByte(c, m, e, t, 0);
    if |t| > 1 {
      SpansByte(c, m, e, t, 1);
    }
    match next
    case Hex(cp, upper) =>
      if cp == 0 {
        assert "\\u0000" == "\\u" + Hex4(0, LOWER_CASE);
        EscapeStands(c, m, e, 0, LOWER_CASE);
      } else if cp < 0x10000 {
        EscapeStands(c, m, e, cp, upper.low);
      } else {
        var k := SpansParts(c, m, e, "\\u" + Hex4(High(cp), upper.high), "\\u" + Hex4(Low(cp), upper.low));
        EscapeStands(c, m, k, High(cp), upper.high);
        PairCombines(cp);
      }
    case NoHex(text) => NoHexIsZero(c, m, e, text);
    case _ =>
  }

  /** A literal with something wrong in it is refused where that starts. */
  lemma WrongRefused(c: seq<char>, i: nat, e: nat, ps: seq<Piece>, w: Wrong, qs: seq<Piece>)
    requires AllProper(ps) && IsWrong(w) && AllProper(qs)
    requires Spans(c, i, e, "\"" + SpellingAll(ps) + WrongText(w) + SpellingAll(qs) + "\"")
    ensures i < |c| && ParseString(c, i) == Fail(i + 1 + |SpellingAll(ps)|)
  {
    hide EndOfString, Unescape, ParseString, SpellingAll, MeaningAll;
    var front := "\"" + SpellingAll(ps);
    var close := SpansParts(c, i, e, front + WrongText(w) + SpellingAll(qs), "\"");
    var behind := SpansParts(c, i, close, front + WrongText(w), SpellingAll(qs));
    var at := SpansParts(c, i, behind, front, WrongText(w));
    var start := SpansParts(c, i, at, "\"", SpellingAll(ps));
    SpansByte(c, i, start, "\"", 0);
    SpansByte(c, close, e, "\"", 0);
    ScanPieces(c, start, at, ps, close);
    ScanWrong(c, at, behind, w, close);
    ScanPieces(c, behind, close, qs, close);
    ScansEnd(c, close);
    LiteralRead(c, i, close, Broken(at));
  }

  lemma {:induction false} PlainPassed(c: seq<char>, p: nat, e: nat, text: string)
    requires Spans(c, p, e, text) && e < |c| && forall i :: 0 <= i < |text| ==> Plain(text[i])
    ensures EndOfString(c, p) == EndOfString(c, e)
    decreases |text|
  {
    if text != "" {
      SpansByte(c, p, e, text, 0);
      HeadTail(text);
      var m := SpansParts(c, p, e, [text[0]], text[1..]);
      PassOver(c, p);
      PlainPassed(c, m, e, text[1..]);
    }
  }

  /** So is one that closes inside an escape: less than four bytes behind "\u", or the first half of a pair alone. */
  lemma CutOffRefused(c: seq<char>, i: nat, e: nat, ps: seq<Piece>, text: string)
    requires AllProper(ps) && Spans(c, i, e, "\"" + SpellingAll(ps) + ("\\u" + text) + "\"")
    requires forall k :: 0 <= k < |text| ==> Plain(text[k])
    requires |text| < 4 || exists n, upper :: 0xD800 <= n < 0xDC00 && text == Hex4(n, upper)
    ensures i < |c| && ParseString(c, i) == Fail(i + 1 + |SpellingAll(ps)|)
  {
    hide EndOfString, Unescape, ParseString, SpellingAll, MeaningAll;
    var front := "\"" + SpellingAll(ps);
    var close := SpansParts(c, i, e, front + ("\\u" + text), "\"");
    var at := SpansParts(c, i, close, front, "\\u" + text);
    var start := SpansParts(c, i, at, "\"", SpellingAll(ps));
    SpansByte(c, i, start, "\"", 0);
    SpansByte(c, close, e, "\"", 0);
    ScanPieces(c, start, at, ps, close);
    CutOff(c, at, close, text);
    LiteralRead(c, i, close, Broken(at));
  }

  lemma CutOff(c: seq<char>, p: nat, end: nat, text: string)
    requires Spans(c, p, end, "\\u" + text) && end < |c| && c[end] == '\"'
    requires forall k :: 0 <= k < |text| ==> Plain(text[k])
    requires |text| < 4 || exists n, upper :: 0xD800 <= n < 0xDC00 && text == Hex4(n, upper)
    ensures p < end && EndOfString(c, p) == Some(end) && Unescape(c, p, end) == Broken(p)
  {
    var m := SpansParts(c, p, end, "\\u", text);
    SpansByte(c, p, m, "\\u", 0);
    SpansByte(c, p, m, "\\u", 1);
    PlainPassed(c, m, end, text);
    if |text| >= 4 {
      var n, upper :| 0xD800 <= n < 0xDC00 && text == Hex4(n, upper);
      EscapeStands(c, p, end, n, upper);
    }
  }

  /** A literal that is not closed before the text ends is refused at its first byte. */
  lemma UnclosedRefused(c: seq<char>, i: nat, ps: seq<Piece>)
    requires AllProper(ps) && i < |c| && Spans(c, i, |c|, "\"" + SpellingAll(ps) + [NUL])
    ensures ParseString(c, i) == Fail(i + 1)
  {
    var last := SpansParts(c, i, |c|, "\"" + SpellingAll(ps), [NUL]);
    var start := SpansParts(c, i, last, "\"", SpellingAll(ps));
    SpansByte(c, i, start, "\"", 0);
    SpansByte(c, last, |c|, [NUL], 0);
    ScanPieces(c, start, last, ps, last);
    PassOver(c, last);
  }

  /** Nor is there a literal without an opening quote. */
  lemma UnopenedRefused(c: seq<char>, i: nat)
    requires i < |c| && c[i] != '\"'
    ensures ParseString(c, i) == Fail(i + 1)
  {
  }

  // ---------------------------------------------------------------- the spelling of the printer

  /** How the printer spells a byte: the two-byte escapes but for '/', lower-case digits, everything else as it is. */
  function Printed(b: char): (p: Piece)
    requires b != NUL
    ensures Proper(p)
  {
    match b as int
    case 0x22 => QuoteEscape
    case 0x5C => BackslashEscape
    case 0x08 => BackspaceEscape
    case 0x0C => FormFeedEscape
    case 0x0A => NewlineEscape
    case 0x0D => ReturnEscape
    case 0x09 => TabEscape
    case n => if n < 0x20 then Hex(n, Letters(LOWER_CASE, LOWER_CASE)) else Raw(b)
  }

  function PrintedAll(s: string): (ps: seq<Piece>)
    requires NUL !in s
    ensures |ps| == |s| && AllProper(ps)
  {
    if s == "" then [] else [Printed(s[0])] + PrintedAll(s[1..])
  }

  /** The escaped text of a string is spelled so, and means the string. */
  lemma {:induction false} PrintedSpelling(s: string)
    requires NUL !in s
    ensures EscapeText(s) == SpellingAll(PrintedAll(s)) && MeaningAll(PrintedAll(s)) == s
  {
    if s != "" {
      PrintedSpelling(s[1..]);
      ConsTail(Printed(s[0]), PrintedAll(s[1..]));
      HeadTail(s);
    }
  }
}
