/**
 Parsing undoes printing. Printed text is looked at where it stands in the parse buffer, with the offset
 and depth the parser has when it gets there.
 */
module JsonRoundTrip {
  import opened CStrings
  import opened Seqs
  import opened JsonValues
  import opened JsonText
  import opened JsonStrings
  import opened JsonParser

  /** The text t stands in the buffer from i up to e. */
  predicate Spans(c: seq<char>, i: nat, e: nat, t: string) {
    i <= e <= |c| && c[i..e] == t
  }

  lemma SpansParts(c: seq<char>, i: nat, e: nat, a: string, b: string) returns (m: nat)
    requires Spans(c, i, e, a + b)
    ensures Spans(c, i, m, a) && Spans(c, m, e, b)
  {
    m := i + |a|;
    var s := c[i..e];
    assert s[..|a|] == a && s[|a|..] == b;
    assert c[i..m] == s[..|a|] && c[m..e] == s[|a|..];
  }

  lemma SpansByte(c: seq<char>, i: nat, e: nat, t: string, k: nat)
    requires Spans(c, i, e, t) && k < |t|
    ensures i + k < e == i + |t| && c[i + k] == t[k]
  {
    assert c[i..e][k] == c[i + k];
  }

  // ---------------------------------------------------------------- strings

  lemma HexDigitValue(d: nat, upper: bool)
    requires d < 16
    ensures HexValue(HexDigit(d, upper)) == Some(d)
    ensures HexDigit(d, upper) != '\"' && HexDigit(d, upper) != '\\'
  {
  }

  /** Four written digits are read back, and the first scan passes over them. */
  lemma Hex4Read(c: seq<char>, p: nat, e: nat, n: nat, upper: Cases)
    requires n < 0x10000 && Spans(c, p, e, Hex4(n, upper))
    ensures e == p + 4 && ParseHex4(c, p) == n && EndOfString(c, p) == EndOfString(c, e)
  {
    var t := Hex4(n, upper);
    SpansByte(c, p, e, t, 0);
    SpansByte(c, p, e, t, 1);
    SpansByte(c, p, e, t, 2);
    SpansByte(c, p, e, t, 3);
    HexDigitValue(n / 0x1000, upper.first);
    HexDigitValue(n / 0x100 % 16, upper.second);
    HexDigitValue(n / 16 % 16, upper.third);
    HexDigitValue(n % 16, upper.fourth);
    NibblesOf(n);
    PassOver(c, p);
    PassOver(c, p + 1);
    PassOver(c, p + 2);
    PassOver(c, p + 3);
  }

  lemma PassOver(c: seq<char>, p: nat)
    requires p < |c| && c[p] != '\"' && c[p] != '\\'
    ensures EndOfString(c, p) == EndOfString(c, p + 1)
  {
  }

  lemma NibblesOf(n: nat)
    requires n < 0x10000
    ensures Hex4Value(n / 0x1000, n / 0x100 % 16, n / 16 % 16, n % 16) == n
  {
    assert n / 0x100 == 16 * (n / 0x1000) + n / 0x100 % 16;
    assert n / 16 == 16 * (n / 0x100) + n / 16 % 16;
  }

  /** Both scans over an escape of two bytes. */
  lemma ScanPair(c: seq<char>, p: nat, e: nat, b: char, x: char, end: nat)
    requires Spans(c, p, e, ['\\', x]) && SimpleEscape(x) == Some(b) && e <= end < |c|
    ensures EndOfString(c, p) == EndOfString(c, e)
    ensures Unescape(c, p, end) == After([b], Unescape(c, e, end))
  {
    SpansByte(c, p, e, ['\\', x], 0);
    SpansByte(c, p, e, ['\\', x], 1);
  }

  /** Both scans over an escape of six bytes that stands for a code point of the basic plane. */
  lemma ScanHex(c: seq<char>, p: nat, e: nat, n: nat, upper: Cases, end: nat)
    requires n < 0x10000 && !(0xD800 <= n < 0xE000) && Spans(c, p, e, "\\u" + Hex4(n, upper)) && e <= end < |c|
    ensures e == p + 6 && EndOfString(c, p) == EndOfString(c, e)
    ensures Unescape(c, p, end) == After(Utf8(n), Unescape(c, e, end))
  {
    var m := SpansParts(c, p, e, "\\u", Hex4(n, upper));
    SpansByte(c, p, m, "\\u", 0);
    SpansByte(c, p, m, "\\u", 1);
    Hex4Read(c, m, e, n, upper);
  }

  /** Both scans over one printed byte. */
  lemma ScanByte(c: seq<char>, p: nat, e: nat, b: char, end: nat)
    requires b != NUL && Spans(c, p, e, EscapeByte(b)) && e <= end < |c|
    ensures EndOfString(c, p) == EndOfString(c, e)
    ensures Unescape(c, p, end) == After([b], Unescape(c, e, end))
  {
    var t := EscapeByte(b);
    if |t| == 1 {
      SpansByte(c, p, e, t, 0);
    } else if |t| == 2 {
      assert t == ['\\', t[1]];
      ScanPair(c, p, e, b, t[1], end);
    } else {
      ScanHex(c, p, e, b as int, LOWER_CASE, end);
    }
  }

  lemma {:induction false} ScanText(c: seq<char>, p: nat, e: nat, s: string)
    requires NUL !in s && Spans(c, p, e, EscapeText(s)) && e < |c| && c[e] == '\"'
    ensures EndOfString(c, p) == Some(e) && Unescape(c, p, e) == Unescaped(s)
    decreases |s|
  {
    if s != "" {
      var m := SpansParts(c, p, e, EscapeByte(s[0]), EscapeText(s[1..]));
      ScanByte(c, p, m, s[0], e);
      ScanText(c, m, e, s[1..]);
      HeadTail(s);
    }
  }

  lemma StringParses(c: seq<char>, i: nat, e: nat, s: string)
    requires NUL !in s && Spans(c, i, e, Quoted(s))
    ensures i < |c| && c[i] == '\"' && ParseString(c, i) == Ok(s, e)
  {
    var close := SpansParts(c, i, e, "\"" + EscapeText(s), "\"");
    var start := SpansParts(c, i, close, "\"", EscapeText(s));
    SpansByte(c, i, start, "\"", 0);
    SpansByte(c, close, e, "\"", 0);
    ScanText(c, start, close, s);
    CStrWhole(s);
  }

  // ---------------------------------------------------------------- numbers

  function PowerOfTen(k: nat): (r: nat)
    ensures r > 0
  {
    if k == 0 then 1 else 10 * PowerOfTen(k - 1)
  }

  lemma {:induction false} DecimalLength(n: nat, k: nat)
    requires k > 0 && n < PowerOfTen(k)
    ensures |Decimal(n)| <= k
  {
    if n >= 10 {
      assert PowerOfTen(k) == 10 * PowerOfTen(k - 1) && PowerOfTen(0) == 1;
      DecimalLength(n / 10, k - 1);
    }
  }

  lemma FifteenDigits(n: nat)
    requires n < MAX_INTEGER
    ensures |Decimal(n)| <= 15
  {
    assert PowerOfTen(5) == 100_000;
    assert PowerOfTen(10) == 100_000 * PowerOfTen(5);
    assert PowerOfTen(15) == 100_000 * PowerOfTen(10);
    DecimalLength(n, 15);
  }

  lemma {:induction false} RunIs(c: seq<char>, i: nat, e: nat, t: string, room: nat)
    requires Spans(c, i, e, t) && |t| <= room && forall k :: 0 <= k < |t| ==> NumberByte(t[k])
    requires e < |c| && !NumberByte(c[e])
    ensures NumberRun(c, i, room) == |t|
    decreases room
  {
    if t != "" {
      HeadTail(t);
      SpansByte(c, i, e, t, 0);
      assert c[i + 1..e] == t[1..];
      RunIs(c, i + 1, e, t[1..], room - 1);
    }
  }

  lemma {:induction false} DigitsRun(t: string, k: nat)
    requires k <= |t| && forall x :: k <= x < |t| ==> '0' <= t[x] <= '9'
    ensures DigitRun(t, k) == |t|
    decreases |t| - k
  {
    if k < |t| {
      DigitsRun(t, k + 1);
    }
  }

  lemma SumSuffix(a: string, b: string)
    ensures (a + b)[|a|..|a + b|] == b
  {
  }

  lemma DigitsRead(sign: string, n: nat)
    requires sign == "" || sign == "-"
    ensures var t := sign + Decimal(n);
      DigitRun(t, |sign|) == |t| && t[|sign|..|t|] == Decimal(n) && DigitsValue(t[|sign|..|t|]) == n
  {
    var t := sign + Decimal(n);
    SumSuffix(sign, Decimal(n));
    DecimalValue(n);
    assert forall x :: |sign| <= x < |t| ==> t[x] == Decimal(n)[x - |sign|];
    DigitsRun(t, |sign|);
  }

  lemma IntegerReads(n: int)
    ensures ReadInteger(IntegerText(n)) == Some((n, |IntegerText(n)|))
  {
    var t, m: nat := IntegerText(n), if n < 0 then -n else n;
    var sign := if n < 0 then "-" else "";
    assert t == sign + Decimal(m);
    DigitsRead(sign, m);
    assert t[0] == '-' <==> n < 0;
    assert t[0] != '+';
  }

  lemma NumberParses(c: seq<char>, i: nat, e: nat, n: int)
    requires -MAX_INTEGER < n < MAX_INTEGER && Spans(c, i, e, IntegerText(n))
    requires e < |c| && !NumberByte(c[e])
    ensures i < |c| && ParseNumber(c, i) == Ok(Number(n), e)
    ensures c[i] == '-' || '0' <= c[i] <= '9'
  {
    var t := IntegerText(n);
    SpansByte(c, i, e, t, 0);
    FifteenDigits(if n < 0 then -n else n);
    RunIs(c, i, e, t, NUMBER_BUFFER - 1);
    IntegerReads(n);
  }

  // ---------------------------------------------------------------- whitespace

  lemma {:induction false} SkipOver(c: seq<char>, i: nat, e: nat)
    requires i <= e < |c| && forall k :: i <= k < e ==> c[k] <= ' '
    ensures SkipWhitespace(c, i) == SkipWhitespace(c, e)
    decreases e - i
  {
    if i < e {
      SkipOver(c, i + 1, e);
    }
  }

  lemma SkipTabs(c: seq<char>, i: nat, e: nat, n: nat)
    requires Spans(c, i, e, Tabs(n)) && e < |c|
    ensures SkipWhitespace(c, i) == SkipWhitespace(c, e) && (i < e ==> c[i] == '\t')
  {
    forall k | i <= k < e
      ensures c[k] == '\t'
    {
      SpansByte(c, i, e, Tabs(n), k - i);
    }
    SkipOver(c, i, e);
  }

  // ---------------------------------------------------------------- values

  /** The first byte of a printed value is none that the parser skips or ends a list at. */
  lemma TextStarts(v: Json, fmt: bool, depth: nat)
    requires Printable(v)
    ensures var t := Text(v, fmt, depth); t != "" && t[0] > ' ' && t[0] != ']'
  {
  }

  lemma WordParses(c: seq<char>, i: nat, e: nat, t: string)
    requires Spans(c, i, e, t) && t != ""
    ensures Occurs(c, i, t) && e == i + |t| && c[i] == t[0]
  {
    SpansByte(c, i, e, t, 0);
  }

  /** Where `parse_value` goes. */
  lemma Dispatch(c: seq<char>, i: nat, depth: nat)
    requires Terminated(c) && i < |c|
    ensures Occurs(c, i, "null") ==> ParseValue(c, i, depth) == Ok(Null, i + 4)
    ensures Occurs(c, i, "false") ==> ParseValue(c, i, depth) == Ok(False, i + 5)
    ensures Occurs(c, i, "true") ==> ParseValue(c, i, depth) == Ok(True, i + 4)
    ensures c[i] == '-' || '0' <= c[i] <= '9' ==> ParseValue(c, i, depth) == ParseNumber(c, i)
    ensures c[i] == '[' ==> ParseValue(c, i, depth) == ParseArray(c, i, depth)
    ensures c[i] == '{' ==> ParseValue(c, i, depth) == ParseObject(c, i, depth)
    ensures c[i] == '\"' && ParseString(c, i).Ok? ==>
      ParseValue(c, i, depth) == Ok(String(ParseString(c, i).value), ParseString(c, i).next)
  {
    assert Occurs(c, i, "null") ==> c[i..i + 4][0] == c[i] == 'n';
    assert Occurs(c, i, "false") ==> c[i..i + 5][0] == c[i] == 'f';
    assert Occurs(c, i, "true") ==> c[i..i + 4][0] == c[i] == 't';
  }

  /** A printed value, followed by a byte that cannot belong to a number, is parsed back. */
  lemma {:induction false} ValueParses(c: seq<char>, i: nat, e: nat, v: Json, fmt: bool, indent: nat, depth: nat)
    requires Terminated(c) && Printable(v) && depth + Height(v) <= NESTING_LIMIT
    requires Spans(c, i, e, Text(v, fmt, indent)) && e < |c| && !NumberByte(c[e])
    ensures i < |c| && ParseValue(c, i, depth) == Ok(v, e)
    decreases v, 2
  {
    TextStarts(v, fmt, indent);
    WordParses(c, i, e, Text(v, fmt, indent));
    Dispatch(c, i, depth);
    match v
    case Number(n) => NumberParses(c, i, e, n);
    case String(s) => StringParses(c, i, e, s);
    case Array(items) => ArrayParses(c, i, e, items, fmt, indent, depth);
    case Object(ms) => ObjectParses(c, i, e, ms, fmt, indent, depth);
    case _ =>
  }

  // ---------------------------------------------------------------- arrays

  lemma {:induction false} ArrayParses(c: seq<char>, i: nat, e: nat, items: seq<Json>, fmt: bool, indent: nat,
          depth: nat)
    requires Terminated(c) && depth + 1 + ItemsHeight(items) <= NESTING_LIMIT
    requires forall k :: 0 <= k < |items| ==> Printable(items[k])
    requires i < |c| && c[i] == '[' && Spans(c, i, e, "[" + ItemsText(items, fmt, indent + 1) + "]")
    ensures ParseArray(c, i, depth) == Ok(Array(items), e)
    decreases items, 1
  {
    var close := SpansParts(c, i, e, "[" + ItemsText(items, fmt, indent + 1), "]");
    var q := SpansParts(c, i, close, "[", ItemsText(items, fmt, indent + 1));
    WordParses(c, close, e, "]");
    if items != [] {
      ItemsStart(c, q, close, items, fmt, indent + 1);
      ItemsParse(c, i, q, close, items, fmt, indent + 1, depth + 1);
    }
  }

  lemma ItemsStart(c: seq<char>, q: nat, e: nat, items: seq<Json>, fmt: bool, indent: nat)
    requires items != [] && Printable(items[0]) && Spans(c, q, e, ItemsText(items, fmt, indent))
    ensures q < |c| && c[q] > ' ' && c[q] != ']'
  {
    TextStarts(items[0], fmt, indent);
    SpansByte(c, q, e, ItemsText(items, fmt, indent), 0);
  }

  /** The first item ends at o; the next one, if there is one, starts at next. */
  lemma ItemsSplit(c: seq<char>, q: nat, e: nat, items: seq<Json>, fmt: bool, indent: nat) returns (o: nat, next: nat)
    requires items != [] && forall k :: 0 <= k < |items| ==> Printable(items[k])
    requires Spans(c, q, e, ItemsText(items, fmt, indent)) && e < |c|
    ensures Spans(c, q, o, Text(items[0], fmt, indent)) && Spans(c, next, e, ItemsText(items[1..], fmt, indent))
    ensures |items| == 1 ==> o == e
    ensures |items| > 1 ==> o + 1 < |c| && c[o] == ',' && SkipWhitespace(c, o + 1) == next
  {
    var t, comma := Text(items[0], fmt, indent), if |items| > 1 then Comma(fmt) else "";
    next := SpansParts(c, q, e, t + comma, ItemsText(items[1..], fmt, indent));
    o := SpansParts(c, q, next, t, comma);
    if |items| > 1 {
      ItemsStart(c, next, e, items[1..], fmt, indent);
      CommaSkipped(c, o, next, fmt);
    } else {
      Single(items);
    }
  }

  /** A comma after an item leads to the next one. */
  lemma CommaSkipped(c: seq<char>, o: nat, next: nat, fmt: bool)
    requires Spans(c, o, next, Comma(fmt)) && next < |c| && c[next] > ' '
    ensures c[o] == ',' && SkipWhitespace(c, o + 1) == next
  {
    SpansByte(c, o, next, Comma(fmt), 0);
    if fmt {
      SpansByte(c, o, next, Comma(fmt), 1);
    }
  }

  /** One turn of the loop of `parse_array`, when the later turns succeed. */
  lemma ItemsTurn(c: seq<char>, i: nat, depth: nat, items: seq<Json>, o: nat, e: nat)
    requires Terminated(c) && i + 1 < |c| && o < |c| && items != []
    requires ParseValue(c, SkipWhitespace(c, i + 1), depth) == Ok(items[0], o)
    requires |items| == 1 ==> c[o] == ']' && e == o
    requires |items| > 1 ==> c[o] == ',' && o + 1 < |c| && ParseItems(c, o, depth) == Ok(items[1..], e + 1)
    ensures ParseItems(c, i, depth) == Ok(items, e + 1)
  {
    HeadTail(items);
    if |items| == 1 {
      Single(items);
    }
  }

  /** The items of an array from q up to e, when the byte in front of them, at i, leads there. */
  lemma {:induction false} ItemsParse(c: seq<char>, i: nat, q: nat, e: nat, items: seq<Json>, fmt: bool,
          indent: nat, depth: nat)
    requires Terminated(c) && items != [] && forall k :: 0 <= k < |items| ==> Printable(items[k])
    requires depth + ItemsHeight(items) <= NESTING_LIMIT
    requires Spans(c, q, e, ItemsText(items, fmt, indent)) && e < |c| && c[e] == ']'
    requires i + 1 < |c| && SkipWhitespace(c, i + 1) == q
    ensures ParseItems(c, i, depth) == Ok(items, e + 1)
    decreases items, 0
  {
    var o, next := ItemsSplit(c, q, e, items, fmt, indent);
    if |items| > 1 {
      ItemsParse(c, o, next, e, items[1..], fmt, indent, depth);
    }
    ValueParses(c, q, o, items[0], fmt, indent, depth);
    ItemsTurn(c, i, depth, items, o, e);
  }

  // ---------------------------------------------------------------- objects

  predicate PrintableMembers(ms: seq<Member>) {
    forall k :: 0 <= k < |ms| ==> NUL !in ms[k].key && Printable(ms[k].value)
  }

  lemma PrintableTail(ms: seq<Member>)
    requires PrintableMembers(ms) && ms != []
    ensures NUL !in ms[0].key && Printable(ms[0].value) && PrintableMembers(ms[1..])
  {
  }

  lemma {:induction false} ObjectParses(c: seq<char>, i: nat, e: nat, ms: seq<Member>, fmt: bool, indent: nat,
          depth: nat)
    requires Terminated(c) && depth + 1 + MembersHeight(ms) <= NESTING_LIMIT
    requires PrintableMembers(ms)
    requires i < |c| && c[i] == '{'
    requires Spans(c, i, e, ObjectOpen(fmt) + MembersText(ms, fmt, indent + 1) + ObjectClose(fmt, indent))
    ensures ParseObject(c, i, depth) == Ok(Object(ms), e)
    decreases ms, 7
  {
    if ms == [] {
      EmptyObject(c, i, e, fmt, indent, depth);
    } else {
      var q, close := ObjectInside(c, i, e, ms, fmt, indent);
      InsideParses(c, i, q, close, ms, fmt, indent, depth);
    }
  }

  lemma {:induction false} InsideParses(c: seq<char>, i: nat, q: nat, close: nat, ms: seq<Member>, fmt: bool,
          indent: nat, depth: nat)
    requires Terminated(c) && depth + 1 + MembersHeight(ms) <= NESTING_LIMIT && PrintableMembers(ms) && ms != []
    requires Inside(c, i, q, close) && c[i] == '{' && Spans(c, q, close, MembersText(ms, fmt, indent + 1))
    ensures ParseObject(c, i, depth) == Ok(Object(ms), SkipWhitespace(c, close) + 1)
    decreases ms, 6
  {
    hide *;
    InsideIs(c, i, q, close);
    var first := SkipWhitespace(c, i + 1);
    MembersParse(c, first - 1, q, close, ms, fmt, indent + 1, depth + 1);
    ObjectTurn(c, i, depth, ms, SkipWhitespace(c, close) + 1);
  }

  lemma InsideIs(c: seq<char>, i: nat, q: nat, close: nat)
    requires Terminated(c) && Inside(c, i, q, close)
    ensures i + 1 < |c| && q < |c| && close < |c| && !NumberByte(c[close]) && c[SkipWhitespace(c, close)] == '}'
    ensures var first := SkipWhitespace(c, i + 1);
      first == SkipWhitespace(c, q) > 0 && SkipWhitespace(c, first - 1 + 1) == first && c[first] == '\"'
  {
  }

  lemma EmptyObject(c: seq<char>, i: nat, e: nat, fmt: bool, indent: nat, depth: nat)
    requires Terminated(c) && depth < NESTING_LIMIT && i < |c| && c[i] == '{'
    requires Spans(c, i, e, ObjectOpen(fmt) + MembersText([], fmt, indent + 1) + ObjectClose(fmt, indent))
    ensures ParseObject(c, i, depth) == Ok(Object([]), e)
  {
    var q, close := ObjectSplit(c, i, e, [], fmt, indent);
  }

  /** The members stand between q and close. */
  lemma ObjectSplit(c: seq<char>, i: nat, e: nat, ms: seq<Member>, fmt: bool, indent: nat) returns (q: nat, close: nat)
    requires Spans(c, i, e, ObjectOpen(fmt) + MembersText(ms, fmt, indent + 1) + ObjectClose(fmt, indent))
    ensures Spans(c, q, close, MembersText(ms, fmt, indent + 1)) && i < q && (ms == [] ==> q == close)
    ensures close < |c| && !NumberByte(c[close]) && SkipWhitespace(c, close) == e - 1 && c[e - 1] == '}'
    ensures SkipWhitespace(c, i + 1) == SkipWhitespace(c, q)
  {
    close := SpansParts(c, i, e, ObjectOpen(fmt) + MembersText(ms, fmt, indent + 1), ObjectClose(fmt, indent));
    q := SpansParts(c, i, close, ObjectOpen(fmt), MembersText(ms, fmt, indent + 1));
    CloseIsFound(c, close, e, fmt, indent);
    SpansByte(c, i, q, ObjectOpen(fmt), 0);
    if fmt {
      SpansByte(c, i, q, ObjectOpen(fmt), 1);
    }
  }

  lemma CloseIsFound(c: seq<char>, close: nat, e: nat, fmt: bool, indent: nat)
    requires Spans(c, close, e, ObjectClose(fmt, indent))
    ensures close < |c| && !NumberByte(c[close]) && SkipWhitespace(c, close) == e - 1 && c[e - 1] == '}'
  {
    var tabs := if fmt then Tabs(indent) else "";
    var m := SpansParts(c, close, e, tabs, "}");
    WordParses(c, m, e, "}");
    assert m == e - 1 && c[m] == '}' && !NumberByte(c[m]) && SkipWhitespace(c, m) == m;
    if fmt {
      SkipTabs(c, close, m, indent);
    } else {
      assert m == close + |tabs| == close;
    }
  }

  /** Parsing members from i on gives these, and ends at `end`. */
  predicate MembersAre(c: seq<char>, i: nat, depth: nat, ms: seq<Member>, end: nat)
    requires Terminated(c) && i + 1 < |c|
  {
    ParseMembers(c, i, depth) == Ok(ms, end)
  }

  lemma ObjectTurn(c: seq<char>, i: nat, depth: nat, ms: seq<Member>, end: nat)
    requires Terminated(c) && i + 1 < |c| && c[i] == '{' && depth < NESTING_LIMIT
    requires var first := SkipWhitespace(c, i + 1);
      c[first] != '}' && MembersAre(c, first - 1, depth + 1, ms, end)
    ensures ParseObject(c, i, depth) == Ok(Object(ms), end)
  {
  }

  /** The text of a member after its tabs. */
  function NamedText(m: Member, fmt: bool, indent: nat): string {
    Quoted(m.key) + Colon(fmt) + Text(m.value, fmt, indent)
  }

  lemma MemberTextIs(m: Member, fmt: bool, indent: nat)
    ensures MemberText(m, fmt, indent) == (if fmt then Tabs(indent) else "") + NamedText(m, fmt, indent)
  {
    var tabs, key := if fmt then Tabs(indent) else "", Quoted(m.key);
    AppendAssociates(tabs, key, Colon(fmt));
    AppendAssociates(tabs, key + Colon(fmt), Text(m.value, fmt, indent));
  }

  /** Whitespace leads to the opening quote of the key. */
  lemma MemberStart(c: seq<char>, q: nat, e: nat, m: Member, fmt: bool, indent: nat)
    requires Spans(c, q, e, MemberText(m, fmt, indent))
    ensures q < |c| && SkipWhitespace(c, q) >= q && c[SkipWhitespace(c, q)] == '\"'
    ensures Spans(c, SkipWhitespace(c, q), e, NamedText(m, fmt, indent))
  {
    var tabs, named := if fmt then Tabs(indent) else "", NamedText(m, fmt, indent);
    MemberTextIs(m, fmt, indent);
    var s := SpansParts(c, q, e, tabs, named);
    SpansByte(c, s, e, named, 0);
    if fmt {
      SkipTabs(c, q, s, indent);
    }
  }

  /** Where the first member of an object starts, and where the text of its members ends. */
  ghost predicate Inside(c: seq<char>, i: nat, q: nat, close: nat)
    requires Terminated(c)
  {
    i + 1 < |c| && q < |c| && close < |c| &&
    var first := SkipWhitespace(c, i + 1);
    first == SkipWhitespace(c, q) > 0 && SkipWhitespace(c, first) == first && c[first] == '\"' &&
    !NumberByte(c[close]) && c[SkipWhitespace(c, close)] == '}'
  }

  lemma ObjectInside(c: seq<char>, i: nat, e: nat, ms: seq<Member>, fmt: bool, indent: nat)
    returns (q: nat, close: nat)
    requires Terminated(c) && i < |c| && ms != []
    requires Spans(c, i, e, ObjectOpen(fmt) + MembersText(ms, fmt, indent + 1) + ObjectClose(fmt, indent))
    ensures Inside(c, i, q, close) && Spans(c, q, close, MembersText(ms, fmt, indent + 1))
    ensures SkipWhitespace(c, close) + 1 == e
  {
    q, close := ObjectSplit(c, i, e, ms, fmt, indent);
    MembersStart(c, q, close, ms, fmt, indent + 1);
  }

  lemma MembersStart(c: seq<char>, q: nat, e: nat, ms: seq<Member>, fmt: bool, indent: nat)
    requires ms != [] && Spans(c, q, e, MembersText(ms, fmt, indent))
    ensures q < |c| && q <= SkipWhitespace(c, q) && c[SkipWhitespace(c, q)] == '\"'
  {
    var text, end := MemberText(ms[0], fmt, indent), MemberEnd(fmt, |ms| > 1);
    var next := SpansParts(c, q, e, text + end, MembersText(ms[1..], fmt, indent));
    var o := SpansParts(c, q, next, text, end);
    MemberStart(c, q, o, ms[0], fmt, indent);
  }

  lemma ColonSkipped(c: seq<char>, o: nat, next: nat, fmt: bool)
    requires Spans(c, o, next, Colon(fmt)) && next < |c| && c[next] > ' '
    ensures c[o] == ':' && SkipWhitespace(c, o) == o && SkipWhitespace(c, o + 1) == next
  {
    SpansByte(c, o, next, Colon(fmt), 0);
    if fmt {
      SpansByte(c, o, next, Colon(fmt), 1);
    }
  }

  lemma NameParses(c: seq<char>, i: nat, q: nat, o: nat, next: nat, key: string, fmt: bool)
    requires Terminated(c) && NUL !in key && i + 1 < |c| && SkipWhitespace(c, i + 1) == q
    requires Spans(c, q, o, Quoted(key)) && Spans(c, o, next, Colon(fmt)) && next < |c| && c[next] > ' '
    ensures ParseName(c, i) == Ok(key, o + 1) && SkipWhitespace(c, o + 1) == next
  {
    StringParses(c, q, o, key);
    ColonSkipped(c, o, next, fmt);
  }

  /** The name of a member is parsed up to o, and whitespace leads to its value at s. */
  lemma MemberSplit(c: seq<char>, i: nat, q: nat, e: nat, m: Member, fmt: bool, indent: nat) returns (o: nat, s: nat)
    requires Terminated(c) && NUL !in m.key && Printable(m.value) && i + 1 < |c| && SkipWhitespace(c, i + 1) == q
    requires Spans(c, q, e, NamedText(m, fmt, indent))
    ensures o <= |c| && ParseName(c, i) == Ok(m.key, o) && SkipWhitespace(c, o) == s
    ensures Spans(c, s, e, Text(m.value, fmt, indent))
  {
    var colon;
    colon, s := NamedSplit(c, q, e, m, fmt, indent);
    NameEnds(c, i, q, colon, s, e, m, fmt, indent);
    o := colon + 1;
  }

  lemma NamedSplit(c: seq<char>, q: nat, e: nat, m: Member, fmt: bool, indent: nat) returns (colon: nat, s: nat)
    requires Spans(c, q, e, NamedText(m, fmt, indent))
    ensures Spans(c, q, colon, Quoted(m.key)) && Spans(c, colon, s, Colon(fmt))
    ensures Spans(c, s, e, Text(m.value, fmt, indent))
  {
    s := SpansParts(c, q, e, Quoted(m.key) + Colon(fmt), Text(m.value, fmt, indent));
    colon := SpansParts(c, q, s, Quoted(m.key), Colon(fmt));
  }

  lemma NameEnds(c: seq<char>, i: nat, q: nat, colon: nat, s: nat, e: nat, m: Member, fmt: bool, indent: nat)
    requires Terminated(c) && NUL !in m.key && Printable(m.value) && i + 1 < |c| && SkipWhitespace(c, i + 1) == q
    requires Spans(c, q, colon, Quoted(m.key)) && Spans(c, colon, s, Colon(fmt))
    requires Spans(c, s, e, Text(m.value, fmt, indent))
    ensures colon + 1 <= |c| && ParseName(c, i) == Ok(m.key, colon + 1) && SkipWhitespace(c, colon + 1) == s
  {
    TextStarts(m.value, fmt, indent);
    WordParses(c, s, e, Text(m.value, fmt, indent));
    NameParses(c, i, q, colon, s, m.key, fmt);
  }

  /** Parsing one member from i on gives m, and ends at `end`. */
  predicate MemberIs(c: seq<char>, i: nat, depth: nat, m: Member, end: nat)
    requires Terminated(c) && i + 1 < |c|
  {
    ParseMember(c, i, depth) == Ok(m, end)
  }

  lemma MemberTurn(c: seq<char>, i: nat, depth: nat, m: Member, o: nat, e: nat)
    requires Terminated(c) && i + 1 < |c| && o <= |c| && ParseName(c, i) == Ok(m.key, o)
    requires ParseValue(c, SkipWhitespace(c, o), depth) == Ok(m.value, e)
    ensures MemberIs(c, i, depth, m, e)
  {
  }

  /** The name, colon and value of a member whose text starts at q. */
  lemma {:induction false} MemberParses(c: seq<char>, i: nat, q: nat, e: nat, m: Member, fmt: bool, indent: nat,
          depth: nat)
    requires Terminated(c) && NUL !in m.key && Printable(m.value) && depth + Height(m.value) <= NESTING_LIMIT
    requires i + 1 < |c| && SkipWhitespace(c, i + 1) == q
    requires Spans(c, q, e, NamedText(m, fmt, indent)) && e < |c| && !NumberByte(c[e])
    ensures MemberIs(c, i, depth, m, e)
    decreases m, 3
  {
    var o, s := MemberSplit(c, i, q, e, m, fmt, indent);
    ValueParses(c, s, e, m.value, fmt, indent, depth);
    MemberTurn(c, i, depth, m, o, e);
  }

  /** The first member ends at o; the next one, if there is one, starts at next. */
  lemma MembersSplit(c: seq<char>, q: nat, e: nat, ms: seq<Member>, fmt: bool, indent: nat) returns (o: nat, next: nat)
    requires ms != [] && Spans(c, q, e, MembersText(ms, fmt, indent)) && e < |c| && !NumberByte(c[e])
    ensures q < |c| && Spans(c, SkipWhitespace(c, q), o, NamedText(ms[0], fmt, indent))
    ensures o < |c| && !NumberByte(c[o]) && Spans(c, next, e, MembersText(ms[1..], fmt, indent))
    ensures |ms| == 1 ==> SkipWhitespace(c, o) == SkipWhitespace(c, e)
    ensures |ms| > 1 ==> o + 1 < |c| && c[o] == ',' && SkipWhitespace(c, o + 1) == SkipWhitespace(c, next)
  {
    var text, end := MemberText(ms[0], fmt, indent), MemberEnd(fmt, |ms| > 1);
    next := SpansParts(c, q, e, text + end, MembersText(ms[1..], fmt, indent));
    o := SpansParts(c, q, next, text, end);
    MemberStart(c, q, o, ms[0], fmt, indent);
    if |ms| > 1 {
      MembersStart(c, next, e, ms[1..], fmt, indent);
      MoreSkipped(c, o, next, fmt);
    } else {
      Single(ms);
      LastSkipped(c, o, next, fmt);
    }
  }

  /** What follows a member: a comma if there are more, then a line end in formatted text. */
  lemma MoreSkipped(c: seq<char>, o: nat, next: nat, fmt: bool)
    requires Spans(c, o, next, MemberEnd(fmt, true)) && next < |c|
    ensures o + 1 < |c| && c[o] == ',' && SkipWhitespace(c, o + 1) == SkipWhitespace(c, next)
  {
    SpansByte(c, o, next, MemberEnd(fmt, true), 0);
    if fmt {
      SpansByte(c, o, next, MemberEnd(fmt, true), 1);
    }
  }

  lemma LastSkipped(c: seq<char>, o: nat, next: nat, fmt: bool)
    requires Spans(c, o, next, MemberEnd(fmt, false)) && next < |c| && !NumberByte(c[next])
    ensures !NumberByte(c[o]) && SkipWhitespace(c, o) == SkipWhitespace(c, next)
  {
    if fmt {
      SpansByte(c, o, next, MemberEnd(fmt, false), 0);
    }
  }

  /** One turn of the loop of `parse_object`, when the later turns succeed. */
  lemma MembersTurn(c: seq<char>, i: nat, depth: nat, ms: seq<Member>, o: nat, end: nat)
    requires Terminated(c) && i + 1 < |c| && o < |c| && ms != [] && MemberIs(c, i, depth, ms[0], o)
    requires |ms| == 1 ==> c[SkipWhitespace(c, o)] == '}' && end == SkipWhitespace(c, o) + 1
    requires |ms| > 1 ==> c[o] == ',' && o + 1 < |c| && MembersAre(c, o, depth, ms[1..], end)
    ensures MembersAre(c, i, depth, ms, end)
  {
    HeadTail(ms);
    if |ms| == 1 {
      Single(ms);
    }
  }

  /** The members of an object from q up to e. */
  /** The first of the members ends at o, and the others stand from `next` on. */
  ghost predicate CutBehindFirst(c: seq<char>, i: nat, o: nat, next: nat, e: nat, ms: seq<Member>, fmt: bool,
          indent: nat)
    requires Terminated(c) && ms != []
  {
    i + 1 < |c| && o < |c| && next <= e < |c| && !NumberByte(c[o]) && !NumberByte(c[e]) &&
    Spans(c, SkipWhitespace(c, i + 1), o, NamedText(ms[0], fmt, indent)) &&
    Spans(c, next, e, MembersText(ms[1..], fmt, indent)) && c[SkipWhitespace(c, e)] == '}' &&
    (|ms| == 1 ==> SkipWhitespace(c, o) == SkipWhitespace(c, e)) &&
    (|ms| > 1 ==> o + 1 < |c| && c[o] == ',' && SkipWhitespace(c, o + 1) == SkipWhitespace(c, next))
  }

  lemma {:induction false} MembersParse(c: seq<char>, i: nat, q: nat, e: nat, ms: seq<Member>, fmt: bool,
          indent: nat, depth: nat)
    requires Terminated(c) && ms != [] && PrintableMembers(ms)
    requires depth + MembersHeight(ms) <= NESTING_LIMIT
    requires Spans(c, q, e, MembersText(ms, fmt, indent)) && e < |c| && !NumberByte(c[e])
    requires i + 1 < |c| && SkipWhitespace(c, i + 1) == SkipWhitespace(c, q) && c[SkipWhitespace(c, e)] == '}'
    ensures MembersAre(c, i, depth, ms, SkipWhitespace(c, e) + 1)
    decreases ms, 5
  {
    var o, next := MembersSplit(c, q, e, ms, fmt, indent);
    CutMembersParse(c, i, o, next, e, ms, fmt, indent, depth);
  }

  lemma {:induction false} FirstParses(c: seq<char>, i: nat, o: nat, next: nat, e: nat, ms: seq<Member>, fmt: bool,
          indent: nat, depth: nat)
    requires Terminated(c) && ms != [] && PrintableMembers(ms)
    requires depth + MembersHeight(ms) <= NESTING_LIMIT && CutBehindFirst(c, i, o, next, e, ms, fmt, indent)
    ensures MemberIs(c, i, depth, ms[0], o)
    decreases ms, 3
  {
    PrintableTail(ms);
    MemberParses(c, i, SkipWhitespace(c, i + 1), o, ms[0], fmt, indent, depth);
  }

  lemma {:induction false} RestParses(c: seq<char>, i: nat, o: nat, next: nat, e: nat, ms: seq<Member>, fmt: bool,
          indent: nat, depth: nat)
    requires Terminated(c) && |ms| > 1 && PrintableMembers(ms)
    requires depth + MembersHeight(ms) <= NESTING_LIMIT && CutBehindFirst(c, i, o, next, e, ms, fmt, indent)
    ensures MembersAre(c, o, depth, ms[1..], SkipWhitespace(c, e) + 1)
    decreases ms, 3
  {
    PrintableTail(ms);
    MembersParse(c, o, next, e, ms[1..], fmt, indent, depth);
  }

  lemma {:induction false} CutMembersParse(c: seq<char>, i: nat, o: nat, next: nat, e: nat, ms: seq<Member>, fmt: bool,
          indent: nat, depth: nat)
    requires Terminated(c) && ms != [] && PrintableMembers(ms)
    requires depth + MembersHeight(ms) <= NESTING_LIMIT && CutBehindFirst(c, i, o, next, e, ms, fmt, indent)
    ensures MembersAre(c, i, depth, ms, SkipWhitespace(c, e) + 1)
    decreases ms, 4
  {
    FirstParses(c, i, o, next, e, ms, fmt, indent, depth);
    if |ms| > 1 {
      RestParses(c, i, o, next, e, ms, fmt, indent, depth);
    }
    MembersTurn(c, i, depth, ms, o, SkipWhitespace(c, e) + 1);
  }

  // ---------------------------------------------------------------- too deep

  /** A printed value that is nested too deeply for the depth it stands at is refused. */
  lemma {:induction false} ValueTooDeep(c: seq<char>, i: nat, e: nat, v: Json, fmt: bool, indent: nat, depth: nat)
    requires Terminated(c) && Printable(v) && depth <= NESTING_LIMIT < depth + Height(v)
    requires Spans(c, i, e, Text(v, fmt, indent)) && e < |c| && !NumberByte(c[e])
    ensures i < |c| && ParseValue(c, i, depth).Fail?
    decreases v, 2
  {
    TextStarts(v, fmt, indent);
    WordParses(c, i, e, Text(v, fmt, indent));
    Dispatch(c, i, depth);
    match v
    case Array(items) => ArrayTooDeep(c, i, e, items, fmt, indent, depth);
    case Object(ms) => ObjectTooDeep(c, i, e, ms, fmt, indent, depth);
  }

  lemma {:induction false} ArrayTooDeep(c: seq<char>, i: nat, e: nat, items: seq<Json>, fmt: bool, indent: nat,
          depth: nat)
    requires Terminated(c) && depth <= NESTING_LIMIT < depth + 1 + ItemsHeight(items)
    requires forall k :: 0 <= k < |items| ==> Printable(items[k])
    requires i < |c| && c[i] == '[' && Spans(c, i, e, "[" + ItemsText(items, fmt, indent + 1) + "]")
    ensures ParseArray(c, i, depth).Fail?
    decreases items, 1
  {
    if depth < NESTING_LIMIT {
      var close := SpansParts(c, i, e, "[" + ItemsText(items, fmt, indent + 1), "]");
      var q := SpansParts(c, i, close, "[", ItemsText(items, fmt, indent + 1));
      WordParses(c, close, e, "]");
      ItemsStart(c, q, close, items, fmt, indent + 1);
      ItemsTooDeep(c, i, q, close, items, fmt, indent + 1, depth + 1);
    }
  }

  lemma {:induction false} ItemsTooDeep(c: seq<char>, i: nat, q: nat, e: nat, items: seq<Json>, fmt: bool,
          indent: nat, depth: nat)
    requires Terminated(c) && items != [] && forall k :: 0 <= k < |items| ==> Printable(items[k])
    requires depth <= NESTING_LIMIT < depth + ItemsHeight(items)
    requires Spans(c, q, e, ItemsText(items, fmt, indent)) && e < |c| && c[e] == ']'
    requires i + 1 < |c| && SkipWhitespace(c, i + 1) == q
    ensures ParseItems(c, i, depth).Fail?
    decreases items, 0
  {
    var o, next := ItemsSplit(c, q, e, items, fmt, indent);
    if depth + Height(items[0]) > NESTING_LIMIT {
      ValueTooDeep(c, q, o, items[0], fmt, indent, depth);
    } else {
      if |items| == 1 {
        Single(items);
      }
      ValueParses(c, q, o, items[0], fmt, indent, depth);
      ItemsTooDeep(c, o, next, e, items[1..], fmt, indent, depth);
    }
  }

  lemma {:induction false} ObjectTooDeep(c: seq<char>, i: nat, e: nat, ms: seq<Member>, fmt: bool, indent: nat,
          depth: nat)
    requires Terminated(c) && depth <= NESTING_LIMIT < depth + 1 + MembersHeight(ms)
    requires PrintableMembers(ms)
    requires i < |c| && c[i] == '{'
    requires Spans(c, i, e, ObjectOpen(fmt) + MembersText(ms, fmt, indent + 1) + ObjectClose(fmt, indent))
    ensures ParseObject(c, i, depth).Fail?
    decreases ms, 6
  {
    if depth < NESTING_LIMIT {
      var q, close := ObjectInside(c, i, e, ms, fmt, indent);
      InsideTooDeep(c, i, q, close, ms, fmt, indent, depth);
    }
  }

  lemma {:induction false} InsideTooDeep(c: seq<char>, i: nat, q: nat, close: nat, ms: seq<Member>, fmt: bool,
          indent: nat, depth: nat)
    requires Terminated(c) && depth < NESTING_LIMIT < depth + 1 + MembersHeight(ms) && PrintableMembers(ms) && ms != []
    requires Inside(c, i, q, close) && c[i] == '{' && Spans(c, q, close, MembersText(ms, fmt, indent + 1))
    ensures ParseObject(c, i, depth).Fail?
    decreases ms, 5
  {
    MembersTooDeep(c, SkipWhitespace(c, i + 1) - 1, q, close, ms, fmt, indent + 1, depth + 1);
  }

  lemma {:induction false} MemberTooDeep(c: seq<char>, i: nat, q: nat, e: nat, m: Member, fmt: bool, indent: nat,
          depth: nat)
    requires Terminated(c) && NUL !in m.key && Printable(m.value) && depth <= NESTING_LIMIT < depth + Height(m.value)
    requires i + 1 < |c| && SkipWhitespace(c, i + 1) == q
    requires Spans(c, q, e, NamedText(m, fmt, indent)) && e < |c| && !NumberByte(c[e])
    ensures ParseMember(c, i, depth).Fail?
    decreases m, 3
  {
    var o, s := MemberSplit(c, i, q, e, m, fmt, indent);
    ValueTooDeep(c, s, e, m.value, fmt, indent, depth);
  }

  lemma {:induction false} MembersTooDeep(c: seq<char>, i: nat, q: nat, e: nat, ms: seq<Member>, fmt: bool, indent: nat,
                                          depth: nat)
    requires Terminated(c) && ms != [] && PrintableMembers(ms)
    requires depth <= NESTING_LIMIT < depth + MembersHeight(ms)
    requires Spans(c, q, e, MembersText(ms, fmt, indent)) && e < |c| && !NumberByte(c[e])
    requires i + 1 < |c| && SkipWhitespace(c, i + 1) == SkipWhitespace(c, q)
    ensures ParseMembers(c, i, depth).Fail?
    decreases ms, 4
  {
    var o, next := MembersSplit(c, q, e, ms, fmt, indent);
    if depth + Height(ms[0].value) > NESTING_LIMIT {
      MemberTooDeep(c, i, SkipWhitespace(c, q), o, ms[0], fmt, indent, depth);
    } else {
      if |ms| == 1 {
        Single(ms);
      }
      MemberParses(c, i, SkipWhitespace(c, q), o, ms[0], fmt, indent, depth);
      MembersTooDeep(c, o, next, e, ms[1..], fmt, indent, depth);
    }
  }

  // ---------------------------------------------------------------- the whole text

  lemma {:induction false} EscapedNoNul(s: string)
    requires NUL !in s
    ensures NUL !in EscapeText(s)
  {
    if s != "" {
      EscapedNoNul(s[1..]);
    }
  }

  lemma QuotedNoNul(s: string)
    requires NUL !in s
    ensures NUL !in Quoted(s)
  {
    EscapedNoNul(s);
  }

  /** Printed text is a C string. */
  lemma {:induction false} TextNoNul(v: Json, fmt: bool, depth: nat)
    requires Printable(v)
    ensures NUL !in Text(v, fmt, depth)
    decreases v, 1
  {
    match v
    case String(s) => EscapedNoNul(s);
    case Array(items) =>
      ItemsNoNul(items, fmt, depth + 1);
      NoNulBetween("[", ItemsText(items, fmt, depth + 1), "]");
    case Object(ms) =>
      MembersNoNul(ms, fmt, depth + 1);
      NoNulBetween(ObjectOpen(fmt), MembersText(ms, fmt, depth + 1), ObjectClose(fmt, depth));
    case _ =>
  }

  lemma NoNulBetween(a: string, b: string, c: string)
    requires NUL !in a && NUL !in b && NUL !in c
    ensures NUL !in a + b + c
  {
  }

  lemma {:induction false} ItemsNoNul(items: seq<Json>, fmt: bool, depth: nat)
    requires forall k :: 0 <= k < |items| ==> Printable(items[k])
    ensures NUL !in ItemsText(items, fmt, depth)
    decreases items, 0
  {
    if items != [] {
      TextNoNul(items[0], fmt, depth);
      ItemsNoNul(items[1..], fmt, depth);
    }
  }

  lemma SumNoNul(a: string, b: string)
    requires NUL !in a && NUL !in b
    ensures NUL !in a + b
  {
  }

  lemma MemberNoNul(m: Member, fmt: bool, depth: nat, more: bool)
    requires NUL !in EscapeText(m.key) && NUL !in Text(m.value, fmt, depth)
    ensures NUL !in MemberText(m, fmt, depth) + MemberEnd(fmt, more)
  {
    TabsNoNul(depth);
    SumNoNul((if fmt then Tabs(depth) else "") + Quoted(m.key) + Colon(fmt), Text(m.value, fmt, depth));
  }

  lemma TabsNoNul(depth: nat)
    ensures NUL !in Tabs(depth)
  {
  }

  lemma {:induction false} MembersNoNul(ms: seq<Member>, fmt: bool, depth: nat)
    requires PrintableMembers(ms)
    ensures NUL !in MembersText(ms, fmt, depth)
    decreases ms, 0
  {
    if ms != [] {
      PrintableTail(ms);
      EscapedNoNul(ms[0].key);
      TextNoNul(ms[0].value, fmt, depth);
      MemberNoNul(ms[0], fmt, depth, |ms| > 1);
      MembersNoNul(ms[1..], fmt, depth);
      SumNoNul(MemberText(ms[0], fmt, depth) + MemberEnd(fmt, |ms| > 1), MembersText(ms[1..], fmt, depth));
    }
  }

  /** Printed text starts with no byte order mark. */
  lemma NoBom(v: Json, fmt: bool)
    requires Printable(v)
    ensures SkipBom(Text(v, fmt, 0) + [NUL]) == 0
  {
    var t := Text(v, fmt, 0);
    TextStarts(v, fmt, 0);
    assert (t + [NUL])[0] == t[0] && t[0] as int < 0x80;
  }

  /**
   Parsing printed text, formatted or not, gives back the tree and consumes all of the text, exactly when
   the tree is nested no deeper than the limit; deeper text is refused.
   */
  lemma ParseUndoesPrint(v: Json, fmt: bool, toTheEnd: bool)
    requires Printable(v)
    ensures NUL !in Text(v, fmt, 0)
    ensures Height(v) <= NESTING_LIMIT ==> Parse(Text(v, fmt, 0), toTheEnd) == Ok(v, |Text(v, fmt, 0)|)
    ensures Parse(Text(v, fmt, 0), toTheEnd).Ok? <==> Height(v) <= NESTING_LIMIT
  {
    var t := Text(v, fmt, 0);
    var c := t + [NUL];
    TextNoNul(v, fmt, 0);
    NoBom(v, fmt);
    TextStarts(v, fmt, 0);
    assert c[0] == t[0] && c[0..|t|] == t && c[|t|] == NUL;
    if Height(v) <= NESTING_LIMIT {
      ValueParses(c, 0, |t|, v, fmt, 0, 0);
    } else {
      ValueTooDeep(c, 0, |t|, v, fmt, 0, 0);
    }
  }
}
