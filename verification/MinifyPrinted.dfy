/**
 Minifying formatted text gives the unformatted text, except that a string which ends in a backslash is
 taken to go on behind its closing quote. That does no harm exactly when only closing brackets follow it.
 */
module MinifyPrinted {
  import opened CStrings
  import opened Seqs
  import opened JsonValues
  import opened JsonText
  import opened JsonParser
  import opened JsonRoundTrip
  import opened Minify

  predicate EndsInBackslash(s: string) {
    s != "" && s[|s| - 1] == '\\'
  }

  /** No key and no string ends in a backslash. */
  predicate Clean(v: Json) {
    match v
    case String(s) => !EndsInBackslash(s)
    case Array(items) => forall i :: 0 <= i < |items| ==> Clean(items[i])
    case Object(ms) => forall i :: 0 <= i < |ms| ==> !EndsInBackslash(ms[i].key) && Clean(ms[i].value)
    case _ => true
  }

  /** No key and no string ends in a backslash, except a string that only brackets follow. */
  predicate Survives(v: Json) {
    match v
    case String(s) => true
    case Array(items) =>
      forall i :: 0 <= i < |items| ==> if i < |items| - 1 then Clean(items[i]) else Survives(items[i])
    case _ => Clean(v)
  }

  lemma {:induction false} CleanSurvives(v: Json)
    requires Clean(v)
    ensures Survives(v)
  {
    if v.Array? {
      forall i | 0 <= i < |v.items|
        ensures Survives(v.items[i])
      {
        CleanSurvives(v.items[i]);
      }
    }
  }

  // ---------------------------------------------------------------- three outcomes

  /** From i the minifier writes t and reaches e outside of strings. */
  predicate Passes(c: seq<char>, i: nat, e: nat, t: string)
    requires Terminated(c)
  {
    i < |c| && e < |c| && Minified(c, i) == t + Minified(c, e)
  }

  /** From i the minifier writes t and reaches e believing to be inside a string. */
  predicate Dangles(c: seq<char>, i: nat, e: nat, t: string)
    requires Terminated(c)
  {
    i < |c| && e < |c| && Minified(c, i) == t + InString(c, e)
  }

  /** Two texts differ at a place both have. */
  predicate Clash(s: string, t: string) {
    exists k :: 0 <= k < |s| && k < |t| && s[k] != t[k]
  }

  predicate Outcome(c: seq<char>, i: nat, e: nat, t: string, clean: bool, survives: bool)
    requires Terminated(c)
  {
    && i < |c|
    && (clean ==> Passes(c, i, e, t))
    && (!clean && survives ==> Dangles(c, i, e, t))
    && (!survives ==> Clash(Minified(c, i), t))
  }

  lemma ClashAt(s: string, t: string, k: nat)
    requires k < |s| && k < |t| && s[k] != t[k]
    ensures Clash(s, t)
  {
  }

  lemma ClashBehind(a: string, s: string, t: string)
    requires Clash(s, t)
    ensures Clash(a + s, a + t)
  {
    var k :| 0 <= k < |s| && k < |t| && s[k] != t[k];
    ClashAt(a + s, a + t, |a| + k);
  }

  lemma ClashLonger(s: string, t: string, more: string)
    requires Clash(s, t)
    ensures Clash(s, t + more)
  {
    var k :| 0 <= k < |s| && k < |t| && s[k] != t[k];
    ClashAt(s, t + more, k);
  }

  /** Text that passes in front of text with some outcome. */
  lemma PassesThen(c: seq<char>, i: nat, m: nat, e: nat, a: string, t: string, clean: bool, survives: bool)
    requires Terminated(c) && Passes(c, i, m, a) && Outcome(c, m, e, t, clean, survives)
    ensures Outcome(c, i, e, a + t, clean, survives)
  {
    if !survives {
      ClashBehind(a, Minified(c, m), t);
    }
    if clean {
      AppendAssociates(a, t, Minified(c, e));
    } else if survives {
      AppendAssociates(a, t, InString(c, e));
    }
  }

  // ---------------------------------------------------------------- runs of bytes

  /** Bytes that are copied, in a string and outside. */
  predicate Plain(b: char) {
    b > ' ' && b != '/' && b != '\"' && b != '\\'
  }

  lemma {:induction false} PlainPasses(c: seq<char>, i: nat, e: nat, t: string)
    requires Terminated(c) && Spans(c, i, e, t) && e < |c| && forall k :: 0 <= k < |t| ==> Plain(t[k])
    ensures Passes(c, i, e, t)
    decreases |t|
  {
    if t == "" {
      AppendNothing(Minified(c, e));
    } else {
      SpansByte(c, i, e, t, 0);
      TailSpans(c, i, e, t);
      PlainPasses(c, i + 1, e, t[1..]);
      HeadTail(t);
      AppendAssociates([t[0]], t[1..], Minified(c, e));
    }
  }

  lemma TailSpans(c: seq<char>, i: nat, e: nat, t: string)
    requires Spans(c, i, e, t) && t != ""
    ensures Spans(c, i + 1, e, t[1..])
  {
    assert c[i + 1..e] == c[i..e][1..];
  }

  lemma {:induction false} BlanksPass(c: seq<char>, i: nat, e: nat, t: string)
    requires Terminated(c) && Spans(c, i, e, t) && e < |c| && forall k :: 0 <= k < |t| ==> Blank(t[k])
    ensures i < |c| && Minified(c, i) == Minified(c, e)
    decreases |t|
  {
    if t != "" {
      SpansByte(c, i, e, t, 0);
      TailSpans(c, i, e, t);
      BlanksPass(c, i + 1, e, t[1..]);
    }
  }

  /** Inside a string everything but quotes and backslashes is copied. */
  lemma {:induction false} CopiedInString(c: seq<char>, i: nat, e: nat, t: string)
    requires Terminated(c) && Spans(c, i, e, t) && e < |c|
    requires forall k :: 0 <= k < |t| ==> t[k] != NUL && t[k] != '\"' && t[k] != '\\'
    ensures InString(c, i) == t + InString(c, e)
    decreases |t|
  {
    if t == "" {
      AppendNothing(InString(c, e));
    } else {
      SpansByte(c, i, e, t, 0);
      TailSpans(c, i, e, t);
      CopiedInString(c, i + 1, e, t[1..]);
      HeadTail(t);
      AppendAssociates([t[0]], t[1..], InString(c, e));
    }
  }

  // ---------------------------------------------------------------- strings

  /** One printed byte of a string is copied as a whole, unless it is a backslash in front of the end. */
  lemma ByteCopied(c: seq<char>, p: nat, m: nat, b: char)
    requires Terminated(c) && b != NUL && Spans(c, p, m, EscapeByte(b)) && m < |c|
    requires b == '\\' ==> c[m] != '\"'
    ensures InString(c, p) == EscapeByte(b) + InString(c, m)
  {
    var t := EscapeByte(b);
    SpansByte(c, p, m, t, 0);
    if |t| == 1 {
      CopiedInString(c, p, m, t);
    } else {
      SpansByte(c, p, m, t, 1);
      TailSpans(c, p, m, t);
      if t[1] == '\"' {
        assert t == ['\\', '\"'];
      } else if b == '\\' {
        assert t == ['\\'] + ['\\'] && InString(c, p + 1) == ['\\'] + InString(c, m);
        AppendAssociates(['\\'], ['\\'], InString(c, m));
      } else {
        assert forall k :: 0 <= k < |t| - 1 ==> t[1..][k] == t[k + 1];
        CopiedInString(c, p + 1, m, t[1..]);
        HeadTail(t);
        AppendAssociates([t[0]], t[1..], InString(c, m));
      }
    }
  }

  /** A backslash in front of the end takes the closing quote with it. */
  lemma BackslashAtEnd(c: seq<char>, p: nat, m: nat)
    requires Terminated(c) && Spans(c, p, m, EscapeByte('\\')) && m + 1 < |c| && c[m] == '\"'
    ensures InString(c, p) == EscapeByte('\\') + "\"" + InString(c, m + 1)
  {
    SpansByte(c, p, m, "\\\\", 0);
    SpansByte(c, p, m, "\\\\", 1);
    assert InString(c, p) == ['\\'] + (['\\', '\"'] + InString(c, m + 1));
    assert EscapeByte('\\') + "\"" == ['\\'] + ['\\', '\"'];
    AppendAssociates(['\\'], ['\\', '\"'], InString(c, m + 1));
  }

  lemma EscapeTextStarts(s: string)
    requires s != ""
    ensures EscapeText(s) != "" && EscapeText(s)[0] != '\"'
  {
  }

  lemma QuoteOpens(c: seq<char>, i: nat)
    requires Terminated(c) && i + 1 < |c| && c[i] == '\"'
    ensures Minified(c, i) == "\"" + InString(c, i + 1)
  {
  }

  lemma QuoteCloses(c: seq<char>, i: nat)
    requires Terminated(c) && i + 1 < |c| && c[i] == '\"'
    ensures InString(c, i) == "\"" + Minified(c, i + 1)
  {
  }

  /** What is written behind the closing quote of a string, at e. */
  function Behind(c: seq<char>, e: nat, s: string): string
    requires Terminated(c) && e < |c|
  {
    if EndsInBackslash(s) then InString(c, e) else Minified(c, e)
  }

  lemma LastByteCopied(c: seq<char>, p: nat, e: nat, b: char)
    requires Terminated(c) && b != NUL && Spans(c, p, e, EscapeByte(b)) && e + 1 < |c| && c[e] == '\"'
    ensures InString(c, p) == EscapeByte(b) + "\"" + Behind(c, e + 1, [b])
  {
    if b == '\\' {
      BackslashAtEnd(c, p, e);
    } else {
      ByteCopied(c, p, e, b);
      QuoteCloses(c, e);
      AppendAssociates(EscapeByte(b), "\"", Minified(c, e + 1));
    }
  }

  lemma {:induction false} BodyCopied(c: seq<char>, p: nat, e: nat, s: string)
    requires Terminated(c) && NUL !in s && Spans(c, p, e, EscapeText(s)) && e + 1 < |c| && c[e] == '\"'
    ensures InString(c, p) == EscapeText(s) + "\"" + Behind(c, e + 1, s)
    decreases |s|
  {
    if s == "" {
      QuoteCloses(c, e);
      AppendNothing("\"");
    } else {
      var m := SpansParts(c, p, e, EscapeByte(s[0]), EscapeText(s[1..]));
      if |s| == 1 {
        Single(s);
        AppendNothing(EscapeByte(s[0]));
        LastByteCopied(c, p, e, s[0]);
      } else {
        EscapeTextStarts(s[1..]);
        SpansByte(c, m, e, EscapeText(s[1..]), 0);
        ByteCopied(c, p, m, s[0]);
        BodyCopied(c, m, e, s[1..]);
        Regroup(EscapeByte(s[0]), EscapeText(s[1..]), "\"", Behind(c, e + 1, s));
      }
    }
  }

  lemma Regroup(a: string, b: string, x: string, y: string)
    ensures a + (b + x + y) == a + b + x + y
  {
  }

  lemma QuoteAt(c: seq<char>, i: nat, e: nat)
    requires Spans(c, i, e, "\"")
    ensures e == i + 1 && c[i] == '\"'
  {
    SpansByte(c, i, e, "\"", 0);
  }

  lemma QuotedParts(c: seq<char>, i: nat, e: nat, s: string)
    requires Spans(c, i, e, Quoted(s))
    ensures i + 1 < e <= |c| && c[i] == '\"' && c[e - 1] == '\"' && Spans(c, i + 1, e - 1, EscapeText(s))
  {
    var close := SpansParts(c, i, e, "\"" + EscapeText(s), "\"");
    var start := SpansParts(c, i, close, "\"", EscapeText(s));
    QuoteAt(c, i, start);
    QuoteAt(c, close, e);
  }

  lemma QuotedCopied(c: seq<char>, i: nat, e: nat, s: string)
    requires Terminated(c) && NUL !in s && Spans(c, i, e, Quoted(s)) && e < |c|
    ensures i < |c| && Minified(c, i) == Quoted(s) + Behind(c, e, s)
  {
    QuotedParts(c, i, e, s);
    PartsCopied(c, i, e, s);
  }

  lemma PartsCopied(c: seq<char>, i: nat, e: nat, s: string)
    requires Terminated(c) && NUL !in s && i + 1 < e < |c| && c[i] == '\"' && c[e - 1] == '\"'
    requires Spans(c, i + 1, e - 1, EscapeText(s))
    ensures Minified(c, i) == Quoted(s) + Behind(c, e, s)
  {
    QuoteOpens(c, i);
    BodyInside(c, i + 1, e, s);
    QuotesJoin(Minified(c, i), InString(c, i + 1), s, Behind(c, e, s));
  }

  lemma BodyInside(c: seq<char>, p: nat, e: nat, s: string)
    requires Terminated(c) && NUL !in s && p < e < |c| && c[e - 1] == '\"' && Spans(c, p, e - 1, EscapeText(s))
    ensures InString(c, p) == EscapeText(s) + "\"" + Behind(c, e, s)
  {
    BodyCopied(c, p, e - 1, s);
  }

  lemma QuotesJoin(all: string, inner: string, s: string, behind: string)
    requires all == "\"" + inner && inner == EscapeText(s) + "\"" + behind
    ensures all == Quoted(s) + behind
  {
    Regroup("\"", EscapeText(s), "\"", behind);
  }

  lemma StringOutcome(c: seq<char>, i: nat, e: nat, s: string)
    requires Terminated(c) && NUL !in s && Spans(c, i, e, Quoted(s)) && e < |c|
    ensures Outcome(c, i, e, Quoted(s), !EndsInBackslash(s), true)
  {
    QuotedCopied(c, i, e, s);
  }

  // ---------------------------------------------------------------- separators

  /** A separator of formatted text: what stays of it, and whitespace. */
  predicate Separator(sep: string, stays: string) {
    |stays| < |sep| && sep[..|stays|] == stays && (forall k :: 0 <= k < |stays| ==> Plain(stays[k]))
    && forall k :: |stays| <= k < |sep| ==> Blank(sep[k])
  }

  lemma SeparatorPasses(c: seq<char>, o: nat, next: nat, sep: string, stays: string)
    requires Terminated(c) && Spans(c, o, next, sep) && next < |c| && Separator(sep, stays)
    ensures Passes(c, o, next, stays) && InString(c, o) == sep + InString(c, next)
  {
    CutAt(sep, |stays|);
    var m := SpansParts(c, o, next, stays, sep[|stays|..]);
    PlainPasses(c, o, m, stays);
    BlanksPass(c, m, next, sep[|stays|..]);
    CopiedInString(c, o, next, sep);
  }

  /** Text, a separator, and more text that does not start with whitespace. */
  lemma SeparatedOutcome(c: seq<char>, q: nat, o: nat, next: nat, e: nat, a: string, sep: string, stays: string,
          b: string,
                         cleanA: bool, survivesA: bool, cleanB: bool, survivesB: bool)
    requires Terminated(c) && Outcome(c, q, o, a, cleanA, survivesA) && Spans(c, o, next, sep) && Separator(sep, stays)
    requires next < |c| && Outcome(c, next, e, b, cleanB, survivesB) && b != "" && b[0] > ' '
    ensures Outcome(c, q, e, a + stays + b, cleanA && cleanB, cleanA && survivesB)
  {
    SeparatorPasses(c, o, next, sep, stays);
    AppendAssociates(a, stays, b);
    if cleanA {
      PassesThen(c, o, next, e, stays, b, cleanB, survivesB);
      PassesThen(c, q, o, e, a, stays + b, cleanB, survivesB);
    } else if survivesA {
      ClashAt(sep + InString(c, next), stays + b, |stays|);
      ClashBehind(a, InString(c, o), stays + b);
    } else {
      ClashLonger(Minified(c, q), a, stays + b);
    }
  }

  // ---------------------------------------------------------------- values

  lemma IntegerPlain(n: int)
    ensures forall k :: 0 <= k < |IntegerText(n)| ==> Plain(IntegerText(n)[k])
  {
  }

  /** What becomes of the formatted text of a value. */
  lemma {:induction false} ValueOutcome(c: seq<char>, i: nat, e: nat, v: Json, d: nat)
    requires Terminated(c) && Printable(v) && Spans(c, i, e, Text(v, true, d)) && e < |c|
    ensures Outcome(c, i, e, Text(v, false, d), Clean(v), Survives(v))
    decreases v, 2
  {
    match v
    case Number(n) =>
      IntegerPlain(n);
      PlainPasses(c, i, e, IntegerText(n));
    case String(s) => StringOutcome(c, i, e, s);
    case Array(items) => ArrayOutcome(c, i, e, items, d);
    case Object(ms) => ObjectOutcome(c, i, e, ms, d);
    case _ => PlainPasses(c, i, e, Text(v, true, d));
  }

  predicate CleanItems(items: seq<Json>) {
    forall i :: 0 <= i < |items| ==> Clean(items[i])
  }

  predicate SurvivingItems(items: seq<Json>) {
    forall i :: 0 <= i < |items| ==> if i < |items| - 1 then Clean(items[i]) else Survives(items[i])
  }

  lemma {:induction false} ArrayOutcome(c: seq<char>, i: nat, e: nat, items: seq<Json>, d: nat)
    requires Terminated(c) && Printable(Array(items)) && e < |c|
    requires Spans(c, i, e, "[" + ItemsText(items, true, d + 1) + "]")
    ensures Outcome(c, i, e, "[" + ItemsText(items, false, d + 1) + "]", CleanItems(items), SurvivingItems(items))
    decreases items, 1
  {
    var close := SpansParts(c, i, e, "[" + ItemsText(items, true, d + 1), "]");
    var q := SpansParts(c, i, close, "[", ItemsText(items, true, d + 1));
    var t := ItemsText(items, false, d + 1);
    SpansByte(c, close, e, "]", 0);
    PlainPasses(c, i, q, "[");
    PlainPasses(c, close, e, "]");
    if items == [] {
      PlainPasses(c, i, e, "[]");
      assert "[" + t + "]" == "[]";
    } else {
      ItemsOutcome(c, q, close, items, d + 1);
      BracketFollows(c, q, close, t, CleanItems(items), SurvivingItems(items));
      PassesThen(c, i, q, e, "[", t + "]", CleanItems(items), SurvivingItems(items));
      AppendAssociates("[", t, "]");
    }
  }

  /** A closing bracket changes nothing about the outcome. */
  lemma BracketFollows(c: seq<char>, q: nat, close: nat, t: string, clean: bool, survives: bool)
    requires Terminated(c) && Outcome(c, q, close, t, clean, survives) && close + 1 < |c| && c[close] == ']'
    ensures Outcome(c, q, close + 1, t + "]", clean, survives)
  {
    if !survives {
      ClashLonger(Minified(c, q), t, "]");
    }
    if clean {
      AppendAssociates(t, "]", Minified(c, close + 1));
    } else if survives {
      AppendAssociates(t, "]", InString(c, close + 1));
    }
  }

  /** The first item, the comma and the other items. */
  lemma ItemsSpans(c: seq<char>, q: nat, e: nat, items: seq<Json>, d: nat) returns (o: nat, next: nat)
    requires items != [] && Spans(c, q, e, ItemsText(items, true, d))
    ensures Spans(c, q, o, Text(items[0], true, d))
    ensures Spans(c, o, next, if |items| > 1 then ", " else "") && Spans(c, next, e, ItemsText(items[1..], true, d))
  {
    var t, comma := Text(items[0], true, d), if |items| > 1 then Comma(true) else "";
    next := SpansParts(c, q, e, t + comma, ItemsText(items[1..], true, d));
    o := SpansParts(c, q, next, t, comma);
  }

  lemma {:induction false} ItemsOutcome(c: seq<char>, q: nat, e: nat, items: seq<Json>, d: nat)
    requires Terminated(c) && items != [] && (forall k :: 0 <= k < |items| ==> Printable(items[k])) && e < |c|
    requires Spans(c, q, e, ItemsText(items, true, d))
    ensures Outcome(c, q, e, ItemsText(items, false, d), CleanItems(items), SurvivingItems(items))
    decreases items, 0
  {
    var o, next := ItemsSpans(c, q, e, items, d);
    var t, rest := Text(items[0], false, d), ItemsText(items[1..], false, d);
    ValueOutcome(c, q, o, items[0], d);
    if |items| == 1 {
      Single(items);
      AppendNothing(t);
    } else {
      ItemsOutcome(c, next, e, items[1..], d);
      TextStarts(items[1], false, d);
      SeparatedOutcome(c, q, o, next, e, t, ", ", ",", rest,
                       Clean(items[0]), Survives(items[0]), CleanItems(items[1..]), SurvivingItems(items[1..]));
      ItemsSplitClean(items);
      ItemsTextSplit(items, d);
    }
  }

  lemma ItemsTextSplit(items: seq<Json>, d: nat)
    requires |items| > 1
    ensures ItemsText(items, false, d) == Text(items[0], false, d) + "," + ItemsText(items[1..], false, d)
  {
  }

  lemma ItemsSplitClean(items: seq<Json>)
    requires |items| > 1
    ensures CleanItems(items) <==> Clean(items[0]) && CleanItems(items[1..])
    ensures SurvivingItems(items) <==> Clean(items[0]) && SurvivingItems(items[1..])
  {
    var rest := items[1..];
    assert forall k :: 0 < k < |items| ==> items[k] == rest[k - 1];
    HeadTail(items);
    if SurvivingItems(rest) && Clean(items[0]) {
      forall k | 0 <= k < |items|
        ensures if k < |items| - 1 then Clean(items[k]) else Survives(items[k])
      {
        if k > 0 {
          assert if k - 1 < |rest| - 1 then Clean(rest[k - 1]) else Survives(rest[k - 1]);
        }
      }
    }
  }

  predicate CleanMembers(ms: seq<Member>) {
    forall i :: 0 <= i < |ms| ==> CleanMember(ms[i])
  }

  predicate CleanMember(m: Member) {
    !EndsInBackslash(m.key) && Clean(m.value)
  }

  predicate PrintableMembers(ms: seq<Member>) {
    forall k :: 0 <= k < |ms| ==> NUL !in ms[k].key && Printable(ms[k].value)
  }

  lemma {:induction false} ObjectOutcome(c: seq<char>, i: nat, e: nat, ms: seq<Member>, d: nat)
    requires Terminated(c) && PrintableMembers(ms) && e < |c|
    requires Spans(c, i, e, ObjectOpen(true) + MembersText(ms, true, d + 1) + ObjectClose(true, d))
    ensures Outcome(c, i, e, ObjectOpen(false) + MembersText(ms, false, d + 1) + ObjectClose(false, d),
                    CleanMembers(ms), CleanMembers(ms))
    decreases ms, 5
  {
    var close := SpansParts(c, i, e, ObjectOpen(true) + MembersText(ms, true, d + 1), ObjectClose(true, d));
    var q := SpansParts(c, i, close, ObjectOpen(true), MembersText(ms, true, d + 1));
    var t, clean := MembersText(ms, false, d + 1), CleanMembers(ms);
    MembersOutcome(c, q, close, e, ms, d);
    SeparatorPasses(c, i, q, "{\n", "{");
    PassesThen(c, i, q, e, "{", t + "}", clean, clean);
    UnformattedObject(t, d);
  }

  lemma UnformattedObject(t: string, d: nat)
    ensures ObjectOpen(false) + t + ObjectClose(false, d) == "{" + (t + "}")
  {
    assert ObjectClose(false, d) == "}";
  }

  /** Whitespace in front changes nothing about the outcome. */
  lemma BlanksThen(c: seq<char>, i: nat, m: nat, e: nat, blanks: string, t: string, clean: bool, survives: bool)
    requires Terminated(c) && Spans(c, i, m, blanks) && (forall k :: 0 <= k < |blanks| ==> Blank(blanks[k]))
    requires Outcome(c, m, e, t, clean, survives)
    ensures Outcome(c, i, e, t, clean, survives)
  {
    BlanksPass(c, i, m, blanks);
  }

  /** The tabs and the brace at the end of an object. */
  lemma CloseOutcome(c: seq<char>, close: nat, e: nat, d: nat)
    requires Terminated(c) && Spans(c, close, e, ObjectClose(true, d)) && e < |c|
    ensures Outcome(c, close, e, "}", true, true)
  {
    var m := SpansParts(c, close, e, Tabs(d), "}");
    SpansByte(c, m, e, "}", 0);
    BlanksPass(c, close, m, Tabs(d));
    PlainPasses(c, m, e, "}");
  }

  lemma UnformattedMembers(ms: seq<Member>, d: nat)
    requires ms != []
    ensures MembersText(ms, false, d) + "}" ==
      NamedText(ms[0], false, d) + (if |ms| > 1 then "," else "") + (MembersText(ms[1..], false, d) + "}")
  {
    var named, comma, rest := NamedText(ms[0], false, d), if |ms| > 1 then "," else "", MembersText(ms[1..], false, d);
    MemberTextIs(ms[0], false, d);
    assert MemberText(ms[0], false, d) == named;
    AppendNothing(comma);
    assert MembersText(ms, false, d) == named + comma + rest;
    AppendAssociates(named + comma, rest, "}");
  }

  /** The tabs, the first member, what follows it, and the other members. */
  lemma MembersSpans(c: seq<char>, q: nat, close: nat, ms: seq<Member>, d: nat) returns (s: nat, o: nat, next: nat)
    requires ms != [] && Spans(c, q, close, MembersText(ms, true, d))
    ensures Spans(c, q, s, Tabs(d)) && Spans(c, s, o, NamedText(ms[0], true, d))
    ensures Spans(c, o, next, MemberEnd(true, |ms| > 1)) && Spans(c, next, close, MembersText(ms[1..], true, d))
  {
    var text, end := MemberText(ms[0], true, d), MemberEnd(true, |ms| > 1);
    next := SpansParts(c, q, close, text + end, MembersText(ms[1..], true, d));
    o := SpansParts(c, q, next, text, end);
    MemberTextIs(ms[0], true, d);
    s := SpansParts(c, q, o, Tabs(d), NamedText(ms[0], true, d));
  }

  /** The outcomes of the first member and of the others together. */
  lemma MembersJoin(c: seq<char>, q: nat, s: nat, o: nat, next: nat, e: nat, ms: seq<Member>, d: nat)
    requires Terminated(c) && ms != [] && Spans(c, q, s, Tabs(d)) && Spans(c, o, next, MemberEnd(true, |ms| > 1))
    requires Outcome(c, s, o, NamedText(ms[0], false, d), CleanMember(ms[0]),
                     !EndsInBackslash(ms[0].key) && Survives(ms[0].value))
    requires next < |c|
    requires Outcome(c, next, e, MembersText(ms[1..], false, d) + "}", CleanMembers(ms[1..]), CleanMembers(ms[1..]))
    ensures Outcome(c, q, e, MembersText(ms, false, d) + "}", CleanMembers(ms), CleanMembers(ms))
  {
    hide Outcome;
    var named, rest := NamedText(ms[0], false, d), MembersText(ms[1..], false, d) + "}";
    var comma := if |ms| > 1 then "," else "";
    MembersStartPlain(ms[1..], d);
    MembersSplitClean(ms);
    SeparatedOutcome(c, s, o, next, e, named, MemberEnd(true, |ms| > 1), comma, rest,
                     CleanMember(ms[0]), !EndsInBackslash(ms[0].key) && Survives(ms[0].value),
                     CleanMembers(ms[1..]), CleanMembers(ms[1..]));
    BlanksThen(c, q, s, e, Tabs(d), named + comma + rest, CleanMembers(ms), CleanMembers(ms));
    UnformattedMembers(ms, d);
  }

  lemma {:induction false} MembersOutcome(c: seq<char>, q: nat, close: nat, e: nat, ms: seq<Member>, d: nat)
    requires Terminated(c) && PrintableMembers(ms) && e < |c|
    requires Spans(c, q, close, MembersText(ms, true, d + 1)) && Spans(c, close, e, ObjectClose(true, d))
    ensures Outcome(c, q, e, MembersText(ms, false, d + 1) + "}", CleanMembers(ms), CleanMembers(ms))
    decreases ms, 4
  {
    if ms == [] {
      CloseOutcome(c, close, e, d);
      assert "" + "}" == "}";
    } else {
      var s, o, next := MembersSpans(c, q, close, ms, d + 1);
      MemberOutcome(c, s, o, ms[0], d + 1);
      MembersOutcome(c, next, close, e, ms[1..], d);
      MembersJoin(c, q, s, o, next, e, ms, d + 1);
    }
  }

  lemma MembersStartPlain(ms: seq<Member>, d: nat)
    ensures var t := MembersText(ms, false, d) + "}"; t != "" && t[0] > ' '
  {
    if ms != [] {
      UnformattedMembers(ms, d);
    }
  }

  lemma MembersSplitClean(ms: seq<Member>)
    requires ms != []
    ensures CleanMembers(ms) <==> CleanMember(ms[0]) && CleanMembers(ms[1..])
  {
    HeadTail(ms);
    if CleanMembers(ms) {
      assert forall k :: 0 <= k < |ms| - 1 ==> ms[1..][k] == ms[k + 1];
    }
  }

  /** A member: the key, the colon and the value. */
  lemma {:induction false} MemberOutcome(c: seq<char>, s: nat, e: nat, m: Member, d: nat)
    requires Terminated(c) && NUL !in m.key && Printable(m.value) && Spans(c, s, e, NamedText(m, true, d)) && e < |c|
    ensures Outcome(c, s, e, NamedText(m, false, d), CleanMember(m),
                    !EndsInBackslash(m.key) && Survives(m.value))
    decreases m, 3
  {
    var next := SpansParts(c, s, e, Quoted(m.key) + Colon(true), Text(m.value, true, d));
    var o := SpansParts(c, s, next, Quoted(m.key), Colon(true));
    StringOutcome(c, s, o, m.key);
    ValueOutcome(c, next, e, m.value, d);
    TextStarts(m.value, false, d);
    SeparatedOutcome(c, s, o, next, e, Quoted(m.key), ":\t", ":", Text(m.value, false, d),
                     !EndsInBackslash(m.key), true, Clean(m.value), Survives(m.value));
    if Clean(m.value) {
      CleanSurvives(m.value);
    }
  }

  // ---------------------------------------------------------------- the two forms of a text

  /**
   Minifying the formatted text of a tree gives its unformatted text exactly when no key and no string ends
   in a backslash, but for a string that only closing brackets follow.
   */
  lemma MinifyConnectsFormats(v: Json)
    requires Printable(v)
    ensures Minified(Text(v, true, 0) + [NUL], 0) == Text(v, false, 0) <==> Survives(v)
    ensures Clean(v) ==> Minified(Text(v, true, 0) + [NUL], 0) == Text(v, false, 0)
  {
    var t, u := Text(v, true, 0), Text(v, false, 0);
    var c := t + [NUL];
    assert c[0..|t|] == t && c[|t|] == NUL;
    ValueOutcome(c, 0, |t|, v, 0);
    AppendNothing(u);
    if Clean(v) {
      CleanSurvives(v);
    }
  }

  /** The smallest tree whose text the minifier spoils: the space behind the comma stays. */
  lemma MisreadExample()
    ensures !Survives(Array([String("\\"), Null]))
    ensures Minified("[\"\\\\\", null]" + [NUL], 0) != "[\"\\\\\",null]"
  {
    var v := Array([String("\\"), Null]);
    assert !Clean(v.items[0]);
    MinifyConnectsFormats(v);
    MisreadTexts();
  }

  lemma MisreadTexts()
    ensures Text(Array([String("\\"), Null]), true, 0) == "[\"\\\\\", null]"
    ensures Text(Array([String("\\"), Null]), false, 0) == "[\"\\\\\",null]"
  {
    MisreadItems(true);
    MisreadItems(false);
  }

  lemma MisreadItems(fmt: bool)
    ensures ItemsText([String("\\"), Null], fmt, 1) == "\"\\\\\"" + (if fmt then ", " else ",") + "null"
  {
    var items := [String("\\"), Null];
    assert items[1..] == [Null] && [Null][1..] == [];
    assert ItemsText([Null], fmt, 1) == "null";
    assert EscapeText("\\") == "\\\\";
  }
}
