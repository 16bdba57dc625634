/**
 The formatted text by its bytes: where it differs from the unformatted text of the same value. Beside that, how
 integers are written.
 */
module JsonLayout {
  import opened CStrings
  import opened Seqs
  import opened JsonValues
  import opened JsonText

  // ---------------------------------------------------------------- layout as a scan over bytes

  function Repeat(b: char, n: nat): (s: string)
    ensures |s| == n
  {
    if n == 0 then "" else [b] + Repeat(b, n - 1)
  }

  /** Is the innermost open bracket a brace? */
  predicate InObject(open: string) {
    open != "" && open[|open| - 1] == '{'
  }

  function Closing(open: string): nat {
    if open == "" then 0 else |open| - 1
  }

  /**
   The text with the whitespace of the formatted form put in: a newline behind each opening brace and behind each
   member, and at the start of each line one tab for every bracket that is open there, the one about to be closed not
   counted; a tab behind each colon, and a space behind each comma of an array. Strings stay as they are. `open` holds
   the brackets open in front of the text, and `line` says that a line starts there.
   */
  function Layout(t: string, open: string, line: bool): string
    decreases |t|, 1
  {
    if t == "" then ""
    else if t[0] == '\"' then (if line then Repeat('\t', |open|) else "") + "\"" + LayoutString(t[1..], open)
    else if t[0] == '{' then "{\n" + Layout(t[1..], open + "{", true)
    else if t[0] == '[' then "[" + Layout(t[1..], open + "[", false)
    else if t[0] == '}' then
      (if line then "" else "\n") + Repeat('\t', Closing(open)) + "}" + Layout(t[1..], open[..Closing(open)], false)
    else if t[0] == ']' then "]" + Layout(t[1..], open[..Closing(open)], false)
    else if t[0] == ':' then ":\t" + Layout(t[1..], open, false)
    else if t[0] == ',' && InObject(open) then ",\n" + Layout(t[1..], open, true)
    else if t[0] == ',' then ", " + Layout(t[1..], open, false)
    else [t[0]] + Layout(t[1..], open, false)
  }

  /** Inside a string, up to a quote without a backslash in front of it. */
  function LayoutString(t: string, open: string): string
    decreases |t|, 0
  {
    if t == "" then ""
    else if t[0] == '\\' && |t| > 1 then t[..2] + LayoutString(t[2..], open)
    else if t[0] == '\"' then "\"" + Layout(t[1..], open, false)
    else [t[0]] + LayoutString(t[1..], open)
  }

  // ---------------------------------------------------------------- strings and words

  lemma TabsRepeat(n: nat)
    ensures Tabs(n) == Repeat('\t', n)
  {
    if n > 0 {
      TabsRepeat(n - 1);
      assert Tabs(n) == ['\t'] + Tabs(n - 1);
    }
  }

  /** A byte that starts, ends or separates nothing. */
  predicate Ordinary(b: char) {
    b != '\"' && b != '{' && b != '}' && b != '[' && b != ']' && b != ':' && b != ','
  }

  lemma {:induction false} OrdinaryLayout(t: string, rest: string, open: string)
    requires forall i :: 0 <= i < |t| ==> Ordinary(t[i])
    ensures Layout(t + rest, open, false) == t + Layout(rest, open, false)
    decreases |t|
  {
    if t == "" {
      assert t + rest == rest;
    } else {
      SumTail(t, rest);
      OrdinaryLayout(t[1..], rest, open);
      Front(t, rest, Layout(rest, open, false), Layout(t[1..] + rest, open, false));
    }
  }

  lemma Front(t: string, rest: string, end: string, more: string)
    requires t != "" && more == t[1..] + end
    ensures [t[0]] + more == t + end
  {
  }

  /** What escaping makes of a byte: two bytes that start with a backslash, or those and four more, or the byte. */
  lemma EscapeForm(b: char)
    ensures var e := EscapeByte(b);
      || (|e| == 1 && e[0] != '\"' && e[0] != '\\')
      || (|e| == 2 && e[0] == '\\')
      || (|e| == 6 && e[0] == '\\' && forall i :: 2 <= i < 6 ==> e[i] != '\"' && e[i] != '\\')
  {
  }

  lemma {:induction false} PlainStays(t: string, rest: string, open: string)
    requires forall i :: 0 <= i < |t| ==> t[i] != '\"' && t[i] != '\\'
    ensures LayoutString(t + rest, open) == t + LayoutString(rest, open)
    decreases |t|
  {
    if t == "" {
      assert t + rest == rest;
    } else {
      SumTail(t, rest);
      PlainStays(t[1..], rest, open);
      Front(t, rest, LayoutString(rest, open), LayoutString(t[1..] + rest, open));
    }
  }

  lemma EscapeStays(b: char, rest: string, open: string)
    ensures LayoutString(EscapeByte(b) + rest, open) == EscapeByte(b) + LayoutString(rest, open)
  {
    EscapeForm(b);
    var e := EscapeByte(b);
    if e[0] != '\\' {
      PlainStays(e, rest, open);
    } else {
      var t := e + rest;
      assert t[0] == '\\' && |t| > 1 && t[..2] == e[..2] && t[2..] == e[2..] + rest;
      PlainStays(e[2..], rest, open);
      CutAt(e, 2);
      AppendAssociates(e[..2], e[2..], LayoutString(rest, open));
    }
  }

  lemma {:induction false} TextStays(s: string, rest: string, open: string)
    ensures LayoutString(EscapeText(s) + rest, open) == EscapeText(s) + LayoutString(rest, open)
    decreases |s|
  {
    if s == "" {
      assert EscapeText(s) + rest == rest;
      assert EscapeText(s) + LayoutString(rest, open) == LayoutString(rest, open);
    } else {
      var e, t := EscapeByte(s[0]), EscapeText(s[1..]);
      AppendAssociates(e, t, rest);
      AppendAssociates(e, t, LayoutString(rest, open));
      EscapeStays(s[0], t + rest, open);
      TextStays(s[1..], rest, open);
    }
  }

  lemma QuoteOpens(t: string, open: string, line: bool)
    ensures Layout("\"" + t, open, line) == (if line then Tabs(|open|) else "") + ("\"" + LayoutString(t, open))
  {
    TabsRepeat(|open|);
    assert ("\"" + t)[1..] == t;
  }

  lemma QuoteCloses(t: string, open: string)
    ensures LayoutString("\"" + t, open) == "\"" + Layout(t, open, false)
  {
    assert ("\"" + t)[1..] == t;
  }

  lemma QuotedParts(s: string, rest: string)
    ensures Quoted(s) + rest == "\"" + (EscapeText(s) + ("\"" + rest))
  {
  }

  /** A string stays as it is; at the start of a line the tabs come in front of it. */
  lemma QuotedLayout(s: string, rest: string, open: string, line: bool)
    ensures Layout(Quoted(s) + rest, open, line) ==
      (if line then Tabs(|open|) else "") + (Quoted(s) + Layout(rest, open, false))
  {
    hide *;
    QuotedParts(s, rest);
    QuoteOpens(EscapeText(s) + ("\"" + rest), open, line);
    TextStays(s, "\"" + rest, open);
    QuoteCloses(rest, open);
    QuotedParts(s, Layout(rest, open, false));
  }

  lemma IntegerOrdinary(n: int)
    ensures forall i :: 0 <= i < |IntegerText(n)| ==> Ordinary(IntegerText(n)[i])
  {
  }

  // ---------------------------------------------------------------- values

  /** Laying out the unformatted text of a value gives its formatted text, indented by the brackets that are open. */
  lemma {:induction false} ValueLayout(v: Json, depth: nat, rest: string, open: string)
    ensures Layout(Text(v, false, depth) + rest, open, false) == Text(v, true, |open|) + Layout(rest, open, false)
    decreases v, 2
  {
    match v
    case Array(items) => ArrayLayout(items, depth, rest, open);
    case Object(ms) => ObjectLayout(ms, depth, rest, open);
    case String(s) => QuotedLayout(s, rest, open, false);
    case Number(n) =>
      IntegerOrdinary(n);
      OrdinaryLayout(IntegerText(n), rest, open);
    case _ => OrdinaryLayout(Text(v, false, depth), rest, open);
  }

  lemma {:induction false} ArrayLayout(items: seq<Json>, depth: nat, rest: string, open: string)
    ensures Layout(Text(Array(items), false, depth) + rest, open, false) ==
      Text(Array(items), true, |open|) + Layout(rest, open, false)
    decreases items, 1
  {
    var inner := ItemsText(items, false, depth + 1);
    var t := Text(Array(items), false, depth) + rest;
    Bracketed("[", inner, "]", rest);
    assert t[0] == '[' && t[1..] == inner + ("]" + rest);
    ItemsLayout(items, depth + 1, "]" + rest, open + "[");
    assert ("]" + rest)[1..] == rest && (open + "[")[..|open|] == open;
    Bracketed("[", ItemsText(items, true, |open| + 1), "]", Layout(rest, open, false));
  }

  lemma Bracketed(a: string, b: string, c: string, rest: string)
    ensures a + b + c + rest == a + (b + (c + rest))
  {
  }

  lemma {:induction false} ItemsLayout(items: seq<Json>, depth: nat, rest: string, open: string)
    requires open != "" && !InObject(open)
    ensures Layout(ItemsText(items, false, depth) + rest, open, false) ==
      ItemsText(items, true, |open|) + Layout(rest, open, false)
    decreases items, 0
  {
    if items == [] {
      AppendNothing(rest);
      AppendNothing(Layout(rest, open, false));
    } else {
      var v, more := items[0], ItemsText(items[1..], false, depth);
      ItemsLayout(items[1..], depth, rest, open);
      if |items| == 1 {
        assert ItemsText(items, false, depth) + rest == Text(v, false, depth) + rest;
        assert ItemsText(items, true, |open|) == Text(v, true, |open|);
        ValueLayout(v, depth, rest, open);
      } else {
        Bracketed(Text(v, false, depth), ",", more, rest);
        ValueLayout(v, depth, "," + (more + rest), open);
        assert ("," + (more + rest))[1..] == more + rest;
        Bracketed(Text(v, true, |open|), ", ", ItemsText(items[1..], true, |open|), Layout(rest, open, false));
      }
    }
  }

  lemma {:induction false} ObjectLayout(ms: seq<Member>, depth: nat, rest: string, open: string)
    ensures Layout(Text(Object(ms), false, depth) + rest, open, false) ==
      Text(Object(ms), true, |open|) + Layout(rest, open, false)
    decreases ms, 1
  {
    var inner := MembersText(ms, false, depth + 1);
    var t := Text(Object(ms), false, depth) + rest;
    Bracketed("{", inner, "}", rest);
    assert t == "{" + (inner + ("}" + rest));
    assert t[0] == '{' && t[1..] == inner + ("}" + rest);
    MembersLayout(ms, depth + 1, rest, open + "{");
    assert (open + "{")[..|open|] == open;
    var laid, tabs := MembersText(ms, true, |open| + 1), Tabs(|open|);
    assert Text(Object(ms), true, |open|) == "{\n" + laid + (tabs + "}");
    Bracketed("{\n", laid, tabs + "}", Layout(rest, open, false));
  }

  /** The members of an object and its closing brace. */
  lemma {:induction false} MembersLayout(ms: seq<Member>, depth: nat, rest: string, open: string)
    requires InObject(open)
    ensures Layout(MembersText(ms, false, depth) + ("}" + rest), open, true) ==
      MembersText(ms, true, |open|) + (Tabs(|open| - 1) + "}" + Layout(rest, open[..|open| - 1], false))
    decreases ms, 0
  {
    hide Layout, LayoutString, MemberText, Text;
    var end := Tabs(|open| - 1) + "}" + Layout(rest, open[..|open| - 1], false);
    if ms == [] {
      BraceLayout(rest, open, true);
      AppendNothing("}" + rest);
      AppendNothing(end);
    } else {
      var more, laid := MembersText(ms[1..], false, depth), MembersText(ms[1..], true, |open|);
      if |ms| == 1 {
        BraceLayout(rest, open, false);
        MemberLayout(ms[0], depth, "}" + rest, open);
        LastMember(ms, depth, "}" + rest);
        LastMemberLaid(ms, |open|, end);
      } else {
        MembersLayout(ms[1..], depth, rest, open);
        MemberLayout(ms[0], depth, "," + (more + ("}" + rest)), open);
        CommaLayout(more + ("}" + rest), open);
        FirstMember(ms, false, depth, "}" + rest);
        FirstMember(ms, true, |open|, end);
      }
    }
  }

  lemma LastMember(ms: seq<Member>, depth: nat, rest: string)
    requires |ms| == 1
    ensures MembersText(ms, false, depth) + rest == MemberText(ms[0], false, depth) + rest
  {
  }

  lemma LastMemberLaid(ms: seq<Member>, depth: nat, rest: string)
    requires |ms| == 1
    ensures MembersText(ms, true, depth) + rest == MemberText(ms[0], true, depth) + ("\n" + rest)
  {
  }

  lemma FirstMember(ms: seq<Member>, fmt: bool, depth: nat, rest: string)
    requires |ms| > 1
    ensures MembersText(ms, fmt, depth) + rest ==
      MemberText(ms[0], fmt, depth) + ((if fmt then ",\n" else ",") + (MembersText(ms[1..], fmt, depth) + rest))
  {
    hide Text, MemberText;
    Bracketed(MemberText(ms[0], fmt, depth), if fmt then ",\n" else ",", MembersText(ms[1..], fmt, depth), rest);
  }

  lemma CommaLayout(rest: string, open: string)
    requires InObject(open)
    ensures Layout("," + rest, open, false) == ",\n" + Layout(rest, open, true)
  {
    assert ("," + rest)[1..] == rest;
  }

  /** A closing brace, at the start of a line or not. */
  lemma BraceLayout(rest: string, open: string, line: bool)
    requires InObject(open)
    ensures Layout("}" + rest, open, line) ==
      (if line then "" else "\n") + (Tabs(|open| - 1) + "}" + Layout(rest, open[..|open| - 1], false))
  {
    TabsRepeat(|open| - 1);
    var t := "}" + rest;
    assert t[0] == '}' && t[1..] == rest;
    LineEnd(if line then "" else "\n", Tabs(|open| - 1), Layout(rest, open[..|open| - 1], false));
  }

  lemma LineEnd(newline: string, tabs: string, rest: string)
    ensures newline + tabs + "}" + rest == newline + (tabs + "}" + rest)
  {
  }

  lemma ColonLayout(rest: string, open: string)
    ensures Layout(":" + rest, open, false) == ":\t" + Layout(rest, open, false)
  {
    assert (":" + rest)[1..] == rest;
  }

  lemma {:induction false} MemberLayout(m: Member, depth: nat, rest: string, open: string)
    ensures Layout(MemberText(m, false, depth) + rest, open, true) ==
      MemberText(m, true, |open|) + Layout(rest, open, false)
    decreases m, 1
  {
    hide *;
    var value := Text(m.value, false, depth);
    MemberParts(m, depth, rest);
    QuotedLayout(m.key, ":" + (value + rest), open, true);
    ColonLayout(value + rest, open);
    ValueLayout(m.value, depth, rest, open);
    MemberLaid(m, |open|, Layout(rest, open, false));
  }

  lemma MemberParts(m: Member, depth: nat, rest: string)
    ensures MemberText(m, false, depth) + rest == Quoted(m.key) + (":" + (Text(m.value, false, depth) + rest))
  {
    var key := Quoted(m.key);
    assert MemberText(m, false, depth) == key + ":" + Text(m.value, false, depth);
    Bracketed(key, ":", Text(m.value, false, depth), rest);
  }

  lemma MemberLaid(m: Member, depth: nat, rest: string)
    ensures MemberText(m, true, depth) + rest ==
      Tabs(depth) + (Quoted(m.key) + (":\t" + (Text(m.value, true, depth) + rest)))
  {
    var tabs, key := Tabs(depth), Quoted(m.key);
    assert MemberText(m, true, depth) == tabs + key + ":\t" + Text(m.value, true, depth);
    Bracketed(tabs + key, ":\t", Text(m.value, true, depth), rest);
    AppendAssociates(tabs, key, ":\t" + (Text(m.value, true, depth) + rest));
  }

  /** The formatted text of a value is its unformatted text, laid out. */
  lemma FormattedLayout(v: Json)
    ensures Text(v, true, 0) == Layout(Text(v, false, 0), "", false)
  {
    ValueLayout(v, 0, "", "");
    AppendNothing(Text(v, false, 0));
    AppendNothing(Text(v, true, 0));
  }

  // ---------------------------------------------------------------- integers

  /** Integers are written with a minus sign if and only if they are negative, and with no leading zeros. */
  lemma IntegerWritten(n: int)
    ensures var t := IntegerText(n);
      var digits := if n < 0 then t[1..] else t;
      (t[0] == '-' <==> n < 0) && digits != "" && Digits(digits) && (|digits| > 1 ==> digits[0] != '0') &&
      DigitsValue(digits) == if n < 0 then -n else n
  {
    DecimalValue(if n < 0 then -n else n);
    if n < 0 {
      assert IntegerText(n)[1..] == Decimal(-n);
    }
  }
}
