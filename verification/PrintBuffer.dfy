/**
 The printer as the program runs it: a buffer that `ensure` grows, and an offset that counts only part of
 what has been written. After a value is printed the text behind the offset ends in a NUL, and
 `update_offset` counts it later.
 */
module PrintBuffers {
  import opened CStrings
  import opened Seqs
  import opened JsonValues
  import opened JsonText
  import RoundTrip = JsonRoundTrip

  const INT_MAX: nat := 0x7FFF_FFFF

  // ---------------------------------------------------------------- text piece by piece

  lemma {:induction false} EscapeTextGrows(s: string, k: nat)
    requires k < |s|
    ensures EscapeText(s[..k + 1]) == EscapeText(s[..k]) + EscapeByte(s[k])
  {
    if k == 0 {
      assert s[..1] == [s[0]] && s[..0] == "";
      assert EscapeText(s[..1]) == EscapeByte(s[0]) + EscapeText(s[..1][1..]);
    } else {
      var t := s[1..];
      EscapeTextGrows(t, k - 1);
      assert s[..k + 1][1..] == t[..k] && s[..k][1..] == t[..k - 1];
      AppendAssociates(EscapeByte(s[0]), EscapeText(t[..k - 1]), EscapeByte(s[k]));
    }
  }

  lemma {:induction false} EscapeTextLonger(s: string, k: nat)
    requires k <= |s|
    ensures |EscapeText(s[..k])| <= |EscapeText(s)|
    decreases |s| - k
  {
    if k < |s| {
      EscapeTextGrows(s, k);
      EscapeTextLonger(s, k + 1);
    } else {
      assert s[..k] == s;
    }
  }

  lemma {:induction false} NothingEscaped(s: string)
    ensures |EscapeText(s)| >= |s|
    ensures |EscapeText(s)| == |s| ==> EscapeText(s) == s
  {
    if s != "" {
      NothingEscaped(s[1..]);
      HeadTail(s);
    }
  }

  lemma ItemsFrom(items: seq<Json>, i: nat, fmt: bool, depth: nat)
    requires i < |items|
    ensures ItemsText(items[i..], fmt, depth) == Text(items[i], fmt, depth) +
      (if i + 1 < |items| then Comma(fmt) else "") + ItemsText(items[i + 1..], fmt, depth)
  {
    assert items[i..][1..] == items[i + 1..];
  }

  lemma MembersFrom(ms: seq<Member>, i: nat, fmt: bool, depth: nat)
    requires i < |ms|
    ensures MembersText(ms[i..], fmt, depth) ==
      MemberText(ms[i], fmt, depth) + MemberEnd(fmt, i + 1 < |ms|) + MembersText(ms[i + 1..], fmt, depth)
  {
    assert ms[i..][1..] == ms[i + 1..];
  }

  // ---------------------------------------------------------------- the buffer

  class PrintBuffer {
    var buffer: array<char>
    var length: nat
    var offset: nat
    var depth: nat
    const noalloc: bool
    const fmt: bool
    /** The end of what the latest successful `ensure` has reserved. */
    ghost var reserved: nat

    constructor (buffer: array<char>, noalloc: bool, fmt: bool)
      requires buffer.Length <= INT_MAX
      ensures this.buffer == buffer && this.noalloc == noalloc && this.fmt == fmt && depth == 0
      ensures Holds("")
    {
      this.buffer, length, offset, depth := buffer, buffer.Length, 0, 0;
      this.noalloc, this.fmt, reserved := noalloc, fmt, 0;
    }

    ghost predicate Valid()
      reads this
    {
      length == buffer.Length <= INT_MAX && (offset < length || (offset == 0 && length == 0)) && reserved <= length
    }

    /** The largest size the buffer can have. */
    ghost function Limit(): nat
      reads this
    {
      if noalloc then length else INT_MAX
    }

    /** All of the text written so far is counted by the offset. */
    ghost predicate Holds(text: string)
      reads this, buffer
    {
      Valid() && offset == |text| && buffer[..offset] == text
    }

    /** The text written so far ends in a NUL; the offset may be anywhere up to it. */
    ghost predicate Pending(text: string)
      reads this, buffer
    {
      Valid() && offset <= |text| && |text| + 1 < length && buffer[..|text|] == text && buffer[|text|] == NUL
    }

    /** The buffer is the old one or a new one; the limit, the depth and a fixed buffer stay. */
    twostate predicate Kept()
      reads this
    {
      && (buffer == old(buffer) || fresh(buffer))
      && (noalloc ==> buffer == old(buffer))
      && Limit() == old(Limit())
    }

    /** `ensure`: room for `needed` bytes and one more behind the offset. */
    method Ensure(needed: nat) returns (ok: bool)
      requires Valid()
      modifies `buffer, `length, `reserved
      ensures Valid() && Kept()
      ensures ok <==> offset + needed + 1 <= Limit()
      ensures ok ==> reserved == offset + needed + 1
      ensures buffer[..offset] == old(buffer[..offset])
    {
      if length > 0 && offset >= length {
        return false;
      }
      if needed > INT_MAX {
        return false;
      }
      var end := needed + offset + 1;
      if end <= length {
        reserved := end;
        return true;
      }
      if noalloc {
        return false;
      }
      var newsize;
      if end > INT_MAX / 2 {
        if end <= INT_MAX {
          newsize := INT_MAX;
        } else {
          return false;
        }
      } else {
        newsize := end * 2;
      }
      var newbuffer := new char[newsize];
      forall i | 0 <= i < length {
        newbuffer[i] := buffer[i];
      }
      assert newbuffer[..offset] == buffer[..offset];
      length, buffer, reserved := newsize, newbuffer, end;
      ok := true;
    }

    /** One byte through the output pointer: only inside what `ensure` reserved. */
    method Put(at: nat, b: char)
      requires Valid() && at < reserved
      modifies buffer
      ensures buffer[at] == b
      ensures forall i :: 0 <= i < buffer.Length && i != at ==> buffer[i] == old(buffer[i])
    {
      buffer[at] := b;
    }

    /** A text through the output pointer. */
    method Copy(at: nat, text: string)
      requires Valid() && at + |text| <= reserved
      modifies buffer
      ensures buffer[..at] == old(buffer[..at]) && buffer[at..at + |text|] == text
      ensures buffer[at + |text|..] == old(buffer[at + |text|..])
    {
      var i := 0;
      while i < |text|
        invariant 0 <= i <= |text|
        invariant forall k :: 0 <= k < i ==> buffer[at + k] == text[k]
        invariant forall k :: 0 <= k < at || at + i <= k < buffer.Length ==> buffer[k] == old(buffer[k])
      {
        Put(at + i, text[i]);
        i := i + 1;
      }
    }

    /** `update_offset`: the offset moves over the text behind it. */
    method UpdateOffset(ghost text: string)
      requires Pending(text) && NUL !in text[offset..]
      modifies `offset
      ensures Holds(text) && offset < length
    {
      var strlen := 0;
      while buffer[offset + strlen] != NUL
        invariant offset + strlen <= |text|
        decreases |text| - strlen
      {
        assert buffer[offset + strlen] != NUL;
        strlen := strlen + 1;
      }
      if offset + strlen < |text| {
        assert buffer[..|text|][offset + strlen] == text[offset..][strlen];
      }
      offset := offset + strlen;
    }

    /** A word with its terminator, behind the offset: how `null`, `true`, `false` and numbers are written. */
    method PutWord(word: string, ghost before: string) returns (ok: bool)
      requires Holds(before)
      modifies `buffer, `length, `reserved, buffer
      ensures Kept()
      ensures ok <==> |before| + |word| + 2 <= Limit()
      ensures ok ==> Pending(before + word)
    {
      ok := Ensure(|word| + 1);
      if ok {
        Copy(offset, word + [NUL]);
        Joined(before, word + [NUL]);
        assert before + (word + [NUL]) == (before + word) + [NUL];
      }
    }

    /** What stands in the buffer after a text has been put behind the offset. */
    lemma Joined(before: string, text: string)
      requires Valid() && offset == |before| && offset + |text| <= length
      requires buffer[..offset] == before && buffer[offset..offset + |text|] == text
      ensures buffer[..offset + |text|] == before + text
    {
    }

    /** Text that is counted at once; with `end`, a terminator is reserved and written behind it. */
    method PutCounted(text: string, end: bool, ghost before: string) returns (ok: bool)
      requires Holds(before)
      modifies `buffer, `length, `reserved, `offset, buffer
      ensures Kept()
      ensures ok <==> |before| + |text| + (if end then 2 else 1) <= Limit()
      ensures ok ==> Holds(before + text)
    {
      ok := Ensure(|text| + if end then 1 else 0);
      if ok {
        Append(offset, text, before);
        if end {
          Terminate(offset + |text|, before + text);
        }
        offset := offset + |text|;
      }
    }

    /** `print_number`: the text passes through a buffer of 26 bytes. */
    method PrintNumber(n: int, ghost before: string) returns (ok: bool)
      requires Holds(before) && -MAX_INTEGER < n < MAX_INTEGER
      modifies this, buffer
      ensures Kept()
      ensures ok <==> |before| + |IntegerText(n)| + 2 <= Limit()
      ensures ok ==> Pending(before + IntegerText(n)) && |before| <= offset && depth == old(depth)
    {
      var text := IntegerText(n);
      RoundTrip.FifteenDigits(if n < 0 then -n else n);
      if |text| > 25 {
        return false;
      }
      ok := PutWord(text, before);
      if ok {
        offset := offset + |text|;
      }
    }

    /** The counting loop of `print_string_ptr`: bytes that escaping adds. */
    method CountEscapes(s: string) returns (added: nat)
      ensures |EscapeText(s)| == |s| + added
    {
      added := 0;
      var k := 0;
      assert s[..0] == "";
      while k < |s|
        invariant 0 <= k <= |s| && |EscapeText(s[..k])| == k + added
      {
        EscapeTextGrows(s, k);
        if s[k] == '\"' || s[k] == '\\' || s[k] == BACKSPACE || s[k] == FORM_FEED || s[k] == '\n' || s[k] == '\r' ||
           s[k] == '\t' {
          added := added + 1;
        } else if s[k] < ' ' {
          added := added + 5;
        }
        k := k + 1;
      }
      assert s[..k] == s;
    }

    /** The writing loop of `print_string_ptr`, one byte of the string. */
    method PutEscape(at: nat, c: char) returns (next: nat)
      requires Valid() && at + |EscapeByte(c)| < reserved
      modifies buffer
      ensures next == at + |EscapeByte(c)|
      ensures forall i :: 0 <= i < at ==> buffer[i] == old(buffer[i])
      ensures buffer[at..next] == EscapeByte(c)
    {
      if c >= ' ' && c != '\"' && c != '\\' {
        Put(at, c);
        assert buffer[at..at + 1] == [c];
        return at + 1;
      }
      Put(at, '\\');
      if c == '\\' || c == '\"' {
        Put(at + 1, c);
      } else if c == BACKSPACE {
        Put(at + 1, 'b');
      } else if c == FORM_FEED {
        Put(at + 1, 'f');
      } else if c == '\n' {
        Put(at + 1, 'n');
      } else if c == '\r' {
        Put(at + 1, 'r');
      } else if c == '\t' {
        Put(at + 1, 't');
      } else {
        PutUnicode(at + 1, c);
        EscapeWritten(at, c);
      }
      if |EscapeByte(c)| == 2 {
        ShortWritten(at, c);
      }
      next := at + |EscapeByte(c)|;
    }

    /** `sprintf` with "u%04x", which also writes a terminator. */
    method PutUnicode(at: nat, c: char)
      requires Valid() && c < ' ' && at + 6 <= reserved
      modifies buffer
      ensures forall i :: 0 <= i < at ==> buffer[i] == old(buffer[i])
      ensures buffer[at..at + 6] == "u" + Hex4(c as int, LOWER_CASE) + [NUL]
    {
      Copy(at, "u" + Hex4(c as int, LOWER_CASE) + [NUL]);
      assert forall i :: 0 <= i < at ==> buffer[i] == buffer[..at][i] == old(buffer[..at])[i];
    }

    /** The buffer starts with this text, up to a position. */
    ghost predicate Written(text: string, at: nat)
      reads this, buffer
    {
      at == |text| <= buffer.Length && buffer[..at] == text
    }

    lemma Extended(at: nat, next: nat, before: string)
      requires Written(before, at) && at <= next <= buffer.Length
      ensures Written(before + buffer[at..next], next)
    {
    }

    lemma ShortWritten(at: nat, c: char)
      requires at + 2 <= buffer.Length && |EscapeByte(c)| == 2
      requires buffer[at] == EscapeByte(c)[0] && buffer[at + 1] == EscapeByte(c)[1]
      ensures buffer[at..at + 2] == EscapeByte(c)
    {
    }

    lemma EscapeWritten(at: nat, c: char)
      requires c < ' ' && |EscapeByte(c)| == 6 && at + 7 <= buffer.Length && buffer[at] == '\\'
      requires buffer[at + 1..at + 7] == "u" + Hex4(c as int, LOWER_CASE) + [NUL]
      ensures buffer[at..at + 6] == EscapeByte(c)
    {
      var t, e := "u" + Hex4(c as int, LOWER_CASE) + [NUL], EscapeByte(c);
      forall k | 0 <= k < 6
        ensures buffer[at + k] == e[k]
      {
        if k > 0 {
          assert buffer[at + 1..at + 7][k - 1] == t[k - 1] == e[k];
        }
      }
    }

    method PutOne(at: nat, c: char, ghost before: string) returns (next: nat)
      requires Valid() && at + |EscapeByte(c)| < reserved && Written(before, at)
      modifies buffer
      ensures next == at + |EscapeByte(c)| && Written(before + EscapeByte(c), next)
    {
      next := PutEscape(at, c);
      Extended(at, next, before);
    }

    /** The writing loop of `print_string_ptr`. */
    method PutEscaped(start: nat, s: string, ghost before: string)
      requires Valid() && start + |EscapeText(s)| < reserved && Written(before, start)
      modifies buffer
      ensures Written(before + EscapeText(s), start + |EscapeText(s)|)
    {
      var at, k := start, 0;
      assert s[..0] == "";
      AppendNothing(before);
      while k < |s|
        invariant 0 <= k <= |s| && at == start + |EscapeText(s[..k])|
        invariant Written(before + EscapeText(s[..k]), at)
      {
        EscapeTextGrows(s, k);
        EscapeTextLonger(s, k + 1);
        AppendAssociates(before, EscapeText(s[..k]), EscapeByte(s[k]));
        at := PutOne(at, s[k], before + EscapeText(s[..k]));
        k := k + 1;
      }
      assert s[..k] == s;
    }

    method Terminate(at: nat, ghost text: string)
      requires Valid() && at < reserved && Written(text, at)
      modifies buffer
      ensures Written(text, at) && buffer[at] == NUL
    {
      Put(at, NUL);
    }

    /** A text through the output pointer, after what stands in front of it. */
    method Append(at: nat, text: string, ghost before: string)
      requires Valid() && at + |text| <= reserved && Written(before, at)
      modifies buffer
      ensures Written(before + text, at + |text|)
    {
      Copy(at, text);
      Extended(at, at + |text|, before);
    }

    /** `print_string_ptr` for a string that is there. */
    method PrintString(s: string, ghost before: string) returns (ok: bool)
      requires Holds(before) && NUL !in s
      modifies `buffer, `length, `reserved, buffer
      ensures Kept()
      ensures ok <==> |before| + |Quoted(s)| + 2 <= Limit()
      ensures ok ==> Pending(before + Quoted(s))
    {
      var added := CountEscapes(s);
      var outputLength := |s| + added;
      ok := Ensure(outputLength + 3);
      if ok {
        PutQuoted(s, outputLength, before);
      }
    }

    /** The string and its quotes, once there is room. */
    method PutQuoted(s: string, outputLength: nat, ghost before: string)
      requires Holds(before) && NUL !in s && outputLength == |EscapeText(s)| && reserved == offset + outputLength + 4
      modifies buffer
      ensures Pending(before + Quoted(s))
    {
      ghost var open := before + "\"";
      Append(offset, "\"", before);
      PutBody(offset + 1, s, outputLength, open);
      Append(offset + outputLength + 1, "\"", open + EscapeText(s));
      QuotedIs(before, s);
      Terminate(offset + outputLength + 2, before + Quoted(s));
    }

    /** The bytes between the quotes, copied in one go when none is escaped. */
    method PutBody(start: nat, s: string, outputLength: nat, ghost before: string)
      requires Valid() && outputLength == |EscapeText(s)| && start + outputLength < reserved && Written(before, start)
      modifies buffer
      ensures Written(before + EscapeText(s), start + outputLength)
    {
      if outputLength == |s| {
        NothingEscaped(s);
        Append(start, s, before);
      } else {
        PutEscaped(start, s, before);
      }
    }

    lemma QuotedIs(before: string, s: string)
      ensures before + Quoted(s) == (before + "\"" + EscapeText(s)) + "\""
    {
      AppendAssociates(before, "\"", EscapeText(s));
      AppendAssociates(before, "\"" + EscapeText(s), "\"");
    }

    // -------------------------------------------------------------- values

    /** `update_offset` after a value has been printed behind counted text. */
    method CountText(ghost before: string, ghost text: string)
      requires Pending(before + text) && |before| <= offset && NUL !in text
      modifies `offset
      ensures Holds(before + text)
    {
      ghost var all := before + text;
      assert forall k :: offset <= k < |all| ==> all[k] == text[k - |before|];
      UpdateOffset(all);
    }

    /**
     `print_value`. It succeeds exactly when the text and two more bytes fit in the limit; then the text
     stands behind what was there, whatever reallocation it took.
     */
    method PrintValue(v: Json, ghost before: string) returns (ok: bool)
      requires Holds(before) && Printable(v)
      modifies this, buffer
      ensures Kept()
      ensures ok <==> |before| + |Text(v, fmt, old(depth))| + 2 <= Limit()
      ensures ok ==> Pending(before + Text(v, fmt, depth)) && |before| <= offset && depth == old(depth)
      decreases v, 2
    {
      match v
      case Null => ok := PutWord("null", before);
      case False => ok := PutWord("false", before);
      case True => ok := PutWord("true", before);
      case Number(n) => ok := PrintNumber(n, before);
      case String(s) => ok := PrintString(s, before);
      case Array(items) => ok := PrintArray(items, before);
      case Object(ms) => ok := PrintObject(ms, before);
    }

    /** One turn of the loop of `print_array`. */
    method PrintItem(items: seq<Json>, i: nat, ghost done: string) returns (ok: bool)
      requires Holds(done) && i < |items| && Printable(items[i])
      modifies this, buffer
      ensures Kept()
      ensures !ok ==> |done| + |Text(items[i], fmt, old(depth)) + CommaAfter(items, i)| + 2 > Limit()
      ensures ok ==> Holds(done + (Text(items[i], fmt, depth) + CommaAfter(items, i))) && depth == old(depth)
      decreases items, 0
    {
      ghost var text := Text(items[i], fmt, depth);
      ok := PrintValue(items[i], done);
      if ok {
        RoundTrip.TextNoNul(items[i], fmt, depth);
        CountText(done, text);
        AppendAssociates(done, text, CommaAfter(items, i));
        if i + 1 < |items| {
          ok := PutCounted(Comma(fmt), true, done + text);
        } else {
          AppendNothing(done + text);
        }
      }
    }

    function CommaAfter(items: seq<Json>, i: nat): string {
      if i + 1 < |items| then Comma(fmt) else ""
    }

    /** The loop of `print_array`. */
    method PrintItems(items: seq<Json>, ghost before: string) returns (ok: bool)
      requires Holds(before) && forall i :: 0 <= i < |items| ==> Printable(items[i])
      modifies this, buffer
      ensures Kept()
      ensures !ok ==> |before| + |ItemsText(items, fmt, old(depth))| + 2 > Limit()
      ensures ok ==> Holds(before + ItemsText(items, fmt, depth)) && depth == old(depth)
      decreases items, 1, 0
    {
      ghost var whole := before + ItemsText(items, fmt, depth);
      ghost var done := before;
      var i := 0;
      assert items[0..] == items;
      while i < |items|
        invariant 0 <= i <= |items| && Kept() && depth == old(depth) && Holds(done)
        invariant whole == done + ItemsText(items[i..], fmt, depth)
      {
        ghost var text := Text(items[i], fmt, depth) + CommaAfter(items, i);
        ItemsFrom(items, i, fmt, depth);
        AppendAssociates(done, text, ItemsText(items[i + 1..], fmt, depth));
        ok := PrintItem(items, i, done);
        if !ok {
          return;
        }
        done := done + text;
        i := i + 1;
      }
      ok := true;
      AppendNothing(done);
    }

    /** `print_array`. */
    method PrintArray(items: seq<Json>, ghost before: string) returns (ok: bool)
      requires Holds(before) && forall i :: 0 <= i < |items| ==> Printable(items[i])
      modifies this, buffer
      ensures Kept()
      ensures ok <==> |before| + |Text(Array(items), fmt, old(depth))| + 2 <= Limit()
      ensures ok ==> Pending(before + Text(Array(items), fmt, depth)) && |before| <= offset && depth == old(depth)
      decreases items, 2
    {
      ArrayTextIs(before, items, fmt, depth);
      ok := PutCounted("[", false, before);
      if ok {
        depth := depth + 1;
        ok := PrintArrayBody(items, before + "[");
      }
    }

    /** The items and the closing bracket. */
    method PrintArrayBody(items: seq<Json>, ghost before: string) returns (ok: bool)
      requires Holds(before) && forall i :: 0 <= i < |items| ==> Printable(items[i])
      requires depth > 0
      modifies this, buffer
      ensures Kept()
      ensures ok <==> |before| + |ItemsText(items, fmt, old(depth))| + 3 <= Limit()
      ensures ok ==> depth == old(depth) - 1 && |before| <= offset
      ensures ok ==> Pending(before + ItemsText(items, fmt, depth + 1) + "]")
      decreases items, 1, 1
    {
      ok := PrintItems(items, before);
      if ok {
        ok := PutWord("]", before + ItemsText(items, fmt, depth));
        depth := depth - 1;
      }
    }

    static lemma ArrayTextIs(before: string, items: seq<Json>, fmt: bool, depth: nat)
      ensures before + Text(Array(items), fmt, depth) == (before + "[" + ItemsText(items, fmt, depth + 1)) + "]"
    {
      AppendAssociates(before, "[", ItemsText(items, fmt, depth + 1));
      AppendAssociates(before, "[" + ItemsText(items, fmt, depth + 1), "]");
    }

    /** The tabs, the key and the colon of a member. */
    method PrintKey(key: string, ghost before: string) returns (ok: bool)
      requires Holds(before) && NUL !in key
      modifies `buffer, `length, `reserved, `offset, buffer
      ensures Kept()
      ensures !ok ==> |before| + |TabsFor(depth) + Quoted(key) + Colon(fmt)| + 1 > Limit()
      ensures ok ==> Holds(before + (TabsFor(depth) + Quoted(key) + Colon(fmt)))
    {
      ok := true;
      AppendNothing(before);
      if fmt {
        ok := PutCounted(Tabs(depth), false, before);
      }
      ghost var tabbed := before + TabsFor(depth);
      if ok {
        ok := PrintString(key, tabbed);
      }
      if ok {
        RoundTrip.QuotedNoNul(key);
        CountText(tabbed, Quoted(key));
        ok := PutCounted(Colon(fmt), false, tabbed + Quoted(key));
        AppendAssociates(before, TabsFor(depth), Quoted(key));
        AppendAssociates(before, TabsFor(depth) + Quoted(key), Colon(fmt));
      }
    }

    function TabsFor(depth: nat): string {
      if fmt then Tabs(depth) else ""
    }

    /** One turn of the loop of `print_object`, before the comma. */
    method PrintMember(m: Member, ghost before: string) returns (ok: bool)
      requires Holds(before) && NUL !in m.key && Printable(m.value)
      modifies this, buffer
      ensures Kept()
      ensures !ok ==> |before| + |MemberText(m, fmt, old(depth))| + 2 > Limit()
      ensures ok ==> Holds(before + MemberText(m, fmt, depth)) && depth == old(depth)
      decreases m, 3
    {
      ghost var text := Text(m.value, fmt, depth);
      ghost var named := TabsFor(depth) + Quoted(m.key) + Colon(fmt);
      ok := PrintKey(m.key, before);
      if ok {
        ok := PrintValue(m.value, before + named);
        if ok {
          RoundTrip.TextNoNul(m.value, fmt, depth);
          CountText(before + named, text);
          AppendAssociates(before, named, text);
        }
      }
    }

    /** One turn of the loop of `print_object`. */
    method PrintMemberTurn(ms: seq<Member>, i: nat, ghost done: string) returns (ok: bool)
      requires Holds(done) && i < |ms| && NUL !in ms[i].key && Printable(ms[i].value)
      modifies this, buffer
      ensures Kept()
      ensures !ok ==> |done| + |MemberText(ms[i], fmt, old(depth)) + MemberEnd(fmt, i + 1 < |ms|)| + 2 > Limit()
      ensures ok ==> Holds(done + (MemberText(ms[i], fmt, depth) + MemberEnd(fmt, i + 1 < |ms|)))
      ensures ok ==> depth == old(depth)
      decreases ms, 4
    {
      ghost var text := MemberText(ms[i], fmt, depth);
      ok := PrintMember(ms[i], done);
      if ok {
        ok := PutCounted(MemberEnd(fmt, i + 1 < |ms|), true, done + text);
        AppendAssociates(done, text, MemberEnd(fmt, i + 1 < |ms|));
      }
    }

    /** The loop of `print_object`. */
    method PrintMembers(ms: seq<Member>, ghost before: string) returns (ok: bool)
      requires Holds(before) && forall i :: 0 <= i < |ms| ==> NUL !in ms[i].key && Printable(ms[i].value)
      modifies this, buffer
      ensures Kept()
      ensures !ok ==> |before| + |MembersText(ms, fmt, old(depth))| + 2 > Limit()
      ensures ok ==> Holds(before + MembersText(ms, fmt, depth)) && depth == old(depth)
      decreases ms, 5, 0
    {
      ghost var whole := before + MembersText(ms, fmt, depth);
      ghost var done := before;
      var i := 0;
      assert ms[0..] == ms;
      while i < |ms|
        invariant 0 <= i <= |ms| && Kept() && depth == old(depth) && Holds(done)
        invariant whole == done + MembersText(ms[i..], fmt, depth)
      {
        ghost var text := MemberText(ms[i], fmt, depth) + MemberEnd(fmt, i + 1 < |ms|);
        MembersFrom(ms, i, fmt, depth);
        AppendAssociates(done, text, MembersText(ms[i + 1..], fmt, depth));
        ok := PrintMemberTurn(ms, i, done);
        if !ok {
          return;
        }
        done := done + text;
        i := i + 1;
      }
      ok := true;
      AppendNothing(done);
    }

    /** `print_object`. */
    method PrintObject(ms: seq<Member>, ghost before: string) returns (ok: bool)
      requires Holds(before) && forall i :: 0 <= i < |ms| ==> NUL !in ms[i].key && Printable(ms[i].value)
      modifies this, buffer
      ensures Kept()
      ensures ok <==> |before| + |Text(Object(ms), fmt, old(depth))| + 2 <= Limit()
      ensures ok ==> Pending(before + Text(Object(ms), fmt, depth)) && |before| <= offset && depth == old(depth)
      decreases ms, 6
    {
      ObjectTextIs(before, ms, fmt, depth);
      ok := OpenObject(before);
      if ok {
        ok := PrintObjectBody(ms, before + ObjectOpen(fmt));
      }
    }

    /** The members and the closing brace. */
    method PrintObjectBody(ms: seq<Member>, ghost before: string) returns (ok: bool)
      requires Holds(before) && forall i :: 0 <= i < |ms| ==> NUL !in ms[i].key && Printable(ms[i].value)
      requires depth > 0
      modifies this, buffer
      ensures Kept()
      ensures ok <==>
        |before| + |MembersText(ms, fmt, old(depth))| + |ObjectClose(fmt, old(depth) - 1)| + 2 <= Limit()
      ensures ok ==> depth == old(depth) - 1 && |before| <= offset
      ensures ok ==> Pending(before + MembersText(ms, fmt, depth + 1) + ObjectClose(fmt, depth))
      decreases ms, 5, 1
    {
      ok := PrintMembers(ms, before);
      if ok {
        ok := PutWord(ObjectClose(fmt, depth - 1), before + MembersText(ms, fmt, depth));
        depth := depth - 1;
      }
    }

    /** The brace of `print_object`: its room counts a terminator that is not written. */
    method OpenObject(ghost before: string) returns (ok: bool)
      requires Holds(before)
      modifies this, buffer
      ensures Kept()
      ensures ok <==> |before| + |ObjectOpen(fmt)| + 2 <= Limit()
      ensures ok ==> Holds(before + ObjectOpen(fmt)) && depth == old(depth) + 1
    {
      ok := Ensure(|ObjectOpen(fmt)| + 1);
      if ok {
        Append(offset, ObjectOpen(fmt), before);
        depth := depth + 1;
        offset := offset + |ObjectOpen(fmt)|;
      }
    }

    static lemma ObjectTextIs(before: string, ms: seq<Member>, fmt: bool, depth: nat)
      ensures before + Text(Object(ms), fmt, depth) ==
        (before + ObjectOpen(fmt) + MembersText(ms, fmt, depth + 1)) + ObjectClose(fmt, depth)
    {
      AppendAssociates(before, ObjectOpen(fmt), MembersText(ms, fmt, depth + 1));
      AppendAssociates(before, ObjectOpen(fmt) + MembersText(ms, fmt, depth + 1), ObjectClose(fmt, depth));
    }
  }

  // ---------------------------------------------------------------- the three ways to print

  /** `print`: the buffer starts with 256 bytes; the result is exactly the text and its terminator. */
  method Print(v: Json, fmt: bool) returns (printed: array?<char>)
    requires Printable(v)
    ensures printed == null <==> |Text(v, fmt, 0)| + 2 > INT_MAX
    ensures printed != null ==> fresh(printed) && printed[..] == Text(v, fmt, 0) + [NUL]
  {
    var storage := new char[256];
    var p := new PrintBuffer(storage, false, fmt);
    ghost var text := Text(v, fmt, 0);
    var ok := p.PrintValue(v, "");
    if !ok {
      return null;
    }
    RoundTrip.TextNoNul(v, fmt, 0);
    p.CountText("", text);
    Unprefixed(text);
    printed := CopyOf(p.buffer, p.offset + 1);
  }

  /** The exact block that `print` returns. */
  method CopyOf(buffer: array<char>, size: nat) returns (r: array<char>)
    requires size <= buffer.Length
    ensures fresh(r) && r[..] == buffer[..size]
  {
    r := new char[size];
    forall i | 0 <= i < size {
      r[i] := buffer[i];
    }
  }

  /** `cJSON_PrintBuffered`: the caller chooses the first size of the buffer. */
  method PrintBuffered(v: Json, prebuffer: int, fmt: bool) returns (printed: array?<char>)
    requires Printable(v) && prebuffer <= INT_MAX
    ensures printed != null <==> prebuffer >= 0 && |Text(v, fmt, 0)| + 2 <= INT_MAX
    ensures printed != null ==> fresh(printed) && CStr(printed[..]) == Text(v, fmt, 0)
  {
    if prebuffer < 0 {
      return null;
    }
    var storage := new char[prebuffer];
    var p := new PrintBuffer(storage, false, fmt);
    var ok := p.PrintValue(v, "");
    if !ok {
      return null;
    }
    RoundTrip.TextNoNul(v, fmt, 0);
    TerminatedText(p.buffer[..], Text(v, fmt, 0));
    printed := p.buffer;
  }

  /** `cJSON_PrintPreallocated`: the text and two more bytes must fit in the caller's buffer. */
  method PrintPreallocated(v: Json, buffer: array<char>, fmt: bool) returns (ok: bool)
    requires Printable(v) && buffer.Length <= INT_MAX
    modifies buffer
    ensures ok <==> |Text(v, fmt, 0)| + 2 <= buffer.Length
    ensures ok ==> CStr(buffer[..]) == Text(v, fmt, 0)
  {
    var p := new PrintBuffer(buffer, true, fmt);
    ok := p.PrintValue(v, "");
    if ok {
      RoundTrip.TextNoNul(v, fmt, 0);
      TerminatedText(buffer[..], Text(v, fmt, 0));
    }
  }

  lemma Unprefixed(text: string)
    ensures "" + text == text
  {
  }

  lemma TerminatedText(mem: seq<char>, text: string)
    requires NUL !in text && |text| < |mem| && mem[..|text|] == text && mem[|text|] == NUL
    ensures CStr(mem) == text
  {
    assert mem == text + mem[|text|..];
    CStrCut(text, mem[|text|..]);
  }
}
