/**
 String literals: `parse_hex4`, `utf16_literal_to_utf8` and `parse_string`, with the output buffer whose
 size a first scan estimates.
 */
module JsonStrings {
  import opened CStrings
  import opened JsonValues
  import opened Seqs
  import opened JsonText

  // ---------------------------------------------------------------- escapes

  function HexValue(c: char): Option<nat> {
    if '0' <= c <= '9' then Some(c as int - '0' as int)
    else if 'A' <= c <= 'F' then Some(10 + (c as int - 'A' as int))
    else if 'a' <= c <= 'f' then Some(10 + (c as int - 'a' as int))
    else None
  }

  /** `parse_hex4`: zero when one of the four bytes is no digit. */
  function ParseHex4(c: seq<char>, p: nat): (h: nat)
    requires p + 4 <= |c|
    ensures h < 0x10000
  {
    var a, b, d, e := HexValue(c[p]), HexValue(c[p + 1]), HexValue(c[p + 2]), HexValue(c[p + 3]);
    if a == None || b == None || d == None || e == None then 0
    else Hex4Value(a.value, b.value, d.value, e.value)
  }

  function Hex4Value(a: nat, b: nat, c: nat, d: nat): (h: nat)
    ensures a < 16 && b < 16 && c < 16 && d < 16 ==> h < 0x10000
  {
    0x1000 * a + 0x100 * b + 16 * c + d
  }

  method ParseHex4Loop(c: seq<char>, p: nat) returns (h: nat)
    requires p + 4 <= |c|
    ensures h == ParseHex4(c, p)
  {
    h := 0;
    var i := 0;
    while i < 4
      invariant 0 <= i <= 4
      invariant forall k :: p <= k < p + i ==> HexValue(c[k]) != None
      invariant i == 0 ==> h == 0
      invariant i == 1 ==> h == 16 * HexValue(c[p]).value
      invariant i == 2 ==> h == 16 * (16 * HexValue(c[p]).value + HexValue(c[p + 1]).value)
      invariant i == 3 ==>
        h == 16 * (16 * (16 * HexValue(c[p]).value + HexValue(c[p + 1]).value) + HexValue(c[p + 2]).value)
      invariant i == 4 ==>
        h == 16 * (16 * (16 * HexValue(c[p]).value + HexValue(c[p + 1]).value) + HexValue(c[p + 2]).value) +
          HexValue(c[p + 3]).value
    {
      var digit := HexValue(c[p + i]);
      if digit == None {
        return 0;
      }
      h := h + digit.value;
      if i < 3 {
        h := 16 * h;
      }
      i := i + 1;
    }
  }

  /** A continuation byte: `(x | 0x80) & 0xBF` keeps the low six bits and sets the top one. */
  function Continuation(x: nat): char {
    (0x80 + x % 64) as char
  }

  /** The UTF-8 form of a code point (section 3 of RFC 3629). */
  function Utf8(cp: nat): (s: string)
    requires cp < 0x110000
    ensures 1 <= |s| <= 4
  {
    if cp < 0x80 then [cp as char]
    else if cp < 0x800 then [(0xC0 + cp / 64) as char, Continuation(cp)]
    else if cp < 0x10000 then [(0xE0 + cp / 4096) as char, Continuation(cp / 64), Continuation(cp)]
    else [(0xF0 + cp / 262144) as char, Continuation(cp / 4096), Continuation(cp / 64), Continuation(cp)]
  }

  lemma ShiftTwice(cp: nat)
    ensures cp / 64 / 64 == cp / 4096 && cp / 4096 / 64 == cp / 262144
  {
  }

  /** Filling in UTF-8 from the last byte to the first, shifting the code point right by six each time. */
  method WriteUtf8(output: array<char>, o: nat, cp: nat) returns (length: nat)
    requires cp < 0x110000 && o + |Utf8(cp)| <= output.Length
    modifies output
    ensures length == |Utf8(cp)|
    ensures output[..o] == old(output[..o]) && output[o..o + length] == Utf8(cp)
  {
    var mark := 0;
    if cp < 0x80 {
      length := 1;
    } else if cp < 0x800 {
      length, mark := 2, 0xC0;
    } else if cp < 0x10000 {
      length, mark := 3, 0xE0;
    } else {
      length, mark := 4, 0xF0;
    }
    var position, rest := length - 1, cp;
    ShiftTwice(cp);
    while position > 0
      invariant 0 <= position < length && 0 <= rest
      invariant rest == if position == length - 1 then cp else if position == length - 2 then cp / 64
        else if position == length - 3 then cp / 4096 else cp / 262144
      invariant output[..o + position + 1] == old(output[..o + position + 1])
      invariant output[o + length..] == old(output[o + length..])
      invariant position < length - 1 ==> output[o + length - 1] == Continuation(cp)
      invariant position < length - 2 ==> output[o + length - 2] == Continuation(cp / 64)
      invariant position < length - 3 ==> output[o + length - 3] == Continuation(cp / 4096)
    {
      output[o + position] := Continuation(rest);
      rest := rest / 64;
      position := position - 1;
    }
    output[o] := (mark + rest) as char;
    ghost var written, bytes := output[o..o + length], Utf8(cp);
    assert written[0] == bytes[0];
    assert length > 1 ==> written[length - 1] == bytes[length - 1];
    assert length > 2 ==> written[length - 2] == bytes[length - 2];
    assert length > 3 ==> written[length - 3] == bytes[length - 3];
    assert written == bytes;
  }

  /** A "\uXXXX" or a surrogate pair of them: the bytes it stands for and its length in the text. */
  datatype Literal = NoLiteral | Literal(bytes: string, length: nat)

  /** The code point of an escape at p, and how long the escape is. */
  datatype CodePoint = NoCodePoint | CodePoint(cp: nat, length: nat)

  function Utf16CodePoint(c: seq<char>, p: nat, end: nat): (r: CodePoint)
    requires p <= end <= |c|
    ensures r.CodePoint? ==> r.cp < 0x110000 && p + r.length <= end && (r.length == 6 || r.length == 12)
    ensures r.CodePoint? ==> if r.length == 6 then r.cp < 0x10000 else r.cp >= 0x10000
    ensures r.CodePoint? && r.cp > 0 ==> forall k :: p + 2 <= k < p + 6 ==> HexValue(c[k]) != None
    ensures r.CodePoint? && r.length == 12 ==> c[p + 6] == '\\' && c[p + 7] == 'u'
  {
    if end - p < 6 then NoCodePoint
    else
      var first := ParseHex4(c, p + 2);
      if 0xDC00 <= first <= 0xDFFF then NoCodePoint
      else if 0xD800 <= first <= 0xDBFF then
        if end - (p + 6) < 6 || c[p + 6] != '\\' || c[p + 7] != 'u' then NoCodePoint
        else
          var second := ParseHex4(c, p + 8);
          if second < 0xDC00 || second > 0xDFFF then NoCodePoint
          else CodePoint(0x10000 + (first % 0x400) * 0x400 + second % 0x400, 12)
      else CodePoint(first, 6)
  }

  /** `utf16_literal_to_utf8` at position p of a literal that ends at `end`. */
  function Utf16Literal(c: seq<char>, p: nat, end: nat): (r: Literal)
    requires p <= end <= |c|
  {
    match Utf16CodePoint(c, p, end)
    case NoCodePoint => NoLiteral
    case CodePoint(cp, length) => Literal(Utf8(cp), length)
  }

  // ---------------------------------------------------------------- the two scans

  /** The first scan: the closing quote, skipping the byte after each backslash. */
  function EndOfString(c: seq<char>, p: nat): (r: Option<nat>)
    ensures r.Some? ==> p <= r.value < |c| && c[r.value] == '\"'
    decreases |c| - p
  {
    if p >= |c| then None
    else if c[p] == '\"' then Some(p)
    else if c[p] == '\\' then if p + 1 >= |c| then None else EndOfString(c, p + 2)
    else EndOfString(c, p + 1)
  }

  /** The byte a one-letter escape stands for. */
  function SimpleEscape(e: char): Option<char> {
    if e == 'b' then Some(BACKSPACE)
    else if e == 'f' then Some(FORM_FEED)
    else if e == 'n' then Some('\n')
    else if e == 'r' then Some('\r')
    else if e == 't' then Some('\t')
    else if e == '\"' || e == '\\' || e == '/' then Some(e)
    else None
  }

  datatype Unescaped = Broken(at: nat) | Unescaped(bytes: string)

  function After(bytes: string, r: Unescaped): Unescaped {
    if r.Broken? then r else Unescaped(bytes + r.bytes)
  }

  /** The second scan, from p up to the closing quote at `end`; it may step over the quote. */
  function Unescape(c: seq<char>, p: nat, end: nat): (r: Unescaped)
    requires end < |c|
    ensures r.Broken? ==> p <= r.at < end
    decreases end - p
  {
    if p >= end then Unescaped("")
    else if c[p] != '\\' then After([c[p]], Unescape(c, p + 1, end))
    else if c[p + 1] == 'u' then
      var l := Utf16Literal(c, p, end);
      if l.NoLiteral? then Broken(p) else After(l.bytes, Unescape(c, p + l.length, end))
    else
      var e := SimpleEscape(c[p + 1]);
      if e == None then Broken(p) else After([e.value], Unescape(c, p + 2, end))
  }

  /** The outcome of a parse step: a value and the next offset, or the offset of the error. */
  datatype Parsed<+T> = Fail(at: nat) | Ok(value: T, next: nat)

  /** `parse_string` at offset i. */
  function ParseString(c: seq<char>, i: nat): (r: Parsed<string>)
    requires i < |c|
    ensures r.Ok? ==> i < r.next <= |c|
    ensures r.Fail? ==> i < r.at <= |c|
  {
    if c[i] != '\"' then Fail(i + 1)
    else
      match EndOfString(c, i + 1)
      case None => Fail(i + 1)
      case Some(end) =>
        match Unescape(c, i + 1, end)
        case Broken(at) => Fail(at)
        case Unescaped(bytes) => Ok(CStr(bytes), end + 1)
  }

  // ---------------------------------------------------------------- the estimate always suffices

  /** Is p a place where the first scan, started at s, looks at a byte (and not the byte after a backslash)? */
  predicate Stop(c: seq<char>, s: nat, p: nat)
    requires s <= p <= |c|
    decreases p
  {
    p == s || !(c[p - 1] == '\\' && Stop(c, s, p - 1))
  }

  /** How many such places lie in front of p: one output byte is reserved for each. */
  function Reserved(c: seq<char>, s: nat, p: nat): (n: nat)
    requires s <= p <= |c|
    decreases p
  {
    if p == s then 0 else Reserved(c, s, p - 1) + if Stop(c, s, p - 1) then 1 else 0
  }

  /** A second scan that is out of step with the first one has at least one byte in hand. */
  predicate Fits(c: seq<char>, s: nat, p: nat, written: nat)
    requires s <= p <= |c|
  {
    written + (if Stop(c, s, p) then 0 else 1) <= Reserved(c, s, p)
  }

  lemma ReservedStep(c: seq<char>, s: nat, p: nat)
    requires s <= p < |c|
    ensures Reserved(c, s, p + 1) == Reserved(c, s, p) + (if Stop(c, s, p) then 1 else 0)
    ensures Stop(c, s, p + 1) == !(c[p] == '\\' && Stop(c, s, p))
  {
  }

  /** An ordinary byte. */
  lemma FitsByte(c: seq<char>, s: nat, p: nat, written: nat)
    requires s <= p < |c| && c[p] != '\\' && Fits(c, s, p, written)
    ensures Fits(c, s, p + 1, written + 1)
  {
    ReservedStep(c, s, p);
  }

  /** A two-byte escape, whether or not the first scan saw it as one. */
  lemma FitsEscape(c: seq<char>, s: nat, p: nat, written: nat)
    requires s <= p && p + 1 < |c| && c[p] == '\\' && Fits(c, s, p, written)
    ensures Fits(c, s, p + 2, written + 1)
  {
    ReservedStep(c, s, p);
    ReservedStep(c, s, p + 1);
  }

  /** Six bytes whose last four are hexadecimal digits reserve five bytes; any six reserve three. */
  lemma FitsSix(c: seq<char>, s: nat, p: nat, written: nat)
    requires s <= p && p + 6 <= |c| && c[p] == '\\' && c[p + 1] == 'u' && Fits(c, s, p, written)
    ensures Fits(c, s, p + 6, written + 1)
    ensures (forall k :: p + 2 <= k < p + 6 ==> c[k] != '\\') ==> Fits(c, s, p + 6, written + 4)
  {
    ReservedStep(c, s, p);
    ReservedStep(c, s, p + 1);
    ReservedStep(c, s, p + 2);
    ReservedStep(c, s, p + 3);
    ReservedStep(c, s, p + 4);
    ReservedStep(c, s, p + 5);
  }

  lemma {:induction false} ReservedGrows(c: seq<char>, s: nat, p: nat, q: nat)
    requires s <= p <= q <= |c|
    ensures Reserved(c, s, p) <= Reserved(c, s, q)
    decreases q
  {
    if p < q {
      ReservedGrows(c, s, p, q - 1);
    }
  }

  /** The bytes of a "\u" escape fit as well. */
  lemma FitsLiteral(c: seq<char>, s: nat, p: nat, end: nat, written: nat)
    requires s <= p < end < |c| && c[p] == '\\' && c[p + 1] == 'u' && Fits(c, s, p, written)
    requires Utf16Literal(c, p, end).Literal?
    ensures var l := Utf16Literal(c, p, end);
      Fits(c, s, p + l.length, written + |l.bytes|)
  {
    var l := Utf16Literal(c, p, end);
    FitsSix(c, s, p, written);
    if l.length == 12 {
      FitsSix(c, s, p + 6, written + 3);
    }
  }

  lemma AfterAfter(a: string, b: string, r: Unescaped)
    ensures After(a, After(b, r)) == After(a + b, r)
  {
    assert r.Unescaped? ==> a + (b + r.bytes) == (a + b) + r.bytes;
  }

  lemma AfterNothing(r: Unescaped)
    ensures After("", r) == r
  {
    assert r.Unescaped? ==> "" + r.bytes == r.bytes;
  }

  /** The first scan with its counter of skipped bytes. */
  method ScanString(c: seq<char>, s: nat) returns (end: Option<nat>, skipped: nat)
    requires s <= |c|
    ensures end == EndOfString(c, s)
    ensures end.Some? ==> end.value - s == Reserved(c, s, end.value) + skipped && Stop(c, s, end.value)
  {
    var p := s;
    skipped := 0;
    while p < |c| && c[p] != '\"'
      invariant s <= p <= |c| && 0 <= skipped
      invariant EndOfString(c, s) == EndOfString(c, p)
      invariant Stop(c, s, p) && p - s == Reserved(c, s, p) + skipped
      decreases |c| - p
    {
      ReservedStep(c, s, p);
      if c[p] == '\\' {
        if p + 1 >= |c| {
          return None, skipped;
        }
        ReservedStep(c, s, p + 1);
        skipped := skipped + 1;
        p := p + 1;
      }
      p := p + 1;
    }
    end := if p >= |c| then None else Some(p);
  }

  /** What the second scan makes of a "\u" escape, and that there is room for it and a terminator. */
  lemma LiteralFits(c: seq<char>, s: nat, p: nat, end: nat, o: nat)
    requires s <= p < end < |c| && Fits(c, s, p, o) && c[p] == '\\' && c[p + 1] == 'u'
    ensures o < Reserved(c, s, end) + 2
    ensures var l := Utf16Literal(c, p, end);
      if l.NoLiteral? then Unescape(c, p, end) == Broken(p)
      else
        && p < p + l.length <= end + 1 && Fits(c, s, p + l.length, o + |l.bytes|)
        && o + |l.bytes| < Reserved(c, s, end) + 2
        && Unescape(c, p, end) == After(l.bytes, Unescape(c, p + l.length, end))
  {
    RoomFor(c, s, p, end, o);
    var l := Utf16Literal(c, p, end);
    if l.Literal? {
      FitsLiteral(c, s, p, end, o);
      RoomFor(c, s, p + l.length, end, o + |l.bytes|);
    }
  }

  /** A "\u" escape of the second scan. */
  method UnescapeUnicode(c: seq<char>, s: nat, p: nat, end: nat, output: array<char>, o: nat)
    returns (ok: bool, next: nat, o': nat)
    requires s <= p < end < |c| && Fits(c, s, p, o) && output.Length == Reserved(c, s, end) + 2
    requires c[p] == '\\' && c[p + 1] == 'u'
    modifies output
    ensures !ok ==> Unescape(c, p, end) == Broken(p)
    ensures ok ==> p < next <= end + 1 && o <= o' < output.Length && Fits(c, s, next, o')
    ensures ok ==> output[..o] == old(output[..o])
    ensures ok ==> Unescape(c, p, end) == After(output[o..o'], Unescape(c, next, end))
  {
    LiteralFits(c, s, p, end, o);
    var sequence, written := Utf16LiteralToUtf8(c, p, end, output, o);
    if sequence == 0 {
      return false, p, o;
    }
    ok, next, o' := true, p + sequence, o + written;
  }

  /** One turn of the second scan: a byte or an escape at p is written at o. */
  method UnescapeOne(c: seq<char>, s: nat, p: nat, end: nat, output: array<char>, o: nat)
    returns (ok: bool, next: nat, o': nat)
    requires s <= p < end < |c| && Fits(c, s, p, o) && output.Length == Reserved(c, s, end) + 2
    modifies output
    ensures !ok ==> Unescape(c, p, end) == Broken(p)
    ensures ok ==> p < next <= end + 1 && o <= o' < output.Length && Fits(c, s, next, o')
    ensures ok ==> output[..o] == old(output[..o])
    ensures ok ==> Unescape(c, p, end) == After(output[o..o'], Unescape(c, next, end))
  {
    ok, next, o' := true, p + 1, o + 1;
    RoomFor(c, s, p, end, o);
    if c[p] != '\\' {
      FitsByte(c, s, p, o);
      output[o] := c[p];
      assert output[o..o'] == [c[p]];
    } else if c[p + 1] == 'u' {
      ok, next, o' := UnescapeUnicode(c, s, p, end, output, o);
      return;
    } else {
      var e := SimpleEscape(c[p + 1]);
      if e == None {
        return false, p, o;
      }
      FitsEscape(c, s, p, o);
      next := p + 2;
      output[o] := e.value;
      assert output[o..o'] == [e.value];
    }
    RoomFor(c, s, next, end, o');
  }

  /**
   `parse_string` with its output buffer: every byte written, and the terminator, lies inside the length
   the first scan estimates, whatever the input.
   */
  method ParseStringLoop(c: seq<char>, i: nat) returns (r: Parsed<string>)
    requires i < |c|
    ensures r == ParseString(c, i)
  {
    if c[i] != '\"' {
      return Fail(i + 1);
    }
    var start := i + 1;
    var scan, skipped := ScanString(c, start);
    if scan == None {
      return Fail(start);
    }
    var end := scan.value;
    var allocationLength := end - i - skipped;
    var output := new char[allocationLength + 1];
    var p, o := start, 0;
    AfterNothing(Unescape(c, start, end));
    while p < end
      invariant start <= p <= end + 1 && 0 <= o < output.Length && Fits(c, start, p, o)
      invariant Unescape(c, start, end) == After(output[..o], Unescape(c, p, end))
      decreases end - p
    {
      ghost var before := output[..o];
      var ok, next, o' := UnescapeOne(c, start, p, end, output, o);
      if !ok {
        return Fail(p);
      }
      AfterAfter(before, output[o..o'], Unescape(c, next, end));
      assert output[..o'] == output[..o] + output[o..o'];
      p, o := next, o';
    }
    AppendNothing(output[..o]);
    output[o] := NUL;
    return Ok(CStr(output[..o]), end + 1);
  }

  lemma RoomFor(c: seq<char>, s: nat, p: nat, end: nat, written: nat)
    requires s <= p <= end + 1 <= |c| && s <= end && Fits(c, s, p, written)
    ensures written <= Reserved(c, s, end) + 1
  {
    ReservedGrows(c, s, p, end + 1);
    ReservedStep(c, s, end);
  }

  method ReadCodePoint(c: seq<char>, p: nat, end: nat) returns (r: CodePoint)
    requires p <= end <= |c|
    ensures r == Utf16CodePoint(c, p, end)
  {
    if end - p < 6 {
      return NoCodePoint;
    }
    var first := ParseHex4Loop(c, p + 2);
    if 0xDC00 <= first <= 0xDFFF {
      return NoCodePoint;
    }
    if 0xD800 <= first <= 0xDBFF {
      if end - (p + 6) < 6 || c[p + 6] != '\\' || c[p + 7] != 'u' {
        return NoCodePoint;
      }
      var second := ParseHex4Loop(c, p + 8);
      if second < 0xDC00 || second > 0xDFFF {
        return NoCodePoint;
      }
      return CodePoint(0x10000 + (first % 0x400) * 0x400 + second % 0x400, 12);
    }
    return CodePoint(first, 6);
  }

  /** `utf16_literal_to_utf8`, writing to the output; a sequence length of zero reports failure. */
  method Utf16LiteralToUtf8(c: seq<char>, p: nat, end: nat, output: array<char>, o: nat)
    returns (sequence: nat, written: nat)
    requires p <= end <= |c|
    requires Utf16Literal(c, p, end).Literal? ==> o + |Utf16Literal(c, p, end).bytes| <= output.Length
    requires o <= output.Length
    modifies output
    ensures Utf16Literal(c, p, end).NoLiteral? ==> sequence == 0 && output[..] == old(output[..])
    ensures Utf16Literal(c, p, end).Literal? ==>
      (var l := Utf16Literal(c, p, end);
       sequence == l.length && written == |l.bytes| &&
       output[..o] == old(output[..o]) && output[o..o + written] == l.bytes)
  {
    var r := ReadCodePoint(c, p, end);
    if r.NoCodePoint? {
      return 0, 0;
    }
    sequence := r.length;
    written := WriteUtf8(output, o, r.cp);
  }
}
