/**
 The parser: mutually recursive over one buffer whose offset and nesting depth it moves. The buffer holds
 the text and its terminating NUL.
 */
module JsonParser {
  import opened CStrings
  import opened JsonValues
  import opened JsonStrings

  /** Deeper arrays and objects are refused. */
  const NESTING_LIMIT: nat := 1000

  /** Numbers are copied into a buffer of 64 bytes before `strtod` reads them. */
  const NUMBER_BUFFER: nat := 64

  predicate Terminated(c: seq<char>) {
    c != [] && c[|c| - 1] == NUL
  }

  // ---------------------------------------------------------------- the parser as functions

  /** `buffer_skip_whitespace`: it also passes over the terminator and then steps back onto it. */
  function SkipWhitespace(c: seq<char>, i: nat): (r: nat)
    requires i <= |c| && c != []
    ensures r < |c|
    ensures i < |c| ==> i <= r
    ensures i == |c| ==> r == |c| - 1
    ensures i < |c| && c[i] > ' ' ==> r == i
    decreases |c| - i
  {
    if i < |c| && c[i] <= ' ' then SkipWhitespace(c, i + 1)
    else if i == |c| then i - 1
    else i
  }

  /** The text t stands in the buffer at offset i. */
  predicate Occurs(c: seq<char>, i: nat, t: string) {
    i + |t| <= |c| && c[i..i + |t|] == t
  }

  predicate NumberByte(b: char) {
    '0' <= b <= '9' || b == '+' || b == '-' || b == 'e' || b == 'E' || b == '.'
  }

  /** How many bytes from offset i `parse_number` copies for `strtod`, when there is room for that many. */
  function NumberRun(c: seq<char>, i: nat, room: nat): (r: nat)
    requires i <= |c|
    ensures r <= room && i + r <= |c|
    ensures forall k :: i <= k < i + r ==> NumberByte(c[k])
    decreases |c| - i
  {
    if room > 0 && i < |c| && NumberByte(c[i]) then 1 + NumberRun(c, i + 1, room - 1) else 0
  }

  function DigitRun(s: string, k: nat): (r: nat)
    requires k <= |s|
    ensures k <= r <= |s|
    ensures forall x :: k <= x < r ==> '0' <= s[x] <= '9'
    decreases |s| - k
  {
    if k < |s| && '0' <= s[k] <= '9' then DigitRun(s, k + 1) else k
  }

  /** What `strtod` reads from a run: the integer and its length. Fractions and exponents are not modelled. */
  function ReadInteger(run: string): Option<(int, nat)> {
    var sign := if run != "" && (run[0] == '-' || run[0] == '+') then 1 else 0;
    var end := DigitRun(run, sign);
    if end == sign then None
    else if end < |run| && (run[end] == '.' || run[end] == 'e' || run[end] == 'E') then None
    else
      var n: int := DigitsValue(run[sign..end]);
      Some((if run[0] == '-' then -n else n, end))
  }

  /** `parse_number`. */
  function ParseNumber(c: seq<char>, i: nat): (r: Parsed<Json>)
    requires i < |c|
    ensures r.Ok? ==> i < r.next <= |c|
    ensures r.Fail? ==> r.at == i
  {
    var n := NumberRun(c, i, NUMBER_BUFFER - 1);
    match ReadInteger(c[i..i + n])
    case None => Fail(i)
    case Some((value, length)) => Ok(Number(value), i + length)
  }

  /** `parse_value` at offset i. */
  function ParseValue(c: seq<char>, i: nat, depth: nat): (r: Parsed<Json>)
    requires Terminated(c) && i < |c|
    ensures r.Ok? ==> i < r.next <= |c| && c[i] != NUL
    ensures r.Fail? ==> r.at <= |c|
    decreases |c| - i, 3, 0
  {
    if Occurs(c, i, "null") then Ok(Null, i + 4)
    else if Occurs(c, i, "false") then Ok(False, i + 5)
    else if Occurs(c, i, "true") then Ok(True, i + 4)
    else if c[i] == '\"' then
      match ParseString(c, i)
      case Fail(at) => Fail(at)
      case Ok(s, next) => Ok(String(s), next)
    else if c[i] == '-' || '0' <= c[i] <= '9' then ParseNumber(c, i)
    else if c[i] == '[' then ParseArray(c, i, depth)
    else if c[i] == '{' then ParseObject(c, i, depth)
    else Fail(i)
  }

  /** `parse_array`. */
  function ParseArray(c: seq<char>, i: nat, depth: nat): (r: Parsed<Json>)
    requires Terminated(c) && i < |c| && c[i] == '['
    ensures r.Ok? ==> i < r.next <= |c|
    ensures r.Fail? ==> r.at <= |c|
    decreases |c| - i, 2, 0
  {
    if depth >= NESTING_LIMIT then Fail(i)
    else
      var first := SkipWhitespace(c, i + 1);
      if c[first] == ']' then Ok(Array([]), first + 1)
      else
        match ParseItems(c, first - 1, depth + 1)
        case Fail(at) => Fail(at)
        case Ok(items, next) => Ok(Array(items), next)
  }

  /** The loop of `parse_array`; i is the byte in front of the next item. */
  function ParseItems(c: seq<char>, i: nat, depth: nat): (r: Parsed<seq<Json>>)
    requires Terminated(c) && i + 1 < |c|
    ensures r.Ok? ==> i < r.next <= |c| && r.value != []
    ensures r.Fail? ==> r.at <= |c|
    decreases |c| - i, 1, 0
  {
    match ParseValue(c, SkipWhitespace(c, i + 1), depth)
    case Fail(at) => Fail(at)
    case Ok(v, o) =>
      var next := SkipWhitespace(c, o);
      if c[next] == ',' then
        match ParseItems(c, next, depth)
        case Fail(at) => Fail(at)
        case Ok(rest, end) => Ok([v] + rest, end)
      else if c[next] == ']' then Ok([v], next + 1)
      else Fail(next)
  }

  /** `parse_object`. */
  function ParseObject(c: seq<char>, i: nat, depth: nat): (r: Parsed<Json>)
    requires Terminated(c) && i < |c| && c[i] == '{'
    ensures r.Ok? ==> i < r.next <= |c|
    ensures r.Fail? ==> r.at <= |c|
    decreases |c| - i, 2, 0
  {
    if depth >= NESTING_LIMIT then Fail(i)
    else
      var first := SkipWhitespace(c, i + 1);
      if c[first] == '}' then Ok(Object([]), first + 1)
      else
        match ParseMembers(c, first - 1, depth + 1)
        case Fail(at) => Fail(at)
        case Ok(ms, next) => Ok(Object(ms), next)
  }

  /** The name of a member and the colon after it. */
  function ParseName(c: seq<char>, i: nat): (r: Parsed<string>)
    requires Terminated(c) && i + 1 < |c|
    ensures r.Ok? ==> i + 1 < r.next <= |c|
    ensures r.Fail? ==> r.at <= |c|
  {
    match ParseString(c, SkipWhitespace(c, i + 1))
    case Fail(at) => Fail(at)
    case Ok(key, o) =>
      var colon := SkipWhitespace(c, o);
      if c[colon] != ':' then Fail(colon) else Ok(key, colon + 1)
  }

  /** One member: name, colon, value. */
  function ParseMember(c: seq<char>, i: nat, depth: nat): (r: Parsed<Member>)
    requires Terminated(c) && i + 1 < |c|
    ensures r.Ok? ==> i + 1 < r.next <= |c|
    ensures r.Fail? ==> r.at <= |c|
    decreases |c| - i, 0, 0
  {
    match ParseName(c, i)
    case Fail(at) => Fail(at)
    case Ok(key, o) =>
      match ParseValue(c, SkipWhitespace(c, o), depth)
      case Fail(at) => Fail(at)
      case Ok(v, next) => Ok(Member(key, v), next)
  }

  /** The loop of `parse_object`. */
  function ParseMembers(c: seq<char>, i: nat, depth: nat): (r: Parsed<seq<Member>>)
    requires Terminated(c) && i + 1 < |c|
    ensures r.Ok? ==> i < r.next <= |c| && r.value != []
    ensures r.Fail? ==> r.at <= |c|
    decreases |c| - i, 1, 0
  {
    match ParseMember(c, i, depth)
    case Fail(at) => Fail(at)
    case Ok(m, o) =>
      var next := SkipWhitespace(c, o);
      if c[next] == ',' then
        match ParseMembers(c, next, depth)
        case Fail(at) => Fail(at)
        case Ok(rest, end) => Ok([m] + rest, end)
      else if c[next] == '}' then Ok([m], next + 1)
      else Fail(next)
  }

  /** `skip_utf8_bom`. */
  function SkipBom(c: seq<char>): nat {
    if |c| > 4 && c[0] as int == 0xEF && c[1] as int == 0xBB && c[2] as int == 0xBF then 3 else 0
  }

  /** `cJSON_ParseWithOpts`: the tree and where parsing ended, or the offset of the error. */
  function Parse(text: string, toTheEnd: bool): Parsed<Json>
    requires NUL !in text
  {
    var c := text + [NUL];
    match ParseValue(c, SkipWhitespace(c, SkipBom(c)), 0)
    case Fail(at) => Fail(if at < |c| then at else |c| - 1)
    case Ok(v, next) =>
      if !toTheEnd then Ok(v, next)
      else
        var end := SkipWhitespace(c, next);
        if c[end] != NUL then Fail(end) else Ok(v, end)
  }
}
