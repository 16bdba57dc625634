/**
 The text `print_value` produces, as a pure function of the tree: unformatted, or formatted with tabs and
 newlines. Integers of magnitude below 10^15 are written as plain decimals by "%1.15g".
 */
module JsonText {
  import opened CStrings
  import opened JsonValues

  const BACKSPACE: char := 8 as char
  const FORM_FEED: char := 12 as char

  function HexDigit(d: nat, upper: bool): (c: char)
    requires d < 16
  {
    if d < 10 then (d + '0' as int) as char
    else if upper then (d - 10 + 'A' as int) as char
    else (d - 10 + 'a' as int) as char
  }

  /** Which of four hexadecimal digits are written as upper-case letters. */
  datatype Cases = Cases(first: bool, second: bool, third: bool, fourth: bool)

  const LOWER_CASE: Cases := Cases(false, false, false, false)

  /** Four hexadecimal digits. */
  function Hex4(n: nat, upper: Cases): (s: string)
    requires n < 0x10000
    ensures |s| == 4
  {
    [HexDigit(n / 0x1000, upper.first), HexDigit(n / 0x100 % 16, upper.second),
     HexDigit(n / 16 % 16, upper.third), HexDigit(n % 16, upper.fourth)]
  }

  /** `print_string_ptr`, one byte. */
  function EscapeByte(c: char): (s: string)
    ensures s != ""
  {
    if c == '\"' then "\\\""
    else if c == '\\' then "\\\\"
    else if c == BACKSPACE then "\\b"
    else if c == FORM_FEED then "\\f"
    else if c == '\n' then "\\n"
    else if c == '\r' then "\\r"
    else if c == '\t' then "\\t"
    else if c < ' ' then "\\u" + Hex4(c as int, LOWER_CASE)
    else [c]
  }

  function EscapeText(s: string): string {
    if s == "" then "" else EscapeByte(s[0]) + EscapeText(s[1..])
  }

  function Quoted(s: string): string {
    "\"" + EscapeText(s) + "\""
  }

  function IntegerText(n: int): (s: string)
    ensures s != ""
  {
    if n < 0 then "-" + Decimal(-n) else Decimal(n)
  }

  function Tabs(n: nat): (s: string)
    ensures |s| == n && forall i :: 0 <= i < n ==> s[i] == '\t'
  {
    seq(n, _ => '\t')
  }

  /** The text of a value at a nesting depth; `fmt` chooses the formatted form. */
  function Text(v: Json, fmt: bool, depth: nat): string
    decreases v, 1
  {
    match v
    case Invalid => ""
    case Null => "null"
    case False => "false"
    case True => "true"
    case Number(n) => IntegerText(n)
    case String(s) => Quoted(s)
    case Array(items) => "[" + ItemsText(items, fmt, depth + 1) + "]"
    case Object(ms) => ObjectOpen(fmt) + MembersText(ms, fmt, depth + 1) + ObjectClose(fmt, depth)
  }

  function ObjectOpen(fmt: bool): string { if fmt then "{\n" else "{" }

  function ObjectClose(fmt: bool, depth: nat): string { (if fmt then Tabs(depth) else "") + "}" }

  function Comma(fmt: bool): string { if fmt then ", " else "," }

  function ItemsText(items: seq<Json>, fmt: bool, depth: nat): string
    decreases items, 0
  {
    if items == [] then ""
    else Text(items[0], fmt, depth) + (if |items| > 1 then Comma(fmt) else "") + ItemsText(items[1..], fmt, depth)
  }

  function MembersText(ms: seq<Member>, fmt: bool, depth: nat): string
    decreases ms, 0
  {
    if ms == [] then ""
    else MemberText(ms[0], fmt, depth) + MemberEnd(fmt, |ms| > 1) + MembersText(ms[1..], fmt, depth)
  }

  function MemberText(m: Member, fmt: bool, depth: nat): string
    decreases m, 0
  {
    (if fmt then Tabs(depth) else "") + Quoted(m.key) + Colon(fmt) + Text(m.value, fmt, depth)
  }

  function Colon(fmt: bool): string { if fmt then ":\t" else ":" }

  function MemberEnd(fmt: bool, more: bool): string { (if more then "," else "") + (if fmt then "\n" else "") }

  const MAX_INTEGER: int := 1_000_000_000_000_000

  /** What the printer can write: no invalid node, integers that "%1.15g" writes exactly, C strings. */
  predicate Printable(v: Json) {
    match v
    case Invalid => false
    case Number(n) => -MAX_INTEGER < n < MAX_INTEGER
    case String(s) => NUL !in s
    case Array(items) => forall i :: 0 <= i < |items| ==> Printable(items[i])
    case Object(ms) => forall i :: 0 <= i < |ms| ==> NUL !in ms[i].key && Printable(ms[i].value)
    case _ => true
  }

  /** How deeply arrays and objects are nested. */
  function Height(v: Json): nat
    decreases v, 1
  {
    match v
    case Array(items) => 1 + ItemsHeight(items)
    case Object(ms) => 1 + MembersHeight(ms)
    case _ => 0
  }

  function Max(a: nat, b: nat): nat { if a > b then a else b }

  function ItemsHeight(items: seq<Json>): nat
    decreases items, 0
  {
    if items == [] then 0 else Max(Height(items[0]), ItemsHeight(items[1..]))
  }

  function MembersHeight(ms: seq<Member>): nat
    decreases ms, 0
  {
    if ms == [] then 0 else Max(Height(ms[0].value), MembersHeight(ms[1..]))
  }
}
