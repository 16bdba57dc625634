/**
 The texts that the parser accepts, as a relation between places in the buffer: it accepts exactly those, with
 exactly these values.
 */
module JsonGrammar {
  import opened CStrings
  import opened Seqs
  import opened JsonValues
  import opened JsonText
  import opened JsonStrings
  import opened JsonParser
  import opened JsonRoundTrip

  // ---------------------------------------------------------------- the grammar

  /** Nothing but blanks and control bytes from a up to b, and something else at b. */
  predicate Gap(c: seq<char>, a: nat, b: nat) {
    a <= b < |c| && c[b] > ' ' && forall k :: a <= k < b ==> c[k] <= ' '
  }

  /** The first byte behind the gap from a on is the byte m, at b. */
  predicate Mark(c: seq<char>, a: nat, b: nat, m: char) {
    Gap(c, a, b) && c[b] == m
  }

  /** Where a name starts and ends, and where the colon behind it stands. */
  datatype Name = Name(at: nat, end: nat, colon: nat)

  /**
   Where the parts of an array or object stand: each value, in an object its name, and the comma or bracket behind
   it. Of an array or object without parts that is where its bracket stands.
   */
  datatype Marks = Leaf(at: nat) | Part(name: Name, at: nat, inside: Marks, behind: nat, next: Marks)

  /** Where the text of the value v that starts at i ends, if one with its parts at the places t starts there. */
  function TextEnd(c: seq<char>, i: nat, v: Json, t: Marks): (e: Option<nat>)
    requires i < |c|
    ensures e.Some? ==> i < e.value <= |c|
    decreases t, 2
  {
    match v
    case Invalid => None
    case Null => WordEnd(c, i, "null")
    case False => WordEnd(c, i, "false")
    case True => WordEnd(c, i, "true")
    case Number(_) => if c[i] == '-' || '0' <= c[i] <= '9' then EndIf(ParseNumber(c, i), v) else None
    case String(s) => if c[i] == '\"' then EndIf(ParseString(c, i), s) else None
    case Array(items) =>
      if c[i] != '[' then None
      else if items == [] then Closed(c, i + 1, t.at, ']')
      else ItemsEnd(c, i + 1, items, t)
    case Object(ms) =>
      if c[i] != '{' then None
      else if ms == [] then Closed(c, i + 1, t.at, '}')
      else MembersEnd(c, i + 1, ms, t)
  }

  function WordEnd(c: seq<char>, i: nat, word: string): Option<nat> {
    if Occurs(c, i, word) then Some(i + |word|) else None
  }

  function EndIf<T(==)>(r: Parsed<T>, v: T): Option<nat> {
    if r.Ok? && r.value == v then Some(r.next) else None
  }

  function Closed(c: seq<char>, p: nat, q: nat, bracket: char): Option<nat> {
    if Mark(c, p, q, bracket) then Some(q + 1) else None
  }

  /** Items with commas between them, gaps around each, and the closing bracket. */
  function ItemsEnd(c: seq<char>, p: nat, items: seq<Json>, t: Marks): (e: Option<nat>)
    requires items != []
    ensures e.Some? ==> p < e.value <= |c|
    decreases t, 1
  {
    if !t.Part? || !Gap(c, p, t.at) then None
    else
      match TextEnd(c, t.at, items[0], t.inside)
      case None => None
      case Some(o) =>
        if |items| == 1 then Closed(c, o, t.behind, ']')
        else if !Mark(c, o, t.behind, ',') then None
        else ItemsEnd(c, t.behind + 1, items[1..], t.next)
  }

  /** Members: a name, a colon and a value, with gaps around each. */
  function MembersEnd(c: seq<char>, p: nat, ms: seq<Member>, t: Marks): (e: Option<nat>)
    requires ms != []
    ensures e.Some? ==> p < e.value <= |c|
    decreases t, 1
  {
    if !t.Part? || !NameAt(c, p, ms[0].key, t.name) || !Gap(c, t.name.colon + 1, t.at) then None
    else
      match TextEnd(c, t.at, ms[0].value, t.inside)
      case None => None
      case Some(o) =>
        if |ms| == 1 then Closed(c, o, t.behind, '}')
        else if !Mark(c, o, t.behind, ',') then None
        else MembersEnd(c, t.behind + 1, ms[1..], t.next)
  }

  /** A name behind a gap, another gap and a colon. */
  predicate NameAt(c: seq<char>, p: nat, key: string, n: Name) {
    Mark(c, p, n.at, '\"') && ParseString(c, n.at) == Ok(key, n.end) && n.at < n.end && Mark(c, n.end, n.colon, ':')
  }

  // ---------------------------------------------------------------- gaps

  /** Skipping whitespace ends at a byte b exactly where the gap does. */
  lemma {:induction false} SkipIsGap(c: seq<char>, a: nat, b: nat)
    requires Terminated(c) && a <= |c| && b < |c| && c[b] > ' '
    ensures SkipWhitespace(c, a) == b <==> Gap(c, a, b)
    decreases |c| - a
  {
    if a < |c| && c[a] <= ' ' {
      SkipIsGap(c, a + 1, b);
    }
  }

  /** Skipping again from where skipping stopped goes nowhere. */
  lemma {:induction false} SkipTwice(c: seq<char>, a: nat)
    requires Terminated(c) && a <= |c|
    ensures SkipWhitespace(c, SkipWhitespace(c, a)) == SkipWhitespace(c, a)
    decreases |c| - a
  {
    if a < |c| && c[a] <= ' ' {
      SkipTwice(c, a + 1);
    }
  }

  /** Skipping stops at the terminator or at the end of the gap. */
  lemma {:induction false} SkipStops(c: seq<char>, a: nat)
    requires Terminated(c) && a <= |c| && c[SkipWhitespace(c, a)] > ' '
    ensures Gap(c, a, SkipWhitespace(c, a))
    decreases |c| - a
  {
    if a < |c| && c[a] <= ' ' {
      SkipStops(c, a + 1);
    }
  }

  // ---------------------------------------------------------------- one turn of each loop

  /** What one turn of the loop over the items has found makes up its result. */
  lemma ItemsTaken(c: seq<char>, i: nat, depth: nat, items: seq<Json>, o: nat, e: nat)
    requires Terminated(c) && i + 1 < |c| && o <= |c| && items != []
    requires ParseValue(c, SkipWhitespace(c, i + 1), depth) == Ok(items[0], o)
    requires |items| == 1 ==> c[SkipWhitespace(c, o)] == ']' && e == SkipWhitespace(c, o) + 1
    requires |items| != 1 ==> SkipWhitespace(c, o) + 1 < |c| && c[SkipWhitespace(c, o)] == ',' &&
                              ParseItems(c, SkipWhitespace(c, o), depth) == Ok(items[1..], e)
    ensures ParseItems(c, i, depth) == Ok(items, e)
  {
    HeadTail(items);
    AppendNothing([items[0]]);
  }

  /** The parts of a result of that loop. */
  lemma ItemsParts(c: seq<char>, i: nat, depth: nat, items: seq<Json>, e: nat) returns (o: nat)
    requires Terminated(c) && i + 1 < |c| && ParseItems(c, i, depth) == Ok(items, e)
    ensures items != [] && ParseValue(c, SkipWhitespace(c, i + 1), depth) == Ok(items[0], o)
    ensures SkipWhitespace(c, i + 1) < o <= |c|
    ensures |items| == 1 ==> c[SkipWhitespace(c, o)] == ']' && e == SkipWhitespace(c, o) + 1
    ensures |items| != 1 ==> SkipWhitespace(c, o) + 1 < |c| && c[SkipWhitespace(c, o)] == ',' &&
                             ParseItems(c, SkipWhitespace(c, o), depth) == Ok(items[1..], e)
  {
    var first := ParseValue(c, SkipWhitespace(c, i + 1), depth);
    o := first.next;
    var next := SkipWhitespace(c, o);
    if c[next] == ',' {
      ConsTail(first.value, ParseItems(c, next, depth).value);
    }
  }

  lemma MembersTaken(c: seq<char>, i: nat, depth: nat, ms: seq<Member>, o: nat, e: nat)
    requires Terminated(c) && i + 1 < |c| && o <= |c| && ms != [] && ParseMember(c, i, depth) == Ok(ms[0], o)
    requires |ms| == 1 ==> c[SkipWhitespace(c, o)] == '}' && e == SkipWhitespace(c, o) + 1
    requires |ms| != 1 ==> SkipWhitespace(c, o) + 1 < |c| && c[SkipWhitespace(c, o)] == ',' &&
                           ParseMembers(c, SkipWhitespace(c, o), depth) == Ok(ms[1..], e)
    ensures ParseMembers(c, i, depth) == Ok(ms, e)
  {
    HeadTail(ms);
    AppendNothing([ms[0]]);
  }

  lemma MembersParts(c: seq<char>, i: nat, depth: nat, ms: seq<Member>, e: nat) returns (o: nat)
    requires Terminated(c) && i + 1 < |c| && ParseMembers(c, i, depth) == Ok(ms, e)
    ensures ms != [] && ParseMember(c, i, depth) == Ok(ms[0], o) && i + 1 < o <= |c|
    ensures |ms| == 1 ==> c[SkipWhitespace(c, o)] == '}' && e == SkipWhitespace(c, o) + 1
    ensures |ms| != 1 ==> SkipWhitespace(c, o) + 1 < |c| && c[SkipWhitespace(c, o)] == ',' &&
                          ParseMembers(c, SkipWhitespace(c, o), depth) == Ok(ms[1..], e)
  {
    var first := ParseMember(c, i, depth);
    o := first.next;
    var next := SkipWhitespace(c, o);
    if c[next] == ',' {
      ConsTail(first.value, ParseMembers(c, next, depth).value);
    }
  }

  /** One member, from its parts. */
  lemma MemberTaken(c: seq<char>, i: nat, depth: nat, m: Member, n: Name, at: nat, o: nat)
    requires Terminated(c) && i + 1 < |c| && n.at == SkipWhitespace(c, i + 1) < n.end <= |c|
    requires ParseString(c, n.at) == Ok(m.key, n.end)
    requires n.colon == SkipWhitespace(c, n.end) && c[n.colon] == ':' && at == SkipWhitespace(c, n.colon + 1)
    requires ParseValue(c, at, depth) == Ok(m.value, o)
    ensures ParseMember(c, i, depth) == Ok(m, o)
  {
    hide ParseString, ParseValue, SkipWhitespace;
  }

  /** The parts of a parsed member. */
  lemma MemberParts(c: seq<char>, i: nat, depth: nat, m: Member, o: nat) returns (n: Name, at: nat)
    requires Terminated(c) && i + 1 < |c| && ParseMember(c, i, depth) == Ok(m, o)
    ensures n.at == SkipWhitespace(c, i + 1) < n.end <= |c| && c[n.at] == '\"'
    ensures ParseString(c, n.at) == Ok(m.key, n.end)
    ensures n.colon == SkipWhitespace(c, n.end) && c[n.colon] == ':' && n.colon + 1 < |c|
    ensures at == SkipWhitespace(c, n.colon + 1) && ParseValue(c, at, depth) == Ok(m.value, o)
  {
    var name := SkipWhitespace(c, i + 1);
    var nameEnd := ParseString(c, name).next;
    var colon := SkipWhitespace(c, nameEnd);
    n, at := Name(name, nameEnd, colon), SkipWhitespace(c, colon + 1);
  }

  /** What is behind an opening bracket: the closing one, or the items. */
  lemma ArrayTaken(c: seq<char>, i: nat, depth: nat, first: nat, items: seq<Json>, e: nat)
    requires Terminated(c) && i < |c| && c[i] == '[' && depth < NESTING_LIMIT && first == SkipWhitespace(c, i + 1)
    requires items == [] ==> c[first] == ']' && e == first + 1
    requires items != [] ==> i < first && c[first] != ']' && ParseItems(c, first - 1, depth + 1) == Ok(items, e)
    ensures ParseArray(c, i, depth) == Ok(Array(items), e)
  {
  }

  lemma ArrayParts(c: seq<char>, i: nat, depth: nat, v: Json, e: nat) returns (first: nat)
    requires Terminated(c) && i < |c| && c[i] == '[' && ParseArray(c, i, depth) == Ok(v, e)
    ensures v.Array? && depth < NESTING_LIMIT && first == SkipWhitespace(c, i + 1)
    ensures v.items == [] ==> c[first] == ']' && e == first + 1
    ensures v.items != [] ==> i < first && ParseItems(c, first - 1, depth + 1) == Ok(v.items, e)
  {
    first := SkipWhitespace(c, i + 1);
  }

  lemma ObjectTaken(c: seq<char>, i: nat, depth: nat, first: nat, ms: seq<Member>, e: nat)
    requires Terminated(c) && i < |c| && c[i] == '{' && depth < NESTING_LIMIT && first == SkipWhitespace(c, i + 1)
    requires ms == [] ==> c[first] == '}' && e == first + 1
    requires ms != [] ==> i < first && c[first] != '}' && ParseMembers(c, first - 1, depth + 1) == Ok(ms, e)
    ensures ParseObject(c, i, depth) == Ok(Object(ms), e)
  {
  }

  lemma ObjectParts(c: seq<char>, i: nat, depth: nat, v: Json, e: nat) returns (first: nat)
    requires Terminated(c) && i < |c| && c[i] == '{' && ParseObject(c, i, depth) == Ok(v, e)
    ensures v.Object? && depth < NESTING_LIMIT && first == SkipWhitespace(c, i + 1)
    ensures v.members == [] ==> c[first] == '}' && e == first + 1
    ensures v.members != [] ==> i < first && ParseMembers(c, first - 1, depth + 1) == Ok(v.members, e)
  {
    first := SkipWhitespace(c, i + 1);
  }

  // ---------------------------------------------------------------- what is accepted

  lemma WordStarts(c: seq<char>, i: nat, word: string)
    requires Occurs(c, i, word) && word != ""
    ensures i < |c| && c[i] == word[0]
  {
    assert c[i..i + |word|][0] == c[i];
  }

  /** The first byte of a value is no blank and ends no list. */
  lemma TextStarts(c: seq<char>, i: nat, v: Json, t: Marks)
    requires i < |c| && TextEnd(c, i, v, t).Some?
    ensures c[i] > ' ' && c[i] != ']' && c[i] != '}'
  {
    match v
    case Null => WordStarts(c, i, "null");
    case False => WordStarts(c, i, "false");
    case True => WordStarts(c, i, "true");
    case _ =>
  }

  lemma ScalarAccepted(c: seq<char>, i: nat, depth: nat, v: Json, e: nat, t: Marks)
    requires Terminated(c) && i < |c| && TextEnd(c, i, v, t) == Some(e) && !v.Array? && !v.Object?
    ensures ParseValue(c, i, depth) == Ok(v, e)
  {
    Dispatch(c, i, depth);
    ValueKinds(c, i, depth);
  }

  /** A number token is a number. */
  lemma NumberKind(c: seq<char>, i: nat)
    requires i < |c| && ParseNumber(c, i).Ok?
    ensures ParseNumber(c, i).value.Number?
  {
  }

  /** A text of the grammar is accepted with its value, if it is not nested too deeply. */
  lemma {:induction false} Accepted(c: seq<char>, i: nat, depth: nat, v: Json, e: nat, t: Marks)
    requires Terminated(c) && i < |c| && TextEnd(c, i, v, t) == Some(e) && depth + Height(v) <= NESTING_LIMIT
    ensures ParseValue(c, i, depth) == Ok(v, e)
    decreases t, 3
  {
    if v == Array([]) || v == Object([]) {
      EmptyAccepted(c, i, depth, v, e, t);
    } else if v.Array? {
      ArrayOpens(c, i, v.items, e, t);
      ArrayAccepted(c, i, depth, v.items, e, t);
      Dispatch(c, i, depth);
    } else if v.Object? {
      ObjectOpens(c, i, v.members, e, t);
      ObjectAccepted(c, i, depth, v.members, e, t);
      Dispatch(c, i, depth);
    } else {
      ScalarAccepted(c, i, depth, v, e, t);
    }
  }

  lemma ArrayOpens(c: seq<char>, i: nat, items: seq<Json>, e: nat, t: Marks)
    requires i < |c| && items != [] && TextEnd(c, i, Array(items), t) == Some(e)
    ensures c[i] == '[' && ItemsEnd(c, i + 1, items, t) == Some(e)
  {
  }

  lemma ObjectOpens(c: seq<char>, i: nat, ms: seq<Member>, e: nat, t: Marks)
    requires i < |c| && ms != [] && TextEnd(c, i, Object(ms), t) == Some(e)
    ensures c[i] == '{' && MembersEnd(c, i + 1, ms, t) == Some(e)
  {
  }

  lemma EmptyAccepted(c: seq<char>, i: nat, depth: nat, v: Json, e: nat, t: Marks)
    requires Terminated(c) && i < |c| && depth < NESTING_LIMIT && TextEnd(c, i, v, t) == Some(e)
    requires v == Array([]) || v == Object([])
    ensures ParseValue(c, i, depth) == Ok(v, e)
  {
    Dispatch(c, i, depth);
    SkipIsGap(c, i + 1, t.at);
    if v.Array? {
      ArrayTaken(c, i, depth, t.at, [], e);
    } else {
      ObjectTaken(c, i, depth, t.at, [], e);
    }
  }

  lemma {:induction false} ArrayAccepted(c: seq<char>, i: nat, depth: nat, items: seq<Json>, e: nat, t: Marks)
    requires Terminated(c) && i < |c| && c[i] == '[' && items != [] && ItemsEnd(c, i + 1, items, t) == Some(e)
    requires depth + 1 + ItemsHeight(items) <= NESTING_LIMIT
    ensures ParseArray(c, i, depth) == Ok(Array(items), e)
    decreases t, 2
  {
    hide *;
    ItemsStart(c, i + 1, items, e, t);
    ItemsAccepted(c, t.at - 1, i + 1, depth + 1, items, e, t);
    ArrayTaken(c, i, depth, t.at, items, e);
  }

  lemma ItemsStart(c: seq<char>, p: nat, items: seq<Json>, e: nat, t: Marks)
    requires Terminated(c) && p <= |c| && items != [] && ItemsEnd(c, p, items, t) == Some(e)
    ensures p <= t.at < |c| && c[t.at] != ']' && SkipWhitespace(c, p) == t.at == SkipWhitespace(c, t.at)
  {
    TextStarts(c, t.at, items[0], t.inside);
    SkipIsGap(c, p, t.at);
  }

  /** The first item, and what is behind it. */
  lemma ItemsHead(c: seq<char>, p: nat, items: seq<Json>, e: nat, t: Marks) returns (o: nat)
    requires Terminated(c) && p <= |c| && items != [] && ItemsEnd(c, p, items, t) == Some(e)
    ensures t.Part? && t.at < |c| && SkipWhitespace(c, p) == t.at
    ensures TextEnd(c, t.at, items[0], t.inside) == Some(o) && o <= |c| && Height(items[0]) <= ItemsHeight(items)
    ensures |items| == 1 ==> c[SkipWhitespace(c, o)] == ']' && e == SkipWhitespace(c, o) + 1
    ensures |items| != 1 ==> t.behind + 1 < |c| && SkipWhitespace(c, o) == t.behind && c[t.behind] == ',' &&
                             ItemsEnd(c, t.behind + 1, items[1..], t.next) == Some(e)
    ensures ItemsHeight(items[1..]) <= ItemsHeight(items)
  {
    o := TextEnd(c, t.at, items[0], t.inside).value;
    SkipIsGap(c, p, t.at);
    SkipIsGap(c, o, t.behind);
  }

  lemma {:induction false} ItemAccepted(c: seq<char>, i: nat, p: nat, depth: nat, items: seq<Json>, e: nat, t: Marks)
    returns (o: nat)
    requires Terminated(c) && i + 1 < |c| && p <= |c| && SkipWhitespace(c, i + 1) == SkipWhitespace(c, p)
    requires items != [] && ItemsEnd(c, p, items, t) == Some(e) && depth + ItemsHeight(items) <= NESTING_LIMIT
    ensures t.Part? && o <= |c| && ParseValue(c, SkipWhitespace(c, i + 1), depth) == Ok(items[0], o)
    ensures |items| == 1 ==> c[SkipWhitespace(c, o)] == ']' && e == SkipWhitespace(c, o) + 1
    ensures |items| != 1 ==> t.behind + 1 < |c| && SkipWhitespace(c, o) == t.behind && c[t.behind] == ',' &&
                             ItemsEnd(c, t.behind + 1, items[1..], t.next) == Some(e)
    ensures ItemsHeight(items[1..]) <= ItemsHeight(items)
    decreases t, 0
  {
    hide *;
    o := ItemsHead(c, p, items, e, t);
    Accepted(c, t.at, depth, items[0], o, t.inside);
  }

  lemma {:induction false} ItemsAccepted(c: seq<char>, i: nat, p: nat, depth: nat, items: seq<Json>, e: nat, t: Marks)
    requires Terminated(c) && i + 1 < |c| && p <= |c| && SkipWhitespace(c, i + 1) == SkipWhitespace(c, p)
    requires items != [] && ItemsEnd(c, p, items, t) == Some(e) && depth + ItemsHeight(items) <= NESTING_LIMIT
    ensures ParseItems(c, i, depth) == Ok(items, e)
    decreases t, 1
  {
    hide *;
    var o := ItemAccepted(c, i, p, depth, items, e, t);
    if |items| != 1 {
      ItemsAccepted(c, t.behind, t.behind + 1, depth, items[1..], e, t.next);
    }
    ItemsTaken(c, i, depth, items, o, e);
  }

  lemma {:induction false} ObjectAccepted(c: seq<char>, i: nat, depth: nat, ms: seq<Member>, e: nat, t: Marks)
    requires Terminated(c) && i < |c| && c[i] == '{' && ms != [] && MembersEnd(c, i + 1, ms, t) == Some(e)
    requires depth + 1 + MembersHeight(ms) <= NESTING_LIMIT
    ensures ParseObject(c, i, depth) == Ok(Object(ms), e)
    decreases t, 2
  {
    hide *;
    MembersStart(c, i + 1, ms, e, t);
    MembersAccepted(c, t.name.at - 1, i + 1, depth + 1, ms, e, t);
    ObjectTaken(c, i, depth, t.name.at, ms, e);
  }

  lemma MembersStart(c: seq<char>, p: nat, ms: seq<Member>, e: nat, t: Marks)
    requires Terminated(c) && p <= |c| && ms != [] && MembersEnd(c, p, ms, t) == Some(e)
    ensures t.Part? && p <= t.name.at < |c| && c[t.name.at] == '\"'
    ensures SkipWhitespace(c, p) == t.name.at == SkipWhitespace(c, t.name.at)
  {
    SkipIsGap(c, p, t.name.at);
  }

  /** The name of the first member, and its value. */
  lemma MembersHead(c: seq<char>, p: nat, ms: seq<Member>, e: nat, t: Marks) returns (o: nat)
    requires Terminated(c) && p <= |c| && ms != [] && MembersEnd(c, p, ms, t) == Some(e)
    ensures t.Part? && NameAt(c, p, ms[0].key, t.name) && t.name.colon < |c| && t.at < |c|
    ensures t.at == SkipWhitespace(c, t.name.colon + 1) && TextEnd(c, t.at, ms[0].value, t.inside) == Some(o)
    ensures Height(ms[0].value) <= MembersHeight(ms)
  {
    o := TextEnd(c, t.at, ms[0].value, t.inside).value;
    SkipIsGap(c, t.name.colon + 1, t.at);
  }

  /** What is behind the first member. */
  lemma MembersBehind(c: seq<char>, p: nat, ms: seq<Member>, e: nat, t: Marks, o: nat)
    requires Terminated(c) && ms != [] && MembersEnd(c, p, ms, t) == Some(e) && t.at < |c|
    requires TextEnd(c, t.at, ms[0].value, t.inside) == Some(o)
    ensures |ms| == 1 ==> c[SkipWhitespace(c, o)] == '}' && e == SkipWhitespace(c, o) + 1
    ensures |ms| != 1 ==> t.behind + 1 < |c| && SkipWhitespace(c, o) == t.behind && c[t.behind] == ',' &&
                          MembersEnd(c, t.behind + 1, ms[1..], t.next) == Some(e)
    ensures MembersHeight(ms[1..]) <= MembersHeight(ms)
  {
    SkipIsGap(c, o, t.behind);
  }

  lemma NameAccepted(c: seq<char>, i: nat, p: nat, depth: nat, m: Member, n: Name, at: nat, o: nat)
    requires Terminated(c) && i + 1 < |c| && p <= |c| && SkipWhitespace(c, i + 1) == SkipWhitespace(c, p)
    requires NameAt(c, p, m.key, n) && at == SkipWhitespace(c, n.colon + 1)
    requires ParseValue(c, at, depth) == Ok(m.value, o)
    ensures ParseMember(c, i, depth) == Ok(m, o)
  {
    SkipIsGap(c, p, n.at);
    SkipIsGap(c, n.end, n.colon);
    MemberTaken(c, i, depth, m, n, at, o);
  }

  lemma {:induction false} MemberAccepted(c: seq<char>, i: nat, p: nat, depth: nat, ms: seq<Member>, e: nat,
          t: Marks)
    returns (o: nat)
    requires Terminated(c) && i + 1 < |c| && p <= |c| && SkipWhitespace(c, i + 1) == SkipWhitespace(c, p)
    requires ms != [] && MembersEnd(c, p, ms, t) == Some(e) && depth + MembersHeight(ms) <= NESTING_LIMIT
    ensures t.Part? && t.at < |c| && TextEnd(c, t.at, ms[0].value, t.inside) == Some(o)
    ensures ParseMember(c, i, depth) == Ok(ms[0], o)
    decreases t, 0
  {
    hide *;
    o := MembersHead(c, p, ms, e, t);
    Accepted(c, t.at, depth, ms[0].value, o, t.inside);
    NameAccepted(c, i, p, depth, ms[0], t.name, t.at, o);
  }

  lemma {:induction false} MembersAccepted(c: seq<char>, i: nat, p: nat, depth: nat, ms: seq<Member>, e: nat,
          t: Marks)
    requires Terminated(c) && i + 1 < |c| && p <= |c| && SkipWhitespace(c, i + 1) == SkipWhitespace(c, p)
    requires ms != [] && MembersEnd(c, p, ms, t) == Some(e) && depth + MembersHeight(ms) <= NESTING_LIMIT
    ensures ParseMembers(c, i, depth) == Ok(ms, e)
    decreases t, 1
  {
    hide *;
    var o := MemberAccepted(c, i, p, depth, ms, e, t);
    MembersBehind(c, p, ms, e, t, o);
    if |ms| != 1 {
      MembersAccepted(c, t.behind, t.behind + 1, depth, ms[1..], e, t.next);
    }
    MembersTaken(c, i, depth, ms, o, e);
  }

  // ---------------------------------------------------------------- nothing else is

  /** What `parse_value` accepts without a bracket. */
  lemma ValueKinds(c: seq<char>, i: nat, depth: nat)
    requires Terminated(c) && i < |c| && c[i] != '[' && c[i] != '{' && ParseValue(c, i, depth).Ok?
    ensures var r := ParseValue(c, i, depth);
      || (Occurs(c, i, "null") && r == Ok(Null, i + 4))
      || (Occurs(c, i, "false") && r == Ok(False, i + 5))
      || (Occurs(c, i, "true") && r == Ok(True, i + 4))
      || (c[i] == '\"' && ParseString(c, i).Ok? && r == Ok(String(ParseString(c, i).value), ParseString(c, i).next))
      || ((c[i] == '-' || '0' <= c[i] <= '9') && r == ParseNumber(c, i))
  {
  }

  lemma ScalarRecognized(c: seq<char>, i: nat, depth: nat, v: Json, e: nat, t: Marks)
    requires Terminated(c) && i < |c| && c[i] != '[' && c[i] != '{' && ParseValue(c, i, depth) == Ok(v, e)
    ensures TextEnd(c, i, v, t) == Some(e) && Height(v) == 0
  {
    ValueKinds(c, i, depth);
    if (c[i] == '-' || '0' <= c[i] <= '9') && ParseNumber(c, i).Ok? {
      NumberKind(c, i);
    }
  }

  /** What is accepted is a text of the grammar, with this value, and not nested too deeply. */
  lemma {:induction false} Recognized(c: seq<char>, i: nat, depth: nat, v: Json, e: nat) returns (t: Marks)
    requires Terminated(c) && i < |c| && depth <= NESTING_LIMIT && ParseValue(c, i, depth) == Ok(v, e)
    ensures TextEnd(c, i, v, t) == Some(e) && depth + Height(v) <= NESTING_LIMIT
    decreases |c| - i, 3
  {
    Dispatch(c, i, depth);
    if c[i] == '[' {
      t := ArrayRecognized(c, i, depth, v, e);
    } else if c[i] == '{' {
      t := ObjectRecognized(c, i, depth, v, e);
    } else {
      t := Leaf(i);
      ScalarRecognized(c, i, depth, v, e, t);
    }
  }

  lemma GapBefore(c: seq<char>, p: nat, v: Json, t: Marks)
    requires Terminated(c) && p <= |c| && TextEnd(c, SkipWhitespace(c, p), v, t).Some?
    ensures Gap(c, p, SkipWhitespace(c, p))
  {
    TextStarts(c, SkipWhitespace(c, p), v, t);
    SkipStops(c, p);
  }

  lemma {:induction false} ArrayRecognized(c: seq<char>, i: nat, depth: nat, v: Json, e: nat) returns (t: Marks)
    requires Terminated(c) && i < |c| && c[i] == '[' && depth <= NESTING_LIMIT && ParseArray(c, i, depth) == Ok(v, e)
    ensures TextEnd(c, i, v, t) == Some(e) && depth + Height(v) <= NESTING_LIMIT
    decreases |c| - i, 2
  {
    hide *;
    var first := ArrayParts(c, i, depth, v, e);
    t := Leaf(first);
    if v.items != [] {
      SkipTwice(c, i + 1);
      t := ItemsRecognized(c, first - 1, i + 1, depth + 1, v.items, e);
    }
    ArrayMade(c, i, depth, first, v, e, t);
  }

  lemma ArrayMade(c: seq<char>, i: nat, depth: nat, first: nat, v: Json, e: nat, t: Marks)
    requires Terminated(c) && i < |c| && c[i] == '[' && v.Array? && depth < NESTING_LIMIT
    requires v.items == [] ==>
      first == SkipWhitespace(c, i + 1) && c[first] == ']' && e == first + 1 && t == Leaf(first)
    requires v.items != [] ==>
      ItemsEnd(c, i + 1, v.items, t) == Some(e) && depth + 1 + ItemsHeight(v.items) <= NESTING_LIMIT
    ensures TextEnd(c, i, v, t) == Some(e) && depth + Height(v) <= NESTING_LIMIT
  {
    if v.items == [] {
      SkipStops(c, i + 1);
    }
  }

  lemma {:induction false} ItemsRecognized(c: seq<char>, i: nat, p: nat, depth: nat, items: seq<Json>, e: nat)
    returns (t: Marks)
    requires Terminated(c) && i + 1 < |c| && p <= |c| && SkipWhitespace(c, i + 1) == SkipWhitespace(c, p)
    requires depth <= NESTING_LIMIT && ParseItems(c, i, depth) == Ok(items, e)
    ensures items != [] && ItemsEnd(c, p, items, t) == Some(e) && depth + ItemsHeight(items) <= NESTING_LIMIT
    decreases |c| - i, 1
  {
    hide *;
    var o := ItemsParts(c, i, depth, items, e);
    var q, next := SkipWhitespace(c, p), SkipWhitespace(c, o);
    var more := Leaf(next);
    if |items| != 1 {
      more := ItemsRecognized(c, next, next + 1, depth, items[1..], e);
    }
    var inside := Recognized(c, q, depth, items[0], o);
    t := Part(Name(p, p, p), q, inside, next, more);
    ItemsMade(c, p, depth, items, o, e, t);
  }

  lemma ItemsMade(c: seq<char>, p: nat, depth: nat, items: seq<Json>, o: nat, e: nat, t: Marks)
    requires Terminated(c) && p <= |c| && t.Part? && items != [] && t.at == SkipWhitespace(c, p)
    requires TextEnd(c, t.at, items[0], t.inside) == Some(o) && depth + Height(items[0]) <= NESTING_LIMIT
    requires t.behind == SkipWhitespace(c, o)
    requires |items| == 1 ==> c[t.behind] == ']' && e == t.behind + 1
    requires |items| != 1 ==> c[t.behind] == ',' && ItemsEnd(c, t.behind + 1, items[1..], t.next) == Some(e) &&
                              depth + ItemsHeight(items[1..]) <= NESTING_LIMIT
    ensures ItemsEnd(c, p, items, t) == Some(e) && depth + ItemsHeight(items) <= NESTING_LIMIT
  {
    GapBefore(c, p, items[0], t.inside);
    SkipStops(c, o);
  }

  lemma {:induction false} ObjectRecognized(c: seq<char>, i: nat, depth: nat, v: Json, e: nat) returns (t: Marks)
    requires Terminated(c) && i < |c| && c[i] == '{' && depth <= NESTING_LIMIT && ParseObject(c, i, depth) == Ok(v, e)
    ensures TextEnd(c, i, v, t) == Some(e) && depth + Height(v) <= NESTING_LIMIT
    decreases |c| - i, 2
  {
    hide *;
    var first := ObjectParts(c, i, depth, v, e);
    t := Leaf(first);
    if v.members != [] {
      SkipTwice(c, i + 1);
      t := MembersRecognized(c, first - 1, i + 1, depth + 1, v.members, e);
    }
    ObjectMade(c, i, depth, first, v, e, t);
  }

  lemma ObjectMade(c: seq<char>, i: nat, depth: nat, first: nat, v: Json, e: nat, t: Marks)
    requires Terminated(c) && i < |c| && c[i] == '{' && v.Object? && depth < NESTING_LIMIT
    requires v.members == [] ==>
      first == SkipWhitespace(c, i + 1) && c[first] == '}' && e == first + 1 && t == Leaf(first)
    requires v.members != [] ==>
      MembersEnd(c, i + 1, v.members, t) == Some(e) && depth + 1 + MembersHeight(v.members) <= NESTING_LIMIT
    ensures TextEnd(c, i, v, t) == Some(e) && depth + Height(v) <= NESTING_LIMIT
  {
    if v.members == [] {
      SkipStops(c, i + 1);
    }
  }

  lemma {:induction false} MemberRecognized(c: seq<char>, i: nat, p: nat, depth: nat, m: Member, o: nat)
    returns (n: Name, at: nat, inside: Marks)
    requires Terminated(c) && i + 1 < |c| && p <= |c| && SkipWhitespace(c, i + 1) == SkipWhitespace(c, p)
    requires depth <= NESTING_LIMIT && ParseMember(c, i, depth) == Ok(m, o)
    ensures NameAt(c, p, m.key, n) && Gap(c, n.colon + 1, at)
    ensures TextEnd(c, at, m.value, inside) == Some(o) && depth + Height(m.value) <= NESTING_LIMIT
    decreases |c| - i, 0, 0
  {
    hide *;
    n, at := MemberParts(c, i, depth, m, o);
    inside := Recognized(c, at, depth, m.value, o);
    NameRecognized(c, p, m.key, n);
    GapBefore(c, n.colon + 1, m.value, inside);
  }

  lemma {:induction false} MembersRecognized(c: seq<char>, i: nat, p: nat, depth: nat, ms: seq<Member>, e: nat)
    returns (t: Marks)
    requires Terminated(c) && i + 1 < |c| && p <= |c| && SkipWhitespace(c, i + 1) == SkipWhitespace(c, p)
    requires depth <= NESTING_LIMIT && ParseMembers(c, i, depth) == Ok(ms, e)
    ensures ms != [] && MembersEnd(c, p, ms, t) == Some(e) && depth + MembersHeight(ms) <= NESTING_LIMIT
    decreases |c| - i, 1
  {
    hide *;
    var o := MembersParts(c, i, depth, ms, e);
    var next := SkipWhitespace(c, o);
    var more := Leaf(next);
    if |ms| != 1 {
      more := MembersRecognized(c, next, next + 1, depth, ms[1..], e);
    }
    t := MembersJoined(c, i, p, depth, ms, o, e, more);
  }

  lemma {:induction false} MembersJoined(c: seq<char>, i: nat, p: nat, depth: nat, ms: seq<Member>, o: nat, e: nat,
          more: Marks)
    returns (t: Marks)
    requires Terminated(c) && i + 1 < |c| && p <= |c| && SkipWhitespace(c, i + 1) == SkipWhitespace(c, p)
    requires ms != [] && depth <= NESTING_LIMIT && ParseMember(c, i, depth) == Ok(ms[0], o)
    requires |ms| == 1 ==> c[SkipWhitespace(c, o)] == '}' && e == SkipWhitespace(c, o) + 1
    requires |ms| != 1 ==> c[SkipWhitespace(c, o)] == ',' && depth + MembersHeight(ms[1..]) <= NESTING_LIMIT &&
                           MembersEnd(c, SkipWhitespace(c, o) + 1, ms[1..], more) == Some(e)
    ensures MembersEnd(c, p, ms, t) == Some(e) && depth + MembersHeight(ms) <= NESTING_LIMIT
    decreases |c| - i, 0, 1
  {
    hide *;
    var n, at, inside := MemberRecognized(c, i, p, depth, ms[0], o);
    t := Part(n, at, inside, SkipWhitespace(c, o), more);
    MembersMade(c, p, depth, ms, o, e, t);
  }

  lemma NameRecognized(c: seq<char>, p: nat, key: string, n: Name)
    requires Terminated(c) && p <= |c| && n.at == SkipWhitespace(c, p) < n.end <= |c| && c[n.at] == '\"'
    requires ParseString(c, n.at) == Ok(key, n.end) && n.colon == SkipWhitespace(c, n.end) && c[n.colon] == ':'
    ensures NameAt(c, p, key, n)
  {
    SkipStops(c, p);
    SkipStops(c, n.end);
  }

  lemma MembersMade(c: seq<char>, p: nat, depth: nat, ms: seq<Member>, o: nat, e: nat, t: Marks)
    requires Terminated(c) && t.Part? && ms != [] && NameAt(c, p, ms[0].key, t.name) && Gap(c, t.name.colon + 1, t.at)
    requires TextEnd(c, t.at, ms[0].value, t.inside) == Some(o) && depth + Height(ms[0].value) <= NESTING_LIMIT
    requires t.behind == SkipWhitespace(c, o)
    requires |ms| == 1 ==> c[t.behind] == '}' && e == t.behind + 1
    requires |ms| != 1 ==> c[t.behind] == ',' && MembersEnd(c, t.behind + 1, ms[1..], t.next) == Some(e) &&
                           depth + MembersHeight(ms[1..]) <= NESTING_LIMIT
    ensures MembersEnd(c, p, ms, t) == Some(e) && depth + MembersHeight(ms) <= NESTING_LIMIT
  {
    hide ParseString, ParseNumber;
    SkipStops(c, o);
  }

  predicate Stands(c: seq<char>, i: nat, e: nat, v: Json, t: Marks) {
    i < |c| && TextEnd(c, i, v, t) == Some(e)
  }

  /** `parse_value` accepts exactly the texts of the grammar, with their values, up to the nesting limit. */
  lemma ValueExact(c: seq<char>, i: nat, depth: nat, v: Json, e: nat)
    requires Terminated(c) && i < |c| && depth <= NESTING_LIMIT
    ensures ParseValue(c, i, depth) == Ok(v, e) <==>
      (exists t :: Stands(c, i, e, v, t)) && depth + Height(v) <= NESTING_LIMIT
  {
    if ParseValue(c, i, depth) == Ok(v, e) {
      var t := Recognized(c, i, depth, v, e);
      assert Stands(c, i, e, v, t);
    }
    if depth + Height(v) <= NESTING_LIMIT {
      if t :| Stands(c, i, e, v, t) {
        Accepted(c, i, depth, v, e, t);
      }
    }
  }

  // ---------------------------------------------------------------- numbers

  function Zeros(k: nat): (s: string)
    ensures |s| == k && forall i :: 0 <= i < k ==> s[i] == '0'
  {
    seq(k, _ => '0')
  }

  lemma {:induction false} LeadingZeros(k: nat, t: string)
    ensures DigitsValue(Zeros(k) + t) == DigitsValue(t)
    decreases k + |t|
  {
    var s := Zeros(k) + t;
    if t != "" {
      assert s[..|s| - 1] == Zeros(k) + t[..|t| - 1];
      LeadingZeros(k, t[..|t| - 1]);
    } else if k > 0 {
      assert s[..|s| - 1] == Zeros(k - 1) + "";
      LeadingZeros(k - 1, "");
    }
  }

  lemma {:induction false} DigitsStop(run: string, k: nat, e: nat)
    requires k <= e <= |run| && (forall x :: k <= x < e ==> '0' <= run[x] <= '9')
    requires e < |run| ==> !('0' <= run[e] <= '9')
    ensures DigitRun(run, k) == e
    decreases e - k
  {
    if k < e {
      DigitsStop(run, k + 1, e);
    }
  }

  function Signed(negative: bool, n: int): int {
    if negative then -n else n
  }

  /** No digit, point or exponent. */
  predicate EndsNumber(b: char) {
    !('0' <= b <= '9') && b != '.' && b != 'e' && b != 'E'
  }

  /** Digits with a sign or without, at the front of what is copied for `strtod`. */
  lemma RunReads(run: string, sign: nat, e: nat)
    requires sign < e <= |run| && forall x :: sign <= x < e ==> '0' <= run[x] <= '9'
    requires sign == 0 || (sign == 1 && run[0] == '-')
    requires e < |run| ==> EndsNumber(run[e])
    ensures ReadInteger(run) == Some((Signed(sign == 1, DigitsValue(run[sign..e])), e))
  {
    hide DigitsValue;
    DigitsStop(run, sign, e);
  }

  lemma {:induction false} RunReaches(c: seq<char>, i: nat, m: nat, room: nat)
    requires i + m <= |c| && m <= room && forall k :: i <= k < i + m ==> NumberByte(c[k])
    ensures NumberRun(c, i, room) >= m
    decreases m
  {
    if m > 0 {
      RunReaches(c, i + 1, m - 1, room - 1);
    }
  }

  function NumberToken(negative: bool, zeros: nat, n: nat): (t: string)
    ensures t != ""
  {
    (if negative then "-" else "") + (Zeros(zeros) + Decimal(n))
  }

  lemma TokenBytes(negative: bool, zeros: nat, n: nat)
    ensures var t, sign := NumberToken(negative, zeros, n), if negative then 1 else 0;
      sign < |t| && (forall k :: sign <= k < |t| ==> '0' <= t[k] <= '9') && (negative ==> t[0] == '-') &&
      t[sign..] == Zeros(zeros) + Decimal(n)
  {
    var t, digits := NumberToken(negative, zeros, n), Zeros(zeros) + Decimal(n);
    var sign := if negative then 1 else 0;
    assert t[sign..] == digits;
    forall k | sign <= k < |t|
      ensures '0' <= t[k] <= '9'
    {
      assert t[k] == digits[k - sign];
    }
  }

  /**
   A number token: a minus sign or none, zeros or none, and decimal digits. What is behind it ends it, or its length
   does.
   */
  lemma NumberExact(c: seq<char>, i: nat, negative: bool, zeros: nat, n: nat)
    requires var t := NumberToken(negative, zeros, n);
      Spans(c, i, i + |t|, t) && |t| < NUMBER_BUFFER &&
      (|t| + 1 < NUMBER_BUFFER && i + |t| < |c| ==> EndsNumber(c[i + |t|]))
    ensures var t := NumberToken(negative, zeros, n);
      i < |c| && ParseNumber(c, i) == Ok(Number(Signed(negative, n)), i + |t|)
  {
    hide DigitsValue, NumberToken, Decimal, ReadInteger;
    var t, sign := NumberToken(negative, zeros, n), if negative then 1 else 0;
    TokenBytes(negative, zeros, n);
    forall k | i <= k < i + |t|
      ensures NumberByte(c[k])
    {
      SpansByte(c, i, i + |t|, t, k - i);
    }
    RunReaches(c, i, |t|, NUMBER_BUFFER - 1);
    var run := c[i..i + NumberRun(c, i, NUMBER_BUFFER - 1)];
    assert run[..|t|] == c[i..i + |t|];
    assert run[sign..|t|] == run[..|t|][sign..];
    LeadingZeros(zeros, Decimal(n));
    DecimalValue(n);
    RunReads(run, sign, |t|);
  }

  /** A minus sign without a digit behind it is refused. */
  lemma LoneMinus(c: seq<char>, i: nat, depth: nat)
    requires Terminated(c) && i + 1 < |c| && c[i] == '-' && !('0' <= c[i + 1] <= '9')
    ensures ParseValue(c, i, depth) == Fail(i)
  {
    Dispatch(c, i, depth);
  }

  // ---------------------------------------------------------------- whole texts

  const BYTE_ORDER_MARK: string := [0xEF as char, 0xBB as char, 0xBF as char]

  /** A byte order mark in front of more text is passed over. */
  function BomLength(text: string): nat {
    if |text| > 3 && text[..3] == BYTE_ORDER_MARK then 3 else 0
  }

  predicate BlankFrom(text: string, e: nat) {
    forall k :: e <= k < |text| ==> text[k] <= ' '
  }

  /** The text of one value behind a gap; where the parser is to look to the end nothing but blanks is behind it. */
  predicate TextOf(text: string, toTheEnd: bool, v: Json, end: nat, q: nat, e: nat, t: Marks) {
    var c := text + [NUL];
    Gap(c, BomLength(text), q) && Stands(c, q, e, v, t) &&
    if toTheEnd then end == |text| && BlankFrom(text, e) else end == e
  }

  /**
   `cJSON_ParseWithOpts` accepts exactly the texts of one value nested at most 1000 deep, behind a byte order mark or
   not, and what may stand behind it is decided by its option.
   */
  lemma ParseExact(text: string, toTheEnd: bool, v: Json, end: nat)
    requires NUL !in text
    ensures Parse(text, toTheEnd) == Ok(v, end) <==>
      (exists q, e, t :: TextOf(text, toTheEnd, v, end, q, e, t)) && Height(v) <= NESTING_LIMIT
  {
    if Parse(text, toTheEnd) == Ok(v, end) {
      var q, e, t := TextRecognized(text, toTheEnd, v, end);
      assert TextOf(text, toTheEnd, v, end, q, e, t);
    }
    if Height(v) <= NESTING_LIMIT {
      if q, e, t :| TextOf(text, toTheEnd, v, end, q, e, t) {
        TextAccepted(text, toTheEnd, v, end, q, e, t);
      }
    }
  }

  /** Where the value starts and ends, and what is behind it. */
  lemma TextParts(text: string, toTheEnd: bool, v: Json, end: nat) returns (q: nat, e: nat)
    requires NUL !in text && Parse(text, toTheEnd) == Ok(v, end)
    ensures var c := text + [NUL]; q == SkipWhitespace(c, BomLength(text)) && ParseValue(c, q, 0) == Ok(v, e)
    ensures if toTheEnd then end == |text| && BlankFrom(text, e) else end == e
  {
    var c := text + [NUL];
    BomSkipped(text);
    q := SkipWhitespace(c, SkipBom(c));
    e := ParseValue(c, q, 0).next;
    EndReached(text, e);
  }

  lemma TextRecognized(text: string, toTheEnd: bool, v: Json, end: nat) returns (q: nat, e: nat, t: Marks)
    requires NUL !in text && Parse(text, toTheEnd) == Ok(v, end)
    ensures TextOf(text, toTheEnd, v, end, q, e, t) && Height(v) <= NESTING_LIMIT
  {
    var c := text + [NUL];
    BomSkipped(text);
    q, e := TextParts(text, toTheEnd, v, end);
    t := Recognized(c, q, 0, v, e);
    GapBefore(c, BomLength(text), v, t);
  }

  lemma TextAccepted(text: string, toTheEnd: bool, v: Json, end: nat, q: nat, e: nat, t: Marks)
    requires NUL !in text && TextOf(text, toTheEnd, v, end, q, e, t) && Height(v) <= NESTING_LIMIT
    ensures Parse(text, toTheEnd) == Ok(v, end)
  {
    var c := text + [NUL];
    BomSkipped(text);
    SkipIsGap(c, SkipBom(c), q);
    Accepted(c, q, 0, v, e, t);
    EndReached(text, e);
  }

  /**
   Where an error is reported: inside the text or at its end; and if only what is behind the value is wrong, at the
   first byte there that is no blank.
   */
  lemma ErrorPlace(text: string, toTheEnd: bool)
    requires NUL !in text && Parse(text, toTheEnd).Fail?
    ensures var r := Parse(text, toTheEnd);
      r.at <= |text| &&
      (Parse(text, false).Ok? ==> Gap(text + [NUL], Parse(text, false).next, r.at))
  {
    if Parse(text, false).Ok? {
      var e := Parse(text, false).next;
      SkipLands(text + [NUL], e);
      SkipStops(text + [NUL], e);
    }
  }

  lemma {:induction false} SkipLands(c: seq<char>, a: nat)
    requires Terminated(c) && a <= |c| && c[SkipWhitespace(c, a)] != NUL
    ensures c[SkipWhitespace(c, a)] > ' '
    decreases |c| - a
  {
    if a < |c| && c[a] <= ' ' {
      SkipLands(c, a + 1);
    }
  }

  lemma BomSkipped(text: string)
    ensures SkipBom(text + [NUL]) == BomLength(text)
  {
    var c := text + [NUL];
    if |text| > 3 {
      assert text[..3][0] == c[0] && text[..3][1] == c[1] && text[..3][2] == c[2];
      assert text[..3] == [c[0], c[1], c[2]];
    }
  }

  /** Whether only blanks are left. */
  lemma {:induction false} EndReached(text: string, p: nat)
    requires NUL !in text && p <= |text| + 1
    ensures var c := text + [NUL]; c[SkipWhitespace(c, p)] == NUL <==> BlankFrom(text, p)
    ensures var c := text + [NUL]; c[SkipWhitespace(c, p)] == NUL ==> SkipWhitespace(c, p) == |text|
    decreases |text| + 1 - p
  {
    var c := text + [NUL];
    if p < |text| {
      assert c[p] == text[p] && text[p] != NUL;
      if text[p] <= ' ' {
        EndReached(text, p + 1);
      }
    }
  }
}
