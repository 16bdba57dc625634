/**
 The parser as the program runs it: one buffer object, whose offset every step moves and whose depth counts
 the open arrays and objects. Each method does what the parser's function of the same name says, on success
 and on failure.
 */
module ParseBuffers {
  import opened CStrings
  import opened Seqs
  import opened JsonValues
  import opened JsonStrings
  import P = JsonParser

  /** A result with items already parsed in front. */
  function Prepend<T>(items: seq<T>, r: Parsed<seq<T>>): Parsed<seq<T>> {
    match r
    case Fail(at) => r
    case Ok(rest, next) => Ok(items + rest, next)
  }

  lemma PrependNothing<T>(r: Parsed<seq<T>>)
    ensures Prepend([], r) == r
  {
    if r.Ok? {
      AppendNothing(r.value);
    }
  }

  lemma PrependOne<T>(items: seq<T>, x: T, r: Parsed<seq<T>>)
    ensures Prepend(items, Prepend([x], r)) == Prepend(items + [x], r)
  {
    if r.Ok? {
      AppendAssociates(items, [x], r.value);
    }
  }

  lemma ItemsStep(items: seq<Json>, c: seq<char>, i: nat, depth: nat, v: Json, next: nat)
    requires P.Terminated(c) && i + 1 < |c| && next < |c|
    requires P.ParseValue(c, P.SkipWhitespace(c, i + 1), depth).Ok?
    requires P.ParseValue(c, P.SkipWhitespace(c, i + 1), depth).value == v
    requires P.SkipWhitespace(c, P.ParseValue(c, P.SkipWhitespace(c, i + 1), depth).next) == next
    ensures c[next] == ',' ==>
      Prepend(items, P.ParseItems(c, i, depth)) == Prepend(items + [v], P.ParseItems(c, next, depth))
    ensures c[next] == ']' ==> Prepend(items, P.ParseItems(c, i, depth)) == Ok(items + [v], next + 1)
    ensures c[next] != ',' && c[next] != ']' ==> Prepend(items, P.ParseItems(c, i, depth)) == Fail(next)
  {
    if c[next] == ',' {
      PrependOne(items, v, P.ParseItems(c, next, depth));
    }
  }

  lemma MembersStep(ms: seq<Member>, c: seq<char>, i: nat, depth: nat, m: Member, next: nat)
    requires P.Terminated(c) && i + 1 < |c| && next < |c|
    requires P.ParseMember(c, i, depth).Ok? && P.ParseMember(c, i, depth).value == m
    requires P.SkipWhitespace(c, P.ParseMember(c, i, depth).next) == next
    ensures c[next] == ',' ==>
      Prepend(ms, P.ParseMembers(c, i, depth)) == Prepend(ms + [m], P.ParseMembers(c, next, depth))
    ensures c[next] == '}' ==> Prepend(ms, P.ParseMembers(c, i, depth)) == Ok(ms + [m], next + 1)
    ensures c[next] != ',' && c[next] != '}' ==> Prepend(ms, P.ParseMembers(c, i, depth)) == Fail(next)
  {
    hide P.ParseMember;
    if c[next] == ',' {
      PrependOne(ms, m, P.ParseMembers(c, next, depth));
    }
  }

  class ParseBuffer {
    const content: seq<char>
    var offset: nat
    var depth: nat

    constructor (text: string)
      ensures content == text + [NUL] && offset == 0 && depth == 0
    {
      content := text + [NUL];
      offset := 0;
      depth := 0;
    }

    /** The buffer can be read at its offset. */
    ghost predicate Readable()
      reads this
    {
      P.Terminated(content) && offset < |content|
    }

    /** The item returned and the new offset are what a parser function says. */
    ghost predicate Reports<T>(item: Option<T>, r: Parsed<T>)
      reads this
    {
      match r
      case Fail(at) => item == None && offset == at
      case Ok(v, next) => item == Some(v) && offset == next
    }

    /** `buffer_skip_whitespace`. */
    method SkipWhitespace()
      requires P.Terminated(content) && offset <= |content|
      modifies `offset
      ensures offset == P.SkipWhitespace(content, old(offset))
    {
      ghost var start := offset;
      while offset < |content| && content[offset] <= ' '
        invariant start <= offset <= |content|
        invariant P.SkipWhitespace(content, start) == P.SkipWhitespace(content, offset)
        decreases |content| - offset
      {
        offset := offset + 1;
      }
      if offset == |content| {
        offset := offset - 1;
      }
    }

    /** `parse_string`. */
    method ParseString() returns (item: Option<string>)
      requires Readable()
      modifies `offset
      ensures Reports(item, JsonStrings.ParseString(content, old(offset)))
    {
      var r := ParseStringLoop(content, offset);
      match r
      case Fail(at) =>
        offset, item := at, None;
      case Ok(s, next) =>
        offset, item := next, Some(s);
    }

    /** `parse_number`: the bytes of a number are copied until one does not belong or 63 are there. */
    method ParseNumber() returns (item: Option<Json>)
      requires Readable()
      modifies `offset
      ensures Reports(item, P.ParseNumber(content, old(offset)))
    {
      var i := 0;
      while i < P.NUMBER_BUFFER - 1 && offset + i < |content| && P.NumberByte(content[offset + i])
        invariant 0 <= i <= P.NUMBER_BUFFER - 1 && offset + i <= |content|
        invariant P.NumberRun(content, offset, P.NUMBER_BUFFER - 1) ==
          i + P.NumberRun(content, offset + i, P.NUMBER_BUFFER - 1 - i)
      {
        i := i + 1;
      }
      match P.ReadInteger(content[offset..offset + i])
      case None =>
        item := None;
      case Some((n, length)) =>
        offset, item := offset + length, Some(Number(n));
    }

    /** `parse_value`. */
    method ParseValue() returns (item: Option<Json>)
      requires Readable()
      modifies `offset, `depth
      ensures Reports(item, P.ParseValue(content, old(offset), old(depth)))
      ensures item.Some? ==> depth == old(depth)
      decreases |content| - offset, 4
    {
      if P.Occurs(content, offset, "null") {
        offset, item := offset + 4, Some(Null);
      } else if P.Occurs(content, offset, "false") {
        offset, item := offset + 5, Some(False);
      } else if P.Occurs(content, offset, "true") {
        offset, item := offset + 4, Some(True);
      } else if content[offset] == '\"' {
        var s := ParseString();
        item := if s.Some? then Some(String(s.value)) else None;
      } else if content[offset] == '-' || '0' <= content[offset] <= '9' {
        item := ParseNumber();
      } else if content[offset] == '[' {
        item := ParseArray();
      } else if content[offset] == '{' {
        item := ParseObject();
      } else {
        item := None;
      }
    }

    /** `parse_array`. */
    method ParseArray() returns (item: Option<Json>)
      requires Readable() && content[offset] == '['
      modifies `offset, `depth
      ensures Reports(item, P.ParseArray(content, old(offset), old(depth)))
      ensures item.Some? ==> depth == old(depth)
      decreases |content| - offset, 3
    {
      if depth >= P.NESTING_LIMIT {
        return None;
      }
      depth := depth + 1;
      offset := offset + 1;
      SkipWhitespace();
      if content[offset] == ']' {
        depth, offset := depth - 1, offset + 1;
        return Some(Array([]));
      }
      offset := offset - 1;
      var items := ParseItems();
      if items == None {
        return None;
      }
      depth := depth - 1;
      item := Some(Array(items.value));
    }

    /** One turn of the loop of `parse_array`. */
    method ParseItem() returns (item: Option<Json>)
      requires P.Terminated(content) && offset + 1 < |content|
      modifies `offset, `depth
      ensures Reports(item, P.ParseValue(content, P.SkipWhitespace(content, old(offset) + 1), old(depth)))
      ensures item.Some? ==> depth == old(depth)
      decreases |content| - offset, 0
    {
      offset := offset + 1;
      SkipWhitespace();
      item := ParseValue();
    }

    /** One turn of the loop of `parse_array`, with the items of the earlier turns and the outcome of the whole loop. */
    method ItemsTurn(done: seq<Json>, ghost whole: Parsed<seq<Json>>) returns (list: Option<seq<Json>>)
      requires P.Terminated(content) && offset + 1 < |content|
      requires whole == Prepend(done, P.ParseItems(content, offset, depth))
      modifies `offset, `depth
      ensures list == None ==> whole == Fail(offset)
      ensures list.Some? ==> depth == old(depth) && old(offset) < offset < |content|
      ensures list.Some? && content[offset] == ',' ==> offset + 1 < |content|
      ensures list.Some? && content[offset] == ',' ==>
        whole == Prepend(list.value, P.ParseItems(content, offset, depth))
      ensures list.Some? && content[offset] == ']' ==> whole == Ok(list.value, offset + 1)
      ensures list.Some? && content[offset] != ',' && content[offset] != ']' ==> whole == Fail(offset)
      decreases |content| - offset, 1
    {
      var v := ParseItem();
      if v == None {
        return None;
      }
      SkipWhitespace();
      ItemsStep(done, content, old(offset), depth, v.value, offset);
      list := Some(done + [v.value]);
    }

    /** The loop of `parse_array`, and the closing bracket. */
    method ParseItems() returns (list: Option<seq<Json>>)
      requires P.Terminated(content) && offset + 1 < |content|
      modifies `offset, `depth
      ensures Reports(list, P.ParseItems(content, old(offset), old(depth)))
      ensures list.Some? ==> depth == old(depth)
      decreases |content| - offset, 2
    {
      ghost var whole := P.ParseItems(content, offset, depth);
      PrependNothing(whole);
      list := ItemsTurn([], whole);
      while list.Some? && content[offset] == ','
        invariant list == None ==> whole == Fail(offset)
        invariant list.Some? ==> depth == old(depth) && old(offset) < offset < |content|
        invariant list.Some? && content[offset] == ',' ==> offset + 1 < |content|
        invariant list.Some? && content[offset] == ',' ==>
          whole == Prepend(list.value, P.ParseItems(content, offset, depth))
        invariant list.Some? && content[offset] == ']' ==> whole == Ok(list.value, offset + 1)
        invariant list.Some? && content[offset] != ',' && content[offset] != ']' ==> whole == Fail(offset)
        decreases if list.Some? then |content| - offset + 1 else 0
      {
        list := ItemsTurn(list.value, whole);
      }
      if list.Some? {
        if content[offset] != ']' {
          return None;
        }
        offset := offset + 1;
      }
    }

    /** `parse_object`. */
    method ParseObject() returns (item: Option<Json>)
      requires Readable() && content[offset] == '{'
      modifies `offset, `depth
      ensures Reports(item, P.ParseObject(content, old(offset), old(depth)))
      ensures item.Some? ==> depth == old(depth)
      decreases |content| - offset, 3
    {
      if depth >= P.NESTING_LIMIT {
        return None;
      }
      depth := depth + 1;
      offset := offset + 1;
      SkipWhitespace();
      if content[offset] == '}' {
        depth, offset := depth - 1, offset + 1;
        return Some(Object([]));
      }
      offset := offset - 1;
      var members := ParseMembers();
      if members == None {
        return None;
      }
      depth := depth - 1;
      item := Some(Object(members.value));
    }

    /** The name of a member and the colon after it. */
    method ParseName() returns (key: Option<string>)
      requires P.Terminated(content) && offset + 1 < |content|
      modifies `offset
      ensures Reports(key, P.ParseName(content, old(offset)))
    {
      offset := offset + 1;
      SkipWhitespace();
      key := ParseString();
      if key.Some? {
        SkipWhitespace();
        if content[offset] != ':' {
          return None;
        }
        offset := offset + 1;
      }
    }

    /** One turn of the loop of `parse_object`: name, colon and value. */
    method ParseMember() returns (m: Option<Member>)
      requires P.Terminated(content) && offset + 1 < |content|
      modifies `offset, `depth
      ensures Reports(m, P.ParseMember(content, old(offset), old(depth)))
      ensures m.Some? ==> depth == old(depth)
      decreases |content| - offset, 0
    {
      var key := ParseName();
      if key == None {
        return None;
      }
      SkipWhitespace();
      var v := ParseValue();
      m := if v == None then None else Some(Member(key.value, v.value));
    }

    /** One turn of the loop of `parse_object`, given the items of the earlier turns and the outcome of all. */
    method MembersTurn(done: seq<Member>, ghost whole: Parsed<seq<Member>>) returns (list: Option<seq<Member>>)
      requires P.Terminated(content) && offset + 1 < |content|
      requires whole == Prepend(done, P.ParseMembers(content, offset, depth))
      modifies `offset, `depth
      ensures list == None ==> whole == Fail(offset)
      ensures list.Some? ==> depth == old(depth) && old(offset) < offset < |content|
      ensures list.Some? && content[offset] == ',' ==> offset + 1 < |content|
      ensures list.Some? && content[offset] == ',' ==>
        whole == Prepend(list.value, P.ParseMembers(content, offset, depth))
      ensures list.Some? && content[offset] == '}' ==> whole == Ok(list.value, offset + 1)
      ensures list.Some? && content[offset] != ',' && content[offset] != '}' ==> whole == Fail(offset)
      decreases |content| - offset, 1
    {
      var m := ParseMember();
      if m == None {
        return None;
      }
      SkipWhitespace();
      MembersStep(done, content, old(offset), depth, m.value, offset);
      list := Some(done + [m.value]);
    }

    /** The loop of `parse_object`, and the closing brace. */
    method ParseMembers() returns (list: Option<seq<Member>>)
      requires P.Terminated(content) && offset + 1 < |content|
      modifies `offset, `depth
      ensures Reports(list, P.ParseMembers(content, old(offset), old(depth)))
      ensures list.Some? ==> depth == old(depth)
      decreases |content| - offset, 2
    {
      ghost var whole := P.ParseMembers(content, offset, depth);
      PrependNothing(whole);
      list := MembersTurn([], whole);
      while list.Some? && content[offset] == ','
        invariant list == None ==> whole == Fail(offset)
        invariant list.Some? ==> depth == old(depth) && old(offset) < offset < |content|
        invariant list.Some? && content[offset] == ',' ==> offset + 1 < |content|
        invariant list.Some? && content[offset] == ',' ==>
          whole == Prepend(list.value, P.ParseMembers(content, offset, depth))
        invariant list.Some? && content[offset] == '}' ==> whole == Ok(list.value, offset + 1)
        invariant list.Some? && content[offset] != ',' && content[offset] != '}' ==> whole == Fail(offset)
        decreases if list.Some? then |content| - offset + 1 else 0
      {
        list := MembersTurn(list.value, whole);
      }
      if list.Some? {
        if content[offset] != '}' {
          return None;
        }
        offset := offset + 1;
      }
    }
  }

  /** `cJSON_ParseWithOpts`: the tree, and where parsing ended or the position of the error. */
  method ParseWithOpts(text: string, toTheEnd: bool) returns (item: Option<Json>, at: nat)
    requires NUL !in text
    ensures match P.Parse(text, toTheEnd)
      case Fail(error) => item == None && at == error
      case Ok(v, next) => item == Some(v) && at == next
  {
    var buffer := new ParseBuffer(text);
    buffer.offset := P.SkipBom(buffer.content);
    buffer.SkipWhitespace();
    item := buffer.ParseValue();
    if item.Some? && toTheEnd {
      buffer.SkipWhitespace();
      if buffer.content[buffer.offset] != NUL {
        item := None;
      }
    }
    at := if item.Some? || buffer.offset < |buffer.content| then buffer.offset else |buffer.content| - 1;
  }
}
