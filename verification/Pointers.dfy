/**
 JSON pointers (RFC 6901) as `compare_pointers`, `decode_array_index_from_pointer` and
 `get_item_from_pointer` read them. A `cJSON *` into a tree is an address: the child positions on the
 way down from the root.
 */
module Pointers {
  import opened CStrings
  import opened JsonValues
  import opened Seqs

  type Address = seq<nat>

  // ---------------------------------------------------------------- one token

  /** Where the first token of t ends: at a '/' or at the end of the string. */
  function TokenEnd(t: string): (r: nat)
    ensures r <= |t|
    ensures r < |t| ==> t[r] == '/'
    ensures forall i :: 0 <= i < r ==> t[i] != '/'
  {
    if t == "" || t[0] == '/' then 0 else 1 + TokenEnd(t[1..])
  }

  function SkipToken(t: string): (r: string)
    ensures r == "" || r[0] == '/'
  {
    t[TokenEnd(t)..]
  }

  predicate Ends(rest: string) {
    rest == "" || rest[0] == '/'
  }

  /** `compare_pointers`: does the member name match the first token of t? */
  predicate TokenMatches(name: string, t: string, cs: bool)
    decreases |name|
  {
    if name == "" || Ends(t) then !Ends(t) == (name != "")
    else if t[0] == '~' then
      if (At(t, 1) == '0' && name[0] == '~') || (At(t, 1) == '1' && name[0] == '/')
      then TokenMatches(name[1..], t[2..], cs)
      else false
    else Fold([name[0]], cs) == Fold([t[0]], cs) && TokenMatches(name[1..], t[1..], cs)
  }

  method ComparePointers(name: string, t: string, cs: bool) returns (same: bool)
    ensures same == TokenMatches(name, t, cs)
  {
    var n, p := 0, 0;
    while n < |name| && p < |t| && t[p] != '/'
      invariant 0 <= n <= |name| && 0 <= p <= |t|
      invariant TokenMatches(name, t, cs) == TokenMatches(name[n..], t[p..], cs)
      decreases |name| - n
    {
      assert name[n..][1..] == name[n + 1..] && t[p..][1..] == t[p + 1..];
      if t[p] == '~' {
        if (At(t, p + 1) != '0' || name[n] != '~') && (At(t, p + 1) != '1' || name[n] != '/') {
          return false;
        }
        assert t[p..][2..] == t[p + 2..];
        p := p + 1;
      } else if Fold([name[n]], cs) != Fold([t[p]], cs) {
        return false;
      }
      n, p := n + 1, p + 1;
    }
    return (p < |t| && t[p] != '/') == (n < |name|);
  }

  /** Reading digits: the code tests the first byte, not the current one, against '9'. */
  function DecodeRun(t: string, pos: nat, acc: nat): (r: (nat, nat))
    requires pos <= |t|
    ensures pos <= r.1 <= |t|
    decreases |t| - pos
  {
    if pos < |t| && t[pos] >= '0' && t[0] <= '9' then
      DecodeRun(t, pos + 1, (10 * acc + (t[pos] as int - '0' as int)) % SIZE_T)
    else (acc, pos)
  }

  /** `decode_array_index_from_pointer`. */
  function DecodeIndex(t: string): Option<nat> {
    if At(t, 0) == '0' && At(t, 1) != NUL && At(t, 1) != '/' then None
    else
      var (value, pos) := DecodeRun(t, 0, 0);
      if At(t, pos) != NUL && At(t, pos) != '/' then None else Some(value)
  }

  method DecodeArrayIndex(t: string) returns (index: Option<nat>)
    ensures index == DecodeIndex(t)
  {
    if At(t, 0) == '0' && At(t, 1) != NUL && At(t, 1) != '/' {
      return None;
    }
    var parsed, pos := 0, 0;
    while pos < |t| && t[pos] >= '0' && t[0] <= '9'
      invariant 0 <= pos <= |t| && 0 <= parsed
      invariant DecodeRun(t, 0, 0) == DecodeRun(t, pos, parsed)
    {
      parsed := (10 * parsed + (t[pos] as int - '0' as int)) % SIZE_T;
      pos := pos + 1;
    }
    if At(t, pos) != NUL && At(t, pos) != '/' {
      return None;
    }
    return Some(parsed);
  }

  // ---------------------------------------------------------------- walking down

  /** The first member whose name matches the token. */
  function FirstMatch(ms: seq<Member>, t: string, cs: bool): (i: int)
    ensures -1 <= i < |ms|
    ensures 0 <= i ==> TokenMatches(ms[i].key, t, cs)
    ensures forall j :: 0 <= j < (if i == -1 then |ms| else i) ==> !TokenMatches(ms[j].key, t, cs)
  {
    if ms == [] then -1
    else if TokenMatches(ms[0].key, t, cs) then 0
    else
      var i := FirstMatch(ms[1..], t, cs);
      if i == -1 then -1 else i + 1
  }

  /** The child that the first token of t selects. */
  function ChildAt(j: Json, t: string, cs: bool): (r: Option<nat>)
    ensures r.Some? ==> HasChild(j, r.value)
  {
    match j
    case Array(items) =>
      var i := DecodeIndex(t);
      if i.Some? && i.value < |items| then i else None
    case Object(ms) =>
      var i := FirstMatch(ms, t, cs);
      if i == -1 then None else Some(i)
    case _ => None
  }

  predicate HasChild(j: Json, i: nat) {
    match j
    case Array(items) => i < |items|
    case Object(ms) => i < |ms|
    case _ => false
  }

  function Child(j: Json, i: nat): (c: Json)
    requires HasChild(j, i)
    ensures c < j
  {
    if j.Array? then j.items[i] else j.members[i].value
  }

  function SetChild(j: Json, i: nat, v: Json): (r: Json)
    requires HasChild(j, i)
    ensures HasChild(r, i) && Child(r, i) == v
    ensures forall k: nat :: HasChild(r, k) <==> HasChild(j, k)
    ensures forall k: nat :: k != i && HasChild(j, k) ==> Child(r, k) == Child(j, k)
  {
    if j.Array? then Array(j.items[i := v])
    else Object(j.members[i := Member(j.members[i].key, v)])
  }

  predicate ValidAddress(j: Json, a: Address)
    decreases |a|
  {
    a == [] || (HasChild(j, a[0]) && ValidAddress(Child(j, a[0]), a[1..]))
  }

  function NodeAt(j: Json, a: Address): Json
    requires ValidAddress(j, a)
    decreases |a|
  {
    if a == [] then j else NodeAt(Child(j, a[0]), a[1..])
  }

  /** The tree after the node at a has been overwritten. */
  function ReplaceAt(j: Json, a: Address, v: Json): (r: Json)
    requires ValidAddress(j, a)
    decreases |a|
  {
    if a == [] then v else SetChild(j, a[0], ReplaceAt(Child(j, a[0]), a[1..], v))
  }

  function After(a: Address, rest: Option<Address>): Option<Address> {
    if rest == None then None else Some(a + rest.value)
  }

  /** `get_item_from_pointer`; anything that does not start with '/' names the node itself. */
  function Locate(j: Json, p: string, cs: bool): (r: Option<Address>)
    ensures r.Some? ==> ValidAddress(j, r.value)
    decreases |p|
  {
    if p == "" || p[0] != '/' then Some([])
    else
      var i := ChildAt(j, p[1..], cs);
      if i == None then None
      else After([i.value], Locate(Child(j, i.value), SkipToken(p[1..]), cs))
  }

  lemma {:induction false} AddressSnoc(j: Json, a: Address, i: nat)
    requires ValidAddress(j, a) && HasChild(NodeAt(j, a), i)
    ensures ValidAddress(j, a + [i]) && NodeAt(j, a + [i]) == Child(NodeAt(j, a), i)
    decreases |a|
  {
    if a == [] {
      assert a + [i] == [i];
    } else {
      AddressSnoc(Child(j, a[0]), a[1..], i);
      assert (a + [i])[1..] == a[1..] + [i];
    }
  }

  method FindMember(ms: seq<Member>, t: string, cs: bool) returns (i: int)
    ensures i == FirstMatch(ms, t, cs)
  {
    i := 0;
    while i < |ms|
      invariant 0 <= i <= |ms|
      invariant forall k :: 0 <= k < i ==> !TokenMatches(ms[k].key, t, cs)
    {
      var same := ComparePointers(ms[i].key, t, cs);
      if same {
        return;
      }
      i := i + 1;
    }
    i := -1;
  }

  method SelectChild(j: Json, t: string, cs: bool) returns (r: Option<nat>)
    ensures r == ChildAt(j, t, cs)
  {
    if j.Array? {
      r := DecodeArrayIndex(t);
      if r.Some? && r.value >= |j.items| {
        r := None;
      }
    } else if j.Object? {
      var i := FindMember(j.members, t, cs);
      r := if i == -1 then None else Some(i);
    } else {
      r := None;
    }
  }

  method GetItemFromPointer(root: Json, pointer: string, cs: bool) returns (r: Option<Address>)
    ensures r == Locate(root, pointer, cs)
  {
    var current, addr, p := root, [], pointer;
    AfterNothing(Locate(root, pointer, cs));
    while p != "" && p[0] == '/'
      invariant ValidAddress(root, addr) && NodeAt(root, addr) == current
      invariant Locate(root, pointer, cs) == After(addr, Locate(current, p, cs))
      decreases |p|
    {
      var token := p[1..];
      var next := SelectChild(current, token, cs);
      if next == None {
        return None;
      }
      AddressSnoc(root, addr, next.value);
      p := token;
      while p != "" && p[0] != '/'
        invariant |p| <= |token| && SkipToken(p) == SkipToken(token)
        decreases |p|
      {
        assert p[1..][TokenEnd(p[1..])..] == p[TokenEnd(p)..];
        p := p[1..];
      }
      assert p == SkipToken(token);
      AfterAfter(addr, [next.value], Locate(Child(current, next.value), p, cs));
      current, addr := Child(current, next.value), addr + [next.value];
    }
    assert addr + [] == addr;
    return Some(addr);
  }

  lemma AfterNothing(rest: Option<Address>)
    ensures After([], rest) == rest
  {
    assert rest != None ==> [] + rest.value == rest.value;
  }

  lemma AfterAfter(a: Address, b: Address, rest: Option<Address>)
    ensures After(a, After(b, rest)) == After(a + b, rest)
  {
    assert rest != None ==> a + (b + rest.value) == (a + b) + rest.value;
  }

  lemma TokenEndIs(t: string, k: nat)
    requires k <= |t| && (forall i :: 0 <= i < k ==> t[i] != '/') && (k < |t| ==> t[k] == '/')
    ensures TokenEnd(t) == k
  {
    var e := TokenEnd(t);
    assert !(e < k);
    assert !(k < e);
  }

  // ---------------------------------------------------------------- RFC 6901

  /** Section 3 of RFC 6901: '~' is written "~0", '/' is written "~1". */
  function EscapeByte(c: char): string {
    if c == '~' then "~0" else if c == '/' then "~1" else [c]
  }

  function Escape(token: string): string {
    if token == "" then "" else EscapeByte(token[0]) + Escape(token[1..])
  }

  function Render(tokens: seq<string>): string {
    if tokens == [] then "" else "/" + Escape(tokens[0]) + Render(tokens[1..])
  }

  /** Section 4 of RFC 6901: "0", or digits that do not start with '0'. */
  function RfcIndex(token: string): Option<nat> {
    if token != "" && Digits(token) && (token[0] == '0' ==> |token| == 1) then Some(DigitsValue(token)) else None
  }

  /** The child RFC 6901 selects with one token. */
  function ResolveStep(j: Json, token: string): (r: Option<nat>)
    ensures r.Some? ==> HasChild(j, r.value)
  {
    match j
    case Array(items) =>
      var n := RfcIndex(token);
      if n.Some? && n.value < |items| then n else None
    case Object(ms) =>
      var k := IndexOf(ms, token);
      if k == -1 then None else Some(k)
    case _ => None
  }

  /** The node a token path selects, as RFC 6901 says: array items by index, members by exact key. */
  function Resolve(j: Json, tokens: seq<string>): (r: Option<Address>)
    decreases |tokens|
  {
    if tokens == [] then Some([])
    else
      var i := ResolveStep(j, tokens[0]);
      if i == None then None
      else After([i.value], Resolve(Child(j, i.value), tokens[1..]))
  }

  /**
   The texts on which the index decoder follows RFC 6901. It departs on three kinds: the empty text (read
   as 0), a text that starts with 1 to 9 and goes on with bytes at or above '0' that are not all digits
   (every byte is weighed as a digit), and a number that does not fit in `size_t` (it wraps).
   */
  predicate IndexAgrees(t: string) {
    t != "" &&
    ('1' <= t[0] <= '9' && (forall i :: 0 <= i < |t| ==> t[i] >= '0') ==> Digits(t) && DigitsValue(t) < SIZE_T)
  }

  /** Every array index on the path is one the decoder reads as RFC 6901 does. */
  predicate IndicesAgree(j: Json, tokens: seq<string>)
    decreases |tokens|
  {
    tokens == [] ||
    ((j.Array? ==> IndexAgrees(Escape(tokens[0]))) &&
     (ResolveStep(j, tokens[0]).Some? ==> IndicesAgree(Child(j, ResolveStep(j, tokens[0]).value), tokens[1..])))
  }

  lemma {:induction false} EscapeHasNoSlash(token: string)
    ensures forall i :: 0 <= i < |Escape(token)| ==> Escape(token)[i] != '/'
    ensures Escape(token) == "" <==> token == ""
  {
    if token != "" {
      EscapeHasNoSlash(token[1..]);
    }
  }

  lemma {:induction false} MatchesEscaped(name: string, token: string, rest: string)
    requires Ends(rest)
    ensures TokenMatches(name, Escape(token) + rest, true) <==> name == token
    decreases |token|
  {
    if token == "" {
      assert Escape(token) + rest == rest;
    } else {
      var tail := Escape(token[1..]) + rest;
      assert Escape(token) + rest == EscapeByte(token[0]) + tail;
      MatchesEscapedByte(name, token[0], tail);
      if name != "" {
        MatchesEscaped(name[1..], token[1..], rest);
        assert name == [name[0]] + name[1..] && token == [token[0]] + token[1..];
      }
    }
  }

  lemma MatchesEscapedByte(name: string, c: char, tail: string)
    ensures TokenMatches(name, EscapeByte(c) + tail, true) <==>
      name != "" && name[0] == c && TokenMatches(name[1..], tail, true)
  {
    var t := EscapeByte(c) + tail;
    if c == '~' || c == '/' {
      assert t[..2] == EscapeByte(c) && t[2..] == tail;
      assert t[0] == '~' && t[1] == (if c == '~' then '0' else '1');
    } else {
      assert t[0] == c && t[1..] == tail;
      if name != "" {
        assert [name[0]][0] == name[0] && [c][0] == c;
      }
    }
  }

  lemma SkipsToken(token: string, rest: string)
    requires Ends(rest) && forall i :: 0 <= i < |token| ==> token[i] != '/'
    ensures SkipToken(token + rest) == rest && TokenEnd(token + rest) == |token|
  {
    TokenEndIs(token + rest, |token|);
  }

  // ---------------------------------------------------------------- decimal indices

  lemma ModStep(a: nat, d: nat)
    ensures (10 * (a % SIZE_T) + d) % SIZE_T == (10 * a + d) % SIZE_T
  {
    var q := a / SIZE_T;
    assert a == SIZE_T * q + a % SIZE_T;
    assert 10 * a + d == SIZE_T * (10 * q) + (10 * (a % SIZE_T) + d);
  }

  /** On bytes from '0' on the decoder weighs every byte as a digit, modulo 2^64. */
  lemma {:induction false} DecodeRunDigits(t: string, rest: string, pos: nat)
    requires t != "" && t[0] <= '9' && (forall i :: 0 <= i < |t| ==> t[i] >= '0') && Ends(rest) && pos <= |t|
    ensures DecodeRun(t + rest, pos, DigitsValue(t[..pos]) % SIZE_T) == (DigitsValue(t) % SIZE_T, |t|)
    decreases |t| - pos
  {
    if pos < |t| {
      assert t[..pos + 1][..pos] == t[..pos];
      ModStep(DigitsValue(t[..pos]), t[pos] as int - '0' as int);
      DecodeRunDigits(t, rest, pos + 1);
    } else {
      assert t[..pos] == t;
    }
  }

  /** How far the decoder reads a text that starts with 1 to 9. */
  lemma {:induction false} DecodeRunStops(t: string, rest: string, pos: nat, acc: nat)
    requires t != "" && t[0] <= '9' && Ends(rest) && pos <= |t|
    ensures DecodeRun(t + rest, pos, acc).1 == |t| <==> forall i :: pos <= i < |t| ==> t[i] >= '0'
    ensures DecodeRun(t + rest, pos, acc).1 < |t| ==> t[DecodeRun(t + rest, pos, acc).1] < '0'
    ensures DecodeRun(t + rest, pos, acc).1 <= |t|
    decreases |t| - pos
  {
    if pos < |t| && t[pos] >= '0' {
      DecodeRunStops(t, rest, pos + 1, (10 * acc + (t[pos] as int - '0' as int)) % SIZE_T);
    }
  }

  /** Exactly when the index decoder reads a token as RFC 6901 does (tokens hold no NUL and no '/'). */
  lemma DecodeIndexExact(t: string, rest: string)
    requires Ends(rest) && forall i :: 0 <= i < |t| ==> t[i] != '/' && t[i] != NUL
    ensures DecodeIndex(t + rest) == RfcIndex(t) <==> IndexAgrees(t)
  {
    var p := t + rest;
    if t == "" {
      assert DecodeIndex(p) == Some(0);
    } else if t[0] == '0' {
      if |t| == 1 {
        assert t[..0] == "";
        assert DigitsValue(t) == 0;
        assert DecodeRun(p, 1, 0) == (0, 1);
      }
    } else if t[0] < '1' || t[0] > '9' {
      assert DecodeRun(p, 0, 0) == (0, 0);
      assert p[0] == t[0];
    } else {
      DecodeRunStops(t, rest, 0, 0);
      var r := DecodeRun(p, 0, 0);
      assert r.1 < |t| ==> p[r.1] == t[r.1];
      if Digits(t) {
        assert t[..0] == "";
        DecodeRunDigits(t, rest, 0);
      }
    }
  }

  /** The decimal text of an index that fits `size_t` is read back as that index. */
  lemma DecodeDecimal(n: nat, rest: string)
    requires n < SIZE_T && Ends(rest)
    ensures DecodeIndex(Decimal(n) + rest) == Some(n)
  {
    DecimalValue(n);
    DecodeIndexExact(Decimal(n), rest);
  }

  // ---------------------------------------------------------------- the lookup theorem

  lemma RenderTail(tokens: seq<string>)
    requires tokens != []
    ensures Render(tokens) != "" && Render(tokens)[0] == '/'
    ensures Render(tokens)[1..] == Escape(tokens[0]) + Render(tokens[1..])
  {
    PathTail(Escape(tokens[0]), Render(tokens[1..]));
  }

  lemma PathTail(token: string, rest: string)
    ensures "/" + token + rest == "/" + (token + rest)
    ensures ("/" + token + rest)[0] == '/' && ("/" + token + rest)[1..] == token + rest
  {
    AppendAssociates("/", token, rest);
    ConsTail('/', token + rest);
  }

  lemma {:induction false} RenderStart(tokens: seq<string>)
    ensures Ends(Render(tokens))
  {
  }

  /** The child that the code selects with one token: where it misreads an index, the value it weighs the text to. */
  function ReadStep(j: Json, token: string): (r: Option<nat>)
    ensures r.Some? ==> HasChild(j, r.value)
  {
    if !j.Array? || IndexAgrees(Escape(token)) then ResolveStep(j, token)
    else
      var n := DigitsValue(Escape(token)) % SIZE_T;
      if n < |j.items| then Some(n) else None
  }

  /** The node the code selects with a token path. */
  function Read(j: Json, tokens: seq<string>): (r: Option<Address>)
    decreases |tokens|
  {
    if tokens == [] then Some([])
    else
      var i := ReadStep(j, tokens[0]);
      if i == None then None
      else After([i.value], Read(Child(j, i.value), tokens[1..]))
  }

  /** The decoder takes a text that is no index below 2^64 for a number, and the array has an item of that number. */
  predicate Misread(j: Json, token: string) {
    j.Array? && !IndexAgrees(Escape(token)) && DigitsValue(Escape(token)) % SIZE_T < |j.items|
  }

  /** A misread token is what makes a step select a child other than the one RFC 6901 means, and it always does. */
  lemma MisreadExactly(j: Json, token: string)
    ensures ReadStep(j, token) != ResolveStep(j, token) <==> Misread(j, token)
    ensures Misread(j, token) ==> ReadStep(j, token) == Some(DigitsValue(Escape(token)) % SIZE_T)
    ensures Misread(j, token) && |j.items| <= SIZE_T ==> ResolveStep(j, token) == None
  {
    EscapeDigits(token);
  }

  /** No token is misread, or neither behind the first that is nor behind the child it means is there a node. */
  predicate FollowsRfc(j: Json, tokens: seq<string>)
    decreases |tokens|
  {
    tokens == [] ||
    var meant := ResolveStep(j, tokens[0]);
    if !Misread(j, tokens[0]) then meant == None || FollowsRfc(Child(j, meant.value), tokens[1..])
    else
      Read(j.items[DigitsValue(Escape(tokens[0])) % SIZE_T], tokens[1..]) == None &&
      (meant == None || Resolve(Child(j, meant.value), tokens[1..]) == None)
  }

  /**
   `get_item_from_pointer`, matching case, on the RFC 6901 text of a token path: which node it returns, or none;
   keys may hold '~' and '/'.
   */
  lemma {:induction false} LookupReads(j: Json, tokens: seq<string>)
    requires forall token :: token in tokens ==> NUL !in token
    ensures Locate(j, Render(tokens), true) == Read(j, tokens)
    decreases |tokens|
  {
    if tokens != [] {
      var text, rest := Escape(tokens[0]), Render(tokens[1..]);
      RenderStart(tokens[1..]);
      EscapeHasNoSlash(tokens[0]);
      RenderTail(tokens);
      SkipsToken(text, rest);
      StepReads(j, tokens[0], rest);
      var i := ReadStep(j, tokens[0]);
      assert Locate(j, Render(tokens), true) ==
        if i == None then None else After([i.value], Locate(Child(j, i.value), rest, true));
      if i != None {
        LookupReads(Child(j, i.value), tokens[1..]);
      }
    }
  }

  lemma AfterOne(i: nat, a: Option<Address>, k: nat, b: Option<Address>)
    ensures After([i], a) == After([k], b) <==> (a == None && b == None) || (i == k && a == b)
  {
    if a != None && b != None && After([i], a) == After([k], b) {
      ConsTail(i, a.value);
      ConsTail(k, b.value);
    }
  }

  /** It is the node the tokens select by RFC 6901, or none when there is none, exactly under that condition. */
  lemma {:induction false} LookupFollowsTokens(j: Json, tokens: seq<string>)
    requires forall token :: token in tokens ==> NUL !in token
    ensures Locate(j, Render(tokens), true) == Resolve(j, tokens) <==> FollowsRfc(j, tokens)
    decreases |tokens|
  {
    LookupReads(j, tokens);
    if tokens != [] {
      var read, meant := ReadStep(j, tokens[0]), ResolveStep(j, tokens[0]);
      MisreadExactly(j, tokens[0]);
      if read != None {
        LookupReads(Child(j, read.value), tokens[1..]);
        LookupFollowsTokens(Child(j, read.value), tokens[1..]);
      }
      if read != None && meant != None {
        AfterOne(read.value, Read(Child(j, read.value), tokens[1..]),
                 meant.value, Resolve(Child(j, meant.value), tokens[1..]));
      }
    }
  }

  /** One token on an array: right exactly where the text is read rightly or its number lies past the last item. */
  lemma OneIndex(items: seq<Json>, token: string)
    requires NUL !in token
    ensures Locate(Array(items), Render([token]), true) == Resolve(Array(items), [token]) <==>
      IndexAgrees(Escape(token)) || DigitsValue(Escape(token)) % SIZE_T >= |items|
  {
    LookupFollowsTokens(Array(items), [token]);
    assert [token][1..] == [];
  }

  /** In particular where the decoder reads every index as RFC 6901 does. */
  lemma {:induction false} AgreeingIndices(j: Json, tokens: seq<string>)
    requires IndicesAgree(j, tokens)
    ensures FollowsRfc(j, tokens)
    decreases |tokens|
  {
    if tokens != [] && ResolveStep(j, tokens[0]) != None {
      assert !Misread(j, tokens[0]);
      AgreeingIndices(Child(j, ResolveStep(j, tokens[0]).value), tokens[1..]);
    }
  }

  /** A lookup that goes wrong: "/" finds the first item of an array, where RFC 6901 finds nothing. */
  lemma EmptyTokenFindsFirst()
    ensures var doc := Array([Null]);
      Render([""]) == "/" && Locate(doc, "/", true) == Some([0]) && Resolve(doc, [""]) == None &&
      !FollowsRfc(doc, [""])
  {
    var doc := Array([Null]);
    assert [""][1..] == [] && Render([]) == "" && Escape("") == "";
    assert "/" + "" + "" == "/";
    assert ReadStep(doc, "") == Some(0) && Read(Null, []) == Some([]);
    assert [0] + [] == [0];
    LookupReads(doc, [""]);
  }

  lemma StepReads(j: Json, token: string, rest: string)
    requires Ends(rest) && NUL !in token
    ensures ChildAt(j, Escape(token) + rest, true) == ReadStep(j, token)
  {
    if j.Array? {
      IndexReads(token, rest);
    } else if j.Object? {
      KeyReads(j.members, token, rest);
    }
  }

  lemma {:induction false} KeyReads(ms: seq<Member>, token: string, rest: string)
    requires Ends(rest)
    ensures FirstMatch(ms, Escape(token) + rest, true) == IndexOf(ms, token)
  {
    if ms != [] {
      MatchesEscaped(ms[0].key, token, rest);
      KeyReads(ms[1..], token, rest);
    }
  }

  lemma IndexReads(token: string, rest: string)
    requires Ends(rest) && NUL !in token
    ensures var t := Escape(token);
      DecodeIndex(t + rest) == if IndexAgrees(t) then RfcIndex(token) else Some(DigitsValue(t) % SIZE_T)
  {
    var t := Escape(token);
    EscapeHasNoSlash(token);
    EscapeHasNoNul(token);
    EscapeDigits(token);
    if IndexAgrees(t) {
      DecodeIndexExact(t, rest);
    } else {
      MisreadIndex(t, rest);
    }
  }

  /** The texts that the decoder misreads are read to their end. */
  lemma MisreadIndex(t: string, rest: string)
    requires Ends(rest) && !IndexAgrees(t)
    ensures DecodeIndex(t + rest) == Some(DigitsValue(t) % SIZE_T)
  {
    if t == "" {
      assert t + rest == rest;
    } else {
      assert t[..0] == "" && (t + rest)[0] == t[0];
      DecodeRunDigits(t, rest, 0);
    }
  }

  lemma {:induction false} EscapeHasNoNul(token: string)
    requires forall i :: 0 <= i < |token| ==> token[i] != NUL
    ensures forall i :: 0 <= i < |Escape(token)| ==> Escape(token)[i] != NUL
  {
    if token != "" {
      EscapeHasNoNul(token[1..]);
    }
  }

  /** Escaping changes no text that is an index and makes no index out of another text. */
  lemma {:induction false} EscapeDigits(token: string)
    ensures Digits(Escape(token)) <==> Digits(token)
    ensures Digits(token) ==> Escape(token) == token
  {
    if token != "" {
      EscapeDigits(token[1..]);
      assert token == [token[0]] + token[1..];
      DigitsSum([token[0]], token[1..]);
      DigitsSum(EscapeByte(token[0]), Escape(token[1..]));
      assert token[0] == '~' || token[0] == '/' ==> EscapeByte(token[0])[0] == '~';
    }
  }

  lemma DigitsSum(a: string, b: string)
    ensures Digits(a + b) <==> Digits(a) && Digits(b)
  {
    if Digits(a + b) {
      assert forall i :: 0 <= i < |a| ==> a[i] == (a + b)[i];
      assert forall i :: 0 <= i < |b| ==> b[i] == (a + b)[|a| + i];
    }
  }

  /** Decimal text of any size is read modulo 2^64. */
  lemma DecodeWraps(n: nat)
    ensures DecodeIndex(Decimal(n)) == Some(n % SIZE_T) && RfcIndex(Decimal(n)) == Some(n)
  {
    var d := Decimal(n);
    DecimalValue(n);
    assert d + "" == d && d[..0] == "" && DigitsValue("") == 0;
    DecodeRunDigits(d, "", 0);
    assert DecodeRun(d, 0, 0) == (n % SIZE_T, |d|) && At(d, |d|) == NUL;
    assert d[0] == '0' ==> At(d, 1) == NUL;
  }

  /** The other two ways the decoder departs, on smallest examples. */
  lemma DecodeIndexCounterexamples()
    ensures DecodeIndex("") == Some(0) && RfcIndex("") == None
    ensures DecodeIndex("1:") == Some(20) && RfcIndex("1:") == None
  {
    var t := "1:";
    assert DecodeRun(t, 2, 20) == (20, 2);
    assert DecodeRun(t, 1, 1) == (20, 2);
    assert !('0' <= t[1] <= '9');
  }
}
