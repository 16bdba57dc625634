/**
 Writing a key into a JSON pointer (`encode_string_as_pointer`, `compose_patch`) and reading one back
 (`decode_pointer_inplace`), as memory operations: both leave some bytes as they found them.
 */
module PointerEncoding {
  import opened CStrings
  import opened Seqs
  import opened Pointers

  /** `pointer_encoded_length`. */
  function EncodedLength(source: string): (n: nat)
    ensures n >= |source|
  {
    if source == "" then 0
    else (if source[0] == '~' || source[0] == '/' then 2 else 1) + EncodedLength(source[1..])
  }

  /**
   The memory at the destination after encoding. For a '/' only the second of its two bytes is written;
   a '~' is written "~1".
   */
  function Encoded(source: string, mem: seq<char>): (r: seq<char>)
    requires |mem| > EncodedLength(source)
    ensures |r| == |mem|
    decreases |source|
  {
    if source == "" then [NUL] + mem[1..]
    else if source[0] == '/' then [mem[0], '1'] + Encoded(source[1..], mem[2..])
    else if source[0] == '~' then ['~', '1'] + Encoded(source[1..], mem[2..])
    else [source[0]] + Encoded(source[1..], mem[1..])
  }

  /** What one byte of the key leaves at the front of mem. */
  function EncodedHead(c: char, mem: seq<char>): seq<char>
    requires mem != []
  {
    if c == '/' then [mem[0], '1'] else if c == '~' then ['~', '1'] else [c]
  }

  lemma EncodedStep(source: string, mem: seq<char>)
    requires source != "" && |mem| > EncodedLength(source)
    ensures var head := EncodedHead(source[0], mem);
      EncodedLength(source) == |head| + EncodedLength(source[1..]) &&
      Encoded(source, mem) == head + Encoded(source[1..], mem[|head|..])
  {
  }

  method EncodeByte(destination: array<char>, d: nat, c: char) returns (h: nat)
    requires d + 2 <= destination.Length
    modifies destination
    ensures h == |EncodedHead(c, old(destination[d..]))|
    ensures destination[..d + h] == old(destination[..d] + EncodedHead(c, destination[d..]))
    ensures destination[d + h..] == old(destination[d..])[h..]
  {
    h := 1;
    if c == '/' {
      destination[d + 1] := '1';
      h := 2;
    } else if c == '~' {
      destination[d] := '~';
      destination[d + 1] := '1';
      h := 2;
    } else {
      destination[d] := c;
    }
  }

  /** One turn of the loop: the head of what is left moves to what is done. */
  lemma EncodedTurn(done: seq<char>, left: string, rest: seq<char>)
    requires left != "" && |rest| > EncodedLength(left)
    ensures var head := EncodedHead(left[0], rest);
      |rest| - |head| > EncodedLength(left[1..])
      && done + Encoded(left, rest) == (done + head) + Encoded(left[1..], rest[|head|..])
  {
    EncodedStep(left, rest);
    AppendAssociates(done, EncodedHead(left[0], rest), Encoded(left[1..], rest[|EncodedHead(left[0], rest)|..]));
  }

  lemma SuffixTail<T>(s: seq<T>, i: nat)
    requires i < |s|
    ensures s[i..] != [] && s[i..][0] == s[i] && s[i..][1..] == s[i + 1..]
  {
  }

  method EncodeStringAsPointer(destination: array<char>, start: nat, source: string)
    requires start <= destination.Length && destination.Length - start > EncodedLength(source)
    modifies destination
    ensures destination[..] == old(destination[..start] + Encoded(source, destination[start..]))
  {
    var s, d := 0, start;
    ghost var result := destination[..start] + Encoded(source, destination[start..]);
    assert source[0..] == source;
    while s < |source|
      invariant 0 <= s <= |source| && start <= d && destination.Length - d > EncodedLength(source[s..])
      invariant result == destination[..d] + Encoded(source[s..], destination[d..])
    {
      SuffixTail(source, s);
      EncodedTurn(destination[..d], source[s..], destination[d..]);
      var h := EncodeByte(destination, d, source[s]);
      d, s := d + h, s + 1;
    }
    Terminate(destination, d, source[s..]);
  }

  method Terminate(destination: array<char>, d: nat, ghost left: string)
    requires d < destination.Length && left == ""
    modifies destination
    ensures destination[..] == old(destination[..d] + Encoded(left, destination[d..]))
  {
    destination[d] := NUL;
  }

  /** Keys that both coders copy byte for byte. */
  predicate PlainKey(k: string) {
    forall i :: 0 <= i < |k| ==> k[i] != '~' && k[i] != '/' && k[i] != NUL
  }

  lemma {:induction false} EncodedPlain(source: string, mem: seq<char>)
    requires |mem| > EncodedLength(source) && PlainKey(source)
    ensures CStr(Encoded(source, mem)) == source
  {
    if source != "" {
      EncodedPlain(source[1..], mem[1..]);
    }
  }

  /** The memory already held the byte that the coder forgets to write in front of each '/'. */
  predicate FilledIn(key: string, mem: seq<char>)
    requires |mem| > EncodedLength(key)
    decreases |key|
  {
    if key == "" then true
    else if key[0] == '~' then false
    else if key[0] == '/' then mem[0] == '~' && FilledIn(key[1..], mem[2..])
    else FilledIn(key[1..], mem[1..])
  }

  /**
   Exactly when the encoded key selects that key again: it holds no '~', and the memory happened to hold
   '~' wherever a '/' goes.
   */
  lemma {:induction false} EncodedKeyMatches(key: string, mem: seq<char>)
    requires NUL !in key && |mem| > EncodedLength(key)
    ensures TokenMatches(key, CStr(Encoded(key, mem)), true) <==> FilledIn(key, mem)
    decreases |key|
  {
    if key != "" {
      var t := CStr(Encoded(key, mem));
      if key[0] == '/' {
        var tail := Encoded(key[1..], mem[2..]);
        assert Encoded(key, mem)[1..] == ['1'] + tail;
        if mem[0] != NUL {
          assert t == [mem[0]] + CStr(['1'] + tail);
          assert (['1'] + tail)[1..] == tail;
          assert t == [mem[0], '1'] + CStr(tail);
          EncodedKeyMatches(key[1..], mem[2..]);
          assert t[1..][1..] == CStr(tail);
          assert [key[0]][0] == '/' && [t[0]][0] == t[0];
        }
      } else if key[0] == '~' {
        var tail := Encoded(key[1..], mem[2..]);
        assert Encoded(key, mem)[1..] == ['1'] + tail;
        assert t == ['~'] + CStr(['1'] + tail);
        assert t[1] == '1';
      } else {
        EncodedKeyMatches(key[1..], mem[1..]);
        assert Encoded(key, mem)[1..] == Encoded(key[1..], mem[1..]);
        assert t == [key[0]] + CStr(Encoded(key[1..], mem[1..]));
      }
    }
  }

  /** Fresh memory of the size `compose_patch` asks for: a terminator from `sprintf`, then leftovers. */
  function Leftover(suffix: string, junk: char): (mem: seq<char>)
    ensures |mem| > EncodedLength(suffix)
  {
    [NUL] + seq(EncodedLength(suffix), _ => junk)
  }

  /** The path `compose_patch` writes for a member or item below path. */
  function ComposedPath(path: string, suffix: string, junk: char): string {
    path + "/" + CStr(Encoded(suffix, Leftover(suffix, junk)))
  }

  method ComposePath(path: string, suffix: string, junk: char) returns (full: string)
    ensures full == ComposedPath(path, suffix, junk)
  {
    var n := |path| + 1 + EncodedLength(suffix) + 1;
    var mem := new char[n](_ => junk);
    forall i | 0 <= i < |path| {
      mem[i] := path[i];
    }
    mem[|path|] := '/';
    var k := |path| + 1;
    mem[k] := NUL;
    assert mem[..k] == path + "/";
    assert mem[k..] == Leftover(suffix, junk);
    EncodeStringAsPointer(mem, k, suffix);
    assert mem[k..] == Encoded(suffix, Leftover(suffix, junk));
    var text := ReadString(mem, k);
    full := path + "/" + text;
  }

  method ReadString(mem: array<char>, start: nat) returns (s: string)
    requires start <= mem.Length
    ensures s == CStr(mem[start..])
  {
    s := "";
    var i := start;
    while i < mem.Length && mem[i] != NUL
      invariant start <= i <= mem.Length
      invariant CStr(mem[start..]) == s + CStr(mem[i..])
    {
      assert mem[i..][0] == mem[i] && mem[i..][1..] == mem[i + 1..];
      s := s + [mem[i]];
      i := i + 1;
    }
  }

  // ---------------------------------------------------------------- decoding

  /**
   The memory of a string after in-place decoding from read position r with write position w. Ordinary
   bytes are not moved; an unknown escape stops the work without writing a terminator.
   */
  function Decoded(mem: seq<char>, w: nat, r: nat): (m: seq<char>)
    requires w <= r < |mem| && mem[|mem| - 1] == NUL
    ensures |m| == |mem|
    decreases |mem| - r
  {
    if mem[r] == NUL then mem[w := NUL]
    else if mem[r] == '~' && mem[r + 1] == '0' then Decoded(mem[w := '~'], w + 1, r + 2)
    else if mem[r] == '~' && mem[r + 1] == '1' then Decoded(mem[w + 1 := '/'], w + 1, r + 2)
    else if mem[r] == '~' then mem
    else Decoded(mem, w + 1, r + 1)
  }

  method DecodePointerInplace(mem: array<char>)
    requires mem.Length > 0 && mem[mem.Length - 1] == NUL
    modifies mem
    ensures mem[..] == Decoded(old(mem[..]), 0, 0)
  {
    var w, r := 0, 0;
    while mem[r] != NUL
      invariant w <= r < mem.Length && mem[mem.Length - 1] == NUL
      invariant Decoded(old(mem[..]), 0, 0) == Decoded(mem[..], w, r)
      decreases mem.Length - r
    {
      ghost var before := mem[..];
      if mem[r] == '~' {
        if mem[r + 1] == '0' {
          mem[w] := '~';
          assert mem[..] == before[w := '~'];
        } else if mem[r + 1] == '1' {
          mem[w + 1] := '/';
          assert mem[..] == before[w + 1 := '/'];
        } else {
          return;
        }
        r := r + 1;
      }
      w, r := w + 1, r + 1;
    }
    ghost var before := mem[..];
    mem[w] := NUL;
    assert mem[..] == before[w := NUL];
  }

  /** The child token after decoding. */
  function DecodedText(s: string): string {
    CStr(Decoded(s + [NUL], 0, 0))
  }

  lemma {:induction false} DecodedPlainFrom(s: string, r: nat)
    requires NUL !in s && '~' !in s && r <= |s|
    ensures Decoded(s + [NUL], r, r) == s + [NUL]
    decreases |s| - r
  {
    var mem := s + [NUL];
    if r < |s| {
      assert mem[r] == s[r];
      DecodedPlainFrom(s, r + 1);
    }
  }

  lemma DecodedPlain(s: string)
    requires NUL !in s && '~' !in s
    ensures DecodedText(s) == s
  {
    DecodedPlainFrom(s, 0);
    CStrOf(s, []);
    assert s + [NUL] + [] == s + [NUL];
  }

  lemma {:induction false} BrokenFrom(s: string, k: nat, r: nat)
    requires NUL !in s && r <= k < |s| && s[k] == '~' && At(s, k + 1) != '0' && At(s, k + 1) != '1'
    requires forall i :: 0 <= i < k ==> s[i] != '~'
    ensures Decoded(s + [NUL], r, r) == s + [NUL]
    decreases k - r
  {
    var mem := s + [NUL];
    assert mem[r] == s[r] && s[r] in s;
    if r < k {
      BrokenFrom(s, k, r + 1);
    } else {
      assert mem[k + 1] == At(s, k + 1);
    }
  }

  /** A token whose first escape is malformed stays as it is. */
  lemma DecodedBroken(s: string, k: nat)
    requires NUL !in s && k < |s| && s[k] == '~' && At(s, k + 1) != '0' && At(s, k + 1) != '1'
    requires forall i :: 0 <= i < k ==> s[i] != '~'
    ensures DecodedText(s) == s
  {
    BrokenFrom(s, k, 0);
    CStrOf(s, []);
    assert s + [NUL] + [] == s + [NUL];
  }

  /** A key that starts with '/', and one with '~' in the middle, are not read back. */
  lemma CoderCounterexamples()
    ensures ComposedPath("", "/a", 'x') == "/"
    ensures DecodedText("~1") == "~" && DecodedText("~0a") == "~0"
  {
    var mem := Leftover("/a", 'x');
    assert EncodedLength("/a") == 2 + EncodedLength("a") && EncodedLength("a") == 1 + EncodedLength("");
    assert Encoded("/a", mem)[0] == NUL;
    assert CStr(Encoded("/a", mem)) == "";
    var one := "~1" + [NUL];
    assert Decoded(one, 0, 0) == Decoded(one[1 := '/'], 1, 2) == ['~', NUL, NUL];
    var two := "~0a" + [NUL];
    assert two[0 := '~'] == two && two[2 := NUL] == ['~', '0', NUL, NUL];
    assert Decoded(two, 0, 0) == Decoded(two, 1, 2) == Decoded(two, 2, 3) == ['~', '0', NUL, NUL];
    CStrOf("~", [NUL]);
    CStrOf("~0", [NUL]);
    assert "~" + [NUL] + [NUL] == ['~', NUL, NUL];
    assert "~0" + [NUL] + [NUL] == ['~', '0', NUL, NUL];
  }
}
