/**
 C strings. A string is the sequence of bytes before the terminating NUL; each byte is a `char`.
 Reading one place past the last byte reads the terminator.
 */
module CStrings {

  const NUL: char := '\0'

  /** 2^64: `size_t` arithmetic is modulo this number. */
  const SIZE_T: nat := 0x1_0000_0000_0000_0000

  /** The byte a pointer to position i of s reads. */
  function At(s: string, i: nat): char {
    if i < |s| then s[i] else NUL
  }

  /** `tolower` in the C locale. */
  function ToLower(c: char): char {
    if 'A' <= c <= 'Z' then ((c as int) + 32) as char else c
  }

  function Lower(s: string): (r: string) {
    seq(|s|, i requires 0 <= i < |s| => ToLower(s[i]))
  }

  /** The string a comparison looks at: itself, or its lower-case form when case is ignored. */
  function Fold(s: string, caseSensitive: bool): string {
    if caseSensitive then s else Lower(s)
  }

  /** The sign of `strcmp`: bytes compared as unsigned numbers, the terminator being the smallest. */
  function StrCmp(a: string, b: string): int {
    if a == "" && b == "" then 0
    else if a == "" then -1
    else if b == "" then 1
    else if a[0] < b[0] then -1
    else if b[0] < a[0] then 1
    else StrCmp(a[1..], b[1..])
  }

  /** `compare_strings` on two non-NULL strings. */
  function CompareStrings(a: string, b: string, caseSensitive: bool): int {
    StrCmp(Fold(a, caseSensitive), Fold(b, caseSensitive))
  }

  lemma {:induction false} StrCmpZero(a: string, b: string)
    ensures StrCmp(a, b) == 0 <==> a == b
  {
    if a != "" && b != "" && a[0] == b[0] {
      StrCmpZero(a[1..], b[1..]);
      assert a == [a[0]] + a[1..] && b == [b[0]] + b[1..];
    }
  }

  lemma {:induction false} StrCmpAntisymmetric(a: string, b: string)
    ensures StrCmp(a, b) == -StrCmp(b, a)
  {
    if a != "" && b != "" && a[0] == b[0] {
      StrCmpAntisymmetric(a[1..], b[1..]);
    }
  }

  lemma {:induction false} StrCmpTransitive(a: string, b: string, c: string)
    requires StrCmp(a, b) <= 0 && StrCmp(b, c) <= 0
    ensures StrCmp(a, c) <= 0
    ensures StrCmp(a, b) < 0 || StrCmp(b, c) < 0 ==> StrCmp(a, c) < 0
  {
    if a != "" && b != "" && c != "" && a[0] == b[0] && b[0] == c[0] {
      StrCmpTransitive(a[1..], b[1..], c[1..]);
    }
  }

  /** The first place where a and b differ is k, and a has the smaller byte there. */
  predicate SmallerAt(a: string, b: string, k: nat) {
    k < |a| && k < |b| && a[..k] == b[..k] && a[k] < b[k]
  }

  /** a is a proper prefix of b, or at the first place where they differ a has the smaller byte. */
  predicate Precedes(a: string, b: string) {
    (|a| < |b| && b[..|a|] == a) || exists k :: 0 <= k < |a| && SmallerAt(a, b, k)
  }

  /** `strcmp` orders strings by their bytes, a prefix first. */
  lemma {:induction false} StrCmpOrders(a: string, b: string)
    ensures StrCmp(a, b) < 0 <==> Precedes(a, b)
    ensures StrCmp(a, b) > 0 <==> Precedes(b, a)
  {
    if a != "" && b != "" {
      if a[0] == b[0] {
        StrCmpOrders(a[1..], b[1..]);
        PrecedesTail(a, b);
        PrecedesTail(b, a);
      } else if a[0] < b[0] {
        assert SmallerAt(a, b, 0);
        NotPrecedes(b, a);
      } else {
        assert SmallerAt(b, a, 0);
        NotPrecedes(a, b);
      }
    }
  }

  lemma ConsPrefix(x: char, a: string, b: string)
    ensures ([x] + b)[..|a| + 1] == [x] + b[..|a|] <== |a| <= |b|
    ensures [x] + a == [x] + b <==> a == b
  {
    assert ([x] + a)[1..] == a && ([x] + b)[1..] == b;
  }

  lemma PrefixTail(a: string, b: string)
    requires a != "" && b != "" && a[0] == b[0] && |a| < |b|
    ensures b[..|a|] == a <==> b[1..][..|a| - 1] == a[1..]
  {
    assert a == [a[0]] + a[1..];
    assert b[..|a|] == [b[0]] + b[1..][..|a| - 1];
    ConsPrefix(a[0], b[1..][..|a| - 1], a[1..]);
  }

  lemma SmallerTail(a: string, b: string, k: nat)
    requires a != "" && b != "" && a[0] == b[0]
    ensures SmallerAt(a, b, k + 1) <==> SmallerAt(a[1..], b[1..], k)
  {
    if k + 1 < |a| && k + 1 < |b| {
      assert a[..k + 1] == [a[0]] + a[1..][..k] && b[..k + 1] == [b[0]] + b[1..][..k];
      ConsPrefix(a[0], a[1..][..k], b[1..][..k]);
    }
  }

  lemma PrecedesTail(a: string, b: string)
    requires a != "" && b != "" && a[0] == b[0]
    ensures Precedes(a, b) <==> Precedes(a[1..], b[1..])
  {
    var c, d := a[1..], b[1..];
    if |a| < |b| {
      PrefixTail(a, b);
    }
    if k :| 0 <= k < |a| && SmallerAt(a, b, k) {
      SmallerTail(a, b, k - 1);
      assert SmallerAt(c, d, k - 1);
    }
    if k :| 0 <= k < |c| && SmallerAt(c, d, k) {
      SmallerTail(a, b, k);
      assert SmallerAt(a, b, k + 1);
    }
  }

  lemma SameFront(a: string, b: string, k: nat)
    requires 0 < k <= |a| && k <= |b| && a[..k] == b[..k]
    ensures a[0] == b[0]
  {
    assert a[..k][0] == a[0] && b[..k][0] == b[0];
  }

  lemma NotPrecedes(a: string, b: string)
    requires a != "" && b != "" && a[0] > b[0]
    ensures !Precedes(a, b)
  {
    assert |a| < |b| ==> b[..|a|][0] == b[0];
    forall k | 0 <= k < |a|
      ensures !SmallerAt(a, b, k)
    {
      if 0 < k < |b| && a[..k] == b[..k] {
        SameFront(a, b, k);
      }
    }
  }

  const UPPER_LETTERS: string := "ABCDEFGHIJKLMNOPQRSTUVWXYZ"
  const LOWER_LETTERS: string := "abcdefghijklmnopqrstuvwxyz"

  /** Ignoring case replaces each of the 26 capital letters by its small letter. */
  lemma LetterLowered(i: nat)
    requires i < 26
    ensures |UPPER_LETTERS| == |LOWER_LETTERS| == 26 && ToLower(UPPER_LETTERS[i]) == LOWER_LETTERS[i]
  {
  }

  /** It replaces nothing else. */
  lemma OthersKept(c: char)
    requires c !in UPPER_LETTERS
    ensures ToLower(c) == c
  {
    if 'A' <= c <= 'Z' {
      CapitalIs(c);
    }
  }

  lemma CapitalIs(c: char)
    requires 'A' <= c <= 'Z'
    ensures c in UPPER_LETTERS
  {
    assert UPPER_LETTERS[c as int - 'A' as int] == c;
  }

  /** `compare_strings` orders strings so once both are folded. */
  lemma CompareOrders(a: string, b: string, caseSensitive: bool)
    ensures CompareStrings(a, b, caseSensitive) < 0 <==> Precedes(Fold(a, caseSensitive), Fold(b, caseSensitive))
    ensures CompareStrings(a, b, caseSensitive) > 0 <==> Precedes(Fold(b, caseSensitive), Fold(a, caseSensitive))
    ensures CompareStrings(a, b, caseSensitive) == 0 <==> Fold(a, caseSensitive) == Fold(b, caseSensitive)
    ensures |Fold(a, caseSensitive)| == |a|
    ensures forall i :: 0 <= i < |a| ==> Fold(a, caseSensitive)[i] == if caseSensitive then a[i] else ToLower(a[i])
  {
    StrCmpOrders(Fold(a, caseSensitive), Fold(b, caseSensitive));
    StrCmpZero(Fold(a, caseSensitive), Fold(b, caseSensitive));
  }

  /** `compare_strings` walks both strings side by side until two bytes differ. */
  method CompareStringsLoop(a: string, b: string, caseSensitive: bool) returns (r: int)
    requires forall i :: 0 <= i < |a| ==> a[i] != NUL
    requires forall i :: 0 <= i < |b| ==> b[i] != NUL
    ensures r == CompareStrings(a, b, caseSensitive)
  {
    var i := 0;
    ghost var fa, fb := Fold(a, caseSensitive), Fold(b, caseSensitive);
    while Fold([At(a, i)], caseSensitive) == Fold([At(b, i)], caseSensitive)
      invariant 0 <= i <= |a| && i <= |b|
      invariant StrCmp(fa, fb) == StrCmp(fa[i..], fb[i..])
      decreases |a| - i
    {
      assert Fold([At(a, i)], caseSensitive)[0] == Fold([At(b, i)], caseSensitive)[0];
      if At(a, i) == NUL {
        return 0;
      }
      assert i < |a| && i < |b| && fa[i] == fb[i];
      assert fa[i..][1..] == fa[i + 1..] && fb[i..][1..] == fb[i + 1..];
      i := i + 1;
    }
    var x, y := Fold([At(a, i)], caseSensitive)[0], Fold([At(b, i)], caseSensitive)[0];
    assert x != y;
    r := if x < y then -1 else 1;
  }

  /** The decimal digits of n, as `%lu` prints them. */
  function Decimal(n: nat): (r: string)
    ensures r != ""
    ensures forall i :: 0 <= i < |r| ==> '0' <= r[i] <= '9'
    ensures r[0] == '0' <==> n == 0
    ensures n == 0 ==> r == "0"
  {
    if n < 10 then [Digit(n)] else Decimal(n / 10) + [Digit(n % 10)]
  }

  predicate Digits(s: string) {
    forall i :: 0 <= i < |s| ==> '0' <= s[i] <= '9'
  }

  /** The value of decimal digits; any other byte weighs its distance from '0'. */
  function DigitsValue(s: string): (v: int)
    ensures (forall i :: 0 <= i < |s| ==> s[i] >= '0') ==> v >= 0
  {
    if s == "" then 0 else 10 * DigitsValue(s[..|s| - 1]) + (s[|s| - 1] as int - '0' as int)
  }

  lemma {:induction false} DecimalValue(n: nat)
    ensures Digits(Decimal(n)) && DigitsValue(Decimal(n)) == n
    ensures |Decimal(n)| == 1 || Decimal(n)[0] != '0'
  {
    var t := Decimal(n);
    if n < 10 {
      assert t[..0] == "";
    } else {
      DecimalValue(n / 10);
      assert t[..|t| - 1] == Decimal(n / 10);
    }
  }

  function Digit(d: nat): (c: char)
    requires d < 10
    ensures '0' <= c <= '9' && c as int == d + '0' as int
  {
    (d + '0' as int) as char
  }

  /** The position of the last '/' (`strrchr`), if there is one. */
  function LastSlash(s: string): (r: int)
    ensures -1 <= r < |s|
    ensures 0 <= r ==> s[r] == '/'
    ensures forall i :: r < i < |s| ==> s[i] != '/'
  {
    if s == "" then -1
    else if s[|s| - 1] == '/' then |s| - 1
    else LastSlash(s[..|s| - 1])
  }

  lemma LastSlashIs(s: string, k: nat)
    requires k < |s| && s[k] == '/' && forall i :: k < i < |s| ==> s[i] != '/'
    ensures LastSlash(s) == k
  {
    assert !(LastSlash(s) < k);
  }

  /** The C string that starts at the front of a block of memory. */
  function CStr(mem: seq<char>): (s: string)
    ensures NUL !in s
  {
    if mem == [] || mem[0] == NUL then "" else [mem[0]] + CStr(mem[1..])
  }

  lemma {:induction false} CStrOf(s: string, rest: seq<char>)
    requires NUL !in s
    ensures CStr(s + [NUL] + rest) == s
  {
    var mem := s + [NUL] + rest;
    if s != "" {
      assert mem[1..] == s[1..] + [NUL] + rest;
      CStrOf(s[1..], rest);
    }
  }

  lemma CStrWhole(s: string)
    requires NUL !in s
    ensures CStr(s) == s
  {
    CStrOf(s, []);
    CStrCut(s, [NUL]);
    assert s + [NUL] + [] == s + [NUL];
  }

  lemma {:induction false} CStrCut(s: string, rest: seq<char>)
    requires NUL !in s && rest != [] && rest[0] == NUL
    ensures CStr(s + rest) == CStr(s) == s
  {
    if s != "" {
      assert (s + rest)[1..] == s[1..] + rest;
      CStrCut(s[1..], rest);
    }
  }
}
