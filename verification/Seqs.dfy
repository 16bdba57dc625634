/** Ways of cutting a sequence. */
module Seqs {

  lemma HeadTail<T>(s: seq<T>)
    requires s != []
    ensures s == [s[0]] + s[1..]
  {
  }

  lemma Single<T>(s: seq<T>)
    requires |s| == 1
    ensures s == [s[0]] && s[1..] == []
  {
  }

  lemma CutAt<T>(s: seq<T>, k: nat)
    requires k <= |s|
    ensures s == s[..k] + s[k..]
  {
  }

  lemma ConsTail<T>(x: T, s: seq<T>)
    ensures ([x] + s)[0] == x && ([x] + s)[1..] == s
  {
  }

  lemma AppendAssociates<T>(a: seq<T>, b: seq<T>, c: seq<T>)
    ensures a + (b + c) == (a + b) + c
  {
  }

  lemma AppendNothing<T>(a: seq<T>)
    ensures a + [] == a && [] + a == a
  {
  }

  lemma SumTail<T>(a: seq<T>, b: seq<T>)
    requires a != []
    ensures (a + b)[0] == a[0] && (a + b)[1..] == a[1..] + b
  {
  }

  function Min(a: nat, b: nat): nat { if a < b then a else b }

  /** The sequence without its element at one index. */
  function RemoveIndex<T>(s: seq<T>, i: nat): (r: seq<T>)
    requires i < |s|
    ensures |r| == |s| - 1
  {
    s[..i] + s[i + 1..]
  }

  ghost predicate Distinct<T>(s: seq<T>) {
    forall i, j :: 0 <= i < j < |s| ==> s[i] != s[j]
  }

  ghost predicate Apart<T>(a: seq<T>, b: seq<T>) {
    forall x {:trigger x in a} {:trigger x in b} :: x in a ==> x !in b
  }

  ghost predicate Within<T>(s: seq<T>, elements: set<T>) {
    forall x :: x in s ==> x in elements
  }

  lemma RemovedAt<T>(s: seq<T>, i: nat, k: nat)
    requires i < |s| && k < |s| - 1
    ensures RemoveIndex(s, i)[k] == s[if k < i then k else k + 1]
  {
  }
}
