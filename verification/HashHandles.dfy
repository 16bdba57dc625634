/**
 The hash handle inside each element, and the two lists it is a node of: the list of all elements in the
 order they were added, and the chain of its bucket.
 */
module HashHandles {
  import opened Seqs

  class Handle {
    const key: string
    const data: int
    var hashv: nat
    var next: Handle?
    var prev: Handle?
    var hhNext: Handle?
    var hhPrev: Handle?

    constructor (key: string, data: int)
      ensures this.key == key && this.data == data
    {
      this.key, this.data := key, data;
      hashv, next, prev, hhNext, hhPrev := 0, null, null, null, null;
    }
  }

  function First(s: seq<Handle>): Handle? {
    if s == [] then null else s[0]
  }

  function Last(s: seq<Handle>): Handle? {
    if s == [] then null else s[|s| - 1]
  }

  function Succ(s: seq<Handle>, i: nat): Handle? {
    if i + 1 < |s| then s[i + 1] else null
  }

  function Pred(s: seq<Handle>, i: nat): Handle?
    requires i < |s|
  {
    if i == 0 then null else s[i - 1]
  }

  lemma RemovedDistinct<T>(s: seq<T>, i: nat)
    requires i < |s| && Distinct(s)
    ensures var r := RemoveIndex(s, i);
      && |r| == |s| - 1 && Distinct(r)
      && (forall k :: 0 <= k < i ==> r[k] == s[k]) && (forall k :: i <= k < |r| ==> r[k] == s[k + 1])
      && forall x :: x in r <==> x in s && x != s[i]
  {
    var r := RemoveIndex(s, i);
    forall x
      ensures x in r <==> x in s && x != s[i]
    {
      if x in s && x != s[i] {
        var k :| 0 <= k < |s| && s[k] == x;
        if k < i {
          assert r[k] == x;
        } else {
          assert r[k - 1] == x;
        }
      }
    }
  }

  // ---------------------------------------------------------------- the list of all elements

  /** Both links of every element agree with the order, NULL at both ends. */
  ghost predicate AppList(s: seq<Handle>)
    reads s`next, s`prev
  {
    && (forall i {:trigger s[i].next} :: 0 <= i < |s| ==> s[i].next == Succ(s, i))
    && (forall i {:trigger s[i].prev} :: 0 <= i < |s| ==> s[i].prev == Pred(s, i))
  }

  /** A list that ends in NULL visits no element twice. */
  lemma ListDistinct(s: seq<Handle>)
    requires AppList(s)
    ensures Distinct(s)
  {
    forall i, j | 0 <= i < j < |s|
      ensures s[i] != s[j]
    {
      ListApart(s, i, j);
    }
  }

  lemma {:induction false} ListApart(s: seq<Handle>, i: nat, j: nat)
    requires AppList(s) && i < j < |s|
    ensures s[i] != s[j]
    decreases |s| - j
  {
    assert s[i].next == Succ(s, i) && s[j].next == Succ(s, j);
    if j + 1 < |s| {
      ListApart(s, i + 1, j + 1);
    }
  }

  /** `HASH_APPEND_LIST`. */
  method AppendList(tail: Handle, add: Handle, ghost s: seq<Handle>)
    requires AppList(s) && s != [] && Last(s) == tail && add !in s
    modifies tail`next, add`next, add`prev
    ensures AppList(s + [add])
  {
    ListDistinct(s);
    assert forall k :: 0 <= k < |s| ==> s[k] in s && s[k] != add && (k < |s| - 1 ==> s[k] != tail);
    add.next := null;
    add.prev := tail;
    tail.next := add;
    AppendedList(s, add);
  }

  lemma AppendedList(s: seq<Handle>, add: Handle)
    requires s != []
    requires forall i :: 0 <= i < |s| - 1 ==> s[i].next == Succ(s, i)
    requires forall i :: 0 <= i < |s| ==> s[i].prev == Pred(s, i)
    requires s[|s| - 1].next == add && add.next == null && add.prev == Last(s)
    ensures AppList(s + [add])
  {
    var r := s + [add];
    forall i | 0 <= i < |r|
      ensures r[i].next == Succ(r, i) && r[i].prev == Pred(r, i)
    {
      assert i < |s| ==> r[i] == s[i];
    }
  }

  /** The patch-up of `HASH_DELETE_HH`, when the element is not the only one. */
  method UnlinkList(head: Handle, tail: Handle, del: Handle, ghost s: seq<Handle>, ghost i: nat)
    returns (head': Handle, tail': Handle)
    requires AppList(s) && |s| >= 2 && First(s) == head && Last(s) == tail && i < |s| && s[i] == del
    modifies s`next, s`prev
    ensures AppList(RemoveIndex(s, i)) && First(RemoveIndex(s, i)) == head' && Last(RemoveIndex(s, i)) == tail'
  {
    head', tail' := head, tail;
    Neighbours(s, i);
    if del == tail {
      tail' := del.prev;
    }
    if del.prev != null {
      del.prev.next := del.next;
    } else {
      head' := del.next;
    }
    if del.next != null {
      del.next.prev := del.prev;
    }
    ShortenedList(s, i);
  }

  /** Only its neighbours stand at the two ends of the links of an element. */
  lemma Neighbours(s: seq<Handle>, i: nat)
    requires AppList(s) && i < |s|
    ensures s[i].prev == Pred(s, i) && s[i].next == Succ(s, i)
    ensures forall k :: 0 <= k < |s| && k != i - 1 ==> s[k] != s[i].prev
    ensures forall k :: 0 <= k < |s| && k != i + 1 ==> s[k] != s[i].next
    ensures s[|s| - 1] == s[i] <==> i == |s| - 1
  {
    ListDistinct(s);
  }

  lemma ShortenedList(s: seq<Handle>, i: nat)
    requires i < |s|
    requires forall k :: 0 <= k < |s| && k != i ==> s[k].next == if k == i - 1 then Succ(s, i) else Succ(s, k)
    requires forall k :: 0 <= k < |s| && k != i ==> s[k].prev == if k == i + 1 then Pred(s, i) else Pred(s, k)
    ensures AppList(RemoveIndex(s, i))
  {
    var r := RemoveIndex(s, i);
    forall k | 0 <= k < |r|
      ensures r[k].next == Succ(r, k) && r[k].prev == Pred(r, k)
    {
      assert r[k] == s[if k < i then k else k + 1];
    }
  }

  // ---------------------------------------------------------------- the chain of a bucket

  ghost predicate Chain(s: seq<Handle>)
    reads s`hhNext, s`hhPrev
  {
    && Forward(s)
    && (forall i {:trigger s[i].hhPrev} :: 0 <= i < |s| ==> s[i].hhPrev == Pred(s, i))
  }

  /** The forward links of a chain, or of the part of it that has not been moved. */
  ghost predicate Forward(s: seq<Handle>)
    reads s`hhNext
  {
    forall i {:trigger s[i].hhNext} :: 0 <= i < |s| ==> s[i].hhNext == Succ(s, i)
  }

  lemma ChainDistinct(s: seq<Handle>)
    requires Forward(s)
    ensures Distinct(s)
  {
    forall i, j | 0 <= i < j < |s|
      ensures s[i] != s[j]
    {
      ChainApart(s, i, j);
    }
  }

  lemma {:induction false} ChainApart(s: seq<Handle>, i: nat, j: nat)
    requires Forward(s) && i < j < |s|
    ensures s[i] != s[j]
    decreases |s| - j
  {
    assert s[i].hhNext == Succ(s, i) && s[j].hhNext == Succ(s, j);
    if j + 1 < |s| {
      ChainApart(s, i + 1, j + 1);
    }
  }

  datatype Bucket = Bucket(head: Handle?, count: nat, expandMult: nat)

  /** A bucket and the chain it stands for. */
  ghost predicate Holds(bucket: Bucket, s: seq<Handle>)
    reads s`hhNext, s`hhPrev
  {
    Chain(s) && bucket.head == First(s) && bucket.count == |s|
  }

  /** `HASH_ADD_TO_BKT`, as far as the chain goes: the element becomes the first. */
  method LinkFront(bucket: Bucket, add: Handle, ghost s: seq<Handle>) returns (b: Bucket)
    requires Holds(bucket, s) && add !in s
    modifies add`hhNext, add`hhPrev, (if s == [] then {} else {s[0]})`hhPrev
    ensures Holds(b, [add] + s) && b.expandMult == bucket.expandMult
  {
    ChainDistinct(s);
    assert forall k :: 0 <= k < |s| ==> s[k] in s && s[k] != add && (k > 0 ==> s[k] != s[0]);
    add.hhNext := bucket.head;
    add.hhPrev := null;
    if bucket.head != null {
      bucket.head.hhPrev := add;
    }
    b := Bucket(add, bucket.count + 1, bucket.expandMult);
    PrependedChain(s, add);
  }

  lemma PrependedChain(s: seq<Handle>, add: Handle)
    requires add.hhNext == First(s) && add.hhPrev == null
    requires forall i :: 0 <= i < |s| ==> s[i].hhNext == Succ(s, i)
    requires forall i :: 0 <= i < |s| ==> s[i].hhPrev == if i == 0 then add else Pred(s, i)
    ensures Chain([add] + s)
  {
    var r := [add] + s;
    forall i | 0 <= i < |r|
      ensures r[i].hhNext == Succ(r, i) && r[i].hhPrev == Pred(r, i)
    {
      if i > 0 {
        var k := i - 1;
        assert r[i] == s[k] && s[k].hhPrev == if k == 0 then add else Pred(s, k);
      }
    }
  }

  /** `HASH_DEL_IN_BKT`. */
  method UnlinkChain(bucket: Bucket, del: Handle, ghost s: seq<Handle>, ghost i: nat) returns (b: Bucket)
    requires Holds(bucket, s) && i < |s| && s[i] == del
    modifies s`hhNext, s`hhPrev
    ensures Holds(b, RemoveIndex(s, i)) && b.expandMult == bucket.expandMult
  {
    ChainNeighbours(s, i);
    b := Bucket(if bucket.head == del then del.hhNext else bucket.head, bucket.count - 1, bucket.expandMult);
    if del.hhPrev != null {
      del.hhPrev.hhNext := del.hhNext;
    }
    if del.hhNext != null {
      del.hhNext.hhPrev := del.hhPrev;
    }
    ShortenedChain(s, i);
  }

  lemma ChainNeighbours(s: seq<Handle>, i: nat)
    requires Chain(s) && i < |s|
    ensures s[i].hhPrev == Pred(s, i) && s[i].hhNext == Succ(s, i)
    ensures forall k :: 0 <= k < |s| && k != i - 1 ==> s[k] != s[i].hhPrev
    ensures forall k :: 0 <= k < |s| && k != i + 1 ==> s[k] != s[i].hhNext
    ensures s[0] == s[i] <==> i == 0
  {
    ChainDistinct(s);
  }

  lemma ShortenedChain(s: seq<Handle>, i: nat)
    requires i < |s|
    requires forall k :: 0 <= k < |s| && k != i ==> s[k].hhNext == if k == i - 1 then Succ(s, i) else Succ(s, k)
    requires forall k :: 0 <= k < |s| && k != i ==> s[k].hhPrev == if k == i + 1 then Pred(s, i) else Pred(s, k)
    ensures Chain(RemoveIndex(s, i))
  {
    var r := RemoveIndex(s, i);
    forall k | 0 <= k < |r|
      ensures r[k].hhNext == Succ(r, k) && r[k].hhPrev == Pred(r, k)
    {
      assert r[k] == s[if k < i then k else k + 1];
    }
  }
}
