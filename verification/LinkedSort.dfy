/**
 `sort_list` on the doubly linked sibling list, rewiring `next` and `prev` in place.
 */
module LinkedSort {
  import opened CStrings
  import opened Seqs
  import opened Sorting

  /** A `cJSON` node as a member of a sibling list. Sorting never writes the key. */
  class Node {
    const key: string
    var next: Node?
    var prev: Node?

    constructor (key: string)
      ensures this.key == key && next == null && prev == null
    {
      this.key := key;
      next, prev := null, null;
    }
  }

  function NodeKey(n: Node): string { n.key }

  function First(nodes: seq<Node>): Node? {
    if nodes == [] then null else nodes[0]
  }

  function Succ(nodes: seq<Node>, i: nat): Node? {
    if i + 1 < |nodes| then nodes[i + 1] else null
  }

  function Pred(nodes: seq<Node>, i: nat): Node?
    requires i < |nodes|
  {
    if i == 0 then null else nodes[i - 1]
  }

  /** A well-formed list: both links of every node agree with the order, NULL at both ends. */
  ghost predicate IsList(nodes: seq<Node>)
    reads nodes
  {
    && Distinct(nodes)
    && (forall i {:trigger nodes[i].next} :: 0 <= i < |nodes| ==> nodes[i].next == Succ(nodes, i))
    && (forall i {:trigger nodes[i].prev} :: 0 <= i < |nodes| ==> nodes[i].prev == Pred(nodes, i))
  }

  /** Is every adjacent pair in strict order? */
  method AlreadySorted(list: Node, cs: bool, ghost nodes: seq<Node>) returns (sorted: bool)
    requires IsList(nodes) && nodes != [] && nodes[0] == list
    ensures sorted == StrictlySorted(nodes, NodeKey, cs)
  {
    var current := list;
    ghost var i := 0;
    while current.next != null && CompareStrings(current.key, current.next.key, cs) < 0
      invariant 0 <= i < |nodes| && nodes[i] == current
      invariant forall k :: 0 <= k < i ==> CompareStrings(NodeKey(nodes[k]), NodeKey(nodes[k + 1]), cs) < 0
      decreases |nodes| - i
    {
      current := current.next;
      i := i + 1;
    }
    sorted := current.next == null;
    assert !sorted ==> i < |nodes| - 1 && CompareStrings(NodeKey(nodes[i]), NodeKey(nodes[i + 1]), cs) >= 0;
  }

  /** Two pointers, one twice as fast, find the middle. */
  method FindMiddle(list: Node, ghost nodes: seq<Node>) returns (second: Node)
    requires IsList(nodes) && |nodes| >= 2 && nodes[0] == list
    ensures second == nodes[(|nodes| + 1) / 2]
  {
    second := list;
    var current: Node? := list;
    ghost var i, k := 0, 0;
    while current != null
      invariant 0 <= i < |nodes| && second == nodes[i]
      invariant 0 <= k <= |nodes| && current == (if k < |nodes| then nodes[k] else null)
      invariant k < |nodes| ==> k == 2 * i
      invariant k == |nodes| ==> i == (|nodes| + 1) / 2
      decreases |nodes| - k
    {
      assert nodes[i].next == Succ(nodes, i) && nodes[k].next == Succ(nodes, k);
      second := second.next;
      i := i + 1;
      current := current.next;
      k := k + 1;
      if current != null {
        assert nodes[k].next == Succ(nodes, k);
        current := current.next;
        k := k + 1;
      }
    }
  }

  lemma PartsApart<T>(a: seq<T>, b: seq<T>)
    requires Distinct(a + b)
    ensures Distinct(a) && Distinct(b) && Apart(a, b)
  {
    var all := a + b;
    assert forall i :: 0 <= i < |a| ==> all[i] == a[i];
    forall i, j | 0 <= i < |a| && 0 <= j < |b|
      ensures a[i] != b[j]
    {
      assert all[|a| + j] == b[j];
    }
    forall i, j | 0 <= i < j < |b|
      ensures b[i] != b[j]
    {
      assert all[|a| + i] == b[i] && all[|a| + j] == b[j];
    }
  }

  /** What is left of a list while its front is being moved away: the first `prev` is out of date. */
  ghost predicate IsRest(nodes: seq<Node>)
    reads nodes
  {
    && Distinct(nodes)
    && (forall k {:trigger nodes[k].next} :: 0 <= k < |nodes| ==> nodes[k].next == Succ(nodes, k))
    && (forall k {:trigger nodes[k].prev} :: 0 < k < |nodes| ==> nodes[k].prev == nodes[k - 1])
  }

  /** The list built so far: the `next` of its last node is not yet set. */
  ghost predicate IsFront(nodes: seq<Node>)
    reads nodes
  {
    && Distinct(nodes)
    && (forall k {:trigger nodes[k].next} :: 0 <= k < |nodes| - 1 ==> nodes[k].next == nodes[k + 1])
    && (forall k {:trigger nodes[k].prev} :: 0 <= k < |nodes| ==> nodes[k].prev == Pred(nodes, k))
  }

  lemma RestTail(nodes: seq<Node>)
    requires IsRest(nodes) && nodes != []
    ensures IsRest(nodes[1..]) && nodes[0] !in nodes[1..] && First(nodes[1..]) == nodes[0].next
    ensures forall x :: x in nodes[1..] ==> x in nodes
  {
    HeadTail(nodes);
  }

  lemma FrontOf(fs: seq<Node>, ss: seq<Node>)
    requires IsList(fs + ss)
    ensures IsFront(fs)
  {
    PartsApart(fs, ss);
    forall k | 0 <= k < |fs|
      ensures fs[k].prev == Pred(fs, k) && (k < |fs| - 1 ==> fs[k].next == fs[k + 1])
    {
      assert (fs + ss)[k] == fs[k];
    }
  }

  lemma RestOf(fs: seq<Node>, ss: seq<Node>)
    requires IsList(fs + ss) && fs != [] && ss != []
    ensures IsRest(ss) && ss[0].prev == fs[|fs| - 1]
  {
    PartsApart(fs, ss);
    assert (fs + ss)[|fs|] == ss[0];
    forall k | 0 <= k < |ss|
      ensures ss[k].next == Succ(ss, k) && (k > 0 ==> ss[k].prev == ss[k - 1])
    {
      assert (fs + ss)[|fs| + k] == ss[k];
    }
  }

  /** The list is cut in front of its middle node. */
  method CutList(second: Node, ghost last: Node, ghost fs: seq<Node>, ghost ss: seq<Node>)
    requires IsFront(fs) && IsRest(ss) && Apart(fs, ss) && fs != [] && ss != []
    requires ss[0] == second && fs[|fs| - 1] == last && second.prev == last
    modifies second, last
    ensures IsList(fs) && IsList(ss)
  {
    assert last in fs && second in ss && second != last;
    if second.prev != null {
      second.prev.next := null;
      second.prev := null;
    }
    forall k | 0 <= k < |fs|
      ensures fs[k].next == Succ(fs, k) && fs[k].prev == Pred(fs, k)
    {
      assert fs[k] in fs && fs[k] != second;
      assert k < |fs| - 1 ==> fs[k] != last;
    }
    forall k | 0 <= k < |ss|
      ensures ss[k].next == Succ(ss, k) && ss[k].prev == Pred(ss, k)
    {
      assert ss[k] in ss && ss[k] != last;
      assert k > 0 ==> ss[k] != second;
    }
  }

  /** The tail of the merged list, as far as the code keeps it. */
  ghost predicate IsTail(tail: Node?, out: seq<Node>) {
    tail == if out == [] then null else out[|out| - 1]
  }

  lemma FrontSnoc(out: seq<Node>, node: Node)
    requires IsFront(out) && node !in out && node.prev == (if out == [] then null else out[|out| - 1])
    requires out != [] ==> out[|out| - 1].next == node
    ensures IsFront(out + [node])
  {
  }

  /** One step of the merge: a node is taken off the front of one list and linked behind the tail. */
  method LinkBehind(tail: Node?, node: Node, ghost out: seq<Node>, ghost rest: seq<Node>, ghost other: seq<Node>)
    requires IsFront(out) && IsTail(tail, out)
    requires IsRest(rest) && rest != [] && rest[0] == node && IsRest(other)
    requires Apart(out, rest) && Apart(out, other) && Apart(rest, other)
    requires out == [] ==> node.prev == null
    modifies if tail == null then {} else {tail}, node
    ensures IsFront(out + [node]) && IsRest(rest[1..]) && IsRest(other)
    ensures node.next == First(rest[1..])
  {
    RestTail(rest);
    assert tail != null ==> tail in out;
    assert node in rest;
    assert forall k :: 0 <= k < |out| ==> out[k] != node && (k < |out| - 1 ==> out[k] != tail);
    if tail != null {
      tail.next := node;
      node.prev := tail;
    }
    FrontSnoc(out, node);
  }

  lemma RestFollows(out: seq<Node>, rest: seq<Node>)
    requires IsFront(out) && IsRest(rest) && out != [] && Apart(out, rest)
    requires rest != [] ==> out[|out| - 1].next == rest[0] && rest[0].prev == out[|out| - 1]
    requires rest == [] ==> out[|out| - 1].next == null
    ensures IsList(out + rest)
  {
    var all := out + rest;
    forall k | 0 <= k < |all|
      ensures all[k].next == Succ(all, k) && all[k].prev == Pred(all, k)
    {
      if k >= |out| {
        assert all[k] == rest[k - |out|];
      }
    }
    forall i, j | 0 <= i < j < |all|
      ensures all[i] != all[j]
    {
      if i < |out| <= j {
        assert all[i] in out && all[j] == rest[j - |out|] && all[j] in rest;
      }
    }
  }

  /** The end of the merge: what is left of one list is linked behind the tail. */
  method LinkRest(tail: Node, rest: Node?, ghost out: seq<Node>, ghost nodes: seq<Node>)
    requires IsFront(out) && out != [] && IsTail(tail, out) && IsRest(nodes) && Apart(out, nodes)
    requires nodes != [] && rest == nodes[0]
    modifies tail, nodes[0]
    ensures IsList(out + nodes)
  {
    assert tail in out && rest in nodes;
    assert forall k :: 0 <= k < |out| ==> out[k] in out && out[k] != rest && (k < |out| - 1 ==> out[k] != tail);
    assert forall k :: 0 <= k < |nodes| ==> nodes[k] in nodes && nodes[k] != tail && (k > 0 ==> nodes[k] != rest);
    tail.next := rest;
    rest.prev := tail;
    RestFollows(out, nodes);
  }

  lemma ListIsRest(nodes: seq<Node>)
    requires IsList(nodes)
    ensures IsRest(nodes) && (nodes != [] ==> nodes[0].prev == null)
  {
  }

  /** One step of the merged order. */
  lemma MergeStep(fs: seq<Node>, ss: seq<Node>, out: seq<Node>, cs: bool)
    requires fs != [] && ss != []
    ensures out + Merge(fs, ss, NodeKey, cs) == if CompareStrings(fs[0].key, ss[0].key, cs) < 0
      then (out + [fs[0]]) + Merge(fs[1..], ss, NodeKey, cs)
      else (out + [ss[0]]) + Merge(fs, ss[1..], NodeKey, cs)
  {
    if CompareStrings(fs[0].key, ss[0].key, cs) < 0 {
      AppendAssociates(out, [fs[0]], Merge(fs[1..], ss, NodeKey, cs));
    } else {
      AppendAssociates(out, [ss[0]], Merge(fs, ss[1..], NodeKey, cs));
    }
  }

  /** The variables of the merge loop: two rests, the list built so far, its head and its tail. */
  ghost predicate Merging(first: Node?, second: Node?, result: Node?, tail: Node?,
                          fr: seq<Node>, sr: seq<Node>, out: seq<Node>)
    reads fr, sr, out
  {
    IsRest(fr) && IsRest(sr) && IsFront(out) && Apart(out, fr) && Apart(out, sr) && Apart(fr, sr) &&
    first == First(fr) && second == First(sr) && result == First(out) && IsTail(tail, out) &&
    (first != null || second != null) &&
    (out == [] ==> fr != [] && sr != [] && fr[0].prev == null && sr[0].prev == null)
  }

  method MergeOne(first: Node, second: Node, result: Node?, tail: Node?, cs: bool,
                  ghost fr: seq<Node>, ghost sr: seq<Node>, ghost out: seq<Node>)
    returns (first': Node?, second': Node?, result': Node?, smaller: Node, ghost fr': seq<Node>, ghost sr': seq<Node>)
    requires Merging(first, second, result, tail, fr, sr, out)
    modifies if tail == null then {} else {tail}, first, second
    ensures Merging(first', second', result', smaller, fr', sr', out + [smaller])
    ensures out + Merge(fr, sr, NodeKey, cs) == (out + [smaller]) + Merge(fr', sr', NodeKey, cs)
    ensures (fr' == fr[1..] && sr' == sr && smaller == fr[0]) || (fr' == fr && sr' == sr[1..] && smaller == sr[0])
  {
    MergeStep(fr, sr, out, cs);
    assert out != [] ==> tail in out;
    smaller := if CompareStrings(first.key, second.key, cs) < 0 then first else second;
    first', second', fr', sr' := first, second, fr, sr;
    if smaller == first {
      TakeFrom(fr, sr, out);
      LinkBehind(tail, smaller, out, fr, sr);
      first', fr' := first.next, fr[1..];
    } else {
      TakeFrom(sr, fr, out);
      LinkBehind(tail, smaller, out, sr, fr);
      second', sr' := second.next, sr[1..];
    }
    result' := if result == null then smaller else result;
  }

  /** The loop of the merge, until one list is used up. */
  method MergeFronts(list1: Node, list2: Node, cs: bool, ghost fs: seq<Node>, ghost ss: seq<Node>,
          ghost nodes: set<Node>)
    returns (first: Node?, second: Node?, result: Node?, tail: Node,
             ghost fr: seq<Node>, ghost sr: seq<Node>, ghost out: seq<Node>)
    requires Merging(list1, list2, null, null, fs, ss, []) && Within(fs, nodes) && Within(ss, nodes)
    modifies nodes
    ensures Merging(first, second, result, tail, fr, sr, out) && (first == null || second == null)
    ensures Within(fr, nodes) && Within(sr, nodes) && tail in nodes
    ensures Merge(fs, ss, NodeKey, cs) == out + Merge(fr, sr, NodeKey, cs)
  {
    ghost var all := Merge(fs, ss, NodeKey, cs);
    AppendNothing(all);
    first, second, result, tail, fr, sr := MergeOne(list1, list2, null, null, cs, fs, ss, []);
    AppendNothing([tail]);
    out := [tail];
    while first != null && second != null
      invariant Merging(first, second, result, tail, fr, sr, out)
      invariant Within(fr, nodes) && Within(sr, nodes) && tail in nodes
      invariant all == out + Merge(fr, sr, NodeKey, cs)
      decreases |fr| + |sr|
    {
      first, second, result, tail, fr, sr := MergeOne(first, second, result, tail, cs, fr, sr, out);
      out := out + [tail];
    }
  }

  /** The merge of two sorted halves. */
  method MergeLists(list1: Node, list2: Node, cs: bool, ghost fs: seq<Node>, ghost ss: seq<Node>)
    returns (result: Node?)
    requires IsList(fs) && IsList(ss) && fs != [] && ss != [] && list1 == fs[0] && list2 == ss[0] && Apart(fs, ss)
    modifies fs, ss
    ensures IsList(Merge(fs, ss, NodeKey, cs)) && result == First(Merge(fs, ss, NodeKey, cs))
  {
    ListIsRest(fs);
    ListIsRest(ss);
    ghost var nodes := (set n | n in fs) + (set n | n in ss);
    var first: Node?, second: Node?, tail: Node;
    ghost var fr, sr, out: seq<Node>;
    first, second, result, tail, fr, sr, out := MergeFronts(list1, list2, cs, fs, ss, nodes);
    LinkBoth(tail, first, second, out, fr, sr, nodes);
    assert Merge(fr, sr, NodeKey, cs) == if second == null then fr else sr;
  }

  /** After the loop one of the lists is used up and the rest of the other is appended. */
  method LinkBoth(tail: Node, first: Node?, second: Node?, ghost out: seq<Node>, ghost fr: seq<Node>,
          ghost sr: seq<Node>,
                  ghost nodes: set<Node>)
    requires IsFront(out) && out != [] && IsTail(tail, out) && IsRest(fr) && IsRest(sr)
    requires Apart(out, fr) && Apart(out, sr) && Within(fr, nodes) && Within(sr, nodes) && tail in nodes
    requires first == First(fr) && second == First(sr) && (first == null <==> second != null)
    modifies nodes
    ensures IsList(out + if second == null then fr else sr)
  {
    assert first != null ==> first in fr;
    assert second != null ==> second in sr;
    if first != null {
      LinkRest(tail, first, out, fr);
    }
    if second != null {
      LinkRest(tail, second, out, sr);
    }
  }

  /** What is apart stays apart when the head of one list moves to the merged list. */
  lemma TakeFrom(rest: seq<Node>, other: seq<Node>, out: seq<Node>)
    requires rest != [] && Distinct(rest) && Apart(out, rest) && Apart(out, other) && Apart(rest, other)
    ensures Apart(out + [rest[0]], rest[1..]) && Apart(out + [rest[0]], other) && Apart(rest[1..], other)
    ensures Apart(other, rest[1..]) && Apart(other, rest)
    ensures forall x :: x in rest[1..] ==> x in rest
    ensures rest[0] in rest
  {
    HeadTail(rest);
    assert rest[0] !in rest[1..];
  }

  /** `sort_list`: the nodes end up in the order of Sort, well linked, and no other node is touched. */
  method SortList(list: Node?, cs: bool, ghost nodes: seq<Node>) returns (result: Node?)
    requires IsList(nodes) && list == First(nodes)
    modifies nodes
    ensures IsList(Sort(nodes, NodeKey, cs)) && result == First(Sort(nodes, NodeKey, cs))
    decreases |nodes|, 2
  {
    if list == null || list.next == null {
      return list;
    }
    assert nodes[0].next == Succ(nodes, 0);
    var sorted := AlreadySorted(list, cs, nodes);
    if sorted {
      return list;
    }
    ghost var h := (|nodes| + 1) / 2;
    var second := FindMiddle(list, nodes);
    ghost var fs, ss := nodes[..h], nodes[h..];
    CutAt(nodes, h);
    result := CutAndSort(list, second, cs, fs, ss);
  }

  method CutAndSort(list: Node, second: Node, cs: bool, ghost fs: seq<Node>, ghost ss: seq<Node>)
    returns (result: Node?)
    requires IsList(fs + ss) && fs != [] && ss != [] && list == fs[0] && second == ss[0]
    modifies fs, ss
    ensures var m := Merge(Sort(fs, NodeKey, cs), Sort(ss, NodeKey, cs), NodeKey, cs);
      IsList(m) && result == First(m)
    decreases |fs| + |ss|, 1
  {
    PartsApart(fs, ss);
    FrontOf(fs, ss);
    RestOf(fs, ss);
    CutList(second, fs[|fs| - 1], fs, ss);
    result := SortHalves(list, second, cs, fs, ss);
  }

  /** Both halves are sorted and merged. */
  method SortHalves(list1: Node, list2: Node, cs: bool, ghost fs: seq<Node>, ghost ss: seq<Node>)
    returns (result: Node?)
    requires IsList(fs) && IsList(ss) && fs != [] && ss != [] && list1 == fs[0] && list2 == ss[0] && Apart(fs, ss)
    modifies fs, ss
    ensures var m := Merge(Sort(fs, NodeKey, cs), Sort(ss, NodeKey, cs), NodeKey, cs);
      IsList(m) && result == First(m)
    decreases |fs| + |ss|, 0
  {
    ghost var sortedF, sortedS := Sort(fs, NodeKey, cs), Sort(ss, NodeKey, cs);
    SortedApart(fs, ss, cs);
    var first := SortList(list1, cs, fs);
    assert IsList(ss) && IsList(sortedF);
    var second := SortList(list2, cs, ss);
    assert IsList(sortedF);
    result := MergeLists(first, second, cs, sortedF, sortedS);
  }

  lemma SortedApart(fs: seq<Node>, ss: seq<Node>, cs: bool)
    requires Apart(fs, ss)
    ensures var sortedF, sortedS := Sort(fs, NodeKey, cs), Sort(ss, NodeKey, cs);
      Apart(sortedF, sortedS) &&
      (forall k :: 0 <= k < |sortedF| ==> sortedF[k] in fs && sortedF[k] !in ss) &&
      (forall k :: 0 <= k < |sortedS| ==> sortedS[k] in ss) &&
      (forall k :: 0 <= k < |ss| ==> ss[k] !in fs)
  {
    var sortedF, sortedS := Sort(fs, NodeKey, cs), Sort(ss, NodeKey, cs);
    SortKeepsNodes(fs, cs);
    SortKeepsNodes(ss, cs);
    assert forall k :: 0 <= k < |ss| ==> ss[k] in ss;
  }

  lemma SortKeepsNodes(nodes: seq<Node>, cs: bool)
    ensures var sorted := Sort(nodes, NodeKey, cs);
      (forall k :: 0 <= k < |sorted| ==> sorted[k] in nodes) && forall x :: x in sorted ==> x in nodes
  {
    var sorted := Sort(nodes, NodeKey, cs);
    SortPermutes(nodes, NodeKey, cs);
    forall k | 0 <= k < |sorted|
      ensures sorted[k] in nodes
    {
      MemberOf(sorted, nodes, k);
    }
  }
}
