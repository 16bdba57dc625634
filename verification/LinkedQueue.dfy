/**
 The thread-safe queue as a singly linked list with front, rear and size. Each call runs under the lock; the
 queue stands for the sequence of its elements.
 */
module LinkedQueue {
  import opened Seqs

  /** The data pointer of an element and the size of what it points to. */
  datatype Element = Element(data: nat, dataSize: nat)

  class QueueNode {
    const element: Element
    var next: QueueNode?

    constructor (element: Element)
      ensures this.element == element && next == null
    {
      this.element := element;
      next := null;
    }
  }

  function First(s: seq<QueueNode>): QueueNode? {
    if s == [] then null else s[0]
  }

  function Last(s: seq<QueueNode>): QueueNode? {
    if s == [] then null else s[|s| - 1]
  }

  function Succ(s: seq<QueueNode>, i: nat): QueueNode? {
    if i + 1 < |s| then s[i + 1] else null
  }

  ghost predicate Listed(s: seq<QueueNode>)
    reads s
  {
    forall i {:trigger s[i].next} :: 0 <= i < |s| ==> s[i].next == Succ(s, i)
  }

  lemma {:induction false} ListedApart(s: seq<QueueNode>, i: nat, j: nat)
    requires Listed(s) && i < j < |s|
    ensures s[i] != s[j]
    decreases |s| - j
  {
    assert s[i].next == Succ(s, i) && s[j].next == Succ(s, j);
    if j + 1 < |s| {
      ListedApart(s, i + 1, j + 1);
    }
  }

  function Elements(s: seq<QueueNode>): (r: seq<Element>)
    ensures |r| == |s|
  {
    seq(|s|, i requires 0 <= i < |s| => s[i].element)
  }

  // ---------------------------------------------------------------- splitting by a match

  type Match = Element -> bool

  function Matched(es: seq<Element>, match_: Match): seq<Element> {
    if es == [] then [] else (if match_(es[0]) then [es[0]] else []) + Matched(es[1..], match_)
  }

  function Kept(es: seq<Element>, match_: Match): seq<Element> {
    if es == [] then [] else (if match_(es[0]) then [] else [es[0]]) + Kept(es[1..], match_)
  }

  lemma {:induction false} SplitSnoc(es: seq<Element>, e: Element, match_: Match)
    ensures Matched(es + [e], match_) == Matched(es, match_) + (if match_(e) then [e] else [])
    ensures Kept(es + [e], match_) == Kept(es, match_) + (if match_(e) then [] else [e])
  {
    if es != [] {
      SplitSnoc(es[1..], e, match_);
      SumTail(es, [e]);
      AppendAssociates(if match_(es[0]) then [es[0]] else [], Matched(es[1..], match_), if match_(e) then [e] else []);
      AppendAssociates(if match_(es[0]) then [] else [es[0]], Kept(es[1..], match_), if match_(e) then [] else [e]);
    } else {
      assert ([] + [e])[1..] == [];
    }
  }

  /** Nothing is lost or duplicated, and the elements are on the right sides. */
  lemma {:induction false} SplitIsPartition(es: seq<Element>, match_: Match)
    ensures multiset(Matched(es, match_)) + multiset(Kept(es, match_)) == multiset(es)
    ensures forall e :: e in Matched(es, match_) ==> match_(e)
    ensures forall e :: e in Kept(es, match_) ==> !match_(e)
  {
    if es != [] {
      SplitIsPartition(es[1..], match_);
      HeadTail(es);
    }
  }

  lemma {:induction false} MatchedLonger(es: seq<Element>, i: nat, match_: Match)
    requires i <= |es|
    ensures |Matched(es[..i], match_)| <= |Matched(es, match_)|
    decreases |es| - i
  {
    if i < |es| {
      assert es[..i + 1] == es[..i] + [es[i]];
      SplitSnoc(es[..i], es[i], match_);
      MatchedLonger(es, i + 1, match_);
    } else {
      assert es[..i] == es;
    }
  }

  // ---------------------------------------------------------------- unlinking a node

  /** `*prev = current->next`, where prev is NULL when it points to the front. */
  method Unlink(front: QueueNode?, prev: QueueNode?, current: QueueNode, ghost s: seq<QueueNode>, ghost k: nat)
    returns (front': QueueNode?)
    requires Listed(s) && k < |s| && current == s[k] && prev == (if k == 0 then null else s[k - 1]) && front == First(s)
    modifies if prev == null then {} else {prev}
    ensures Listed(RemoveIndex(s, k)) && front' == First(RemoveIndex(s, k))
  {
    assert s[k].next == Succ(s, k);
    forall i | 0 <= i < |s| && i != k - 1
      ensures s[i] != prev
    {
      if prev != null {
        if i < k - 1 {
          ListedApart(s, i, k - 1);
        } else {
          ListedApart(s, k - 1, i);
        }
      }
    }
    front' := front;
    if prev == null {
      front' := current.next;
    } else {
      prev.next := current.next;
    }
    var r := RemoveIndex(s, k);
    forall i | 0 <= i < |r|
      ensures r[i].next == Succ(r, i)
    {
      assert r[i] == s[if i < k then i else i + 1];
    }
  }

  class Queue {
    var front: QueueNode?
    var rear: QueueNode?
    var size: nat
    var isDestroyed: bool
    ghost var nodes: seq<QueueNode>

    constructor ()
      ensures Valid() && Content() == [] && !isDestroyed
    {
      front, rear, size, isDestroyed, nodes := null, null, 0, false, [];
    }

    ghost predicate Valid()
      reads this, nodes
    {
      Listed(nodes) && front == First(nodes) && rear == Last(nodes) && size == |nodes|
    }

    ghost function Content(): seq<Element>
      reads this
    {
      Elements(nodes)
    }

    /** `queue_enqueue`: a NULL pointer (an address of 0), a size of 0 and a destroyed queue are refused with -1. */
    method Enqueue(data: nat, dataSize: nat) returns (code: int)
      requires Valid()
      modifies `front, `rear, `size, `nodes, nodes
      ensures Valid() && code == if data == 0 || dataSize == 0 || isDestroyed then -1 else 0
      ensures Content() == old(Content()) + if code == 0 then [Element(data, dataSize)] else []
      ensures code == 0 ==> fresh(nodes[|nodes| - 1]) && nodes == old(nodes) + [nodes[|nodes| - 1]]
      ensures code != 0 ==> nodes == old(nodes)
    {
      if data == 0 || dataSize == 0 || isDestroyed {
        AppendNothing(Content());
        return -1;
      }
      Append(Element(data, dataSize));
      code := 0;
    }

    /** The new node becomes the rear. */
    method Append(e: Element)
      requires Valid()
      modifies `front, `rear, `size, `nodes, nodes
      ensures Valid() && Content() == old(Content()) + [e] && fresh(nodes[|nodes| - 1])
      ensures nodes == old(nodes) + [nodes[|nodes| - 1]]
    {
      var node := new QueueNode(e);
      if rear != null {
        forall k | 0 <= k < |nodes| - 1
          ensures nodes[k] != rear
        {
          ListedApart(nodes, k, |nodes| - 1);
        }
        assert forall k :: 0 <= k < |nodes| ==> nodes[k] in nodes;
        rear.next := node;
      } else {
        front := node;
      }
      rear := node;
      size := size + 1;
      nodes := nodes + [node];
    }

    /** `queue_dequeue` without waiting: nothing when the queue is empty or destroyed. */
    method Dequeue() returns (found: bool, e: Element)
      requires Valid()
      modifies `front, `rear, `size, `nodes
      ensures Valid() && (found <==> old(Content()) != [] && !isDestroyed)
      ensures found ==> old(Content()) == [e] + Content()
      ensures !found ==> Content() == old(Content())
    {
      if isDestroyed || size == 0 {
        return false, Element(0, 0);
      }
      var node := front;
      assert nodes[0].next == Succ(nodes, 0);
      found, e := true, node.element;
      front := node.next;
      if front == null {
        rear := null;
      }
      size := size - 1;
      assert Elements(nodes) == [e] + Elements(nodes[1..]);
      forall i | 0 <= i < |nodes[1..]|
        ensures nodes[1..][i].next == Succ(nodes[1..], i)
      {
        assert nodes[1..][i] == nodes[i + 1] && nodes[i + 1].next == Succ(nodes, i + 1);
      }
      nodes := nodes[1..];
    }

    /** The section of `queue_destroy` under the lock. */
    method Destroy()
      requires Valid()
      modifies this
      ensures Valid() && isDestroyed && Content() == []
    {
      isDestroyed := true;
      front, rear, size, nodes := null, null, 0, [];
    }

    /** The counting loop of `queue_remove_wildcard`. */
    method CountMatches(match_: Match) returns (count: nat)
      requires Valid()
      ensures count == |Matched(Content(), match_)|
    {
      var current := front;
      ghost var i := 0;
      count := 0;
      assert Content()[..0] == [];
      while current != null
        invariant 0 <= i <= |nodes| && current == (if i < |nodes| then nodes[i] else null)
        invariant count == |Matched(Content()[..i], match_)|
        decreases |nodes| - i
      {
        assert Content()[..i + 1] == Content()[..i] + [Content()[i]];
        SplitSnoc(Content()[..i], Content()[i], match_);
        if match_(current.element) {
          count := count + 1;
        }
        assert nodes[i].next == Succ(nodes, i);
        current := current.next;
        i := i + 1;
      }
      assert Content()[..i] == Content();
    }

    /** The walk of `queue_remove_wildcard` at position k of what is left, after i of the old elements. */
    ghost predicate Walking(prev: QueueNode?, current: QueueNode?, k: nat, i: nat, es: seq<Element>, match_: Match)
      reads this, nodes
    {
      && Valid() && k <= |nodes| && i <= |es| && |nodes| - k == |es| - i
      && current == (if k < |nodes| then nodes[k] else null)
      && prev == (if k == 0 then null else nodes[k - 1])
      && Elements(nodes)[..k] == Kept(es[..i], match_)
      && Elements(nodes)[k..] == es[i..]
    }

    /** One turn of the walk. */
    method WalkOne(prev: QueueNode?, current: QueueNode, removed: array<Element>, index: nat, match_: Match,
                   ghost k: nat, ghost i: nat, ghost es: seq<Element>)
      returns (prev': QueueNode?, current': QueueNode?, index': nat, ghost k': nat)
      requires Walking(prev, current, k, i, es, match_) && k < |nodes|
      requires index == |Matched(es[..i], match_)| <= removed.Length == |Matched(es, match_)|
      requires removed[..index] == Matched(es[..i], match_)
      modifies `front, `rear, `size, `nodes, nodes, removed
      ensures Walking(prev', current', k', i + 1, es, match_)
      ensures index' == |Matched(es[..i + 1], match_)| <= removed.Length
      ensures removed[..index'] == Matched(es[..i + 1], match_)
      ensures forall j :: 0 <= j < |nodes| ==> nodes[j] in old(nodes)
    {
      assert nodes[k].next == Succ(nodes, k);
      assert current.element == Elements(nodes)[k..][0] == es[i];
      assert es[..i + 1] == es[..i] + [es[i]];
      SplitSnoc(es[..i], es[i], match_);
      MatchedLonger(es, i + 1, match_);
      current', index', k' := current.next, index, k;
      prev' := prev;
      if match_(current.element) {
        removed[index] := current.element;
        index' := index + 1;
        RemoveNode(prev, current, k);
        AppendNothing(Kept(es[..i], match_));
      } else {
        prev', k' := current, k + 1;
        AppendNothing(Matched(es[..i], match_));
        assert Elements(nodes)[..k + 1] == Elements(nodes)[..k] + [Elements(nodes)[k]];
      }
      assert es[i..][1..] == es[i + 1..];
    }

    /** The node at position k is taken out; the rear moves back when it was the last one. */
    method RemoveNode(prev: QueueNode?, current: QueueNode, ghost k: nat)
      requires Valid() && k < |nodes| && current == nodes[k] && prev == (if k == 0 then null else nodes[k - 1])
      modifies `front, `rear, `size, `nodes, if prev == null then {} else {prev}
      ensures Valid() && nodes == RemoveIndex(old(nodes), k)
      ensures Elements(nodes)[..k] == old(Elements(nodes))[..k]
      ensures Elements(nodes)[k..] == old(Elements(nodes))[k..][1..]
    {
      if k < |nodes| - 1 {
        ListedApart(nodes, k, |nodes| - 1);
      }
      var f := Unlink(front, prev, current, nodes, k);
      front := f;
      if current == rear {
        rear := prev;
      }
      size := size - 1;
      nodes := RemoveIndex(nodes, k);
    }

    /**
     `queue_remove_wildcard`: the elements that match leave in order, the others stay in order, and the links,
     the rear and the size fit what is left.
     */
    method RemoveWildcard(match_: Match) returns (removed: array<Element>)
      requires Valid()
      modifies `front, `rear, `size, `nodes, nodes
      ensures Valid() && fresh(removed)
      ensures removed[..] == Matched(old(Content()), match_) && Content() == Kept(old(Content()), match_)
    {
      ghost var es := Content();
      var count := CountMatches(match_);
      removed := new Element[count];
      SplitIsPartition(es, match_);
      if count > 0 {
        Walk(removed, match_);
      } else {
        NoneMatched(es, match_);
      }
    }

    /** The walk over the list that takes the matching nodes out. */
    method Walk(removed: array<Element>, match_: Match)
      requires Valid() && removed.Length == |Matched(Content(), match_)|
      modifies `front, `rear, `size, `nodes, nodes, removed
      ensures Valid()
      ensures removed[..] == Matched(old(Content()), match_) && Content() == Kept(old(Content()), match_)
    {
      ghost var es := Content();
      var prev: QueueNode?, current := null, front;
      var index := 0;
      ghost var k: nat, i: nat := 0, 0;
      assert es[..0] == [];
      while current != null
        invariant Walking(prev, current, k, i, es, match_)
        invariant index == |Matched(es[..i], match_)| <= removed.Length
        invariant removed[..index] == Matched(es[..i], match_)
        invariant forall j :: 0 <= j < |nodes| ==> nodes[j] in old(nodes)
        decreases |es| - i
      {
        prev, current, index, k := WalkOne(prev, current, removed, index, match_, k, i, es);
        i := i + 1;
      }
      assert es[..i] == es && Elements(nodes)[..k] == Elements(nodes);
    }

    static lemma {:induction false} NoneMatched(es: seq<Element>, match_: Match)
      requires Matched(es, match_) == []
      ensures Kept(es, match_) == es
    {
      if es != [] {
        NoneMatched(es[1..], match_);
        HeadTail(es);
      }
    }
  }
}
