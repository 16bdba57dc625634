/**
 `HASH_SRT` on the list of all elements: a bottom-up mergesort that rewires `next` and `prev` in place.
 */
module HashSort {
  import opened Seqs
  import opened HashHandles
  import opened BottomUpSort

  function EntryOf(h: Handle): Entry { Entry(h.key, h.data) }

  /** What is left to be merged: forward links, NULL at the end. */
  ghost predicate Linked(s: seq<Handle>)
    reads s`next
  {
    forall k {:trigger s[k].next} :: 0 <= k < |s| ==> s[k].next == Succ(s, k)
  }

  /** The rest of the first run: its last link is not used. */
  ghost predicate Run(s: seq<Handle>)
    reads s`next
  {
    forall k {:trigger s[k].next} :: 0 <= k < |s| - 1 ==> s[k].next == Succ(s, k)
  }

  /** The list built so far: the `next` of its last element is not yet set. */
  ghost predicate Front(s: seq<Handle>)
    reads s`next, s`prev
  {
    && (forall k {:trigger s[k].next} :: 0 <= k < |s| - 1 ==> s[k].next == Succ(s, k))
    && (forall k {:trigger s[k].prev} :: 0 <= k < |s| ==> s[k].prev == Pred(s, k))
  }

  lemma {:induction false} FrontApart(s: seq<Handle>, i: nat, j: nat)
    requires Front(s) && i < j < |s|
    ensures s[i] != s[j]
    decreases i
  {
    assert s[i].prev == Pred(s, i) && s[j].prev == Pred(s, j);
    if i > 0 {
      FrontApart(s, i - 1, j - 1);
    }
  }

  /** The element goes behind the tail; the first one becomes the list. */
  method LinkBehind(list: Handle?, tail: Handle?, e: Handle, ghost out: seq<Handle>) returns (list': Handle)
    requires Front(out) && tail == Last(out) && list == First(out) && e !in out
    modifies out`next, e`prev
    ensures Front(out + [e]) && list' == First(out + [e])
  {
    assert tail != null ==> tail in out;
    forall k | 0 <= k < |out| - 1
      ensures out[k] in out && out[k] != tail
    {
      FrontApart(out, k, |out| - 1);
    }
    assert forall k :: 0 <= k < |out| ==> out[k] in out && out[k] != e;
    if tail != null {
      tail.next := e;
      list' := list;
    } else {
      list' := e;
    }
    e.prev := tail;
    FrontGrows(out, e);
  }

  lemma FrontGrows(out: seq<Handle>, e: Handle)
    requires forall k :: 0 <= k < |out| - 1 ==> out[k].next == Succ(out, k)
    requires forall k :: 0 <= k < |out| ==> out[k].prev == Pred(out, k)
    requires out != [] ==> out[|out| - 1].next == e
    requires e.prev == Last(out)
    ensures Front(out + [e])
  {
    var r := out + [e];
    forall k | 0 <= k < |r|
      ensures r[k].prev == Pred(r, k) && (k < |r| - 1 ==> r[k].next == Succ(r, k))
    {
      assert k < |out| ==> r[k] == out[k];
    }
  }

  // ---------------------------------------------------------------- merging two runs

  /** The variables of the merge loop: what is left of both runs, and what follows the second. */
  ghost predicate Merging(p: Handle?, psize: nat, q: Handle?, qsize: nat, pr: seq<Handle>, qr: seq<Handle>,
                          after: seq<Handle>, out: seq<Handle>)
    reads pr`next, qr`next, after`next
  {
    && psize == |pr| && (pr != [] ==> p == pr[0]) && Run(pr)
    && q == First(qr + after) && Linked(qr + after)
    && |qr| <= qsize && (|qr| < qsize ==> after == [])
    && Distinct(pr) && Distinct(qr + after)
    && Apart(out, pr) && Apart(out, qr + after) && Apart(pr, qr + after)
  }

  /** The element that is next, and the positions behind it. */
  method Take(p: Handle?, psize: nat, q: Handle?, qsize: nat, cmp: Compare, ghost pr: seq<Handle>,
          ghost qr: seq<Handle>,
              ghost after: seq<Handle>, ghost out: seq<Handle>)
    returns (e: Handle, p': Handle?, psize': nat, q': Handle?, qsize': nat,
             ghost pr': seq<Handle>, ghost qr': seq<Handle>)
    requires Merging(p, psize, q, qsize, pr, qr, after, out) && (pr != [] || qr != [])
    ensures Merging(p', psize', q', qsize', pr', qr', after, out + [e]) && e !in out
    ensures Merge(pr, qr, EntryOf, cmp) == [e] + Merge(pr', qr', EntryOf, cmp)
    ensures (pr != [] && pr' == pr[1..] && qr' == qr && e == pr[0]) ||
      (qr != [] && pr' == pr && qr' == qr[1..] && e == qr[0])
  {
    p', psize', q', qsize', pr', qr' := p, psize, q, qsize, pr, qr;
    if psize == 0 || (qsize != 0 && q != null && cmp(EntryOf(p), EntryOf(q)) > 0) {
      e := q;
      q' := q.next;
      qsize' := qsize - 1;
      qr' := qr[1..];
      TakeSecond(pr, qr, after, out);
    } else {
      e := p;
      p' := p.next;
      psize' := psize - 1;
      pr' := pr[1..];
      TakeFirst(pr, qr, after, out);
    }
  }

  lemma TakeFirst(pr: seq<Handle>, qr: seq<Handle>, after: seq<Handle>, out: seq<Handle>)
    requires pr != [] && Run(pr) && Distinct(pr)
    requires Apart(out, pr) && Apart(out, qr + after) && Apart(pr, qr + after)
    ensures Run(pr[1..]) && Distinct(pr[1..]) && (|pr| > 1 ==> pr[0].next == pr[1..][0]) && pr[0] !in out
    ensures Apart(out + [pr[0]], pr[1..]) && Apart(out + [pr[0]], qr + after) && Apart(pr[1..], qr + after)
  {
    assert pr[0] in pr;
    assert forall k :: 0 <= k < |pr| - 1 ==> pr[1..][k] == pr[k + 1];
  }

  lemma TakeSecond(pr: seq<Handle>, qr: seq<Handle>, after: seq<Handle>, out: seq<Handle>)
    requires qr != [] && Linked(qr + after) && Distinct(qr + after)
    requires Apart(out, pr) && Apart(out, qr + after) && Apart(pr, qr + after)
    ensures (qr + after)[0] == qr[0] && qr[0].next == First(qr[1..] + after) && qr[0] !in out
    ensures Linked(qr[1..] + after) && Distinct(qr[1..] + after)
    ensures Apart(out + [qr[0]], pr) && Apart(out + [qr[0]], qr[1..] + after) && Apart(pr, qr[1..] + after)
  {
    var s, t := qr + after, qr[1..] + after;
    SumTail(qr, after);
    assert s[0] in s && s[1..] == t;
    assert forall k :: 0 <= k < |t| ==> t[k] == s[k + 1];
    assert s[0].next == Succ(s, 0);
  }

  /** What is still to be merged is not among the elements that linking writes to. */
  lemma StillMerging(p: Handle?, psize: nat, q: Handle?, qsize: nat, pr: seq<Handle>, qr: seq<Handle>,
                     after: seq<Handle>, out: seq<Handle>, e: Handle)
    requires Merging(p, psize, q, qsize, pr, qr, after, out + [e])
    ensures forall k :: 0 <= k < |pr| ==> pr[k] !in out
    ensures forall k :: 0 <= k < |qr| ==> qr[k] !in out
    ensures forall k :: 0 <= k < |after| ==> after[k] !in out
  {
    assert forall k :: 0 <= k < |qr| ==> (qr + after)[k] == qr[k] && qr[k] in qr + after;
    assert forall k :: 0 <= k < |after| ==> (qr + after)[|qr| + k] == after[k] && after[k] in qr + after;
    assert forall x :: x in out ==> x in out + [e];
  }

  /** One turn of the merge loop. */
  method MergeOne(p: Handle?, psize: nat, q: Handle?, qsize: nat, list: Handle?, tail: Handle?, cmp: Compare,
                  ghost pr: seq<Handle>, ghost qr: seq<Handle>, ghost after: seq<Handle>, ghost out: seq<Handle>)
    returns (p': Handle?, psize': nat, q': Handle?, qsize': nat, list': Handle?, e: Handle,
             ghost pr': seq<Handle>, ghost qr': seq<Handle>)
    requires Merging(p, psize, q, qsize, pr, qr, after, out) && (pr != [] || qr != [])
    requires Front(out) && tail == Last(out) && list == First(out)
    modifies out`next, pr`prev, qr`prev
    ensures Merging(p', psize', q', qsize', pr', qr', after, out + [e])
    ensures Front(out + [e]) && list' == First(out + [e])
    ensures out + Merge(pr, qr, EntryOf, cmp) == (out + [e]) + Merge(pr', qr', EntryOf, cmp)
    ensures (pr != [] && pr' == pr[1..] && qr' == qr && e == pr[0]) ||
      (qr != [] && pr' == pr && qr' == qr[1..] && e == qr[0])
  {
    e, p', psize', q', qsize', pr', qr' := Take(p, psize, q, qsize, cmp, pr, qr, after, out);
    AppendAssociates(out, [e], Merge(pr', qr', EntryOf, cmp));
    list' := LinkTaken(p', psize', q', qsize', list, tail, e, pr', qr', after, out);
  }

  /** The element taken goes behind the list built so far; the runs are untouched. */
  method LinkTaken(p: Handle?, psize: nat, q: Handle?, qsize: nat, list: Handle?, tail: Handle?, e: Handle,
                   ghost pr: seq<Handle>, ghost qr: seq<Handle>, ghost after: seq<Handle>, ghost out: seq<Handle>)
    returns (list': Handle?)
    requires Merging(p, psize, q, qsize, pr, qr, after, out + [e]) && e !in out
    requires Front(out) && tail == Last(out) && list == First(out)
    modifies out`next, e`prev
    ensures Merging(p, psize, q, qsize, pr, qr, after, out + [e])
    ensures Front(out + [e]) && list' == First(out + [e])
  {
    StillMerging(p, psize, q, qsize, pr, qr, after, out, e);
    list' := LinkBehind(list, tail, e, out);
  }

  /** The merge loop: two runs are merged behind the list built so far. */
  method MergeLoop(p0: Handle?, psize0: nat, q0: Handle?, qsize0: nat, list0: Handle?, tail0: Handle?,
                   cmp: Compare,
                   ghost ps: seq<Handle>, ghost qs: seq<Handle>, ghost after: seq<Handle>, ghost out0: seq<Handle>,
                   ghost nodes: set<Handle>)
    returns (q: Handle?, list: Handle?, tail: Handle?, ghost out: seq<Handle>)
    requires Merging(p0, psize0, q0, qsize0, ps, qs, after, out0)
    requires Front(out0) && tail0 == Last(out0) && list0 == First(out0)
    requires Within(ps, nodes) && Within(qs, nodes) && Within(out0, nodes)
    modifies nodes`next, nodes`prev
    ensures out == out0 + Merge(ps, qs, EntryOf, cmp) && Within(out, nodes)
    ensures Front(out) && tail == Last(out) && list == First(out)
    ensures q == First(after) && Linked(after) && Distinct(after) && Apart(out, after)
  {
    var p, psize, qsize := p0, psize0, qsize0;
    q, list, tail, out := q0, list0, tail0, out0;
    ghost var pr, qr := ps, qs;
    while psize != 0 || (qsize != 0 && q != null)
      invariant Merging(p, psize, q, qsize, pr, qr, after, out)
      invariant Front(out) && tail == Last(out) && list == First(out)
      invariant Within(pr, nodes) && Within(qr, nodes) && Within(out, nodes)
      invariant out + Merge(pr, qr, EntryOf, cmp) == out0 + Merge(ps, qs, EntryOf, cmp)
      decreases |pr| + |qr|
    {
      ghost var before := out;
      var e;
      p, psize, q, qsize, list, e, pr, qr := MergeOne(p, psize, q, qsize, list, tail, cmp, pr, qr, after, out);
      tail := e;
      out := before + [e];
    }
    AppendNothing(out);
    AppendNothing(after);
  }

  // ---------------------------------------------------------------- one pass

  /** The second run starts where the first one ends, after at most insize elements. */
  method FindSecondRun(p: Handle, insize: nat, ghost rest: seq<Handle>) returns (q: Handle?, psize: nat)
    requires Linked(rest) && rest != [] && p == rest[0] && insize > 0
    ensures psize == Min(insize, |rest|) && q == First(rest[psize..])
  {
    q, psize := p, 0;
    var i := 0;
    while i < insize
      invariant 0 <= i <= insize && i == psize <= |rest| && q == (if psize < |rest| then rest[psize] else null)
      invariant i < insize ==> psize < |rest|
    {
      psize := psize + 1;
      q := q.next;
      if q == null {
        break;
      }
      i := i + 1;
    }
    assert psize < |rest| ==> rest[psize..][0] == rest[psize];
  }

  /** A list cut into two runs and what follows them. */
  lemma RunsOf(rest: seq<Handle>, k: nat, out: seq<Handle>)
    requires Linked(rest) && Distinct(rest) && Apart(out, rest) && rest != [] && k > 0
    ensures var a, b := Min(k, |rest|), Min(2 * k, |rest|);
      Merging(rest[0], a, First(rest[a..]), k, rest[..a], rest[a..b], rest[b..], out)
  {
    var a, b := Min(k, |rest|), Min(2 * k, |rest|);
    var pr, qr, after := rest[..a], rest[a..b], rest[b..];
    assert qr + after == rest[a..];
    SuffixLinked(rest, a);
    PrefixRun(rest, a);
    CutApart(rest, a);
    assert forall x :: x in pr ==> x in rest;
    assert forall x :: x in rest[a..] ==> x in rest;
  }

  lemma SuffixLinked(rest: seq<Handle>, a: nat)
    requires Linked(rest) && a <= |rest|
    ensures Linked(rest[a..])
  {
    forall i | 0 <= i < |rest[a..]|
      ensures rest[a..][i].next == Succ(rest[a..], i)
    {
      assert rest[a..][i] == rest[a + i] && rest[a + i].next == Succ(rest, a + i);
    }
  }

  lemma PrefixRun(rest: seq<Handle>, a: nat)
    requires Linked(rest) && a <= |rest|
    ensures Run(rest[..a])
  {
    forall i | 0 <= i < |rest[..a]| - 1
      ensures rest[..a][i].next == Succ(rest[..a], i)
    {
      assert rest[i].next == Succ(rest, i);
    }
  }

  lemma CutApart(rest: seq<Handle>, a: nat)
    requires Distinct(rest) && a <= |rest|
    ensures Apart(rest[..a], rest[a..])
  {
    forall x | x in rest[..a]
      ensures x !in rest[a..]
    {
      var i :| 0 <= i < |rest[..a]| && rest[..a][i] == x;
      assert forall j :: 0 <= j < |rest[a..]| ==> rest[a..][j] == rest[a + j];
    }
  }

  /** The variables of a pass between two merges. */
  ghost predicate Passing(p: Handle?, list: Handle?, tail: Handle?, rest: seq<Handle>, out: seq<Handle>,
          nodes: set<Handle>)
    reads rest`next, out`next, out`prev
  {
    && p == First(rest) && Linked(rest) && Distinct(rest) && Apart(out, rest)
    && Front(out) && tail == Last(out) && list == First(out)
    && Within(rest, nodes) && Within(out, nodes)
  }

  /** One turn of the loop of a pass: the next two runs are merged. */
  method PassOne(p: Handle, insize: nat, list: Handle?, tail: Handle?, cmp: Compare,
                 ghost rest: seq<Handle>, ghost out: seq<Handle>, ghost nodes: set<Handle>)
    returns (q: Handle?, list': Handle?, tail': Handle?, ghost out': seq<Handle>)
    requires Passing(p, list, tail, rest, out, nodes) && rest != [] && insize > 0
    modifies nodes`next, nodes`prev
    ensures Passing(q, list', tail', rest[Min(2 * insize, |rest|)..], out', nodes)
    ensures var a, b := Min(insize, |rest|), Min(2 * insize, |rest|);
      out' == out + Merge(rest[..a], rest[a..b], EntryOf, cmp)
  {
    var psize;
    q, psize := FindSecondRun(p, insize, rest);
    ghost var b := Min(2 * insize, |rest|);
    RunsOf(rest, insize, out);
    assert Within(rest[..psize], nodes) && Within(rest[psize..b], nodes) && Within(rest[b..], nodes);
    q, list', tail', out' :=
      MergeLoop(p, psize, q, insize, list, tail, cmp, rest[..psize], rest[psize..b], rest[b..], out, nodes);
  }

  /** One pass of `HASH_SRT`. */
  method OnePass(list: Handle, insize: nat, cmp: Compare, ghost cur: seq<Handle>, ghost nodes: set<Handle>)
    returns (list': Handle, tail: Handle, nmerges: nat, ghost cur': seq<Handle>)
    requires AppList(cur) && cur != [] && list == First(cur) && insize > 0 && Within(cur, nodes)
    modifies nodes`next, nodes`prev
    ensures AppList(cur') && cur' == Pass(cur, insize, EntryOf, cmp) && Within(cur', nodes)
    ensures list' == First(cur') && tail == Last(cur')
    ensures nmerges <= 1 <==> |cur| <= 2 * insize
  {
    var p: Handle?, l: Handle?, t: Handle? := list, null, null;
    nmerges := 0;
    ghost var rest, out: seq<Handle> := cur, [];
    ListDistinct(cur);
    AppendNothing(Pass(cur, insize, EntryOf, cmp));
    while p != null
      invariant Passing(p, l, t, rest, out, nodes)
      invariant out + Pass(rest, insize, EntryOf, cmp) == Pass(cur, insize, EntryOf, cmp)
      invariant nmerges == 0 ==> |rest| == |cur|
      invariant nmerges == 1 ==> |rest| == |cur| - Min(2 * insize, |cur|)
      invariant nmerges >= 2 ==> |cur| > 2 * insize
      decreases |rest|
    {
      nmerges := nmerges + 1;
      ghost var before := out;
      PassTurn(before, rest, insize, cmp);
      p, l, t, out := PassOne(p, insize, l, t, cmp, rest, out, nodes);
      rest := rest[Min(2 * insize, |rest|)..];
    }
    AppendNothing(out);
    CloseList(t, out);
    list', tail, cur' := l, t, out;
  }

  lemma PassTurn(out: seq<Handle>, rest: seq<Handle>, k: nat, cmp: Compare)
    requires rest != [] && k > 0
    ensures var a, b := Min(k, |rest|), Min(2 * k, |rest|);
      out + Pass(rest, k, EntryOf, cmp) ==
        (out + Merge(rest[..a], rest[a..b], EntryOf, cmp)) + Pass(rest[b..], k, EntryOf, cmp)
  {
    var a, b := Min(k, |rest|), Min(2 * k, |rest|);
    AppendAssociates(out, Merge(rest[..a], rest[a..b], EntryOf, cmp), Pass(rest[b..], k, EntryOf, cmp));
  }

  /** The end of a pass: the last element gets a NULL. */
  method CloseList(tail: Handle, ghost out: seq<Handle>)
    requires Front(out) && out != [] && tail == Last(out)
    modifies tail`next
    ensures AppList(out)
  {
    forall k | 0 <= k < |out| - 1
      ensures out[k] != tail
    {
      FrontApart(out, k, |out| - 1);
    }
    tail.next := null;
  }

  // ---------------------------------------------------------------- all passes

  /** `HASH_SRT`: the passes double the length of the runs until one merge covers the list. */
  method SortList(head: Handle, cmp: Compare, ghost items: seq<Handle>, ghost nodes: set<Handle>)
    returns (list: Handle, tail: Handle, ghost sorted: seq<Handle>)
    requires AppList(items) && items != [] && head == First(items) && Within(items, nodes)
    modifies nodes`next, nodes`prev
    ensures AppList(sorted) && sorted == SortFrom(items, 1, EntryOf, cmp) && Within(sorted, nodes)
    ensures list == First(sorted) && tail == Last(sorted)
  {
    var insize, looping := 1, true;
    list, tail, sorted := head, head, items;
    while looping
      invariant insize > 0 && AppList(sorted) && sorted != [] && list == First(sorted) && Within(sorted, nodes)
      invariant looping ==> SortFrom(sorted, insize, EntryOf, cmp) == SortFrom(items, 1, EntryOf, cmp)
      invariant !looping ==> sorted == SortFrom(items, 1, EntryOf, cmp) && tail == Last(sorted)
      decreases looping, if |sorted| > insize then |sorted| - insize else 0
    {
      var nmerges;
      list, tail, nmerges, sorted := OnePass(list, insize, cmp, sorted, nodes);
      if nmerges <= 1 {
        looping := false;
      }
      insize := insize * 2;
    }
  }
}
