/**
 The hash table: an index of buckets over the elements, next to the list of all elements in the order they
 were added. `Valid` is what `HASH_FSCK` checks.
 */
module HashTables {
  import opened Seqs
  import opened HashBits
  import opened HashExpansion
  import opened HashHandles
  import BottomUpSort
  import HashSort

  const INITIAL_NUM_BUCKETS: nat := 32
  const INITIAL_NUM_BUCKETS_LOG2: nat := 5
  const BKT_CAPACITY_THRESH: nat := 10

  type Hash = string -> nat

  /** The bucket of a key. */
  function Slot(hash: Hash, key: string, n: nat): (b: nat)
    requires n > 0
    ensures b < n
  {
    BitAnd(hash(key), n - 1)
  }

  lemma SlotIsRemainder(hash: Hash, key: string, log2: nat)
    ensures Slot(hash, key, Pow2(log2)) == hash(key) % Pow2(log2)
  {
    MaskIsMod(hash(key), log2);
  }

  /** No two elements with the same key. */
  ghost predicate UniqueKeys(items: seq<Handle>) {
    items == [] ||
    (UniqueKeys(items[..|items| - 1]) && items[|items| - 1].key !in Contents(items[..|items| - 1]))
  }

  /** The finite map the table stands for. */
  ghost function Contents(items: seq<Handle>): map<string, Handle> {
    if items == [] then map[] else Contents(items[..|items| - 1])[items[|items| - 1].key := items[|items| - 1]]
  }

  lemma {:induction false} ContentsAre(items: seq<Handle>)
    requires UniqueKeys(items)
    ensures forall k :: k in Contents(items) ==> Contents(items)[k] in items && Contents(items)[k].key == k
    ensures forall h :: h in items ==> h.key in Contents(items) && Contents(items)[h.key] == h
  {
    if items != [] {
      var front, last := items[..|items| - 1], items[|items| - 1];
      ContentsAre(front);
      assert items == front + [last];
    }
  }

  lemma ContentsAdd(items: seq<Handle>, h: Handle)
    ensures Contents(items + [h]) == Contents(items)[h.key := h]
  {
    assert (items + [h])[..|items|] == items;
  }

  lemma WithoutFront(items: seq<Handle>, i: nat)
    requires i < |items|
    ensures items == items[..|items| - 1] + [items[|items| - 1]]
    ensures i == |items| - 1 ==> RemoveIndex(items, i) == items[..|items| - 1]
    ensures i < |items| - 1 ==> RemoveIndex(items, i) == RemoveIndex(items[..|items| - 1], i) + [items[|items| - 1]]
  {
  }

  /** Removing an element removes its key, and keys stay unique. */
  lemma {:induction false} ContentsRemove(items: seq<Handle>, i: nat)
    requires UniqueKeys(items) && i < |items|
    ensures Contents(RemoveIndex(items, i)) == Contents(items) - {items[i].key}
    ensures UniqueKeys(RemoveIndex(items, i))
  {
    var front, last := items[..|items| - 1], items[|items| - 1];
    WithoutFront(items, i);
    if i < |items| - 1 {
      ContentsRemove(front, i);
      ContentsAdd(RemoveIndex(front, i), last);
      ContentsAre(front);
      assert front[i] in front && front[i] == items[i];
      RemoveCommutes(Contents(front), last.key, last, items[i].key);
      UniqueAdd(RemoveIndex(front, i), last);
    } else {
      RemoveAdded(Contents(front), last.key, last);
    }
  }

  lemma RemoveAdded<K, V>(m: map<K, V>, k: K, v: V)
    requires k !in m
    ensures m[k := v] - {k} == m
  {
  }

  lemma UniqueAdd(items: seq<Handle>, x: Handle)
    requires UniqueKeys(items) && x.key !in Contents(items)
    ensures UniqueKeys(items + [x])
  {
    assert (items + [x])[..|items|] == items;
  }

  lemma RemovedThenAdded<K, V>(m: map<K, V>, k: K, v: V)
    ensures k !in m - {k} && (m - {k})[k := v] == m[k := v]
  {
  }

  lemma RemoveCommutes<K, V>(m: map<K, V>, k: K, v: V, removed: K)
    requires k != removed
    ensures (m - {removed})[k := v] == m[k := v] - {removed}
  {
  }

  /** The chains partition the elements by slot. */
  ghost predicate Partition(hash: Hash, items: set<Handle>, chains: seq<seq<Handle>>) {
    && |chains| > 0
    && (forall b, x {:trigger x in chains[b]} :: 0 <= b < |chains| && x in chains[b] ==>
          x in items && Slot(hash, x.key, |chains|) == b)
    && (forall x :: x in items ==> x in chains[Slot(hash, x.key, |chains|)])
  }

  /** Twice as many chains: each old chain b has become the new chains b and b + n. */
  ghost predicate SplitInTwo(chains: seq<seq<Handle>>, newChains: seq<seq<Handle>>) {
    |newChains| == 2 * |chains| &&
    forall b :: 0 <= b < |chains| ==>
      Elements(chains[b]) == Elements(newChains[b]) + Elements(newChains[b + |chains|])
  }

  lemma SlotSplits(hash: Hash, key: string, log2: nat)
    ensures var n, s := Pow2(log2), Slot(hash, key, Pow2(log2 + 1));
      s == Slot(hash, key, n) || s == Slot(hash, key, n) + n
  {
    var n, h := Pow2(log2), hash(key);
    SlotIsRemainder(hash, key, log2);
    SlotIsRemainder(hash, key, log2 + 1);
    ResidueSplits(h, n);
    Halves(h % (2 * n), n);
  }

  lemma Halves(r: nat, n: nat)
    requires n > 0 && r < 2 * n
    ensures r == r % n || r == r % n + n
  {
    if r < n {
      Modular.Quotient(r, n, 0, r);
    } else {
      Modular.Quotient(r, n, 1, r - n);
    }
  }

  lemma OfChain(hash: Hash, items: set<Handle>, chains: seq<seq<Handle>>, b: nat)
    requires Partition(hash, items, chains) && b < |chains|
    ensures Elements(chains[b]) == set x | x in items && x in chains[b]
  {
  }

  /** Doubling the buckets splits every chain in two. */
  lemma ExpansionSplits(hash: Hash, items: set<Handle>, chains: seq<seq<Handle>>, newChains: seq<seq<Handle>>,
          log2: nat)
    requires Partition(hash, items, chains) && |chains| == Pow2(log2)
    requires Partition(hash, items, newChains) && |newChains| == Pow2(log2 + 1)
    ensures SplitInTwo(chains, newChains)
  {
    var n := |chains|;
    forall b | 0 <= b < n
      ensures Elements(chains[b]) == Elements(newChains[b]) + Elements(newChains[b + n])
    {
      forall x | x in items
        ensures x in chains[b] <==> x in newChains[b] || x in newChains[b + n]
      {
        SlotSplits(hash, x.key, log2);
      }
      OfChain(hash, items, chains, b);
      OfChain(hash, items, newChains, b);
      OfChain(hash, items, newChains, b + n);
    }
  }

  // ---------------------------------------------------------------- expansion

  /** Buckets filled during an expansion with some of the elements. */
  ghost predicate Filled(hash: Hash, buckets: array<Bucket>, chains: seq<seq<Handle>>, ideal: nat, done: set<Handle>)
    reads buckets, done`hhNext, done`hhPrev
  {
    && buckets.Length == |chains|
    && Partition(hash, done, chains)
    && HoldAll(buckets, chains, done)
    && (forall b :: 0 <= b < |chains| ==> buckets[b].expandMult == Multiplier(|chains[b]|, ideal))
  }

  /** Every bucket stands for its chain. */
  ghost predicate HoldAll(buckets: array<Bucket>, chains: seq<seq<Handle>>, items: set<Handle>)
    requires buckets.Length == |chains|
    reads buckets, items`hhNext, items`hhPrev
  {
    forall b :: 0 <= b < |chains| ==> Within(chains[b], items) && Holds(buckets[b], chains[b])
  }

  lemma PartitionAdd(hash: Hash, done: set<Handle>, chains: seq<seq<Handle>>, x: Handle)
    requires Partition(hash, done, chains)
    ensures var b := Slot(hash, x.key, |chains|);
      Partition(hash, done + {x}, chains[b := [x] + chains[b]])
  {
  }

  /** Nodes of other chains are none of the nodes that linking into chain b writes to. */
  lemma OthersUntouched(hash: Hash, items: set<Handle>, chains: seq<seq<Handle>>, b: nat, k: nat, x: Handle)
    requires Partition(hash, items, chains) && b < |chains| && k < |chains| && k != b && x !in items
    ensures x !in chains[k] && (chains[b] != [] ==> chains[b][0] !in chains[k])
  {
    assert chains[b] != [] ==> chains[b][0] in chains[b];
  }

  /** `HASH_ADD_TO_BKT` without the expansion: one bucket gets the element, the others keep their chains. */
  method PutFront(hash: Hash, buckets: array<Bucket>, b: nat, x: Handle, mult: nat,
                  ghost chains: seq<seq<Handle>>, ghost items: set<Handle>)
    returns (ghost chains': seq<seq<Handle>>)
    requires Partition(hash, items, chains) && buckets.Length == |chains| && b < |chains|
    requires HoldAll(buckets, chains, items) && x !in items && b == Slot(hash, x.key, |chains|)
    modifies buckets, x`hhNext, x`hhPrev, items`hhPrev
    ensures chains' == chains[b := [x] + chains[b]]
    ensures Partition(hash, items + {x}, chains') && HoldAll(buckets, chains', items + {x})
    ensures buckets[b].expandMult == mult
    ensures forall k :: 0 <= k < |chains| && k != b ==> buckets[k] == old(buckets[k])
  {
    PartitionAdd(hash, items, chains, x);
    forall k | 0 <= k < |chains| && k != b
      ensures x !in chains[k] && (chains[b] != [] ==> chains[b][0] !in chains[k])
    {
      OthersUntouched(hash, items, chains, b, k, x);
    }
    assert forall k :: 0 <= k < |chains| ==> Within(chains[k], items) && Holds(buckets[k], chains[k]);
    assert chains[b] != [] ==> chains[b][0] in chains[b];
    var linked := LinkFront(buckets[b], x, chains[b]);
    assert forall k :: 0 <= k < |chains| && k != b ==> Holds(buckets[k], chains[k]);
    assert Holds(linked.(expandMult := mult), [x] + chains[b]);
    buckets[b] := linked.(expandMult := mult);
    chains' := chains[b := [x] + chains[b]];
    forall k | 0 <= k < |chains'|
      ensures Within(chains'[k], items + {x}) && Holds(buckets[k], chains'[k])
    {
      if k != b {
        assert chains'[k] == chains[k];
      }
    }
  }

  /** One turn of the loop over a chain: the element moves to the front of its new chain. */
  method MoveOne(hash: Hash, buckets: array<Bucket>, log2: nat, ideal: nat, nonideal: nat, x: Handle,
                 ghost chains: seq<seq<Handle>>, ghost done: set<Handle>)
    returns (nonideal': nat, ghost chains': seq<seq<Handle>>)
    requires Filled(hash, buckets, chains, ideal, done) && buckets.Length == Pow2(log2)
    requires x !in done && x.hashv == hash(x.key) && nonideal == Excess(chains, ideal)
    modifies buckets, x`hhNext, x`hhPrev, done`hhPrev
    ensures Filled(hash, buckets, chains', ideal, done + {x}) && |chains'| == |chains|
    ensures nonideal' == Excess(chains', ideal) && Total(chains') == Total(chains) + 1
  {
    var b := BitAnd(x.hashv, buckets.Length - 1);
    nonideal' := nonideal;
    ExcessUpdate(chains, b, [x] + chains[b], ideal);
    TotalUpdate(chains, b, [x] + chains[b]);
    var count, mult := buckets[b].count + 1, buckets[b].expandMult;
    if count > ideal {
      nonideal' := nonideal + 1;
      if count > mult * ideal {
        mult := mult + 1;
      }
    }
    chains' := PutFront(hash, buckets, b, x, mult, chains, done);
  }

  /** The elements of a sequence. */
  ghost function Elements(s: seq<Handle>): set<Handle> {
    set x | x in s
  }

  lemma ElementsStep(s: seq<Handle>, i: nat)
    requires i < |s|
    ensures Elements(s[..i + 1]) == Elements(s[..i]) + {s[i]}
    ensures Distinct(s) ==> s[i] !in Elements(s[..i])
  {
    assert s[..i + 1] == s[..i] + [s[i]];
  }

  /** The elements of a chain carry the hash values of their keys. */
  ghost predicate Hashed(hash: Hash, s: seq<Handle>)
    reads s`hashv
  {
    forall x :: x in s ==> x.hashv == hash(x.key)
  }

  /** The inner loop of `HASH_EXPAND_BUCKETS`: a whole chain moves to the new buckets. */
  method MoveChain(hash: Hash, buckets: array<Bucket>, log2: nat, ideal: nat, nonideal: nat, head: Handle?,
                   ghost s: seq<Handle>, ghost chains: seq<seq<Handle>>, ghost done: set<Handle>)
    returns (nonideal': nat, ghost chains': seq<seq<Handle>>)
    requires Filled(hash, buckets, chains, ideal, done) && buckets.Length == Pow2(log2)
    requires Forward(s) && head == First(s) && Hashed(hash, s) && done !! Elements(s)
    requires nonideal == Excess(chains, ideal)
    modifies buckets, s`hhNext, s`hhPrev, done`hhPrev
    ensures Filled(hash, buckets, chains', ideal, done + Elements(s)) && |chains'| == |chains|
    ensures nonideal' == Excess(chains', ideal) && Total(chains') == Total(chains) + |s|
  {
    var thh := head;
    ghost var i := 0;
    nonideal', chains' := nonideal, chains;
    assert done + Elements(s[..0]) == done;
    ChainDistinct(s);
    while thh != null
      invariant 0 <= i <= |s| && thh == (if i < |s| then s[i] else null)
      invariant forall j :: i <= j < |s| ==> s[j].hhNext == Succ(s, j)
      invariant Filled(hash, buckets, chains', ideal, done + Elements(s[..i])) && |chains'| == |chains|
      invariant nonideal' == Excess(chains', ideal) && Total(chains') == Total(chains) + i
      decreases |s| - i
    {
      var next := thh.hhNext;
      ElementsStep(s, i);
      assert s[i] in s && s[i] in Elements(s);
      assert done + Elements(s[..i + 1]) == (done + Elements(s[..i])) + {s[i]};
      nonideal', chains' := MoveOne(hash, buckets, log2, ideal, nonideal', thh, chains', done + Elements(s[..i]));
      thh := next;
      i := i + 1;
    }
    assert s[..i] == s;
  }

  /** The elements of the first b chains. */
  ghost function Before(hash: Hash, items: set<Handle>, n: nat, b: nat): set<Handle>
    requires n > 0
  {
    set x | x in items && Slot(hash, x.key, n) < b
  }

  lemma BeforeStep(hash: Hash, items: set<Handle>, chains: seq<seq<Handle>>, b: nat)
    requires Partition(hash, items, chains) && b < |chains|
    ensures Before(hash, items, |chains|, b + 1) == Before(hash, items, |chains|, b) + Elements(chains[b])
    ensures Before(hash, items, |chains|, b) !! Elements(chains[b])
  {
  }

  lemma EmptyTable(hash: Hash, chains: seq<seq<Handle>>, ideal: nat)
    requires chains != [] && forall b :: 0 <= b < |chains| ==> chains[b] == []
    ensures Partition(hash, {}, chains) && Total(chains) == 0 && Excess(chains, ideal) == 0
  {
    NoTotal(chains);
    NoExcess(chains, ideal);
  }

  /** The ideal chain length for twice as many buckets, by shift and mask. */
  method IdealLength(numItems: nat, log2: nat, size: nat) returns (ideal: nat)
    requires numItems > 0 && size == Pow2(log2)
    ensures ideal == CeilDiv(numItems, size) && ideal > 0
  {
    ideal := ShiftRight(numItems, log2) + if BitAnd(numItems, size - 1) != 0 then 1 else 0;
    CeilByBits(numItems, log2);
    CeilDivIs(numItems, size);
  }

  /** The multiplier of every bucket is the one its count calls for, and it bounds the chain. */
  ghost predicate Bounded(buckets: array<Bucket>, ideal: nat)
    reads buckets
  {
    forall b :: 0 <= b < buckets.Length ==>
      buckets[b].expandMult == Multiplier(buckets[b].count, ideal)
      && buckets[b].count <= (buckets[b].expandMult + 1) * ideal
  }

  lemma FilledIsBounded(hash: Hash, buckets: array<Bucket>, chains: seq<seq<Handle>>, ideal: nat, done: set<Handle>)
    requires Filled(hash, buckets, chains, ideal, done) && ideal > 0
    ensures Bounded(buckets, ideal)
  {
    forall b | 0 <= b < buckets.Length
      ensures buckets[b].expandMult == Multiplier(buckets[b].count, ideal)
      ensures buckets[b].count <= (buckets[b].expandMult + 1) * ideal
    {
      assert Holds(buckets[b], chains[b]);
      MultiplierBounds(buckets[b].count, ideal);
    }
  }

  lemma BeforeAll(hash: Hash, items: set<Handle>, n: nat)
    requires n > 0
    ensures Before(hash, items, n, 0) == {} && Before(hash, items, n, n) == items
  {
  }

  method EmptyBuckets(n: nat) returns (buckets: array<Bucket>)
    ensures fresh(buckets) && buckets.Length == n && forall b :: 0 <= b < n ==> buckets[b] == Bucket(null, 0, 0)
  {
    buckets := new Bucket[n](_ => Bucket(null, 0, 0));
  }

  ghost function NoChains(n: nat): (chains: seq<seq<Handle>>)
    ensures |chains| == n && forall b :: 0 <= b < n ==> chains[b] == []
  {
    seq(n, _ => [])
  }

  lemma InitialSize()
    ensures INITIAL_NUM_BUCKETS == Pow2(INITIAL_NUM_BUCKETS_LOG2)
  {
    assert Pow2(5) == 2 * Pow2(4) && Pow2(4) == 2 * Pow2(3) && Pow2(3) == 8;
  }

  lemma NothingFilled(hash: Hash, buckets: array<Bucket>, chains: seq<seq<Handle>>, ideal: nat)
    requires chains != [] && |chains| == buckets.Length
    requires forall b :: 0 <= b < |chains| ==> chains[b] == []
    requires forall b :: 0 <= b < |chains| ==> buckets[b] == Bucket(null, 0, 0)
    ensures Filled(hash, buckets, chains, ideal, {}) && Total(chains) == 0 && Excess(chains, ideal) == 0
  {
    EmptyTable(hash, chains, ideal);
  }

  lemma OtherChain(hash: Hash, items: set<Handle>, chains: seq<seq<Handle>>, b: nat, k: nat)
    requires Partition(hash, items, chains) && b < |chains| && k < |chains| && k != b
    ensures forall i :: 0 <= i < |chains[k]| ==> chains[k][i] in chains[k] && chains[k][i] !in chains[b]
  {
    forall i | 0 <= i < |chains[k]|
      ensures chains[k][i] in chains[k] && chains[k][i] !in chains[b]
    {
      var x := chains[k][i];
      assert x in chains[k];
      assert x in items && Slot(hash, x.key, |chains|) == k;
    }
  }

  /** The elements of chain b, and the first b chains, as the loop over the old buckets finds them. */
  lemma ChainAt(hash: Hash, items: set<Handle>, chains: seq<seq<Handle>>, b: nat)
    requires Partition(hash, items, chains) && b < |chains| && HashedAll(hash, items)
    ensures Hashed(hash, chains[b]) && Within(chains[b], items)
    ensures Before(hash, items, |chains|, b + 1) == Before(hash, items, |chains|, b) + Elements(chains[b])
    ensures Before(hash, items, |chains|, b) !! Elements(chains[b])
    ensures Before(hash, items, |chains|, b) <= items
  {
    BeforeStep(hash, items, chains, b);
  }

  /** Every element carries the hash value of its key. */
  ghost predicate HashedAll(hash: Hash, items: set<Handle>)
    reads items`hashv
  {
    forall x :: x in items ==> x.hashv == hash(x.key)
  }

  ghost predicate ForwardFrom(chains: seq<seq<Handle>>, items: set<Handle>, b: nat)
    reads items`hhNext
  {
    forall k :: b <= k < |chains| ==> Within(chains[k], items) && Forward(chains[k])
  }

  /** The outer loop of `HASH_EXPAND_BUCKETS`. */
  method MoveAll(hash: Hash, buckets: array<Bucket>, newBuckets: array<Bucket>, log2: nat, ideal: nat,
                 ghost chains: seq<seq<Handle>>, ghost items: set<Handle>)
    returns (nonideal: nat, ghost newChains: seq<seq<Handle>>)
    requires buckets.Length == |chains| && newBuckets != buckets && newBuckets.Length == Pow2(log2)
    requires Partition(hash, items, chains) && HoldAll(buckets, chains, items) && HashedAll(hash, items)
    requires forall b :: 0 <= b < newBuckets.Length ==> newBuckets[b] == Bucket(null, 0, 0)
    modifies newBuckets, items`hhNext, items`hhPrev
    ensures Filled(hash, newBuckets, newChains, ideal, items)
    ensures nonideal == Excess(newChains, ideal) && Total(newChains) == Total(chains)
  {
    nonideal, newChains := 0, seq(newBuckets.Length, _ => []);
    NothingFilled(hash, newBuckets, newChains, ideal);
    BeforeAll(hash, items, |chains|);
    assert chains[..0] == [] && ForwardFrom(chains, items, 0);
    assert forall k :: 0 <= k < |chains| ==> Holds(buckets[k], chains[k]);
    var b := 0;
    while b < buckets.Length
      invariant 0 <= b <= |chains| && |newChains| == newBuckets.Length
      invariant Filled(hash, newBuckets, newChains, ideal, Before(hash, items, |chains|, b))
      invariant nonideal == Excess(newChains, ideal) && Total(newChains) == Total(chains[..b])
      invariant ForwardFrom(chains, items, b)
      invariant forall k :: 0 <= k < |chains| ==> buckets[k].head == First(chains[k])
    {
      ghost var moved := Total(chains[..b]);
      TotalPrefix(chains, b);
      ChainAt(hash, items, chains, b);
      nonideal, newChains := MoveChain(hash, newBuckets, log2, ideal, nonideal, buckets[b].head, chains[b], newChains,
                                       Before(hash, items, |chains|, b));
      forall k | b + 1 <= k < |chains|
        ensures Within(chains[k], items) && Forward(chains[k])
      {
        OtherChain(hash, items, chains, b, k);
      }
      b := b + 1;
      assert Total(newChains) == moved + |chains[b - 1]| == Total(chains[..b]);
    }
    assert chains[..b] == chains;
  }

  lemma ElementsAdd(items: seq<Handle>, x: Handle)
    ensures Elements(items + [x]) == Elements(items) + {x} && (items == [] ==> Elements(items) == {})
  {
  }

  lemma ElementsWithout(items: seq<Handle>, i: nat)
    requires i < |items| && AppList(items)
    ensures Elements(RemoveIndex(items, i)) == Elements(items) - {items[i]}
  {
    ListDistinct(items);
    RemovedDistinct(items, i);
  }

  /** Elements in another order stand for the same map. */
  lemma {:induction false} ContentsPermuted(a: seq<Handle>, b: seq<Handle>)
    requires UniqueKeys(a) && multiset(b) == multiset(a)
    ensures UniqueKeys(b) && Contents(b) == Contents(a)
    decreases |b|
  {
    if b == [] {
      NothingPermuted(a);
    } else {
      var front, x := b[..|b| - 1], b[|b| - 1];
      assert b == front + [x];
      assert x in multiset(a);
      var i :| 0 <= i < |a| && a[i] == x;
      WithoutMultiset(a, i);
      ContentsRemove(a, i);
      ContentsPermuted(RemoveIndex(a, i), front);
      ContentsAre(a);
      PutBackRemoved(Contents(a), x.key);
    }
  }

  /** Sorted elements stand for the same map. */
  lemma SortedStands(a: seq<Handle>, sorted: seq<Handle>, cmp: BottomUpSort.Compare)
    requires UniqueKeys(a) && sorted == BottomUpSort.SortFrom(a, 1, HashSort.EntryOf, cmp)
    ensures UniqueKeys(sorted) && Contents(sorted) == Contents(a)
    ensures Elements(sorted) == Elements(a) && |sorted| == |a|
  {
    BottomUpSort.SortPermutes(a, 1, HashSort.EntryOf, cmp);
    ContentsPermuted(a, sorted);
    SameElements(a, sorted);
  }

  lemma SameElements(a: seq<Handle>, b: seq<Handle>)
    requires multiset(b) == multiset(a)
    ensures Elements(b) == Elements(a) && |b| == |a|
  {
    assert forall x :: x in b <==> x in multiset(b);
    assert forall x :: x in a <==> x in multiset(a);
    assert |multiset(a)| == |a| && |multiset(b)| == |b|;
  }

  lemma NothingPermuted(a: seq<Handle>)
    requires multiset(a) == multiset([])
    ensures a == []
  {
    assert |multiset(a)| == |a|;
  }

  lemma WithoutMultiset(a: seq<Handle>, i: nat)
    requires i < |a|
    ensures multiset(RemoveIndex(a, i)) == multiset(a) - multiset{a[i]}
  {
    assert a == a[..i] + [a[i]] + a[i + 1..];
  }

  lemma PutBackRemoved<K, V>(m: map<K, V>, k: K)
    requires k in m
    ensures (m - {k})[k := m[k]] == m
  {
  }

  lemma PartitionRemove(hash: Hash, items: set<Handle>, chains: seq<seq<Handle>>, x: Handle, k: nat)
    requires Partition(hash, items, chains) && x in items
    requires var b := Slot(hash, x.key, |chains|); k < |chains[b]| && chains[b][k] == x && Distinct(chains[b])
    ensures var b := Slot(hash, x.key, |chains|); Partition(hash, items - {x}, chains[b := RemoveIndex(chains[b], k)])
  {
    RemovedDistinct(chains[Slot(hash, x.key, |chains|)], k);
  }

  /** Nodes of other chains are none of the nodes that unlinking from chain b writes to. */
  lemma NeighboursElsewhere(hash: Hash, items: set<Handle>, chains: seq<seq<Handle>>, b: nat, k: nat)
    requires Partition(hash, items, chains) && b < |chains| && k < |chains| && k != b
    ensures forall i :: 0 <= i < |chains[b]| ==> chains[b][i] !in chains[k]
  {
    assert forall i :: 0 <= i < |chains[b]| ==> chains[b][i] in chains[b];
  }

  /** `HASH_DEL_IN_BKT` in the array of buckets. */
  method TakeOut(hash: Hash, buckets: array<Bucket>, b: nat, x: Handle, ghost i: nat,
                 ghost chains: seq<seq<Handle>>, ghost items: set<Handle>)
    returns (ghost chains': seq<seq<Handle>>)
    requires Partition(hash, items, chains) && buckets.Length == |chains| && b < |chains|
    requires HoldAll(buckets, chains, items) && x in items && b == Slot(hash, x.key, |chains|)
    requires i < |chains[b]| && chains[b][i] == x
    modifies buckets, items`hhNext, items`hhPrev
    ensures chains' == chains[b := RemoveIndex(chains[b], i)]
    ensures Partition(hash, items - {x}, chains') && HoldAll(buckets, chains', items - {x})
    ensures forall k :: 0 <= k < |chains| ==> buckets[k].expandMult == old(buckets[k].expandMult)
  {
    ghost var rest := RemoveIndex(chains[b], i);
    assert forall k :: 0 <= k < |chains| ==> Within(chains[k], items) && Holds(buckets[k], chains[k]);
    assert Partition(hash, items - {x}, chains[b := rest]) && Within(rest, items - {x}) by {
      ChainDistinct(chains[b]);
      RemovedDistinct(chains[b], i);
      PartitionRemove(hash, items, chains, x, i);
    }
    forall k | 0 <= k < |chains| && k != b
      ensures forall j :: 0 <= j < |chains[b]| ==> chains[b][j] !in chains[k]
    {
      NeighboursElsewhere(hash, items, chains, b, k);
    }
    assert forall j :: 0 <= j < |chains[b]| ==> chains[b][j] in chains[b];
    var bucket := UnlinkChain(buckets[b], x, chains[b], i);
    assert forall k :: 0 <= k < |chains| && k != b ==> Holds(buckets[k], chains[k]);
    buckets[b] := bucket;
    assert Holds(bucket, rest);
    chains' := chains[b := rest];
    forall k | 0 <= k < |chains'|
      ensures Within(chains'[k], items - {x}) && Holds(buckets[k], chains'[k])
    {
      if k != b {
        assert chains'[k] == chains[k];
      } else {
        assert chains'[k] == rest;
      }
    }
  }

  /** `HASH_FIND_IN_BKT`: hash values are compared before keys. */
  method FindInBucket(hash: Hash, bucket: Bucket, key: string, hashv: nat, ghost s: seq<Handle>) returns (out: Handle?)
    requires Holds(bucket, s) && Hashed(hash, s) && hashv == hash(key)
    ensures out == null ==> forall x :: x in s ==> x.key != key
    ensures out != null ==> out in s && out.key == key
  {
    out := bucket.head;
    ghost var i := 0;
    while out != null
      invariant 0 <= i <= |s| && out == (if i < |s| then s[i] else null)
      invariant forall k :: 0 <= k < i ==> s[k].key != key
      decreases |s| - i
    {
      assert s[i] in s;
      if out.hashv == hashv && out.key == key {
        return;
      }
      out := out.hhNext;
      i := i + 1;
    }
  }

  /** An element with this key is in no other chain. */
  lemma OnlyInSlot(hash: Hash, items: set<Handle>, chains: seq<seq<Handle>>, key: string)
    requires Partition(hash, items, chains)
    ensures forall x :: x in items && x.key == key ==> x in chains[Slot(hash, key, |chains|)]
  {
  }

  // ---------------------------------------------------------------- the table

  class HashTable {
    const hash: Hash
    var head: Handle?
    var tail: Handle?
    var buckets: array<Bucket>
    var numBuckets: nat
    var log2NumBuckets: nat
    var numItems: nat
    var idealChainMaxlen: nat
    var nonidealItems: nat
    var ineffExpands: nat
    var noexpand: bool
    /** The elements in the order they were added, and the chains of the buckets. */
    ghost var items: seq<Handle>
    ghost var chains: seq<seq<Handle>>

    constructor (hash: Hash)
      ensures Valid() && items == [] && this.hash == hash && fresh(buckets)
    {
      this.hash := hash;
      head, tail := null, null;
      buckets := new Bucket[0];
      numBuckets, log2NumBuckets, numItems, idealChainMaxlen, nonidealItems, ineffExpands := 0, 0, 0, 0, 0, 0;
      noexpand := false;
      items, chains := [], [];
    }

    /** The index: the buckets stand for chains that partition these elements. */
    ghost predicate Indexed(its: set<Handle>)
      reads this`buckets, this`numBuckets, this`log2NumBuckets, this`numItems, this`chains
      reads buckets, its`hashv, its`hhNext, its`hhPrev
    {
      && numBuckets == buckets.Length == |chains| == Pow2(log2NumBuckets)
      && Partition(hash, its, chains)
      && HoldAll(buckets, chains, its)
      && numItems == Total(chains)
      && HashedAll(hash, its)
    }

    /** The index does not depend on the list of all elements. */
    twostate lemma IndexKept(its: set<Handle>)
      requires old(Indexed(its)) && unchanged(its`hashv, its`hhNext, its`hhPrev)
      requires unchanged(`buckets, `numBuckets, `log2NumBuckets, `numItems, `chains) && unchanged(old(buckets))
      ensures Indexed(its)
    {
    }

    /** Nor the list on the index. */
    twostate lemma ListKept(s: seq<Handle>)
      requires old(AppList(s)) && unchanged(s`next, s`prev)
      ensures AppList(s)
    {
    }

    /** An empty table has no index: it is made when the first element is added. */
    ghost predicate Valid()
      reads this, buckets, items
    {
      && AppList(items) && UniqueKeys(items) && head == First(items)
      && (items != [] ==> tail == Last(items) && numItems == |items| && Indexed(Elements(items)))
    }

    /**
     `HASH_EXPAND_BUCKETS`: the number of buckets doubles and every element moves to the front of its new
     chain; no element is lost or duplicated, and the statistics describe the new chains.
     */
    method ExpandBuckets(ghost its: set<Handle>)
      requires Indexed(its) && numItems > 0
      modifies this`buckets, this`numBuckets, this`log2NumBuckets, this`idealChainMaxlen, this`nonidealItems
      modifies this`ineffExpands, this`noexpand, this`chains, its`hhNext, its`hhPrev
      ensures Indexed(its) && fresh(buckets)
      ensures numBuckets == 2 * old(numBuckets) && log2NumBuckets == old(log2NumBuckets) + 1
      ensures idealChainMaxlen == CeilDiv(numItems, numBuckets) && idealChainMaxlen > 0
      ensures nonidealItems == Excess(chains, idealChainMaxlen)
      ensures Bounded(buckets, idealChainMaxlen)
      ensures ineffExpands == if nonidealItems > numItems / 2 then old(ineffExpands) + 1 else 0
      ensures noexpand == (old(noexpand) || ineffExpands > 1)
      ensures SplitInTwo(old(chains), chains)
    {
      Redistribute(its);
      label Doubled:
      NoteEffect();
      IndexKept@Doubled(its);
    }

    method Redistribute(ghost its: set<Handle>)
      requires Indexed(its) && numItems > 0
      modifies this`buckets, this`numBuckets, this`log2NumBuckets, this`idealChainMaxlen, this`nonidealItems
      modifies this`chains, its`hhNext, its`hhPrev
      ensures Indexed(its) && fresh(buckets)
      ensures numBuckets == 2 * old(numBuckets) && log2NumBuckets == old(log2NumBuckets) + 1
      ensures idealChainMaxlen == CeilDiv(numItems, numBuckets) && idealChainMaxlen > 0
      ensures nonidealItems == Excess(chains, idealChainMaxlen) && Bounded(buckets, idealChainMaxlen)
      ensures SplitInTwo(old(chains), chains)
    {
      var size := numBuckets * 2;
      idealChainMaxlen := IdealLength(numItems, log2NumBuckets + 1, size);
      DoubleBuckets(size, its);
    }

    /** The new buckets, filled from the old ones, take their place. */
    method DoubleBuckets(size: nat, ghost its: set<Handle>)
      requires Indexed(its) && size == 2 * numBuckets && idealChainMaxlen > 0
      modifies this`buckets, this`numBuckets, this`log2NumBuckets, this`nonidealItems, this`chains
      modifies its`hhNext, its`hhPrev
      ensures Indexed(its) && fresh(buckets)
      ensures numBuckets == size && log2NumBuckets == old(log2NumBuckets) + 1
      ensures nonidealItems == Excess(chains, idealChainMaxlen) && Bounded(buckets, idealChainMaxlen)
      ensures SplitInTwo(old(chains), chains)
    {
      var newBuckets := EmptyBuckets(size);
      ghost var newChains;
      nonidealItems, newChains :=
        MoveAll(hash, buckets, newBuckets, log2NumBuckets + 1, idealChainMaxlen, chains, its);
      FilledIsBounded(hash, newBuckets, newChains, idealChainMaxlen, its);
      InstallBuckets(newBuckets, newChains, its);
    }

    method InstallBuckets(newBuckets: array<Bucket>, ghost newChains: seq<seq<Handle>>, ghost its: set<Handle>)
      requires Filled(hash, newBuckets, newChains, idealChainMaxlen, its) && HashedAll(hash, its)
      requires numItems == Total(newChains) && newBuckets.Length == 2 * numBuckets && numBuckets == Pow2(log2NumBuckets)
      requires Partition(hash, its, chains) && |chains| == numBuckets
      modifies this`buckets, this`numBuckets, this`log2NumBuckets, this`chains
      ensures Indexed(its) && buckets == newBuckets && chains == newChains
      ensures numBuckets == 2 * old(numBuckets) && log2NumBuckets == old(log2NumBuckets) + 1
      ensures SplitInTwo(old(chains), chains)
    {
      ExpansionSplits(hash, its, chains, newChains, log2NumBuckets);
      buckets, chains := newBuckets, newChains;
      numBuckets, log2NumBuckets := numBuckets * 2, log2NumBuckets + 1;
      FilledIsIndexed(its);
    }

    /** The end of `HASH_EXPAND_BUCKETS`: after two ineffective expansions in a row there are no more. */
    method NoteEffect()
      modifies this`ineffExpands, this`noexpand
      ensures ineffExpands == if nonidealItems > numItems / 2 then old(ineffExpands) + 1 else 0
      ensures noexpand == (old(noexpand) || ineffExpands > 1)
    {
      ShiftIsDiv(numItems, 1);
      ineffExpands := if nonidealItems > ShiftRight(numItems, 1) then ineffExpands + 1 else 0;
      if ineffExpands > 1 {
        noexpand := true;
      }
    }

    lemma FilledIsIndexed(its: set<Handle>)
      requires Filled(hash, buckets, chains, idealChainMaxlen, its) && HashedAll(hash, its)
      requires numItems == Total(chains) && buckets.Length == numBuckets == Pow2(log2NumBuckets)
      ensures Indexed(its)
    {
    }

    /** `HASH_MAKE_TABLE`. */
    method MakeTable()
      modifies this`buckets, this`numBuckets, this`log2NumBuckets, this`numItems, this`chains
      modifies this`idealChainMaxlen, this`nonidealItems, this`ineffExpands, this`noexpand
      ensures Indexed({}) && fresh(buckets) && numItems == 0 && numBuckets == INITIAL_NUM_BUCKETS
      ensures idealChainMaxlen == 0 && nonidealItems == 0 && ineffExpands == 0 && !noexpand
      ensures forall b :: 0 <= b < numBuckets ==> buckets[b] == Bucket(null, 0, 0)
    {
      var empty := EmptyBuckets(INITIAL_NUM_BUCKETS);
      ghost var none := NoChains(INITIAL_NUM_BUCKETS);
      NothingFilled(hash, empty, none, 0);
      InitialSize();
      buckets, chains := empty, none;
      numBuckets, log2NumBuckets := INITIAL_NUM_BUCKETS, INITIAL_NUM_BUCKETS_LOG2;
      numItems, idealChainMaxlen, nonidealItems, ineffExpands, noexpand := 0, 0, 0, 0, false;
    }

    /** Does adding an element with this key expand the buckets? */
    ghost predicate Expands(key: string)
      requires numBuckets == buckets.Length > 0
      reads this`buckets, this`numBuckets, this`noexpand, buckets
    {
      var bucket := buckets[Slot(hash, key, numBuckets)];
      bucket.count + 1 >= (bucket.expandMult + 1) * BKT_CAPACITY_THRESH && !noexpand
    }

    /** `HASH_ADD_TO_TABLE`: the element goes to the front of its chain; a long chain doubles the buckets. */
    method AddToTable(x: Handle, ghost its: set<Handle>)
      requires Indexed(its) && x !in its && x.hashv == hash(x.key)
      modifies this`buckets, this`numBuckets, this`log2NumBuckets, this`numItems, this`chains
      modifies this`idealChainMaxlen, this`nonidealItems, this`ineffExpands, this`noexpand
      modifies buckets, x`hhNext, x`hhPrev, its`hhNext, its`hhPrev
      ensures Indexed(its + {x}) && numItems == old(numItems) + 1 && (buckets == old(buckets) || fresh(buckets))
      ensures numBuckets == if old(Expands(x.key)) then 2 * old(numBuckets) else old(numBuckets)
    {
      numItems := numItems + 1;
      var bkt := BitAnd(x.hashv, numBuckets - 1);
      ghost var expands := Expands(x.key);
      LinkIntoBucket(bkt, x, its);
      var full := buckets[bkt].count >= (buckets[bkt].expandMult + 1) * BKT_CAPACITY_THRESH;
      assert expands == (full && !noexpand);
      if full && !noexpand {
        ExpandBuckets(its + {x});
      }
    }

    method LinkIntoBucket(bkt: nat, x: Handle, ghost its: set<Handle>)
      requires numBuckets == buckets.Length == |chains| == Pow2(log2NumBuckets) && Partition(hash, its, chains)
      requires HoldAll(buckets, chains, its) && HashedAll(hash, its) && numItems == Total(chains) + 1
      requires x !in its && x.hashv == hash(x.key) && bkt == Slot(hash, x.key, numBuckets)
      modifies this`chains, buckets, x`hhNext, x`hhPrev, its`hhPrev
      ensures Indexed(its + {x})
      ensures buckets[bkt].count == old(buckets[bkt].count) + 1
      ensures buckets[bkt].expandMult == old(buckets[bkt].expandMult)
    {
      TotalUpdate(chains, bkt, [x] + chains[bkt]);
      assert Holds(buckets[bkt], chains[bkt]);
      ghost var newChains := PutFront(hash, buckets, bkt, x, buckets[bkt].expandMult, chains, its);
      assert Holds(buckets[bkt], newChains[bkt]);
      chains := newChains;
    }

    /** `HASH_FIND`: the element the map has for the key, or NULL. */
    method Find(key: string) returns (out: Handle?)
      requires Valid()
      ensures out == if key in Contents(items) then Contents(items)[key] else null
    {
      ContentsAre(items);
      if head == null {
        return null;
      }
      var hashv := hash(key);
      var bkt := BitAnd(hashv, numBuckets - 1);
      assert Holds(buckets[bkt], chains[bkt]);
      assert Hashed(hash, chains[bkt]);
      out := FindInBucket(hash, buckets[bkt], key, hashv, chains[bkt]);
      OnlyInSlot(hash, Elements(items), chains, key);
    }

    /** The element starts a new table. */
    method StartTable(x: Handle)
      requires items == []
      modifies this`head, this`tail, x`next, x`prev
      modifies this`buckets, this`numBuckets, this`log2NumBuckets, this`numItems, this`chains
      modifies this`idealChainMaxlen, this`nonidealItems, this`ineffExpands, this`noexpand
      ensures AppList([x]) && head == x && tail == x && Indexed({}) && numItems == 0
      ensures fresh(buckets) && numBuckets == INITIAL_NUM_BUCKETS && !Expands(x.key)
    {
      x.next, x.prev := null, null;
      MakeTable();
      head, tail := x, x;
    }

    /** The element goes behind the tail of the list of all elements. */
    method AppendElement(x: Handle)
      requires AppList(items) && head == First(items) && tail == Last(items) && items != [] && x !in items
      requires Indexed(Elements(items)) && numItems == |items|
      modifies this`tail, items`next, x`next, x`prev
      ensures AppList(items + [x]) && head == First(items + [x]) && tail == x
      ensures Indexed(Elements(items)) && numItems == |items|
    {
      AppendList(tail, x, items);
      tail := x;
    }

    /** The list part of `HASH_ADD`: the element becomes the last. */
    method LinkElement(x: Handle)
      requires Valid() && x !in items
      modifies this`head, this`tail, items`next, x`next, x`prev, x`hashv
      modifies this`buckets, this`numBuckets, this`log2NumBuckets, this`numItems, this`chains
      modifies this`idealChainMaxlen, this`nonidealItems, this`ineffExpands, this`noexpand
      ensures AppList(items + [x]) && head == First(items + [x]) && tail == x && x.hashv == hash(x.key)
      ensures Indexed(Elements(items)) && numItems == |items|
      ensures items == [] ==> fresh(buckets) && numBuckets == INITIAL_NUM_BUCKETS && !Expands(x.key)
      ensures items != [] ==>
        buckets == old(buckets) && numBuckets == old(numBuckets) && Expands(x.key) == old(Expands(x.key))
    {
      if head == null {
        StartTable(x);
        assert items + [x] == [x] && Elements(items) == {};
      } else {
        AppendElement(x);
      }
      x.hashv := hash(x.key);
    }

    /** `HASH_ADD` of an element whose key is not in the table. */
    method Add(x: Handle)
      requires Valid() && x !in items && x.key !in Contents(items)
      modifies this, buckets, items, x
      ensures Valid() && items == old(items) + [x] && (buckets == old(buckets) || fresh(buckets))
      ensures Contents(items) == old(Contents(items))[x.key := x]
      ensures old(items) != [] ==> numBuckets == if old(Expands(x.key)) then 2 * old(numBuckets) else old(numBuckets)
      ensures old(items) == [] ==> numBuckets == INITIAL_NUM_BUCKETS
    {
      Insert(x);
      ContentsAdd(old(items), x);
      UniqueAdd(old(items), x);
    }

    /** Both parts of `HASH_ADD`: the list and the index. */
    method Insert(x: Handle)
      requires Valid() && x !in items
      modifies this, buckets, items, x
      ensures items == old(items) + [x] && AppList(items) && head == First(items) && tail == Last(items)
      ensures Indexed(Elements(items)) && numItems == |items| && (buckets == old(buckets) || fresh(buckets))
      ensures old(items) != [] ==> numBuckets == if old(Expands(x.key)) then 2 * old(numBuckets) else old(numBuckets)
      ensures old(items) == [] ==> numBuckets == INITIAL_NUM_BUCKETS
    {
      LinkElement(x);
      FinishAdd(x);
    }

    /** The element is in the list of all elements; now it goes into the index. */
    method FinishAdd(x: Handle)
      requires Indexed(Elements(items)) && x !in items && x.hashv == hash(x.key) && AppList(items + [x])
      modifies this`buckets, this`numBuckets, this`log2NumBuckets, this`numItems, this`chains, this`items
      modifies this`idealChainMaxlen, this`nonidealItems, this`ineffExpands, this`noexpand
      modifies buckets, x`hhNext, x`hhPrev, items`hhNext, items`hhPrev
      ensures items == old(items) + [x] && Indexed(Elements(items)) && numItems == old(numItems) + 1
      ensures AppList(items) && (buckets == old(buckets) || fresh(buckets))
      ensures numBuckets == if old(Expands(x.key)) then 2 * old(numBuckets) else old(numBuckets)
    {
      ghost var all := items + [x];
      ElementsAdd(items, x);
      AddToTable(x, Elements(items));
      ListKept(all);
      label Added:
      items := all;
      IndexKept@Added(Elements(all));
    }

    /** `HASH_DELETE`: the last element takes the table with it. */
    method Delete(x: Handle)
      requires Valid() && x in items
      modifies this, buckets, items
      ensures Valid() && buckets == old(buckets)
      ensures exists i :: 0 <= i < |old(items)| && old(items)[i] == x && items == RemoveIndex(old(items), i)
      ensures Contents(items) == old(Contents(items)) - {x.key}
    {
      ghost var i :| 0 <= i < |items| && items[i] == x;
      ContentsRemove(items, i);
      ElementsWithout(items, i);
      ghost var rest := RemoveIndex(items, i);
      if x.prev == null && x.next == null {
        assert rest == [];
        head := null;
      } else {
        DeleteElement(x, i);
      }
      label Deleted:
      items := rest;
      ListKept@Deleted(rest);
      if rest != [] {
        IndexKept@Deleted(Elements(rest));
      }
    }

    /** `HASH_DELETE_HH` of an element that is not the only one. */
    method DeleteElement(x: Handle, ghost i: nat)
      requires AppList(items) && head == First(items) && tail == Last(items)
      requires Indexed(Elements(items)) && numItems == |items| > 1 && i < |items| && items[i] == x
      modifies this`head, this`tail, this`numItems, this`chains
      modifies buckets, items`next, items`prev, items`hhNext, items`hhPrev
      ensures var rest := RemoveIndex(items, i); AppList(rest) && head == First(rest) && tail == Last(rest)
      ensures Indexed(Elements(items) - {x}) && numItems == |items| - 1
    {
      UnlinkElement(x, i);
      label Unlinked:
      DeleteFromTable(x, Elements(items));
      ListKept@Unlinked(RemoveIndex(items, i));
    }

    /** The list part of `HASH_DELETE_HH`. */
    method UnlinkElement(x: Handle, ghost i: nat)
      requires AppList(items) && head == First(items) && tail == Last(items)
      requires |items| > 1 && i < |items| && items[i] == x && Indexed(Elements(items))
      modifies this`head, this`tail, items`next, items`prev
      ensures var rest := RemoveIndex(items, i); AppList(rest) && head == First(rest) && tail == Last(rest)
      ensures Indexed(Elements(items))
    {
      head, tail := UnlinkList(head, tail, x, items, i);
      IndexKept(Elements(items));
    }

    /** The bucket part of `HASH_DELETE_HH`. */
    method DeleteFromTable(x: Handle, ghost its: set<Handle>)
      requires Indexed(its) && x in its
      modifies this`numItems, this`chains, buckets, its`hhNext, its`hhPrev
      ensures Indexed(its - {x}) && numItems == old(numItems) - 1
    {
      var bkt := BitAnd(x.hashv, numBuckets - 1);
      ghost var k :| 0 <= k < |chains[bkt]| && chains[bkt][k] == x;
      TotalUpdate(chains, bkt, RemoveIndex(chains[bkt], k));
      chains := TakeOut(hash, buckets, bkt, x, k, chains, its);
      numItems := numItems - 1;
    }

    /** `HASH_REPLACE`: the old element with the key, if any, goes; the new one becomes the last. */
    method Replace(x: Handle) returns (replaced: Handle?)
      requires Valid() && x !in items
      modifies this, buckets, items, x
      ensures Valid() && items != [] && Last(items) == x
      ensures replaced == if x.key in old(Contents(items)) then old(Contents(items))[x.key] else null
      ensures Contents(items) == old(Contents(items))[x.key := x]
      ensures replaced == null ==> items == old(items) + [x]
      ensures replaced != null ==>
        exists i :: 0 <= i < |old(items)| && old(items)[i] == replaced && items == RemoveIndex(old(items), i) + [x]
    {
      replaced := RemoveKey(x.key);
      RemovedThenAdded(old(Contents(items)), x.key, x);
      Add(x);
    }

    /** The element with this key, if there is one, goes. */
    method RemoveKey(key: string) returns (removed: Handle?)
      requires Valid()
      modifies this, buckets, items
      ensures Valid() && buckets == old(buckets)
      ensures removed == if key in old(Contents(items)) then old(Contents(items))[key] else null
      ensures Contents(items) == old(Contents(items)) - {key} && forall i :: 0 <= i < |items| ==> items[i] in old(items)
      ensures removed == null ==> items == old(items)
      ensures removed != null ==>
        exists i :: 0 <= i < |old(items)| && old(items)[i] == removed && items == RemoveIndex(old(items), i)
    {
      removed := Find(key);
      ContentsAre(items);
      if removed != null {
        Delete(removed);
      }
    }

    /** `HASH_SRT`: the elements in the order of a stable sort; the index is not touched. */
    method Sort(cmp: BottomUpSort.Compare)
      requires Valid()
      modifies this`head, this`tail, this`items, items`next, items`prev
      ensures Valid() && Contents(items) == old(Contents(items))
      ensures items == BottomUpSort.SortFrom(old(items), 1, HashSort.EntryOf, cmp)
    {
      if head == null {
        return;
      }
      ghost var sorted := SortElements(cmp);
      SortedStands(items, sorted, cmp);
      items := sorted;
    }

    /** The list part of sorting. */
    method SortElements(cmp: BottomUpSort.Compare) returns (ghost sorted: seq<Handle>)
      requires AppList(items) && head == First(items) && items != [] && Indexed(Elements(items))
      modifies this`head, this`tail, items`next, items`prev
      ensures AppList(sorted) && sorted == BottomUpSort.SortFrom(items, 1, HashSort.EntryOf, cmp)
      ensures head == First(sorted) && tail == Last(sorted) && Indexed(Elements(items))
    {
      head, tail, sorted := HashSort.SortList(head, cmp, items, Elements(items));
      IndexKept(Elements(items));
    }

    // -------------------------------------------------------------- the integrity check

    /** `HASH_FSCK`: the walk over the buckets and the walk over all elements find nothing wrong. */
    method Fsck() returns (ok: bool)
      requires Valid()
      ensures ok
    {
      if head == null {
        return true;
      }
      var count := 0;
      var b := 0;
      assert chains[..0] == [];
      while b < numBuckets
        invariant 0 <= b <= numBuckets && count == Total(chains[..b])
      {
        assert Holds(buckets[b], chains[b]);
        TotalPrefix(chains, b);
        var good, bktCount := FsckBucket(buckets[b], chains[b]);
        if !good || bktCount != buckets[b].count {
          return false;
        }
        count := count + bktCount;
        b := b + 1;
      }
      assert chains[..b] == chains;
      if count != numItems {
        return false;
      }
      var good, appCount := FsckList(head, items);
      ok := good && appCount == numItems;
    }
  }

  /** One chain: every back link is the node before. */
  method FsckBucket(bucket: Bucket, ghost s: seq<Handle>) returns (ok: bool, count: nat)
    requires Holds(bucket, s)
    ensures ok && count == |s|
  {
    var thh, prev: Handle? := bucket.head, null;
    count := 0;
    while thh != null
      invariant 0 <= count <= |s| && thh == (if count < |s| then s[count] else null)
      invariant prev == if count == 0 then null else s[count - 1]
      decreases |s| - count
    {
      if prev != thh.hhPrev {
        return false, count;
      }
      count := count + 1;
      prev := thh;
      thh := thh.hhNext;
    }
    ok := true;
  }

  /** The list of all elements: every back link is the element before. */
  method FsckList(head: Handle, ghost s: seq<Handle>) returns (ok: bool, count: nat)
    requires AppList(s) && First(s) == head
    ensures ok && count == |s|
  {
    var thh: Handle?, prev: Handle? := head, null;
    count := 0;
    while thh != null
      invariant 0 <= count <= |s| && thh == (if count < |s| then s[count] else null)
      invariant prev == if count == 0 then null else s[count - 1]
      decreases |s| - count
    {
      if prev != thh.prev {
        return false, count;
      }
      count := count + 1;
      prev := thh;
      thh := thh.next;
    }
    ok := true;
  }
}
