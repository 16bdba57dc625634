/**
 The ring of slots that pass from empty to producer-held to full to consumer-held. Every call runs under the
 lock, so a run of any number of producers and consumers is a sequence of the steps below. A slot is handed
 back by its place among the slots its side holds, in the order in which they were taken.
 */
module SlotRing {
  import Modular
  import opened Seqs

  /**
   The queue, the slots both sides hold, and the history since the last clear: how many slots have been handed
   back empty, the values published and the values taken.
   */
  datatype State<T> = State(
    read: nat, write: nat, fullCount: int, emptyCount: int, isDestroyed: bool, buffer: seq<T>,
    consumerHeld: seq<nat>, producerHeld: seq<nat>, released: nat, published: seq<T>, consumed: seq<T>)

  datatype Step<T> =
    | GetFull | PutEmpty(j: nat) | PutFullFront(j: nat)
    | GetEmpty | Fill(j: nat, value: T) | PutFull(j: nat) | PutEmptyFront(j: nat)
    | Clear | Destroy

  function Max<T>(s: State<T>): nat { |s.buffer| }

  /** A call that would wait is a step that is not enabled; only held slots are written or handed back. */
  ghost predicate Enabled<T>(s: State<T>, step: Step<T>) {
    && Max(s) > 0 && s.read < Max(s) && s.write < Max(s)
    && match step
       case GetFull => s.fullCount != 0 && !s.isDestroyed
       case PutEmpty(j) => j < |s.consumerHeld|
       case PutFullFront(j) => j < |s.consumerHeld|
       case GetEmpty => s.emptyCount != 0 && !s.isDestroyed
       case Fill(j, _) => j < |s.producerHeld| && s.producerHeld[j] < Max(s)
       case PutFull(j) => j < |s.producerHeld| && s.producerHeld[j] < Max(s)
       case PutEmptyFront(j) => j < |s.producerHeld|
       case Clear => true
       case Destroy => true
  }

  ghost function Next<T>(s: State<T>, step: Step<T>): State<T>
    requires Enabled(s, step)
  {
    match step
    case GetFull => s.(read := (s.read + 1) % Max(s), fullCount := s.fullCount - 1,
                       consumerHeld := s.consumerHeld + [s.read], consumed := s.consumed + [s.buffer[s.read]])
    case PutEmpty(j) => s.(emptyCount := s.emptyCount + 1, consumerHeld := RemoveIndex(s.consumerHeld, j),
                           released := s.released + 1)
    case PutFullFront(j) =>
      if s.fullCount >= Max(s) || s.isDestroyed then s
      else s.(read := (s.read + Max(s) - 1) % Max(s), fullCount := s.fullCount + 1,
              consumerHeld := RemoveIndex(s.consumerHeld, j),
              consumed := if s.consumed == [] then [] else s.consumed[..|s.consumed| - 1])
    case GetEmpty => s.(write := (s.write + 1) % Max(s), emptyCount := s.emptyCount - 1,
                        producerHeld := s.producerHeld + [s.write])
    case Fill(j, v) => s.(buffer := s.buffer[s.producerHeld[j] := v])
    case PutFull(j) => s.(fullCount := s.fullCount + 1, producerHeld := RemoveIndex(s.producerHeld, j),
                          published := s.published + [s.buffer[s.producerHeld[j]]])
    case PutEmptyFront(j) =>
      if s.emptyCount >= Max(s) || s.isDestroyed then s
      else s.(write := (s.write + Max(s) - 1) % Max(s), emptyCount := s.emptyCount + 1,
              producerHeld := RemoveIndex(s.producerHeld, j))
    case Clear => s.(write := 0, read := 0, fullCount := 0, emptyCount := Max(s), released := 0,
                     published := [], consumed := [])
    case Destroy => s.(isDestroyed := true)
  }

  ghost predicate Init<T>(s: State<T>) {
    && Max(s) > 0 && s.read == 0 && s.write == 0 && s.fullCount == 0 && s.emptyCount == Max(s) && !s.isDestroyed
    && s.consumerHeld == [] && s.producerHeld == [] && s.released == 0 && s.published == [] && s.consumed == []
  }

  // ---------------------------------------------------------------- four arcs

  /** Counters at which the arcs begin: consumer-held, full, producer-held, empty. */
  function FullFrom<T>(s: State<T>): nat { s.released + |s.consumerHeld| }

  function HeldFrom<T>(s: State<T>): int { FullFrom(s) + s.fullCount }

  function EmptyFrom<T>(s: State<T>): int { HeldFrom(s) + |s.producerHeld| }

  /** Slots handed out one after the other from a counter on. */
  ghost predicate Consecutive(held: seq<nat>, from: nat, max: nat)
    requires max > 0
  {
    forall k {:trigger held[k]} :: 0 <= k < |held| ==> held[k] == (from + k) % max
  }

  ghost predicate Counted<T>(s: State<T>) {
    && Max(s) > 0 && s.fullCount >= 0 && s.emptyCount >= 0
    && s.emptyCount == Max(s) - (EmptyFrom(s) - s.released)
    && s.read == FullFrom(s) % Max(s)
    && s.write == EmptyFrom(s) % Max(s)
  }

  /** The values from the consumer's slots on to the last full one are those published. */
  ghost predicate Stored<T>(s: State<T>)
    requires Max(s) > 0
  {
    && |s.published| == HeldFrom(s)
    && |s.consumed| == FullFrom(s) <= |s.published| && s.consumed == s.published[..|s.consumed|]
    && forall i {:trigger s.published[i]} :: s.released <= i < |s.published| ==> s.buffer[i % Max(s)] == s.published[i]
  }

  ghost predicate Inv<T>(s: State<T>) {
    && Counted(s)
    && Consecutive(s.consumerHeld, s.released, Max(s))
    && Consecutive(s.producerHeld, HeldFrom(s), Max(s))
    && Stored(s)
  }

  lemma InitInv<T>(s: State<T>)
    requires Init(s)
    ensures Inv(s)
  {
    Modular.Small(0, Max(s));
  }

  lemma StepBack(n: nat, m: nat)
    requires n > 0 && m > 0
    ensures (n % m + m - 1) % m == (n - 1) % m
  {
    Modular.AddAround(n, m - 1, m);
    Modular.AddAround(n - 1 + m, 0, m);
    assert (n - 1 + m) % m == (n - 1) % m by {
      assert n - 1 == (n - 1) / m * m + (n - 1) % m;
      assert n - 1 + m == ((n - 1) / m + 1) * m + (n - 1) % m;
      Modular.Quotient(n - 1 + m, m, (n - 1) / m + 1, (n - 1) % m);
    }
  }

  lemma GetFullKeepsInv<T>(s: State<T>)
    requires Inv(s) && Enabled(s, GetFull)
    ensures Inv(Next(s, GetFull)) && s.buffer[s.read] == s.published[|s.consumed|]
  {
    var n := FullFrom(s);
    Modular.StepAround(n, Max(s));
    assert s.published[n] == s.buffer[n % Max(s)];
    assert s.published[..n + 1] == s.published[..n] + [s.published[n]];
  }

  lemma GetEmptyKeepsInv<T>(s: State<T>)
    requires Inv(s) && Enabled(s, GetEmpty)
    ensures Inv(Next(s, GetEmpty))
  {
    Modular.StepAround(EmptyFrom(s), Max(s));
  }

  /** A producer writes only into its own slots, so published values stay. */
  lemma FillKeepsInv<T>(s: State<T>, j: nat, value: T)
    requires Inv(s) && Enabled(s, Fill(j, value))
    ensures Inv(Next(s, Fill(j, value)))
  {
    var t := Next(s, Fill(j, value));
    forall i | s.released <= i < |s.published|
      ensures t.buffer[i % Max(s)] == s.published[i]
    {
      Modular.Apart(i, HeldFrom(s) + j, Max(s));
    }
  }

  /** Taking the first of some consecutive slots leaves consecutive ones; taking another does not. */
  lemma FirstTaken(held: seq<nat>, from: nat, max: nat, j: nat)
    requires max > 0 && |held| <= max && Consecutive(held, from, max) && j < |held|
    ensures Consecutive(RemoveIndex(held, j), from + 1, max) <==> j == 0
  {
    var r := RemoveIndex(held, j);
    if j == 0 {
      assert forall k :: 0 <= k < |r| ==> r[k] == held[k + 1];
    } else {
      assert r[0] == held[0] == (from + 0) % max;
      Modular.Apart(from, from + 1, max);
    }
  }

  lemma LastTaken(held: seq<nat>, from: nat, max: nat, j: nat)
    requires max > 0 && |held| <= max && Consecutive(held, from, max) && j < |held|
    ensures Consecutive(RemoveIndex(held, j), from, max) <==> j == |held| - 1
  {
    var r := RemoveIndex(held, j);
    if j == |held| - 1 {
      assert r == held[..j];
    } else {
      assert r[j] == held[j + 1] == (from + (j + 1)) % max;
      Modular.Apart(from + j, from + (j + 1), max);
    }
  }

  /** A consumer hands back empty: in order exactly when it is the slot held longest. */
  lemma PutEmptyExactly<T>(s: State<T>, j: nat)
    requires Inv(s) && Enabled(s, PutEmpty(j))
    ensures Inv(Next(s, PutEmpty(j))) <==> j == 0
  {
    FirstTaken(s.consumerHeld, s.released, Max(s), j);
  }

  lemma PutFullExactly<T>(s: State<T>, j: nat)
    requires Inv(s) && Enabled(s, PutFull(j))
    ensures Inv(Next(s, PutFull(j))) <==> j == 0
  {
    FirstTaken(s.producerHeld, HeldFrom(s), Max(s), j);
    var t := Next(s, PutFull(j));
    if j == 0 {
      assert s.producerHeld[0] == (HeldFrom(s) + 0) % Max(s);
      assert t.published[..|s.consumed|] == s.published[..|s.consumed|];
      forall i | t.released <= i < |t.published|
        ensures t.buffer[i % Max(s)] == t.published[i]
      {
        if i < |s.published| {
          assert t.published[i] == s.published[i];
        }
      }
    }
  }

  /** A consumer hands back a full slot to the front: in order exactly when it is the slot taken last. */
  lemma PutFullFrontExactly<T>(s: State<T>, j: nat)
    requires Inv(s) && Enabled(s, PutFullFront(j)) && !s.isDestroyed
    ensures Inv(Next(s, PutFullFront(j))) <==> j == |s.consumerHeld| - 1
  {
    LastTaken(s.consumerHeld, s.released, Max(s), j);
    StepBack(FullFrom(s), Max(s));
    var n := |s.consumed|;
    assert s.published[..n][..n - 1] == s.published[..n - 1];
  }

  lemma PutEmptyFrontExactly<T>(s: State<T>, j: nat)
    requires Inv(s) && Enabled(s, PutEmptyFront(j)) && !s.isDestroyed
    ensures Inv(Next(s, PutEmptyFront(j))) <==> j == |s.producerHeld| - 1
  {
    LastTaken(s.producerHeld, HeldFrom(s), Max(s), j);
    StepBack(EmptyFrom(s), Max(s));
  }

  /** `CommQue_Clear` is right exactly when no slot is held. */
  lemma ClearExactly<T>(s: State<T>)
    requires Inv(s) && Enabled(s, Clear)
    ensures Inv(Next(s, Clear)) <==> s.consumerHeld == [] && s.producerHeld == []
  {
    Modular.Small(0, Max(s));
  }

  /** Slots are handed back in the order they were taken, or the last one to the front; `Clear` finds none held. */
  ghost predicate InOrder<T>(s: State<T>, step: Step<T>) {
    match step
    case PutEmpty(j) => j == 0
    case PutFull(j) => j == 0
    case PutFullFront(j) => j == |s.consumerHeld| - 1
    case PutEmptyFront(j) => j == |s.producerHeld| - 1
    case Clear => s.consumerHeld == [] && s.producerHeld == []
    case _ => true
  }

  lemma StepKeepsInv<T>(s: State<T>, step: Step<T>)
    requires Inv(s) && Enabled(s, step) && InOrder(s, step)
    ensures Inv(Next(s, step))
  {
    match step
    case GetFull => GetFullKeepsInv(s);
    case GetEmpty => GetEmptyKeepsInv(s);
    case Fill(j, value) => FillKeepsInv(s, j, value);
    case PutEmpty(j) => PutEmptyExactly(s, j);
    case PutFull(j) => PutFullExactly(s, j);
    case PutFullFront(j) =>
      if !s.isDestroyed {
        PutFullFrontExactly(s, j);
      }
    case PutEmptyFront(j) =>
      if !s.isDestroyed {
        PutEmptyFrontExactly(s, j);
      }
    case Clear => ClearExactly(s);
    case Destroy =>
  }

  // ---------------------------------------------------------------- runs

  ghost predicate Run<T>(states: seq<State<T>>, steps: seq<Step<T>>) {
    && |states| == |steps| + 1 && Init(states[0])
    && forall i :: 0 <= i < |steps| ==>
         Enabled(states[i], steps[i]) && InOrder(states[i], steps[i]) && states[i + 1] == Next(states[i], steps[i])
  }

  lemma {:induction false} RunInv<T>(states: seq<State<T>>, steps: seq<Step<T>>, i: nat)
    requires Run(states, steps) && i < |states|
    ensures Inv(states[i])
  {
    if i == 0 {
      InitInv(states[0]);
    } else {
      RunInv(states, steps, i - 1);
      StepKeepsInv(states[i - 1], steps[i - 1]);
      assert states[i - 1 + 1] == Next(states[i - 1], steps[i - 1]);
    }
  }

  /** The arc a counter lies in. */
  datatype Arc = ConsumerHeld | Full | ProducerHeld | Empty

  function ArcOf<T>(s: State<T>, i: nat): Arc {
    if i < FullFrom(s) then ConsumerHeld
    else if i < HeldFrom(s) then Full
    else if i < EmptyFrom(s) then ProducerHeld
    else Empty
  }

  /** The counter of a slot within the round that starts at the first slot not handed back. */
  function CounterOf<T>(s: State<T>, slot: nat): (i: nat)
    requires slot < Max(s)
  {
    var at := s.released % Max(s);
    if slot >= at then s.released + (slot - at) else s.released + (slot + Max(s) - at)
  }

  lemma CounterIs<T>(s: State<T>, slot: nat)
    requires slot < Max(s)
    ensures s.released <= CounterOf(s, slot) < s.released + Max(s) && CounterOf(s, slot) % Max(s) == slot
    ensures forall i :: s.released <= i < s.released + Max(s) && i % Max(s) == slot ==> i == CounterOf(s, slot)
  {
    var m, at := Max(s), s.released % Max(s);
    var q := s.released / m;
    assert s.released == q * m + at;
    var i := CounterOf(s, slot);
    if slot >= at {
      Modular.Quotient(i, m, q, slot);
    } else {
      assert i == (q + 1) * m + slot;
      Modular.Quotient(i, m, q + 1, slot);
    }
    forall k | s.released <= k < s.released + m && k % m == slot
      ensures k == i
    {
      if k < i {
        Modular.Apart(k, i, m);
      } else if i < k {
        Modular.Apart(i, k, m);
      }
    }
  }

  /**
   Safety of every run: the ring is divided into four consecutive arcs, a slot is held by a side exactly when
   it lies in that side's arc, so no slot has two holders, the write index is the read index and the full
   and producer-held slots further on, and what has been consumed is what was published, in order.
   */
  lemma RunIsSafe<T>(states: seq<State<T>>, steps: seq<Step<T>>, n: nat)
    requires Run(states, steps) && n < |states|
    ensures var s := states[n];
      && Max(s) > 0 && 0 <= s.fullCount && 0 <= s.emptyCount
      && |s.consumerHeld| + s.fullCount + |s.producerHeld| + s.emptyCount == Max(s)
      && s.write == (s.read + s.fullCount + |s.producerHeld|) % Max(s)
      && s.consumed <= s.published
    ensures forall slot :: 0 <= slot < Max(states[n]) ==>
      (slot in states[n].consumerHeld <==> ArcOf(states[n], CounterOf(states[n], slot)) == ConsumerHeld)
    ensures forall slot :: 0 <= slot < Max(states[n]) ==>
      (slot in states[n].producerHeld <==> ArcOf(states[n], CounterOf(states[n], slot)) == ProducerHeld)
  {
    RunInv(states, steps, n);
    var s := states[n];
    Modular.AddAround(FullFrom(s), s.fullCount + |s.producerHeld|, Max(s));
    forall slot | 0 <= slot < Max(s)
      ensures slot in s.consumerHeld <==> ArcOf(s, CounterOf(s, slot)) == ConsumerHeld
      ensures slot in s.producerHeld <==> ArcOf(s, CounterOf(s, slot)) == ProducerHeld
    {
      HoldersAre(s, slot);
    }
  }

  lemma HoldersAre<T>(s: State<T>, slot: nat)
    requires Inv(s) && slot < Max(s)
    ensures slot in s.consumerHeld <==> ArcOf(s, CounterOf(s, slot)) == ConsumerHeld
    ensures slot in s.producerHeld <==> ArcOf(s, CounterOf(s, slot)) == ProducerHeld
  {
    var i := CounterOf(s, slot);
    CounterIs(s, slot);
    HeldIs(s.consumerHeld, s.released, Max(s), slot, i, s.released);
    HeldIs(s.producerHeld, HeldFrom(s), Max(s), slot, i, s.released);
  }

  /** A slot is among consecutive ones exactly when its counter is in their range. */
  lemma HeldIs(held: seq<nat>, from: nat, max: nat, slot: nat, i: nat, base: nat)
    requires max > 0 && Consecutive(held, from, max) && base <= from && from + |held| <= base + max
    requires base <= i < base + max && i % max == slot
    ensures slot in held <==> from <= i < from + |held|
  {
    if from <= i < from + |held| {
      assert held[i - from] == (from + (i - from)) % max;
    }
    if slot in held {
      var k :| 0 <= k < |held| && held[k] == slot;
      if from + k < i {
        Modular.Apart(from + k, i, max);
      } else if i < from + k {
        Modular.Apart(i, from + k, max);
      }
    }
  }

  // ---------------------------------------------------------------- what goes wrong out of order

  /** Some slot is in two hands, or twice in one. */
  ghost predicate Shared<T>(s: State<T>) {
    !Distinct(s.consumerHeld) || !Distinct(s.producerHeld) || !Apart(s.consumerHeld, s.producerHeld)
  }

  /** Taking slots, full ones or empty ones, n times in a row. */
  ghost predicate CanTake<T>(s: State<T>, full: bool, n: nat)
    decreases n
  {
    n == 0 || (Enabled(s, Take(full)) && CanTake(Next(s, Take(full)), full, n - 1))
  }

  ghost function Taken<T>(s: State<T>, full: bool, n: nat): State<T>
    requires CanTake(s, full, n)
    decreases n
  {
    if n == 0 then s else Taken(Next(s, Take(full)), full, n - 1)
  }

  function Take<T>(full: bool): Step<T> { if full then GetFull else GetEmpty }

  /** The slots that n takings hand out, from an index on. */
  function SlotsFrom(at: nat, n: nat, max: nat): (r: seq<nat>)
    requires max > 0
    ensures |r| == n
    decreases n
  {
    if n == 0 then [] else [at] + SlotsFrom((at + 1) % max, n - 1, max)
  }

  lemma {:induction false} SlotAt(at: nat, n: nat, max: nat, k: nat)
    requires max > 0 && at < max && k < n
    ensures SlotsFrom(at, n, max)[k] == (at + k) % max
    decreases k
  {
    if k == 0 {
      Modular.Small(at, max);
    } else {
      SlotAt((at + 1) % max, n - 1, max, k - 1);
      Modular.AddAround(at + 1, k - 1, max);
    }
  }

  lemma {:induction false} FullTaken<T>(s: State<T>, n: nat)
    requires Max(s) > 0 && s.read < Max(s) && s.write < Max(s) && !s.isDestroyed && n <= s.fullCount
    ensures CanTake(s, true, n)
    ensures Taken(s, true, n).consumerHeld == s.consumerHeld + SlotsFrom(s.read, n, Max(s))
    ensures Taken(s, true, n).producerHeld == s.producerHeld
    decreases n
  {
    if n == 0 {
      AppendNothing(s.consumerHeld);
    } else {
      FullTaken(Next(s, GetFull), n - 1);
      AppendAssociates(s.consumerHeld, [s.read], SlotsFrom((s.read + 1) % Max(s), n - 1, Max(s)));
    }
  }

  lemma {:induction false} EmptyTaken<T>(s: State<T>, n: nat)
    requires Max(s) > 0 && s.read < Max(s) && s.write < Max(s) && !s.isDestroyed && n <= s.emptyCount
    ensures CanTake(s, false, n)
    ensures Taken(s, false, n).producerHeld == s.producerHeld + SlotsFrom(s.write, n, Max(s))
    ensures Taken(s, false, n).consumerHeld == s.consumerHeld
    decreases n
  {
    if n == 0 {
      AppendNothing(s.producerHeld);
    } else {
      EmptyTaken(Next(s, GetEmpty), n - 1);
      AppendAssociates(s.producerHeld, [s.write], SlotsFrom((s.write + 1) % Max(s), n - 1, Max(s)));
    }
  }

  /** Some number of takings ends with a shared slot. */
  ghost predicate ComesToShare<T>(s: State<T>) {
    exists full: bool, n: nat :: CanTake(s, full, n) && Shared(Taken(s, full, n))
  }

  /** As long as slots are handed back in order, no slot is shared. */
  lemma NotShared<T>(s: State<T>)
    requires Inv(s)
    ensures !Shared(s)
  {
    ConsecutiveDistinct(s.consumerHeld, s.released, Max(s));
    ConsecutiveDistinct(s.producerHeld, HeldFrom(s), Max(s));
    forall x | x in s.consumerHeld
      ensures x !in s.producerHeld
    {
      var k :| 0 <= k < |s.consumerHeld| && s.consumerHeld[k] == x;
      HoldersAre(s, x);
    }
  }

  lemma ConsecutiveDistinct(held: seq<nat>, from: nat, max: nat)
    requires max > 0 && |held| <= max && Consecutive(held, from, max)
    ensures Distinct(held)
  {
    forall i, k | 0 <= i < k < |held|
      ensures held[i] != held[k]
    {
      Modular.Apart(from + i, from + k, max);
    }
  }

  lemma {:induction false} TakingKeepsInv<T>(s: State<T>, full: bool, n: nat)
    requires Inv(s) && CanTake(s, full, n)
    ensures Inv(Taken(s, full, n))
    decreases n
  {
    if n > 0 {
      StepKeepsInv(s, Take(full));
      TakingKeepsInv(Next(s, Take(full)), full, n - 1);
    }
  }

  lemma LastOf(a: seq<nat>, b: seq<nat>, x: nat)
    requires b != [] && b[|b| - 1] == x
    ensures x in a + b && (x in a ==> !Distinct(a + b))
  {
    var s := a + b;
    assert s[|s| - 1] == x;
    if x in a {
      var i :| 0 <= i < |a| && a[i] == x;
      assert s[i] == x;
    }
  }

  /** Handing back an empty slot out of order: the ring passes the slot held longest to a producer. */
  lemma PutEmptyShares<T>(s: State<T>, j: nat)
    requires Inv(s) && Enabled(s, PutEmpty(j)) && !s.isDestroyed && j != 0
    ensures ComesToShare(Next(s, PutEmpty(j)))
  {
    var t, m := Next(s, PutEmpty(j)), Max(s);
    var n: nat, x := t.emptyCount, s.consumerHeld[0];
    EmptyTaken(t, n);
    var more := SlotsFrom(t.write, n, m);
    SlotAt(t.write, n, m, n - 1);
    Modular.AddAround(EmptyFrom(s), n - 1, m);
    assert EmptyFrom(s) + (n - 1) == s.released + m;
    AroundOnce(s.released, m);
    assert more[n - 1] == s.released % m == (s.released + 0) % m == x;
    LastOf(t.producerHeld, more, x);
    assert t.consumerHeld[0] == x;
    assert Shared(Taken(t, false, n));
  }

  lemma AroundOnce(n: nat, m: nat)
    requires m > 0
    ensures (n + m) % m == n % m
  {
    assert n + m == (n / m + 1) * m + n % m;
    Modular.Quotient(n + m, m, n / m + 1, n % m);
  }

  /** Publishing a slot out of order: the ring passes the producer's oldest slot to a consumer. */
  lemma PutFullShares<T>(s: State<T>, j: nat)
    requires Inv(s) && Enabled(s, PutFull(j)) && !s.isDestroyed && j != 0
    ensures ComesToShare(Next(s, PutFull(j)))
  {
    var t, m := Next(s, PutFull(j)), Max(s);
    var n: nat, x := t.fullCount, s.producerHeld[0];
    FullTaken(t, n);
    var more := SlotsFrom(t.read, n, m);
    SlotAt(t.read, n, m, n - 1);
    Modular.AddAround(FullFrom(s), n - 1, m);
    assert FullFrom(s) + (n - 1) == HeldFrom(s);
    assert more[n - 1] == HeldFrom(s) % m == (HeldFrom(s) + 0) % m == x;
    LastOf(t.consumerHeld, more, x);
    assert t.producerHeld[0] == x;
    assert Shared(Taken(t, true, n));
  }

  lemma LastStays(held: seq<nat>, j: nat)
    requires j < |held| - 1
    ensures held[|held| - 1] in RemoveIndex(held, j)
  {
    var r := RemoveIndex(held, j);
    assert r[|r| - 1] == held[|held| - 1];
  }

  /** Handing one back to the front out of order: the ring hands out the slot taken last once more. */
  lemma PutFullFrontShares<T>(s: State<T>, j: nat)
    requires Inv(s) && Enabled(s, PutFullFront(j)) && !s.isDestroyed && j != |s.consumerHeld| - 1
    ensures ComesToShare(Next(s, PutFullFront(j)))
  {
    var t, last := Next(s, PutFullFront(j)), |s.consumerHeld| - 1;
    StepBack(FullFrom(s), Max(s));
    FullTaken(t, 1);
    assert s.consumerHeld[last] == (s.released + last) % Max(s) == t.read;
    LastStays(s.consumerHeld, j);
    LastOf(t.consumerHeld, SlotsFrom(t.read, 1, Max(s)), t.read);
    assert Shared(Taken(t, true, 1));
  }

  lemma PutEmptyFrontShares<T>(s: State<T>, j: nat)
    requires Inv(s) && Enabled(s, PutEmptyFront(j)) && !s.isDestroyed && j != |s.producerHeld| - 1
    ensures ComesToShare(Next(s, PutEmptyFront(j)))
  {
    var t, last := Next(s, PutEmptyFront(j)), |s.producerHeld| - 1;
    StepBack(EmptyFrom(s), Max(s));
    EmptyTaken(t, 1);
    assert s.producerHeld[last] == (HeldFrom(s) + last) % Max(s) == t.write;
    LastStays(s.producerHeld, j);
    LastOf(t.producerHeld, SlotsFrom(t.write, 1, Max(s)), t.write);
    assert Shared(Taken(t, false, 1));
  }

  /** After clearing while a slot is held, the ring hands out all slots. */
  lemma ClearShares<T>(s: State<T>)
    requires Inv(s) && Enabled(s, Clear) && !s.isDestroyed && (s.consumerHeld != [] || s.producerHeld != [])
    ensures ComesToShare(Next(s, Clear))
  {
    var t, m := Next(s, Clear), Max(s);
    var x := if s.consumerHeld != [] then s.consumerHeld[0] else s.producerHeld[0];
    assert s.consumerHeld != [] ==> x == (s.released + 0) % m;
    assert s.consumerHeld == [] ==> x == (HeldFrom(s) + 0) % m;
    EmptyTaken(t, x + 1);
    SlotAt(0, x + 1, m, x);
    Modular.Small(x, m);
    LastOf(t.producerHeld, SlotsFrom(0, x + 1, m), x);
    assert Shared(Taken(t, false, x + 1));
  }

  /**
   The order in which slots are handed back is exactly what keeps them apart: while the queue is in use, a step is
   in order if and only if no number of slots taken after it ends with a slot in two hands.
   */
  lemma OrderExactly<T>(s: State<T>, step: Step<T>)
    requires Inv(s) && Enabled(s, step) && !s.isDestroyed
    ensures InOrder(s, step) <==> !ComesToShare(Next(s, step))
  {
    if InOrder(s, step) {
      StepKeepsInv(s, step);
      forall full: bool, n: nat | CanTake(Next(s, step), full, n)
        ensures !Shared(Taken(Next(s, step), full, n))
      {
        TakingKeepsInv(Next(s, step), full, n);
        NotShared(Taken(Next(s, step), full, n));
      }
    } else {
      match step
      case PutEmpty(j) => PutEmptyShares(s, j);
      case PutFull(j) => PutFullShares(s, j);
      case PutFullFront(j) => PutFullFrontShares(s, j);
      case PutEmptyFront(j) => PutEmptyFrontShares(s, j);
      case Clear => ClearShares(s);
      case _ =>
    }
  }

  // ---------------------------------------------------------------- the queue

  class CommQue<T> {
    var read: nat
    var write: nat
    var fullCount: int
    var emptyCount: int
    var isDestroyed: bool
    const buffer: array<T>
    ghost var consumerHeld: seq<nat>
    ghost var producerHeld: seq<nat>
    ghost var released: nat
    ghost var published: seq<T>
    ghost var consumed: seq<T>

    constructor (buffer: array<T>)
      requires buffer.Length > 0
      ensures this.buffer == buffer && Init(Abstract())
    {
      this.buffer := buffer;
      read, write, fullCount, emptyCount, isDestroyed := 0, 0, 0, buffer.Length, false;
      consumerHeld, producerHeld, released, published, consumed := [], [], 0, [], [];
    }

    ghost function Abstract(): State<T>
      reads this, buffer
    {
      State(read, write, fullCount, emptyCount, isDestroyed, buffer[..],
            consumerHeld, producerHeld, released, published, consumed)
    }

    /** `CommQue_GetFull`, once the wait is over. */
    method TakeFull() returns (slot: nat)
      requires Enabled(Abstract(), GetFull)
      modifies this
      ensures Abstract() == Next(old(Abstract()), GetFull) && slot == old(read)
    {
      slot := read;
      consumed := consumed + [buffer[read]];
      consumerHeld := consumerHeld + [slot];
      read := (read + 1) % buffer.Length;
      fullCount := fullCount - 1;
    }

    /** `CommQue_PeekFull`: the value the next `CommQue_GetFull` gets, if there is one. */
    method PeekFull() returns (found: bool, slot: nat)
      requires Inv(Abstract())
      ensures found <==> fullCount != 0 && !isDestroyed
      ensures found ==> |consumed| < |published| && slot < buffer.Length && buffer[slot] == published[|consumed|]
    {
      if fullCount == 0 || isDestroyed {
        return false, 0;
      }
      found, slot := true, read;
      GetFullKeepsInv(Abstract());
    }

    /** `CommQue_GetEmpty`, once the wait is over. */
    method TakeEmpty() returns (slot: nat)
      requires Enabled(Abstract(), GetEmpty)
      modifies this
      ensures Abstract() == Next(old(Abstract()), GetEmpty) && slot == old(write)
    {
      slot := write;
      producerHeld := producerHeld + [slot];
      write := (write + 1) % buffer.Length;
      emptyCount := emptyCount - 1;
    }

    /** The caller fills a slot it holds, without the lock. */
    method FillSlot(ghost j: nat, slot: nat, value: T)
      requires Enabled(Abstract(), Fill(j, value)) && slot == producerHeld[j]
      modifies buffer
      ensures Abstract() == Next(old(Abstract()), Fill(j, value))
    {
      buffer[slot] := value;
    }

    /** `CommQue_PutEmpty`: the pointer handed back is not looked at. */
    method GiveEmpty(ghost j: nat)
      requires Enabled(Abstract(), PutEmpty(j))
      modifies this
      ensures Abstract() == Next(old(Abstract()), PutEmpty(j))
    {
      emptyCount := emptyCount + 1;
      consumerHeld, released := RemoveIndex(consumerHeld, j), released + 1;
    }

    /** `CommQue_PutFull`: the pointer handed back is not looked at. */
    method GiveFull(ghost j: nat)
      requires Enabled(Abstract(), PutFull(j))
      modifies this
      ensures Abstract() == Next(old(Abstract()), PutFull(j))
    {
      fullCount := fullCount + 1;
      published := published + [buffer[producerHeld[j]]];
      producerHeld := RemoveIndex(producerHeld, j);
    }

    /** `CommQue_PutFullFront`: 0, or -1 when it refuses. */
    method GiveFullFront(ghost j: nat) returns (code: int)
      requires Enabled(Abstract(), PutFullFront(j))
      modifies this
      ensures Abstract() == Next(old(Abstract()), PutFullFront(j))
      ensures code == if old(fullCount) >= buffer.Length || isDestroyed then -1 else 0
    {
      if fullCount >= buffer.Length || isDestroyed {
        return -1;
      }
      read := (read + buffer.Length - 1) % buffer.Length;
      fullCount := fullCount + 1;
      consumerHeld := RemoveIndex(consumerHeld, j);
      consumed := if consumed == [] then [] else consumed[..|consumed| - 1];
      code := 0;
    }

    /** `CommQue_PutEmptyFront`. */
    method GiveEmptyFront(ghost j: nat) returns (code: int)
      requires Enabled(Abstract(), PutEmptyFront(j))
      modifies this
      ensures Abstract() == Next(old(Abstract()), PutEmptyFront(j))
      ensures code == if old(emptyCount) >= buffer.Length || isDestroyed then -1 else 0
    {
      if emptyCount >= buffer.Length || isDestroyed {
        return -1;
      }
      write := (write + buffer.Length - 1) % buffer.Length;
      emptyCount := emptyCount + 1;
      producerHeld := RemoveIndex(producerHeld, j);
      code := 0;
    }

    /** `CommQue_Clear`. */
    method ClearAll()
      requires Enabled(Abstract(), Clear)
      modifies this
      ensures Abstract() == Next(old(Abstract()), Clear)
    {
      write, read, fullCount, emptyCount := 0, 0, 0, buffer.Length;
      released, published, consumed := 0, [], [];
    }
  }
}
