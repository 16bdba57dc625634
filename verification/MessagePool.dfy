/**
 The message pool with any number of threads. Waiting on or signalling a semaphore and each section under
 the mutex is one atomic step; `os_message_release` signals inside its section. A message is an address, which
 may lie in a slot of the pool. Who has a slot is recorded: a thread that claimed or received it, or the
 pending list.
 */
module MessagePool {
  import Modular
  import opened Seqs

  type Thread = nat

  /**
   The flags, the pending messages, both semaphores, and which threads are between two steps of a call: past
   the wait of a claim, past the wait of a receive, or with a message appended but not yet signalled. The
   histories hold what was sent and received, `holders` the threads that have each slot. The code keeps none of
   these.
   */
  datatype State = State(
    memory: nat, elementSize: nat,
    used: seq<bool>, pending: seq<nat>, claimSem: nat, msgSem: nat,
    claiming: set<Thread>, receiving: set<Thread>, sending: set<Thread>,
    sent: seq<nat>, received: seq<nat>, holders: seq<multiset<Thread>>)

  datatype Step =
    | ClaimWait(t: Thread) | ClaimScan(t: Thread)
    | SendAppend(t: Thread, message: nat) | SendSignal(t: Thread)
    | ReceiveWait(t: Thread) | ReceivePop(t: Thread)
    | Release(t: Thread, message: nat)

  ghost predicate Idle(s: State, t: Thread) {
    t !in s.claiming && t !in s.receiving && t !in s.sending
  }

  // ---------------------------------------------------------------- slots

  function AddressOf(memory: nat, elementSize: nat, index: nat): nat {
    memory + index * elementSize
  }

  lemma SlotExists(offset: nat, size: nat, count: nat)
    requires size > 0 && offset < size * count
    ensures offset / size < count
  {
    var q := offset / size;
    assert offset == q * size + offset % size;
    Modular.ProductBound(q - count, size);
  }

  /** The slot that an address lies in, or -1 if it lies outside the pool. */
  function SlotOf(memory: nat, elementSize: nat, count: nat, address: nat): (i: int)
    requires elementSize > 0
    ensures -1 <= i < count
  {
    if memory <= address < memory + elementSize * count then
      SlotExists(address - memory, elementSize, count);
      (address - memory) / elementSize
    else -1
  }

  /** Every address inside an element, not only its first, belongs to its slot. */
  lemma IndexOfAddress(memory: nat, elementSize: nat, count: nat, index: nat, inside: nat)
    requires inside < elementSize && index < count
    ensures SlotOf(memory, elementSize, count, AddressOf(memory, elementSize, index) + inside) == index
  {
    Modular.Quotient(index * elementSize + inside, elementSize, index, inside);
    Modular.ProductBound(count - 1 - index, elementSize);
    assert elementSize * count == index * elementSize + (count - 1 - index) * elementSize + elementSize;
  }

  /** The address is one of the element with this index. */
  predicate LiesIn(memory: nat, elementSize: nat, index: nat, address: nat) {
    AddressOf(memory, elementSize, index) <= address < AddressOf(memory, elementSize, index) + elementSize
  }

  /** An address belongs to no slot exactly if it lies in no element of the pool. */
  lemma OutsideExactly(memory: nat, elementSize: nat, count: nat, address: nat)
    requires elementSize > 0
    ensures SlotOf(memory, elementSize, count, address) == -1 <==>
      forall index: nat :: index < count ==> !LiesIn(memory, elementSize, index, address)
  {
    forall index: nat | index < count && LiesIn(memory, elementSize, index, address)
      ensures SlotOf(memory, elementSize, count, address) == index
    {
      IndexOfAddress(memory, elementSize, count, index, address - AddressOf(memory, elementSize, index));
    }
    var i := SlotOf(memory, elementSize, count, address);
    if i != -1 {
      assert address - memory == i * elementSize + (address - memory) % elementSize;
      assert LiesIn(memory, elementSize, i, address);
    }
  }

  ghost predicate Formed(s: State) {
    s.elementSize > 0 && |s.holders| == |s.used|
  }

  /** The slot that a message lies in. */
  ghost function SlotIn(s: State, message: nat): (i: int)
    requires Formed(s)
    ensures -1 <= i < |s.used|
  {
    SlotOf(s.memory, s.elementSize, |s.used|, message)
  }

  /** The scan of a claim: the first slot that is not used. */
  function FirstFree(used: seq<bool>): (i: nat)
    ensures i <= |used|
    ensures forall k :: 0 <= k < i ==> used[k]
    ensures i < |used| ==> !used[i]
  {
    if used == [] || !used[0] then 0 else 1 + FirstFree(used[1..])
  }

  function FreeSlots(used: seq<bool>): nat {
    if used == [] then 0 else (if used[0] then 0 else 1) + FreeSlots(used[1..])
  }

  /** A NULL message, at address 0, is neither sent nor released. */
  ghost predicate Enabled(s: State, step: Step) {
    && Formed(s)
    && match step
       case ClaimWait(t) => Idle(s, t) && s.claimSem > 0
       case ClaimScan(t) => t in s.claiming
       case SendAppend(t, m) => Idle(s, t) && m != 0
       case SendSignal(t) => t in s.sending
       case ReceiveWait(t) => Idle(s, t) && s.msgSem > 0
       case ReceivePop(t) => t in s.receiving
       case Release(t, m) => Idle(s, t) && m != 0
  }

  /** One more thread has a slot, or one fewer. */
  ghost function Gained(holders: seq<multiset<Thread>>, i: int, t: Thread): (r: seq<multiset<Thread>>)
    requires -1 <= i < |holders|
    ensures |r| == |holders|
  {
    if i == -1 then holders else holders[i := holders[i] + multiset{t}]
  }

  ghost function Lost(holders: seq<multiset<Thread>>, i: int, t: Thread): (r: seq<multiset<Thread>>)
    requires -1 <= i < |holders|
    ensures |r| == |holders|
  {
    if i == -1 then holders else holders[i := holders[i] - multiset{t}]
  }

  ghost function Next(s: State, step: Step): State
    requires Enabled(s, step)
  {
    match step
    case ClaimWait(t) => s.(claimSem := s.claimSem - 1, claiming := s.claiming + {t})
    case ClaimScan(t) =>
      var i := FirstFree(s.used);
      if i == |s.used| then s.(claiming := s.claiming - {t})
      else s.(used := s.used[i := true], claiming := s.claiming - {t}, holders := Gained(s.holders, i, t))
    case SendAppend(t, m) =>
      s.(pending := s.pending + [m], sending := s.sending + {t}, sent := s.sent + [m],
         holders := Lost(s.holders, SlotIn(s, m), t))
    case SendSignal(t) => s.(msgSem := s.msgSem + 1, sending := s.sending - {t})
    case ReceiveWait(t) => s.(msgSem := s.msgSem - 1, receiving := s.receiving + {t})
    case ReceivePop(t) =>
      if s.pending == [] then s.(receiving := s.receiving - {t})
      else s.(pending := s.pending[1..], receiving := s.receiving - {t}, received := s.received + [s.pending[0]],
              holders := Gained(s.holders, SlotIn(s, s.pending[0]), t))
    case Release(t, m) =>
      var i := SlotIn(s, m);
      if i == -1 then s
      else s.(used := s.used[i := false], claimSem := s.claimSem + 1, holders := Lost(s.holders, i, t))
  }

  ghost predicate Init(s: State) {
    && Formed(s) && (forall i :: 0 <= i < |s.used| ==> !s.used[i] && s.holders[i] == multiset{})
    && s.pending == [] && s.claimSem == |s.used| && s.msgSem == 0
    && s.claiming == {} && s.receiving == {} && s.sending == {} && s.sent == [] && s.received == []
  }

  // ---------------------------------------------------------------- the invariant

  /** Free slots are the claims still allowed plus the claims under way; likewise for pending messages. */
  ghost predicate Counted(s: State) {
    && FreeSlots(s.used) == s.claimSem + |s.claiming|
    && |s.pending| == s.msgSem + |s.receiving| + |s.sending|
    && s.sent == s.received + s.pending
  }

  /** How many of these messages lie in slot i. */
  ghost function Waiting(s: State, messages: seq<nat>, i: nat): nat
    requires Formed(s)
  {
    if messages == [] then 0 else (if SlotIn(s, messages[0]) == i then 1 else 0) + Waiting(s, messages[1..], i)
  }

  /** How many have slot i: threads, and messages of the pending list. */
  ghost function Having(s: State, i: nat): nat
    requires Formed(s) && i < |s.used|
  {
    |s.holders[i]| + Waiting(s, s.pending, i)
  }

  /** A slot is used exactly if someone has it, and then one has it. */
  ghost predicate Owned(s: State) {
    Formed(s) && forall i :: 0 <= i < |s.used| ==> Having(s, i) == if s.used[i] then 1 else 0
  }

  ghost predicate Inv(s: State) {
    Counted(s) && Owned(s)
  }

  lemma {:induction false} AllFree(used: seq<bool>)
    requires forall i :: 0 <= i < |used| ==> !used[i]
    ensures FreeSlots(used) == |used|
  {
    if used != [] {
      AllFree(used[1..]);
    }
  }

  /** Setting one flag changes the number of free slots by what the flag was. */
  lemma {:induction false} FreeUpdate(used: seq<bool>, i: nat, b: bool)
    requires i < |used|
    ensures FreeSlots(used[i := b]) == FreeSlots(used) + (if used[i] then 1 else 0) - (if b then 1 else 0)
  {
    if i == 0 {
      assert used[0 := b][1..] == used[1..];
    } else {
      FreeUpdate(used[1..], i - 1, b);
      assert used[i := b][1..] == used[1..][i - 1 := b];
    }
  }

  /** The scan finds a slot exactly when one is free. */
  lemma {:induction false} ScanFinds(used: seq<bool>)
    ensures FirstFree(used) < |used| <==> FreeSlots(used) > 0
  {
    if used != [] {
      ScanFinds(used[1..]);
    }
  }

  lemma Removed(s: set<Thread>, t: Thread)
    requires t in s
    ensures |s - {t}| == |s| - 1
  {
  }

  lemma {:induction false} WaitingSame(s: State, r: State, messages: seq<nat>, i: nat)
    requires Formed(s) && Formed(r) && r.memory == s.memory && r.elementSize == s.elementSize
    requires |r.used| == |s.used|
    ensures Waiting(r, messages, i) == Waiting(s, messages, i)
  {
    if messages != [] {
      WaitingSame(s, r, messages[1..], i);
    }
  }

  lemma {:induction false} WaitingSnoc(s: State, messages: seq<nat>, m: nat, i: nat)
    requires Formed(s)
    ensures Waiting(s, messages + [m], i) == Waiting(s, messages, i) + if SlotIn(s, m) == i then 1 else 0
  {
    if messages == [] {
      assert ([] + [m])[1..] == [];
    } else {
      SumTail(messages, [m]);
      WaitingSnoc(s, messages[1..], m, i);
    }
  }

  /** What one step changes about who has slot i. */
  lemma HavingNext(s: State, step: Step, i: nat)
    requires Enabled(s, step) && i < |s.used|
    ensures var r := Next(s, step);
      Formed(r) && |r.used| == |s.used| && r.memory == s.memory && r.elementSize == s.elementSize &&
      Having(r, i) == |r.holders[i]| +
        match step
        case SendAppend(_, m) => Waiting(s, s.pending, i) + if SlotIn(s, m) == i then 1 else 0
        case ReceivePop(_) => if s.pending == [] then 0 else Waiting(s, s.pending[1..], i)
        case _ => Waiting(s, s.pending, i)
  {
    var r := Next(s, step);
    WaitingSame(s, r, r.pending, i);
    if step.SendAppend? {
      WaitingSnoc(s, s.pending, step.message, i);
    }
  }

  /** The scan of a claim always finds a slot, and a receive never finds the list empty. */
  lemma NeverEmptyHanded(s: State, t: Thread)
    requires Counted(s)
    ensures t in s.claiming ==> FirstFree(s.used) < |s.used|
    ensures t in s.receiving ==> s.pending != []
  {
    if t in s.claiming {
      Removed(s.claiming, t);
      ScanFinds(s.used);
    }
    if t in s.receiving {
      Removed(s.receiving, t);
    }
  }

  /** A slot is released and sent by a thread that has it. */
  ghost predicate Fair(s: State, step: Step)
    requires Formed(s)
  {
    match step
    case SendAppend(t, m) => SlotIn(s, m) == -1 || t in s.holders[SlotIn(s, m)]
    case Release(t, m) => SlotIn(s, m) == -1 || t in s.holders[SlotIn(s, m)]
    case _ => true
  }

  /** The counts stay right exactly if a slot that is released is used. */
  lemma CountsExactly(s: State, step: Step)
    requires Counted(s) && Enabled(s, step)
    ensures Counted(Next(s, step)) <==>
      (step.Release? ==> SlotIn(s, step.message) == -1 || s.used[SlotIn(s, step.message)])
  {
    match step
    case ClaimScan(t) =>
      NeverEmptyHanded(s, t);
      Removed(s.claiming, t);
      FreeUpdate(s.used, FirstFree(s.used), true);
    case SendAppend(t, m) => AppendAssociates(s.received, s.pending, [m]);
    case SendSignal(t) => Removed(s.sending, t);
    case ReceivePop(t) =>
      NeverEmptyHanded(s, t);
      Removed(s.receiving, t);
      HeadTail(s.pending);
      AppendAssociates(s.received, [s.pending[0]], s.pending[1..]);
    case Release(t, m) =>
      if SlotIn(s, m) != -1 {
        FreeUpdate(s.used, SlotIn(s, m), false);
      }
    case _ =>
  }

  /** Who has slot i after a fair step. */
  lemma OwnedNext(s: State, step: Step, i: nat)
    requires Inv(s) && Enabled(s, step) && Fair(s, step) && i < |s.used|
    ensures var r := Next(s, step); Formed(r) && |r.used| == |s.used| && Having(r, i) == if r.used[i] then 1 else 0
  {
    assert Having(s, i) == if s.used[i] then 1 else 0;
    match step
    case ClaimScan(t) => ScanOwned(s, t, i);
    case ReceivePop(t) => PopOwned(s, t, i);
    case SendAppend(t, m) =>
      HavingNext(s, step, i);
      HolderCounts(s, SlotIn(s, m), t);
    case Release(t, m) =>
      HavingNext(s, step, i);
      HolderCounts(s, SlotIn(s, m), t);
    case _ => HavingNext(s, step, i);
  }

  lemma ScanOwned(s: State, t: Thread, i: nat)
    requires Inv(s) && Enabled(s, ClaimScan(t)) && i < |s.used|
    ensures var r := Next(s, ClaimScan(t));
      Formed(r) && |r.used| == |s.used| && Having(r, i) == if r.used[i] then 1 else 0
  {
    NeverEmptyHanded(s, t);
    HavingNext(s, ClaimScan(t), i);
    assert Having(s, i) == if s.used[i] then 1 else 0;
  }

  lemma PopOwned(s: State, t: Thread, i: nat)
    requires Inv(s) && Enabled(s, ReceivePop(t)) && i < |s.used|
    ensures var r := Next(s, ReceivePop(t));
      Formed(r) && |r.used| == |s.used| && Having(r, i) == if r.used[i] then 1 else 0
  {
    NeverEmptyHanded(s, t);
    HavingNext(s, ReceivePop(t), i);
    assert Having(s, i) == if s.used[i] then 1 else 0;
  }

  /** A thread that has a slot has it alone. */
  lemma HolderCounts(s: State, i: int, t: Thread)
    requires Owned(s) && -1 <= i < |s.used| && (i == -1 || t in s.holders[i])
    ensures i != -1 ==> s.used[i] && s.holders[i] == multiset{t} && Waiting(s, s.pending, i) == 0
  {
    if i != -1 {
      assert Having(s, i) == if s.used[i] then 1 else 0;
      assert |s.holders[i] - multiset{t}| == |s.holders[i]| - 1;
      assert s.holders[i] == (s.holders[i] - multiset{t}) + multiset{t};
    }
  }

  lemma StepKeepsInv(s: State, step: Step)
    requires Inv(s) && Enabled(s, step) && Fair(s, step)
    ensures Inv(Next(s, step))
  {
    if step.Release? {
      HolderCounts(s, SlotIn(s, step.message), step.t);
    }
    CountsExactly(s, step);
    forall i | 0 <= i < |s.used|
      ensures var r := Next(s, step); Formed(r) && |r.used| == |s.used| && Having(r, i) == if r.used[i] then 1 else 0
    {
      OwnedNext(s, step, i);
    }
  }

  /** While a thread has a slot, no step of another takes the slot from it. */
  lemma HolderStays(s: State, step: Step, t: Thread, i: nat)
    requires Inv(s) && Enabled(s, step) && Fair(s, step) && i < |s.used| && t in s.holders[i] && step.t != t
    ensures var r := Next(s, step); |r.holders| == |s.used| && r.holders[i] == multiset{t} && r.used[i]
  {
    HolderCounts(s, i, t);
    OwnedNext(s, step, i);
    OneStays(s.holders[i], t, step.t);
  }

  lemma OneStays(threads: multiset<Thread>, t: Thread, other: Thread)
    requires threads == multiset{t} && other != t
    ensures threads - multiset{other} == threads && |threads + multiset{other}| == 2
  {
  }

  // ---------------------------------------------------------------- runs

  /** One step after the other, whoever has the slots that are sent and released. */
  ghost predicate Follows(states: seq<State>, steps: seq<Step>) {
    |states| == |steps| + 1 &&
    forall i :: 0 <= i < |steps| ==> Enabled(states[i], steps[i]) && states[i + 1] == Next(states[i], steps[i])
  }

  /** Steps from s on, in which slots are sent and released by threads that have them. */
  ghost predicate Path(s: State, states: seq<State>, steps: seq<Step>) {
    Follows(states, steps) && states[0] == s && forall i :: 0 <= i < |steps| ==> Fair(states[i], steps[i])
  }

  lemma {:induction false} PathInv(s: State, states: seq<State>, steps: seq<Step>, i: nat)
    requires Inv(s) && Path(s, states, steps) && i < |states|
    ensures Inv(states[i])
  {
    if i > 0 {
      PathInv(s, states, steps, i - 1);
      StepKeepsInv(states[i - 1], steps[i - 1]);
      assert states[i - 1 + 1] == Next(states[i - 1], steps[i - 1]);
    }
  }

  ghost predicate Run(states: seq<State>, steps: seq<Step>) {
    states != [] && Init(states[0]) && Path(states[0], states, steps)
  }

  lemma RunInv(states: seq<State>, steps: seq<Step>, i: nat)
    requires Run(states, steps) && i < |states|
    ensures Inv(states[i])
  {
    AllFree(states[0].used);
    PathInv(states[0], states, steps, i);
  }

  /**
   Safety of every run with any number of threads: a slot is used exactly if someone has it, a thread or the
   pending list, and no slot is had twice; a claim gets a slot that nobody has; a receive gets a message, whose
   slot the thread then has alone; and messages are received in the order in which they were appended.
   */
  lemma RunIsSafe(states: seq<State>, steps: seq<Step>, n: nat)
    requires Run(states, steps) && n < |steps|
    ensures Owned(states[n]) && Owned(states[n + 1]) && |states[n + 1].used| == |states[n].used|
    ensures steps[n].ClaimScan? ==>
      (var slot := FirstFree(states[n].used);
       slot < |states[n].used| && Having(states[n], slot) == 0 &&
       states[n + 1].used == states[n].used[slot := true] && states[n + 1].holders[slot] == multiset{steps[n].t})
    ensures steps[n].ReceivePop? ==>
      |states[n].received| < |states[n].sent|
      && (var m := states[n].sent[|states[n].received|];
          states[n + 1].received == states[n].received + [m] &&
          (SlotIn(states[n], m) >= 0 ==> states[n + 1].holders[SlotIn(states[n], m)] == multiset{steps[n].t}))
    ensures states[n].received <= states[n].sent
  {
    RunInv(states, steps, n);
    RunInv(states, steps, n + 1);
    var s, r := states[n], states[n + 1];
    match steps[n]
    case ClaimScan(t) =>
      NeverEmptyHanded(s, t);
      HolderCounts(r, FirstFree(s.used), t);
    case ReceivePop(t) =>
      NeverEmptyHanded(s, t);
      HolderCounts(r, SlotIn(s, s.pending[0]), t);
    case _ =>
  }

  // ---------------------------------------------------------------- what goes wrong otherwise

  /** A thread is past the wait of a claim, and there is no free slot. */
  ghost predicate Vain(s: State) {
    exists t :: t in s.claiming && FirstFree(s.used) == |s.used|
  }

  /** Some slot is had twice. */
  ghost predicate Shared(s: State) {
    Formed(s) && exists i :: 0 <= i < |s.used| && Having(s, i) > 1
  }

  ghost predicate ComesToHarm(s: State) {
    exists states: seq<State>, steps: seq<Step> ::
      Path(s, states, steps) && (Vain(states[|steps|]) || Shared(states[|steps|]))
  }

  lemma NoHarm(s: State)
    requires Inv(s)
    ensures !Vain(s) && !Shared(s)
  {
    forall t | t in s.claiming
      ensures FirstFree(s.used) < |s.used|
    {
      NeverEmptyHanded(s, t);
    }
  }

  lemma {:induction false} OtherThread(threads: set<Thread>) returns (t: Thread)
    ensures forall x :: x in threads ==> x < t
  {
    if threads == {} {
      t := 0;
    } else {
      var x :| x in threads;
      var y := OtherThread(threads - {x});
      t := if x < y then y else x + 1;
      assert forall z :: z in threads ==> z == x || z in threads - {x};
    }
  }

  lemma StepThen(s: State, step: Step, states: seq<State>, steps: seq<Step>)
    requires Enabled(s, step) && Fair(s, step) && Path(Next(s, step), states, steps)
    ensures Path(s, [s] + states, [step] + steps)
    ensures ([s] + states)[|[step] + steps|] == states[|steps|]
  {
    forall i | 0 <= i < |[step] + steps|
      ensures Enabled(([s] + states)[i], ([step] + steps)[i]) && Fair(([s] + states)[i], ([step] + steps)[i])
      ensures ([s] + states)[i + 1] == Next(([s] + states)[i], ([step] + steps)[i])
    {
      if i > 0 {
        assert ([s] + states)[i] == states[i - 1] && ([step] + steps)[i] == steps[i - 1];
      }
    }
  }

  /** A step that claims: a thread that is past the wait scans, or another one waits. */
  lemma OneClaim(s: State) returns (step: Step)
    requires Formed(s) && (s.claiming != {} || s.claimSem > 0)
    ensures Enabled(s, step) && Fair(s, step)
    ensures if s.claiming == {} then step.ClaimWait? else step.ClaimScan?
  {
    if s.claiming == {} {
      var t := OtherThread(s.receiving + s.sending);
      assert Idle(s, t);
      step := ClaimWait(t);
    } else {
      var t :| t in s.claiming;
      step := ClaimScan(t);
    }
  }

  /** More claims can get past the wait than there are free slots. */
  ghost predicate Overdrawn(s: State) {
    Formed(s) && FreeSlots(s.used) < s.claimSem + |s.claiming|
  }

  /** Then claims alone lead to one that scans in vain. */
  lemma {:induction false} OverdrawnVain(s: State) returns (states: seq<State>, steps: seq<Step>)
    requires Overdrawn(s)
    ensures Path(s, states, steps) && Vain(states[|steps|])
    decreases s.claimSem + FreeSlots(s.used)
  {
    var step := OneClaim(s);
    if step.ClaimScan? && FirstFree(s.used) == |s.used| {
      states, steps := [s], [];
    } else {
      if step.ClaimScan? {
        FreeUpdate(s.used, FirstFree(s.used), true);
        Removed(s.claiming, step.t);
        ScanFinds(s.used);
      }
      states, steps := OverdrawnVain(Next(s, step));
      StepThen(s, step, states, steps);
      states, steps := [s] + states, [step] + steps;
    }
  }

  /** A slot that someone has is free, and every free slot can be claimed. */
  ghost predicate Loose(s: State, i: nat) {
    Formed(s) && i < |s.used| && !s.used[i] && Having(s, i) > 0 && FreeSlots(s.used) == s.claimSem + |s.claiming|
  }

  lemma {:induction false} SomeFree(used: seq<bool>, i: nat)
    requires i < |used| && !used[i]
    ensures FreeSlots(used) > 0 && FirstFree(used) <= i
  {
    if i > 0 {
      SomeFree(used[1..], i - 1);
    }
  }

  /** Then claims alone lead to one that is given that slot. */
  lemma {:induction false} LooseShared(s: State, i: nat) returns (states: seq<State>, steps: seq<Step>)
    requires Loose(s, i)
    ensures Path(s, states, steps) && Shared(states[|steps|])
    decreases s.claimSem + FreeSlots(s.used)
  {
    SomeFree(s.used, i);
    var step := OneClaim(s);
    var r := Next(s, step);
    HavingNext(s, step, i);
    if step.ClaimScan? {
      FreeUpdate(s.used, FirstFree(s.used), true);
      Removed(s.claiming, step.t);
    }
    if step.ClaimScan? && FirstFree(s.used) == i {
      states, steps := [r], [];
    } else {
      states, steps := LooseShared(r, i);
    }
    StepThen(s, step, states, steps);
    states, steps := [s] + states, [step] + steps;
  }

  /** Sending a slot that the thread does not have. */
  lemma SendHarms(s: State, t: Thread, m: nat)
    requires Inv(s) && Enabled(s, SendAppend(t, m)) && !Fair(s, SendAppend(t, m))
    ensures ComesToHarm(Next(s, SendAppend(t, m)))
  {
    var i, r := SlotIn(s, m), Next(s, SendAppend(t, m));
    HavingNext(s, SendAppend(t, m), i);
    assert s.holders[i] - multiset{t} == s.holders[i];
    assert Having(s, i) == if s.used[i] then 1 else 0;
    if s.used[i] {
      assert Path(r, [r], []) && Shared([r][0]);
    } else {
      var states, steps := LooseShared(r, i);
    }
  }

  /** Releasing a slot that the thread does not have: one that is free, or one that another has. */
  lemma ReleaseHarms(s: State, t: Thread, m: nat)
    requires Inv(s) && Enabled(s, Release(t, m)) && !Fair(s, Release(t, m))
    ensures ComesToHarm(Next(s, Release(t, m)))
  {
    var i, r := SlotIn(s, m), Next(s, Release(t, m));
    HavingNext(s, Release(t, m), i);
    FreeUpdate(s.used, i, false);
    assert s.holders[i] - multiset{t} == s.holders[i];
    assert Having(s, i) == if s.used[i] then 1 else 0;
    if s.used[i] {
      var states, steps := LooseShared(r, i);
    } else {
      var states, steps := OverdrawnVain(r);
    }
  }

  /**
   That slots are sent and released by threads that have them is exactly what keeps the pool safe: a step does so
   if and only if no further steps that do lead to a slot had twice or to a claim that scans in vain.
   */
  lemma FairExactly(s: State, step: Step)
    requires Inv(s) && Enabled(s, step)
    ensures Fair(s, step) <==> !ComesToHarm(Next(s, step))
  {
    var after := Next(s, step);
    if Fair(s, step) {
      StepKeepsInv(s, step);
      forall states: seq<State>, steps: seq<Step> | Path(after, states, steps)
        ensures !Vain(states[|steps|]) && !Shared(states[|steps|])
      {
        PathInv(after, states, steps, |steps|);
        NoHarm(states[|steps|]);
      }
    } else {
      match step
      case SendAppend(t, m) => SendHarms(s, t, m);
      case Release(t, m) => ReleaseHarms(s, t, m);
    }
  }

  /** A pool with one slot, at address 1, and no messages. */
  ghost function OneSlot(used: bool, claimSem: nat, claiming: set<Thread>, holders: multiset<Thread>): State {
    State(1, 1, [used], [], claimSem, 0, claiming, {}, {}, [], [], [holders])
  }

  lemma OneWaits(used: bool, claimSem: nat, claiming: set<Thread>, holders: multiset<Thread>, t: Thread)
    requires claimSem > 0 && t !in claiming
    ensures var s := OneSlot(used, claimSem, claiming, holders);
      Enabled(s, ClaimWait(t)) && Next(s, ClaimWait(t)) == OneSlot(used, claimSem - 1, claiming + {t}, holders)
  {
  }

  lemma OneScans(claimSem: nat, claiming: set<Thread>, holders: multiset<Thread>, t: Thread)
    requires t in claiming
    ensures var s := OneSlot(false, claimSem, claiming, holders);
      Enabled(s, ClaimScan(t)) && FirstFree(s.used) == 0 &&
      Next(s, ClaimScan(t)) == OneSlot(true, claimSem, claiming - {t}, holders + multiset{t})
  {
    assert [false][0 := true] == [true];
    assert [holders][0 := holders + multiset{t}] == [holders + multiset{t}];
  }

  lemma OneReleases(used: bool, claimSem: nat, holders: multiset<Thread>, t: Thread)
    ensures var s := OneSlot(used, claimSem, {}, holders);
      Enabled(s, Release(t, 1)) && SlotIn(s, 1) == 0 &&
      Next(s, Release(t, 1)) == OneSlot(false, claimSem + 1, {}, holders - multiset{t})
  {
    IndexOfAddress(1, 1, 1, 0, 0);
    assert AddressOf(1, 1, 0) + 0 == 1;
    assert [used][0 := false] == [false];
    assert [holders][0 := holders - multiset{t}] == [holders - multiset{t}];
  }

  /** After releasing a slot of a fresh pool that was never claimed, the second claim scans in vain. */
  lemma DoubleReleaseExample() returns (states: seq<State>, steps: seq<Step>)
    ensures Follows(states, steps) && Init(states[0])
    ensures steps == [Release(0, 1), ClaimWait(1), ClaimWait(2), ClaimScan(1)]
    ensures 2 in states[4].claiming && FirstFree(states[4].used) == |states[4].used|
  {
    var none := multiset{};
    OneReleases(false, 1, none, 0);
    assert none - multiset{0} == none && {} + {1} == {1};
    OneWaits(false, 2, {}, none, 1);
    OneWaits(false, 1, {1}, none, 2);
    OneScans(0, {1, 2}, none, 1);
    assert {1} + {2} == {1, 2} && {1, 2} - {1} == {2};
    states := [OneSlot(false, 1, {}, none), OneSlot(false, 2, {}, none), OneSlot(false, 1, {1}, none),
               OneSlot(false, 0, {1, 2}, none), OneSlot(true, 0, {2}, none + multiset{1})];
    steps := [Release(0, 1), ClaimWait(1), ClaimWait(2), ClaimScan(1)];
    assert FirstFree([true]) == 1;
  }

  /** One thread claims the free slot: whoever has it, it is given the slot. */
  ghost function Claiming(holders: multiset<Thread>, t: Thread): seq<State> {
    [OneSlot(false, 1, {}, holders), OneSlot(false, 0, {t}, holders), OneSlot(true, 0, {}, holders + multiset{t})]
  }

  lemma Claims(holders: multiset<Thread>, t: Thread)
    ensures Follows(Claiming(holders, t), [ClaimWait(t), ClaimScan(t)])
  {
    OneWaits(false, 1, {}, holders, t);
    OneScans(0, {t}, holders, t);
    assert {} + {t} == {t} && {t} - {t} == {};
  }

  /** A claim, a release by thread 1 and then the rest. */
  lemma ClaimAndRelease(holders: multiset<Thread>, t: Thread, states: seq<State>, steps: seq<Step>)
    requires Follows(states, steps) && states[0] == OneSlot(false, 1, {}, holders + multiset{t} - multiset{1})
    ensures Follows(Claiming(holders, t) + states, [ClaimWait(t), ClaimScan(t), Release(1, 1)] + steps)
  {
    Claims(holders, t);
    OneReleases(true, 0, holders + multiset{t}, 1);
    var claim := [ClaimWait(t), ClaimScan(t)];
    Joined(Claiming(holders, t), claim, Release(1, 1), states, steps);
    assert [ClaimWait(t), ClaimScan(t), Release(1, 1)] + steps == claim + ([Release(1, 1)] + steps);
  }

  lemma Joined(a: seq<State>, p: seq<Step>, step: Step, b: seq<State>, q: seq<Step>)
    requires Follows(a, p) && Follows(b, q) && Enabled(a[|p|], step) && b[0] == Next(a[|p|], step)
    ensures Follows(a + b, p + ([step] + q))
  {
    var states, steps := a + b, p + ([step] + q);
    forall i | 0 <= i < |steps|
      ensures Enabled(states[i], steps[i]) && states[i + 1] == Next(states[i], steps[i])
    {
      if i < |p| {
        assert states[i] == a[i] && states[i + 1] == a[i + 1] && steps[i] == p[i];
      } else if i == |p| {
        assert states[i] == a[i] && states[i + 1] == b[0] && steps[i] == step;
      } else {
        var k := i - |p| - 1;
        assert states[i] == b[k] && states[i + 1] == b[k + 1] && steps[i] == q[k];
      }
    }
  }

  /**
   A release of a used slot by a thread that does not have it: thread 1 claims and releases, thread 2 claims, thread
   1 releases again, and thread 3 is given what thread 2 has.
   */
  lemma OtherReleaseExample() returns (states: seq<State>, steps: seq<Step>)
    ensures Follows(states, steps) && Init(states[0])
    ensures steps == [ClaimWait(1), ClaimScan(1), Release(1, 1)] + ([ClaimWait(2), ClaimScan(2), Release(1, 1)] +
      [ClaimWait(3), ClaimScan(3)])
    ensures states[5] == OneSlot(true, 0, {}, multiset{2}) && states[8] == OneSlot(true, 0, {}, multiset{2, 3})
  {
    var none := multiset{};
    assert none + multiset{1} - multiset{1} == none;
    assert none + multiset{2} - multiset{1} == multiset{2} == none + multiset{2};
    assert multiset{2} + multiset{3} == multiset{2, 3};
    Claims(multiset{2}, 3);
    states := Claiming(multiset{2}, 3);
    steps := [ClaimWait(3), ClaimScan(3)];
    ClaimAndRelease(none, 2, states, steps);
    states := Claiming(none, 2) + states;
    steps := [ClaimWait(2), ClaimScan(2), Release(1, 1)] + steps;
    ClaimAndRelease(none, 1, states, steps);
    states := Claiming(none, 1) + states;
    steps := [ClaimWait(1), ClaimScan(1), Release(1, 1)] + steps;
  }

  // ---------------------------------------------------------------- the pool in memory

  /** `os_MsgSend_t`: a node of the list of pending messages. */
  class MsgSend {
    const message: nat
    var next: MsgSend?

    constructor (message: nat)
      ensures this.message == message && next == null
    {
      this.message := message;
      next := null;
    }
  }

  ghost predicate Listed(nodes: seq<MsgSend>)
    reads nodes
  {
    forall i {:trigger nodes[i].next} :: 0 <= i < |nodes| ==>
      nodes[i].next == if i + 1 < |nodes| then nodes[i + 1] else null
  }

  lemma {:induction false} ListedApart(nodes: seq<MsgSend>, i: nat, j: nat)
    requires Listed(nodes) && i < j < |nodes|
    ensures nodes[i] != nodes[j]
    decreases |nodes| - j
  {
    assert nodes[i].next == nodes[i + 1];
    assert nodes[j].next == if j + 1 < |nodes| then nodes[j + 1] else null;
    if j + 1 < |nodes| {
      ListedApart(nodes, i + 1, j + 1);
    }
  }

  function Messages(nodes: seq<MsgSend>): seq<nat> {
    seq(|nodes|, i requires 0 <= i < |nodes| => nodes[i].message)
  }

  class Pool {
    const used: array<bool>
    const memory: nat
    const elementSize: nat
    var pendingHead: MsgSend?
    var claimSem: nat
    var msgSem: nat
    ghost var nodes: seq<MsgSend>
    ghost var claiming: set<Thread>
    ghost var receiving: set<Thread>
    ghost var sending: set<Thread>
    ghost var sent: seq<nat>
    ghost var received: seq<nat>
    ghost var holders: seq<multiset<Thread>>

    constructor (used: array<bool>, memory: nat, elementSize: nat)
      requires elementSize > 0 && forall i :: 0 <= i < used.Length ==> !used[i]
      ensures this.used == used && Valid() && Init(Abstract())
    {
      this.used, this.memory, this.elementSize := used, memory, elementSize;
      pendingHead, claimSem, msgSem := null, used.Length, 0;
      nodes, claiming, receiving, sending, sent, received := [], {}, {}, {}, [], [];
      holders := seq(used.Length, _ => multiset{});
    }

    ghost predicate Valid()
      reads this, nodes
    {
      elementSize > 0 && |holders| == used.Length && Listed(nodes) &&
      pendingHead == if nodes == [] then null else nodes[0]
    }

    ghost function Abstract(): State
      reads this, used
    {
      State(memory, elementSize, used[..], Messages(nodes), claimSem, msgSem, claiming, receiving, sending,
            sent, received, holders)
    }

    /** The wait of `os_message_claim_timeout`. */
    method WaitClaim(ghost t: Thread)
      requires Valid() && Enabled(Abstract(), ClaimWait(t))
      modifies this
      ensures Valid() && Abstract() == Next(old(Abstract()), ClaimWait(t))
    {
      claimSem := claimSem - 1;
      claiming := claiming + {t};
    }

    /** The section of `os_message_claim_timeout` under the mutex: NULL is an address of zero. */
    method LockedScan(ghost t: Thread) returns (address: nat)
      requires Valid() && Enabled(Abstract(), ClaimScan(t))
      modifies this, used
      ensures Valid() && Abstract() == Next(old(Abstract()), ClaimScan(t))
      ensures var i := FirstFree(old(used[..]));
        address == if i < used.Length then AddressOf(memory, elementSize, i) else 0
    {
      claiming := claiming - {t};
      var i := 0;
      assert used[0..] == used[..];
      while i < used.Length
        invariant 0 <= i <= used.Length && used[..] == old(used[..])
        invariant FirstFree(used[..]) == i + FirstFree(used[i..])
      {
        assert used[i..][1..] == used[i + 1..];
        if !used[i] {
          used[i] := true;
          holders := Gained(holders, i, t);
          return AddressOf(memory, elementSize, i);
        }
        i := i + 1;
      }
      address := 0;
    }

    /** The section of `os_message_send` under the mutex: the new node goes to the end of the list. */
    method LockedAppend(ghost t: Thread, message: nat)
      requires Valid() && Enabled(Abstract(), SendAppend(t, message))
      modifies this, nodes
      ensures Valid() && Abstract() == Next(old(Abstract()), SendAppend(t, message))
    {
      var node := new MsgSend(message);
      if pendingHead != null {
        LinkLast(node);
      } else {
        pendingHead := node;
      }
      AppendMessages(nodes, node);
      nodes := nodes + [node];
      sending := sending + {t};
      sent := sent + [message];
      holders := Lost(holders, SlotOf(memory, elementSize, used.Length, message), t);
    }

    /** Walking to the last node. */
    method LinkLast(node: MsgSend)
      requires Valid() && nodes != [] && node !in nodes && node.next == null
      modifies nodes
      ensures Listed(nodes + [node])
    {
      var pending: MsgSend := pendingHead;
      ghost var i := 0;
      while pending.next != null
        invariant 0 <= i < |nodes| && pending == nodes[i]
        decreases |nodes| - i
      {
        assert nodes[i].next == if i + 1 < |nodes| then nodes[i + 1] else null;
        pending := pending.next;
        i := i + 1;
      }
      assert nodes[i].next == null && i + 1 == |nodes|;
      forall k | 0 <= k < i
        ensures nodes[k] != pending
      {
        ListedApart(nodes, k, i);
      }
      assert forall k :: 0 <= k < |nodes| ==> nodes[k] in nodes;
      pending.next := node;
    }

    static lemma AppendMessages(nodes: seq<MsgSend>, node: MsgSend)
      ensures Messages(nodes + [node]) == Messages(nodes) + [node.message]
    {
    }

    /** The signal of `os_message_send`. */
    method SignalMessage(ghost t: Thread)
      requires Valid() && Enabled(Abstract(), SendSignal(t))
      modifies this
      ensures Valid() && Abstract() == Next(old(Abstract()), SendSignal(t))
    {
      msgSem := msgSem + 1;
      sending := sending - {t};
    }

    /** The wait of `os_message_receive_timeout`. */
    method WaitMessage(ghost t: Thread)
      requires Valid() && Enabled(Abstract(), ReceiveWait(t))
      modifies this
      ensures Valid() && Abstract() == Next(old(Abstract()), ReceiveWait(t))
    {
      msgSem := msgSem - 1;
      receiving := receiving + {t};
    }

    /** The section of `os_message_receive_timeout` under the mutex. */
    method LockedPop(ghost t: Thread) returns (found: bool, message: nat)
      requires Valid() && Enabled(Abstract(), ReceivePop(t))
      modifies this
      ensures Valid() && Abstract() == Next(old(Abstract()), ReceivePop(t))
      ensures found <==> old(Abstract()).pending != []
      ensures found ==> message == old(Abstract()).pending[0]
    {
      receiving := receiving - {t};
      if pendingHead == null {
        return false, 0;
      }
      found, message := true, pendingHead.message;
      assert nodes[0].next == if 1 < |nodes| then nodes[1] else null;
      pendingHead := pendingHead.next;
      TailListed(nodes);
      received := received + [message];
      holders := Gained(holders, SlotOf(memory, elementSize, used.Length, message), t);
      nodes := nodes[1..];
    }

    static lemma TailListed(nodes: seq<MsgSend>)
      requires Listed(nodes) && nodes != []
      ensures Listed(nodes[1..]) && Messages(nodes[1..]) == Messages(nodes)[1..]
    {
      var t := nodes[1..];
      forall i | 0 <= i < |t|
        ensures t[i].next == if i + 1 < |t| then t[i + 1] else null
      {
        assert t[i] == nodes[i + 1];
      }
    }

    /** `os_message_release`: NULL and an address outside the pool are ignored. */
    method LockedRelease(ghost t: Thread, address: nat)
      requires Valid() && Idle(Abstract(), t)
      modifies this, used
      ensures Valid()
      ensures Abstract() ==
        if address == 0 then old(Abstract()) else Next(old(Abstract()), Release(t, address))
    {
      if address == 0 {
        return;
      }
      ghost var slot := SlotOf(memory, elementSize, used.Length, address);
      if memory <= address && address < memory + elementSize * used.Length {
        var index := (address - memory) / elementSize;
        SlotExists(address - memory, elementSize, used.Length);
        used[index] := false;
        claimSem := claimSem + 1;
        holders := Lost(holders, slot, t);
      }
    }
  }
}
