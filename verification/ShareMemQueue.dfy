/**
 The shared-memory queue: a control block with two semaphores and a mutex, one writer and one reader. Each
 semaphore operation and each locked section is one atomic step, and the two sides interleave freely.
 */
module ShareMemQueue {
  import Modular

  /** Where the writer is: between calls, past the wait, filling a slot, or about to post. */
  datatype Writer = WriterIdle | WriterAdmitted | Filling(slot: nat) | WriterCommitted

  datatype Reader = ReaderIdle | ReaderAdmitted | Reading(slot: nat) | ReaderCommitted

  /** The control block and the data, both sides, and the values published and consumed so far. */
  datatype State<T> = State(
    writeIndex: nat, readIndex: nat, elementCount: int, notFull: int, notEmpty: int, data: seq<T>,
    writer: Writer, reader: Reader, published: seq<T>, consumed: seq<T>)

  datatype Step<T> =
    | WaitNotFull | GetWritePtr | Fill(value: T) | CommitWrite | PostNotEmpty
    | WaitNotEmpty | GetReadPtr | CommitRead(value: T) | PostNotFull

  function Max<T>(s: State<T>): nat { |s.data| }

  /** A blocked semaphore is a step that is not enabled. A reader takes the value its slot has. */
  ghost predicate Enabled<T>(s: State<T>, step: Step<T>) {
    match step
    case WaitNotFull => s.writer.WriterIdle? && s.notFull > 0
    case GetWritePtr => s.writer.WriterAdmitted?
    case Fill(_) => s.writer.Filling? && s.writer.slot < Max(s)
    case CommitWrite => s.writer.Filling? && s.writer.slot < Max(s)
    case PostNotEmpty => s.writer.WriterCommitted?
    case WaitNotEmpty => s.reader.ReaderIdle? && s.notEmpty > 0
    case GetReadPtr => s.reader.ReaderAdmitted?
    case CommitRead(v) => s.reader.Reading? && s.reader.slot < Max(s) && s.data[s.reader.slot] == v
    case PostNotFull => s.reader.ReaderCommitted?
  }

  ghost function Next<T>(s: State<T>, step: Step<T>): State<T>
    requires Max(s) > 0 && Enabled(s, step)
  {
    match step
    case WaitNotFull => s.(notFull := s.notFull - 1, writer := WriterAdmitted)
    case GetWritePtr => s.(writer := Filling(s.writeIndex))
    case Fill(v) => s.(data := s.data[s.writer.slot := v])
    case CommitWrite => s.(writeIndex := (s.writeIndex + 1) % Max(s), elementCount := s.elementCount + 1,
                           writer := WriterCommitted, published := s.published + [s.data[s.writer.slot]])
    case PostNotEmpty => s.(notEmpty := s.notEmpty + 1, writer := WriterIdle)
    case WaitNotEmpty => s.(notEmpty := s.notEmpty - 1, reader := ReaderAdmitted)
    case GetReadPtr => s.(reader := Reading(s.readIndex))
    case CommitRead(v) => s.(readIndex := (s.readIndex + 1) % Max(s), elementCount := s.elementCount - 1,
                             reader := ReaderCommitted, consumed := s.consumed + [v])
    case PostNotFull => s.(notFull := s.notFull + 1, reader := ReaderIdle)
  }

  /** What `ShareMemQue_Create` leaves behind. */
  ghost predicate Init<T>(s: State<T>) {
    && Max(s) > 0 && s.writeIndex == 0 && s.readIndex == 0 && s.elementCount == 0
    && s.notFull == Max(s) && s.notEmpty == 0
    && s.writer == WriterIdle && s.reader == ReaderIdle && s.published == [] && s.consumed == []
  }

  // ---------------------------------------------------------------- the invariant

  function Bit(b: bool): nat { if b then 1 else 0 }

  /** Both semaphores count the elements, up to the steps the two sides have under way. */
  ghost predicate Counted<T>(s: State<T>) {
    && s.elementCount == |s.published| - |s.consumed|
    && s.notFull == Max(s) - s.elementCount
                    - Bit(s.writer.WriterAdmitted? || s.writer.Filling?) - Bit(s.reader.ReaderCommitted?)
    && s.notEmpty == s.elementCount
                     - Bit(s.reader.ReaderAdmitted? || s.reader.Reading?) - Bit(s.writer.WriterCommitted?)
    && s.notFull >= 0 && s.notEmpty >= 0
  }

  ghost predicate Indexed<T>(s: State<T>) {
    && Max(s) > 0
    && s.writeIndex == |s.published| % Max(s)
    && s.readIndex == |s.consumed| % Max(s)
    && (s.writer.Filling? ==> s.writer.slot == s.writeIndex)
    && (s.reader.Reading? ==> s.reader.slot == s.readIndex)
  }

  /** The elements in the queue stand in the slots behind the read index. */
  ghost predicate Stored<T>(s: State<T>)
    requires Max(s) > 0
  {
    && |s.consumed| <= |s.published|
    && s.consumed == s.published[..|s.consumed|]
    && forall i {:trigger s.published[i]} :: |s.consumed| <= i < |s.published| ==> s.data[i % Max(s)] == s.published[i]
  }

  ghost predicate Inv<T>(s: State<T>) {
    Indexed(s) && Counted(s) && Stored(s)
  }

  lemma InitInv<T>(s: State<T>)
    requires Init(s)
    ensures Inv(s)
  {
    Modular.Small(0, Max(s));
  }

  /** Writing the slot at the write index leaves the stored elements alone. */
  lemma FillKeepsStored<T>(s: State<T>, value: T)
    requires Inv(s) && s.writer.Filling?
    ensures Stored(Next(s, Fill(value)))
  {
    var t := Next(s, Fill(value));
    forall i | |s.consumed| <= i < |s.published|
      ensures t.data[i % Max(s)] == s.published[i]
    {
      Modular.Apart(i, |s.published|, Max(s));
    }
  }

  lemma CommitKeepsStored<T>(s: State<T>)
    requires Inv(s) && s.writer.Filling?
    ensures Stored(Next(s, CommitWrite)) && Indexed(Next(s, CommitWrite))
  {
    Modular.StepAround(|s.published|, Max(s));
    var t := Next(s, CommitWrite);
    assert t.published[..|s.consumed|] == s.published[..|s.consumed|];
    forall i | |t.consumed| <= i < |t.published|
      ensures t.data[i % Max(s)] == t.published[i]
    {
      if i < |s.published| {
        assert t.published[i] == s.published[i];
      }
    }
  }

  /** The value a reader takes is the oldest one not yet consumed. */
  lemma ReadsOldest<T>(s: State<T>)
    requires Inv(s) && s.reader.Reading?
    ensures |s.consumed| < |s.published| && s.data[s.reader.slot] == s.published[|s.consumed|]
  {
    assert s.published[|s.consumed|] == s.data[|s.consumed| % Max(s)];
  }

  lemma CommitReadKeepsStored<T>(s: State<T>, value: T)
    requires Inv(s) && Enabled(s, CommitRead(value))
    ensures Stored(Next(s, CommitRead(value))) && Indexed(Next(s, CommitRead(value)))
  {
    Modular.StepAround(|s.consumed|, Max(s));
    ReadsOldest(s);
    var n := |s.consumed|;
    assert s.published[..n + 1] == s.published[..n] + [s.published[n]];
  }

  /** Every step of either side keeps the invariant. */
  lemma StepKeepsInv<T>(s: State<T>, step: Step<T>)
    requires Inv(s) && Enabled(s, step)
    ensures Inv(Next(s, step))
  {
    match step
    case Fill(value) => FillKeepsStored(s, value);
    case CommitWrite => CommitKeepsStored(s);
    case CommitRead(value) => CommitReadKeepsStored(s, value);
    case _ =>
  }

  // ---------------------------------------------------------------- runs

  /** A run: from an initial state, one enabled step of either side after the other. */
  ghost predicate Run<T>(states: seq<State<T>>, steps: seq<Step<T>>) {
    && |states| == |steps| + 1 && Init(states[0])
    && forall i :: 0 <= i < |steps| ==>
         Max(states[i]) > 0 && Enabled(states[i], steps[i]) && states[i + 1] == Next(states[i], steps[i])
  }

  lemma {:induction false} RunInv<T>(states: seq<State<T>>, steps: seq<Step<T>>, i: nat)
    requires Run(states, steps) && i < |states|
    ensures Inv(states[i]) && Max(states[i]) == Max(states[0])
  {
    if i == 0 {
      InitInv(states[0]);
    } else {
      RunInv(states, steps, i - 1);
      assert states[i - 1 + 1] == Next(states[i - 1], steps[i - 1]);
      StepKeepsInv(states[i - 1], steps[i - 1]);
    }
  }

  /** Is the writer, or the reader, past its wait and not yet at its post? */
  function InFlight<T>(s: State<T>): nat {
    Bit(!s.writer.WriterIdle?) + Bit(!s.reader.ReaderIdle?)
  }

  /**
   Safety of every run: the semaphores and the sides in flight add up to the capacity, the write index is
   the read index and the element count further on, the two sides never hold the same slot, and the values
   consumed are the values published, in order.
   */
  lemma RunIsSafe<T>(states: seq<State<T>>, steps: seq<Step<T>>, i: nat)
    requires Run(states, steps) && i < |states|
    ensures var s := states[i];
      && Max(s) > 0 && s.notFull + s.notEmpty + InFlight(s) == Max(s)
      && 0 <= s.elementCount <= Max(s) && s.writeIndex == (s.readIndex + s.elementCount) % Max(s)
      && (s.writer.Filling? && s.reader.Reading? ==> s.writer.slot != s.reader.slot)
      && s.consumed <= s.published
  {
    RunInv(states, steps, i);
    var s := states[i];
    Modular.AddAround(|s.consumed|, s.elementCount, Max(s));
    if s.writer.Filling? && s.reader.Reading? {
      Modular.Apart(|s.consumed|, |s.published|, Max(s));
    }
  }

  /** Never are both sides blocked: in every reachable state some step is enabled. */
  lemma NeverBothBlocked<T>(states: seq<State<T>>, steps: seq<Step<T>>, i: nat)
    requires Run(states, steps) && i < |states|
    ensures exists step: Step<T> :: Enabled(states[i], step)
    ensures var s := states[i];
      !(s.writer.WriterIdle? && s.notFull == 0 && s.reader.ReaderIdle? && s.notEmpty == 0)
  {
    RunIsSafe(states, steps, i);
    RunInv(states, steps, i);
    var s := states[i];
    match s.writer
    case WriterAdmitted => assert Enabled(s, GetWritePtr);
    case Filling(_) => assert Enabled(s, CommitWrite);
    case WriterCommitted => assert Enabled(s, PostNotEmpty);
    case WriterIdle =>
      if s.notFull > 0 {
        assert Enabled(s, WaitNotFull);
      } else {
        match s.reader
        case ReaderAdmitted => assert Enabled(s, GetReadPtr);
        case Reading(slot) => assert Enabled(s, CommitRead(s.data[slot]));
        case ReaderCommitted => assert Enabled(s, PostNotFull);
        case ReaderIdle => assert Enabled(s, WaitNotEmpty);
      }
  }

  /** While a reader holds its slot the value in it does not change, whatever the writer does. */
  lemma HeldValueStays<T>(s: State<T>, step: Step<T>)
    requires Inv(s) && Enabled(s, step) && s.reader.Reading? && Next(s, step).reader == s.reader
    ensures Next(s, step).data[s.reader.slot] == s.data[s.reader.slot]
  {
    ReadsOldest(s);
    StepKeepsInv(s, step);
    ReadsOldest(Next(s, step));
  }

  // ---------------------------------------------------------------- the control block

  /** The control block in shared memory; the sides and the histories are there for the specification. */
  class ControlBlock<T> {
    var writeIndex: nat
    var readIndex: nat
    var elementCount: int
    var notFull: int
    var notEmpty: int
    const data: array<T>
    ghost var writer: Writer
    ghost var reader: Reader
    ghost var published: seq<T>
    ghost var consumed: seq<T>

    constructor (data: array<T>)
      requires data.Length > 0
      ensures this.data == data && Init(Abstract())
    {
      this.data := data;
      writeIndex, readIndex, elementCount, notFull, notEmpty := 0, 0, 0, data.Length, 0;
      writer, reader, published, consumed := WriterIdle, ReaderIdle, [], [];
    }

    ghost function Abstract(): State<T>
      reads this, data
    {
      State(writeIndex, readIndex, elementCount, notFull, notEmpty, data[..], writer, reader, published, consumed)
    }

    /** The wait of `ShareMemQue_GetWritePtr`. */
    method SemWaitNotFull()
      requires data.Length > 0 && Enabled(Abstract(), WaitNotFull)
      modifies this
      ensures Abstract() == Next(old(Abstract()), WaitNotFull)
    {
      notFull := notFull - 1;
      writer := WriterAdmitted;
    }

    /** The locked section of `ShareMemQue_GetWritePtr`. */
    method LockedWriteIndex() returns (slot: nat)
      requires data.Length > 0 && Enabled(Abstract(), GetWritePtr)
      modifies this
      ensures Abstract() == Next(old(Abstract()), GetWritePtr) && writer == Filling(slot)
    {
      slot := writeIndex;
      writer := Filling(slot);
    }

    /** The caller fills the slot it got a pointer to, without the lock. */
    method FillSlot(slot: nat, value: T)
      requires slot < data.Length && writer == Filling(slot)
      modifies data
      ensures Abstract() == Next(old(Abstract()), Fill(value))
    {
      data[slot] := value;
    }

    /** The locked section of `ShareMemQue_PutWritePtr`. */
    method LockedCommitWrite()
      requires data.Length > 0 && Enabled(Abstract(), CommitWrite)
      modifies this
      ensures Abstract() == Next(old(Abstract()), CommitWrite)
    {
      published := published + [data[writer.slot]];
      writeIndex := (writeIndex + 1) % data.Length;
      elementCount := elementCount + 1;
      writer := WriterCommitted;
    }

    /** The post of `ShareMemQue_PutWritePtr`. */
    method SemPostNotEmpty()
      requires data.Length > 0 && Enabled(Abstract(), PostNotEmpty)
      modifies this
      ensures Abstract() == Next(old(Abstract()), PostNotEmpty)
    {
      notEmpty := notEmpty + 1;
      writer := WriterIdle;
    }

    /** The wait of `ShareMemQue_GetReadPtr`. */
    method SemWaitNotEmpty()
      requires data.Length > 0 && Enabled(Abstract(), WaitNotEmpty)
      modifies this
      ensures Abstract() == Next(old(Abstract()), WaitNotEmpty)
    {
      notEmpty := notEmpty - 1;
      reader := ReaderAdmitted;
    }

    /** The locked section of `ShareMemQue_GetReadPtr`. */
    method LockedReadIndex() returns (slot: nat)
      requires data.Length > 0 && Enabled(Abstract(), GetReadPtr)
      modifies this
      ensures Abstract() == Next(old(Abstract()), GetReadPtr) && reader == Reading(slot)
    {
      slot := readIndex;
      reader := Reading(slot);
    }

    /** The locked section of `ShareMemQue_PutReadPtr`, after the caller has read its slot. */
    method LockedCommitRead(ghost value: T)
      requires data.Length > 0 && Enabled(Abstract(), CommitRead(value))
      modifies this
      ensures Abstract() == Next(old(Abstract()), CommitRead(value))
    {
      readIndex := (readIndex + 1) % data.Length;
      elementCount := elementCount - 1;
      consumed := consumed + [value];
      reader := ReaderCommitted;
    }

    /** The post of `ShareMemQue_PutReadPtr`. */
    method SemPostNotFull()
      requires data.Length > 0 && Enabled(Abstract(), PostNotFull)
      modifies this
      ensures Abstract() == Next(old(Abstract()), PostNotFull)
    {
      notFull := notFull + 1;
      reader := ReaderIdle;
    }
  }
}
