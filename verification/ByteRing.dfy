/**
 The byte ring: copies in up to two chunks around the end of an array, and growth. The ring stands for the
 sequence of bytes between its read and write positions. Writing never sets the full flag, so a write that
 leaves no byte free makes the ring look empty.
 */
module ByteRings {
  import Modular
  import opened Seqs

  datatype Code = NoError | TimeOut | WaitMoreData | InvalidParam | ObjectExisted

  /** The bytes between two positions, around the end; equal positions are a full ring or an empty one. */
  function Between(data: seq<char>, r: nat, w: nat, full: bool): (s: seq<char>)
    requires r < |data| && w < |data|
  {
    if r < w || (r == w && !full) then data[r..w] else data[r..] + data[..w]
  }

  /** Stepping a position by no more than the rest of a round. */
  lemma StepTo(p: nat, n: nat, capacity: nat)
    requires p < capacity && p + n <= capacity
    ensures (p + n) % capacity == if p + n == capacity then 0 else p + n
  {
    if p + n == capacity {
      Modular.Quotient(capacity, capacity, 1, 0);
    } else {
      Modular.Small(p + n, capacity);
    }
  }

  lemma ChunksJoin(d: seq<char>, r: nat, m: nat)
    requires r <= |d| && m <= |d|
    ensures d[r..|d|] + d[0..m] == d[r..] + d[..m]
  {
  }

  /** A text cut in two, and a patch of nothing. */
  lemma TwoLengths(size: nat, room: nat, r: nat, n: nat, m: nat)
    requires n == Min(room, size) && m == if n < size then Min(r, size - n) else 0
    ensures n + m == Min(size, room + r) <= size && m <= r && (m > 0 ==> n == room)
  {
  }

  lemma PatchNothing(d: seq<char>)
    ensures Patched(d, 0, []) == d
  {
  }

  /** Content that goes around the end. */
  function Around(d: seq<char>, r: nat, w: nat): seq<char>
    requires r <= |d| && w <= |d|
  {
    d[r..] + d[..w]
  }

  lemma CutSlice(d: seq<char>, r: nat, w: nat, n: nat)
    requires r + n <= w <= |d|
    ensures d[r..w][..n] == d[r..r + n] && d[r..w][n..] == d[r + n..w]
  {
  }

  /** Taking n bytes from the front of content that goes around the end. */
  lemma ReadMoves(d: seq<char>, r: nat, w: nat, n: nat)
    requires w <= r < |d| && 0 < n <= |d| - r + w
    ensures var whole, r' := Around(d, r, w), if r + n < |d| then r + n else r + n - |d|;
      r' < |d| && Between(d, r', w, false) == whole[n..]
      && whole[..n] == if r + n <= |d| then d[r..r + n] else d[r..] + d[..r + n - |d|]
  {
    var whole := Around(d, r, w);
    if r + n < |d| {
      assert whole[n..] == d[r + n..] + d[..w];
    } else {
      assert whole[n..] == d[r + n - |d|..w];
    }
  }

  /** Bytes written at a position. */
  function Patched(d: seq<char>, at: nat, b: seq<char>): (r: seq<char>)
    requires at + |b| <= |d|
    ensures |r| == |d|
  {
    d[..at] + b + d[at + |b|..]
  }

  /** Overwritten from position at on, and from the front on where that reaches the end. */
  function PatchedAround(d: seq<char>, at: nat, b: seq<char>): (r: seq<char>)
    requires at <= |d| && |b| <= |d|
    ensures |r| == |d|
  {
    var k := Min(|b|, |d| - at);
    Patched(Patched(d, at, b[..k]), 0, b[k..])
  }

  /** Writing into the gap between the write position and the read position behind it. */
  lemma GapMoves(d: seq<char>, r: nat, w: nat, b: seq<char>)
    requires w < r < |d| && 0 < |b| <= r - w
    ensures Between(Patched(d, w, b), r, w + |b|, false) == if |b| < r - w then Between(d, r, w, false) + b else []
  {
    var e := Patched(d, w, b);
    assert e[r..] == d[r..] && e[..w + |b|] == d[..w] + b;
  }

  /** Writing behind content that does not go around the end: b up to the end, and c from the start. */
  lemma AroundMoves(d: seq<char>, r: nat, w: nat, b: seq<char>, c: seq<char>)
    requires r <= w < |d| && w + |b| <= |d| && |c| <= r && |b| > 0 && (c != [] ==> w + |b| == |d|)
    ensures var n := |b| + |c|; var w' := if w + n < |d| then w + n else w + n - |d|;
      w' < |d| && Between(Patched(Patched(d, w, b), 0, c), r, w', false) ==
        if n < |d| - w + r then d[r..w] + (b + c) else []
  {
    var p := Patched(d, w, b);
    var e := Patched(p, 0, c);
    PatchedSlices(d, r, w, b);
    assert e[r..] == p[r..] && e[..|c|] == c;
    if w + |b| == |d| {
      AppendAssociates(d[r..w], b, c);
    } else {
      assert e[r..w + |b|] == e[r..][..w + |b| - r];
      assert p[r..w + |b|] == p[r..][..w + |b| - r];
      AppendNothing(b);
    }
  }

  lemma PatchedSlices(d: seq<char>, r: nat, w: nat, b: seq<char>)
    requires r <= w < |d| && w + |b| <= |d|
    ensures var p := Patched(d, w, b);
      p[r..w + |b|] == d[r..w] + b && (w + |b| == |d| ==> p[r..] == d[r..w] + b)
  {
  }

  /** `memcpy`. */
  method CopyBytes(d: array<char>, at: nat, s: array<char>, from: nat, n: nat)
    requires d != s && at + n <= d.Length && from + n <= s.Length
    modifies d
    ensures d[..at] == old(d[..at]) && d[at..at + n] == s[from..from + n] && d[at + n..] == old(d[at + n..])
  {
    forall i | 0 <= i < n {
      d[at + i] := s[from + i];
    }
    ghost var written, bytes := d[at..at + n], s[from..from + n];
    forall i | 0 <= i < n
      ensures written[i] == bytes[i]
    {
    }
  }

  class ByteRing {
    var data: array<char>
    var capacity: nat
    const maxCapacity: nat
    var r: nat
    var w: nat
    var full: bool

    /** `ring_buffer_create`. */
    constructor (initCapacity: nat, maxCapacity: nat)
      requires initCapacity >= 32
      ensures Valid() && fresh(data) && Content() == [] && capacity == initCapacity
      ensures this.maxCapacity == if initCapacity > maxCapacity then initCapacity else maxCapacity
    {
      data := new char[initCapacity];
      capacity := initCapacity;
      this.maxCapacity := if initCapacity > maxCapacity then initCapacity else maxCapacity;
      r, w, full := 0, 0, false;
    }

    ghost predicate Valid()
      reads this
    {
      && 0 < capacity == data.Length <= maxCapacity
      && r < capacity && w < capacity
      && (full ==> r == w)
    }

    ghost function Content(): seq<char>
      requires Valid()
      reads this, data
    {
      Between(data[..], r, w, full)
    }

    /** `ring_buffer_size`. */
    function Size(): (n: nat)
      requires Valid()
      reads this, data
      ensures n == |Content()| <= capacity
    {
      if full then capacity else if w >= r then w - r else capacity - (r - w)
    }

    /** `ring_buffer_free_size`. */
    function FreeSize(): nat
      requires Valid()
      reads this, data
    {
      capacity - Size()
    }

    /** One chunk goes from the read position to the buffer. */
    method TakeChunk(buff: array<char>, at: nat, n: nat)
      requires buff != data && at + n <= buff.Length && capacity == data.Length && r < capacity && r + n <= capacity
      modifies `r, buff
      ensures r == if old(r) + n < capacity then old(r) + n else 0
      ensures buff[..at + n] == old(buff[..at]) + data[..][old(r)..old(r) + n]
    {
      CopyBytes(buff, at, data, r, n);
      assert buff[..at + n] == buff[..at] + buff[at..at + n];
      StepTo(r, n, capacity);
      r := (r + n) % capacity;
    }

    /** `ring_buffer_read_internal`: a prefix of the content goes to the buffer and leaves the ring. */
    method ReadInternal(buff: array<char>, size: nat) returns (n: nat)
      requires Valid() && buff != data && size <= buff.Length
      modifies `r, `full, buff
      ensures Valid() && n == Min(size, |old(Content())|)
      ensures buff[..n] == old(Content())[..n] && Content() == old(Content())[n..]
    {
      n := 0;
      if size == 0 || (r == w && !full) {
        return;
      }
      full := false;
      if r < w {
        n := ReadStraight(buff, size);
      } else {
        n := ReadWrapped(buff, size);
      }
    }

    /** Reading when the content goes around the end or up to it. */
    method ReadWrapped(buff: array<char>, size: nat) returns (n: nat)
      requires Valid() && !full && w <= r && buff != data && 0 < size <= buff.Length
      modifies `r, buff
      ensures Valid() && n == Min(size, capacity - old(r) + w)
      ensures var whole := Around(data[..], old(r), w); buff[..n] == whole[..n] && Content() == whole[n..]
    {
      ghost var r0 := r;
      n := ReadAround(buff, size);
      ReadMoves(data[..], r0, w, n);
    }

    /** Reading when the content does not go around the end. */
    method ReadStraight(buff: array<char>, size: nat) returns (n: nat)
      requires Valid() && r < w && buff != data && 0 < size <= buff.Length
      modifies `r, buff
      ensures Valid() && n == Min(size, w - old(r))
      ensures buff[..n] == data[..][old(r)..w][..n] && Content() == data[..][old(r)..w][n..]
    {
      n := Min(size, w - r);
      ghost var d, r0 := data[..], r;
      TakeChunk(buff, 0, n);
      CutSlice(d, r0, w, n);
    }

    /** Reading when the content goes around the end: a chunk up to the end, then a chunk from the start. */
    method ReadAround(buff: array<char>, size: nat) returns (n: nat)
      requires capacity == data.Length && w <= r < capacity && buff != data && 0 < size <= buff.Length
      modifies `r, buff
      ensures n == Min(size, capacity - old(r) + w)
      ensures r == if old(r) + n < capacity then old(r) + n else old(r) + n - capacity
      ensures old(r) + n <= capacity ==> buff[..n] == data[..][old(r)..old(r) + n]
      ensures old(r) + n > capacity ==> buff[..n] == data[..][old(r)..] + data[..][..old(r) + n - capacity]
    {
      n := Min(capacity - r, size);
      ghost var d, r0 := data[..], r;
      TakeChunk(buff, 0, n);
      assert buff[..n] == d[r0..r0 + n];
      if n < size {
        var m := Min(w, size - n);
        if m > 0 {
          ChunksJoin(d, r0, m);
          TakeChunk(buff, n, m);
          n := n + m;
        }
      }
    }

    /** One chunk goes from the buffer to the write position. */
    method PutChunk(buff: array<char>, from: nat, n: nat, ghost bytes: seq<char>)
      requires buff != data && from + n <= buff.Length && capacity == data.Length && w < capacity && w + n <= capacity
      requires bytes == buff[from..from + n]
      modifies `w, data
      ensures w == if old(w) + n < capacity then old(w) + n else 0
      ensures data[..] == Patched(old(data[..]), old(w), bytes)
    {
      CopyBytes(data, w, buff, from, n);
      assert data[..] == data[..w] + data[w..w + n] + data[w + n..];
      StepTo(w, n, capacity);
      w := (w + n) % capacity;
    }

    /** `ring_buffer_write_internal`: as much as there is room for; it never sets `full`. */
    method WriteInternal(buff: array<char>, size: nat) returns (n: nat)
      requires Valid() && buff != data && size <= buff.Length
      modifies `w, data
      ensures Valid() && n == Min(size, old(FreeSize()))
      ensures n < old(FreeSize()) || n == 0 ==> Content() == old(Content()) + buff[..n]
      ensures n == old(FreeSize()) > 0 ==> Content() == []
    {
      n := 0;
      if size == 0 || (r == w && full) {
        return;
      }
      if w < r {
        n := WriteGap(buff, size);
      } else {
        n := WriteBehind(buff, size);
      }
    }

    /** Writing into the gap in front of the read position. */
    method WriteGap(buff: array<char>, size: nat) returns (n: nat)
      requires Valid() && w < r && buff != data && 0 < size <= buff.Length
      modifies `w, data
      ensures Valid() && n == Min(size, r - old(w))
      ensures Content() == if n < r - old(w) then old(Content()) + buff[..n] else []
    {
      n := Min(r - w, size);
      GapMoves(data[..], r, w, buff[..n]);
      PutChunk(buff, 0, n, buff[..n]);
    }

    /** Writing behind content that does not go around the end. */
    method WriteBehind(buff: array<char>, size: nat) returns (n: nat)
      requires Valid() && r <= w && !full && buff != data && 0 < size <= buff.Length
      modifies `w, data
      ensures Valid() && n == Min(size, capacity - old(w) + r)
      ensures Content() == if n < capacity - old(w) + r then old(Content()) + buff[..n] else []
    {
      ghost var d, w0 := data[..], w;
      n := WriteAround(buff, size);
      ghost var k, b := Min(n, capacity - w0), buff[..n];
      CutAt(b, k);
      AroundMoves(d, r, w0, b[..k], b[k..]);
    }

    /** The second chunk of a write, if there is one, goes to the front. */
    method PutFront(buff: array<char>, n: nat, m: nat, ghost bytes: seq<char>)
      requires capacity == data.Length && buff != data && n + m <= buff.Length && m <= capacity
      requires (m > 0 ==> w == 0 && m < capacity) && bytes == buff[n..n + m]
      modifies `w, data
      ensures w == if m > 0 then m else old(w)
      ensures data[..] == Patched(old(data[..]), 0, bytes)
    {
      if m > 0 {
        PutChunk(buff, n, m, bytes);
      } else {
        PatchNothing(data[..]);
        assert bytes == [];
      }
    }

    /** Both chunks. */
    method PutChunks(buff: array<char>, n: nat, m: nat, ghost bytes: seq<char>)
      requires capacity == data.Length && buff != data && w < capacity && w + n <= capacity && m < capacity
      requires m > 0 ==> w + n == capacity
      requires |bytes| == n + m <= buff.Length && bytes == buff[..n + m]
      modifies `w, data
      ensures w == if old(w) + n < capacity then old(w) + n else m
      ensures data[..] == Patched(Patched(old(data[..]), old(w), bytes[..n]), 0, bytes[n..])
    {
      PutChunk(buff, 0, n, bytes[..n]);
      PutFront(buff, n, m, bytes[n..]);
    }

    /** Writing when the free space goes around the end. */
    method WriteAround(buff: array<char>, size: nat) returns (n: nat)
      requires capacity == data.Length && r <= w < capacity && buff != data && 0 < size <= buff.Length
      modifies `w, data
      ensures n == Min(size, capacity - old(w) + r)
      ensures w == if old(w) + n < capacity then old(w) + n else old(w) + n - capacity
      ensures data[..] == PatchedAround(old(data[..]), old(w), buff[..n])
    {
      n := Min(capacity - w, size);
      var m := if n < size then Min(r, size - n) else 0;
      TwoLengths(size, capacity - w, r, n, m);
      PutChunks(buff, n, m, buff[..n + m]);
      n := n + m;
    }

    /** `ring_buffer_peek`: the bytes are read and the positions put back. */
    method Peek(buff: array<char>, size: nat) returns (n: nat)
      requires Valid() && buff != data && size <= buff.Length
      modifies `r, `full, buff
      ensures Valid() && n == Min(size, |Content()|) && buff[..n] == Content()[..n]
      ensures Content() == old(Content()) && r == old(r) && full == old(full)
    {
      var savedR, savedFull := r, full;
      n := ReadInternal(buff, size);
      r, full := savedR, savedFull;
    }

    /** `ring_buffer_skip`: bytes leave the ring unread. */
    method Skip(size: nat) returns (code: Code)
      requires Valid()
      modifies `r, `full
      ensures Valid() && (code == NoError <==> 0 < size <= |old(Content())|)
      ensures Content() == if code == NoError then old(Content())[size..] else old(Content())
    {
      if r == w && !full {
        return TimeOut;
      }
      if Size() >= size && size > 0 {
        ghost var whole := Content();
        full := false;
        if r + size < capacity {
          Modular.Small(r + size, capacity);
        } else {
          Modular.Quotient(r + size, capacity, 1, r + size - capacity);
        }
        r := (r + size) % capacity;
        return NoError;
      }
      code := WaitMoreData;
    }

    /**
     `ring_buffer_ensure_write_space`: the ring grows by just what is missing, and only if the largest capacity
     allows it; the content stays in any case.
     */
    method EnsureWriteSpace(size: nat) returns (code: Code)
      requires Valid()
      modifies this
      ensures Valid() && Content() == old(Content()) && (data == old(data) || fresh(data))
      ensures code == NoError <==> |Content()| + size <= maxCapacity
      ensures code == NoError ==> FreeSize() == if old(FreeSize()) >= size then old(FreeSize()) else size
      ensures code == NoError && old(FreeSize()) < size ==> !full
      ensures old(FreeSize()) >= size ==> data == old(data) && w == old(w) && r == old(r) && full == old(full)
    {
      var freeSize := FreeSize();
      if freeSize >= size {
        return NoError;
      }
      if capacity == maxCapacity {
        return ObjectExisted;
      }
      var oldSize := Size();
      var newCapacity := capacity + (size - freeSize);
      if newCapacity > maxCapacity {
        return InvalidParam;
      }
      var newData := new char[newCapacity];
      ghost var whole := Content();
      var readRet := ReadInternal(newData, oldSize);
      if readRet != oldSize {
        return InvalidParam;
      }
      r, w, data, capacity := 0, oldSize, newData, newCapacity;
      assert newData[..][0..oldSize] == newData[..oldSize];
      code := NoError;
    }

    /**
     `ring_buffer_write_len`: all or nothing. The bytes are appended exactly when at least one byte stays free
     in the ring as it was; a write that fills the ring, as every write that makes it grow does, empties it.
     */
    method WriteLen(buff: array<char>, size: nat) returns (code: Code)
      requires Valid() && buff != data && size <= buff.Length
      modifies this, data
      ensures Valid()
      ensures code == NoError <==> !old(full) && |old(Content())| + size <= maxCapacity
      ensures code != NoError ==> Content() == old(Content())
      ensures code == NoError ==>
        Content() == if size < old(FreeSize()) then old(Content()) + buff[..size] else []
    {
      if full {
        return TimeOut;
      }
      var space := EnsureWriteSpace(size);
      if space != NoError {
        return InvalidParam;
      }
      var n := WriteInternal(buff, size);
      code := if n == size then NoError else InvalidParam;
    }
  }
}
