/** Properties of the ring buffer model that relate several operations, the places where the code as
    written departs from what its comments announce, and the conditions under which the announced
    behaviour does hold. */
module RingFacts {
  import opened Results
  import opened RingModel

  /** An empty buffer of capacity 8 after five elements are written and three read: AvailableWrite is
      6, so a write of six elements is accepted and one of seven refused. */
  lemma WriteCapacityExample<T>(ring: Ring<T>, five: seq<T>, six: seq<T>, seven: seq<T>)
    requires ring.Valid() && |ring.buf| == 8 && ring.amtWritten == 0 && ring.amtRead == 0 && ring.seekOffset == 0
    requires |five| == 5 && |six| == 6 && |seven| == 7
    ensures ring.CanWrite(five, 5) && ring.Write(five, 5).Success?
    ensures var r1 := ring.Write(five, 5).value;
            r1.CanRead(3) && r1.Read(3).Success? &&
            var r2 := r1.Read(3).value.0;
            r2.AvailableWrite() == 6 &&
            r2.CanWrite(six, 6) && r2.Write(six, 6).Success? &&
            r2.CanWrite(seven, 7) && r2.Write(seven, 7).Failure?
  {
    var r1 := ring.Write(five, 5).value;
    assert r1.amtWritten == 5 && r1.writePtr == 5 && r1.seekOffset == 0;
    ModUnique(8, 8, 1, 0);
    assert r1.CanRead(3);
    var r2 := r1.Read(3).value.0;
    assert r2.amtRead == 3 && r2.seekOffset == 0;
  }

  /** A write longer than AvailableWrite is refused with `Full` before any copy, whatever the data. */
  lemma OversizedWriteRefused<T>(ring: Ring<T>, data: seq<T>, length: int)
    requires ring.Valid() && length > ring.AvailableWrite()
    ensures ring.CanWrite(data, length) && ring.Write(data, length) == Failure(Full)
  {
  }

  /** A wrapping write only reads `data` up to index `2 * spill`, so it may be shorter than `length`:
      with capacity 8, the write pointer at 4 and nothing unread, six elements are written from a
      five-element array. */
  lemma WrapWriteFromShortData<T>(ring: Ring<T>, five: seq<T>)
    requires ring.Valid() && |ring.buf| == 8 && ring.writePtr == 4 && ring.amtRead == ring.amtWritten
    requires ring.seekOffset == 0 && |five| == 5
    ensures ring.CanWrite(five, 6) && ring.Write(five, 6).Success?
    ensures ring.Write(five, 6).value.buf[0] == five[2] && ring.Write(five, 6).value.buf[7] == five[3]
  {
  }

  /** A write that does not wrap, or a wrapping one whose length is exactly twice the room left before
      the end of the array, lays `data[..length]` out contiguously from the write pointer, provided the
      read counter has not overtaken the write counter. */
  lemma WriteLaysOutData<T>(ring: Ring<T>, data: seq<T>, length: int)
    requires ring.Valid() && ring.CanWrite(data, length) && length <= ring.AvailableWrite()
    requires ring.amtRead <= ring.amtWritten
    requires ring.writePtr + length <= |ring.buf| || length == 2 * (|ring.buf| - ring.writePtr)
    ensures forall j | 0 <= j < length :: At(ring.Write(data, length).value.buf, ring.writePtr, j) == data[j]
  {
    var n := |ring.buf|;
    var b := ring.Write(data, length).value.buf;
    forall j | 0 <= j < length
      ensures At(b, ring.writePtr, j) == data[j]
    {
      if ring.writePtr + j < n {
        ModUnique(ring.writePtr + j, n, 0, ring.writePtr + j);
      } else {
        ModUnique(ring.writePtr + j, n, 1, ring.writePtr + j - n);
      }
    }
  }

  /** The wrapping write takes the elements for the front of the array from index `spill` of `data`
      instead of from index `Split`: with capacity 4 and the write pointer at 3, writing three of
      `[1, 2, 3, 4]` stores 3 at index 0, where the element after 1 should go, which is 2. */
  lemma WrapWriteTakesWrongElements(ring: Ring<int>)
    requires ring.Valid() && |ring.buf| == 4 && ring.writePtr == 3 && ring.amtRead == ring.amtWritten
    requires ring.seekOffset == 0
    ensures ring.CanWrite([1, 2, 3, 4], 3) && ring.Write([1, 2, 3, 4], 3).Success?
    ensures ring.Write([1, 2, 3, 4], 3).value.buf[0] == 3
    ensures At(ring.Write([1, 2, 3, 4], 3).value.buf, ring.writePtr, 1) == 3 != [1, 2, 3, 4][1]
  {
    ModUnique(3 + 1, 4, 1, 0);
  }

  /** Read's guard is inverted: an empty buffer hands out as many elements as its capacity. */
  lemma ReadFromEmptyAccepted<T>(ring: Ring<T>, amount: int)
    requires ring.Valid() && ring.amtRead == ring.amtWritten && ring.seekOffset == 0
    requires 0 <= amount <= |ring.buf|
    ensures ring.AvailableRead() == 0 && ring.CanRead(amount) && ring.Read(amount).Success?
  {
  }

  /** ... and a full buffer refuses to hand out a single element. */
  lemma ReadFromFullRefused<T>(ring: Ring<T>, amount: int)
    requires ring.Valid() && ring.AvailableRead() == |ring.buf| && amount > 0
    ensures ring.CanRead(amount) && ring.Read(amount).Failure?
  {
  }

  /** Reading `a` elements and then peeking at `b` sees what a peek at `a + b` elements saw after its
      first `a`. */
  lemma ReadThenPeek<T>(ring: Ring<T>, a: int, b: int)
    requires ring.Valid() && ring.CanRead(a) && a <= |ring.buf| - ring.AvailableRead()
    requires ring.CanPeek(a + b) && ring.Read(a).value.0.CanPeek(b)
    ensures ring.Read(a).value.0.Peek(b) == ring.Peek(a + b)[a..]
  {
    PeekShift(ring, ring.Read(a).value.0, a, b);
  }

  /** Peeking from `a` elements further on over the same array sees the tail of the longer peek. */
  lemma PeekShift<T>(r: Ring<T>, s: Ring<T>, a: int, b: int)
    requires 0 <= a && r.CanPeek(a + b) && s.CanPeek(b)
    requires s.buf == r.buf && s.Position() == r.Position() + a
    ensures s.Peek(b) == r.Peek(a + b)[a..]
  {
    PeekIsWindow(s, b);
    PeekIsWindow(r, a + b);
    WindowShift(r.buf, r.Position(), a, b);
  }

  /** The `k` elements of a circular array from position `p` on. */
  ghost function Window<T>(buf: seq<T>, p: int, k: nat): seq<T>
    requires |buf| > 0
  {
    seq(k, i requires 0 <= i < k => buf[(p + i) % |buf|])
  }

  lemma PeekIsWindow<T>(r: Ring<T>, k: int)
    requires r.CanPeek(k)
    ensures r.Peek(k) == Window(r.buf, r.Position(), k)
  {
    var w := r.Peek(k);
    assert forall i | 0 <= i < k :: w[i] == Window(r.buf, r.Position(), k)[i];
  }

  /** Two windows onto the same circular array, the second starting `a` places after the first, agree
      where they overlap. */
  lemma WindowShift<T>(buf: seq<T>, p: int, a: nat, b: nat)
    requires |buf| > 0
    ensures Window(buf, p + a, b) == Window(buf, p, a + b)[a..]
  {
    var short, long := Window(buf, p + a, b), Window(buf, p, a + b);
    forall i | 0 <= i < b
      ensures short[i] == long[a..][i]
    {
      assert long[a + i] == buf[(p + (a + i)) % |buf|];
      assert p + (a + i) == p + a + i;
    }
  }

  /** `Peek()` is the first element `Peek(1)` returns. */
  lemma PeekOneIsFirst<T>(ring: Ring<T>)
    requires ring.ReadIndexed()
    ensures ring.CanPeek(1) && ring.PeekOne() == ring.Peek(1)[0]
  {
  }

  /** Writing into an empty buffer and peeking at as many elements returns what was written, when the
      write does not wrap or wraps at exactly half its length. */
  lemma WritePeekRoundTrip<T>(ring: Ring<T>, data: seq<T>, length: int)
    requires ring.Valid() && ring.amtRead == ring.amtWritten && ring.seekOffset == 0
    requires ring.CanWrite(data, length) && length <= |ring.buf|
    requires ring.writePtr + length <= |ring.buf| || length == 2 * (|ring.buf| - ring.writePtr)
    ensures ring.Write(data, length).Success?
    ensures ring.Write(data, length).value.CanPeek(length)
    ensures ring.Write(data, length).value.Peek(length) == data[..length]
  {
    var s := ring.Write(data, length).value;
    assert s.seekOffset == 0 && s.Position() == ring.amtWritten;
    WriteLaysOutData(ring, data, length);
    PeekFrom(s, ring.writePtr, length);
    assert s.Peek(length) == data[..length];
  }

  /** Peeking from a read position that reduces to index `w` reads the elements from `w` on. */
  lemma PeekFrom<T>(s: Ring<T>, w: int, length: int)
    requires |s.buf| > 0 && 0 <= s.Position() && 0 <= w < |s.buf| && s.Position() % |s.buf| == w
    requires 0 <= length <= |s.buf|
    ensures s.CanPeek(length)
    ensures forall j | 0 <= j < length :: s.Peek(length)[j] == At(s.buf, w, j)
  {
    forall j | 0 <= j < length
      ensures s.Peek(length)[j] == At(s.buf, w, j)
    {
      ModAdd(s.Position(), j, |s.buf|);
    }
  }

  /** A forward seek past the unread elements commits a negative amount: with two elements unread,
      `Seek(3)` moves the read pointer back by one. */
  lemma SeekPastEndMovesBack<T>(ring: Ring<T>)
    requires ring.Valid() && ring.amtWritten - ring.amtRead == 2 && ring.seekOffset == 0
    ensures ring.Seek(3).0.readPtr == ring.readPtr - 1 && ring.Seek(3).0.amtRead == ring.amtRead - 1
    ensures ring.Seek(3).1 == 0
  {
  }

  /** A rewind is not clamped to the elements already read: after four elements are written to an empty
      buffer and read, `Seek(-1000)` returns -1000 and leaves 1000 elements "available". */
  lemma SeekRewindUnclamped<T>(ring: Ring<T>, four: seq<T>)
    requires ring.Valid() && |ring.buf| == 8 && ring.amtWritten == 0 && ring.amtRead == 0 && ring.seekOffset == 0
    requires |four| == 4
    ensures ring.CanWrite(four, 4) && ring.Write(four, 4).Success?
    ensures var r1 := ring.Write(four, 4).value;
            r1.CanRead(4) && r1.Read(4).Success? &&
            var r := r1.Read(4).value.0;
            r.Seek(-1000).1 == -1000 && r.Seek(-1000).0.AvailableRead() == 1000
  {
    var r1 := ring.Write(four, 4).value;
    assert r1.amtWritten == 4 && r1.writePtr == 4 && r1.seekOffset == 0;
    var r := r1.Read(4).value.0;
    assert r.amtRead == 4 && r.seekOffset == 0;
  }

  /** With the truncating `%` of C#, a read position whose sum with the capacity is a negative multiple
      of it gives index 0, so Peek succeeds there: after writing and reading four elements of a
      capacity-8 buffer, `Seek(-1004)` leaves the read position at -1000, and Peek reads from the front
      of the array. */
  lemma RewoundPeekReadsFront<T>(ring: Ring<T>, four: seq<T>)
    requires ring.Valid() && |ring.buf| == 8 && ring.amtWritten == 0 && ring.amtRead == 0 && ring.seekOffset == 0
    requires |four| == 4
    ensures ring.CanWrite(four, 4) && ring.Write(four, 4).Success?
    ensures var r1 := ring.Write(four, 4).value;
            r1.CanRead(4) && r1.Read(4).Success? &&
            var s := r1.Read(4).value.0.Seek(-1004).0;
            s.Valid() && s.Position() == -1000 && s.Position() + |s.buf| < 0 &&
            s.ReadIndexed() && s.ReadFrom() == 0 && s.PeekOne() == s.buf[0] &&
            s.CanPeek(1) && s.Peek(1) == [s.buf[0]]
  {
    var r1 := ring.Write(four, 4).value;
    assert r1.amtWritten == 4 && r1.writePtr == 4 && r1.seekOffset == 0;
    var r := r1.Read(4).value.0;
    assert r.amtRead == 4 && r.readPtr == 4 && r.seekOffset == 0;
    var s := r.Seek(-1004).0;
    assert s.seekOffset == -1004 && s.readPtr == 4;
    ModUnique(-992, 8, -124, 0);
  }

  /** The second clamp of Seek fires exactly when the read counter is ahead of the write counter. */
  lemma SeekClampsOnlyWhenOvertaken<T>(ring: Ring<T>, amount: int)
    requires ring.Valid() && ring.amtRead <= ring.amtWritten && ring.seekOffset + amount <= 0
    ensures ring.Seek(amount).1 == ring.seekOffset + amount
  {
  }

  /** When the unread span is shorter than the capacity and the read position lies inside the array,
      DistanceTo looks at exactly the unread elements. */
  lemma DistanceScansUnread<T>(ring: Ring<T>)
    requires ring.Valid() && 0 <= ring.Position() < |ring.buf| && 0 <= ring.AvailableRead() < |ring.buf|
    ensures ring.ScanLength() == ring.AvailableRead()
  {
    var n := |ring.buf|;
    var q := ring.amtWritten / n;
    assert ring.amtWritten == q * n + ring.writePtr;
    assert ring.writePtr - ring.Position() == ring.AvailableRead() + (-q) * n;
    ModShift(ring.AvailableRead(), -q, n);
    ModUnique(ring.AvailableRead(), n, 0, ring.AvailableRead());
  }

  /** A full buffer read from offset zero reports -1 for every value, even one it holds. */
  lemma DistanceOnFullBuffer<T>(ring: Ring<T>, v: T)
    requires ring.Valid() && ring.seekOffset == 0 && 0 <= ring.readPtr < |ring.buf|
    requires ring.AvailableRead() == |ring.buf|
    ensures DistanceTo(ring, v) == -1
  {
    var n := |ring.buf|;
    ModUnique(ring.amtWritten, n, 1, ring.readPtr);
    ModUnique(0, n, 0, 0);
  }

  /** The read pointer is never reduced modulo the capacity: once a capacity's worth of elements has
      been read, with no seek pending, the read position lies past the end of the array, where
      `DistanceTo` would index the array out of range. */
  lemma ReadPositionPastArray<T>(ring: Ring<T>)
    requires ring.Valid() && ring.amtRead >= |ring.buf| && ring.seekOffset >= 0
    ensures !(0 <= ring.Position() < |ring.buf|)
  {
  }

  /** A reachable such state: on capacity 4, writing two, reading two, writing two and reading two
      again leaves the read position at 4, one past the last index. */
  lemma ReadPositionLeavesArray<T>(ring: Ring<T>, two: seq<T>)
    requires ring.Valid() && |ring.buf| == 4 && ring.amtWritten == 0 && ring.amtRead == 0 && ring.seekOffset == 0
    requires |two| == 2
    ensures ring.CanWrite(two, 2) && ring.Write(two, 2).Success?
    ensures var r1 := ring.Write(two, 2).value;
            r1.CanRead(2) && r1.Read(2).Success? &&
            var r2 := r1.Read(2).value.0;
            r2.CanWrite(two, 2) && r2.Write(two, 2).Success? &&
            var r3 := r2.Write(two, 2).value;
            r3.CanRead(2) && r3.Read(2).Success? &&
            var r4 := r3.Read(2).value.0;
            r4.Valid() && r4.Position() == 4 && !(0 <= r4.Position() < |r4.buf|)
  {
    ModUnique(2, 4, 0, 2);
    var r1 := ring.Write(two, 2).value;
    assert r1.writePtr == 2 && r1.amtWritten == 2 && r1.seekOffset == 0;
    var r2 := r1.Read(2).value.0;
    assert r2.amtRead == 2 && r2.readPtr == 2 && r2.seekOffset == 0;
    ModUnique(4, 4, 1, 0);
    var r3 := r2.Write(two, 2).value;
    assert r3.writePtr == 0 && r3.amtWritten == 4 && r3.seekOffset == 0;
    var r4 := r3.Read(2).value.0;
    assert r4.amtRead == 4 && r4.seekOffset == 0;
    ReadPositionPastArray(r4);
  }

  /** The unread elements `[10, 20, 30, 40]` written to an empty buffer of capacity 8: 30 lies two
      elements ahead, 99 is not there. */
  lemma DistanceExample(ring: Ring<int>)
    requires ring.Valid() && |ring.buf| == 8 && ring.amtWritten == 0 && ring.amtRead == 0 && ring.seekOffset == 0
    ensures ring.CanWrite([10, 20, 30, 40], 4) && ring.Write([10, 20, 30, 40], 4).Success?
    ensures var r := ring.Write([10, 20, 30, 40], 4).value;
            r.Valid() && 0 <= r.Position() < |r.buf| && DistanceTo(r, 30) == 2 && DistanceTo(r, 99) == -1
  {
    ModUnique(0, 8, 0, 0);
    var b := ring.Stored([10, 20, 30, 40], 4);
    assert b[0] == 10 && b[1] == 20 && b[2] == 30 && b[3] == 40;
    var r := ring.Write([10, 20, 30, 40], 4).value;
    assert r.buf == b;
    ModUnique(4, 8, 0, 4);
    DistanceOver(r);
  }

  /** The scan of the example above, over any state with those four elements unread from the front. */
  lemma DistanceOver(r: Ring<int>)
    requires r.Valid() && |r.buf| == 8 && r.writePtr == 4 && r.Position() == 0
    requires r.buf[0] == 10 && r.buf[1] == 20 && r.buf[2] == 30 && r.buf[3] == 40
    ensures DistanceTo(r, 30) == 2 && DistanceTo(r, 99) == -1
  {
    ModUnique(4, 8, 0, 4);
    assert r.ScanLength() == 4;
    FrontCells(r.buf);
    var d := DistanceTo(r, 30);
    assert At(r.buf, 0, 2) == 30;
    assert d != -1;
    assert d == 2;
  }

  /** The first four cells of a capacity-8 array, seen from position 0. */
  lemma FrontCells(buf: seq<int>)
    requires |buf| == 8
    ensures At(buf, 0, 0) == buf[0] && At(buf, 0, 1) == buf[1] && At(buf, 0, 2) == buf[2] && At(buf, 0, 3) == buf[3]
  {
    ModUnique(0, 8, 0, 0);
    ModUnique(1, 8, 0, 1);
    ModUnique(2, 8, 0, 2);
    ModUnique(3, 8, 0, 3);
  }
}
