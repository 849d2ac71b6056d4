/** `StompRingBuffer<T>` as a class: the backing array and the five counters as mutable state, each method
    doing what the C# method does step by step, and its effect stated through the value model `Ring`.
    `Object.Equals` in DistanceTo is the element type's equality. */
module RingBuffers {
  import opened Results
  import opened RingModel

  /** `Array.Copy(src, 0, dst, at, |src|)`. */
  method CopyIn<T>(dst: array<T>, at: int, src: seq<T>)
    requires 0 <= at && at + |src| <= dst.Length
    modifies dst
    ensures dst[..] == CopyInto(old(dst[..]), at, src)
  {
    forall j | at <= j < at + |src| {
      dst[j] := src[j - at];
    }
  }

  /** Copying `a` to the front of an array of length |a| + |b| and then `b` right after it fills it with
      `a + b`. */
  lemma FillTwice<T>(dst: seq<T>, a: seq<T>, b: seq<T>)
    requires |dst| == |a| + |b|
    ensures CopyInto(CopyInto(dst, 0, a), |a|, b) == a + b
    ensures |b| == 0 ==> CopyInto(dst, 0, a) == a
  {
    var r := CopyInto(CopyInto(dst, 0, a), |a|, b);
    assert forall j | 0 <= j < |r| :: r[j] == (a + b)[j];
  }

  class RingBuffer<T(0,==)> {
    const buffer: array<T>
    var writePtr: int
    var readPtr: int
    var amtWritten: int
    var amtRead: int
    var seekOffset: int

    /** The state as a value. */
    function Model(): Ring<T>
      reads this, buffer
    {
      Ring(buffer[..], writePtr, readPtr, amtWritten, amtRead, seekOffset)
    }

    predicate Valid()
      reads this, buffer
    {
      Model().Valid()
    }

    /** `AvailableWrite`, the same number as the value model's. */
    function AvailableWrite(): (n: int)
      reads this, buffer
      ensures n == Model().AvailableWrite()
    {
      buffer.Length - amtWritten + amtRead
    }

    /** `AvailableRead`, the same number as the value model's. */
    function AvailableRead(): (n: int)
      reads this, buffer
      ensures n == Model().AvailableRead()
    {
      amtWritten - amtRead - seekOffset
    }

    /** `new StompRingBuffer<T>(BufferSize)`: the array holds `default(T)` everywhere. */
    constructor (bufferSize: nat)
      ensures buffer.Length == bufferSize && fresh(buffer)
      ensures Model().AvailableWrite() == bufferSize && Model().AvailableRead() == 0
      ensures writePtr == readPtr == amtWritten == amtRead == seekOffset == 0
      ensures bufferSize > 0 ==> Valid()
    {
      buffer := new T[bufferSize];
      writePtr, readPtr, amtWritten, amtRead, seekOffset := 0, 0, 0, 0, 0;
    }

    /** `Write(Data, Length)`; the exception for a full buffer is the `Full` failure and leaves the state
        as it was. */
    method Write(data: seq<T>, length: int) returns (r: Result<(), RingError>)
      requires Valid() && Model().CanWrite(data, length)
      modifies this, buffer
      ensures Valid()
      ensures r.Failure? <==> old(Model()).Write(data, length).Failure?
      ensures r.Failure? ==> r.error == Full && Model() == old(Model())
      ensures r.Success? ==> Model() == old(Model()).Write(data, length).value
    {
      if AvailableWrite() < length {
        return Failure(Full);
      }
      ModAdd(amtWritten, length, buffer.Length);
      Store(data, length);
      amtWritten := amtWritten + length;
      writePtr := (writePtr + length) % buffer.Length;
      if AvailableWrite() < -seekOffset {
        seekOffset := -AvailableWrite();
      }
      r := Success(());
    }

    /** The copies of `Write`: one `Array.Copy` when the data fits before the end of the array, two when
        it wraps. */
    method Store(data: seq<T>, length: int)
      requires Valid() && Model().CanWrite(data, length) && length <= AvailableWrite()
      modifies buffer
      ensures buffer[..] == old(Model()).Stored(data, length)
    {
      if writePtr + length > buffer.Length {
        var split := buffer.Length - writePtr;
        CopyIn(buffer, writePtr, data[..split]);
        CopyIn(buffer, 0, data[length - split..2 * (length - split)]);
      } else {
        CopyIn(buffer, writePtr, data[..length]);
      }
    }

    /** `Seek(Amount)`. */
    method Seek(amount: int) returns (offset: int)
      requires Valid()
      modifies this
      ensures Valid()
      ensures Model() == old(Model()).Seek(amount).0 && offset == old(Model()).Seek(amount).1
    {
      seekOffset := seekOffset + amount;
      if seekOffset > 0 {
        seekOffset := Min(seekOffset, AvailableRead());
        readPtr := readPtr + seekOffset;
        amtRead := amtRead + seekOffset;
        seekOffset := 0;
      }
      if AvailableRead() < -seekOffset {
        seekOffset := -AvailableRead();
      }
      offset := seekOffset;
    }

    /** `Read(Amount)`; the exception for an amount past the guard is the `PastEnd` failure. */
    method Read(amount: int) returns (r: Result<seq<T>, RingError>)
      requires Valid() && Model().CanRead(amount)
      modifies this
      ensures Valid()
      ensures r.Failure? <==> old(Model()).Read(amount).Failure?
      ensures r.Failure? ==> r.error == PastEnd && Model() == old(Model())
      ensures r.Success? ==> (Model(), r.value) == old(Model()).Read(amount).value
    {
      if amount > buffer.Length - AvailableRead() {
        return Failure(PastEnd);
      }
      var data := Peek(amount);
      seekOffset := seekOffset + amount;
      if seekOffset > 0 {
        amtRead := amtRead + seekOffset;
        readPtr := readPtr + seekOffset;
        seekOffset := 0;
      }
      r := Success(data);
    }

    /** `Peek(Amount)`. */
    method Peek(amount: int) returns (data: seq<T>)
      requires Model().CanPeek(amount)
      ensures data == Model().Peek(amount)
    {
      ghost var m := Model();
      var readFrom := CsRem(readPtr + seekOffset + buffer.Length, buffer.Length);
      assert readFrom == m.ReadFrom();
      var out := new T[amount];
      if readFrom + amount >= buffer.Length {
        var split := buffer.Length - readFrom;
        var front, back := buffer[readFrom..], buffer[..amount - split];
        assert front + back == m.Peek(amount);
        ghost var blank := out[..];
        CopyIn(out, 0, front);
        CopyIn(out, split, back);
        FillTwice(blank, front, back);
      } else {
        assert buffer[readFrom..readFrom + amount] == m.Peek(amount);
        ghost var blank := out[..];
        CopyIn(out, 0, buffer[readFrom..readFrom + amount]);
        FillTwice(blank, buffer[readFrom..readFrom + amount], []);
      }
      data := out[..];
    }

    /** `Peek()`. */
    method PeekOne() returns (v: T)
      requires buffer.Length > 0 && CsRem(readPtr + seekOffset + buffer.Length, buffer.Length) >= 0
      ensures v == Model().PeekOne()
    {
      v := buffer[CsRem(readPtr + seekOffset + buffer.Length, buffer.Length)];
    }

    /** `DistanceTo(Value)`: the loop from the unreduced read position to the write pointer. */
    method DistanceTo(v: T) returns (distance: int)
      requires Valid() && 0 <= readPtr + seekOffset < buffer.Length
      ensures distance == RingModel.DistanceTo(Model(), v)
    {
      ghost var p := readPtr + seekOffset;
      ghost var n := buffer.Length;
      distance := 0;
      var i := readPtr + seekOffset;
      ModUnique(p, n, 0, p);
      while i != writePtr
        invariant 0 <= distance <= (writePtr - p) % n
        invariant i == (p + distance) % n
        invariant Scan(buffer[..], writePtr, v, p, distance) == Scan(buffer[..], writePtr, v, p, 0)
        decreases (writePtr - p) % n - distance
      {
        ScanStop(p, writePtr, distance, n);
        if buffer[i] == v {
          return;
        }
        distance := distance + 1;
        ModAdd(p + distance - 1, 1, n);
        i := (i + 1) % buffer.Length;
      }
      ScanStop(p, writePtr, distance, n);
      distance := -1;
    }
  }
}
