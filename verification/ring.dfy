/** `StompRingBuffer<T>` as a value: the backing array's contents and the five counters, with every
    operation a pure function from the state before to the state after. Guards, copies and clamps are
    those of the code as written; where that differs from what its comments announce, separate lemmas
    state the difference and the conditions under which the announced behaviour holds. */
module RingModel {
  import opened Results

  datatype RingError =
    | Full      // Write: more elements than AvailableWrite
    | PastEnd   // Read: the amount exceeds the capacity minus AvailableRead

  /** `Array.Copy` of the whole of `src` into `dst` starting at index `at`. */
  function CopyInto<T>(dst: seq<T>, at: nat, src: seq<T>): (r: seq<T>)
    requires at + |src| <= |dst|
    ensures |r| == |dst|
    ensures forall j | 0 <= j < |r| :: r[j] == if at <= j < at + |src| then src[j - at] else dst[j]
  {
    dst[..at] + src + dst[at + |src|..]
  }

  function Min(a: int, b: int): int {
    if a <= b then a else b
  }

  /** The state of a ring buffer. `readPtr` is never reduced modulo the capacity, `writePtr` always is;
      `seekOffset` is the distance of the current read position from `readPtr`. The source's C# `%`
      truncates toward zero: Peek's index uses `CsRem`, and every other `%` below has a non-negative
      dividend, where the two agree. */
  datatype Ring<T> = Ring(buf: seq<T>, writePtr: int, readPtr: int, amtWritten: int, amtRead: int,
                          seekOffset: int)
  {
    /** What every operation keeps: a non-empty array, the read pointer equal to the read count and the
        write pointer equal to the write count modulo the capacity. */
    predicate Valid() {
      |buf| > 0 && 0 <= amtWritten && writePtr == amtWritten % |buf| && readPtr == amtRead
    }

    /** `AvailableWrite`: the capacity minus the elements written and not yet committed as read. */
    function AvailableWrite(): int {
      |buf| - amtWritten + amtRead
    }

    /** `AvailableRead`: the elements written and not yet passed by the read position. */
    function AvailableRead(): int {
      amtWritten - amtRead - seekOffset
    }

    /** The read position Peek and DistanceTo start from, before reduction modulo the capacity. */
    function Position(): int {
      readPtr + seekOffset
    }

    /** Every `Array.Copy` of a Write that passes its guard stays inside both arrays: a single copy has
        a non-negative length that `data` covers; of the two copies of a wrapping write, the first reads
        the `Split` elements at the front of `data` and the second reads `spill` elements from index
        `spill` of `data` into the front of the array. A write the guard refuses needs nothing. */
    predicate CanWrite(data: seq<T>, length: int)
      requires Valid()
    {
      length <= AvailableWrite() ==>
        0 <= length &&
        if writePtr + length <= |buf| then length <= |data|
        else
          var split := |buf| - writePtr;
          var spill := length - split;
          split <= |data| && spill <= |buf| && 2 * spill <= |data|
    }

    /** `Write(Data, Length)`. Fails when more than AvailableWrite elements are offered. Otherwise the
        data is copied in (see `Stored`), the write counters advance by `length`, and a rewind reaching
        past the free region is pulled back to its edge. */
    function Write(data: seq<T>, length: int): (r: Result<Ring<T>, RingError>)
      requires Valid() && CanWrite(data, length)
      ensures r.Failure? <==> length > AvailableWrite()
      ensures r.Success? ==>
                r.value.Valid() && |r.value.buf| == |buf| &&
                r.value.amtWritten == amtWritten + length && r.value.writePtr == (writePtr + length) % |buf| &&
                r.value.readPtr == readPtr && r.value.amtRead == amtRead
      ensures r.Success? ==>
                r.value.seekOffset >= -r.value.AvailableWrite() && r.value.seekOffset >= seekOffset &&
                (r.value.seekOffset == seekOffset || r.value.seekOffset == -r.value.AvailableWrite())
      ensures r.Success? ==> r.value.buf == Stored(data, length)
    {
      if AvailableWrite() < length then Failure(Full)
      else
        var b := Stored(data, length);
        ModAdd(amtWritten, length, |buf|);
        var s := this.(buf := b, amtWritten := amtWritten + length, writePtr := (writePtr + length) % |buf|);
        Success(if s.AvailableWrite() < -s.seekOffset then s.(seekOffset := -s.AvailableWrite()) else s)
    }

    /** The array after the copies of a Write that passed its guard. A write that fits before the end of
        the array copies `data[..length]` to the write pointer; one that does not copies the first
        `Split` elements to the end of the array and then the `spill` elements starting at index `spill`
        of `data` (not at `Split`) to the front, the second copy winning where the two overlap. */
    function Stored(data: seq<T>, length: int): (b: seq<T>)
      requires Valid() && CanWrite(data, length) && length <= AvailableWrite()
      ensures |b| == |buf|
      ensures writePtr + length <= |buf| ==>
                forall j | 0 <= j < |buf| :: b[j] == if writePtr <= j < writePtr + length then data[j - writePtr] else buf[j]
      ensures writePtr + length > |buf| ==>
                var spill := length - (|buf| - writePtr);
                forall j | 0 <= j < |buf| ::
                  b[j] == if j < spill then data[spill + j] else if writePtr <= j then data[j - writePtr] else buf[j]
    {
      if writePtr + length > |buf| then
        var split := |buf| - writePtr;
        CopyInto(CopyInto(buf, writePtr, data[..split]), 0, data[length - split..2 * (length - split)])
      else CopyInto(buf, writePtr, data[..length])
    }

    /** `Seek(Amount)`. With `s = seekOffset + amount`: a positive `s` is committed to the read counters,
        capped at the AvailableRead computed with offset `s` (so the commit is negative when `s` exceeds
        half the unread span), and the offset returns to zero. The offset is then clamped only if the
        read counter has overtaken the write counter; the new offset is returned. */
    function Seek(amount: int): (r: (Ring<T>, int))
      requires Valid()
      ensures r.0.Valid() && r.1 == r.0.seekOffset
      ensures r.0.buf == buf && r.0.writePtr == writePtr && r.0.amtWritten == amtWritten
      ensures seekOffset + amount > 0 ==>
                var s := seekOffset + amount;
                r.0.amtRead == amtRead + Min(s, amtWritten - amtRead - s) && r.0.amtRead < amtWritten
      ensures seekOffset + amount <= 0 ==> r.0.amtRead == amtRead
      ensures r.0.amtRead <= amtWritten ==> r.1 == (if seekOffset + amount > 0 then 0 else seekOffset + amount)
      ensures amtWritten < r.0.amtRead ==> r.1 == seekOffset + amount + r.0.amtRead - amtWritten
    {
      var s := this.(seekOffset := seekOffset + amount);
      var t :=
        if s.seekOffset > 0 then
          var commit := Min(s.seekOffset, s.AvailableRead());
          s.(readPtr := readPtr + commit, amtRead := amtRead + commit, seekOffset := 0)
        else s;
      var u := if t.AvailableRead() < -t.seekOffset then t.(seekOffset := -t.AvailableRead()) else t;
      (u, u.seekOffset)
    }

    /** Peek's index `(readPtr + seekOffset + capacity) % capacity`, computed with C#'s `%`, is not
        negative: the dividend is not negative, or it is a multiple of the capacity. */
    predicate ReadIndexed() {
      |buf| > 0 && CsRem(Position() + |buf|, |buf|) >= 0
    }

    /** The index Peek starts from: the read position reduced modulo the capacity. */
    function ReadFrom(): (i: int)
      requires ReadIndexed()
      ensures 0 <= i < |buf| && i == Position() % |buf|
    {
      ModShift(Position(), 1, |buf|);
      CsRem(readPtr + seekOffset + |buf|, |buf|)
    }

    /** Peek's start index is not negative, the result array has a non-negative length, and both copies
        stay inside the backing array. */
    predicate CanPeek(amount: int) {
      ReadIndexed() && 0 <= amount && ReadFrom() + amount <= 2 * |buf|
    }

    /** `Peek(Amount)`: the `amount` elements from the read position on, wrapping around the array end. */
    function Peek(amount: int): (r: seq<T>)
      requires CanPeek(amount)
      ensures |r| == amount
      ensures forall i | 0 <= i < amount :: r[i] == buf[(Position() + i) % |buf|]
    {
      var from := ReadFrom();
      if from + amount >= |buf| then
        var r := buf[from..] + buf[..amount - (|buf| - from)];
        assert forall i | 0 <= i < amount :: r[i] == buf[(Position() + i) % |buf|] by {
          forall i | 0 <= i < amount
            ensures r[i] == buf[(Position() + i) % |buf|]
          {
            PeekIndex(Position(), from, i, |buf|);
          }
        }
        r
      else
        var r := buf[from..from + amount];
        assert forall i | 0 <= i < amount :: r[i] == buf[(Position() + i) % |buf|] by {
          forall i | 0 <= i < amount
            ensures r[i] == buf[(Position() + i) % |buf|]
          {
            PeekIndex(Position(), from, i, |buf|);
          }
        }
        r
    }

    /** `Peek()`: the element at the read position. */
    function PeekOne(): (r: T)
      requires ReadIndexed()
      ensures r == buf[Position() % |buf|]
    {
      buf[ReadFrom()]
    }

    /** Read's guard holds or else Peek is defined for the amount. */
    predicate CanRead(amount: int) {
      |buf| > 0 && (amount <= |buf| - AvailableRead() ==> CanPeek(amount))
    }

    /** `Read(Amount)`. Refuses an amount larger than the capacity minus AvailableRead; otherwise returns
        what Peek returns, advances the read position by `amount`, and commits the offset to the read
        counters once it is positive. */
    function Read(amount: int): (r: Result<(Ring<T>, seq<T>), RingError>)
      requires Valid() && CanRead(amount)
      ensures r.Failure? <==> amount > |buf| - AvailableRead()
      ensures r.Success? ==>
                |r.value.1| == amount && forall i | 0 <= i < amount :: r.value.1[i] == buf[(Position() + i) % |buf|]
      ensures r.Success? ==>
                var s := r.value.0;
                s.Valid() && s.buf == buf && s.writePtr == writePtr && s.amtWritten == amtWritten &&
                s.Position() == Position() + amount && s.seekOffset <= 0 &&
                (s.seekOffset < 0 ==> s.amtRead == amtRead)
    {
      if amount > |buf| - AvailableRead() then Failure(PastEnd)
      else
        var data := Peek(amount);
        var s := this.(seekOffset := seekOffset + amount);
        if s.seekOffset > 0 then
          Success((s.(amtRead := amtRead + s.seekOffset, readPtr := readPtr + s.seekOffset, seekOffset := 0), data))
        else Success((s, data))
    }

    /** The number of indices DistanceTo visits: from the read position forward to the write pointer. */
    function ScanLength(): nat
      requires |buf| > 0
    {
      (writePtr - Position()) % |buf|
    }
  }

  /** `new StompRingBuffer<T>(BufferSize)`: an array of `size` copies of `blank` (standing for
      `default(T)`) and every counter at zero. */
  function New<T>(size: nat, blank: T): (r: Ring<T>)
    ensures |r.buf| == size && r.AvailableWrite() == size && r.AvailableRead() == 0
    ensures size > 0 ==> r.Valid()
    ensures forall j | 0 <= j < size :: r.buf[j] == blank
  {
    Ring(seq(size, _ => blank), 0, 0, 0, 0, 0)
  }

  /** The element `k` steps after index `i`, wrapping at the end of the array. */
  function At<T>(buf: seq<T>, i: int, k: int): T
    requires |buf| > 0
  {
    buf[(i + k) % |buf|]
  }

  /** The loop of `DistanceTo` after `d` steps from the read position `p`, at index `(p + d) % |buf|`:
      stop with -1 at the write pointer `w`, with `d` at an element equal to `v`, and otherwise step on,
      wrapping at the end of the array. */
  function Scan<T(==)>(buf: seq<T>, w: int, v: T, p: int, d: int): (r: int)
    requires 0 <= p < |buf| && 0 <= w < |buf| && 0 <= d <= (w - p) % |buf|
    ensures r == -1 <==> forall k | d <= k < (w - p) % |buf| :: At(buf, p, k) != v
    ensures r != -1 ==>
              d <= r < (w - p) % |buf| && At(buf, p, r) == v &&
              forall k | d <= k < r :: At(buf, p, k) != v
    decreases (w - p) % |buf| - d
  {
    var i := (p + d) % |buf|;
    ScanStop(p, w, d, |buf|);
    assert At(buf, p, d) == buf[i];
    if i == w then -1
    else if buf[i] == v then d
    else Scan(buf, w, v, p, d + 1)
  }

  /** `DistanceTo(Value)`: how many elements after the read position the first element equal to `v`
      lies, looking only up to the write pointer; -1 when there is none. The loop indexes the array with
      the unreduced read position, so that position must lie inside the array. */
  function DistanceTo<T(==)>(ring: Ring<T>, v: T): (r: int)
    requires ring.Valid() && 0 <= ring.Position() < |ring.buf|
    ensures r == -1 <==> forall k | 0 <= k < ring.ScanLength() :: At(ring.buf, ring.Position(), k) != v
    ensures r != -1 ==>
              0 <= r < ring.ScanLength() && At(ring.buf, ring.Position(), r) == v &&
              forall k | 0 <= k < r :: At(ring.buf, ring.Position(), k) != v
  {
    Scan(ring.buf, ring.writePtr, v, ring.Position(), 0)
  }

  // ---------------------------------------------------------------------------------------------
  // Modular arithmetic

  /** C#'s `%` on `int`: the remainder of division truncated toward zero, which takes the sign of the
      dividend. It agrees with Dafny's `%` on a non-negative dividend, and it is negative exactly when
      the dividend is negative and not a multiple of `n`. */
  function CsRem(a: int, n: int): (r: int)
    requires n > 0
    ensures -n < r < n
    ensures r >= 0 <==> a >= 0 || a % n == 0
    ensures r >= 0 ==> r == a % n
  {
    if a >= 0 then a % n
    else
      NegRem(a, n);
      -((-a) % n)
  }

  /** For a negative dividend, the truncated and Euclidean remainders are both zero or sum to `n`. */
  lemma NegRem(a: int, n: int)
    requires n > 0 && a < 0
    ensures (-a) % n == 0 <==> a % n == 0
    ensures (-a) % n != 0 ==> (-a) % n + a % n == n
  {
    var q := (-a) / n;
    var m := (-a) % n;
    assert -a == q * n + m;
    if m == 0 {
      ModUnique(a, n, -q, 0);
    } else {
      assert a == (-q - 1) * n + (n - m);
      ModUnique(a, n, -q - 1, n - m);
    }
  }

  /** A remainder in `[0, n)` that differs from `a` by a multiple of `n` is `a % n`. */
  lemma ModUnique(a: int, n: int, q: int, r: int)
    requires n > 0 && 0 <= r < n && a == q * n + r
    ensures a % n == r
  {
    var q0, r0 := a / n, a % n;
    assert a == q0 * n + r0;
    if q > q0 {
      assert (q - q0) * n == q * n - q0 * n;
      MulAtLeast(q - q0, n);
    } else if q < q0 {
      assert (q0 - q) * n == q0 * n - q * n;
      MulAtLeast(q0 - q, n);
    }
  }

  lemma MulAtLeast(k: int, n: int)
    requires k >= 1 && n > 0
    ensures k * n >= n
  {
  }

  /** Adding a multiple of the modulus does not change the remainder. */
  lemma ModShift(a: int, q: int, n: int)
    requires n > 0
    ensures (a + q * n) % n == a % n
  {
    var p := a / n;
    assert a == p * n + a % n;
    assert (p + q) * n == p * n + q * n;
    ModUnique(a + q * n, n, p + q, a % n);
  }

  lemma ModAdd(a: int, b: int, n: int)
    requires n > 0
    ensures (a % n + b) % n == (a + b) % n
  {
    var q := a / n;
    assert a == q * n + a % n;
    ModShift(a % n + b, q, n);
  }

  /** The `i`-th element after the read position `p`, which Peek reduces to `from`, lies at index
      `from + i` when that is inside the array and `from + i - n` otherwise. */
  lemma PeekIndex(p: int, from: int, i: int, n: int)
    requires n > 0 && 0 <= from < n && from == p % n && 0 <= i && from + i < 2 * n
    ensures from + i < n ==> (p + i) % n == from + i
    ensures n <= from + i ==> (p + i) % n == from + i - n
  {
    ModAdd(p, i, n);
    if from + i < n {
      ModUnique(from + i, n, 0, from + i);
    } else {
      ModUnique(from + i, n, 1, from + i - n);
    }
  }

  /** The scan from `p` reaches the write pointer `w` after exactly `(w - p) % n` steps, not before. */
  lemma ScanStop(p: int, w: int, d: int, n: int)
    requires n > 0 && 0 <= p < n && 0 <= w < n && 0 <= d <= (w - p) % n
    ensures (p + d) % n == w <==> d == (w - p) % n
  {
    if w >= p {
      ModUnique(w - p, n, 0, w - p);
      ModUnique(p + d, n, 0, p + d);
    } else {
      ModUnique(w - p, n, -1, w - p + n);
      if p + d < n {
        ModUnique(p + d, n, 0, p + d);
      } else {
        ModUnique(p + d, n, 1, p + d - n);
      }
    }
  }
}
