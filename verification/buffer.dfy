/**
 * The growable byte store of `Buffer.cpp`: a backing array whose length is the
 * capacity, a cursor (`position`) shared by reads and writes, and the
 * high-water mark of written bytes (`dataSize`). Bytes 0..3 are reserved for
 * the frame's length prefix, so writers and readers start at offset 4.
 *
 * The fields used by the network reassembly state machine (`sizeBytes`,
 * `hasAllData`) live here too, as they do in the source; their operations are
 * in `Framing`.
 */
module Buffers {
  import opened Base
  import opened Wire

  /** Bytes taken by the frame length prefix. */
  const SizeSize: nat := 4
  /** Capacity of the first allocation made by a write. */
  const InitialSize: nat := 8192
  /** `INT32_MAX`: a capacity at or above this is never grown further. */
  const Int32Max: nat := 0x7FFF_FFFF

  /**
   * `store` is the allocated array (`m_pBuffer`, of length `m_bufferSize`);
   * it is empty while nothing is allocated. `sizeBytes` holds the prefix bytes
   * received so far (`m_networkMessageSizeBuffer` up to
   * `m_networkMessageSizeBufferPosition`).
   */
  datatype Buffer = Buffer(
    store: Bytes,
    position: nat,
    dataSize: nat,
    sizeBytes: Bytes,
    hasAllData: bool)
  {
    function Capacity(): nat { |store| }

    /** Holds of every buffer the operations below can produce. */
    predicate Valid() {
      && dataSize <= |store|
      && (|store| == 0 || SizeSize <= |store|)
      && |sizeBytes| <= SizeSize
    }
  }

  /** A value read from a buffer, together with the buffer after the read. */
  datatype Decoded<+T> = Decoded(value: T, rest: Buffer)

  /** `Buffer::create()`: nothing allocated, cursor after the reserved prefix, no data. */
  function Create(): (b: Buffer)
    ensures b.Valid()
    ensures b.store == [] && b.position == SizeSize && b.dataSize == 0
  {
    Buffer([], SizeSize, 0, [], false)
  }

  /** `setPosition`: moves the cursor anywhere; data and capacity are untouched. */
  function SetPosition(b: Buffer, p: nat): (r: Buffer)
    ensures r.position == p
    ensures r.store == b.store && r.dataSize == b.dataSize
  {
    b.(position := p)
  }

  /** `resetPosition`: back to the first byte after the length prefix. */
  function ResetPosition(b: Buffer): (r: Buffer)
    ensures r.position == SizeSize
    ensures r.store == b.store && r.dataSize == b.dataSize
  {
    b.(position := SizeSize)
  }

  // ---------------------------------------------------------------------------
  // Capacity

  /** The capacity `expandBuffer` moves to: the initial size when nothing is allocated, else double. */
  function Grown(c: nat): nat
  {
    if c == 0 then InitialSize else 2 * c
  }

  function GrowthMeasure(c: nat): nat
  {
    if c >= Int32Max then 0 else Int32Max + 1 - c
  }

  /**
   * The capacity that repeated expansion from `c` settles on when `need`
   * bytes must fit, or None when the ceiling is hit first. It is the least
   * capacity of the growth chain that fits, and it always exists below the
   * ceiling.
   */
  function FitCapacity(c: nat, need: nat): (r: Option<nat>)
    decreases GrowthMeasure(c)
    ensures r.Some? ==> need <= r.value && c <= r.value
    ensures need <= Int32Max ==> r.Some?
    ensures r.None? ==> need > c && need > Int32Max
  {
    if need <= c then Some(c)
    else if c >= Int32Max then None
    else FitCapacity(Grown(c), need)
  }

  /** `b` with its store extended by zeros to capacity `cap`: a reallocation that copies every byte. */
  function Grow(b: Buffer, cap: nat): (r: Buffer)
    requires b.Capacity() <= cap
    ensures r.Capacity() == cap
  {
    b.(store := b.store + Zeros(cap - |b.store|))
  }

  lemma GrowTwice(b: Buffer, c1: nat, c2: nat)
    requires b.Capacity() <= c1 <= c2
    ensures Grow(Grow(b, c1), c2) == Grow(b, c2)
  {
    ZerosConcat(c1 - b.Capacity(), c2 - c1);
  }

  /**
   * The capacity settled on is not larger than needed: when any growth
   * happened, it is the first allocation or the previous capacity was too small.
   */
  lemma {:induction false} FitCapacityLeast(c: nat, need: nat)
    decreases GrowthMeasure(c)
    ensures FitCapacity(c, need).Some? && FitCapacity(c, need).value != c ==>
              FitCapacity(c, need).value == InitialSize || FitCapacity(c, need).value < 2 * need
  {
    if need <= c {
    } else if c >= Int32Max {
    } else {
      FitCapacityLeast(Grown(c), need);
    }
  }

  /** `expandBuffer`: fails at the ceiling, otherwise reallocates at the grown capacity. */
  function Expand(b: Buffer): (r: Result<Buffer>)
    ensures r.Err? <==> b.Capacity() >= Int32Max
    ensures r.Err? ==> r.error == MaxCapacity
    ensures r.Ok? ==> b.Capacity() < Grown(b.Capacity()) && r.value == Grow(b, Grown(b.Capacity()))
  {
    if |b.store| >= Int32Max then Err(MaxCapacity)
    else Ok(Grow(b, Grown(|b.store|)))
  }

  /** A reallocation keeps every existing byte, in place, and touches no other field. */
  lemma GrowKeeps(b: Buffer, cap: nat)
    requires b.Capacity() <= cap
    ensures Grow(b, cap).store[..b.Capacity()] == b.store
    ensures Grow(b, cap) == b.(store := Grow(b, cap).store)
  {
  }

  /**
   * `checkBufferSize_Write(n)`: expands until `n` bytes fit at the cursor.
   * On success the bytes fit and the result is a single reallocation of `b`;
   * it fails only when the cursor plus `n` lies beyond `INT32_MAX`.
   */
  function Reserve(b: Buffer, n: nat): (r: Result<Buffer>)
    decreases GrowthMeasure(b.Capacity())
    ensures r.Ok? ==> b.Capacity() <= r.value.Capacity() && b.position + n <= r.value.Capacity()
    ensures r.Ok? ==> r.value == Grow(b, r.value.Capacity())
    ensures r.Err? ==> r.error == MaxCapacity && b.position + n > Int32Max
  {
    if b.position + n <= |b.store| then
      assert Grow(b, |b.store|) == b;
      Ok(b)
    else
      var b1 :- Expand(b);
      var r := Reserve(b1, n);
      if r.Ok? then
        GrowTwice(b, b1.Capacity(), r.value.Capacity());
        r
      else r
  }

  /** The capacity `Reserve` lands on is the one the growth chain settles on, and it fails exactly when the chain does. */
  lemma {:induction false} ReserveIsFit(b: Buffer, n: nat)
    decreases GrowthMeasure(b.Capacity())
    ensures Reserve(b, n).Ok? <==> FitCapacity(b.Capacity(), b.position + n).Some?
    ensures Reserve(b, n).Ok? ==> Reserve(b, n).value.Capacity() == FitCapacity(b.Capacity(), b.position + n).value
  {
    if b.position + n <= b.Capacity() {
    } else if b.Capacity() >= Int32Max {
    } else {
      var b1 := Grow(b, Grown(b.Capacity()));
      ReserveIsFit(b1, n);
    }
  }

  // ---------------------------------------------------------------------------
  // Writing and reading raw bytes

  /** The `memcpy` of `x` at the cursor and the cursor and data-size update that follow it. */
  function Put(b: Buffer, x: Bytes): (r: Buffer)
    requires b.position + |x| <= b.Capacity()
    ensures r.Capacity() == b.Capacity()
  {
    b.(store := Splice(b.store, b.position, x),
       position := b.position + |x|,
       dataSize := Max(b.dataSize, b.position + |x|))
  }

  lemma PutTwice(b: Buffer, x: Bytes, y: Bytes)
    requires b.position + |x| + |y| <= b.Capacity()
    ensures Put(Put(b, x), y) == Put(b, x + y)
  {
    SpliceTwice(b.store, b.position, x, y);
  }

  lemma GrowPut(b: Buffer, x: Bytes, cap: nat)
    requires b.position + |x| <= b.Capacity() <= cap
    ensures Grow(Put(b, x), cap) == Put(Grow(b, cap), x)
  {
    SpliceAppend(b.store, b.position, x, Zeros(cap - b.Capacity()));
  }

  /**
   * `write_bytes`: reserves room, copies `x` at the cursor, advances the cursor
   * by `|x|` and raises `dataSize` to the new cursor if it was below it.
   */
  function WriteBytes(b: Buffer, x: Bytes): (r: Result<Buffer>)
    requires b.Valid()
    ensures r.Ok? ==> r.value.Valid()
    ensures r.Ok? ==> r.value.position == b.position + |x|
    ensures r.Ok? ==> r.value.dataSize == Max(b.dataSize, b.position + |x|)
    ensures r.Ok? ==> r.value.store[b.position..b.position + |x|] == x
    ensures r.Ok? ==> b.Capacity() <= r.value.Capacity()
    ensures r.Ok? ==> r.value.sizeBytes == b.sizeBytes && r.value.hasAllData == b.hasAllData
    ensures b.position + |x| <= Int32Max ==> r.Ok?
    ensures r.Err? ==> r.error == MaxCapacity
  {
    var b1 :- Reserve(b, |x|);
    SpliceRegion(b1.store, b.position, x);
    Ok(Put(b1, x))
  }

  /** A write is one reallocation at the capacity the growth chain settles on, then the copy. */
  lemma WriteBytesShape(b: Buffer, x: Bytes)
    requires b.Valid()
    ensures FitCapacity(b.Capacity(), b.position + |x|).None? ==> WriteBytes(b, x) == Err(MaxCapacity)
    ensures FitCapacity(b.Capacity(), b.position + |x|).Some? ==>
              WriteBytes(b, x) == Ok(Put(Grow(b, FitCapacity(b.Capacity(), b.position + |x|).value), x))
  {
    ReserveIsFit(b, |x|);
  }

  /** A write changes no byte outside the region it copies into. */
  lemma WriteBytesKeeps(b: Buffer, x: Bytes, i: nat)
    requires b.Valid() && WriteBytes(b, x).Ok?
    requires i < b.Capacity() && !(b.position <= i < b.position + |x|)
    ensures WriteBytes(b, x).value.store[i] == b.store[i]
  {
    WriteBytesShape(b, x);
    var g := Grow(b, FitCapacity(b.Capacity(), b.position + |x|).value);
    SpliceAt(g.store, b.position, x, i);
  }

  /** Reserving `n` and then `m >= n` bytes is reserving `m` bytes at once. */
  lemma {:induction false} ReserveTwice(b: Buffer, n: nat, m: nat)
    requires n <= m
    decreases GrowthMeasure(b.Capacity())
    ensures Reserve(b, m) == (match Reserve(b, n)
                              case Ok(g) => Reserve(g, m)
                              case Err(e) => Err(e))
  {
    if b.position + n <= b.Capacity() {
    } else if b.Capacity() >= Int32Max {
    } else {
      ReserveTwice(Grow(b, Grown(b.Capacity())), n, m);
    }
  }

  /** Reserving after a copy is reserving for the copy and what follows, then copying. */
  lemma {:induction false} ReserveAfterPut(g: Buffer, x: Bytes, m: nat, n: nat)
    requires g.position + |x| <= g.Capacity() && n == |x| + m
    decreases GrowthMeasure(g.Capacity())
    ensures Reserve(Put(g, x), m) == (match Reserve(g, n)
                                      case Ok(h) => Ok(Put(h, x))
                                      case Err(e) => Err(e))
  {
    if g.position + n <= g.Capacity() {
    } else if g.Capacity() >= Int32Max {
    } else {
      var c := Grown(g.Capacity());
      GrowPut(g, x, c);
      ReserveAfterPut(Grow(g, c), x, m, n);
    }
  }

  /** Both writes succeed: writing `x` then `y` lands on the same buffer as writing `x + y`. */
  lemma WriteBytesConcatOk(b: Buffer, x: Bytes, y: Bytes)
    requires b.Valid() && Reserve(b, |x + y|).Ok?
    ensures WriteBytes(b, x).Ok?
    ensures WriteBytes(b, x + y) == WriteBytes(WriteBytes(b, x).value, y)
  {
    ReserveTwice(b, |x|, |x + y|);
    var g := Reserve(b, |x|).value;
    var h := Reserve(b, |x + y|).value;
    ReserveAfterPut(g, x, |y|, |x + y|);
    PutTwice(h, x, y);
  }

  /** One write of `x + y` is the write of `x` followed by the write of `y`, failures included. */
  lemma WriteBytesConcat(b: Buffer, x: Bytes, y: Bytes)
    requires b.Valid()
    ensures WriteBytes(b, x + y) ==
            (match WriteBytes(b, x)
             case Ok(b1) => WriteBytes(b1, y)
             case Err(e) => Err(e))
  {
    if Reserve(b, |x + y|).Ok? {
      WriteBytesConcatOk(b, x, y);
    } else {
      ReserveTwice(b, |x|, |x + y|);
      if Reserve(b, |x|).Ok? {
        ReserveAfterPut(Reserve(b, |x|).value, x, |y|, |x + y|);
      }
    }
  }

  /**
   * `read_bytes`: fails when fewer than `n` written bytes lie at the cursor;
   * otherwise yields them and advances the cursor by `n`, leaving the data
   * and capacity as they were.
   */
  function ReadBytes(b: Buffer, n: nat): (r: Result<Decoded<Bytes>>)
    requires b.Valid()
    ensures r.Err? <==> b.position + n > b.dataSize
    ensures r.Err? ==> r.error == ReadPastEnd
    ensures r.Ok? ==> |r.value.value| == n && r.value.value == b.store[b.position..b.position + n]
    ensures r.Ok? ==> r.value.rest == b.(position := b.position + n)
  {
    if b.position + n > b.dataSize then Err(ReadPastEnd)
    else Ok(Decoded(b.store[b.position..b.position + n], b.(position := b.position + n)))
  }

  /** How many written bytes remain after the cursor; every successful read lowers it. */
  function Remaining(b: Buffer): nat
  {
    if b.position <= b.dataSize then b.dataSize - b.position else 0
  }

  /** The bytes `x` sit at the cursor, inside the written data. */
  ghost predicate HoldsAt(b: Buffer, x: Bytes)
  {
    b.Valid() && b.position + |x| <= b.dataSize && b.store[b.position..b.position + |x|] == x
  }

  /** Bytes at the cursor followed by more bytes: each part can be read in turn. */
  lemma HoldsAtSplit(b: Buffer, x: Bytes, y: Bytes)
    requires HoldsAt(b, x + y)
    ensures HoldsAt(b, x)
    ensures HoldsAt(b.(position := b.position + |x|), y)
  {
    var p := b.position;
    assert b.store[p..p + |x|] == (x + y)[..|x|];
    assert b.store[p + |x|..p + |x| + |y|] == (x + y)[|x|..];
  }

  // ---------------------------------------------------------------------------
  // Typed values

  function WriteInt8(b: Buffer, v: Int8): (r: Result<Buffer>)
    requires b.Valid()
    ensures r.Ok? ==> r.value.Valid() && r.value.position == b.position + 1
    ensures b.position + 1 <= Int32Max ==> r.Ok?
    ensures r.Err? ==> r.error == MaxCapacity
    ensures r.Ok? ==> ReadInt8(r.value.(position := b.position)) == Ok(Decoded(v, r.value))
  {
    Int8Readable(b, v);
    WriteBytes(b, EncodeInt8(v))
  }

  function WriteInt32(b: Buffer, v: Int32): (r: Result<Buffer>)
    requires b.Valid()
    ensures r.Ok? ==> r.value.Valid() && r.value.position == b.position + 4
    ensures b.position + 4 <= Int32Max ==> r.Ok?
    ensures r.Err? ==> r.error == MaxCapacity
    ensures r.Ok? ==> ReadInt32(r.value.(position := b.position)) == Ok(Decoded(v, r.value))
  {
    Int32Readable(b, v);
    WriteBytes(b, EncodeInt32(v))
  }

  function WriteUInt32(b: Buffer, v: UInt32): (r: Result<Buffer>)
    requires b.Valid()
    ensures r.Ok? ==> r.value.Valid() && r.value.position == b.position + 4
    ensures b.position + 4 <= Int32Max ==> r.Ok?
    ensures r.Err? ==> r.error == MaxCapacity
    ensures r.Ok? ==> ReadUInt32(r.value.(position := b.position)) == Ok(Decoded(v, r.value))
  {
    UInt32Readable(b, v);
    WriteBytes(b, EncodeUInt32(v))
  }

  function WriteDouble(b: Buffer, v: Double): (r: Result<Buffer>)
    requires b.Valid()
    ensures r.Ok? ==> r.value.Valid() && r.value.position == b.position + 8
    ensures b.position + 8 <= Int32Max ==> r.Ok?
    ensures r.Err? ==> r.error == MaxCapacity
    ensures r.Ok? ==> ReadDouble(r.value.(position := b.position)) == Ok(Decoded(v, r.value))
  {
    DoubleReadable(b, v);
    WriteBytes(b, EncodeDouble(v))
  }

  /**
   * `write_string`, corrected: the length as `int32`, then the raw bytes. A
   * string of 2^31 bytes or more, whose length `int32` cannot hold, is
   * refused with the capacity error (the code as written is `RawWriteString`;
   * see README, Findings).
   */
  function WriteString(b: Buffer, s: Bytes): (r: Result<Buffer>)
    requires b.Valid()
    ensures r.Ok? ==> r.value.Valid()
    ensures |s| < Two31 ==> r == WriteBytes(b, EncodeString(s))
    ensures |s| >= Two31 ==> r == Err(MaxCapacity)
  {
    if |s| >= Two31 then Err(MaxCapacity)
    else
      WriteBytesConcat(b, EncodeInt32(|s|), s);
      var b1 :- WriteInt32(b, |s|);
      WriteBytes(b1, s)
  }

  function ReadInt8(b: Buffer): (r: Result<Decoded<Int8>>)
    requires b.Valid()
    ensures r.Err? <==> b.position + 1 > b.dataSize
    ensures r.Ok? ==> r.value.rest == b.(position := b.position + 1)
  {
    var d :- ReadBytes(b, 1);
    Ok(Decoded(DecodeInt8(d.value), d.rest))
  }

  function ReadInt32(b: Buffer): (r: Result<Decoded<Int32>>)
    requires b.Valid()
    ensures r.Err? <==> b.position + 4 > b.dataSize
    ensures r.Ok? ==> r.value.rest == b.(position := b.position + 4)
  {
    var d :- ReadBytes(b, 4);
    Ok(Decoded(DecodeInt32(d.value), d.rest))
  }

  function ReadUInt32(b: Buffer): (r: Result<Decoded<UInt32>>)
    requires b.Valid()
    ensures r.Err? <==> b.position + 4 > b.dataSize
    ensures r.Ok? ==> r.value.rest == b.(position := b.position + 4)
  {
    var d :- ReadBytes(b, 4);
    Ok(Decoded(DecodeUInt32(d.value), d.rest))
  }

  function ReadDouble(b: Buffer): (r: Result<Decoded<Double>>)
    requires b.Valid()
    ensures r.Err? <==> b.position + 8 > b.dataSize
    ensures r.Ok? ==> r.value.rest == b.(position := b.position + 8)
  {
    var d :- ReadBytes(b, 8);
    Ok(Decoded(DecodeDouble(d.value), d.rest))
  }

  /**
   * `read_string`: the `int32` length, then that many bytes. A negative
   * length is rejected here; see README, Findings, for what the source does.
   */
  function ReadString(b: Buffer): (r: Result<Decoded<Bytes>>)
    requires b.Valid()
    ensures r.Ok? ==> b.position + 4 + |r.value.value| <= b.dataSize
    ensures r.Ok? ==> r.value.rest == b.(position := b.position + 4 + |r.value.value|)
    ensures r.Ok? ==> r.value.rest.Valid()
    ensures b.position + 4 > b.dataSize ==> r == Err(ReadPastEnd)
    ensures b.position + 4 <= b.dataSize ==>
      var len := DecodeInt32(b.store[b.position..b.position + 4]);
      && (len < 0 ==> r == Err(NegativeLength(len)))
      && (r.Ok? <==> 0 <= len && b.position + 4 + len <= b.dataSize)
      && (r.Ok? ==> r.value.value == b.store[b.position + 4..b.position + 4 + len])
  {
    var len :- ReadInt32(b);
    if len.value < 0 then Err(NegativeLength(len.value))
    else ReadBytes(len.rest, len.value)
  }

  // ---------------------------------------------------------------------------
  // The read bound as written

  const Two64: int := 0x1_0000_0000_0000_0000

  /**
   * `checkBufferSize_Read` as compiled: the `int32` length is converted to
   * `size_t` (modulo 2^64) and added to the cursor in `size_t` arithmetic.
   * True means the check lets the read through.
   */
  function ReadCheckPasses(position: nat, dataSize: nat, length: Int32): (pass: bool)
    requires position < Two64
    ensures 0 <= length && position + length < Two64 ==> (pass <==> position + length <= dataSize)
  {
    var required := length % Two64;
    (position + required) % Two64 <= dataSize
  }

  /**
   * A negative length read from the wire passes the check whenever the cursor
   * is at least its magnitude: the wrapped sum lands behind the cursor.
   */
  lemma NegativeLengthPassesCheck(position: nat, dataSize: nat, length: Int32)
    requires length < 0 && 0 <= position + length && position <= dataSize && position < Two64
    ensures ReadCheckPasses(position, dataSize, length)
  {
    assert length % Two64 == Two64 + length;
    var sum := position + (Two64 + length);
    assert Two64 <= sum < 2 * Two64;
    assert sum % Two64 == sum - Two64;
  }

  /**
   * The concrete case: a string field whose length prefix is -4, read from a
   * buffer holding 8 bytes with the cursor at its end, passes the check; the
   * corrected `ReadString` rejects it.
   */
  lemma NegativeLengthExample()
    ensures ReadCheckPasses(8, 8, -4)
    ensures var b := Buffer([0, 0, 0, 0, 0xFC, 0xFF, 0xFF, 0xFF], 4, 8, [], false);
            ReadString(b) == Err(NegativeLength(-4))
  {
    NegativeLengthPassesCheck(8, 8, -4);
    var b := Buffer([0, 0, 0, 0, 0xFC, 0xFF, 0xFF, 0xFF], 4, 8, [], false);
    assert b.store[4..8] == [0xFC, 0xFF, 0xFF, 0xFF];
    assert FromLE32([0xFC, 0xFF, 0xFF, 0xFF]) == 0xFFFF_FFFC;
  }

  /** What `write_string` as written can end in: a buffer, an exception, or a copy past the allocation. */
  datatype RawStringWrite = Wrote(buffer: Buffer) | Threw(error: Error) | Overran

  /**
   * `write_string` as written: the length is cast to `int32` (so only its
   * value modulo 2^32 survives), written, and handed to `write_bytes` as the
   * number of bytes to copy. `checkBufferSize_Write` takes that count as
   * `size_t`: a negative count becomes 2^64 plus it, and the sum with the
   * cursor wraps. When the wrapped sum is within the capacity the check
   * passes and the `memcpy` runs past the allocation; otherwise no doubling
   * ever makes room and the buffer ends at its maximum capacity.
   */
  function RawWriteString(b: Buffer, s: Bytes): (r: RawStringWrite)
    requires b.Valid()
    ensures r.Wrote? ==> r.buffer.Valid()
    ensures r.Overran? ==> ToInt32(|s|) < 0
  {
    var k := ToInt32(|s|);
    match WriteInt32(b, k)
    case Err(e) => Threw(e)
    case Ok(b1) =>
      if k >= 0 then
        match WriteBytes(b1, s[..k])
        case Err(e) => Threw(e)
        case Ok(b2) => Wrote(b2)
      else if (b1.position + k % Two64) % Two64 <= b1.Capacity() then Overran
      else Threw(MaxCapacity)
  }

  /** Below 2^31 bytes the code as written and the corrected `WriteString` write the same. */
  lemma RawWriteStringAgrees(b: Buffer, s: Bytes)
    requires b.Valid() && |s| < Two31
    ensures RawWriteString(b, s).Wrote? <==> WriteString(b, s).Ok?
    ensures RawWriteString(b, s).Wrote? ==> RawWriteString(b, s).buffer == WriteString(b, s).value
    ensures RawWriteString(b, s).Threw? ==> WriteString(b, s) == Err(RawWriteString(b, s).error)
  {
    assert ToInt32(|s|) == |s| && s[..|s|] == s;
  }

  /**
   * A string of 2^32 + 5 bytes is written as a string of 5: the length
   * prefix says 5 and only the first 5 bytes follow, so reading back finds
   * a different string. The corrected `WriteString` refuses it.
   */
  lemma TruncatedStringExample(b: Buffer, s: Bytes)
    requires b.Valid() && |s| == Two32 + 5 && b.position + 9 <= Int32Max
    ensures RawWriteString(b, s).Wrote?
    ensures var w := RawWriteString(b, s).buffer;
            ReadString(w.(position := b.position)) == Ok(Decoded(s[..5], w)) && s[..5] != s
    ensures WriteString(b, s) == Err(MaxCapacity)
  {
    assert ToInt32(|s|) == 5;
    var x := s[..5];
    WriteBytesConcat(b, EncodeInt32(5), x);
    assert EncodeInt32(5) + x == EncodeString(x);
    var w := WriteBytes(b, EncodeString(x)).value;
    assert RawWriteString(b, s) == Wrote(w);
    WrittenHoldsAt(b, EncodeString(x));
    ReadStringAt(w.(position := b.position), x, w);
  }

  /**
   * A string of 2^32 - 1 bytes casts to length -1: the capacity check sees
   * the cursor minus one and passes, and the copy runs past the allocation.
   */
  lemma WrappedLengthOverruns(b: Buffer, s: Bytes)
    requires b.Valid() && |s| == Two32 - 1 && b.position + 4 <= Int32Max
    ensures RawWriteString(b, s) == Overran
    ensures WriteString(b, s) == Err(MaxCapacity)
  {
    assert ToInt32(|s|) == -1;
    var b1 := WriteInt32(b, -1).value;
    assert b1.position == b.position + 4 && b1.position <= b1.Capacity();
    assert (b1.position + (-1) % Two64) % Two64 == b1.position - 1;
  }

  // ---------------------------------------------------------------------------
  // Reading back what was written

  lemma ReadInt8At(b: Buffer, v: Int8)
    requires HoldsAt(b, EncodeInt8(v))
    ensures ReadInt8(b) == Ok(Decoded(v, b.(position := b.position + 1)))
  {
    Int8RoundTrip(v);
  }

  lemma ReadInt32At(b: Buffer, v: Int32)
    requires HoldsAt(b, EncodeInt32(v))
    ensures ReadInt32(b) == Ok(Decoded(v, b.(position := b.position + 4)))
  {
    Int32RoundTrip(v);
  }

  lemma ReadUInt32At(b: Buffer, v: UInt32)
    requires HoldsAt(b, EncodeUInt32(v))
    ensures ReadUInt32(b) == Ok(Decoded(v, b.(position := b.position + 4)))
  {
    UInt32RoundTrip(v);
  }

  lemma ReadDoubleAt(b: Buffer, v: Double)
    requires HoldsAt(b, EncodeDouble(v))
    ensures ReadDouble(b) == Ok(Decoded(v, b.(position := b.position + 8)))
  {
  }

  lemma ReadStringAt(b: Buffer, s: Bytes, after: Buffer)
    requires |s| < Two31
    requires HoldsAt(b, EncodeString(s))
    requires after == b.(position := b.position + 4 + |s|)
    ensures ReadString(b) == Ok(Decoded(s, after))
  {
    HoldsAtSplit(b, EncodeInt32(|s|), s);
    ReadInt32At(b, |s|);
  }

  /** What a write puts at the cursor is what a read from the old cursor finds. */
  lemma WrittenHoldsAt(b: Buffer, x: Bytes)
    requires b.Valid() && WriteBytes(b, x).Ok?
    ensures HoldsAt(WriteBytes(b, x).value.(position := b.position), x)
  {
  }

  /** What a write of an encoded value puts down reads back as that value, ending where the write did. */
  lemma Int32Readable(b: Buffer, v: Int32)
    requires b.Valid()
    ensures var w := WriteBytes(b, EncodeInt32(v));
      w.Ok? ==> ReadInt32(w.value.(position := b.position)) == Ok(Decoded(v, w.value))
  {
    var w := WriteBytes(b, EncodeInt32(v));
    if w.Ok? {
      WrittenHoldsAt(b, EncodeInt32(v));
      ReadInt32At(w.value.(position := b.position), v);
    }
  }

  lemma Int8Readable(b: Buffer, v: Int8)
    requires b.Valid()
    ensures var w := WriteBytes(b, EncodeInt8(v));
      w.Ok? ==> ReadInt8(w.value.(position := b.position)) == Ok(Decoded(v, w.value))
  {
    var w := WriteBytes(b, EncodeInt8(v));
    if w.Ok? {
      WrittenHoldsAt(b, EncodeInt8(v));
      ReadInt8At(w.value.(position := b.position), v);
    }
  }

  lemma UInt32Readable(b: Buffer, v: UInt32)
    requires b.Valid()
    ensures var w := WriteBytes(b, EncodeUInt32(v));
      w.Ok? ==> ReadUInt32(w.value.(position := b.position)) == Ok(Decoded(v, w.value))
  {
    var w := WriteBytes(b, EncodeUInt32(v));
    if w.Ok? {
      WrittenHoldsAt(b, EncodeUInt32(v));
      ReadUInt32At(w.value.(position := b.position), v);
    }
  }

  lemma DoubleReadable(b: Buffer, v: Double)
    requires b.Valid()
    ensures var w := WriteBytes(b, EncodeDouble(v));
      w.Ok? ==> ReadDouble(w.value.(position := b.position)) == Ok(Decoded(v, w.value))
  {
    var w := WriteBytes(b, EncodeDouble(v));
    if w.Ok? {
      WrittenHoldsAt(b, EncodeDouble(v));
    }
  }

  lemma StringWriteRead(b: Buffer, s: Bytes)
    requires b.Valid() && WriteString(b, s).Ok?
    ensures var w := WriteString(b, s).value;
            ReadString(w.(position := b.position)) == Ok(Decoded(s, w))
  {
    var e := EncodeString(s);
    var w := WriteString(b, s).value;
    assert w == WriteBytes(b, e).value;
    WrittenHoldsAt(b, e);
    ReadStringAt(w.(position := b.position), s, w);
  }

  // ---------------------------------------------------------------------------
  // Sequences of writes

  /** Writes each region in turn from the cursor, stopping at the first failure. */
  function WriteAll(b: Buffer, xs: seq<Bytes>): (r: Result<Buffer>)
    requires b.Valid()
    ensures r.Ok? ==> r.value.Valid()
    decreases |xs|
  {
    if xs == [] then Ok(b)
    else
      var b1 :- WriteBytes(b, xs[0]);
      WriteAll(b1, xs[1..])
  }

  function Flatten(xs: seq<Bytes>): (r: Bytes)
  {
    if xs == [] then [] else xs[0] + Flatten(xs[1..])
  }

  /** Flattening distributes over joining the lists of regions. */
  lemma {:induction false} FlattenConcat(xs: seq<Bytes>, ys: seq<Bytes>)
    decreases |xs|
    ensures Flatten(xs + ys) == Flatten(xs) + Flatten(ys)
  {
    if xs == [] {
      assert xs + ys == ys;
    } else {
      assert (xs + ys)[1..] == xs[1..] + ys;
      FlattenConcat(xs[1..], ys);
    }
  }

  /**
   * Writing regions one after another is writing their concatenation. (With
   * no region at all the two differ: an empty `write_bytes` still allocates
   * when the cursor lies beyond the capacity.)
   */
  lemma {:induction false} WriteAllIsWriteOfFlatten(b: Buffer, xs: seq<Bytes>)
    requires b.Valid() && xs != []
    ensures WriteAll(b, xs) == WriteBytes(b, Flatten(xs))
    decreases |xs|
  {
    if |xs| == 1 {
      assert Flatten(xs) == xs[0] + [];
      assert xs[0] + [] == xs[0];
    } else {
      WriteBytesConcat(b, xs[0], Flatten(xs[1..]));
      if WriteBytes(b, xs[0]).Ok? {
        WriteAllIsWriteOfFlatten(WriteBytes(b, xs[0]).value, xs[1..]);
      }
    }
  }

  /**
   * Sequential writes into a fresh buffer never lose a byte: the data size is
   * the prefix plus the sum of the sizes written, and the bytes after the
   * prefix are the writes in order.
   */
  lemma SequentialWrites(xs: seq<Bytes>)
    requires xs != [] && WriteAll(Create(), xs).Ok?
    ensures var w := WriteAll(Create(), xs).value;
            && w.dataSize == SizeSize + |Flatten(xs)|
            && w.position == w.dataSize
            && w.store[SizeSize..w.dataSize] == Flatten(xs)
  {
    WriteAllIsWriteOfFlatten(Create(), xs);
  }

  // ---------------------------------------------------------------------------
  // The frame handed to the socket

  /**
   * `getBuffer`: allocates room for the prefix if nothing is allocated, then
   * stores `dataSize`, cast to `int32`, in bytes 0..3. Nothing else changes.
   */
  function GetBuffer(b: Buffer): (r: Buffer)
    requires b.Valid()
    ensures r.Valid()
    ensures SizeSize <= r.Capacity()
    ensures r.store[..SizeSize] == LE32(b.dataSize % Two32)
    ensures b.Capacity() > 0 ==> r.store[SizeSize..] == b.store[SizeSize..]
    ensures r == b.(store := r.store)
  {
    var s := if |b.store| == 0 then Zeros(SizeSize) else b.store;
    Int32OfSizeBytes(b.dataSize);
    var x := EncodeInt32(ToInt32(b.dataSize));
    var r := b.(store := Splice(s, 0, x));
    SpliceRegion(s, 0, x);
    assert r.store[SizeSize..] == s[SizeSize..];
    r
  }

  /** The length prefix `getBuffer` writes reads back as the data size, modulo 2^32. */
  lemma PrefixReadsBack(b: Buffer)
    requires b.Valid()
    ensures DecodeUInt32(GetBuffer(b).store[..SizeSize]) == b.dataSize % Two32
  {
    LE32RoundTrip(b.dataSize % Two32);
  }

  /** The bytes a queued buffer contributes to a socket write: `getBufferSize()` bytes of `getBuffer()`. */
  function FrameBytes(b: Buffer): (r: Bytes)
    requires b.Valid()
    ensures |r| == b.dataSize
  {
    GetBuffer(b).store[..b.dataSize]
  }

  /** A frame is its own length (counting the prefix), then the written payload. */
  lemma FrameLayout(b: Buffer)
    requires b.Valid() && SizeSize <= b.dataSize < Two32
    ensures FrameBytes(b) == LE32(b.dataSize) + b.store[SizeSize..b.dataSize]
  {
    var d := b.dataSize;
    var g := GetBuffer(b).store;
    assert FrameBytes(b) == g[..d];
    assert d % Two32 == d;
    assert g[..SizeSize] == LE32(d);
    assert g[SizeSize..] == b.store[SizeSize..];
    assert g[..d] == g[..SizeSize] + g[SizeSize..d];
    assert g[SizeSize..d] == g[SizeSize..][..d - SizeSize];
    assert b.store[SizeSize..d] == b.store[SizeSize..][..d - SizeSize];
  }

}
