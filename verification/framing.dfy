/**
 * Reassembly of `[int32 totalLength][payload]` frames from arbitrarily split
 * TCP chunks (`Buffer::readNetworkMessage` and `readNetworkMessageSize`).
 *
 * A receiving buffer first collects the four length bytes, which may arrive
 * over several calls; once they are in it allocates exactly `totalLength`
 * bytes, puts its cursor at 4 (the length counts its own four bytes) and
 * copies payload until the cursor reaches `totalLength`.
 *
 * The operations are stated against a byte-at-a-time reference (`Feed`):
 * the frame received so far (`Got`) grows by exactly the bytes consumed, and
 * one call consumes bytes until the frame completes or the chunk ends.
 */
module Framing {
  import opened Base
  import opened Wire
  import opened Buffers

  /** The length a complete prefix announces: the unsigned little-endian value of its four bytes. */
  function Announced(sizeBytes: Bytes): nat
    requires |sizeBytes| == SizeSize
  {
    DecodeUInt32(sizeBytes)
  }

  /**
   * The shape of a receiving buffer. Before the prefix is complete nothing is
   * allocated; afterwards the store holds exactly the announced length, the
   * data size is that length, and the cursor lies between 4 and the length.
   */
  predicate Shape(b: Buffer)
  {
    && |b.sizeBytes| <= SizeSize
    && (|b.sizeBytes| < SizeSize ==>
          b.store == [] && b.position == SizeSize && b.dataSize == 0 && !b.hasAllData)
    && (|b.sizeBytes| == SizeSize ==>
          && SizeSize <= Announced(b.sizeBytes)
          && |b.store| == Announced(b.sizeBytes)
          && b.dataSize == Announced(b.sizeBytes)
          && SizeSize <= b.position <= Announced(b.sizeBytes)
          && (b.hasAllData ==> b.position == Announced(b.sizeBytes)))
  }

  /** Between calls `hasAllData` is exactly "the cursor reached the announced length". */
  predicate Receiving(b: Buffer)
  {
    && Shape(b)
    && (|b.sizeBytes| == SizeSize ==> (b.hasAllData <==> b.position == Announced(b.sizeBytes)))
  }

  /** The bytes of the frame received so far, length prefix included. */
  function Got(b: Buffer): (got: Bytes)
    requires Shape(b)
    ensures |got| == if |b.sizeBytes| < SizeSize then |b.sizeBytes| else b.position
  {
    if |b.sizeBytes| < SizeSize then b.sizeBytes else b.sizeBytes + b.store[SizeSize..b.position]
  }

  lemma CreateReceiving()
    ensures Receiving(Create()) && Got(Create()) == [] && !Create().hasAllData
  {
  }

  // ---------------------------------------------------------------------------
  // Byte-at-a-time reference

  /** The length announced by the first four bytes of a frame. */
  function FrameLength(got: Bytes): nat
    requires SizeSize <= |got|
  {
    DecodeUInt32(got[..SizeSize])
  }

  /** A frame is complete when it is exactly as long as it announces. */
  predicate Complete(got: Bytes)
  {
    SizeSize <= |got| && |got| == FrameLength(got)
  }

  /** A frame still being received: its prefix is partial, or it announces more than it holds. */
  predicate Pending(got: Bytes)
  {
    |got| < SizeSize || (SizeSize <= FrameLength(got) && |got| < FrameLength(got))
  }

  datatype Progress = Partial(got: Bytes) | Done(frame: Bytes) | Bad(announced: nat)

  /** One more byte of a pending frame. A prefix announcing fewer than 4 bytes is rejected. */
  function Feed(got: Bytes, x: Byte): Progress
  {
    var g := got + [x];
    if |g| == SizeSize && FrameLength(g) < SizeSize then Bad(FrameLength(g))
    else if Complete(g) then Done(g)
    else Partial(g)
  }

  lemma FeedPending(got: Bytes, x: Byte)
    requires Pending(got)
    ensures Feed(got, x).Partial? ==> Pending(Feed(got, x).got)
  {
    var g := got + [x];
    if SizeSize < |g| {
      assert g[..SizeSize] == got[..SizeSize];
    }
  }

  /**
   * What one call does to a pending frame, byte by byte: it takes bytes until
   * the frame completes or the input runs out, and fails on a short prefix.
   * The result is the frame so far and the number of bytes taken.
   */
  function Take(got: Bytes, input: Bytes): Result<(Bytes, nat)>
    decreases |input|
  {
    if input == [] then Ok((got, 0))
    else match Feed(got, input[0])
      case Bad(s) => Err(FrameTooShort(s))
      case Done(g) => Ok((g, 1))
      case Partial(g) => Shift(Take(g, input[1..]), 1)
  }

  /** A result of `Take` with `d` more bytes counted as taken. */
  function Shift(t: Result<(Bytes, nat)>, d: nat): Result<(Bytes, nat)>
  {
    match t
      case Ok(r) => Ok((r.0, r.1 + d))
      case Err(e) => Err(e)
  }

  lemma ShiftShift(t: Result<(Bytes, nat)>, d: nat, e: nat)
    ensures Shift(Shift(t, d), e) == Shift(t, d + e)
  {
  }

  /**
   * What follows a prefix step that produced `g`: nothing while `g` is
   * partial or announces exactly 4 bytes, a failure when it announces fewer,
   * the payload otherwise.
   */
  function AfterPrefix(g: Bytes, rest: Bytes): Result<(Bytes, nat)>
  {
    if |g| < SizeSize then Ok((g, 0))
    else if FrameLength(g) < SizeSize then Err(FrameTooShort(FrameLength(g)))
    else if FrameLength(g) == SizeSize then Ok((g, 0))
    else Take(g, rest)
  }

  /** Once the prefix is in, a call takes payload up to the announced length. */
  lemma {:induction false} TakePayload(got: Bytes, input: Bytes)
    requires SizeSize <= |got| < FrameLength(got)
    decreases |input|
    ensures var n := Min(FrameLength(got) - |got|, |input|);
            Take(got, input) == Ok((got + input[..n], n))
  {
    if input != [] {
      var g := got + [input[0]];
      assert g[..SizeSize] == got[..SizeSize];
      assert FrameLength(g) == FrameLength(got);
      if |g| < FrameLength(got) {
        TakePayload(g, input[1..]);
        PayloadContinues(got, input, g);
      } else {
        assert Feed(got, input[0]) == Done(g);
        assert input[..1] == [input[0]];
      }
    } else {
      assert got + input[..0] == got;
    }
  }

  /** A payload byte that does not complete the frame: the rest follows, shifted by one. */
  lemma PayloadContinues(got: Bytes, input: Bytes, g: Bytes)
    requires SizeSize <= |got| && input != [] && g == got + [input[0]]
    requires FrameLength(g) == FrameLength(got) && |g| < FrameLength(got)
    requires var m := Min(FrameLength(got) - |g|, |input| - 1);
      Take(g, input[1..]) == Ok((g + input[1..][..m], m))
    ensures var n := Min(FrameLength(got) - |got|, |input|);
      Take(got, input) == Ok((got + input[..n], n))
  {
    var m := Min(FrameLength(got) - |g|, |input| - 1);
    assert m + 1 == Min(FrameLength(got) - |got|, |input|);
    FeedPayload(got, input[0]);
    TakeByte(got, input, g);
    assert Take(got, input) == Ok((g + input[1..][..m], m + 1));
    DropOne(input, m + 1);
    ConcatAssoc(got, [input[0]], input[1..][..m]);
    assert got + input[..m + 1] == g + input[1..][..m];
  }

  /**
   * While the prefix is partial, a call first takes prefix bytes; once the
   * prefix is complete it either fails (announced below 4), finishes (exactly
   * 4), or goes on with the payload.
   */
  lemma {:induction false} TakePrefix(got: Bytes, input: Bytes, k: nat)
    requires |got| < SizeSize && k == Min(SizeSize - |got|, |input|)
    decreases |input|
    ensures Take(got, input) == Shift(AfterPrefix(got + input[..k], input[k..]), k)
  {
    if input != [] {
      var g1 := got + [input[0]];
      if |g1| < SizeSize {
        TakePrefix(g1, input[1..], k - 1);
        PrefixContinues(got, input, k, g1);
      } else {
        assert input[..1] == [input[0]];
        PrefixCompletes(got, input, g1);
      }
    } else {
      assert got + input[..0] == got;
    }
  }

  /** A byte that leaves the prefix short: the rest of the prefix, then what follows it, shifted by one. */
  lemma PrefixContinues(got: Bytes, input: Bytes, k: nat, g1: Bytes)
    requires input != [] && |got| < SizeSize && k == Min(SizeSize - |got|, |input|)
    requires g1 == got + [input[0]] && |g1| < SizeSize
    requires Take(g1, input[1..]) == Shift(AfterPrefix(g1 + input[1..][..k - 1], input[1..][k - 1..]), k - 1)
    ensures Take(got, input) == Shift(AfterPrefix(got + input[..k], input[k..]), k)
  {
    PrefixParts(got, input, k, g1);
    FeedShort(got, input[0]);
    TakeByte(got, input, g1);
    ShiftChain(Take(got, input), Take(g1, input[1..]), AfterPrefix(got + input[..k], input[k..]), k);
  }

  /** The prefix grown by one byte, then by `k - 1` more, is the prefix grown by `k`; the rest is the same. */
  lemma PrefixParts(got: Bytes, input: Bytes, k: nat, g1: Bytes)
    requires 1 <= k <= |input| && g1 == got + [input[0]]
    ensures g1 + input[1..][..k - 1] == got + input[..k] && input[1..][k - 1..] == input[k..]
  {
    DropOne(input, k);
    ConcatAssoc(got, [input[0]], input[1..][..k - 1]);
  }

  /** One byte taken, then a result already shifted by `k - 1`: shifted by `k` in all. */
  lemma ShiftChain(t0: Result<(Bytes, nat)>, t1: Result<(Bytes, nat)>, a: Result<(Bytes, nat)>, k: nat)
    requires 1 <= k && t0 == Shift(t1, 1) && t1 == Shift(a, k - 1)
    ensures t0 == Shift(a, k)
  {
    ShiftShift(a, k - 1, 1);
  }

  /** A byte that leaves the frame partial is taken, and the rest of the input follows. */
  lemma TakeByte(got: Bytes, input: Bytes, g: Bytes)
    requires input != [] && Feed(got, input[0]) == Partial(g)
    ensures Take(got, input) == Shift(Take(g, input[1..]), 1)
  {
  }

  /** A byte short of completing the prefix leaves the frame partial. */
  lemma FeedShort(got: Bytes, x: Byte)
    requires |got| + 1 < SizeSize
    ensures Feed(got, x) == Partial(got + [x])
  {
  }

  /** A payload byte short of completing the frame leaves it partial. */
  lemma FeedPayload(got: Bytes, x: Byte)
    requires SizeSize <= |got| && |got| + 1 < FrameLength(got)
    ensures Feed(got, x) == Partial(got + [x])
  {
    assert (got + [x])[..SizeSize] == got[..SizeSize];
  }

  /** The byte that completes the prefix. */
  lemma PrefixCompletes(got: Bytes, input: Bytes, g: Bytes)
    requires input != [] && |got| == SizeSize - 1 && g == got + [input[0]]
    ensures Take(got, input) == Shift(AfterPrefix(g, input[1..]), 1)
  {
    if FrameLength(g) < SizeSize {
      assert Feed(got, input[0]) == Bad(FrameLength(g));
    } else if FrameLength(g) == SizeSize {
      assert Complete(g);
      assert Feed(got, input[0]) == Done(g);
    } else {
      assert Feed(got, input[0]) == Partial(g);
    }
  }

  // ---------------------------------------------------------------------------
  // The buffer operations

  datatype Read = Read(rest: Buffer, consumed: nat)

  /** A step from `b` that took `r.consumed` bytes at `at`: the frame so far grew by exactly those bytes. */
  predicate Grows(b: Buffer, chunk: Bytes, at: nat, r: Read)
  {
    && Shape(b) && Shape(r.rest)
    && at + r.consumed <= |chunk|
    && Got(r.rest) == Got(b) + chunk[at..at + r.consumed]
  }

  /** `hasAllData` is set exactly when the frame so far is complete; otherwise it is still pending. */
  predicate Settled(b: Buffer)
  {
    && Receiving(b)
    && (b.hasAllData ==> Complete(Got(b)))
    && (!b.hasAllData ==> Pending(Got(b)))
  }

  /** What every call of `readNetworkMessage` does: grow the frame and leave the buffer settled. */
  predicate Advances(b: Buffer, chunk: Bytes, at: nat, r: Read)
  {
    Grows(b, chunk, at, r) && Settled(r.rest)
  }

  /**
   * `readNetworkMessageSize`: nothing to do once the size is known; otherwise
   * copy prefix bytes until there are four or the chunk ends, and on the
   * fourth allocate the announced length with the cursor at 4. A length below
   * 4 is rejected (see README, Findings).
   */
  function ReadNetworkMessageSize(b: Buffer, chunk: Bytes, at: nat): (r: Result<Read>)
    requires Receiving(b) && at <= |chunk|
    ensures r.Ok? ==> Grows(b, chunk, at, r.value)
    ensures r.Ok? ==> r.value.rest.hasAllData == b.hasAllData
    ensures r.Ok? && |b.sizeBytes| == SizeSize ==> r.value == Read(b, 0)
    ensures r.Ok? && |r.value.rest.sizeBytes| == SizeSize ==> r.value.rest.position == Max(b.position, SizeSize)
    ensures r.Ok? && |b.sizeBytes| < SizeSize && at < |chunk| ==> 0 < r.value.consumed
    ensures r.Err? ==> |b.sizeBytes| < SizeSize
  {
    if |b.store| != 0 then Ok(Read(b, 0))
    else
      var k := Min(SizeSize - |b.sizeBytes|, |chunk| - at);
      PrefixStep(b, b.sizeBytes + chunk[at..at + k], k)
  }

  /**
   * The prefix step once `k` more prefix bytes have arrived, giving `g`: keep
   * collecting, reject a length below 4, or allocate the announced length.
   */
  function PrefixStep(b: Buffer, g: Bytes, k: nat): (r: Result<Read>)
    requires Shape(b) && |b.sizeBytes| < SizeSize && |g| <= SizeSize
    ensures r.Ok? ==> Shape(r.value.rest) && Got(r.value.rest) == g && r.value.consumed == k
    ensures r.Ok? ==> !r.value.rest.hasAllData
    ensures r.Ok? && |g| == SizeSize ==> r.value.rest.position == SizeSize
    ensures r.Err? <==> |g| == SizeSize && Announced(g) < SizeSize
    ensures r.Err? ==> r.error == FrameTooShort(Announced(g))
  {
    if |g| < SizeSize then Ok(Read(b.(sizeBytes := g), k))
    else if Announced(g) < SizeSize then Err(FrameTooShort(Announced(g)))
    else Ok(Read(Allocated(b, g), k))
  }

  /** Copying payload at the cursor extends the frame received so far by exactly those bytes. */
  lemma GotAfterCopy(b: Buffer, x: Bytes)
    requires Shape(b) && |b.sizeBytes| == SizeSize && b.position + |x| <= |b.store|
    ensures var b' := b.(store := Splice(b.store, b.position, x), position := b.position + |x|);
            Shape(b'.(hasAllData := false)) && Got(b'.(hasAllData := false)) == Got(b) + x
  {
    var s' := Splice(b.store, b.position, x);
    forall i | SizeSize <= i < b.position + |x|
      ensures s'[i] == (b.store[SizeSize..b.position] + x)[i - SizeSize]
    {
      SpliceAt(b.store, b.position, x, i);
    }
    assert s'[SizeSize..b.position + |x|] == b.store[SizeSize..b.position] + x;
  }

  /**
   * The copy step of `readNetworkMessage` once the size is known: as much
   * payload as the chunk holds, up to the announced length; `hasAllData` is
   * set when the cursor reaches that length.
   */
  function CopyPayload(b: Buffer, chunk: Bytes, from: nat): (r: Read)
    requires Shape(b) && |b.sizeBytes| == SizeSize && !b.hasAllData && from <= |chunk|
    ensures Advances(b, chunk, from, r) && |r.rest.sizeBytes| == SizeSize
    ensures r.consumed == Min(Announced(b.sizeBytes) - b.position, |chunk| - from)
  {
    var n := Min(|b.store| - b.position, |chunk| - from);
    var x := chunk[from..from + n];
    var b2 := b.(store := Splice(b.store, b.position, x), position := b.position + n);
    var b3 := b2.(hasAllData := b2.position == |b2.store|);
    CopySettles(b, chunk, from, n, b3);
    Read(b3, n)
  }

  /** The buffer after a copy of `n` bytes has grown by them and is settled. */
  lemma CopySettles(b: Buffer, chunk: Bytes, from: nat, n: nat, b3: Buffer)
    requires Shape(b) && |b.sizeBytes| == SizeSize && !b.hasAllData && from <= |chunk|
    requires n == Min(|b.store| - b.position, |chunk| - from)
    requires b3 == b.(store := Splice(b.store, b.position, chunk[from..from + n]), position := b.position + n,
                      hasAllData := b.position + n == |b.store|)
    ensures Advances(b, chunk, from, Read(b3, n)) && |b3.sizeBytes| == SizeSize
  {
    var x := chunk[from..from + n];
    GotAfterCopy(b, x);
    assert Got(b3) == Got(b3.(hasAllData := false));
    assert Got(b3)[..SizeSize] == b3.sizeBytes;
  }

  /**
   * What `readNetworkMessage` does after the prefix step has returned `sz`:
   * stop while the size is still unknown, otherwise copy payload.
   */
  function AfterSize(b: Buffer, chunk: Bytes, at: nat, sz: Read): (r: Read)
    requires Receiving(b) && !b.hasAllData && at <= |chunk|
    requires Grows(b, chunk, at, sz) && !sz.rest.hasAllData
    requires |sz.rest.sizeBytes| == SizeSize ==> sz.rest.position == Max(b.position, SizeSize)
    ensures Advances(b, chunk, at, r)
    ensures sz.consumed <= r.consumed
    ensures |sz.rest.sizeBytes| == SizeSize && sz.rest.position < |sz.rest.store| && at + sz.consumed < |chunk| ==>
              sz.consumed < r.consumed
  {
    if |sz.rest.store| == 0 then
      UnallocatedSettled(sz.rest);
      sz
    else
      var from := at + sz.consumed;
      var c := CopyPayload(sz.rest, chunk, from);
      CopyAdvances(b, chunk, at, sz, c);
      Read(c.rest, sz.consumed + c.consumed)
  }

  /** With nothing allocated the prefix is still partial, so the buffer is settled. */
  lemma UnallocatedSettled(b: Buffer)
    requires Shape(b) && !b.hasAllData && |b.store| == 0
    ensures Settled(b)
  {
  }

  /** The prefix step followed by the copy step advances by both. */
  lemma CopyAdvances(b: Buffer, chunk: Bytes, at: nat, sz: Read, c: Read)
    requires Grows(b, chunk, at, sz) && Shape(sz.rest) && |sz.rest.sizeBytes| == SizeSize && !sz.rest.hasAllData
    requires c == CopyPayload(sz.rest, chunk, at + sz.consumed)
    ensures Advances(b, chunk, at, Read(c.rest, sz.consumed + c.consumed))
  {
    var from := at + sz.consumed;
    Extend(Got(b), Got(sz.rest), Got(c.rest), chunk, at, from, from + c.consumed);
  }

  /**
   * `readNetworkMessage`: nothing once the frame is complete; otherwise the
   * prefix step, then, if the size is known, the payload copy.
   */
  function ReadNetworkMessage(b: Buffer, chunk: Bytes, at: nat): (r: Result<Read>)
    requires Receiving(b) && at <= |chunk|
    ensures r.Ok? ==> Advances(b, chunk, at, r.value)
    ensures b.hasAllData ==> r == Ok(Read(b, 0))
    ensures r.Ok? && !b.hasAllData && at < |chunk| ==> 0 < r.value.consumed
    ensures r.Err? ==> r.error.FrameTooShort? && r.error.announced < SizeSize
  {
    if b.hasAllData then Ok(Read(b, 0))
    else match ReadNetworkMessageSize(b, chunk, at)
      case Err(e) => Err(e)
      case Ok(sz) => Ok(AfterSize(b, chunk, at, sz))
  }

  /** Growing by two adjacent slices is growing by their union. */
  lemma Extend(g0: Bytes, g1: Bytes, g2: Bytes, s: Bytes, i: nat, j: nat, k: nat)
    requires i <= j <= k <= |s|
    requires g1 == g0 + s[i..j] && g2 == g1 + s[j..k]
    ensures g2 == g0 + s[i..k]
  {
    assert s[i..j] + s[j..k] == s[i..k];
  }

  /** With the size known, a call is the payload copy alone. */
  lemma ReadWhenSizeKnown(b: Buffer, chunk: Bytes, at: nat)
    requires Receiving(b) && !b.hasAllData && at <= |chunk| && |b.sizeBytes| == SizeSize
    ensures ReadNetworkMessage(b, chunk, at) == Ok(CopyPayload(b, chunk, at))
  {
  }

  /** The buffer once the prefix `g` is complete: the announced length allocated, the cursor at 4. */
  function Allocated(b: Buffer, g: Bytes): (r: Buffer)
    requires !b.hasAllData && |g| == SizeSize && SizeSize <= Announced(g)
    ensures Shape(r) && |r.sizeBytes| == SizeSize && r.position == SizeSize && !r.hasAllData && Got(r) == g
  {
    var r := b.(sizeBytes := g, store := Zeros(Announced(g)), dataSize := Announced(g), position := SizeSize);
    assert Got(r) == g;
    r
  }

  /** With the size unknown, the prefix step takes up to four bytes and checks the length they announce. */
  lemma SizeWhenUnknown(b: Buffer, chunk: Bytes, at: nat, k: nat, g: Bytes)
    requires Receiving(b) && at <= |chunk| && |b.sizeBytes| < SizeSize
    requires k == Min(SizeSize - |b.sizeBytes|, |chunk| - at) && g == b.sizeBytes + chunk[at..at + k]
    ensures ReadNetworkMessageSize(b, chunk, at) == PrefixStep(b, g, k)
  {
    assert |b.store| == 0;
  }

  /** With the size unknown, a call is the prefix step, then the payload copy if the prefix completed. */
  lemma ReadWhenSizeUnknown(b: Buffer, chunk: Bytes, at: nat, k: nat, g: Bytes)
    requires Receiving(b) && !b.hasAllData && at <= |chunk| && |b.sizeBytes| < SizeSize
    requires k == Min(SizeSize - |b.sizeBytes|, |chunk| - at) && g == b.sizeBytes + chunk[at..at + k]
    ensures |g| < SizeSize ==> ReadNetworkMessage(b, chunk, at) == Ok(Read(b.(sizeBytes := g), k))
    ensures |g| == SizeSize && Announced(g) < SizeSize ==>
              ReadNetworkMessage(b, chunk, at) == Err(FrameTooShort(Announced(g)))
  {
    SizeWhenUnknown(b, chunk, at, k, g);
  }

  /** The prefix completes within the call and announces at least 4 bytes: the payload copy follows at once. */
  lemma ReadThroughPrefix(b: Buffer, chunk: Bytes, at: nat, k: nat, g: Bytes, c: Read)
    requires Receiving(b) && !b.hasAllData && at <= |chunk| && |b.sizeBytes| < SizeSize
    requires k == Min(SizeSize - |b.sizeBytes|, |chunk| - at) && g == b.sizeBytes + chunk[at..at + k]
    requires |g| == SizeSize && SizeSize <= Announced(g)
    requires c == CopyPayload(Allocated(b, g), chunk, at + k)
    ensures ReadNetworkMessage(b, chunk, at) == Ok(Read(c.rest, k + c.consumed))
  {
    SizeWhenUnknown(b, chunk, at, k, g);
  }

  /**
   * A call and the byte-at-a-time reference agree: the same failure, or the
   * same frame so far and the same bytes taken, with `hasAllData` set exactly
   * when the frame is complete.
   */
  predicate Agrees(r: Result<Read>, t: Result<(Bytes, nat)>)
  {
    match r
      case Err(e) => t == Err(e)
      case Ok(v) =>
        && Shape(v.rest)
        && t == Ok((Got(v.rest), v.consumed))
        && (v.rest.hasAllData <==> Complete(Got(v.rest)))
  }

  /** Each call does exactly what feeding its bytes one at a time does. */
  lemma ReadNetworkMessageIsTake(b: Buffer, chunk: Bytes, at: nat)
    requires Receiving(b) && !b.hasAllData && at <= |chunk|
    ensures Agrees(ReadNetworkMessage(b, chunk, at), Take(Got(b), chunk[at..]))
  {
    if |b.sizeBytes| == SizeSize {
      TakeWhenSizeKnown(b, chunk, at);
    } else {
      var k := Min(SizeSize - |b.sizeBytes|, |chunk| - at);
      var g := b.sizeBytes + chunk[at..at + k];
      if |g| < SizeSize || Announced(g) <= SizeSize {
        TakeWithinPrefix(b, chunk, at, k, g);
      } else {
        TakeAfterPrefix(b, chunk, at, k, g);
      }
    }
  }

  lemma TakeWhenSizeKnown(b: Buffer, chunk: Bytes, at: nat)
    requires Receiving(b) && !b.hasAllData && at <= |chunk| && |b.sizeBytes| == SizeSize
    ensures Agrees(ReadNetworkMessage(b, chunk, at), Take(Got(b), chunk[at..]))
  {
    ReadWhenSizeKnown(b, chunk, at);
    var c := CopyPayload(b, chunk, at);
    TakeKnown(b, chunk, at, c);
    SettledAgrees(c, Got(c.rest), c.consumed);
  }

  /** With the size known, the reference takes what the copy takes. */
  lemma TakeKnown(b: Buffer, chunk: Bytes, at: nat, c: Read)
    requires Receiving(b) && !b.hasAllData && at <= |chunk| && |b.sizeBytes| == SizeSize
    requires c == CopyPayload(b, chunk, at)
    ensures Take(Got(b), chunk[at..]) == Ok((Got(c.rest), c.consumed))
  {
    var got := Got(b);
    var input := chunk[at..];
    assert got[..SizeSize] == b.sizeBytes;
    TakePayload(got, input);
    assert input[..c.consumed] == chunk[at..at + c.consumed];
  }

  /** The call ends with the prefix: it is still partial, it announces fewer than 4 bytes, or exactly 4. */
  lemma TakeWithinPrefix(b: Buffer, chunk: Bytes, at: nat, k: nat, g: Bytes)
    requires Receiving(b) && !b.hasAllData && at <= |chunk| && |b.sizeBytes| < SizeSize
    requires k == Min(SizeSize - |b.sizeBytes|, |chunk| - at) && g == b.sizeBytes + chunk[at..at + k]
    requires |g| < SizeSize || Announced(g) <= SizeSize
    ensures Agrees(ReadNetworkMessage(b, chunk, at), Take(Got(b), chunk[at..]))
  {
    PrefixTake(b, chunk, at, k, g);
    ReadWhenSizeUnknown(b, chunk, at, k, g);
    if |g| < SizeSize {
      assert Take(Got(b), chunk[at..]) == Ok((g, k));
      assert Got(b.(sizeBytes := g)) == g;
    } else if Announced(g) < SizeSize {
      assert Take(Got(b), chunk[at..]) == Err(FrameTooShort(Announced(g)));
    } else {
      assert Take(Got(b), chunk[at..]) == Ok((g, k));
      ExactPrefix(b, chunk, at, k, g);
    }
  }

  /** `TakePrefix` for a buffer whose prefix is partial, the input a suffix of the chunk. */
  lemma PrefixTake(b: Buffer, chunk: Bytes, at: nat, k: nat, g: Bytes)
    requires Receiving(b) && at <= |chunk| && |b.sizeBytes| < SizeSize
    requires k == Min(SizeSize - |b.sizeBytes|, |chunk| - at) && g == b.sizeBytes + chunk[at..at + k]
    ensures Got(b) == b.sizeBytes
    ensures Take(Got(b), chunk[at..]) == Shift(AfterPrefix(g, chunk[at..][k..]), k)
    ensures |g| == SizeSize ==> FrameLength(g) == Announced(g)
  {
    assert chunk[at..][..k] == chunk[at..at + k];
    TakePrefix(Got(b), chunk[at..], k);
    assert |g| == SizeSize ==> g[..SizeSize] == g;
  }

  /** A prefix announcing exactly 4 bytes completes the frame with no payload copied. */
  lemma ExactPrefix(b: Buffer, chunk: Bytes, at: nat, k: nat, g: Bytes)
    requires Receiving(b) && !b.hasAllData && at <= |chunk| && |b.sizeBytes| < SizeSize
    requires k == Min(SizeSize - |b.sizeBytes|, |chunk| - at) && g == b.sizeBytes + chunk[at..at + k]
    requires |g| == SizeSize && Announced(g) == SizeSize
    ensures var r := ReadNetworkMessage(b, chunk, at);
            r.Ok? && r.value.consumed == k && Got(r.value.rest) == g && r.value.rest.hasAllData
  {
    var c := CopyPayload(Allocated(b, g), chunk, at + k);
    ReadThroughPrefix(b, chunk, at, k, g, c);
    assert c.consumed == 0;
  }

  /** The prefix arrives within this call and announces more than 4 bytes: the payload copy follows. */
  lemma TakeAfterPrefix(b: Buffer, chunk: Bytes, at: nat, k: nat, g: Bytes)
    requires Receiving(b) && !b.hasAllData && at <= |chunk| && |b.sizeBytes| < SizeSize
    requires k == Min(SizeSize - |b.sizeBytes|, |chunk| - at) && g == b.sizeBytes + chunk[at..at + k]
    requires |g| == SizeSize && SizeSize < Announced(g)
    ensures Agrees(ReadNetworkMessage(b, chunk, at), Take(Got(b), chunk[at..]))
  {
    var n := Min(Announced(g) - SizeSize, |chunk| - at - k);
    var got := g + chunk[at + k..at + k + n];
    ReadAfterPrefix(b, chunk, at, k, g, n, got, ReadNetworkMessage(b, chunk, at));
    TakeChunkAfterPrefix(b.sizeBytes, chunk, at, k, g, n);
  }

  /** `TakeThroughPrefix` with the input a suffix of a chunk. */
  lemma TakeChunkAfterPrefix(got: Bytes, chunk: Bytes, at: nat, k: nat, g: Bytes, n: nat)
    requires at <= |chunk| && |got| < SizeSize && k == Min(SizeSize - |got|, |chunk| - at)
    requires g == got + chunk[at..at + k] && |g| == SizeSize && SizeSize < Announced(g)
    requires n == Min(Announced(g) - SizeSize, |chunk| - at - k)
    ensures Take(got, chunk[at..]) == Ok((g + chunk[at + k..at + k + n], k + n))
  {
    var input := chunk[at..];
    SliceOfSuffix(chunk, at, 0, k);
    TakeThroughPrefix(got, input, k, g, n);
    SliceOfSuffix(chunk, at, k, n);
  }

  /** A slice of a suffix is a slice of the whole. */
  lemma SliceOfSuffix(s: Bytes, i: nat, j: nat, n: nat)
    requires i + j + n <= |s|
    ensures s[i..][j..][..n] == s[i + j..i + j + n]
    ensures j == 0 ==> s[i..][..n] == s[i..i + n]
  {
  }

  /** A settled read agrees with the reference result that has its frame so far and its count. */
  lemma SettledAgrees(rd: Read, got: Bytes, n: nat)
    requires Settled(rd.rest) && Got(rd.rest) == got && rd.consumed == n
    ensures Agrees(Ok(rd), Ok((got, n)))
  {
  }

  lemma ReadAfterPrefix(b: Buffer, chunk: Bytes, at: nat, k: nat, g: Bytes, n: nat, got: Bytes, r: Result<Read>)
    requires Receiving(b) && !b.hasAllData && at <= |chunk| && |b.sizeBytes| < SizeSize
    requires k == Min(SizeSize - |b.sizeBytes|, |chunk| - at) && g == b.sizeBytes + chunk[at..at + k]
    requires |g| == SizeSize && SizeSize < Announced(g)
    requires n == Min(Announced(g) - SizeSize, |chunk| - at - k)
    requires at + k + n <= |chunk| && got == g + chunk[at + k..at + k + n]
    requires r == ReadNetworkMessage(b, chunk, at)
    ensures Agrees(r, Ok((got, k + n)))
  {
    var c := CopyPayload(Allocated(b, g), chunk, at + k);
    ReadThroughPrefix(b, chunk, at, k, g, c);
    CopyAgrees(b, g, chunk, at, k, n, c, got);
  }

  /** The copy after a prefix completed by `k` bytes agrees with the reference result. */
  lemma CopyAgrees(b: Buffer, g: Bytes, chunk: Bytes, at: nat, k: nat, n: nat, c: Read, got: Bytes)
    requires !b.hasAllData && |g| == SizeSize && SizeSize < Announced(g) && at + k <= |chunk|
    requires n == Min(Announced(g) - SizeSize, |chunk| - at - k)
    requires c == CopyPayload(Allocated(b, g), chunk, at + k)
    requires at + k + n <= |chunk| && got == g + chunk[at + k..at + k + n]
    ensures Agrees(Ok(Read(c.rest, k + c.consumed)), Ok((got, k + n)))
  {
    assert |chunk| - (at + k) == |chunk| - at - k;
    CopyAllocated(b, g, chunk, at + k, n, c);
    SettledAgrees(Read(c.rest, k + c.consumed), got, k + n);
  }

  /** The payload copy into a freshly allocated buffer: the prefix, then what was copied. */
  lemma CopyAllocated(b: Buffer, g: Bytes, chunk: Bytes, from: nat, n: nat, c: Read)
    requires !b.hasAllData && |g| == SizeSize && SizeSize <= Announced(g) && from <= |chunk|
    requires n == Min(Announced(g) - SizeSize, |chunk| - from)
    requires c == CopyPayload(Allocated(b, g), chunk, from)
    ensures c.consumed == n && from + n <= |chunk|
    ensures Got(c.rest) == g + chunk[from..from + n] && Settled(c.rest)
  {
  }

  /** Byte by byte: the prefix completes after `k` bytes, then payload follows up to the announced length. */
  lemma TakeThroughPrefix(got: Bytes, input: Bytes, k: nat, g: Bytes, n: nat)
    requires |got| < SizeSize && k == Min(SizeSize - |got|, |input|) && g == got + input[..k]
    requires |g| == SizeSize && SizeSize < Announced(g)
    requires n == Min(Announced(g) - SizeSize, |input| - k)
    ensures Take(got, input) == Ok((g + input[k..][..n], k + n))
  {
    var rest := input[k..];
    PayloadAfterPrefix(g, rest, n);
    TakePrefix(got, input, k);
    ShiftOk(Take(got, input), AfterPrefix(g, rest), g + rest[..n], n, k);
  }

  /** After a complete prefix announcing more than 4 bytes, the payload is taken up to the announced length. */
  lemma PayloadAfterPrefix(g: Bytes, rest: Bytes, n: nat)
    requires |g| == SizeSize && SizeSize < Announced(g) && n == Min(Announced(g) - SizeSize, |rest|)
    ensures AfterPrefix(g, rest) == Ok((g + rest[..n], n))
  {
    assert g[..SizeSize] == g;
    assert FrameLength(g) == Announced(g);
    TakePayload(g, rest);
  }

  lemma ShiftOk(t: Result<(Bytes, nat)>, a: Result<(Bytes, nat)>, x: Bytes, n: nat, k: nat)
    requires t == Shift(a, k) && a == Ok((x, n))
    ensures t == Ok((x, k + n))
  {
  }

  // ---------------------------------------------------------------------------
  // The same two functions as written, for an announced length below 4

  datatype RawRead = RawRead(rest: Buffer, consumed: nat, overrun: bool)

  /** `readNetworkMessageSize` without any check on the announced length. */
  function RawReadNetworkMessageSize(b: Buffer, chunk: Bytes, at: nat): (r: Read)
    requires |b.sizeBytes| <= SizeSize && at <= |chunk|
    ensures r.consumed <= |chunk| - at && |r.rest.sizeBytes| <= SizeSize
  {
    if |b.store| != 0 then Read(b, 0)
    else
      var k := Min(SizeSize - |b.sizeBytes|, |chunk| - at);
      var sb := b.sizeBytes + chunk[at..at + k];
      if |sb| < SizeSize then Read(b.(sizeBytes := sb), k)
      else
        var s := DecodeUInt32(sb);
        Read(b.(sizeBytes := sb, store := Zeros(s), dataSize := s, position := SizeSize), k)
  }

  /**
   * `readNetworkMessage` as written: an empty allocation means "size not yet
   * known", and the copy follows.
   */
  function RawReadNetworkMessage(b: Buffer, chunk: Bytes, at: nat): (r: RawRead)
    requires |b.sizeBytes| <= SizeSize && at <= |chunk|
    ensures r.consumed <= |chunk| - at
  {
    if b.hasAllData then RawRead(b, 0, false)
    else
      var sz := RawReadNetworkMessageSize(b, chunk, at);
      if |sz.rest.store| == 0 then RawRead(sz.rest, sz.consumed, false)
      else
        var c := RawCopyPayload(sz.rest, chunk, at + sz.consumed);
        RawRead(c.rest, sz.consumed + c.consumed, c.overrun)
  }

  /**
   * The copy step as written: the bytes still required are computed in
   * `size_t`, so they wrap when the cursor is past the allocation. `overrun`
   * reports a copy that would write beyond the allocation (the store is then
   * left as it was).
   */
  function RawCopyPayload(b: Buffer, chunk: Bytes, from: nat): (r: RawRead)
    requires from <= |chunk|
    ensures r.consumed <= |chunk| - from
    ensures r.overrun <==> |b.store| < b.position + r.consumed
  {
    var required := (|b.store| - b.position) % Two64;
    var n := Min(required, |chunk| - from);
    var x := chunk[from..from + n];
    var overrun := b.position + n > |b.store|;
    var store := if overrun then b.store else Splice(b.store, b.position, x);
    var b2 := b.(store := store, position := b.position + n);
    RawRead(b2.(hasAllData := b2.position == |b2.store|), n, overrun)
  }

  /** The prefix step as written agrees with the corrected one wherever the latter accepts the length. */
  lemma RawSizeAgrees(b: Buffer, chunk: Bytes, at: nat)
    requires Receiving(b) && at <= |chunk| && ReadNetworkMessageSize(b, chunk, at).Ok?
    ensures RawReadNetworkMessageSize(b, chunk, at) == ReadNetworkMessageSize(b, chunk, at).value
  {
    if |b.store| == 0 {
      var k := Min(SizeSize - |b.sizeBytes|, |chunk| - at);
      var g := b.sizeBytes + chunk[at..at + k];
      assert ReadNetworkMessageSize(b, chunk, at) == PrefixStep(b, g, k);
      if |g| == SizeSize {
        assert PrefixStep(b, g, k) == Ok(Read(Allocated(b, g), k));
      }
    }
  }

  /** Within the allocation the wrapped subtraction is the plain one, so the copy steps agree. */
  lemma RawCopyAgrees(b: Buffer, chunk: Bytes, from: nat)
    requires Shape(b) && |b.sizeBytes| == SizeSize && !b.hasAllData && from <= |chunk|
    ensures var r := RawCopyPayload(b, chunk, from);
            !r.overrun && CopyPayload(b, chunk, from) == Read(r.rest, r.consumed)
  {
    assert |b.store| - b.position < Two64;
    assert (|b.store| - b.position) % Two64 == |b.store| - b.position;
  }

  /** For every length the corrected function accepts, it agrees with the code as written. */
  lemma RawAgrees(b: Buffer, chunk: Bytes, at: nat)
    requires Receiving(b) && at <= |chunk| && ReadNetworkMessage(b, chunk, at).Ok?
    ensures var r := RawReadNetworkMessage(b, chunk, at);
            ReadNetworkMessage(b, chunk, at).value == Read(r.rest, r.consumed) && !r.overrun
  {
    if !b.hasAllData {
      var t := ReadNetworkMessageSize(b, chunk, at);
      assert t.Ok?;
      RawSizeAgrees(b, chunk, at);
      ReadIsAfterSize(b, chunk, at, t.value);
      RawAfterSizeAgrees(b, chunk, at, t.value, RawReadNetworkMessage(b, chunk, at));
    }
  }

  /** Once the prefix step succeeds, a call is that step followed by `AfterSize`. */
  lemma ReadIsAfterSize(b: Buffer, chunk: Bytes, at: nat, sz: Read)
    requires Receiving(b) && !b.hasAllData && at <= |chunk|
    requires ReadNetworkMessageSize(b, chunk, at) == Ok(sz)
    ensures ReadNetworkMessage(b, chunk, at) == Ok(AfterSize(b, chunk, at, sz))
  {
  }

  /** After agreeing prefix steps, the copy steps agree too. */
  lemma RawAfterSizeAgrees(b: Buffer, chunk: Bytes, at: nat, sz: Read, raw: RawRead)
    requires Receiving(b) && !b.hasAllData && at <= |chunk|
    requires ReadNetworkMessageSize(b, chunk, at) == Ok(sz)
    requires RawReadNetworkMessageSize(b, chunk, at) == sz
    requires raw == RawReadNetworkMessage(b, chunk, at)
    ensures AfterSize(b, chunk, at, sz) == Read(raw.rest, raw.consumed) && !raw.overrun
  {
    if |sz.rest.store| != 0 {
      var c := RawCopyPayload(sz.rest, chunk, at + sz.consumed);
      assert raw == RawRead(c.rest, sz.consumed + c.consumed, c.overrun);
      RawCopyStepAgrees(b, chunk, at, sz, c);
    } else {
      assert raw == RawRead(sz.rest, sz.consumed, false);
    }
  }

  lemma RawCopyStepAgrees(b: Buffer, chunk: Bytes, at: nat, sz: Read, c: RawRead)
    requires Receiving(b) && !b.hasAllData && at <= |chunk|
    requires Grows(b, chunk, at, sz) && !sz.rest.hasAllData && |sz.rest.store| != 0
    requires |sz.rest.sizeBytes| == SizeSize ==> sz.rest.position == Max(b.position, SizeSize)
    requires c == RawCopyPayload(sz.rest, chunk, at + sz.consumed)
    ensures AfterSize(b, chunk, at, sz) == Read(c.rest, sz.consumed + c.consumed) && !c.overrun
  {
    var from := at + sz.consumed;
    AfterSizeCopies(b, chunk, at, sz);
    RawCopyAgrees(sz.rest, chunk, from);
  }

  /** With the size known, the step after the prefix is the payload copy. */
  lemma AfterSizeCopies(b: Buffer, chunk: Bytes, at: nat, sz: Read)
    requires Receiving(b) && !b.hasAllData && at <= |chunk|
    requires Grows(b, chunk, at, sz) && !sz.rest.hasAllData && |sz.rest.store| != 0
    requires |sz.rest.sizeBytes| == SizeSize ==> sz.rest.position == Max(b.position, SizeSize)
    ensures |sz.rest.sizeBytes| == SizeSize
    ensures var p := CopyPayload(sz.rest, chunk, at + sz.consumed);
      AfterSize(b, chunk, at, sz) == Read(p.rest, sz.consumed + p.consumed)
  {
  }

  /**
   * A frame announcing length 0 leaves nothing allocated, which the code reads
   * as "size not yet known": from then on every call takes no bytes and
   * changes nothing, so the chunk loop never advances.
   */
  lemma ZeroLengthStalls(b: Buffer, chunk: Bytes, at: nat)
    requires b.sizeBytes == [0, 0, 0, 0] && b.store == [] && !b.hasAllData
    requires b.position == SizeSize && b.dataSize == 0 && at <= |chunk|
    ensures RawReadNetworkMessage(b, chunk, at) == RawRead(b, 0, false)
  {
    assert DecodeUInt32([0, 0, 0, 0]) == 0;
    assert Zeros(0) == [];
  }

  /** The concrete stall: after the four zero bytes of `[0, 0, 0, 0, 7]` the fifth byte is never taken. */
  lemma ZeroLengthExample()
    ensures var first := RawReadNetworkMessage(Create(), [0, 0, 0, 0, 7], 0);
            && first.consumed == 4
            && RawReadNetworkMessage(first.rest, [0, 0, 0, 0, 7], 4).consumed == 0
    ensures ReadNetworkMessage(Create(), [0, 0, 0, 0, 7], 0) == Err(FrameTooShort(0))
  {
    var chunk: Bytes := [0, 0, 0, 0, 7];
    assert chunk[0..4] == [0, 0, 0, 0];
    assert [] + [0, 0, 0, 0] == [0, 0, 0, 0];
    ZeroLengthStalls(RawReadNetworkMessage(Create(), chunk, 0).rest, chunk, 4);
  }

  /**
   * A frame announcing 1, 2 or 3 bytes: the bytes still required wrap to a
   * huge `size_t`, so the call copies the whole rest of the chunk past an
   * allocation smaller than the cursor, and never completes.
   */
  lemma ShortLengthOverruns(b: Buffer, chunk: Bytes, at: nat)
    requires |b.sizeBytes| == SizeSize && 1 <= Announced(b.sizeBytes) < SizeSize
    requires |b.store| == Announced(b.sizeBytes) && b.position == SizeSize && !b.hasAllData
    requires at < |chunk| < Two32
    ensures var r := RawReadNetworkMessage(b, chunk, at);
            r.overrun && r.consumed == |chunk| - at && !r.rest.hasAllData
  {
    var s := |b.store|;
    assert (s - SizeSize) % Two64 == Two64 + s - SizeSize;
  }

  /** Any announced length below 4 is rejected by the corrected function as soon as the prefix is in. */
  lemma ShortLengthRejected(chunk: Bytes)
    requires SizeSize <= |chunk| && Announced(chunk[..SizeSize]) < SizeSize
    ensures ReadNetworkMessage(Create(), chunk, 0) == Err(FrameTooShort(Announced(chunk[..SizeSize])))
  {
    assert [] + chunk[0..SizeSize] == chunk[..SizeSize];
  }
}
