/**
 * The receive side of a socket: the chunk loop of `Socket::onDataReceived`,
 * which feeds each chunk into the current partial buffer, delivers every
 * completed frame and carries an incomplete one over to the next chunk.
 *
 * The reference is a fold over single bytes (`FeedBytes`). The chunk loop is
 * proved equal to it, so where the stream is split into chunks cannot change
 * the frames delivered.
 */
module Receive {
  import opened Base
  import opened Wire
  import opened Buffers
  import opened Framing

  // ---------------------------------------------------------------------------
  // Byte-at-a-time reference

  /** The frame being received, the frames completed so far, and whether a bad prefix was seen. */
  datatype Stream = Stream(got: Bytes, frames: seq<Bytes>, bad: bool)

  function Fresh(): Stream
  {
    Stream([], [], false)
  }

  /** One byte: extend the pending frame, complete it, or stop at a prefix announcing fewer than 4 bytes. */
  function FeedByte(st: Stream, x: Byte): Stream
  {
    if st.bad then st
    else match Feed(st.got, x)
      case Bad(_) => Stream([], st.frames, true)
      case Done(g) => Stream([], st.frames + [g], false)
      case Partial(g) => st.(got := g)
  }

  function FeedBytes(st: Stream, xs: Bytes): Stream
    decreases |xs|
  {
    if xs == [] then st else FeedBytes(FeedByte(st, xs[0]), xs[1..])
  }

  /** Feeding two pieces one after the other is feeding their concatenation. */
  lemma {:induction false} FeedBytesConcat(st: Stream, a: Bytes, b: Bytes)
    decreases |a|
    ensures FeedBytes(FeedBytes(st, a), b) == FeedBytes(st, a + b)
  {
    if a == [] {
      assert a + b == b;
    } else {
      FeedBytesConcat(FeedByte(st, a[0]), a[1..], b);
      assert (a + b)[0] == a[0];
      assert (a + b)[1..] == a[1..] + b;
    }
  }

  /** Once a bad prefix is seen, nothing more is taken. */
  lemma {:induction false} BadAbsorbs(st: Stream, xs: Bytes)
    requires st.bad
    decreases |xs|
    ensures FeedBytes(st, xs) == st
  {
    if xs != [] {
      BadAbsorbs(FeedByte(st, xs[0]), xs[1..]);
    }
  }

  /** Completed frames are never taken back: feeding only appends to them. */
  lemma {:induction false} FramesGrow(st: Stream, xs: Bytes)
    decreases |xs|
    ensures var r := FeedBytes(st, xs);
            |st.frames| <= |r.frames| && r.frames[..|st.frames|] == st.frames
  {
    if xs != [] {
      FramesGrow(FeedByte(st, xs[0]), xs[1..]);
    }
  }

  /**
   * What one buffer call takes, fed byte by byte: a failure leaves the stream
   * bad; a completed frame is appended; otherwise the whole input was taken
   * and the frame is still pending.
   */
  lemma {:induction false} TakeIsFeed(got: Bytes, fs: seq<Bytes>, input: Bytes)
    requires Pending(got)
    decreases |input|
    ensures match Take(got, input)
      case Err(_) => FeedBytes(Stream(got, fs, false), input) == Stream([], fs, true)
      case Ok((g, n)) =>
        && n <= |input|
        && (Complete(g) ==> FeedBytes(Stream(got, fs, false), input[..n]) == Stream([], fs + [g], false))
        && (!Complete(g) ==> n == |input| && Pending(g) && FeedBytes(Stream(got, fs, false), input) == Stream(g, fs, false))
  {
    var st := Stream(got, fs, false);
    if input == [] {
      assert input[..0] == [];
    } else {
      var x := input[0];
      match Feed(got, x)
      case Bad(_) =>
        BadAbsorbs(Stream([], fs, true), input[1..]);
      case Done(g) =>
        assert input[..1] == [x];
        assert input[..1][1..] == [];
      case Partial(g) =>
        FeedPending(got, x);
        TakeIsFeed(g, fs, input[1..]);
        match Take(g, input[1..])
        case Err(_) =>
        case Ok((g', n)) =>
          assert input[..n + 1][1..] == input[1..][..n];
    }
  }

  // ---------------------------------------------------------------------------
  // The receiving socket

  /** The frame a delivered buffer holds: its prefix and its payload. */
  function Contents(b: Buffer): Bytes
  {
    if |b.sizeBytes| == SizeSize && SizeSize <= b.dataSize <= |b.store|
    then b.sizeBytes + b.store[SizeSize..b.dataSize]
    else []
  }

  function Frames(d: seq<Buffer>): (r: seq<Bytes>)
    ensures |r| == |d|
  {
    seq(|d|, i requires 0 <= i < |d| => Contents(d[i]))
  }

  lemma FramesAppend(d: seq<Buffer>, b: Buffer)
    ensures Frames(d + [b]) == Frames(d) + [Contents(b)]
  {
    assert forall i | 0 <= i < |d| :: (d + [b])[i] == d[i];
  }

  /**
   * `m_pCurrentMessage` (absent between frames), the frames handed to the
   * callback, and whether the stream was found corrupt (a prefix announcing
   * fewer than 4 bytes; see README, Findings).
   */
  datatype Receiver = Receiver(current: Option<Buffer>, delivered: seq<Buffer>, corrupt: bool)
  {
    predicate Valid()
    {
      current.Some? ==> Receiving(current.value) && !current.value.hasAllData
    }
  }

  function NewReceiver(): (r: Receiver)
    ensures r.Valid()
  {
    Receiver(None, [], false)
  }

  /** What the receiver amounts to at the byte level. */
  function Abstract(rx: Receiver): Stream
    requires rx.Valid()
  {
    if rx.corrupt then Stream([], Frames(rx.delivered), true)
    else if rx.current.None? then Stream([], Frames(rx.delivered), false)
    else Stream(Got(rx.current.value), Frames(rx.delivered), false)
  }

  lemma ReceivingPending(b: Buffer)
    requires Receiving(b) && !b.hasAllData
    ensures Pending(Got(b))
  {
    if |b.sizeBytes| == SizeSize {
      assert Got(b)[..SizeSize] == b.sizeBytes;
    }
  }

  /** A completed buffer, its cursor reset for the callback, holds exactly the frame received. */
  lemma DeliveredContents(b: Buffer)
    requires Receiving(b) && b.hasAllData
    ensures Contents(ResetPosition(b)) == Got(b)
  {
  }

  /** A `readNetworkMessage` call that fails leaves the byte-level stream bad. */
  lemma StepFails(b: Buffer, fs: seq<Bytes>, chunk: Bytes, at: nat)
    requires Receiving(b) && !b.hasAllData && at <= |chunk| && ReadNetworkMessage(b, chunk, at).Err?
    ensures FeedBytes(Stream(Got(b), fs, false), chunk[at..]) == Stream([], fs, true)
  {
    var input := chunk[at..];
    ReadNetworkMessageIsTake(b, chunk, at);
    assert Take(Got(b), input).Err?;
    ReceivingPending(b);
    TakeIsFeed(Got(b), fs, input);
  }

  /**
   * A `readNetworkMessage` call that succeeds takes its bytes as the
   * byte-level reference does: a completed frame is appended, or all the
   * bytes went into the pending frame.
   */
  lemma StepTakes(b: Buffer, fs: seq<Bytes>, chunk: Bytes, at: nat, rd: Read)
    requires Receiving(b) && !b.hasAllData && at <= |chunk| && ReadNetworkMessage(b, chunk, at) == Ok(rd)
    ensures FeedBytes(Stream(Got(b), fs, false), chunk[at..at + rd.consumed]) ==
              if rd.rest.hasAllData then Stream([], fs + [Got(rd.rest)], false)
              else Stream(Got(rd.rest), fs, false)
  {
    var input := chunk[at..];
    ReadNetworkMessageIsTake(b, chunk, at);
    assert Take(Got(b), input) == Ok((Got(rd.rest), rd.consumed));
    assert rd.rest.hasAllData <==> Complete(Got(rd.rest));
    ReceivingPending(b);
    TakeIsFeed(Got(b), fs, input);
    assert input[..rd.consumed] == chunk[at..at + rd.consumed];
    if !rd.rest.hasAllData {
      assert rd.consumed == |input|;
      assert chunk[at..at + rd.consumed] == input;
    }
  }

  /** The buffer a pass reads into: the pending one, or a fresh one between frames. */
  function Current(here: Receiver): (b: Buffer)
    requires here.Valid() && !here.corrupt
    ensures Receiving(b) && !b.hasAllData && Got(b) == Abstract(here).got
  {
    if here.current.Some? then here.current.value else Create()
  }

  /**
   * One pass of the chunk loop: create a buffer when none is pending, read
   * into it, and deliver and clear it when complete. The result is the
   * receiver after the pass and the bytes read.
   */
  function LoopStep(here: Receiver, chunk: Bytes, pos: nat): (r: Result<(Receiver, nat)>)
    requires here.Valid() && !here.corrupt && pos <= |chunk|
    ensures r.Ok? ==> r.value.0.Valid() && !r.value.0.corrupt
    ensures r.Ok? ==> r.value.1 <= |chunk| - pos && (pos < |chunk| ==> 0 < r.value.1)
  {
    match ReadNetworkMessage(Current(here), chunk, pos)
    case Err(e) => Err(e)
    case Ok(rd) =>
      if rd.rest.hasAllData then
        Ok((Receiver(None, here.delivered + [ResetPosition(rd.rest)], false), rd.consumed))
      else
        Ok((Receiver(Some(rd.rest), here.delivered, false), rd.consumed))
  }

  /** A pass of the chunk loop takes its bytes exactly as the byte-level reference does. */
  lemma LoopStepIsFeed(here: Receiver, chunk: Bytes, pos: nat)
    requires here.Valid() && !here.corrupt && pos <= |chunk|
    ensures var r := LoopStep(here, chunk, pos);
            && (r.Err? ==> FeedBytes(Abstract(here), chunk[pos..]) == Stream([], Frames(here.delivered), true))
            && (r.Ok? ==> Abstract(r.value.0) == FeedBytes(Abstract(here), chunk[pos..pos + r.value.1]))
            && (r.Ok? ==> Extends(here.delivered, r.value.0.delivered))
  {
    match ReadNetworkMessage(Current(here), chunk, pos)
    case Err(e) =>
      StepFails(Current(here), Frames(here.delivered), chunk, pos);
    case Ok(rd) =>
      if rd.rest.hasAllData {
        PassDelivers(here, chunk, pos, rd);
      } else {
        PassKeeps(here, chunk, pos, rd);
      }
  }

  lemma PassDelivers(here: Receiver, chunk: Bytes, pos: nat, rd: Read)
    requires here.Valid() && !here.corrupt && pos <= |chunk|
    requires ReadNetworkMessage(Current(here), chunk, pos) == Ok(rd) && rd.rest.hasAllData
    ensures var next := Receiver(None, here.delivered + [ResetPosition(rd.rest)], false);
            && LoopStep(here, chunk, pos) == Ok((next, rd.consumed))
            && Abstract(next) == FeedBytes(Abstract(here), chunk[pos..pos + rd.consumed])
            && Extends(here.delivered, next.delivered)
  {
    StepTakes(Current(here), Frames(here.delivered), chunk, pos, rd);
    DeliveredContents(rd.rest);
    FramesAppend(here.delivered, ResetPosition(rd.rest));
    assert (here.delivered + [ResetPosition(rd.rest)])[..|here.delivered|] == here.delivered;
  }

  lemma PassKeeps(here: Receiver, chunk: Bytes, pos: nat, rd: Read)
    requires here.Valid() && !here.corrupt && pos <= |chunk|
    requires ReadNetworkMessage(Current(here), chunk, pos) == Ok(rd) && !rd.rest.hasAllData
    ensures var next := Receiver(Some(rd.rest), here.delivered, false);
            && LoopStep(here, chunk, pos) == Ok((next, rd.consumed))
            && Abstract(next) == FeedBytes(Abstract(here), chunk[pos..pos + rd.consumed])
            && Extends(here.delivered, next.delivered)
  {
    StepTakes(Current(here), Frames(here.delivered), chunk, pos, rd);
    assert here.delivered[..|here.delivered|] == here.delivered;
  }

  /** `d'` is `d` with zero or more buffers appended. */
  predicate Extends(d: seq<Buffer>, d': seq<Buffer>)
  {
    |d| <= |d'| && d'[..|d|] == d
  }

  /** The loop state after `pos` bytes of `chunk`: the receiver has taken exactly those bytes. */
  predicate Tracks(rx: Receiver, here: Receiver, chunk: Bytes, pos: nat)
  {
    && rx.Valid() && here.Valid() && !here.corrupt && pos <= |chunk|
    && Abstract(here) == FeedBytes(Abstract(rx), chunk[..pos])
    && Extends(rx.delivered, here.delivered)
  }

  lemma TracksStep(rx: Receiver, here: Receiver, chunk: Bytes, pos: nat, next: Receiver, n: nat)
    requires Tracks(rx, here, chunk, pos)
    requires LoopStep(here, chunk, pos) == Ok((next, n))
    ensures Tracks(rx, next, chunk, pos + n)
  {
    LoopStepIsFeed(here, chunk, pos);
    assert Abstract(next) == FeedBytes(Abstract(here), chunk[pos..pos + n]);
    TracksJoin(rx, here, next, chunk, pos, n);
  }

  /** A pass that took the next `n` bytes extends what the loop has tracked by those bytes. */
  lemma TracksJoin(rx: Receiver, here: Receiver, next: Receiver, chunk: Bytes, pos: nat, n: nat)
    requires Tracks(rx, here, chunk, pos) && next.Valid() && !next.corrupt && pos + n <= |chunk|
    requires Abstract(next) == FeedBytes(Abstract(here), chunk[pos..pos + n])
    requires Extends(here.delivered, next.delivered)
    ensures Tracks(rx, next, chunk, pos + n)
  {
    var a := Abstract(rx);
    FeedBytesConcat(a, chunk[..pos], chunk[pos..pos + n]);
    PrefixJoin(chunk, pos, pos + n);
    ExtendsTrans(rx.delivered, here.delivered, next.delivered);
  }

  lemma ExtendsTrans(d0: seq<Buffer>, d1: seq<Buffer>, d2: seq<Buffer>)
    requires Extends(d0, d1) && Extends(d1, d2)
    ensures Extends(d0, d2)
  {
    assert d2[..|d0|] == d2[..|d1|][..|d0|];
  }

  lemma TracksFail(rx: Receiver, here: Receiver, chunk: Bytes, pos: nat)
    requires Tracks(rx, here, chunk, pos) && LoopStep(here, chunk, pos).Err?
    ensures FeedBytes(Abstract(rx), chunk) == Stream([], Frames(here.delivered), true)
  {
    LoopStepIsFeed(here, chunk, pos);
    FeedBytesConcat(Abstract(rx), chunk[..pos], chunk[pos..]);
    assert chunk[..pos] + chunk[pos..] == chunk;
  }

  /**
   * The chunk loop of `onDataReceived` for one chunk of `nread >= 1` bytes:
   * passes until the chunk is used up, each advancing by the bytes read. A
   * corrupt stream takes no more bytes.
   */
  method ReceiveChunk(rx: Receiver, chunk: Bytes) returns (r: Receiver)
    requires rx.Valid()
    ensures r.Valid()
    ensures Abstract(r) == FeedBytes(Abstract(rx), chunk)
    ensures Extends(rx.delivered, r.delivered)
  {
    if rx.corrupt {
      BadAbsorbs(Abstract(rx), chunk);
      return rx;
    }
    var here := rx;
    var pos := 0;
    assert chunk[..0] == [];
    while pos < |chunk|
      invariant Tracks(rx, here, chunk, pos)
      decreases |chunk| - pos
    {
      var step := LoopStep(here, chunk, pos);
      if step.Err? {
        TracksFail(rx, here, chunk, pos);
        return Receiver(None, here.delivered, true);
      }
      var (next, n) := step.value;
      TracksStep(rx, here, chunk, pos, next, n);
      here, pos := next, pos + n;
    }
    assert chunk[..pos] == chunk;
    return here;
  }

  /** A read of `nread < 1` bytes (an error or EOF) takes nothing; EOF is reported as a disconnect. */
  datatype ReadEvent = Data(chunk: Bytes) | Eof | ReadError

  method OnDataReceived(rx: Receiver, ev: ReadEvent) returns (r: Receiver, disconnected: bool)
    requires rx.Valid()
    ensures r.Valid()
    ensures disconnected <==> ev.Eof?
    ensures !ev.Data? ==> r == rx
    ensures ev.Data? ==> Abstract(r) == FeedBytes(Abstract(rx), ev.chunk)
  {
    match ev
    case Data(chunk) =>
      r := ReceiveChunk(rx, chunk);
      disconnected := false;
    case Eof =>
      r, disconnected := rx, true;
    case ReadError =>
      r, disconnected := rx, false;
  }

  // ---------------------------------------------------------------------------
  // Frames on the wire

  /** A whole frame fed to a stream between frames is appended to the completed frames. */
  lemma FeedWholeFrame(fs: seq<Bytes>, f: Bytes)
    requires Complete(f) && SizeSize <= |f|
    ensures FeedBytes(Stream([], fs, false), f) == Stream([], fs + [f], false)
  {
    FeedFramePrefix(fs, f, |f| - 1);
    var st := Stream(f[..|f| - 1], fs, false);
    assert f[..|f| - 1] + [f[|f| - 1]] == f;
    if |f| == SizeSize {
      assert f[..SizeSize] == f;
    } else {
      assert f[..SizeSize] == (f[..|f| - 1] + [f[|f| - 1]])[..SizeSize];
    }
    FeedBytesConcat(Stream([], fs, false), f[..|f| - 1], [f[|f| - 1]]);
  }

  /** Every proper prefix of a frame is pending and fed without a frame completing. */
  lemma {:induction false} FeedFramePrefix(fs: seq<Bytes>, f: Bytes, k: nat)
    requires Complete(f) && SizeSize <= |f| && k < |f|
    decreases k
    ensures FeedBytes(Stream([], fs, false), f[..k]) == Stream(f[..k], fs, false)
  {
    if k == 0 {
      assert f[..0] == [];
    } else {
      FeedFramePrefix(fs, f, k - 1);
      var g := f[..k - 1];
      assert f[..k] == g + [f[k - 1]];
      if SizeSize <= k {
        assert f[..k][..SizeSize] == f[..SizeSize];
      }
      assert Feed(g, f[k - 1]) == Partial(f[..k]);
      FeedBytesConcat(Stream([], fs, false), g, [f[k - 1]]);
    }
  }

  lemma FlattenAppend(fs: seq<Bytes>, f: Bytes)
    ensures Flatten(fs + [f]) == Flatten(fs) + f
    decreases |fs|
  {
    if fs != [] {
      assert (fs + [f])[1..] == fs[1..] + [f];
      FlattenAppend(fs[1..], f);
    }
  }

  /** Frames sent back to back arrive as exactly those frames, in order. */
  lemma {:induction false} FeedWholeFrames(fs: seq<Bytes>, sent: seq<Bytes>)
    requires forall i :: 0 <= i < |sent| ==> Complete(sent[i])
    decreases |sent|
    ensures FeedBytes(Stream([], fs, false), Flatten(sent)) == Stream([], fs + sent, false)
  {
    if sent != [] {
      FeedWholeFrame(fs, sent[0]);
      FeedBytesConcat(Stream([], fs, false), sent[0], Flatten(sent[1..]));
      FeedWholeFrames(fs + [sent[0]], sent[1..]);
      assert fs + [sent[0]] + sent[1..] == fs + sent;
    }
  }

  /** The bytes `getBuffer` hands to the socket for a buffer holding data form one complete frame. */
  lemma FrameBytesComplete(b: Buffer)
    requires b.Valid() && SizeSize <= b.dataSize <= Int32Max
    ensures Complete(FrameBytes(b))
  {
    FrameLayout(b);
    var f := FrameBytes(b);
    assert f[..SizeSize] == LE32(b.dataSize);
    LE32RoundTrip(b.dataSize);
  }

  // ---------------------------------------------------------------------------
  // Chunking does not matter

  /** A stream read as several chunks, one call each. */
  method ReceiveChunks(rx: Receiver, chunks: seq<Bytes>) returns (r: Receiver)
    requires rx.Valid()
    ensures r.Valid()
    ensures Abstract(r) == FeedBytes(Abstract(rx), Flatten(chunks))
  {
    r := rx;
    var i := 0;
    while i < |chunks|
      invariant i <= |chunks|
      invariant r.Valid()
      invariant Abstract(r) == FeedBytes(Abstract(rx), Flatten(chunks[..i]))
    {
      var before := r;
      r := ReceiveChunk(r, chunks[i]);
      FeedBytesConcat(Abstract(rx), Flatten(chunks[..i]), chunks[i]);
      assert chunks[..i + 1] == chunks[..i] + [chunks[i]];
      FlattenAppend(chunks[..i], chunks[i]);
      i := i + 1;
    }
    assert chunks[..i] == chunks;
  }

  /**
   * Frames sent back to back and received from a fresh socket, however the
   * bytes are split into chunks, are delivered exactly, in order, with
   * nothing left pending.
   */
  lemma SentFramesArrive(sent: seq<Bytes>, chunks: seq<Bytes>)
    requires forall i :: 0 <= i < |sent| ==> Complete(sent[i])
    requires Flatten(chunks) == Flatten(sent)
    ensures FeedBytes(Abstract(NewReceiver()), Flatten(chunks)) == Stream([], sent, false)
  {
    assert Abstract(NewReceiver()) == Stream([], [], false);
    FeedWholeFrames([], sent);
    assert [] + sent == sent;
  }
}
