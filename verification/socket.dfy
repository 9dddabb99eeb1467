/**
 * The send side of a socket: `write` queues a buffer, and
 * `processQueuedWrites` coalesces everything queued into one network write,
 * but only while the socket is connected. Moving a socket to another loop
 * marks it disconnected until the duplicated handle is registered, so writes
 * made in between wait in the queue.
 *
 * The bytes handed to `uv_write` are recorded in `sent`, one entry per call.
 * The loop a flush is marshalled to is modelled separately (module Loops).
 */
module Sockets {
  import opened Base
  import opened Buffers
  import opened Consumable
  import opened Framing
  import Receive

  /** The buffers a socket queues: shared buffers whose `getBuffer` is defined. */
  type ValidBuffer = b: Buffer | b.Valid() witness Buffer([], SizeSize, 0, [], false)

  /**
   * `loop` identifies `m_pUVLoop`; `queue` is `m_queuedWrites` (plain adds
   * only, so its key set stays empty); `sent` lists the buffers passed to
   * `uv_write`, oldest first.
   */
  datatype Socket = Socket(loop: nat, connected: bool, queue: Vector<int, ValidBuffer>, sent: seq<Bytes>)

  /** The frames a list of buffers puts on the wire: `getBufferSize()` bytes of each `getBuffer()`. */
  function Frames(bs: seq<ValidBuffer>): (r: seq<Bytes>)
    ensures |r| == |bs|
  {
    seq(|bs|, i requires 0 <= i < |bs| => FrameBytes(bs[i]))
  }

  function Payload(bs: seq<ValidBuffer>): Bytes
  {
    Flatten(Frames(bs))
  }

  /** Sum of `getBufferSize()` over the buffers: the `totalSize` of a coalesced write. */
  function TotalSize(bs: seq<ValidBuffer>): nat
    decreases |bs|
  {
    if bs == [] then 0 else bs[0].dataSize + TotalSize(bs[1..])
  }

  /** Everything handed to the network so far. */
  function Wire(s: Socket): Bytes
  {
    Flatten(s.sent)
  }

  /** Everything the socket has been asked to send: handed over already, then still queued. */
  function Outgoing(s: Socket): Bytes
  {
    Wire(s) + Payload(s.queue.items)
  }

  lemma PayloadConcat(a: seq<ValidBuffer>, b: seq<ValidBuffer>)
    ensures Payload(a + b) == Payload(a) + Payload(b)
  {
    assert Frames(a + b) == Frames(a) + Frames(b);
    FlattenConcat(Frames(a), Frames(b));
  }

  lemma PayloadOne(b: ValidBuffer)
    ensures Payload([b]) == FrameBytes(b)
  {
    assert Frames([b]) == [FrameBytes(b)];
    assert Flatten([FrameBytes(b)]) == FrameBytes(b) + Flatten([]);
  }

  lemma PayloadEmpty()
    ensures Payload([]) == []
  {
    assert Frames([]) == [];
  }

  lemma {:induction false} PayloadSize(bs: seq<ValidBuffer>)
    decreases |bs|
    ensures |Payload(bs)| == TotalSize(bs)
  {
    if bs != [] {
      assert Frames(bs) == [FrameBytes(bs[0])] + Frames(bs[1..]);
      FlattenConcat([FrameBytes(bs[0])], Frames(bs[1..]));
      assert Flatten([FrameBytes(bs[0])]) == FrameBytes(bs[0]);
      PayloadSize(bs[1..]);
    }
  }

  // ---------------------------------------------------------------------------
  // Operations

  /** The constructor: attached to a loop, not connected, nothing queued. */
  function NewSocket(loop: nat): (s: Socket)
    ensures !s.connected && s.loop == loop
    ensures Outgoing(s) == []
  {
    Socket(loop, false, Empty(), [])
  }

  /** `write`: the buffer's frame is added after everything asked for before; nothing is sent yet. */
  function Write(s: Socket, b: ValidBuffer): (r: Socket)
    ensures Outgoing(r) == Outgoing(s) + FrameBytes(b)
    ensures r.sent == s.sent && r.connected == s.connected && r.loop == s.loop
  {
    var r := s.(queue := Add(s.queue, b));
    PayloadConcat(s.queue.items, [b]);
    PayloadOne(b);
    r
  }

  /**
   * `processQueuedWrites`: a disconnected socket does nothing; a connected one
   * drains the queue into a single write of `totalSize` bytes. Either way the
   * bytes still to be delivered, and their order, are unchanged.
   */
  function ProcessQueuedWrites(s: Socket): (r: Socket)
    ensures Outgoing(r) == Outgoing(s)
    ensures !s.connected ==> r == s
    ensures s.connected ==> r.queue.items == [] && |r.sent| == |s.sent| + 1
    ensures s.connected ==> |r.sent[|s.sent|]| == TotalSize(s.queue.items)
    ensures r.connected == s.connected && r.loop == s.loop
  {
    if !s.connected then s
    else
      var (items, q) := GetItems(s.queue);
      var r := s.(queue := q, sent := s.sent + [Payload(items)]);
      Receive.FlattenAppend(s.sent, Payload(items));
      PayloadSize(items);
      r
  }

  /** `onSocketConnected`: the socket becomes connected and flushes what was queued meanwhile. */
  function OnSocketConnected(s: Socket): (r: Socket)
    ensures r.connected && r.queue.items == [] && r.loop == s.loop
    ensures Outgoing(r) == Outgoing(s)
  {
    ProcessQueuedWrites(s.(connected := true))
  }

  /** `moveToLoop`: from here until registration on the new loop, writes are only queued. */
  function MoveToLoop(s: Socket): (r: Socket)
    ensures !r.connected && r.queue == s.queue && r.sent == s.sent && r.loop == s.loop
  {
    s.(connected := false)
  }

  /**
   * `moveToLoop_registerDuplicatedSocket`: the socket switches to the new loop;
   * when `uv_tcp_open` succeeds (`tcpOpened`) it reconnects and flushes,
   * otherwise it stays disconnected with its queue intact.
   */
  function RegisterDuplicated(s: Socket, loop: nat, tcpOpened: bool): (r: Socket)
    ensures r.loop == loop && r.connected == (tcpOpened || s.connected)
    ensures Outgoing(r) == Outgoing(s)
    ensures tcpOpened ==> r.queue.items == []
    ensures !tcpOpened ==> r.queue == s.queue && r.sent == s.sent
  {
    var moved := s.(loop := loop);
    if tcpOpened then OnSocketConnected(moved) else moved
  }

  // ---------------------------------------------------------------------------
  // Sequences of operations

  datatype Op =
    | WriteOp(b: ValidBuffer)
    | FlushOp
    | ConnectOp
    | MoveOp
    | RegisterOp(loop: nat, tcpOpened: bool)

  function Step(s: Socket, op: Op): Socket
  {
    match op
    case WriteOp(b) => Write(s, b)
    case FlushOp => ProcessQueuedWrites(s)
    case ConnectOp => OnSocketConnected(s)
    case MoveOp => MoveToLoop(s)
    case RegisterOp(loop, tcpOpened) => RegisterDuplicated(s, loop, tcpOpened)
  }

  function Run(s: Socket, ops: seq<Op>): Socket
    decreases |ops|
  {
    if ops == [] then s else Run(Step(s, ops[0]), ops[1..])
  }

  /** The buffer an operation writes, if any. */
  function WrittenBy(op: Op): seq<ValidBuffer>
  {
    if op.WriteOp? then [op.b] else []
  }

  /** The buffers written by a sequence of operations, in order. */
  function Written(ops: seq<Op>): seq<ValidBuffer>
    decreases |ops|
  {
    if ops == [] then [] else WrittenBy(ops[0]) + Written(ops[1..])
  }

  /** One operation adds to what is owed exactly the frame it writes. */
  lemma StepKeepsOutgoing(s: Socket, op: Op)
    ensures Outgoing(Step(s, op)) == Outgoing(s) + Payload(WrittenBy(op))
  {
    if op.WriteOp? {
      PayloadOne(op.b);
    } else {
      assert Frames([]) == [];
    }
  }

  lemma {:induction false} RunConcat(s: Socket, a: seq<Op>, b: seq<Op>)
    decreases |a|
    ensures Run(s, a + b) == Run(Run(s, a), b)
  {
    if a == [] {
      assert a + b == b;
    } else {
      assert (a + b)[0] == a[0] && (a + b)[1..] == a[1..] + b;
      RunConcat(Step(s, a[0]), a[1..], b);
    }
  }

  /**
   * Whatever the interleaving of writes, flushes, moves and reconnections,
   * no write is lost or reordered: the bytes still owed are those owed before
   * followed by the frames written, in order.
   */
  lemma {:induction false} RunKeepsOutgoing(s: Socket, ops: seq<Op>)
    decreases |ops|
    ensures Outgoing(Run(s, ops)) == Outgoing(s) + Payload(Written(ops))
  {
    if ops == [] {
      PayloadEmpty();
    } else {
      var s1, w, rest := Step(s, ops[0]), WrittenBy(ops[0]), Written(ops[1..]);
      assert Run(s, ops) == Run(s1, ops[1..]);
      assert Written(ops) == w + rest;
      StepKeepsOutgoing(s, ops[0]);
      RunKeepsOutgoing(s1, ops[1..]);
      PayloadConcat(w, rest);
      var o, o1, pw, pr := Outgoing(s), Outgoing(s1), Payload(w), Payload(rest);
      assert o1 == o + pw;
      assert Outgoing(Run(s, ops)) == o1 + pr;
      assert Payload(Written(ops)) == pw + pr;
      ConcatAssoc(o, pw, pr);
    }
  }

  /**
   * A socket moved to another loop while writes continue: once the duplicated
   * handle is registered, everything written before and during the move has
   * been handed to the network, in write order.
   */
  lemma MoveThenRegisterSendsAll(s: Socket, writes: seq<Op>, loop: nat)
    requires s.queue.items == []
    ensures var r := Run(s, [MoveOp] + writes + [RegisterOp(loop, true)]);
      r.connected && r.loop == loop && r.queue.items == []
      && Wire(r) == Wire(s) + Payload(Written(writes))
  {
    var ops := [MoveOp] + writes + [RegisterOp(loop, true)];
    var m := MoveToLoop(s);
    var before := Run(m, writes);
    var r := RegisterDuplicated(before, loop, true);
    assert ops[0] == MoveOp && ops[1..] == writes + [RegisterOp(loop, true)];
    assert Run(s, ops) == Run(m, writes + [RegisterOp(loop, true)]);
    RunConcat(m, writes, [RegisterOp(loop, true)]);
    assert Run(before, [RegisterOp(loop, true)]) == Run(r, []);
    RunKeepsOutgoing(m, writes);
    PayloadEmpty();
    assert Run(s, ops) == r;
    assert Outgoing(m) == Wire(s) + [] == Wire(s);
    assert Outgoing(r) == Wire(r) + [] == Wire(r);
  }

  // ---------------------------------------------------------------------------
  // From sender to receiver

  /** Every buffer holds a length prefix and fits the signed 32-bit frame length. */
  predicate HoldData(bs: seq<ValidBuffer>)
  {
    forall i :: 0 <= i < |bs| ==> SizeSize <= bs[i].dataSize <= Int32Max
  }

  lemma FramesComplete(bs: seq<ValidBuffer>)
    requires HoldData(bs)
    ensures forall i :: 0 <= i < |bs| ==> Complete(Frames(bs)[i])
  {
    forall i | 0 <= i < |bs|
      ensures Complete(Frames(bs)[i])
    {
      Receive.FrameBytesComplete(bs[i]);
    }
  }

  /**
   * End to end: the bytes a fresh socket hands to the network, however the
   * peer's reads split them, are delivered by a fresh receiving socket as
   * exactly the frames written, in order.
   */
  lemma SentArrives(loop: nat, ops: seq<Op>, chunks: seq<Bytes>)
    requires HoldData(Written(ops))
    requires Flatten(chunks) == Wire(Run(NewSocket(loop), ops))
    requires Run(NewSocket(loop), ops).queue.items == []
    ensures Receive.FeedBytes(Receive.Abstract(Receive.NewReceiver()), Flatten(chunks))
      == Receive.Stream([], Frames(Written(ops)), false)
  {
    var s0 := NewSocket(loop);
    var r := Run(s0, ops);
    var fs := Frames(Written(ops));
    RunKeepsOutgoing(s0, ops);
    PayloadEmpty();
    assert Outgoing(r) == Wire(r) + [] == Wire(r);
    assert Outgoing(s0) == [];
    assert Flatten(chunks) == Flatten(fs);
    FramesComplete(Written(ops));
    Receive.SentFramesArrive(fs, chunks);
  }

}
