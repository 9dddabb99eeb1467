/**
 * Flushes marshalled to an event loop. `Socket::write` queues its buffer and
 * then marshals a `processQueuedWrites` event with `marshallUniqueEvent`, so
 * that several writes before the loop runs produce one flush. The loop's
 * `processMarshalledEvents` drains the event queue and runs the events in
 * order.
 *
 * The unique key in the source is the single `SOCKET_QUEUE_WRITE` value,
 * shared by every socket on the loop; the model keeps that choice
 * (`PerLoop`) next to a key per socket (`PerSocket`). Only flush events are
 * modelled; all sockets here belong to the one loop.
 */
module Loops {
  import opened Base
  import opened Consumable
  import opened Sockets

  /** `UVLoop::UniqueEventKey`, with the per-socket variant added. */
  datatype Key = SocketQueueWrite | SocketQueueWriteOf(socket: nat)

  datatype Keying = PerLoop | PerSocket

  function FlushKey(k: Keying, id: nat): (r: Key)
    ensures k.PerSocket? ==> r.SocketQueueWriteOf? && r.socket == id
  {
    match k
    case PerLoop => SocketQueueWrite
    case PerSocket => SocketQueueWriteOf(id)
  }

  /** The loop's sockets (by index) and its marshalled events: each the index of a socket to flush. */
  datatype Loop = Loop(sockets: seq<Socket>, events: Vector<Key, nat>)

  /** `write` on socket `id`: queue the buffer, then marshal its flush under the key. */
  function SocketWrite(k: Keying, l: Loop, id: nat, b: ValidBuffer): (r: Loop)
    requires id < |l.sockets|
    ensures |r.sockets| == |l.sockets|
    ensures r.sockets[id] == Write(l.sockets[id], b)
    ensures forall i :: 0 <= i < |l.sockets| && i != id ==> r.sockets[i] == l.sockets[i]
    ensures r.events == AddUnique(l.events, FlushKey(k, id), id).0
  {
    Loop(l.sockets[id := Write(l.sockets[id], b)], AddUnique(l.events, FlushKey(k, id), id).0)
  }

  /** Socket `id` connects on this loop (a connect, an accept or a completed move) and flushes at once. */
  function SocketConnected(l: Loop, id: nat): (r: Loop)
    requires id < |l.sockets|
    ensures |r.sockets| == |l.sockets| && r.events == l.events
    ensures r.sockets[id].connected && r.sockets[id].queue.items == []
    ensures forall i :: 0 <= i < |l.sockets| && i != id ==> r.sockets[i] == l.sockets[i]
  {
    l.(sockets := l.sockets[id := OnSocketConnected(l.sockets[id])])
  }

  /** Socket `id` starts moving away: until it is registered elsewhere, its writes are only queued. */
  function SocketMoving(l: Loop, id: nat): (r: Loop)
    requires id < |l.sockets|
    ensures |r.sockets| == |l.sockets| && r.events == l.events
    ensures !r.sockets[id].connected && r.sockets[id].queue == l.sockets[id].queue
    ensures forall i :: 0 <= i < |l.sockets| && i != id ==> r.sockets[i] == l.sockets[i]
  {
    l.(sockets := l.sockets[id := MoveToLoop(l.sockets[id])])
  }

  /** Runs the flush events in order: `processQueuedWrites` on each socket named. */
  function FlushAll(socks: seq<Socket>, ids: seq<nat>): (r: seq<Socket>)
    decreases |ids|
    ensures |r| == |socks|
  {
    if ids == [] then socks
    else if ids[0] < |socks| then
      FlushAll(socks[ids[0] := ProcessQueuedWrites(socks[ids[0]])], ids[1..])
    else FlushAll(socks, ids[1..])
  }

  /** `processMarshalledEvents`: take every pending event, clearing the keys, and run them. */
  function Drain(l: Loop): (r: Loop)
    ensures r.events == Empty() && |r.sockets| == |l.sockets|
  {
    var (ids, rest) := GetItems(l.events);
    Loop(FlushAll(l.sockets, ids), rest)
  }

  /**
   * After the flushes, a socket named in them is empty if connected, every
   * socket keeps its connection state and its bytes owed, and a socket not
   * named is untouched.
   */
  lemma {:induction false} FlushAllEffect(socks: seq<Socket>, ids: seq<nat>, i: nat)
    requires i < |socks|
    decreases |ids|
    ensures FlushAll(socks, ids)[i].connected == socks[i].connected
    ensures Outgoing(FlushAll(socks, ids)[i]) == Outgoing(socks[i])
    ensures i in ids && socks[i].connected ==> FlushAll(socks, ids)[i].queue.items == []
    ensures i !in ids ==> FlushAll(socks, ids)[i] == socks[i]
  {
    if ids != [] {
      if ids[0] < |socks| {
        var next := socks[ids[0] := ProcessQueuedWrites(socks[ids[0]])];
        FlushAllEffect(next, ids[1..], i);
        if i == ids[0] && socks[i].connected {
          FlushEmptyStays(next, ids[1..], i);
        }
      } else {
        FlushAllEffect(socks, ids[1..], i);
      }
    }
  }

  /** A connected socket with nothing queued stays so through any flushes. */
  lemma {:induction false} FlushEmptyStays(socks: seq<Socket>, ids: seq<nat>, i: nat)
    requires i < |socks| && socks[i].connected && socks[i].queue.items == []
    decreases |ids|
    ensures FlushAll(socks, ids)[i].queue.items == []
  {
    if ids != [] {
      if ids[0] < |socks| {
        FlushEmptyStays(socks[ids[0] := ProcessQueuedWrites(socks[ids[0]])], ids[1..], i);
      } else {
        FlushEmptyStays(socks, ids[1..], i);
      }
    }
  }

  // ---------------------------------------------------------------------------
  // Every pending write has a flush scheduled

  /** A connected socket with queued writes has a flush event pending. */
  predicate Scheduled(l: Loop)
  {
    forall i :: 0 <= i < |l.sockets| && l.sockets[i].connected && l.sockets[i].queue.items != []
      ==> i in l.events.items
  }

  /** A socket's key is registered only while its flush event is pending. */
  predicate KeysPending(l: Loop)
  {
    forall i :: 0 <= i < |l.sockets| && SocketQueueWriteOf(i) in l.events.keys ==> i in l.events.items
  }

  predicate Good(l: Loop)
  {
    Scheduled(l) && KeysPending(l)
  }

  /** A loop with no events, whose connected sockets have nothing queued. */
  lemma StartGood(socks: seq<Socket>)
    requires forall i :: 0 <= i < |socks| && socks[i].connected ==> socks[i].queue.items == []
    ensures Good(Loop(socks, Empty()))
  {
  }

  /** With a key per socket, a write always leaves its socket's flush pending. */
  lemma WriteKeepsGood(l: Loop, id: nat, b: ValidBuffer)
    requires id < |l.sockets| && Good(l)
    ensures Good(SocketWrite(PerSocket, l, id, b))
  {
    var r := SocketWrite(PerSocket, l, id, b);
    var key := SocketQueueWriteOf(id);
    if key in l.events.keys {
      assert id in l.events.items;
    } else {
      assert r.events.items == l.events.items + [id];
      assert r.events.items[|l.events.items|] == id;
    }
    assert id in r.events.items;
    forall i | 0 <= i < |r.sockets| && SocketQueueWriteOf(i) in r.events.keys
      ensures i in r.events.items
    {
      if i != id {
        assert SocketQueueWriteOf(i) in l.events.keys;
        assert forall x :: x in l.events.items ==> x in r.events.items;
      }
    }
  }

  lemma ConnectKeepsGood(l: Loop, id: nat)
    requires id < |l.sockets| && Good(l)
    ensures Good(SocketConnected(l, id))
  {
  }

  lemma MovingKeepsGood(l: Loop, id: nat)
    requires id < |l.sockets| && Good(l)
    ensures Good(SocketMoving(l, id))
  {
  }

  /**
   * With a key per socket, after the loop drains its events no connected
   * socket has anything queued, and no socket's bytes owed have changed.
   */
  lemma DrainFlushesAll(l: Loop)
    requires Good(l)
    ensures Good(Drain(l))
    ensures forall i :: 0 <= i < |l.sockets| && l.sockets[i].connected ==>
      Drain(l).sockets[i].queue.items == []
    ensures forall i :: 0 <= i < |l.sockets| ==>
      Outgoing(Drain(l).sockets[i]) == Outgoing(l.sockets[i])
  {
    forall i | 0 <= i < |l.sockets|
      ensures Drain(l).sockets[i].connected == l.sockets[i].connected
      ensures Outgoing(Drain(l).sockets[i]) == Outgoing(l.sockets[i])
      ensures l.sockets[i].connected ==> Drain(l).sockets[i].queue.items == []
    {
      FlushAllEffect(l.sockets, l.events.items, i);
    }
  }

  // ---------------------------------------------------------------------------
  // The shared key strands a write

  /**
   * With the single loop-wide key, two connected sockets that each write once
   * before the loop runs: the second write registers no flush, so after the
   * drain the second socket still holds its buffer, and nothing on the loop
   * will send it until that socket writes again.
   */
  lemma SharedKeyStrandsWrite(s0: Socket, s1: Socket, b0: ValidBuffer, b1: ValidBuffer)
    requires s0.connected && s1.connected && s0.queue.items == [] && s1.queue.items == []
    ensures var l := Loop([s0, s1], Empty());
      var r := Drain(SocketWrite(PerLoop, SocketWrite(PerLoop, l, 0, b0), 1, b1));
      r.sockets[1].connected && r.sockets[1].queue.items == [b1]
  {
    var l := Loop([s0, s1], Empty());
    var w0 := SocketWrite(PerLoop, l, 0, b0);
    assert w0.events.items == [0] && w0.events.keys == {SocketQueueWrite};
    var w1 := SocketWrite(PerLoop, w0, 1, b1);
    assert w1.events == w0.events;
    assert w1.sockets[1].queue.items == [b1];
    FlushAllEffect(w1.sockets, [0], 1);
  }

  /** The same writes with a key per socket: both sockets are flushed by the drain. */
  lemma PerSocketKeyFlushesBoth(s0: Socket, s1: Socket, b0: ValidBuffer, b1: ValidBuffer)
    requires s0.connected && s1.connected && s0.queue.items == [] && s1.queue.items == []
    ensures var l := Loop([s0, s1], Empty());
      var r := Drain(SocketWrite(PerSocket, SocketWrite(PerSocket, l, 0, b0), 1, b1));
      r.sockets[0].queue.items == [] && r.sockets[1].queue.items == []
  {
    var l := Loop([s0, s1], Empty());
    StartGood([s0, s1]);
    WriteKeepsGood(l, 0, b0);
    var w0 := SocketWrite(PerSocket, l, 0, b0);
    WriteKeepsGood(w0, 1, b1);
    DrainFlushesAll(SocketWrite(PerSocket, w0, 1, b1));
  }
}
