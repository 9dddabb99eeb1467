/**
 * The client end of a connection to the gateway (`ConnectionImpl`) and the
 * subscription objects it hands out (`Subscription`). Every network message
 * the connection sends is appended to `out`, in order; `Sending` states what
 * each one puts on the socket.
 */
module Connections {
  import opened Base
  import opened Wire
  import opened Values
  import opened NetworkMessages
  import Sockets

  /** Client callbacks are opaque here; a subscription only carries one. */
  type Callback = nat

  /**
   * A `Subscription`: the connection it points back to (by its `ref`; none
   * once reset), its ID and its callback.
   */
  datatype Subscription = Subscription(connection: Option<nat>, id: UInt32, callback: Callback)

  /**
   * `ConnectionImpl`: `ref` identifies it to its subscriptions, `nextId` is
   * `m_nextSubscriptionID` (taken to be an unsigned 32-bit counter),
   * `subscriptions` is `m_subscriptions` (taken to be a map ordered by ID),
   * `acked` is the state of `m_ackSignal`. Neither member's declaration is in
   * the source's `ConnectionImpl.h`.
   */
  datatype Connection = Connection(
    ref: nat,
    service: Bytes,
    nextId: UInt32,
    subscriptions: map<UInt32, Subscription>,
    out: seq<NetworkMessage>,
    acked: bool)

  /** A network message without payload whose header has the given action, ID and subject. */
  function Request(action: Int8, id: UInt32, subject: Bytes): NetworkMessage
  {
    NetworkMessage(NewHeader().(subscriptionId := id, subject := subject, action := action), None)
  }

  function Send(c: Connection, n: NetworkMessage): Connection
  {
    c.(out := c.out + [n])
  }

  // ---------------------------------------------------------------------------
  // Incoming data and the handshake

  /** The buffer's header reads, and its action is ACK. */
  predicate IsAck(b: Sockets.ValidBuffer)
  {
    var d := DeserializeHeader(b, NewNetworkMessage());
    d.Ok? && d.value.value.header.action == Ack
  }

  /** `onAck`: the handshake signal is set. */
  function OnAck(c: Connection): (r: Connection)
    ensures r.acked && r.(acked := c.acked) == c
  {
    c.(acked := true)
  }

  /**
   * `onDataReceived`: only the header is read; an ACK sets the signal, any
   * other action is ignored, and a header that cannot be read is logged and
   * ignored.
   */
  function OnDataReceived(c: Connection, b: Sockets.ValidBuffer): (r: Connection)
    ensures r.acked <==> c.acked || IsAck(b)
    ensures r.(acked := c.acked) == c
  {
    match DeserializeHeader(b, NewNetworkMessage())
    case Err(_) => c
    case Ok(d) => if d.value.header.action == Ack then OnAck(c) else c
  }

  /** The buffers delivered, in order. */
  function ReceiveAll(c: Connection, bs: seq<Sockets.ValidBuffer>): Connection
    decreases |bs|
  {
    if bs == [] then c else ReceiveAll(OnDataReceived(c, bs[0]), bs[1..])
  }

  /** Delivering buffers changes only the signal, which ends up set exactly when it was or one of them is an ACK. */
  lemma {:induction false} ReceiveAllAcks(c: Connection, bs: seq<Sockets.ValidBuffer>)
    decreases |bs|
    ensures ReceiveAll(c, bs).acked <==> c.acked || exists i :: 0 <= i < |bs| && IsAck(bs[i])
    ensures ReceiveAll(c, bs).(acked := c.acked) == c
  {
    if bs != [] {
      var c1 := OnDataReceived(c, bs[0]);
      ReceiveAllAcks(c1, bs[1..]);
      if exists i :: 0 <= i < |bs[1..]| && IsAck(bs[1..][i]) {
        var i :| 0 <= i < |bs[1..]| && IsAck(bs[1..][i]);
        assert IsAck(bs[i + 1]);
      }
      if exists i :: 0 <= i < |bs| && IsAck(bs[i]) {
        var i :| 0 <= i < |bs| && IsAck(bs[i]);
        if i > 0 {
          assert IsAck(bs[1..][i - 1]);
        }
      }
    }
  }

  /** The CONNECT the constructor sends: its subject is the service. */
  function ConnectMessage(service: Bytes): NetworkMessage
  {
    Request(Connect, 0, service)
  }

  /**
   * The constructor: a connection with IDs from 0 and no subscriptions
   * sends CONNECT for its service and waits for the ACK. `replies` are the
   * buffers the socket delivers before the wait gives up (after 30 seconds
   * in the source); a successful wait resets the signal.
   */
  function Open(ref: nat, service: Bytes, replies: seq<Sockets.ValidBuffer>): (r: Result<Connection>)
    ensures r.Ok? <==> exists i :: 0 <= i < |replies| && IsAck(replies[i])
    ensures r.Err? ==> r.error == AckTimeout
    ensures r.Ok? ==> && r.value.ref == ref && r.value.service == service
                      && r.value.nextId == 0 && r.value.subscriptions == map[] && !r.value.acked
                      && |r.value.out| == 1 && r.value.out[0].message.None?
                      && r.value.out[0].header == NewHeader().(action := Connect, subject := service)
  {
    var sent := Connection(ref, service, 0, map[], [ConnectMessage(service)], false);
    var heard := ReceiveAll(sent, replies);
    ReceiveAllAcks(sent, replies);
    if heard.acked then Ok(heard.(acked := false)) else Err(AckTimeout)
  }

  // ---------------------------------------------------------------------------
  // Sending, subscribing, unsubscribing

  /** `sendMessage`: SEND_MESSAGE to the subject, carrying the payload. */
  function SendMessageTo(c: Connection, subject: Bytes, m: Message): (r: Connection)
    ensures |r.out| == |c.out| + 1 && r.out[..|c.out|] == c.out
    ensures Payload(r.out[|c.out|]) == m
    ensures r.out[|c.out|].header == NewHeader().(action := SendMessage, subject := subject)
    ensures r.(out := c.out) == c
  {
    Send(c, NetworkMessages.SetMessage(NetworkMessage(NewHeader().(action := SendMessage, subject := subject), None), m))
  }

  /**
   * `subscribe`: the subscription takes the next ID and points back to this
   * connection; it is recorded under its ID unless that ID is taken
   * (`std::map::insert` does not overwrite), and SUBSCRIBE is sent with the
   * ID and the subject. The counter wraps at 2^32.
   */
  function SubscribeTo(c: Connection, subject: Bytes, cb: Callback): (r: (Connection, Subscription))
    ensures r.1 == Subscription(Some(c.ref), c.nextId, cb)
    ensures r.0.nextId == (c.nextId + 1) % Two32
    ensures c.nextId !in c.subscriptions ==> r.0.subscriptions == c.subscriptions[c.nextId := r.1]
    ensures c.nextId in c.subscriptions ==> r.0.subscriptions == c.subscriptions
    ensures |r.0.out| == |c.out| + 1 && r.0.out[..|c.out|] == c.out
    ensures r.0.out[|c.out|] == Request(Subscribe, c.nextId, subject)
    ensures r.0.ref == c.ref && r.0.service == c.service && r.0.acked == c.acked
  {
    var s := Subscription(Some(c.ref), c.nextId, cb);
    var subs := if c.nextId in c.subscriptions then c.subscriptions else c.subscriptions[c.nextId := s];
    var r := Send(c.(nextId := (c.nextId + 1) % Two32, subscriptions := subs), Request(Subscribe, c.nextId, subject));
    (r, s)
  }

  /** `unsubscribe`: UNSUBSCRIBE with the ID is always sent; the entry goes only when asked. */
  function UnsubscribeId(c: Connection, id: UInt32, remove: bool): (r: Connection)
    ensures |r.out| == |c.out| + 1 && r.out[..|c.out|] == c.out
    ensures r.out[|c.out|] == Request(Unsubscribe, id, [])
    ensures remove ==> r.subscriptions.Keys == c.subscriptions.Keys - {id}
    ensures !remove ==> r.subscriptions == c.subscriptions
    ensures forall k :: k in r.subscriptions ==> r.subscriptions[k] == c.subscriptions[k]
    ensures r.(out := c.out, subscriptions := c.subscriptions) == c
  {
    var r := Send(c, Request(Unsubscribe, id, []));
    if remove then r.(subscriptions := r.subscriptions - {id}) else r
  }

  /** `resetConnection`: the back-reference is cleared; ID and callback stay. */
  function ResetConnection(s: Subscription): (r: Subscription)
    ensures r.connection.None? && r.id == s.id && r.callback == s.callback
  {
    s.(connection := None)
  }

  /**
   * The subscription's destructor: a subscription still pointing at its
   * connection unsubscribes and removes itself; a reset one does nothing.
   * The connection passed is the one the back-reference points at.
   */
  function Release(s: Subscription, c: Connection): (r: Connection)
    requires s.connection.Some? ==> s.connection.value == c.ref
    ensures s.connection.None? ==> r == c
    ensures s.connection.Some? ==> r == UnsubscribeId(c, s.id, true)
  {
    if s.connection.Some? then UnsubscribeId(c, s.id, true) else c
  }

  // ---------------------------------------------------------------------------
  // Closing

  /**
   * The IDs of `subs` from `lo` up, in ascending order: the order a
   * `std::map<uint32_t, …>` is walked in. The container's declaration is not
   * in the source's `ConnectionImpl.h`; the map type is an assumption (README).
   */
  function IdsFrom(subs: map<UInt32, Subscription>, lo: nat): seq<UInt32>
    decreases Two32 - lo
  {
    if lo >= Two32 then [] else (if lo in subs then [lo] else []) + IdsFrom(subs, lo + 1)
  }

  /** The walk visits exactly the IDs from `lo` up, each once, in strictly ascending order. */
  lemma {:induction false} IdsFromAscending(subs: map<UInt32, Subscription>, lo: nat)
    decreases Two32 - lo
    ensures forall k: int :: k in IdsFrom(subs, lo) <==> lo <= k && k in subs
    ensures forall i, j :: 0 <= i < j < |IdsFrom(subs, lo)| ==> IdsFrom(subs, lo)[i] < IdsFrom(subs, lo)[j]
  {
    if lo < Two32 {
      IdsFromAscending(subs, lo + 1);
      var rest := IdsFrom(subs, lo + 1);
      if lo in subs {
        assert IdsFrom(subs, lo) == [lo] + rest;
        forall i, j | 0 <= i < j < |IdsFrom(subs, lo)|
          ensures IdsFrom(subs, lo)[i] < IdsFrom(subs, lo)[j]
        {
          if i == 0 {
            assert IdsFrom(subs, lo)[j] == rest[j - 1] && rest[j - 1] in rest;
          } else {
            assert IdsFrom(subs, lo)[i] == rest[i - 1] && IdsFrom(subs, lo)[j] == rest[j - 1];
          }
        }
      } else {
        assert IdsFrom(subs, lo) == [] + rest;
      }
    }
  }

  /** Unsubscribing from each ID in turn, keeping the entries (the destructor's loop). */
  function UnsubscribeEach(c: Connection, ids: seq<UInt32>): Connection
    decreases |ids|
  {
    if ids == [] then c else UnsubscribeEach(UnsubscribeId(c, ids[0], false), ids[1..])
  }

  /** The loop sends one UNSUBSCRIBE per ID, in order, and changes nothing else. */
  lemma {:induction false} UnsubscribeEachSends(c: Connection, ids: seq<UInt32>)
    decreases |ids|
    ensures var r := UnsubscribeEach(c, ids);
      && |r.out| == |c.out| + |ids| && r.out[..|c.out|] == c.out
      && (forall i :: 0 <= i < |ids| ==> r.out[|c.out| + i] == Request(Unsubscribe, ids[i], []))
      && r.(out := c.out) == c
  {
    if ids != [] {
      var c1 := UnsubscribeId(c, ids[0], false);
      UnsubscribeEachSends(c1, ids[1..]);
      var r := UnsubscribeEach(c, ids);
      assert r.out[..|c.out|] == r.out[..|c1.out|][..|c.out|];
      forall i | 0 <= i < |ids|
        ensures r.out[|c.out| + i] == Request(Unsubscribe, ids[i], [])
      {
        if i == 0 {
          assert r.out[|c.out|] == r.out[..|c1.out|][|c.out|];
        } else {
          assert r.out[|c.out| + i] == r.out[|c1.out| + (i - 1)];
        }
      }
    }
  }

  /**
   * The destructor: UNSUBSCRIBE for every recorded subscription in ascending
   * ID order, each subscription reset, the collection cleared, then
   * DISCONNECT. Also returns the reset subscriptions, by ID, as their holders
   * now see them.
   */
  function Close(c: Connection): (r: (Connection, map<UInt32, Subscription>))
    ensures r.0.subscriptions == map[]
    ensures r.1.Keys == c.subscriptions.Keys
    ensures forall id :: id in r.1 ==> r.1[id] == ResetConnection(c.subscriptions[id])
  {
    var u := UnsubscribeEach(c, IdsFrom(c.subscriptions, 0));
    (Send(u.(subscriptions := map[]), Request(Disconnect, 0, [])),
     map id | id in c.subscriptions :: ResetConnection(c.subscriptions[id]))
  }

  /** What closing sends: one UNSUBSCRIBE per ID of the walk, in its order, then DISCONNECT. */
  lemma CloseSends(c: Connection, ids: seq<UInt32>)
    requires ids == IdsFrom(c.subscriptions, 0)
    ensures var r := Close(c).0;
      && |r.out| == |c.out| + |ids| + 1 && r.out[..|c.out|] == c.out
      && (forall i :: 0 <= i < |ids| ==> r.out[|c.out| + i] == Request(Unsubscribe, ids[i], []))
      && r.out[|c.out| + |ids|] == Request(Disconnect, 0, [])
      && r.ref == c.ref && r.service == c.service
  {
    var u := UnsubscribeEach(c, ids);
    UnsubscribeEachSends(c, ids);
    assert Close(c).0.out == u.out + [Request(Disconnect, 0, [])];
    assert Close(c).0.out[..|c.out|] == u.out[..|c.out|];
  }

  /** Closing unsubscribes every recorded ID exactly once, smallest first, and no other. */
  lemma CloseUnsubscribesEachOnce(c: Connection)
    ensures var ids := IdsFrom(c.subscriptions, 0);
      && (forall k: int :: k in ids <==> k in c.subscriptions)
      && (forall i, j :: 0 <= i < j < |ids| ==> ids[i] < ids[j])
  {
    IdsFromAscending(c.subscriptions, 0);
  }

  /** A subscription reset by the close unsubscribes nothing when it is destroyed afterwards. */
  lemma ReleaseAfterCloseSendsNothing(c: Connection, id: UInt32)
    requires id in c.subscriptions
    ensures Release(Close(c).1[id], Close(c).0) == Close(c).0
  {
  }

  // ---------------------------------------------------------------------------
  // What the connection keeps true

  /** Every recorded subscription is filed under its own ID and points back here. */
  predicate Filed(c: Connection)
  {
    forall k :: k in c.subscriptions ==> c.subscriptions[k].id == k && c.subscriptions[k].connection == Some(c.ref)
  }

  /** Every recorded ID was handed out before: it is below the counter. */
  predicate Counted(c: Connection)
  {
    forall k :: k in c.subscriptions ==> k < c.nextId
  }

  lemma OpenGood(ref: nat, service: Bytes, replies: seq<Sockets.ValidBuffer>)
    ensures Open(ref, service, replies).Ok? ==>
      Filed(Open(ref, service, replies).value) && Counted(Open(ref, service, replies).value)
  {
  }

  lemma SubscribeKeepsFiled(c: Connection, subject: Bytes, cb: Callback)
    requires Filed(c)
    ensures Filed(SubscribeTo(c, subject, cb).0)
  {
  }

  /**
   * Before the counter wraps, a subscribe always records the new
   * subscription: its ID is not taken, so the insert happens.
   */
  lemma SubscribeInserts(c: Connection, subject: Bytes, cb: Callback)
    requires Counted(c) && c.nextId + 1 < Two32
    ensures var (r, s) := SubscribeTo(c, subject, cb);
      Counted(r) && r.nextId == c.nextId + 1 && r.subscriptions == c.subscriptions[c.nextId := s]
  {
  }

  lemma UnsubscribeKeepsGood(c: Connection, id: UInt32, remove: bool)
    requires Filed(c) && Counted(c)
    ensures Filed(UnsubscribeId(c, id, remove)) && Counted(UnsubscribeId(c, id, remove))
  {
  }

  /** The destructor of a live subscription removes exactly its own entry and keeps the rest filed. */
  lemma ReleaseRemovesOwn(c: Connection, s: Subscription)
    requires Filed(c) && Counted(c) && s.connection == Some(c.ref)
    ensures var r := Release(s, c);
      Filed(r) && Counted(r) && s.id !in r.subscriptions
      && r.out == c.out + [Request(Unsubscribe, s.id, [])]
  {
    var r := Release(s, c);
    assert r.out == r.out[..|c.out|] + [r.out[|c.out|]];
  }

  /**
   * Subscribing then destroying the subscription returned: the collection
   * is as before, and the last two messages sent are SUBSCRIBE and
   * UNSUBSCRIBE for the same ID.
   */
  lemma SubscribeThenRelease(c: Connection, subject: Bytes, cb: Callback)
    requires Counted(c) && c.nextId + 1 < Two32
    ensures var (r, s) := SubscribeTo(c, subject, cb);
      var d := Release(s, r);
      && d.subscriptions == c.subscriptions
      && d.out == c.out + [Request(Subscribe, s.id, subject), Request(Unsubscribe, s.id, [])]
  {
    var (r, s) := SubscribeTo(c, subject, cb);
    SubscribeInserts(c, subject, cb);
    var d := Release(s, r);
    assert d.subscriptions == c.subscriptions;
    assert r.out == c.out + [Request(Subscribe, s.id, subject)] by {
      assert r.out == r.out[..|c.out|] + [r.out[|c.out|]];
    }
    assert d.out == r.out + [Request(Unsubscribe, s.id, [])] by {
      assert d.out == d.out[..|r.out|] + [d.out[|r.out|]];
    }
  }

  /** Subscribing to each subject in turn, with the same callback. */
  function SubscribeEach(c: Connection, subjects: seq<Bytes>, cb: Callback): Connection
    decreases |subjects|
  {
    if subjects == [] then c else SubscribeEach(SubscribeTo(c, subjects[0], cb).0, subjects[1..], cb)
  }

  /** The ID handed out `i` subscribes after the counter stood at `a`. */
  function IdAfter(a: UInt32, i: nat): UInt32
    decreases i
  {
    if i == 0 then a else IdAfter((a + 1) % Two32, i - 1)
  }

  /** Counting on with wrap-around is addition modulo 2^32. */
  lemma {:induction false} IdAfterIsSum(a: UInt32, i: nat)
    decreases i
    ensures IdAfter(a, i) == (a + i) % Two32
  {
    if i > 0 {
      IdAfterIsSum((a + 1) % Two32, i - 1);
      ModSucc(a, i - 1);
    }
  }

  /** Counting on from a wrapped successor is counting on from the original. */
  lemma ModSucc(a: UInt32, k: nat)
    ensures ((a + 1) % Two32 + k) % Two32 == (a + 1 + k) % Two32
  {
  }

  /**
   * IDs are handed out in sequence: the i-th subscribe sends SUBSCRIBE with
   * the i-th ID after `nextId` and the i-th subject.
   */
  lemma {:induction false} IdsInSequence(c: Connection, subjects: seq<Bytes>, cb: Callback)
    decreases |subjects|
    ensures var r := SubscribeEach(c, subjects, cb);
      && r.nextId == IdAfter(c.nextId, |subjects|)
      && |r.out| == |c.out| + |subjects| && r.out[..|c.out|] == c.out
      && forall i :: 0 <= i < |subjects| ==>
           r.out[|c.out| + i] == Request(Subscribe, IdAfter(c.nextId, i), subjects[i])
  {
    if subjects != [] {
      var c1 := SubscribeTo(c, subjects[0], cb).0;
      IdsInSequence(c1, subjects[1..], cb);
      var r := SubscribeEach(c, subjects, cb);
      assert r.out[..|c.out|] == r.out[..|c1.out|][..|c.out|];
      forall i | 0 <= i < |subjects|
        ensures r.out[|c.out| + i] == Request(Subscribe, IdAfter(c.nextId, i), subjects[i])
      {
        if i == 0 {
          assert r.out[|c.out|] == r.out[..|c1.out|][|c.out|];
        } else {
          assert r.out[|c.out| + i] == r.out[|c1.out| + (i - 1)];
          assert subjects[1..][i - 1] == subjects[i];
        }
      }
    }
  }

  lemma SmallMod(x: nat)
    requires x < Two32
    ensures x % Two32 == x
  {
  }

  /** With the counter at 0, as a new connection has it, the subscriptions get IDs 0, 1, 2, … */
  lemma FirstIdsCountFromZero(c: Connection, subjects: seq<Bytes>, cb: Callback)
    requires c.nextId == 0 && |subjects| < Two32
    ensures var r := SubscribeEach(c, subjects, cb);
      |r.out| == |c.out| + |subjects|
      && forall j :: |c.out| <= j < |r.out| ==> r.out[j].header.subscriptionId == j - |c.out|
  {
    var r := SubscribeEach(c, subjects, cb);
    IdsInSequence(c, subjects, cb);
    forall j | |c.out| <= j < |r.out|
      ensures r.out[j].header.subscriptionId == j - |c.out|
    {
      var i := j - |c.out|;
      assert r.out[|c.out| + i] == Request(Subscribe, IdAfter(0, i), subjects[i]);
      assert IdAfter(0, i) == i by {
        IdAfterIsSum(0, i);
        SmallMod(i);
      }
    }
  }
}
