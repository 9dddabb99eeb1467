/**
 * The envelope of everything sent between clients and the gateway: a header
 * (subscription ID, subject, reply subject, action) followed by a message.
 *
 *   header = subscription ID (uint32) ++ subject (string)
 *            ++ reply subject (string) ++ action (int8)
 *
 * The payload message is created lazily: a network message that was never
 * given one behaves as if it held an empty message.
 */
module NetworkMessages {
  import opened Base
  import opened Wire
  import opened Buffers
  import opened Values
  import opened ValueCodec

  /** `NetworkMessageHeader::Action`, as its `int8` code on the wire. */
  const NoAction: Int8 := 0
  const Connect: Int8 := 1
  const Disconnect: Int8 := 2
  const Ack: Int8 := 3
  const Subscribe: Int8 := 4
  const Unsubscribe: Int8 := 5
  const SendMessage: Int8 := 6

  /**
   * The action is kept as its code: `deserialize` casts the byte it reads to
   * the enum without checking it, so any `int8` can stand there.
   */
  datatype Header = Header(subscriptionId: UInt32, subject: Bytes, replySubject: Bytes, action: Int8)

  /** A header as constructed: ID 0, empty subjects, no action. */
  function NewHeader(): (h: Header)
    ensures h.subscriptionId == 0 && h.subject == [] && h.replySubject == [] && h.action == NoAction
  {
    Header(0, [], [], NoAction)
  }

  // ---------------------------------------------------------------------------
  // Header encoding

  /** Reference: the four items in order; a subject too long for its `int32` length has no encoding. */
  function EncodeHeader(h: Header): (r: Result<Bytes>)
    ensures r.Ok? <==> |h.subject| < Two31 && |h.replySubject| < Two31
    ensures r.Err? ==> r.error == MaxCapacity
  {
    var subject :- EncodeStr(h.subject);
    var reply :- EncodeStr(h.replySubject);
    Ok(EncodeUInt32(h.subscriptionId) + subject + reply + EncodeInt8(h.action))
  }

  /** The four items written in turn are one write of the header's encoding. */
  lemma HeaderConcat(b: Buffer, h: Header)
    requires b.Valid()
    ensures EncodeHeader(h).Ok? ==>
      var (u, s, r, a) := (EncodeUInt32(h.subscriptionId), EncodeString(h.subject),
                           EncodeString(h.replySubject), EncodeInt8(h.action));
      && EncodeHeader(h).value == u + s + r + a
      && WriteBytes(b, u + s) == (match WriteBytes(b, u) case Ok(b1) => WriteBytes(b1, s) case Err(e) => Err(e))
      && WriteBytes(b, u + s + r) == (match WriteBytes(b, u + s) case Ok(b2) => WriteBytes(b2, r) case Err(e) => Err(e))
      && WriteBytes(b, u + s + r + a) == (match WriteBytes(b, u + s + r) case Ok(b3) => WriteBytes(b3, a) case Err(e) => Err(e))
  {
    if EncodeHeader(h).Ok? {
      var u := EncodeUInt32(h.subscriptionId);
      var s := EncodeString(h.subject);
      var r := EncodeString(h.replySubject);
      var a := EncodeInt8(h.action);
      WriteBytesConcat(b, u + s + r, a);
      WriteBytesConcat(b, u + s, r);
      WriteBytesConcat(b, u, s);
    }
  }

  /**
   * `NetworkMessageHeader::serialize`: subscription ID, subject, reply
   * subject, action, which is one write of the header's encoding; a header
   * without one fails.
   */
  function SerializeHeader(b: Buffer, h: Header): (r: Result<Buffer>)
    requires b.Valid()
    ensures r.Ok? ==> r.value.Valid()
    ensures EncodeHeader(h).Err? ==> r.Err?
    ensures EncodeHeader(h).Ok? ==> r == WriteBytes(b, EncodeHeader(h).value)
  {
    HeaderConcat(b, h);
    var b1 :- WriteUInt32(b, h.subscriptionId);
    var b2 :- WriteString(b1, h.subject);
    var b3 :- WriteString(b2, h.replySubject);
    WriteInt8(b3, h.action)
  }


  /** `NetworkMessageHeader::deserialize`: the same four items in the same order; any action code is taken. */
  function ReadHeader(b: Buffer): (r: Result<Decoded<Header>>)
    requires b.Valid()
    ensures r.Ok? ==> Advanced(b, r.value.rest)
  {
    var id :- ReadUInt32(b);
    var subject :- ReadString(id.rest);
    var reply :- ReadString(subject.rest);
    var action :- ReadInt8(reply.rest);
    Ok(Decoded(Header(id.value, subject.value, reply.value, action.value), action.rest))
  }

  /** A header is read as its four items in turn. */
  lemma ReadHeaderSteps(b: Buffer, h: Header, b1: Buffer, b2: Buffer, b3: Buffer, b4: Buffer)
    requires b.Valid() && ReadUInt32(b) == Ok(Decoded(h.subscriptionId, b1))
    requires b1.Valid() && ReadString(b1) == Ok(Decoded(h.subject, b2))
    requires b2.Valid() && ReadString(b2) == Ok(Decoded(h.replySubject, b3))
    requires b3.Valid() && ReadInt8(b3) == Ok(Decoded(h.action, b4))
    ensures ReadHeader(b) == Ok(Decoded(h, b4))
  {
  }

  /** The four items, each at the cursor the previous one leaves, read back as the header. */
  lemma ReadItemsAt(b: Buffer, h: Header, b1: Buffer, b2: Buffer, b3: Buffer, b4: Buffer)
    requires |h.subject| < Two31 && |h.replySubject| < Two31
    requires HoldsAt(b, EncodeUInt32(h.subscriptionId)) && b1 == b.(position := b.position + 4)
    requires HoldsAt(b1, EncodeString(h.subject)) && b2 == b1.(position := b1.position + 4 + |h.subject|)
    requires HoldsAt(b2, EncodeString(h.replySubject)) && b3 == b2.(position := b2.position + 4 + |h.replySubject|)
    requires HoldsAt(b3, EncodeInt8(h.action)) && b4 == b3.(position := b3.position + 1)
    ensures ReadHeader(b) == Ok(Decoded(h, b4))
  {
    ReadUInt32At(b, h.subscriptionId);
    ReadStringAt(b1, h.subject, b2);
    ReadStringAt(b2, h.replySubject, b3);
    ReadInt8At(b3, h.action);
    ReadHeaderSteps(b, h, b1, b2, b3, b4);
  }

  lemma EncodedHeaderParts(h: Header)
    requires |h.subject| < Two31 && |h.replySubject| < Two31
    ensures EncodeHeader(h) == Ok(EncodeUInt32(h.subscriptionId)
      + (EncodeString(h.subject) + (EncodeString(h.replySubject) + EncodeInt8(h.action))))
  {
    var u := EncodeUInt32(h.subscriptionId);
    var s := EncodeString(h.subject);
    var r := EncodeString(h.replySubject);
    var a := EncodeInt8(h.action);
    assert u + s + r + a == u + (s + (r + a));
  }

  /** Where each item of an encoded header lies. */
  lemma HeaderLayout(b: Buffer, h: Header, e: Bytes, b1: Buffer, b2: Buffer, b3: Buffer)
    requires EncodeHeader(h) == Ok(e) && HoldsAt(b, e)
    requires b1 == b.(position := b.position + 4)
    requires b2 == b1.(position := b1.position + 4 + |h.subject|)
    requires b3 == b2.(position := b2.position + 4 + |h.replySubject|)
    ensures |e| == 13 + |h.subject| + |h.replySubject|
    ensures HoldsAt(b, EncodeUInt32(h.subscriptionId)) && HoldsAt(b1, EncodeString(h.subject))
    ensures HoldsAt(b2, EncodeString(h.replySubject)) && HoldsAt(b3, EncodeInt8(h.action))
  {
    var u := EncodeUInt32(h.subscriptionId);
    var s := EncodeString(h.subject);
    var r := EncodeString(h.replySubject);
    var a := EncodeInt8(h.action);
    EncodedHeaderParts(h);
    HoldsAtSplit(b, u, s + (r + a));
    HoldsAtSplit(b1, s, r + a);
    assert b1.(position := b1.position + |s|) == b2;
    HoldsAtSplit(b2, r, a);
    assert b2.(position := b2.position + |r|) == b3;
  }

  lemma ReadHeaderAt(b: Buffer, h: Header, e: Bytes)
    requires EncodeHeader(h) == Ok(e) && HoldsAt(b, e)
    ensures ReadHeader(b) == Ok(Decoded(h, b.(position := b.position + |e|)))
  {
    var b1 := b.(position := b.position + 4);
    var b2 := b1.(position := b1.position + 4 + |h.subject|);
    var b3 := b2.(position := b2.position + 4 + |h.replySubject|);
    var b4 := b3.(position := b3.position + 1);
    HeaderLayout(b, h, e, b1, b2, b3);
    assert b4 == b.(position := b.position + |e|);
    ReadItemsAt(b, h, b1, b2, b3, b4);
  }

  /**
   * A header serialized into a buffer and read back from where the write
   * began is the same header, whatever its action code, and the cursor ends
   * where the write ended.
   */
  lemma HeaderRoundTrip(b: Buffer, h: Header)
    requires b.Valid() && SerializeHeader(b, h).Ok?
    ensures var w := SerializeHeader(b, h).value;
      ReadHeader(w.(position := b.position)) == Ok(Decoded(h, w))
  {
    var e := EncodeHeader(h).value;
    WrittenHoldsAt(b, e);
    var w := WriteBytes(b, e).value;
    var start := w.(position := b.position);
    assert start.(position := start.position + |e|) == w;
    ReadHeaderAt(start, h, e);
  }

  // ---------------------------------------------------------------------------
  // Network messages

  /** The header and `m_pMessage`, which stays null until the message is first needed. */
  datatype NetworkMessage = NetworkMessage(header: Header, message: Option<Message>)

  function NewNetworkMessage(): (n: NetworkMessage)
    ensures n.header == NewHeader() && n.message.None?
  {
    NetworkMessage(NewHeader(), None)
  }

  /** The message the envelope carries: the one held, or the empty one created on demand. */
  function Payload(n: NetworkMessage): Message
  {
    match n.message
    case Some(m) => m
    case None => NewMessage()
  }

  /**
   * `getMessage`: creates an empty message on first use and returns the one
   * held from then on. The result is the envelope afterwards and the message.
   */
  function GetMessage(n: NetworkMessage): (r: (NetworkMessage, Message))
    ensures r.0.header == n.header && r.0.message == Some(r.1)
    ensures n.message.None? ==> r.1 == NewMessage()
    ensures n.message.Some? ==> r == (n, n.message.value)
  {
    (n.(message := Some(Payload(n))), Payload(n))
  }

  /** Once created, the message is the same on every later access. */
  lemma GetMessageStable(n: NetworkMessage)
    ensures GetMessage(GetMessage(n).0) == GetMessage(n)
    ensures Payload(GetMessage(n).0) == Payload(n)
  {
  }

  /** `setMessage`: the payload is replaced, the header kept. */
  function SetMessage(n: NetworkMessage, m: Message): (r: NetworkMessage)
    ensures r.header == n.header && GetMessage(r).1 == m
  {
    n.(message := Some(m))
  }

  /** Reference: the header's encoding, then the payload's. */
  function EncodeNetworkMessage(n: NetworkMessage): (r: Result<Bytes>)
  {
    var h :- EncodeHeader(n.header);
    var m :- EncodeMessage(Payload(n));
    Ok(h + m)
  }

  /** The header, then the payload, written in turn, are one write of the envelope's encoding. */
  lemma EnvelopeConcat(b: Buffer, n: NetworkMessage)
    requires b.Valid()
    ensures EncodeNetworkMessage(n).Ok? ==>
      WriteBytes(b, EncodeNetworkMessage(n).value)
        == (match WriteBytes(b, EncodeHeader(n.header).value)
            case Ok(b1) => WriteBytes(b1, EncodeMessage(Payload(n)).value)
            case Err(e) => Err(e))
  {
    if EncodeNetworkMessage(n).Ok? {
      WriteBytesConcat(b, EncodeHeader(n.header).value, EncodeMessage(Payload(n)).value);
    }
  }

  /**
   * `NetworkMessage::serialize`: the header, then the payload (an empty
   * message when none was set), which is one write of the envelope's
   * encoding; an envelope without one fails.
   */
  function SerializeNetworkMessage(b: Buffer, n: NetworkMessage): (r: Result<Buffer>)
    requires b.Valid()
    ensures r.Ok? ==> r.value.Valid()
    ensures EncodeNetworkMessage(n).Err? ==> r.Err?
    ensures EncodeNetworkMessage(n).Ok? ==> r == WriteBytes(b, EncodeNetworkMessage(n).value)
  {
    EnvelopeConcat(b, n);
    var b1 :- SerializeHeader(b, n.header);
    SerializeMessage(b1, Payload(n))
  }


  /** With no payload set, the header is followed by a message of zero fields: an `int32` count of 0. */
  lemma UnsetPayloadIsEmpty(n: NetworkMessage)
    requires n.message.None? && EncodeHeader(n.header).Ok?
    ensures EncodeNetworkMessage(n) == Ok(EncodeHeader(n.header).value + EncodeInt32(0))
  {
    assert EncodeFields([]) == Ok([]);
    assert EncodeInt32(0) + [] == EncodeInt32(0);
  }

  /** `deserializeHeader`: reads the header into the envelope and leaves the cursor after it. */
  function DeserializeHeader(b: Buffer, n: NetworkMessage): (r: Result<Decoded<NetworkMessage>>)
    requires b.Valid()
    ensures r.Ok? ==> Advanced(b, r.value.rest) && r.value.value.message == n.message
  {
    var h :- ReadHeader(b);
    Ok(Decoded(n.(header := h.value), h.rest))
  }

  /** `deserializeMessage`: creates the payload if needed, then deserializes into it (appending). */
  function DeserializeMessage(b: Buffer, n: NetworkMessage): (r: Result<Decoded<NetworkMessage>>)
    requires b.Valid()
    ensures r.Ok? ==> Advanced(b, r.value.rest) && r.value.value.header == n.header
  {
    var m :- Deserialize(b, Payload(n));
    Ok(Decoded(n.(message := Some(m.value)), m.rest))
  }

  /** `NetworkMessage::deserialize`: the header, then the message. */
  function DeserializeNetworkMessage(b: Buffer, n: NetworkMessage): (r: Result<Decoded<NetworkMessage>>)
    requires b.Valid()
    ensures r.Ok? ==> Advanced(b, r.value.rest)
  {
    var h :- DeserializeHeader(b, n);
    DeserializeMessage(h.rest, h.value)
  }

  /**
   * Reading only the header of a serialized network message stops exactly
   * where the payload's serialization began.
   */
  lemma HeaderStopsAtMessage(b: Buffer, n: NetworkMessage, into: NetworkMessage)
    requires b.Valid() && SerializeNetworkMessage(b, n).Ok?
    ensures var w := SerializeNetworkMessage(b, n).value;
      var h := SerializeHeader(b, n.header);
      h.Ok? && DeserializeHeader(w.(position := b.position), into)
        == Ok(Decoded(into.(header := n.header), w.(position := h.value.position)))
  {
    var eh := EncodeHeader(n.header).value;
    var em := EncodeMessage(Payload(n)).value;
    WrittenHoldsAt(b, eh + em);
    var w := WriteBytes(b, eh + em).value;
    assert w == SerializeNetworkMessage(b, n).value;
    var start := w.(position := b.position);
    HoldsAtSplit(start, eh, em);
    ReadHeaderAt(start, n.header, eh);
    var mid := start.(position := start.position + |eh|);
    assert mid == w.(position := SerializeHeader(b, n.header).value.position);
    assert DeserializeHeader(start, into) == Ok(Decoded(into.(header := n.header), mid));
  }

  /** An encoded network message at the cursor is read back whole. */
  lemma DeserializeNetworkMessageAt(b: Buffer, n: NetworkMessage, e: Bytes)
    requires EncodeNetworkMessage(n) == Ok(e) && HoldsAt(b, e) && Decodable(Payload(n))
    ensures DeserializeNetworkMessage(b, NewNetworkMessage())
      == Ok(Decoded(NetworkMessage(n.header, Some(Payload(n))), b.(position := b.position + |e|)))
    ensures DeserializeHeader(b, NewNetworkMessage()).Ok?
    ensures DeserializeHeader(b, NewNetworkMessage()).value.value.header == n.header
  {
    var eh := EncodeHeader(n.header).value;
    var em := EncodeMessage(Payload(n)).value;
    assert e == eh + em;
    HoldsAtSplit(b, eh, em);
    ReadHeaderAt(b, n.header, eh);
    var mid := b.(position := b.position + |eh|);
    assert mid.(position := mid.position + |em|) == b.(position := b.position + |e|);
    DeserializeAt(mid, NewMessage(), Payload(n), em);
    RebuildIndexed(Payload(n));
  }

  /**
   * A network message serialized into a buffer and deserialized from where
   * the write began into a fresh envelope: the same header and the same
   * payload (an empty message when none was set), the cursor at the end.
   */
  lemma NetworkMessageRoundTrip(b: Buffer, n: NetworkMessage)
    requires b.Valid() && Decodable(Payload(n)) && SerializeNetworkMessage(b, n).Ok?
    ensures var w := SerializeNetworkMessage(b, n).value;
      DeserializeNetworkMessage(w.(position := b.position), NewNetworkMessage())
        == Ok(Decoded(NetworkMessage(n.header, Some(Payload(n))), w))
  {
    var e := EncodeNetworkMessage(n).value;
    WrittenHoldsAt(b, e);
    var w := WriteBytes(b, e).value;
    var start := w.(position := b.position);
    assert start.(position := start.position + |e|) == w;
    DeserializeNetworkMessageAt(start, n, e);
  }
}
