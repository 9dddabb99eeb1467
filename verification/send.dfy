/**
 * `Utils::sendNetworkMessage`: a network message is serialized into a fresh
 * buffer and written to a socket. The frame that puts on the wire is read
 * back, by whoever receives it, as the same network message.
 */
module Sending {
  import opened Base
  import opened Wire
  import opened Buffers
  import opened ValueCodec
  import opened NetworkMessages
  import Sockets
  import Receive

  /** The frame carrying an encoded network message: the frame length (prefix included), then the encoding. */
  function SentFrame(e: Bytes): (r: Bytes)
    requires SizeSize + |e| < Two32
    ensures |r| == SizeSize + |e| && r[SizeSize..] == e
  {
    LE32(SizeSize + |e|) + e
  }

  /** A fresh buffer holding an encoding puts exactly that encoding's frame on the wire. */
  lemma EncodedFrame(n: NetworkMessage)
    ensures var e := EncodeNetworkMessage(n);
      e.Ok? && SizeSize + |e.value| <= Int32Max ==>
        WriteBytes(Create(), e.value).Ok? && FrameBytes(WriteBytes(Create(), e.value).value) == SentFrame(e.value)
  {
    var e := EncodeNetworkMessage(n);
    if e.Ok? && SizeSize + |e.value| <= Int32Max {
      var buf := WriteBytes(Create(), e.value).value;
      assert buf.dataSize == SizeSize + |e.value|;
      FrameLayout(buf);
      assert buf.store[SizeSize..buf.dataSize] == e.value;
    }
  }

  /**
   * Serialize into `Buffer::create()`, then `Socket::write`. Sending adds
   * exactly the message's frame after everything the socket was asked to
   * send before; a message without an encoding throws and is not sent.
   */
  function SendNetworkMessage(s: Sockets.Socket, n: NetworkMessage): (r: Result<Sockets.Socket>)
    ensures EncodeNetworkMessage(n).Err? ==> r.Err?
    ensures var e := EncodeNetworkMessage(n);
      e.Ok? && SizeSize + |e.value| <= Int32Max ==>
        r.Ok? && Sockets.Outgoing(r.value) == Sockets.Outgoing(s) + SentFrame(e.value)
    ensures r.Ok? ==> r.value.sent == s.sent && r.value.connected == s.connected && r.value.loop == s.loop
  {
    EncodedFrame(n);
    var buf :- SerializeNetworkMessage(Create(), n);
    Ok(Sockets.Write(s, buf))
  }

  /**
   * A delivered buffer (cursor reset to the first byte after the prefix)
   * holding a sent frame deserializes to the message sent, and reading only
   * its header finds the header sent.
   */
  lemma ReceivedFrameDecodes(d: Buffer, n: NetworkMessage, e: Bytes)
    requires EncodeNetworkMessage(n) == Ok(e) && SizeSize + |e| < Two32 && Decodable(Payload(n))
    requires d.Valid() && d.position == SizeSize && Receive.Contents(d) == SentFrame(e)
    ensures DeserializeNetworkMessage(d, NewNetworkMessage())
      == Ok(Decoded(NetworkMessage(n.header, Some(Payload(n))), d.(position := d.dataSize)))
    ensures DeserializeHeader(d, NewNetworkMessage()).Ok?
    ensures DeserializeHeader(d, NewNetworkMessage()).value.value.header == n.header
  {
    FrameHeld(d, e);
    DeserializeNetworkMessageAt(d, n, e);
  }

  /** A delivered buffer holding a sent frame holds the encoding after its prefix, and nothing more. */
  lemma FrameHeld(d: Buffer, e: Bytes)
    requires SizeSize + |e| < Two32
    requires d.Valid() && d.position == SizeSize && Receive.Contents(d) == SentFrame(e)
    ensures HoldsAt(d, e) && d.dataSize == d.position + |e|
  {
    assert |d.sizeBytes| == SizeSize && SizeSize <= d.dataSize <= |d.store|;
    var f := SentFrame(e);
    assert f == d.sizeBytes + d.store[SizeSize..d.dataSize];
    assert d.store[SizeSize..d.dataSize] == f[SizeSize..];
  }
}
