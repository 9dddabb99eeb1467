/**
 * The CONNECT/ACK handshake end to end. A client's constructor sends
 * CONNECT for its service; the gateway, reading that frame from a pending
 * socket, hands the socket to the service's manager, which moves it to its
 * own loop and, once the move completes, sends exactly one ACK; the client's
 * wait succeeds when that ACK's frame arrives.
 */
module Handshake {
  import opened Base
  import opened Wire
  import opened Buffers
  import opened Values
  import opened ValueCodec
  import opened NetworkMessages
  import Receive
  import Sockets
  import Sending
  import Gateways
  import Connections

  /**
   * A buffer as the socket hands it to its callback (cursor just after the
   * length prefix) whose frame is the one sending `n` puts on the wire.
   */
  predicate Delivers(d: Buffer, n: NetworkMessage)
  {
    && d.Valid() && d.position == SizeSize
    && EncodeNetworkMessage(n).Ok? && SizeSize + |EncodeNetworkMessage(n).value| < Two32
    && Receive.Contents(d) == Sending.SentFrame(EncodeNetworkMessage(n).value)
  }

  /** A network message without payload carries the empty message, which decodes. */
  lemma NoPayloadDecodable(n: NetworkMessage)
    requires n.message.None?
    ensures Decodable(Payload(n))
  {
  }

  /** A delivered frame's header reads back as the header sent. */
  lemma DeliveredHeader(d: Buffer, n: NetworkMessage)
    requires Delivers(d, n) && n.message.None?
    ensures DeserializeHeader(d, NewNetworkMessage()).Ok?
    ensures DeserializeHeader(d, NewNetworkMessage()).value.value.header == n.header
  {
    NoPayloadDecodable(n);
    Sending.ReceivedFrameDecodes(d, n, EncodeNetworkMessage(n).value);
  }

  /**
   * On the gateway, a CONNECT for `service` arriving from a pending socket
   * registers that socket with the service's manager and takes it out of
   * the pending collection, the manager sending nothing yet; when the move
   * to the manager's loop then completes, the manager sends exactly one
   * message: an ACK to that socket.
   */
  lemma ConnectRegistersThenAcks(g: Gateways.Gateway, name: Bytes, service: Bytes, d: Buffer)
    requires Gateways.Good(g) && name in g.pending && Delivers(d, Connections.ConnectMessage(service))
    ensures var r := Gateways.OnDataReceived(g, name, d);
      && r.pending == g.pending - {name}
      && service in r.managers && name in r.managers[service].clients
      && r.managers[service].clients[name].callback == Gateways.ManagerOwner(service)
      && Sockets.Outgoing(r.managers[service].clients[name].socket) == Sockets.Outgoing(g.pending[name].socket)
      && Sockets.Outgoing(Gateways.MoveCompleted(r.managers[service], name, true).clients[name].socket)
           == Sockets.Outgoing(g.pending[name].socket) + Gateways.AckFrame()
  {
    var n := Connections.ConnectMessage(service);
    DeliveredHeader(d, n);
    assert g.pending[name].name == name;
  }

  /** On the client, the ACK's frame arriving before the wait gives up opens the connection. */
  lemma AckOpens(ref: nat, service: Bytes, d: Sockets.ValidBuffer)
    requires Delivers(d, Gateways.AckMessage())
    ensures Connections.Open(ref, service, [d]).Ok?
  {
    DeliveredHeader(d, Gateways.AckMessage());
    assert Connections.IsAck([d][0]);
  }
}
