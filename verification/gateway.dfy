/**
 * The gateway side of a connection. A new client socket waits in the
 * gateway's pending collection until it sends CONNECT; the gateway then hands
 * it to the service manager for the requested service, creating that manager
 * on first use. The manager moves the socket to its own loop and, once the
 * move completes, answers with ACK, written to that socket's queue as
 * `Utils::sendNetworkMessage` does (module Sending).
 *
 * Sockets are known by name. Each service manager runs its own loop; loop 0
 * is the gateway's, and new managers take the next unused loop number.
 */
module Gateways {
  import opened Base
  import opened Buffers
  import opened NetworkMessages
  import Sockets
  import Sending

  /** The object a socket reports its events to (`setCallback`). */
  datatype Owner = NoOwner | GatewayOwner | ManagerOwner(service: Bytes)

  /** A client socket: its name, its send-side state and its callback. */
  datatype Peer = Peer(name: Bytes, socket: Sockets.Socket, callback: Owner)

  const GatewayLoop: nat := 0

  // ---------------------------------------------------------------------------
  // Service manager

  /** `m_serviceName`, `m_pUVLoop`, `m_clientSockets`. */
  datatype ServiceManager = ServiceManager(service: Bytes, loop: nat, clients: map<Bytes, Peer>)

  function NewServiceManager(service: Bytes, loop: nat): (sm: ServiceManager)
    ensures sm.service == service && sm.loop == loop && sm.clients == map[]
  {
    ServiceManager(service, loop, map[])
  }

  /**
   * `registerSocket`: the socket is stored under its name, reports to this
   * manager from now on, and starts moving to the manager's loop (so it is
   * not connected until the move completes).
   */
  function RegisterSocket(sm: ServiceManager, p: Peer): (r: ServiceManager)
    ensures r.service == sm.service && r.loop == sm.loop
    ensures r.clients.Keys == sm.clients.Keys + {p.name}
    ensures forall n :: n in sm.clients && n != p.name ==> r.clients[n] == sm.clients[n]
    ensures var q := r.clients[p.name];
      q.name == p.name && q.callback == ManagerOwner(sm.service)
      && !q.socket.connected && q.socket.queue == p.socket.queue && q.socket.sent == p.socket.sent
  {
    sm.(clients := sm.clients[p.name := Peer(p.name, Sockets.MoveToLoop(p.socket), ManagerOwner(sm.service))])
  }

  /**
   * `ServiceManager::onDataReceived`: reads the header and calls `onMessage`
   * only for SEND_MESSAGE. The result is the manager afterwards and the
   * header `onMessage` was called with, if it was called; an unreadable
   * header is logged and dropped.
   */
  function ManagerOnDataReceived(sm: ServiceManager, from: Bytes, b: Buffer): (r: (ServiceManager, Option<Header>))
    requires b.Valid()
    ensures r.0 == sm
    ensures r.1.Some? <==>
      DeserializeHeader(b, NewNetworkMessage()).Ok?
      && DeserializeHeader(b, NewNetworkMessage()).value.value.header.action == SendMessage
    ensures r.1.Some? ==> r.1.value == DeserializeHeader(b, NewNetworkMessage()).value.value.header
  {
    match DeserializeHeader(b, NewNetworkMessage())
    case Err(_) => (sm, None)
    case Ok(d) =>
      if d.value.header.action == SendMessage then (OnMessage(sm, from, d.value.header, b), Some(d.value.header))
      else (sm, None)
  }

  /** `onMessage`: not implemented yet in the gateway; it changes nothing. */
  function OnMessage(sm: ServiceManager, from: Bytes, h: Header, b: Buffer): (r: ServiceManager)
    ensures r == sm
  {
    sm
  }

  /** `ServiceManager::onDisconnected`: the socket's name leaves the client map. */
  function ManagerOnDisconnected(sm: ServiceManager, name: Bytes): (r: ServiceManager)
    ensures r.clients.Keys == sm.clients.Keys - {name}
    ensures forall n :: n in r.clients ==> r.clients[n] == sm.clients[n]
    ensures r.service == sm.service && r.loop == sm.loop
  {
    sm.(clients := sm.clients - {name})
  }

  /** The network message that acknowledges a CONNECT: action ACK, every other header field at its default. */
  function AckMessage(): (n: NetworkMessage)
    ensures n.header == NewHeader().(action := Ack) && n.message.None?
  {
    NewNetworkMessage().(header := NewHeader().(action := Ack))
  }

  /** The ACK has an encoding, small enough for `Buffer` to hold. */
  lemma AckEncodes()
    ensures EncodeNetworkMessage(AckMessage()).Ok?
    ensures SizeSize + |EncodeNetworkMessage(AckMessage()).value| <= Int32Max
  {
    UnsetPayloadIsEmpty(AckMessage());
  }

  /** The frame an ACK puts on the wire. */
  function AckFrame(): Bytes
  {
    AckEncodes();
    Sending.SentFrame(EncodeNetworkMessage(AckMessage()).value)
  }

  /**
   * `onMoveToLoopComplete`: an ACK is written to the socket that moved, so its
   * frame is owed after everything the socket was asked to send before;
   * nothing is handed to the network yet.
   */
  function OnMoveToLoopComplete(s: Sockets.Socket): (r: Sockets.Socket)
    ensures Sockets.Outgoing(r) == Sockets.Outgoing(s) + AckFrame()
    ensures r.sent == s.sent && r.connected == s.connected && r.loop == s.loop
  {
    AckEncodes();
    match Sending.SendNetworkMessage(s, AckMessage())
    case Ok(r) => r
    case Err(_) => assert false; s
  }

  /**
   * The end of a move to this manager's loop (`moveToLoop_registerDuplicatedSocket`):
   * the socket switches to the manager's loop; if the duplicated handle opens
   * it reconnects, flushes, and calls back `onMoveToLoopComplete`, which
   * writes the ACK to it.
   */
  function MoveCompleted(sm: ServiceManager, name: Bytes, tcpOpened: bool): (r: ServiceManager)
    requires name in sm.clients
    ensures r.clients.Keys == sm.clients.Keys && r.service == sm.service && r.loop == sm.loop
    ensures forall n :: n in sm.clients && n != name ==> r.clients[n] == sm.clients[n]
    ensures r.clients[name].name == sm.clients[name].name && r.clients[name].callback == sm.clients[name].callback
    ensures r.clients[name].socket.loop == sm.loop
    ensures r.clients[name].socket.connected == (tcpOpened || sm.clients[name].socket.connected)
    ensures Sockets.Outgoing(r.clients[name].socket) == Sockets.Outgoing(sm.clients[name].socket)
              + (if tcpOpened && sm.clients[name].callback == ManagerOwner(sm.service) then AckFrame() else [])
  {
    var p := sm.clients[name];
    var moved := Sockets.RegisterDuplicated(p.socket, sm.loop, tcpOpened);
    var s := if tcpOpened && p.callback == ManagerOwner(sm.service) then OnMoveToLoopComplete(moved) else moved;
    sm.(clients := sm.clients[name := p.(socket := s)])
  }

  /**
   * A registered socket whose move completes is connected on the manager's
   * loop and has handed the network everything it was asked to send before
   * and during the move; the ACK is then the one frame still queued.
   */
  lemma RegisterThenMoveAcks(sm: ServiceManager, p: Peer)
    ensures var r := MoveCompleted(RegisterSocket(sm, p), p.name, true);
      && r.clients[p.name].socket.connected
      && r.clients[p.name].socket.loop == sm.loop
      && Sockets.Wire(r.clients[p.name].socket) == Sockets.Outgoing(p.socket)
      && Sockets.Payload(r.clients[p.name].socket.queue.items) == AckFrame()
  {
    var sm1 := RegisterSocket(sm, p);
    var q := sm1.clients[p.name].socket;
    assert Sockets.Outgoing(q) == Sockets.Outgoing(p.socket);
    var moved := Sockets.RegisterDuplicated(q, sm.loop, true);
    var a := OnMoveToLoopComplete(moved);
    assert MoveCompleted(sm1, p.name, true).clients[p.name].socket == a;
    OwedAfterFlush(moved, a, AckFrame());
  }

  /** A socket with nothing queued that is then asked for `x` has handed over what it owed, and queues `x`. */
  lemma OwedAfterFlush(moved: Sockets.Socket, a: Sockets.Socket, x: Bytes)
    requires moved.queue.items == [] && a.sent == moved.sent
    requires Sockets.Outgoing(a) == Sockets.Outgoing(moved) + x
    ensures Sockets.Wire(a) == Sockets.Outgoing(moved) && Sockets.Payload(a.queue.items) == x
  {
    Sockets.PayloadEmpty();
    var w := Sockets.Wire(a);
    var pay := Sockets.Payload(a.queue.items);
    assert Sockets.Outgoing(moved) == w + [];
    assert w + pay == w + x;
    assert pay == (w + pay)[|w|..] == (w + x)[|w|..] == x;
  }

  /** A move whose duplicated handle fails to open writes nothing and leaves the writes queued. */
  lemma FailedMoveSendsNothing(sm: ServiceManager, p: Peer)
    ensures var r := MoveCompleted(RegisterSocket(sm, p), p.name, false);
      && !r.clients[p.name].socket.connected
      && r.clients[p.name].socket.queue == p.socket.queue
      && r.clients[p.name].socket.sent == p.socket.sent
  {
  }

  // ---------------------------------------------------------------------------
  // Gateway

  /** `m_pendingConnections`, `m_serviceManagers`, and the number of loops created so far. */
  datatype Gateway = Gateway(pending: map<Bytes, Peer>, managers: map<Bytes, ServiceManager>, loops: nat)

  function NewGateway(): (g: Gateway)
    ensures g.pending == map[] && g.managers == map[] && GatewayLoop < g.loops
  {
    Gateway(map[], map[], GatewayLoop + 1)
  }

  /** `onNewConnection`: the socket waits in the pending collection, reporting to the gateway. */
  function OnNewConnection(g: Gateway, p: Peer): (r: Gateway)
    ensures r.pending.Keys == g.pending.Keys + {p.name}
    ensures r.pending[p.name] == p.(callback := GatewayOwner)
    ensures forall n :: n in g.pending && n != p.name ==> r.pending[n] == g.pending[n]
    ensures r.managers == g.managers && r.loops == g.loops
  {
    g.(pending := g.pending[p.name := p.(callback := GatewayOwner)])
  }

  /** The manager for a service: the existing one, or a new one on the next loop. */
  function ManagerFor(g: Gateway, service: Bytes): (r: (ServiceManager, nat))
    ensures service in g.managers ==> r == (g.managers[service], g.loops)
    ensures service !in g.managers ==> r == (NewServiceManager(service, g.loops), g.loops + 1)
  {
    if service in g.managers then (g.managers[service], g.loops)
    else (NewServiceManager(service, g.loops), g.loops + 1)
  }

  /**
   * `onConnect`: fails, changing nothing, when the socket is not pending;
   * otherwise the socket is registered with the manager for the header's
   * subject (created if there is none) and leaves the pending collection.
   */
  function OnConnect(g: Gateway, name: Bytes, h: Header): (r: Result<Gateway>)
    ensures r.Err? <==> name !in g.pending
    ensures r.Err? ==> r.error == NotPending(name)
    ensures r.Ok? ==> r.value.pending == g.pending - {name}
    ensures r.Ok? ==> r.value.managers.Keys == g.managers.Keys + {h.subject}
    ensures r.Ok? ==> forall s :: s in g.managers && s != h.subject ==> r.value.managers[s] == g.managers[s]
    ensures r.Ok? ==> r.value.managers[h.subject] == RegisterSocket(ManagerFor(g, h.subject).0, g.pending[name])
  {
    if name !in g.pending then Err(NotPending(name))
    else
      var (sm, loops) := ManagerFor(g, h.subject);
      Ok(Gateway(g.pending - {name}, g.managers[h.subject := RegisterSocket(sm, g.pending[name])], loops))
  }

  /**
   * `Gateway::onDataReceived`: reads the header and acts on CONNECT only.
   * A header that cannot be read, or a failing `onConnect`, is logged and
   * leaves the gateway as it was. A CONNECT from a pending socket hands it,
   * with its queued writes, to the manager filed under the header's subject
   * and leaves every other manager alone.
   */
  function OnDataReceived(g: Gateway, name: Bytes, b: Buffer): (r: Gateway)
    requires b.Valid()
    ensures var d := DeserializeHeader(b, NewNetworkMessage());
      d.Err? || d.value.value.header.action != Connect ==> r == g
    ensures name !in g.pending ==> r == g
    ensures var d := DeserializeHeader(b, NewNetworkMessage());
      d.Ok? && d.value.value.header.action == Connect && name in g.pending ==>
        var service := d.value.value.header.subject;
        && r.pending == g.pending - {name}
        && r.managers.Keys == g.managers.Keys + {service}
        && var p := g.pending[name];
        && p.name in r.managers[service].clients
        && r.managers[service].clients[p.name].callback == ManagerOwner(r.managers[service].service)
        && r.managers[service].clients[p.name].socket.queue == p.socket.queue
        && (forall s :: s in g.managers && s != service ==> r.managers[s] == g.managers[s])
  {
    match DeserializeHeader(b, NewNetworkMessage())
    case Err(_) => g
    case Ok(d) =>
      if d.value.header.action != Connect then g
      else match OnConnect(g, name, d.value.header)
        case Err(_) => g
        case Ok(r) => r
  }

  /** `Gateway::onDisconnected`: the name leaves the pending collection (nothing happens if it was not there). */
  function OnDisconnected(g: Gateway, name: Bytes): (r: Gateway)
    ensures r.pending.Keys == g.pending.Keys - {name}
    ensures forall n :: n in r.pending ==> r.pending[n] == g.pending[n]
    ensures r.managers == g.managers && r.loops == g.loops
    ensures name !in g.pending ==> r == g
  {
    g.(pending := g.pending - {name})
  }

  // ---------------------------------------------------------------------------
  // What the gateway keeps true

  /**
   * Each manager is filed under its own service and runs a loop of its own,
   * distinct from the gateway's and every other manager's; every socket is
   * filed under its own name and reports to whoever holds it.
   */
  predicate Good(g: Gateway)
  {
    LoopsApart(g) && Filed(g)
  }

  predicate LoopsApart(g: Gateway)
  {
    && GatewayLoop < g.loops
    && (forall s :: s in g.managers ==> GatewayLoop < g.managers[s].loop < g.loops)
    && (forall s, t :: s in g.managers && t in g.managers && s != t ==> g.managers[s].loop != g.managers[t].loop)
  }

  predicate Filed(g: Gateway)
  {
    && (forall s :: s in g.managers ==> g.managers[s].service == s)
    && (forall n :: n in g.pending ==> g.pending[n].name == n && g.pending[n].callback == GatewayOwner)
    && (forall s, n :: s in g.managers && n in g.managers[s].clients ==>
          g.managers[s].clients[n].name == n && g.managers[s].clients[n].callback == ManagerOwner(s))
  }

  lemma NewGatewayGood()
    ensures Good(NewGateway())
  {
  }

  lemma OnNewConnectionKeepsGood(g: Gateway, p: Peer)
    requires Good(g)
    ensures Good(OnNewConnection(g, p))
  {
  }

  lemma OnConnectKeepsGood(g: Gateway, name: Bytes, h: Header)
    requires Good(g) && OnConnect(g, name, h).Ok?
    ensures Good(OnConnect(g, name, h).value)
  {
    OnConnectKeepsLoopsApart(g, name, h);
    OnConnectKeepsFiled(g, name, h);
  }

  lemma OnConnectKeepsLoopsApart(g: Gateway, name: Bytes, h: Header)
    requires LoopsApart(g) && OnConnect(g, name, h).Ok?
    ensures LoopsApart(OnConnect(g, name, h).value)
  {
    var r := OnConnect(g, name, h).value;
    assert forall s :: s in g.managers ==> g.managers[s].loop < r.loops;
    forall s, t | s in r.managers && t in r.managers && s != t
      ensures r.managers[s].loop != r.managers[t].loop
    {
      if s != h.subject && t != h.subject {
        assert r.managers[s] == g.managers[s] && r.managers[t] == g.managers[t];
      }
    }
  }

  lemma OnConnectKeepsFiled(g: Gateway, name: Bytes, h: Header)
    requires Filed(g) && OnConnect(g, name, h).Ok?
    ensures Filed(OnConnect(g, name, h).value)
  {
    var r := OnConnect(g, name, h).value;
    var sm := ManagerFor(g, h.subject).0;
    forall s, n | s in r.managers && n in r.managers[s].clients
      ensures r.managers[s].clients[n].name == n && r.managers[s].clients[n].callback == ManagerOwner(s)
    {
      if s != h.subject {
        assert r.managers[s] == g.managers[s];
      } else if n != name {
        assert sm.service == s && n in sm.clients && r.managers[s].clients[n] == sm.clients[n];
      }
    }
  }

  lemma OnDataReceivedKeepsGood(g: Gateway, name: Bytes, b: Buffer)
    requires Good(g) && b.Valid()
    ensures Good(OnDataReceived(g, name, b))
  {
    var d := DeserializeHeader(b, NewNetworkMessage());
    if d.Ok? && d.value.value.header.action == Connect && OnConnect(g, name, d.value.value.header).Ok? {
      OnConnectKeepsGood(g, name, d.value.value.header);
    }
  }

  lemma OnDisconnectedKeepsGood(g: Gateway, name: Bytes)
    requires Good(g)
    ensures Good(OnDisconnected(g, name))
  {
  }

  /** A second CONNECT for a service reuses its manager: the sockets it already has stay with it. */
  lemma SecondConnectSameManager(g: Gateway, name: Bytes, h: Header)
    requires h.subject in g.managers && name in g.pending
    ensures var r := OnConnect(g, name, h).value;
      r.loops == g.loops
      && r.managers[h.subject].loop == g.managers[h.subject].loop
      && forall n :: n in g.managers[h.subject].clients ==> n in r.managers[h.subject].clients
  {
  }
}
