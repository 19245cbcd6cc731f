/**
 * The event-driven client: the host attaches handlers for connect, disconnect
 * and received packets; a send queue is drained by completions. `ClientState`
 * is the client as a value, with the handler invocations as a log; class
 * `ClientSocket` updates it in place, each method tied to the function on
 * `ClientState` it performs. Socket calls are replaced by their outcomes.
 */
module Client {
  import opened NetDefine
  import opened Packets
  import opened Resolver
  import opened SendQueues
  import Sessions

  /** One invocation of a host handler. */
  datatype ClientEvent =
    | ConnectedEvent                      // OnConnectedCallback
    | DisconnectedEvent                   // OnDisconnectedCallback
    | PacketEvent(packet: PacketImage)    // OnPacketReceivedCallback

  datatype ClientState = ClientState(
    socket: Nullable<Socket>,
    onConnected: bool,          // OnConnectedCallback is attached
    onDisconnected: bool,       // OnDisconnectedCallback is attached
    onPacketReceived: bool,     // OnPacketReceivedCallback is attached
    sendQueue: seq<seq<byte>>,
    sent: seq<seq<byte>>,       // the byte runs handed to SendAsync, in order
    events: seq<ClientEvent>,   // the handler invocations, in order
    pending: seq<byte>)         // the bytes the resolver holds of an unfinished packet

  /** The client right after construction: no socket, no handlers. */
  function InitialState(): (r: ClientState)
    ensures r.socket == Null && r.sendQueue == [] && r.pending == []
    ensures !r.onConnected && !r.onDisconnected && !r.onPacketReceived
    ensures forall port, dns :: ConnectState(r, port, dns).0 != Client_SocketAlreadyUsed
  {
    ClientState(Null, false, false, false, [], [], [], [])
  }

  /**
   * Connect, with `dns` the outcome of looking up the host. A client that
   * has a socket refuses; a bad port or a failed lookup is reported and
   * creates no socket; otherwise the socket for the first address found is
   * created and the connect is under way.
   */
  function ConnectState(c: ClientState, port: int, dns: DnsResult): (r: (ENetError, ClientState))
    ensures c.socket.NonNull? ==> r.0 == Client_SocketAlreadyUsed
    ensures c.socket.Null? && !ValidClientPort(port) ==> r.0 == Client_InvalidPortRange
    ensures c.socket.Null? && ValidClientPort(port) && (dns.DnsThrows? || dns.addresses == []) ==> r.0 == Client_InvalidHost
    ensures r.0 != Success ==> r.1 == c
    ensures r.0 == Success <==> c.socket.Null? && ValidClientPort(port) && dns.Addresses? && dns.addresses != []
    ensures r.0 == Success ==> r.1 == c.(socket := NonNull(Socket(dns.addresses[0])))
  {
    if c.socket.NonNull? then (Client_SocketAlreadyUsed, c)
    else if port <= 0 || port > 0xFFFF then (Client_InvalidPortRange, c)
    else if dns.DnsThrows? then (Client_InvalidHost, c)
    else if |dns.addresses| == 0 then (Client_InvalidHost, c)
    else (Success, c.(socket := NonNull(Socket(dns.addresses[0]))))
  }

  /**
   * Disconnect: an open socket is shut down and dropped, and
   * OnDisconnectedCallback, if attached, is invoked once; without a socket no
   * handler runs. The send queue is emptied either way.
   */
  function DisconnectState(c: ClientState): (r: ClientState)
    ensures r.socket == Null && r.sendQueue == []
    ensures r.events == c.events + (if c.socket.NonNull? && c.onDisconnected then [DisconnectedEvent] else [])
    ensures r == c.(socket := Null, sendQueue := [], events := r.events)
  {
    var d :=
      if c.socket.NonNull? then
        c.(events := c.events + (if c.onDisconnected then [DisconnectedEvent] else []), socket := Null)
      else c;
    d.(sendQueue := [])
  }

  /**
   * _ConnectCompleted: a failed connect is a Disconnect; a successful one
   * invokes OnConnectedCallback, if attached, and arms the first receive.
   */
  function ConnectCompletedState(c: ClientState, socketOk: bool): (r: ClientState)
    ensures !socketOk ==> r == DisconnectState(c)
    ensures socketOk ==> r == c.(events := c.events + (if c.onConnected then [ConnectedEvent] else []))
  {
    if !socketOk then DisconnectState(c)
    else c.(events := c.events + (if c.onConnected then [ConnectedEvent] else []))
  }

  /**
   * SendPacket: a missing packet is ignored. Otherwise the packet joins the
   * tail, and a send starts only if the queue was empty and a socket is there.
   */
  function SendPacketState(c: ClientState, msg: Nullable<seq<byte>>): (r: ClientState)
    requires AllSendable(c.sendQueue) && (msg.NonNull? ==> Sendable(msg.value))
    ensures AllSendable(r.sendQueue)
    ensures msg.Null? ==> r == c
    ensures msg.NonNull? ==>
      && r.sendQueue == c.sendQueue + [msg.value]
      && r.sent == c.sent + (if c.sendQueue == [] && c.socket.NonNull? then [SendBytes(msg.value)] else [])
      && r == c.(sendQueue := r.sendQueue, sent := r.sent)
  {
    if msg.Null? then c
    else
      var e := ClientEnqueue(c.socket.NonNull?, c.sendQueue, msg.value);
      c.(sendQueue := e.0, sent := c.sent + e.1)
  }

  /**
   * _SendProcess: only a completion that reports exactly the head's size
   * without an error retires the head; the next head, if any, is then sent.
   */
  function SendProcessState(c: ClientState, bytes: int, socketOk: bool): (r: ClientState)
    requires AllSendable(c.sendQueue)
    ensures AllSendable(r.sendQueue)
    ensures !Retires(c.sendQueue, bytes, socketOk) ==> r == c
    ensures Retires(c.sendQueue, bytes, socketOk) ==>
      r == c.(sendQueue := c.sendQueue[1..], sent := c.sent + ClientStartSend(c.socket.NonNull?, c.sendQueue[1..]))
  {
    var done := ClientComplete(c.socket.NonNull?, c.sendQueue, bytes, socketOk);
    c.(sendQueue := done.0, sent := c.sent + done.1)
  }

  /** The handler invocations for a run of completed frames: one per frame when the handler is attached. */
  function PacketEvents(onPacketReceived: bool, frames: seq<seq<byte>>): (r: seq<ClientEvent>)
    ensures !onPacketReceived ==> r == []
    ensures onPacketReceived ==>
      |r| == |frames| && forall i :: 0 <= i < |frames| ==> r[i] == PacketEvent(Sessions.Image(0, frames[i]))
  {
    if !onPacketReceived || frames == [] then []
    else [PacketEvent(Sessions.Image(0, frames[0]))] + PacketEvents(onPacketReceived, frames[1..])
  }

  /**
   * _OnReceive: the resolver reassembles the chunk, and each completed packet
   * goes to OnPacketReceivedCallback, with sender 0, if one is attached.
   */
  function OnReceiveState(c: ClientState, chunk: seq<byte>): ClientState
    requires WellFormed(c.pending + chunk)
  {
    var f := Frames(c.pending + chunk);
    c.(pending := f.1, events := c.events + PacketEvents(c.onPacketReceived, f.0))
  }

  /**
   * _RecvProcess as written: it disconnects when no bytes arrived OR when the
   * receive reported no error, so a good receive is dropped and a failed one
   * that carried bytes is read.
   */
  function RecvProcessAsWritten(c: ClientState, chunk: seq<byte>, socketOk: bool, rearm: RearmOutcome): ClientState
    requires WellFormed(c.pending + chunk)
  {
    if |chunk| <= 0 || socketOk then DisconnectState(c)
    else
      var got := OnReceiveState(c, chunk);
      if got.socket.NonNull? && rearm.Faulted? then DisconnectState(got) else got
  }

  /**
   * _RecvProcess as the other client and the server write it: no bytes or a
   * socket error disconnect; otherwise the bytes are read, and a re-arm that
   * fails for a reason other than a closed socket disconnects as well.
   */
  function RecvProcessState(c: ClientState, chunk: seq<byte>, socketOk: bool, rearm: RearmOutcome): ClientState
    requires WellFormed(c.pending + chunk)
  {
    if |chunk| <= 0 || !socketOk then DisconnectState(c)
    else
      var got := OnReceiveState(c, chunk);
      if got.socket.NonNull? && rearm.Faulted? then DisconnectState(got) else got
  }

  // ---------------------------------------------------------- properties

  /**
   * A good receive delivers: with the handler attached, one packet per
   * completed frame reaches it, in stream order and with sender 0, and the
   * unfinished tail stays in the resolver.
   */
  lemma RecvProcessDelivers(c: ClientState, chunk: seq<byte>, rearm: RearmOutcome)
    requires WellFormed(c.pending + chunk) && |chunk| > 0 && !(c.socket.NonNull? && rearm.Faulted?)
    ensures var r, f := RecvProcessState(c, chunk, true, rearm), Frames(c.pending + chunk);
      && r == c.(pending := f.1, events := r.events)
      && r.events[..|c.events|] == c.events
      && (c.onPacketReceived ==>
            |r.events| == |c.events| + |f.0|
            && forall i :: 0 <= i < |f.0| ==>
                 r.events[|c.events| + i] == PacketEvent(Sessions.Image(0, f.0[i]))
                 && r.events[|c.events| + i].packet.senderIndex == 0)
      && (!c.onPacketReceived ==> r.events == c.events)
  {
    var r, f := RecvProcessState(c, chunk, true, rearm), Frames(c.pending + chunk);
    assert r.events == c.events + PacketEvents(c.onPacketReceived, f.0);
    assert r.events[..|c.events|] == c.events;
  }

  /**
   * As written, every good receive is taken for a failure: the client
   * disconnects, and no packet reaches the handler however many it carried.
   */
  lemma AsWrittenDropsGoodReceives(c: ClientState, chunk: seq<byte>, rearm: RearmOutcome)
    requires WellFormed(c.pending + chunk)
    ensures RecvProcessAsWritten(c, chunk, true, rearm) == DisconnectState(c)
    ensures forall i :: |c.events| <= i < |DisconnectState(c).events| ==> !DisconnectState(c).events[i].PacketEvent?
  {
  }

  /**
   * The inverted test on a concrete receive: eight bytes forming one
   * header-only packet, received without an error by a connected client with
   * a packet handler. As written the client disconnects and the handler gets
   * nothing; as intended the handler gets the packet and the client stays connected.
   */
  lemma InvertedRecvTest(c: ClientState, chunk: seq<byte>)
    requires c.socket.NonNull? && c.onPacketReceived && c.pending == [] && chunk == [1, 0, 0, 0, 0, 0, 8, 0]
    ensures WellFormed(c.pending + chunk)
    ensures var w := RecvProcessAsWritten(c, chunk, true, Pending); w.socket == Null && w.events == c.events + (if c.onDisconnected then [DisconnectedEvent] else [])
    ensures var r := RecvProcessState(c, chunk, true, Pending);
      r.socket == c.socket && r.events == c.events + [PacketEvent(Sessions.Image(0, chunk))]
  {
    assert c.pending + chunk == chunk;
    assert DeclaredSize(chunk) == 8;
    assert chunk + [] == chunk;
    assert WellFormed(chunk[8..]);
    FramesOfFrame(chunk, []);
  }

  /** A second Disconnect finds no socket: no handler runs again and nothing changes. */
  lemma DisconnectFiresOnce(c: ClientState)
    ensures DisconnectState(DisconnectState(c)) == DisconnectState(c)
  {
  }

  /**
   * Packets sent before a socket exists are queued and never handed to
   * SendAsync, and they hold up the connection made afterwards: once it is
   * established, a new packet finds the queue busy and starts no send.
   */
  lemma EarlySendStalls(c: ClientState, p: seq<byte>, q: seq<byte>, port: int, dns: DnsResult)
    requires c.socket.Null? && c.sendQueue == [] && Sendable(p) && Sendable(q)
    requires ValidClientPort(port) && dns.Addresses? && dns.addresses != []
    ensures var s1 := SendPacketState(c, NonNull(p));
      var s2 := ConnectCompletedState(ConnectState(s1, port, dns).1, true);
      && s1.sendQueue == [p] && s1.sent == c.sent
      && s2.socket.NonNull? && s2.sendQueue == [p]
      && SendPacketState(s2, NonNull(q)).sent == c.sent
  {
  }

  // -------------------------------------------------------------- the class

  class ClientSocket {
    var socket: Nullable<Socket>
    var onConnectedCallback: bool
    var onDisconnectedCallback: bool
    var onPacketReceivedCallback: bool
    var sendQueue: seq<seq<byte>>
    var sent: seq<seq<byte>>
    var events: seq<ClientEvent>
    const sendBuffer: array<byte>
    const resolver: PacketResolver

    ghost predicate Valid()
      reads this, sendBuffer, resolver, resolver.recvBuffer, resolver.recvBuffer.binary
    {
      && resolver.Valid()
      && sendBuffer != resolver.recvBuffer.binary
      && sendBuffer.Length == SocketBufferSize
      && AllSendable(sendQueue)
    }

    /** The client as a value. */
    ghost function State(): ClientState
      reads this, resolver, resolver.recvBuffer, resolver.recvBuffer.binary
      requires resolver.recvBuffer.Valid() && 0 <= resolver.currentPosition <= MaxPacketBinaryLength
    {
      ClientState(socket, onConnectedCallback, onDisconnectedCallback, onPacketReceivedCallback,
                  sendQueue, sent, events, resolver.Pending())
    }

    constructor ()
      ensures Valid() && State() == InitialState()
    {
      socket := Null;
      onConnectedCallback := false;
      onDisconnectedCallback := false;
      onPacketReceivedCallback := false;
      sendQueue := [];
      sent := [];
      events := [];
      sendBuffer := new byte[SocketBufferSize](_ => 0);
      resolver := new PacketResolver();
    }

    /** The three handler properties, set by the host. */
    method SetCallbacks(onConnected: bool, onDisconnected: bool, onPacketReceived: bool)
      requires Valid()
      modifies this
      ensures Valid()
      ensures State() == old(State()).(onConnected := onConnected, onDisconnected := onDisconnected,
                                      onPacketReceived := onPacketReceived)
    {
      onConnectedCallback := onConnected;
      onDisconnectedCallback := onDisconnected;
      onPacketReceivedCallback := onPacketReceived;
    }

    /** IsConnected, with `linkUp` what the socket reports as Connected. */
    function IsConnected(linkUp: bool): (r: bool)
      reads this
      ensures r <==> socket.NonNull? && linkUp
    {
      if socket.Null? then false else linkUp
    }

    /** Connect; when ConnectAsync completes at once the caller runs ConnectCompleted next. */
    method Connect(port: int, dns: DnsResult) returns (err: ENetError)
      requires Valid()
      modifies this
      ensures Valid()
      ensures (err, State()) == ConnectState(old(State()), port, dns)
    {
      if socket.NonNull? {
        return Client_SocketAlreadyUsed;
      }
      if port <= 0 || port > 0xFFFF {
        return Client_InvalidPortRange;
      }
      if dns.DnsThrows? {
        return Client_InvalidHost;
      }
      var ip := dns.addresses;
      if |ip| == 0 {
        return Client_InvalidHost;
      }
      var address := ip[0];
      socket := NonNull(Socket(address));
      return Success;
    }

    method Disconnect()
      requires Valid()
      modifies this
      ensures Valid()
      ensures State() == DisconnectState(old(State()))
    {
      if socket.NonNull? {
        if onDisconnectedCallback {
          events := events + [DisconnectedEvent];
        }
        socket := Null;
      }
      sendQueue := [];
    }

    /** _ConnectCompleted; when the armed receive completes at once the caller runs RecvProcess next. */
    method ConnectCompleted(socketOk: bool)
      requires Valid()
      modifies this
      ensures Valid()
      ensures State() == ConnectCompletedState(old(State()), socketOk)
    {
      if !socketOk {
        Disconnect();
        return;
      }
      if onConnectedCallback {
        events := events + [ConnectedEvent];
      }
    }

    /** SendPacket: the queue keeps a copy of the packet's Binary as it is now. */
    method SendPacket(msg: Packet?)
      requires Valid() && (msg != null ==> msg.Valid() && Sendable(msg.binary[..]))
      modifies this, sendBuffer
      ensures Valid()
      ensures State() == SendPacketState(old(State()), if msg == null then Null else NonNull(old(msg.binary[..])))
    {
      if msg == null {
        return;
      }
      ghost var c0 := State();
      var p := msg.binary[..];
      var working := |sendQueue| > 0;
      sendQueue := sendQueue + [p];
      assert sendQueue == ClientEnqueue(c0.socket.NonNull?, c0.sendQueue, p).0;
      if !working {
        StartSendAsync();
      }
      assert State() == SendPacketState(c0, NonNull(p));
    }

    /** _StartSendAsync: the head's bytes are copied into the send buffer and handed to SendAsync. */
    method StartSendAsync()
      requires sendBuffer.Length == SocketBufferSize && AllSendable(sendQueue)
      modifies this, sendBuffer
      ensures socket == old(socket) && events == old(events) && sendQueue == old(sendQueue)
      ensures onConnectedCallback == old(onConnectedCallback) && onDisconnectedCallback == old(onDisconnectedCallback)
      ensures onPacketReceivedCallback == old(onPacketReceivedCallback)
      ensures sent == old(sent) + ClientStartSend(socket.NonNull?, sendQueue)
      ensures sent != old(sent) ==> sendBuffer[..SizeOf(sendQueue[0])] == SendBytes(sendQueue[0])
    {
      if socket.Null? {
        return;
      }
      if |sendQueue| == 0 {
        return;
      }
      var msg := sendQueue[0];
      CopyToSendBuffer(sendBuffer, msg);
      sent := sent + [SendBytes(msg)];
    }

    method SendProcess(bytes: int, socketOk: bool)
      requires Valid()
      modifies this, sendBuffer
      ensures Valid()
      ensures State() == SendProcessState(old(State()), bytes, socketOk)
    {
      if bytes <= 0 || !socketOk {
        return;
      }
      if |sendQueue| <= 0 {
        return;
      }
      var sendSize := SizeOf(sendQueue[0]);
      if bytes != sendSize {
        return;
      }
      sendQueue := sendQueue[1..];
      if |sendQueue| > 0 {
        StartSendAsync();
      }
    }

    /** _RecvProcess with the failure test corrected (see RecvProcessAsWritten). */
    method RecvProcess(chunk: seq<byte>, socketOk: bool, rearm: RearmOutcome)
      requires Valid() && WellFormed(resolver.Pending() + chunk)
      modifies this, resolver, resolver.recvBuffer.binary
      ensures Valid()
      ensures State() == RecvProcessState(old(State()), chunk, socketOk, rearm)
    {
      if |chunk| <= 0 || !socketOk {
        Disconnect();
        return;
      }
      OnReceive(chunk);
      if socket.NonNull? {
        if rearm.Faulted? {
          Disconnect();
        }
      }
    }

    /** _OnReceive: the resolver's completions, each passed to _MessageResolveComplete. */
    method OnReceive(chunk: seq<byte>)
      requires Valid() && WellFormed(resolver.Pending() + chunk)
      modifies this, resolver, resolver.recvBuffer.binary
      ensures Valid()
      ensures State() == OnReceiveState(old(State()), chunk)
    {
      ghost var c0 := State();
      assert Chunk(chunk, 0, |chunk|) == chunk;
      var completions := resolver.ResolveProcess(chunk, 0, |chunk|);
      DeliverAll(completions);
      assert State() == OnReceiveState(c0, chunk);
    }

    /** The loop over the completed packets. */
    method DeliverAll(completions: seq<seq<byte>>)
      modifies this
      ensures events == old(events) + PacketEvents(onPacketReceivedCallback, completions)
      ensures socket == old(socket) && sendQueue == old(sendQueue) && sent == old(sent)
      ensures onConnectedCallback == old(onConnectedCallback) && onDisconnectedCallback == old(onDisconnectedCallback)
      ensures onPacketReceivedCallback == old(onPacketReceivedCallback)
    {
      ghost var delivered := PacketEvents(onPacketReceivedCallback, completions);
      var i := 0;
      while i < |completions|
        invariant 0 <= i <= |completions|
        invariant onPacketReceivedCallback ==> |delivered| == |completions| && events == old(events) + delivered[..i]
        invariant !onPacketReceivedCallback ==> events == old(events)
        invariant socket == old(socket) && sendQueue == old(sendQueue) && sent == old(sent)
        invariant onConnectedCallback == old(onConnectedCallback) && onDisconnectedCallback == old(onDisconnectedCallback)
        invariant onPacketReceivedCallback == old(onPacketReceivedCallback)
      {
        MessageResolveComplete(completions[i]);
        if onPacketReceivedCallback {
          Sessions.PrefixStep(delivered, i, PacketEvent(Sessions.Image(0, completions[i])));
          AppendAssoc(old(events), delivered[..i], [delivered[i]]);
        }
        i := i + 1;
      }
      Sessions.PrefixAll(delivered);
    }

    /**
     * _MessageResolveComplete: without OnPacketReceivedCallback nothing
     * happens; otherwise the bytes become a packet (sender 0) handed to it.
     */
    method MessageResolveComplete(frame: seq<byte>)
      modifies this
      ensures events == old(events) + (if onPacketReceivedCallback then [PacketEvent(Sessions.Image(0, frame))] else [])
      ensures socket == old(socket) && sendQueue == old(sendQueue) && sent == old(sent)
      ensures onConnectedCallback == old(onConnectedCallback) && onDisconnectedCallback == old(onDisconnectedCallback)
      ensures onPacketReceivedCallback == old(onPacketReceivedCallback)
    {
      if !onPacketReceivedCallback {
        return;
      }
      var recvPacket := new Packet.FromRecv(NonNull(frame), |frame|);
      events := events + [PacketEvent(PacketImage(recvPacket.senderIndex, recvPacket.binary[..]))];
    }
  }
}
