/**
 * The polling client for game loops: a connection state the host reads, a
 * send queue drained by completions, and a receive queue the host empties in
 * batches with GetReceivePackets. `UnityState` is the client as a value; class
 * `UnityClientSocket` updates it in place, each method tied to the function on
 * `UnityState` it performs. Socket calls are replaced by their outcomes.
 */
module UnityClient {
  import opened NetDefine
  import opened Packets
  import opened Resolver
  import opened SendQueues
  import Sessions

  datatype UnityState = UnityState(
    state: ClientSocketState,
    socket: Nullable<Socket>,
    receiveStarted: bool,
    sendQueue: seq<seq<byte>>,
    sent: seq<seq<byte>>,         // the byte runs handed to SendAsync, in order
    recvQueue: seq<PacketImage>,  // received packets waiting for the host
    pending: seq<byte>)           // the bytes the resolver holds of an unfinished packet

  /** The client right after construction. */
  function InitialState(): (r: UnityState)
    ensures r.state == None && r.socket == Null && !r.receiveStarted
    ensures r.sendQueue == [] && r.recvQueue == [] && r.pending == []
    ensures !Busy(r) && StartReceiveState(r).0 == Refused && GetReceivePacketsState(r).0.Null?
  {
    UnityState(None, Null, false, [], [], [], [])
  }

  /** A connection attempt is running or established. */
  predicate Busy(c: UnityState) {
    c.state == Connecting || c.state == Connected
  }

  /**
   * Connect, with `dns` the outcome of looking up the host. A busy client
   * refuses and changes nothing. Otherwise a bad port or a failed lookup
   * leaves the state ConnectFailed, and a good one creates the socket for the
   * first address found and waits for the connect to complete.
   */
  function ConnectState(c: UnityState, port: int, dns: DnsResult): (r: (ENetError, UnityState))
    ensures Busy(c) ==> r == (Client_SocketAlreadyUsed, c)
    ensures !Busy(c) && !ValidClientPort(port) ==> r == (Client_InvalidPortRange, c.(state := ConnectFailed))
    ensures !Busy(c) && ValidClientPort(port) && (dns.DnsThrows? || dns.addresses == []) ==>
      r == (Client_InvalidHost, c.(state := ConnectFailed))
    ensures r.0 == Success <==> !Busy(c) && ValidClientPort(port) && dns.Addresses? && dns.addresses != []
    ensures r.0 == Success ==> r.1 == c.(state := Connecting, socket := NonNull(Socket(dns.addresses[0])))
  {
    if c.state == Connecting || c.state == Connected then (Client_SocketAlreadyUsed, c)
    else if port <= 0 || port > 0xFFFF then (Client_InvalidPortRange, c.(state := ConnectFailed))
    else if dns.DnsThrows? then (Client_InvalidHost, c.(state := ConnectFailed))
    else if |dns.addresses| == 0 then (Client_InvalidHost, c.(state := ConnectFailed))
    else (Success, c.(state := Connecting, socket := NonNull(Socket(dns.addresses[0]))))
  }

  /**
   * Disconnect(bNotify): an open socket is shut down and dropped, and the
   * state becomes Disconnected if `notify` is set; without a socket the state
   * is kept. Both queues are emptied either way.
   */
  function DisconnectState(c: UnityState, notify: bool): (r: UnityState)
    ensures r.socket == Null && r.sendQueue == [] && r.recvQueue == []
    ensures r.state == if c.socket.NonNull? && notify then Disconnected else c.state
    ensures r.receiveStarted == c.receiveStarted && r.sent == c.sent && r.pending == c.pending
  {
    var d := if c.socket.NonNull? then c.(state := if notify then Disconnected else c.state, socket := Null) else c;
    d.(sendQueue := [], recvQueue := [])
  }

  /**
   * _ConnectCompleted: a failed connect drops the socket silently and ends in
   * ConnectFailed; a successful one is Connected, with the receive not yet
   * started, as long as the socket is still there.
   */
  function ConnectCompletedState(c: UnityState, socketOk: bool): (r: UnityState)
    ensures r.state == Connected <==> socketOk && c.socket.NonNull?
    ensures r.state != Connected ==> r.state == ConnectFailed
    ensures r.state == Connected ==> r == c.(state := Connected, receiveStarted := false)
    ensures !socketOk ==> r == DisconnectState(c, false).(state := ConnectFailed)
  {
    if !socketOk then DisconnectState(c, false).(state := ConnectFailed)
    else if c.socket.NonNull? then c.(receiveStarted := false, state := Connected)
    else c.(state := ConnectFailed)
  }

  /**
   * SendPacket: ignored for a missing packet or a client that is not
   * Connected. Otherwise the packet joins the tail of the queue, and a send
   * starts only if the queue was empty and a socket is there.
   */
  function SendPacketState(c: UnityState, msg: Nullable<seq<byte>>): (r: UnityState)
    requires AllSendable(c.sendQueue) && (msg.NonNull? ==> Sendable(msg.value))
    ensures AllSendable(r.sendQueue)
    ensures msg.Null? || c.state != Connected ==> r == c
    ensures msg.NonNull? && c.state == Connected ==>
      && r.sendQueue == c.sendQueue + [msg.value]
      && r.sent == c.sent + (if c.sendQueue == [] && c.socket.NonNull? then [SendBytes(msg.value)] else [])
      && r == c.(sendQueue := r.sendQueue, sent := r.sent)
  {
    if msg.Null? then c
    else if c.state != Connected then c
    else
      var e := ClientEnqueue(c.socket.NonNull?, c.sendQueue, msg.value);
      c.(sendQueue := e.0, sent := c.sent + e.1)
  }

  /**
   * _SendProcess: only a completion that reports exactly the head's size
   * without an error retires the head; the next head, if any, is then sent.
   */
  function SendProcessState(c: UnityState, bytes: int, socketOk: bool): (r: UnityState)
    requires AllSendable(c.sendQueue)
    ensures AllSendable(r.sendQueue)
    ensures !Retires(c.sendQueue, bytes, socketOk) ==> r == c
    ensures Retires(c.sendQueue, bytes, socketOk) ==>
      r == c.(sendQueue := c.sendQueue[1..], sent := c.sent + ClientStartSend(c.socket.NonNull?, c.sendQueue[1..]))
  {
    var done := ClientComplete(c.socket.NonNull?, c.sendQueue, bytes, socketOk);
    c.(sendQueue := done.0, sent := c.sent + done.1)
  }

  /**
   * How StartReceive ends: refused with false, the receive armed with true, or
   * a NullReferenceException out of `mSocket.ReceiveAsync` when a Connected
   * client has no socket left.
   */
  datatype ReceiveStart = Refused | Armed | NullSocketThrows

  /**
   * StartReceive: refused unless Connected and not yet started. Otherwise the
   * flag is set first; the receive is then armed on the socket, or, with no
   * socket, the call throws and the flag stays set with nothing armed.
   */
  function StartReceiveState(c: UnityState): (r: (ReceiveStart, UnityState))
    ensures r.0 == Refused <==> c.state != Connected || c.receiveStarted
    ensures r.0 == Armed <==> c.state == Connected && !c.receiveStarted && c.socket.NonNull?
    ensures r.1 == if r.0 == Refused then c else c.(receiveStarted := true)
  {
    if c.state != Connected then (Refused, c)
    else if c.receiveStarted then (Refused, c)
    else if c.socket.Null? then (NullSocketThrows, c.(receiveStarted := true))
    else (Armed, c.(receiveStarted := true))
  }

  /**
   * _RecvProcess, with the received bytes as `chunk` and the outcome of
   * re-arming the receive as `rearm`. No bytes or a socket error disconnect
   * with notification. Otherwise the resolver takes the bytes and every
   * completed packet joins the receive queue; a re-arm that fails for a
   * reason other than a closed socket disconnects as well.
   */
  function RecvProcessState(c: UnityState, chunk: seq<byte>, socketOk: bool, rearm: RearmOutcome): UnityState
    requires WellFormed(c.pending + chunk)
  {
    if |chunk| <= 0 || !socketOk then DisconnectState(c, true)
    else
      var got := OnReceiveState(c, chunk);
      if got.socket.NonNull? && rearm.Faulted? then DisconnectState(got, true) else got
  }

  /** _OnReceive: the resolver reassembles the chunk, and each completed packet is queued with sender 0. */
  function OnReceiveState(c: UnityState, chunk: seq<byte>): UnityState
    requires WellFormed(c.pending + chunk)
  {
    var f := Frames(c.pending + chunk);
    c.(pending := f.1, recvQueue := c.recvQueue + Sessions.Images(0, f.0))
  }

  /**
   * What a receive completion does, stated outright: a successful one keeps
   * the unfinished tail in the resolver and adds one packet per completed
   * frame, in stream order and tagged with sender 0, behind those already
   * queued; a failed one is a notifying Disconnect.
   */
  lemma RecvProcessSpec(c: UnityState, chunk: seq<byte>, socketOk: bool, rearm: RearmOutcome)
    requires WellFormed(c.pending + chunk)
    ensures var r, f := RecvProcessState(c, chunk, socketOk, rearm), Frames(c.pending + chunk);
      && (|chunk| == 0 || !socketOk ==> r == DisconnectState(c, true))
      && (|chunk| > 0 && socketOk && !(c.socket.NonNull? && rearm.Faulted?) ==>
            && r == c.(pending := f.1, recvQueue := r.recvQueue)
            && |r.recvQueue| == |c.recvQueue| + |f.0|
            && r.recvQueue[..|c.recvQueue|] == c.recvQueue
            && forall i :: 0 <= i < |f.0| ==>
                 r.recvQueue[|c.recvQueue| + i] == Sessions.Image(0, f.0[i]) && r.recvQueue[|c.recvQueue| + i].senderIndex == 0)
      && (|chunk| > 0 && socketOk && c.socket.NonNull? && rearm.Faulted? ==>
            r == DisconnectState(c.(pending := f.1), true))
  {
    var r, f := RecvProcessState(c, chunk, socketOk, rearm), Frames(c.pending + chunk);
    if |chunk| > 0 && socketOk && !(c.socket.NonNull? && rearm.Faulted?) {
      assert r.recvQueue == c.recvQueue + Sessions.Images(0, f.0);
      assert r.recvQueue[..|c.recvQueue|] == c.recvQueue;
    }
  }

  /**
   * GetReceivePackets: nothing (null) unless Connected with packets waiting;
   * otherwise the oldest min(count, 200) packets leave the queue, in arrival
   * order, and the rest stay queued.
   */
  function GetReceivePacketsState(c: UnityState): (r: (Nullable<seq<PacketImage>>, UnityState))
    ensures r.0.Null? <==> c.state != Connected || c.recvQueue == []
    ensures r.0.Null? ==> r.1 == c
    ensures r.0.NonNull? ==>
      && |r.0.value| == Min(|c.recvQueue|, RecvPacketAtOnce) && 0 < |r.0.value|
      && r.0.value + r.1.recvQueue == c.recvQueue
      && r.1 == c.(recvQueue := r.1.recvQueue)
  {
    if c.state != Connected || |c.recvQueue| == 0 then (Null, c)
    else
      var n := Min(|c.recvQueue|, RecvPacketAtOnce);
      assert c.recvQueue[..n] + c.recvQueue[n..] == c.recvQueue;
      (NonNull(c.recvQueue[..n]), c.(recvQueue := c.recvQueue[n..]))
  }

  /** Reset: a silent Disconnect, then state None. */
  function ResetState(c: UnityState): (r: UnityState)
    ensures r.state == None && r.socket == Null && r.sendQueue == [] && r.recvQueue == []
    ensures r == DisconnectState(c, false).(state := None)
  {
    DisconnectState(c, false).(state := None)
  }

  /**
   * _UpdateState, with `linkUp` what the socket reports as Connected: a
   * Connected client whose socket is gone or no longer connected becomes
   * Disconnected; every other state is left as it is.
   */
  function UpdateState(c: UnityState, linkUp: bool): (r: UnityState)
    ensures c.state == Connected && (c.socket.Null? || !linkUp) ==> r == c.(state := Disconnected)
    ensures !(c.state == Connected && (c.socket.Null? || !linkUp)) ==> r == c
  {
    if c.state == Connected then
      if c.socket.Null? then c.(state := Disconnected)
      else if !linkUp then c.(state := Disconnected)
      else c
    else c
  }

  // ---------------------------------------------------------- properties

  /** A second Disconnect, notifying or not, finds no socket and changes nothing. */
  lemma DisconnectIdempotent(c: UnityState, first: bool, second: bool)
    ensures DisconnectState(DisconnectState(c, first), second) == DisconnectState(c, first)
  {
  }

  /** Reset ends in the same place from every state that differs only in connection state. */
  lemma ResetForgetsState(c: UnityState, s: ClientSocketState)
    ensures ResetState(c.(state := s)) == ResetState(c)
  {
  }

  /** StartReceive succeeds at most once: the second call on the result is refused and changes nothing. */
  lemma StartReceiveOnce(c: UnityState)
    ensures var once := StartReceiveState(c).1; StartReceiveState(once) == (Refused, once)
  {
  }

  /**
   * A receive lost to a silent Disconnect. On a Connected client whose receive
   * has not started, Disconnect(false) leaves it Connected without a socket;
   * StartReceive then throws with the flag set, so every later StartReceive is
   * refused, also after a send, a poll or a second Disconnect, and nothing ever
   * reads from the network. Only a completed reconnect arms a receive again.
   */
  lemma SilentDisconnectStrandsReceive(c: UnityState, p: seq<byte>, port: int, dns: DnsResult)
    requires c.state == Connected && !c.receiveStarted && AllSendable(c.sendQueue) && Sendable(p)
    requires ValidClientPort(port) && dns.Addresses? && dns.addresses != []
    ensures var d := DisconnectState(c, false);
      var t := StartReceiveState(d);
      && t.0 == NullSocketThrows && t.1.state == Connected && t.1.receiveStarted
      && StartReceiveState(t.1).0 == Refused
      && StartReceiveState(SendPacketState(t.1, NonNull(p))).0 == Refused
      && StartReceiveState(GetReceivePacketsState(t.1).1).0 == Refused
      && StartReceiveState(DisconnectState(t.1, false)).0 == Refused
      && StartReceiveState(ConnectCompletedState(ConnectState(UpdateState(t.1, true), port, dns).1, true)).0 == Armed
  {
  }

  /**
   * Arrival order end to end: on a Connected client with nothing waiting,
   * after one successful receive that completes at most 200 packets the next
   * poll hands out exactly those packets, in stream order.
   */
  lemma PollReturnsArrivals(c: UnityState, chunk: seq<byte>, rearm: RearmOutcome)
    requires WellFormed(c.pending + chunk) && |chunk| > 0 && !rearm.Faulted?
    requires c.state == Connected && c.recvQueue == []
    requires var f := Frames(c.pending + chunk).0; 0 < |f| <= RecvPacketAtOnce
    ensures var r := RecvProcessState(c, chunk, true, rearm);
      GetReceivePacketsState(r) == (NonNull(Sessions.Images(0, Frames(c.pending + chunk).0)), r.(recvQueue := []))
  {
    var f := Frames(c.pending + chunk).0;
    var r := RecvProcessState(c, chunk, true, rearm);
    assert r.recvQueue == Sessions.Images(0, f);
    assert r.recvQueue[..|f|] == r.recvQueue;
  }

  /**
   * Two polls in a row hand out the oldest packets in order: the second batch
   * continues exactly where the first one stopped.
   */
  lemma {:induction false} PollsContinue(c: UnityState)
    requires c.state == Connected && |c.recvQueue| > RecvPacketAtOnce
    ensures var first := GetReceivePacketsState(c);
      var second := GetReceivePacketsState(first.1);
      && first.0.NonNull? && second.0.NonNull?
      && first.0.value + second.0.value == c.recvQueue[..|first.0.value| + |second.0.value|]
  {
    var first := GetReceivePacketsState(c);
    var second := GetReceivePacketsState(first.1);
    var q, n := c.recvQueue, RecvPacketAtOnce;
    var m := Min(|q| - n, n);
    assert first.0.value == q[..n] && first.1.recvQueue == q[n..];
    assert second.0.value == q[n..][..m];
    assert q[..n] + q[n..][..m] == q[..n + m];
  }

  /**
   * A silent Disconnect on a Connected client keeps it Connected without a
   * socket. A packet sent then is queued but never handed to SendAsync, and it
   * holds up the next connection too: after Update notices the lost socket and
   * a reconnect succeeds, a new packet finds the queue busy and starts no send.
   */
  lemma SilentDisconnectStallsQueue(c: UnityState, p: seq<byte>, q: seq<byte>, port: int, dns: DnsResult)
    requires c.state == Connected && AllSendable(c.sendQueue) && Sendable(p) && Sendable(q)
    requires ValidClientPort(port) && dns.Addresses? && dns.addresses != []
    ensures var d := DisconnectState(c, false);
      var s1 := SendPacketState(d, NonNull(p));
      var s2 := ConnectCompletedState(ConnectState(UpdateState(s1, true), port, dns).1, true);
      && d.state == Connected && d.socket == Null
      && s1.sendQueue == [p] && s1.sent == c.sent
      && s2.state == Connected && s2.socket.NonNull? && s2.sendQueue == [p]
      && SendPacketState(s2, NonNull(q)).sendQueue == [p, q]
      && SendPacketState(s2, NonNull(q)).sent == c.sent
  {
  }

  // -------------------------------------------------------------- the class

  class UnityClientSocket {
    var state: ClientSocketState
    var socket: Nullable<Socket>
    var receiveStarted: bool
    var sendQueue: seq<seq<byte>>
    var sent: seq<seq<byte>>
    var recvQueue: seq<PacketImage>
    const sendBuffer: array<byte>
    const resolver: PacketResolver

    ghost predicate Valid()
      reads this, sendBuffer, resolver, resolver.recvBuffer, resolver.recvBuffer.binary
    {
      && resolver.Valid()
      && sendBuffer != resolver.recvBuffer.binary
      && sendBuffer.Length == SocketBufferSize
      && AllSendable(sendQueue)
    }

    /** The client as a value. */
    ghost function State(): UnityState
      reads this, resolver, resolver.recvBuffer, resolver.recvBuffer.binary
      requires resolver.recvBuffer.Valid() && 0 <= resolver.currentPosition <= MaxPacketBinaryLength
    {
      UnityState(state, socket, receiveStarted, sendQueue, sent, recvQueue, resolver.Pending())
    }

    constructor ()
      ensures Valid() && State() == InitialState()
    {
      state := None;
      socket := Null;
      receiveStarted := false;
      sendQueue := [];
      sent := [];
      recvQueue := [];
      sendBuffer := new byte[SocketBufferSize](_ => 0);
      resolver := new PacketResolver();
    }

    /** IsConnected, with `linkUp` what the socket reports as Connected. */
    function IsConnected(linkUp: bool): (r: bool)
      reads this
      ensures r <==> socket.NonNull? && linkUp
    {
      if socket.Null? then false else linkUp
    }

    /** Connect; when ConnectAsync completes at once the caller runs ConnectCompleted next. */
    method Connect(port: int, dns: DnsResult) returns (err: ENetError)
      requires Valid()
      modifies this
      ensures Valid()
      ensures (err, State()) == ConnectState(old(State()), port, dns)
    {
      if state == Connecting || state == Connected {
        return Client_SocketAlreadyUsed;
      }
      state := Connecting;
      if port <= 0 || port > 0xFFFF {
        state := ConnectFailed;
        return Client_InvalidPortRange;
      }
      if dns.DnsThrows? {
        state := ConnectFailed;
        return Client_InvalidHost;
      }
      var ip := dns.addresses;
      if |ip| == 0 {
        state := ConnectFailed;
        return Client_InvalidHost;
      }
      var address := ip[0];
      socket := NonNull(Socket(address));
      return Success;
    }

    method Disconnect(notify: bool)
      requires Valid()
      modifies this
      ensures Valid()
      ensures State() == DisconnectState(old(State()), notify)
    {
      if socket.NonNull? {
        if notify {
          state := Disconnected;
        }
        socket := Null;
      }
      sendQueue := [];
      recvQueue := [];
    }

    method ConnectCompleted(socketOk: bool)
      requires Valid()
      modifies this
      ensures Valid()
      ensures State() == ConnectCompletedState(old(State()), socketOk)
    {
      if !socketOk {
        Disconnect(false);
        state := ConnectFailed;
        return;
      }
      if socket.NonNull? {
        receiveStarted := false;
        state := Connected;
      } else {
        state := ConnectFailed;
      }
    }

    /** SendPacket: the queue keeps a copy of the packet's Binary as it is now. */
    method SendPacket(msg: Packet?)
      requires Valid() && (msg != null ==> msg.Valid() && Sendable(msg.binary[..]))
      modifies this, sendBuffer
      ensures Valid()
      ensures State() == SendPacketState(old(State()), if msg == null then Null else NonNull(old(msg.binary[..])))
    {
      if msg == null {
        return;
      }
      if state != Connected {
        return;
      }
      ghost var c0 := State();
      var p := msg.binary[..];
      var working := |sendQueue| > 0;
      sendQueue := sendQueue + [p];
      assert sendQueue == ClientEnqueue(c0.socket.NonNull?, c0.sendQueue, p).0;
      if !working {
        StartSendAsync();
      }
      assert State() == SendPacketState(c0, NonNull(p));
    }

    /** _StartSendAsync: the head's bytes are copied into the send buffer and handed to SendAsync. */
    method StartSendAsync()
      requires sendBuffer.Length == SocketBufferSize && AllSendable(sendQueue)
      modifies this, sendBuffer
      ensures state == old(state) && socket == old(socket) && receiveStarted == old(receiveStarted)
      ensures sendQueue == old(sendQueue) && recvQueue == old(recvQueue)
      ensures sent == old(sent) + ClientStartSend(socket.NonNull?, sendQueue)
      ensures sent != old(sent) ==> sendBuffer[..SizeOf(sendQueue[0])] == SendBytes(sendQueue[0])
    {
      if socket.Null? {
        return;
      }
      if |sendQueue| == 0 {
        return;
      }
      var msg := sendQueue[0];
      CopyToSendBuffer(sendBuffer, msg);
      sent := sent + [SendBytes(msg)];
    }

    method SendProcess(bytes: int, socketOk: bool)
      requires Valid()
      modifies this, sendBuffer
      ensures Valid()
      ensures State() == SendProcessState(old(State()), bytes, socketOk)
    {
      if bytes <= 0 || !socketOk {
        return;
      }
      if |sendQueue| <= 0 {
        return;
      }
      var sendSize := SizeOf(sendQueue[0]);
      if bytes != sendSize {
        return;
      }
      sendQueue := sendQueue[1..];
      if |sendQueue| > 0 {
        StartSendAsync();
      }
    }

    /**
     * StartReceive; the outcome says whether the receive was armed, refused,
     * or lost to the exception a missing socket raises. When ReceiveAsync
     * completes at once the caller runs RecvProcess next.
     */
    method StartReceive() returns (outcome: ReceiveStart)
      requires Valid()
      modifies this
      ensures Valid()
      ensures (outcome, State()) == StartReceiveState(old(State()))
    {
      if state != Connected {
        return Refused;
      }
      if receiveStarted {
        return Refused;
      }
      receiveStarted := true;
      if socket.Null? {
        return NullSocketThrows;
      }
      return Armed;
    }

    method RecvProcess(chunk: seq<byte>, socketOk: bool, rearm: RearmOutcome)
      requires Valid() && WellFormed(resolver.Pending() + chunk)
      modifies this, resolver, resolver.recvBuffer.binary
      ensures Valid()
      ensures State() == RecvProcessState(old(State()), chunk, socketOk, rearm)
    {
      if |chunk| <= 0 || !socketOk {
        Disconnect(true);
        return;
      }
      OnReceive(chunk);
      if socket.NonNull? {
        if rearm.Faulted? {
          Disconnect(true);
        }
      }
    }

    /** _OnReceive: the resolver's completions, each passed to _MessageResolveComplete. */
    method OnReceive(chunk: seq<byte>)
      requires Valid() && WellFormed(resolver.Pending() + chunk)
      modifies this, resolver, resolver.recvBuffer.binary
      ensures Valid()
      ensures State() == OnReceiveState(old(State()), chunk)
    {
      ghost var c0 := State();
      assert Chunk(chunk, 0, |chunk|) == chunk;
      var completions := resolver.ResolveProcess(chunk, 0, |chunk|);
      EnqueueAll(completions);
      assert State() == OnReceiveState(c0, chunk);
    }

    /** The loop over the completed packets. */
    method EnqueueAll(completions: seq<seq<byte>>)
      modifies this
      ensures recvQueue == old(recvQueue) + Sessions.Images(0, completions)
      ensures state == old(state) && socket == old(socket) && receiveStarted == old(receiveStarted)
      ensures sendQueue == old(sendQueue) && sent == old(sent)
    {
      ghost var images := Sessions.Images(0, completions);
      var i := 0;
      while i < |completions|
        invariant 0 <= i <= |completions|
        invariant recvQueue == old(recvQueue) + images[..i]
        invariant state == old(state) && socket == old(socket) && receiveStarted == old(receiveStarted)
        invariant sendQueue == old(sendQueue) && sent == old(sent)
      {
        MessageResolveComplete(completions[i]);
        Sessions.PrefixStep(images, i, Sessions.Image(0, completions[i]));
        AppendAssoc(old(recvQueue), images[..i], [images[i]]);
        i := i + 1;
      }
      Sessions.PrefixAll(images);
    }

    /** _MessageResolveComplete: the bytes become a packet (sender 0) at the tail of the receive queue. */
    method MessageResolveComplete(frame: seq<byte>)
      modifies this
      ensures recvQueue == old(recvQueue) + [Sessions.Image(0, frame)]
      ensures state == old(state) && socket == old(socket) && receiveStarted == old(receiveStarted)
      ensures sendQueue == old(sendQueue) && sent == old(sent)
    {
      var recvPacket := new Packet.FromRecv(NonNull(frame), |frame|);
      recvQueue := recvQueue + [PacketImage(recvPacket.senderIndex, recvPacket.binary[..])];
    }

    method GetReceivePackets() returns (packets: Nullable<seq<PacketImage>>)
      requires Valid()
      modifies this
      ensures Valid()
      ensures (packets, State()) == GetReceivePacketsState(old(State()))
    {
      if state != Connected {
        return Null;
      }
      if |recvQueue| == 0 {
        return Null;
      }
      ghost var q := recvQueue;
      var retList: seq<PacketImage> := [];
      while |recvQueue| > 0
        invariant retList + recvQueue == q && |retList| < RecvPacketAtOnce
        invariant state == old(state) && socket == old(socket) && receiveStarted == old(receiveStarted)
        invariant sendQueue == old(sendQueue) && sent == old(sent)
        decreases |recvQueue|
      {
        retList := retList + [recvQueue[0]];
        recvQueue := recvQueue[1..];
        if |retList| >= RecvPacketAtOnce {
          assert q[..RecvPacketAtOnce] == retList && q[RecvPacketAtOnce..] == recvQueue;
          return NonNull(retList);
        }
      }
      assert retList == q;
      return NonNull(retList);
    }

    method Reset()
      requires Valid()
      modifies this
      ensures Valid()
      ensures State() == ResetState(old(State()))
    {
      Disconnect(false);
      state := None;
    }

    /** Update, with `linkUp` what the socket reports as Connected. */
    method Update(linkUp: bool)
      requires Valid()
      modifies this
      ensures Valid()
      ensures State() == UpdateState(old(State()), linkUp)
    {
      if state == Connected {
        if socket.Null? {
          state := Disconnected;
        } else if !linkUp {
          state := Disconnected;
        }
      }
    }
  }
}
