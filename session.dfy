/**
 * One server-side connection: its socket, its index in the server's table, the
 * handlers the server attaches, its send queue with the server's drop rule,
 * and its packet resolver. `SessionState` is a session seen as a value (what
 * the server's table holds); class `Session` is the object whose methods update
 * it in place, each tied to the function on `SessionState` it performs.
 */
module Sessions {
  import opened NetDefine
  import opened Packets
  import opened Resolver
  import opened SendQueues

  /**
   * _StartSendAsync's queue step: heads whose copy into the send buffer throws
   * are dropped, and the first head that copies is handed to SendAsync. The
   * second component lists the sends issued: none or that head's bytes.
   */
  function StartSend(q: seq<seq<byte>>): (r: (seq<seq<byte>>, seq<seq<byte>>))
    requires AllQueueable(q)
    ensures AllQueueable(r.0) && |r.0| <= |q| && r.0 == q[|q| - |r.0|..]
    ensures forall i :: 0 <= i < |q| - |r.0| ==> !Sendable(q[i])
    ensures r.0 == [] ==> r.1 == []
    ensures r.0 != [] ==> Sendable(r.0[0]) && r.1 == [SendBytes(r.0[0])]
    decreases |q|
  {
    if |q| <= 0 then (q, [])
    else if SizeOf(q[0]) > MaxPacketBinaryLength then
      var rest := q[1..];
      if 0 < |rest| then StartSend(rest) else (rest, [])
    else (q, [SendBytes(q[0])])
  }

  /**
   * SendProcess's queue step: a completion that retires the head is followed
   * by a send of the next head, if any is left.
   */
  function CompleteSend(q: seq<seq<byte>>, bytes: int, socketOk: bool): (r: (seq<seq<byte>>, seq<seq<byte>>))
    requires AllQueueable(q)
    ensures AllQueueable(r.0)
    ensures !Retires(q, bytes, socketOk) ==> r == (q, [])
    ensures Retires(q, bytes, socketOk) ==> r == StartSend(q[1..])
  {
    var rest := Complete(q, bytes, socketOk);
    if rest == q then (q, [])
    else if 0 < |rest| then StartSend(rest)
    else (rest, [])
  }

  /** The head of a non-empty queue is sendable and is what was last handed to SendAsync. */
  predicate HeadInFlight(q: seq<seq<byte>>, sent: seq<seq<byte>>)
    requires AllQueueable(q)
  {
    q != [] ==> Sendable(q[0]) && sent != [] && sent[|sent| - 1] == SendBytes(q[0])
  }

  /**
   * The sends issued when every send completes fully, one completion after
   * the other, until the queue is empty.
   */
  function Drain(q: seq<seq<byte>>): seq<seq<byte>>
    requires AllQueueable(q) && PositiveSizes(q)
    decreases |q|
  {
    if q == [] then []
    else
      var r := CompleteSend(q, SizeOf(q[0]), true);
      r.1 + Drain(r.0)
  }

  /** Dropping unsendable heads does not change which sends are due. */
  lemma {:induction false} StartSendOrder(q: seq<seq<byte>>)
    requires AllQueueable(q)
    ensures StartSend(q).1 + (if StartSend(q).0 == [] then [] else SendOrder(StartSend(q).0[1..])) == SendOrder(q)
    decreases |q|
  {
    if q != [] {
      if SizeOf(q[0]) > MaxPacketBinaryLength {
        StartSendOrder(q[1..]);
      }
    }
  }

  /**
   * FIFO order: with the head in flight and every send completing fully, the
   * head and then the sends issued by the completions are exactly the sendable
   * packets of the queue, in the order they were queued.
   */
  lemma {:induction false} FifoOrder(q: seq<seq<byte>>)
    requires AllQueueable(q) && PositiveSizes(q) && q != [] && Sendable(q[0])
    ensures [SendBytes(q[0])] + Drain(q) == SendOrder(q)
    decreases |q|
  {
    var r := CompleteSend(q, SizeOf(q[0]), true);
    assert r == StartSend(q[1..]);
    StartSendOrder(q[1..]);
    if r.0 != [] {
      assert forall i :: 0 <= i < |r.0| ==> r.0[i] == q[|q| - |r.0| + i];
      FifoOrder(r.0);
    }
  }

  /** A server session as a value. */
  datatype SessionState = SessionState(
    socket: Nullable<Socket>,
    index: int,
    ip: string,
    sendCallback: bool,      // SendPacketCallback is attached
    sendAllCallback: bool,   // SendPacketAllCallback is attached
    processCallback: bool,   // PacketProcessCallback is attached
    queue: seq<seq<byte>>,
    sent: seq<seq<byte>>,    // the byte runs handed to SendAsync, in order
    lastRecvTime: int,
    pending: seq<byte>)      // the bytes the resolver holds of an unfinished packet

  /** The session invariant: sendable queue entries and the head in flight. */
  predicate Sane(s: SessionState) {
    AllQueueable(s.queue) && HeadInFlight(s.queue, s.sent) && Incomplete(s.pending) && WellFormed(s.pending)
  }

  /**
   * Reset: queue emptied, handlers detached, socket, address and index
   * cleared, the receive clock restarted. The resolver is not touched, so the
   * bytes it holds stay.
   */
  function ResetState(s: SessionState, now: int): (r: SessionState)
    ensures r.queue == [] && r.socket == Null && r.ip == "" && r.index == 0
    ensures !r.sendCallback && !r.sendAllCallback && !r.processCallback
    ensures r.lastRecvTime == now && r.sent == s.sent && r.pending == s.pending
  {
    s.(queue := [], sendCallback := false, sendAllCallback := false, processCallback := false,
       socket := Null, ip := "", index := 0, lastRecvTime := now)
  }

  /** Reset as it is evidently meant for reuse: the resolver starts over as well. */
  function RecycleState(s: SessionState, now: int): (r: SessionState)
    ensures r == ResetState(s, now).(pending := [])
    ensures Sane(s) ==> Sane(r)
  {
    ResetState(s, now).(pending := [])
  }

  /** SetClientSocket: a missing socket changes nothing; otherwise socket, peer address and clock are set. */
  function SetClientSocketState(s: SessionState, socket: Nullable<Socket>, now: int): (r: SessionState)
    ensures socket.Null? ==> r == s
    ensures socket.NonNull? ==> r == s.(socket := socket, ip := socket.value.remoteEndPoint, lastRecvTime := now)
  {
    if socket.Null? then s
    else s.(socket := socket, ip := socket.value.remoteEndPoint, lastRecvTime := now)
  }

  /**
   * SendPacket: a missing packet is refused and nothing changes; otherwise the
   * packet joins the tail, a send starts if the queue was empty, and the answer is Success.
   */
  function SendPacketState(s: SessionState, msg: Nullable<seq<byte>>): (r: (ENetError, SessionState))
    requires AllQueueable(s.queue) && (msg.NonNull? ==> Queueable(msg.value))
    ensures msg.Null? ==> r == (Session_SendPacketIsNull, s)
    ensures msg.NonNull? ==> r == (Success, EnqueueState(s, msg.value))
  {
    if msg.Null? then (Session_SendPacketIsNull, s)
    else (Success, EnqueueState(s, msg.value))
  }

  /**
   * The queue half of SendPacket: the packet joins the tail; a send starts
   * only if the queue was empty, and then the packet either goes out at once
   * or, when its copy fails, is dropped again.
   */
  function EnqueueState(s: SessionState, p: seq<byte>): (r: SessionState)
    requires AllQueueable(s.queue) && Queueable(p)
    ensures AllQueueable(r.queue)
    ensures s.queue != [] ==> r == s.(queue := s.queue + [p])
    ensures s.queue == [] && Sendable(p) ==> r == s.(queue := [p], sent := s.sent + [SendBytes(p)])
    ensures s.queue == [] && !Sendable(p) ==> r == s
  {
    var e := Enqueue(s.queue, p);
    if e.1 then
      var st := StartSend(e.0);
      s.(queue := st.0, sent := s.sent + st.1)
    else
      s.(queue := e.0)
  }

  /** SendProcess on values. */
  function SendProcessState(s: SessionState, bytes: int, socketOk: bool): (r: SessionState)
    requires AllQueueable(s.queue)
    ensures AllQueueable(r.queue)
    ensures !Retires(s.queue, bytes, socketOk) ==> r == s
    ensures Retires(s.queue, bytes, socketOk) ==>
      r == s.(queue := StartSend(s.queue[1..]).0, sent := s.sent + StartSend(s.queue[1..]).1)
  {
    var c := CompleteSend(s.queue, bytes, socketOk);
    s.(queue := c.0, sent := s.sent + c.1)
  }

  /** The packet a completed frame becomes: `Packet(buffer, size)` tagged with the session's index. */
  function Image(index: int, frame: seq<byte>): PacketImage {
    PacketImage(index, RecvBinary(NonNull(frame), |frame|))
  }

  /** The rebuilt packet starts with the frame's bytes and its size field says the frame's length. */
  lemma ImageSpec(index: int, frame: seq<byte>)
    requires IsFrame(frame)
    ensures var r := Image(index, frame);
      r.senderIndex == index && IsBinary(r.binary) && r.binary[..|frame|] == frame && SizeOf(r.binary) == |frame|
  {
    var b := Image(index, frame).binary;
    RecvBinarySpec(NonNull(frame), |frame|);
    assert b[..|frame|][6] == frame[6] && b[..|frame|][7] == frame[7];
  }

  function Images(index: int, frames: seq<seq<byte>>): (r: seq<PacketImage>)
    ensures |r| == |frames| && forall i :: 0 <= i < |r| ==> r[i] == Image(index, frames[i])
  {
    if frames == [] then [] else [Image(index, frames[0])] + Images(index, frames[1..])
  }

  /**
   * OnReceive: the resolver reassembles the chunk behind the bytes it holds.
   * With PacketProcessCallback attached, every completed packet is handed to
   * it, tagged with the session's index, and the clock is refreshed; without
   * one the packets are discarded and the clock is left alone.
   */
  function ReceiveState(s: SessionState, chunk: seq<byte>, now: int): (SessionState, seq<PacketImage>)
    requires WellFormed(s.pending + chunk)
  {
    var f := Frames(s.pending + chunk);
    DeliverState(s.(pending := f.1), f.0, now)
  }

  /**
   * What OnReceive does, stated outright: the resolver keeps the unfinished
   * tail of the stream; with PacketProcessCallback attached the callback
   * receives one packet per completed frame, in stream order, tagged with the
   * session's index, and the clock is refreshed; without one nothing is delivered.
   */
  lemma ReceiveStateSpec(s: SessionState, chunk: seq<byte>, now: int)
    requires WellFormed(s.pending + chunk)
    ensures var r, f := ReceiveState(s, chunk, now), Frames(s.pending + chunk);
      && r.0 == s.(pending := f.1, lastRecvTime := r.0.lastRecvTime)
      && (s.processCallback ==> |r.1| == |f.0| && forall i :: 0 <= i < |f.0| ==> r.1[i] == Image(s.index, f.0[i]))
      && (!s.processCallback ==> r.1 == [])
      && r.0.lastRecvTime == (if s.processCallback && f.0 != [] then now else s.lastRecvTime)
  {
  }

  /** The delivery half of OnReceive: completed packets handed on, the clock refreshed if any was. */
  function DeliverState(s: SessionState, frames: seq<seq<byte>>, now: int): (SessionState, seq<PacketImage>) {
    var delivered := if s.processCallback then Images(s.index, frames) else [];
    (s.(lastRecvTime := if delivered != [] then now else s.lastRecvTime), delivered)
  }

  /** Idle time: milliseconds since the session last received (or was connected). */
  function LastRecvTimePassed(s: SessionState, now: int): (r: int)
    ensures s.lastRecvTime + r == now
  {
    now - s.lastRecvTime
  }

  // --------------------------------------------------------- the invariant

  lemma ResetSane(s: SessionState, now: int)
    requires Sane(s)
    ensures Sane(ResetState(s, now))
  {
  }

  lemma SendPacketSane(s: SessionState, msg: Nullable<seq<byte>>)
    requires Sane(s) && (msg.NonNull? ==> Queueable(msg.value))
    ensures Sane(SendPacketState(s, msg).1)
  {
    if msg.NonNull? {
      EnqueueSane(s, msg.value);
    }
  }

  lemma EnqueueSane(s: SessionState, p: seq<byte>)
    requires Sane(s) && Queueable(p)
    ensures Sane(EnqueueState(s, p))
  {
    if s.queue != [] {
      assert Sane(EnqueueState(s, p));
    } else if Sendable(p) {
      assert Sane(EnqueueState(s, p));
    }
  }

  lemma SendProcessSane(s: SessionState, bytes: int, socketOk: bool)
    requires Sane(s)
    ensures Sane(SendProcessState(s, bytes, socketOk))
  {
  }

  lemma ReceiveSane(s: SessionState, chunk: seq<byte>, now: int)
    requires Sane(s) && WellFormed(s.pending + chunk)
    ensures Sane(ReceiveState(s, chunk, now).0)
  {
    FramesSpec(s.pending + chunk);
  }

  // ----------------------------------------------------- the stale tail

  /**
   * Six bytes left buffered by a client that disconnected mid-packet stay in
   * the recycled session. The next client's first packet, a header-only packet
   * of protocol 8, is then read behind them: what comes out is a bogus
   * eight-byte packet made of the six stale bytes and the first two bytes of
   * the real one.
   */
  lemma StaleTailMisframes(s: SessionState, now: int, stale: seq<byte>, p: seq<byte>)
    requires s.pending == stale && stale == [0, 0, 0, 0, 0, 0] && p == [8, 0, 0, 0, 0, 0, 8, 0]
    ensures WellFormed(ResetState(s, now).pending + p) && WellFormed(p)
    ensures Frames(ResetState(s, now).pending + p).0 == [stale + p[..2]]
    ensures Frames(p).0 == [p]
  {
    var t := stale + p;
    assert t == [0, 0, 0, 0, 0, 0, 8, 0, 0, 0, 0, 0, 8, 0];
    assert DeclaredSize(t) == 8;
    assert t[..8] == stale + p[..2];
    assert t[8..] == [0, 0, 0, 0, 8, 0];
    assert Frames(t[8..]) == ([], t[8..]);
    assert DeclaredSize(p) == 8;
    assert p[..8] == p && p[8..] == [];
    assert Frames(p[8..]) == ([], []);
  }

  /** With the corrected recycling a new client's stream is framed on its own. */
  lemma RecycledReceivesAlone(s: SessionState, now: int, stream: seq<byte>)
    requires WellFormed(stream)
    ensures WellFormed(RecycleState(s, now).pending + stream)
    ensures Frames(RecycleState(s, now).pending + stream) == Frames(stream)
  {
    assert RecycleState(s, now).pending + stream == stream;
  }

  // -------------------------------------------------------------- the class

  class Session {
    var clientSocket: Nullable<Socket>
    var sessionIndex: int
    var clientIPAddress: string
    var sendPacketCallback: bool
    var sendPacketAllCallback: bool
    var packetProcessCallback: bool
    var sendQueue: seq<seq<byte>>
    var sent: seq<seq<byte>>
    var lastRecvTime: int
    /** SendEventArgs.Count: how many bytes of the send buffer the current send covers. */
    var sendCount: int
    const sendBuffer: array<byte>
    const resolver: PacketResolver

    ghost predicate Valid()
      reads this, sendBuffer, resolver, resolver.recvBuffer, resolver.recvBuffer.binary
    {
      && resolver.Valid()
      && sendBuffer != resolver.recvBuffer.binary
      && SendValid()
    }

    /** The send side: queued packets are queueable and the head's bytes are in the send buffer. */
    ghost predicate SendValid()
      reads this, sendBuffer
    {
      && sendBuffer.Length == SocketBufferSize
      && AllQueueable(sendQueue)
      && (sendQueue != [] ==>
            && Sendable(sendQueue[0]) && sendCount == SizeOf(sendQueue[0])
            && sendBuffer[..sendCount] == SendBytes(sendQueue[0]))
    }

    /** The session as a value. */
    ghost function State(): SessionState
      reads this, resolver, resolver.recvBuffer, resolver.recvBuffer.binary
      requires resolver.recvBuffer.Valid() && 0 <= resolver.currentPosition <= MaxPacketBinaryLength
    {
      SessionState(clientSocket, sessionIndex, clientIPAddress,
                   sendPacketCallback, sendPacketAllCallback, packetProcessCallback,
                   sendQueue, sent, lastRecvTime, resolver.Pending())
    }

    /** Everything but the queue, the send log, the clock and the resolver. */
    ghost function Fields(): (Nullable<Socket>, int, string, bool, bool, bool)
      reads this
    {
      (clientSocket, sessionIndex, clientIPAddress, sendPacketCallback, sendPacketAllCallback, packetProcessCallback)
    }

    constructor (now: int)
      ensures Valid() && fresh(sendBuffer) && fresh(resolver) && fresh(resolver.recvBuffer) && fresh(resolver.recvBuffer.binary)
      ensures State() == SessionState(Null, 0, "", false, false, false, [], [], now, [])
    {
      var r := new PacketResolver();
      resolver := r;
      sendBuffer := new byte[SocketBufferSize](_ => 0);
      sent := [];
      sendCount := 0;
      new;
      Reset(now);
    }

    method Reset(now: int)
      requires resolver.Valid()
      modifies this
      ensures State() == ResetState(old(State()), now)
    {
      sendQueue := [];
      sendPacketAllCallback := false;
      sendPacketCallback := false;
      packetProcessCallback := false;
      clientSocket := Null;
      clientIPAddress := "";
      sessionIndex := 0;
      lastRecvTime := now;
    }

    method SetClientSocket(socket: Nullable<Socket>, now: int)
      requires resolver.Valid()
      modifies this
      ensures State() == SetClientSocketState(old(State()), socket, now)
    {
      if socket.Null? {
        return;
      }
      clientSocket := socket;
      clientIPAddress := socket.value.remoteEndPoint;
      lastRecvTime := now;
    }

    /** SendPacket: the queue keeps a copy of the packet's Binary as it is now. */
    method SendPacket(msg: Packet?) returns (err: ENetError)
      requires Valid() && (msg != null ==> msg.Valid() && Queueable(msg.binary[..]))
      modifies this, sendBuffer
      ensures Valid()
      ensures (err, State()) == SendPacketState(old(State()), if msg == null then Null else NonNull(old(msg.binary[..])))
    {
      if msg == null {
        return Session_SendPacketIsNull;
      }
      ghost var s0 := State();
      var p := msg.binary[..];
      var currentCount := |sendQueue|;
      sendQueue := sendQueue + [p];
      assert sendQueue == Enqueue(s0.queue, p).0;
      if currentCount <= 0 {
        assert sendQueue == [p];
        StartSendAsync();
        assert State() == s0.(queue := StartSend([p]).0, sent := s0.sent + StartSend([p]).1);
      } else {
        assert sendQueue[0] == s0.queue[0];
        assert State() == s0.(queue := s0.queue + [p]);
      }
      return Success;
    }

    /** _StartSendAsync, with the drop-and-retry path of a failing copy. */
    method StartSendAsync()
      requires sendBuffer.Length == SocketBufferSize
      requires AllQueueable(sendQueue)
      modifies this, sendBuffer
      ensures sendQueue == StartSend(old(sendQueue)).0 && sent == old(sent) + StartSend(old(sendQueue)).1
      ensures sendQueue != [] ==> sendCount == SizeOf(sendQueue[0]) && sendBuffer[..sendCount] == SendBytes(sendQueue[0])
      ensures Fields() == old(Fields()) && lastRecvTime == old(lastRecvTime)
      decreases |sendQueue|
    {
      if |sendQueue| <= 0 {
        return;
      }
      var msg := sendQueue[0];
      var size := SizeOf(msg);
      if size > MaxPacketBinaryLength {
        sendCount := size;
        sendQueue := sendQueue[1..];
        if 0 < |sendQueue| {
          StartSendAsync();
        }
        return;
      }
      sendCount := size;
      CopyToSendBuffer(sendBuffer, msg);
      sent := sent + [SendBytes(msg)];
    }

    method SendProcess(bytes: int, socketOk: bool)
      requires Valid()
      modifies this, sendBuffer
      ensures Valid()
      ensures State() == SendProcessState(old(State()), bytes, socketOk)
    {
      if bytes <= 0 || !socketOk {
        return;
      }
      if 0 >= |sendQueue| {
        return;
      }
      var sendSize := SizeOf(sendQueue[0]);
      if bytes != sendSize {
        return;
      }
      sendQueue := sendQueue[1..];
      if 0 < |sendQueue| {
        StartSendAsync();
      }
    }

    /** Disconnect: the socket is shut down and closed (not modelled), then the session is reset. */
    method Disconnect(now: int)
      requires resolver.Valid()
      modifies this
      ensures State() == ResetState(old(State()), now)
    {
      Reset(now);
    }

    /** OnReceive, with _MessageResolveComplete run on every completed packet. */
    method OnReceive(buffer: seq<byte>, offset: int, transfered: int, now: int) returns (delivered: seq<PacketImage>)
      requires Valid() && 0 <= offset && (transfered > 0 ==> offset + transfered <= |buffer|)
      requires WellFormed(resolver.Pending() + Chunk(buffer, offset, transfered))
      modifies this, resolver, resolver.recvBuffer.binary
      ensures Valid()
      ensures (State(), delivered) == ReceiveState(old(State()), Chunk(buffer, offset, transfered), now)
    {
      ghost var s0 := State();
      var completions := resolver.ResolveProcess(buffer, offset, transfered);
      ghost var s1 := State();
      assert s1 == s0.(pending := resolver.Pending());
      delivered := DeliverAll(completions, now);
      assert (State(), delivered) == DeliverState(s1, completions, now);
    }

    /** The loop over the completed packets, each handed to _MessageResolveComplete. */
    method DeliverAll(completions: seq<seq<byte>>, now: int) returns (delivered: seq<PacketImage>)
      modifies this
      ensures delivered == if packetProcessCallback then Images(sessionIndex, completions) else []
      ensures lastRecvTime == if delivered != [] then now else old(lastRecvTime)
      ensures Fields() == old(Fields()) && sendQueue == old(sendQueue) && sent == old(sent) && sendCount == old(sendCount)
    {
      ghost var pc, images := packetProcessCallback, Images(sessionIndex, completions);
      delivered := [];
      var i := 0;
      while i < |completions|
        invariant 0 <= i <= |completions|
        invariant Fields() == old(Fields()) && sendQueue == old(sendQueue) && sent == old(sent) && sendCount == old(sendCount)
        invariant pc ==> delivered == images[..i]
        invariant !pc ==> delivered == []
        invariant lastRecvTime == if pc && i > 0 then now else old(lastRecvTime)
      {
        var image := MessageResolveComplete(completions[i], now);
        if image.NonNull? {
          PrefixStep(images, i, image.value);
          delivered := delivered + [image.value];
        }
        i := i + 1;
      }
      PrefixAll(images);
    }

    /**
     * _MessageResolveComplete: without PacketProcessCallback nothing happens;
     * otherwise the packet is rebuilt from the bytes, tagged with the index,
     * handed to the callback (the result), and the clock is refreshed.
     */
    method MessageResolveComplete(frame: seq<byte>, now: int) returns (image: Nullable<PacketImage>)
      modifies this
      ensures image == if packetProcessCallback then NonNull(Image(sessionIndex, frame)) else Null
      ensures lastRecvTime == if packetProcessCallback then now else old(lastRecvTime)
      ensures Fields() == old(Fields()) && sendQueue == old(sendQueue) && sent == old(sent) && sendCount == old(sendCount)
    {
      if !packetProcessCallback {
        return Null;
      }
      var recvPacket := new Packet.FromRecv(NonNull(frame), |frame|);
      recvPacket.senderIndex := sessionIndex;
      image := NonNull(PacketImage(recvPacket.senderIndex, recvPacket.binary[..]));
      lastRecvTime := now;
    }

    function GetLastRecvTimePassed(now: int): (r: int)
      reads this
      ensures lastRecvTime + r == now
    {
      now - lastRecvTime
    }
  }

  /** One more element of a prefix. */
  lemma PrefixStep<T>(s: seq<T>, i: int, v: T)
    requires 0 <= i < |s| && s[i] == v
    ensures s[..i + 1] == s[..i] + [v]
  {
  }

  lemma PrefixAll<T>(s: seq<T>)
    ensures s[..|s|] == s
  {
  }
}
