/**
 * The send queue every connection keeps (server sessions and both clients):
 * packets wait in arrival order, the head is copied into the send buffer and
 * handed to SendAsync, and only a completion reporting exactly the head's size
 * retires it. A queued packet is the Binary it had when it was queued.
 */
module SendQueues {
  import opened NetDefine
  import opened Packets

  /** A packet whose size field SetBuffer accepts: any other size throws when the packet's turn comes. */
  predicate Queueable(p: seq<byte>) {
    IsBinary(p) && 0 <= SizeOf(p) <= SocketBufferSize
  }

  predicate AllQueueable(q: seq<seq<byte>>) {
    forall i :: 0 <= i < |q| ==> Queueable(q[i])
  }

  /** BlockCopy of `Size` bytes out of the packet's Binary stays inside the Binary. */
  predicate Sendable(p: seq<byte>) {
    Queueable(p) && SizeOf(p) <= MaxPacketBinaryLength
  }

  /** The bytes a send hands to the socket: the packet's first `Size` bytes. */
  function SendBytes(p: seq<byte>): (r: seq<byte>)
    requires Sendable(p)
    ensures |r| == SizeOf(p)
  {
    p[..SizeOf(p)]
  }

  /**
   * A send completion retires the head only when it carries no error, moved
   * bytes, and moved exactly as many bytes as the head's size field says.
   */
  predicate Retires(q: seq<seq<byte>>, bytes: int, socketOk: bool)
    requires AllQueueable(q)
  {
    bytes > 0 && socketOk && q != [] && bytes == SizeOf(q[0])
  }

  /**
   * SendPacket's queue step: the packet joins the tail, and a send is due
   * exactly when the queue was empty before.
   */
  function Enqueue(q: seq<seq<byte>>, p: seq<byte>): (r: (seq<seq<byte>>, bool))
    ensures r.0 == q + [p] && |r.0| == |q| + 1 && r.0[|q|] == p
    ensures r.1 <==> q == []
    ensures AllQueueable(q) && Queueable(p) ==> AllQueueable(r.0)
  {
    assert forall i :: 0 <= i < |q| ==> (q + [p])[i] == q[i];
    (q + [p], |q| <= 0)
  }

  /** A completion that does not retire the head changes nothing; one that does removes exactly the head. */
  function Complete(q: seq<seq<byte>>, bytes: int, socketOk: bool): (r: seq<seq<byte>>)
    requires AllQueueable(q)
    ensures AllQueueable(r)
    ensures !Retires(q, bytes, socketOk) ==> r == q
    ensures Retires(q, bytes, socketOk) ==> r == q[1..] && |r| == |q| - 1
  {
    if bytes <= 0 || !socketOk then q
    else if |q| <= 0 then q
    else if bytes != SizeOf(q[0]) then q
    else q[1..]
  }

  /** A head whose size field is 0 is never retired: no completion reports 0 bytes and is accepted. */
  lemma ZeroSizeStalls(q: seq<seq<byte>>, bytes: int, socketOk: bool)
    requires AllQueueable(q) && q != [] && SizeOf(q[0]) == 0
    ensures Complete(q, bytes, socketOk) == q
  {
  }

  /** A partial send (fewer bytes than the head's size) never retires the head either. */
  lemma PartialSendStalls(q: seq<seq<byte>>, bytes: int, socketOk: bool)
    requires AllQueueable(q) && q != [] && bytes < SizeOf(q[0])
    ensures Complete(q, bytes, socketOk) == q
  {
  }

  /** The sends due for a queue: the bytes of its sendable packets, in queue order. */
  function SendOrder(q: seq<seq<byte>>): seq<seq<byte>>
    requires AllQueueable(q)
  {
    if q == [] then []
    else (if Sendable(q[0]) then [SendBytes(q[0])] else []) + SendOrder(q[1..])
  }

  predicate PositiveSizes(q: seq<seq<byte>>)
    requires AllQueueable(q)
  {
    forall i :: 0 <= i < |q| ==> SizeOf(q[i]) > 0
  }

  /** SetBuffer plus BlockCopy: the head's first `Size` bytes go to the front of the send buffer. */
  method CopyToSendBuffer(sendBuffer: array<byte>, msg: seq<byte>)
    requires sendBuffer.Length == SocketBufferSize && Sendable(msg)
    modifies sendBuffer
    ensures sendBuffer[..SizeOf(msg)] == SendBytes(msg)
  {
    var size := SizeOf(msg);
    forall i | 0 <= i < size {
      sendBuffer[i] := msg[i];
    }
    assert sendBuffer[..size] == msg[..size];
  }

  // ------------------------------------------------------ the client queues

  /**
   * The clients copy the head without a guard: a packet whose size SetBuffer
   * refuses, or that BlockCopy cannot take out of its Binary, throws. Their
   * queues therefore only ever hold packets that copy.
   */
  predicate AllSendable(q: seq<seq<byte>>) {
    forall i :: 0 <= i < |q| ==> Sendable(q[i])
  }

  /**
   * A client's _StartSendAsync: without a socket, or with nothing queued,
   * nothing is sent; otherwise the head's bytes are handed to SendAsync. The
   * result lists the sends issued.
   */
  function ClientStartSend(hasSocket: bool, q: seq<seq<byte>>): (r: seq<seq<byte>>)
    requires AllSendable(q)
    ensures r == [] <==> !hasSocket || q == []
    ensures r != [] ==> r == [SendBytes(q[0])]
  {
    if !hasSocket then []
    else if |q| == 0 then []
    else [SendBytes(q[0])]
  }

  /**
   * A client's SendPacket queue step: the packet joins the tail, and a send
   * starts only when the queue was empty before.
   */
  function ClientEnqueue(hasSocket: bool, q: seq<seq<byte>>, p: seq<byte>): (r: (seq<seq<byte>>, seq<seq<byte>>))
    requires AllSendable(q) && Sendable(p)
    ensures r.0 == q + [p] && AllSendable(r.0)
    ensures r.1 == if q == [] && hasSocket then [SendBytes(p)] else []
  {
    var e := Enqueue(q, p);
    assert forall i :: 0 <= i < |q| ==> e.0[i] == q[i];
    (e.0, if e.1 then ClientStartSend(hasSocket, e.0) else [])
  }

  /**
   * A client's _SendProcess: a completion that retires the head is followed
   * by a send of the next head, if one is left; any other completion changes nothing.
   */
  function ClientComplete(hasSocket: bool, q: seq<seq<byte>>, bytes: int, socketOk: bool): (r: (seq<seq<byte>>, seq<seq<byte>>))
    requires AllSendable(q)
    ensures AllSendable(r.0)
    ensures !Retires(q, bytes, socketOk) ==> r == (q, [])
    ensures Retires(q, bytes, socketOk) ==> r == (q[1..], ClientStartSend(hasSocket, q[1..]))
  {
    var rest := Complete(q, bytes, socketOk);
    if rest == q then (q, [])
    else (rest, if 0 < |rest| then ClientStartSend(hasSocket, rest) else [])
  }

  /** The sends a client issues after its head went out, when every send completes fully. */
  function ClientDrain(q: seq<seq<byte>>): seq<seq<byte>>
    requires AllSendable(q) && PositiveSizes(q)
    decreases |q|
  {
    if q == [] then []
    else
      var r := ClientComplete(true, q, SizeOf(q[0]), true);
      assert forall i :: 0 <= i < |r.0| ==> r.0[i] == q[i + 1];
      r.1 + ClientDrain(r.0)
  }

  /**
   * FIFO order on a client: with a socket, the head in flight and every send
   * completing fully, the sends issued are every queued packet, once each, in
   * the order they were queued.
   */
  lemma {:induction false} ClientFifo(q: seq<seq<byte>>)
    requires AllSendable(q) && PositiveSizes(q) && q != []
    ensures [SendBytes(q[0])] + ClientDrain(q) == SendOrder(q)
    decreases |q|
  {
    var t := q[1..];
    assert forall i :: 0 <= i < |t| ==> t[i] == q[i + 1];
    if t != [] {
      ClientFifo(t);
    }
  }
}
