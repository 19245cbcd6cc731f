/**
 * The server's connection and traffic counters. `Counters` is the record of
 * every integer counter; class `NetworkStatistic` holds them as fields and
 * updates them in place, each method tied to the function on `Counters` it
 * performs. The per-second rates and the update clock are not modelled.
 */
module NetworkStatistics {
  import opened NetDefine

  datatype Counters = Counters(
    totalConnection: int,     // connections accepted since the last reset
    currentConnection: int,   // connections open now
    maxConnection: int,       // most connections open at once
    totalRecvCount: int,
    totalRecvBytes: int,
    checkRecvCount: int,      // received since the last rate update
    checkRecvBytes: int,
    totalSendCount: int,
    totalSendBytes: int,
    checkSendCount: int,      // sent since the last rate update
    checkSendBytes: int)

  /** The connection counters alone. */
  function Connections(c: Counters): (int, int, int) {
    (c.totalConnection, c.currentConnection, c.maxConnection)
  }

  /** The receive counters alone. */
  function RecvCounters(c: Counters): (int, int, int, int) {
    (c.totalRecvCount, c.totalRecvBytes, c.checkRecvCount, c.checkRecvBytes)
  }

  /** The send counters alone. */
  function SendCounters(c: Counters): (int, int, int, int) {
    (c.totalSendCount, c.totalSendBytes, c.checkSendCount, c.checkSendBytes)
  }

  /** Reset: every counter is zero. */
  function ResetCounters(): (r: Counters)
    ensures Connections(r) == (0, 0, 0)
    ensures RecvCounters(r) == (0, 0, 0, 0) && SendCounters(r) == (0, 0, 0, 0)
  {
    Counters(0, 0, 0, 0, 0, 0, 0, 0, 0, 0, 0)
  }

  /**
   * Connect: one more connection accepted and open; the maximum follows the
   * open count when it rises above it. Traffic counters are untouched.
   */
  function ConnectCounters(c: Counters): (r: Counters)
    ensures r.totalConnection == c.totalConnection + 1
    ensures r.currentConnection == c.currentConnection + 1
    ensures r.maxConnection >= c.maxConnection && r.maxConnection >= r.currentConnection
    ensures r.maxConnection == c.maxConnection || r.maxConnection == r.currentConnection
    ensures RecvCounters(r) == RecvCounters(c) && SendCounters(r) == SendCounters(c)
  {
    var current := c.currentConnection + 1;
    c.(totalConnection := c.totalConnection + 1, currentConnection := current,
       maxConnection := Max(c.maxConnection, current))
  }

  /** Disconnect: one connection fewer open; nothing else changes. */
  function DisconnectCounters(c: Counters): (r: Counters)
    ensures r.currentConnection == c.currentConnection - 1
    ensures r.totalConnection == c.totalConnection && r.maxConnection == c.maxConnection
    ensures RecvCounters(r) == RecvCounters(c) && SendCounters(r) == SendCounters(c)
  {
    c.(currentConnection := c.currentConnection - 1)
  }

  /** Send(n): one packet of `n` bytes counted in both send tallies; nothing else changes. */
  function SendCounted(c: Counters, n: int): (r: Counters)
    ensures r.totalSendCount == c.totalSendCount + 1 && r.checkSendCount == c.checkSendCount + 1
    ensures r.totalSendBytes == c.totalSendBytes + n && r.checkSendBytes == c.checkSendBytes + n
    ensures Connections(r) == Connections(c) && RecvCounters(r) == RecvCounters(c)
  {
    c.(totalSendCount := c.totalSendCount + 1, checkSendCount := c.checkSendCount + 1,
       totalSendBytes := c.totalSendBytes + n, checkSendBytes := c.checkSendBytes + n)
  }

  /** Recv(n): one packet of `n` bytes counted in both receive tallies; nothing else changes. */
  function RecvCounted(c: Counters, n: int): (r: Counters)
    ensures r.totalRecvCount == c.totalRecvCount + 1 && r.checkRecvCount == c.checkRecvCount + 1
    ensures r.totalRecvBytes == c.totalRecvBytes + n && r.checkRecvBytes == c.checkRecvBytes + n
    ensures Connections(r) == Connections(c) && SendCounters(r) == SendCounters(c)
  {
    c.(totalRecvCount := c.totalRecvCount + 1, checkRecvCount := c.checkRecvCount + 1,
       totalRecvBytes := c.totalRecvBytes + n, checkRecvBytes := c.checkRecvBytes + n)
  }

  // ------------------------------------------------ the connection invariant

  /** Accepted connections bound the peak, and the peak bounds the open count. */
  predicate Ordered(c: Counters) {
    c.totalConnection >= c.maxConnection >= c.currentConnection
  }

  datatype ConnectionEvent = Opened | Closed

  /** The counters after a run of connection events, applied in order. */
  function Replay(c: Counters, events: seq<ConnectionEvent>): Counters
    decreases |events|
  {
    if events == [] then c
    else
      var next := if events[0].Opened? then ConnectCounters(c) else DisconnectCounters(c);
      Replay(next, events[1..])
  }

  /** Each connection event keeps the counters ordered. */
  lemma StepOrdered(c: Counters, e: ConnectionEvent)
    requires Ordered(c)
    ensures Ordered(if e.Opened? then ConnectCounters(c) else DisconnectCounters(c))
  {
  }

  /** Ordered counters stay ordered through any run of connection events. */
  lemma {:induction false} ReplayOrdered(c: Counters, events: seq<ConnectionEvent>)
    requires Ordered(c)
    ensures Ordered(Replay(c, events))
    decreases |events|
  {
    if events != [] {
      StepOrdered(c, events[0]);
      ReplayOrdered(if events[0].Opened? then ConnectCounters(c) else DisconnectCounters(c), events[1..]);
    }
  }

  /** Starting from Reset, any run of Connect and Disconnect keeps Total >= Max >= Current. */
  lemma FromResetOrdered(events: seq<ConnectionEvent>)
    ensures Ordered(Replay(ResetCounters(), events))
  {
    ReplayOrdered(ResetCounters(), events);
  }

  /** The open count is the number of connects minus the number of disconnects. */
  lemma {:induction false} ReplayCurrent(c: Counters, events: seq<ConnectionEvent>)
    ensures Replay(c, events).currentConnection == c.currentConnection + Count(events, Opened) - Count(events, Closed)
    ensures Replay(c, events).totalConnection == c.totalConnection + Count(events, Opened)
    decreases |events|
  {
    if events != [] {
      ReplayCurrent(if events[0].Opened? then ConnectCounters(c) else DisconnectCounters(c), events[1..]);
    }
  }

  /** How often `e` occurs in `events`. */
  function Count(events: seq<ConnectionEvent>, e: ConnectionEvent): nat
    decreases |events|
  {
    if events == [] then 0 else (if events[0] == e then 1 else 0) + Count(events[1..], e)
  }

  // -------------------------------------------------------------- the class

  class NetworkStatistic {
    var totalConnection: int
    var currentConnection: int
    var maxConnection: int
    var totalRecvCount: int
    var totalRecvBytes: int
    var checkRecvCount: int
    var checkRecvBytes: int
    var totalSendCount: int
    var totalSendBytes: int
    var checkSendCount: int
    var checkSendBytes: int

    /** The counters as a value. */
    function Value(): Counters
      reads this
    {
      Counters(totalConnection, currentConnection, maxConnection,
               totalRecvCount, totalRecvBytes, checkRecvCount, checkRecvBytes,
               totalSendCount, totalSendBytes, checkSendCount, checkSendBytes)
    }

    constructor ()
      ensures Value() == ResetCounters()
    {
      totalConnection, currentConnection, maxConnection := 0, 0, 0;
      totalRecvCount, totalRecvBytes, checkRecvCount, checkRecvBytes := 0, 0, 0, 0;
      totalSendCount, totalSendBytes, checkSendCount, checkSendBytes := 0, 0, 0, 0;
    }

    method Connect()
      modifies this
      ensures Value() == ConnectCounters(old(Value()))
    {
      totalConnection := totalConnection + 1;
      currentConnection := currentConnection + 1;
      maxConnection := Max(maxConnection, currentConnection);
    }

    method Disconnect()
      modifies this
      ensures Value() == DisconnectCounters(old(Value()))
    {
      currentConnection := currentConnection - 1;
    }

    method Send(size: int)
      modifies this
      ensures Value() == SendCounted(old(Value()), size)
    {
      totalSendCount := totalSendCount + 1;
      checkSendCount := checkSendCount + 1;
      totalSendBytes := totalSendBytes + size;
      checkSendBytes := checkSendBytes + size;
    }

    method Recv(size: int)
      modifies this
      ensures Value() == RecvCounted(old(Value()), size)
    {
      totalRecvCount := totalRecvCount + 1;
      checkRecvCount := checkRecvCount + 1;
      totalRecvBytes := totalRecvBytes + size;
      checkRecvBytes := checkRecvBytes + size;
    }

    method Reset()
      modifies this
      ensures Value() == ResetCounters()
    {
      totalConnection := 0;
      currentConnection := 0;
      maxConnection := 0;
      totalRecvCount := 0;
      totalRecvBytes := 0;
      checkRecvCount := 0;
      checkRecvBytes := 0;
      totalSendCount := 0;
      totalSendBytes := 0;
      checkSendCount := 0;
      checkSendBytes := 0;
    }
  }
}
