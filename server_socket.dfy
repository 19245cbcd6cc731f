/**
 * The server: a pool of idle sessions, the table of live sessions keyed by
 * their index, the index counter, the idle sweep, unicast and broadcast, and
 * the last-error register. `ServerState` is the server as a value and every
 * operation is a function on it; class `ServerSocket` holds the same state in
 * fields and performs each operation in place.
 *
 * Sessions are held as `SessionState` values. Each of the host's handlers
 * (OnConnected, OnDisconnected, OnPacketReceived) is a flag saying whether it
 * is attached; what an attached handler is given is appended to its log, and
 * a detached one (`?.Invoke` on null) is given nothing.
 */
module Server {
  import opened NetDefine
  import opened Packets
  import opened Resolver
  import opened SendQueues
  import opened Sessions
  import opened NetworkStatistics

  /** The arguments of one OnConnected or OnDisconnected call. */
  datatype Notice = Notice(index: int, ip: string)

  datatype ServerState = ServerState(
    listening: bool,                       // a listener exists
    sessionList: map<int, SessionState>,   // live sessions by index
    sessionPool: seq<SessionState>,        // idle sessions, in queue order
    sessionTimeout: int,
    sessionIndexCounter: int,
    lastError: ENetError,
    statistics: Counters,
    disconnectList: seq<int>,              // ArrangeClients' batch
    connected: seq<Notice>,                // OnConnected calls
    disconnected: seq<Notice>,             // OnDisconnected calls
    received: seq<PacketImage>,            // OnPacketReceived calls
    onConnected: bool,                     // the handlers attached
    onDisconnected: bool,
    onPacketReceived: bool)

  /** A new server: no listener, nothing pooled, the default timeout, no handler attached. */
  function InitialState(): (r: ServerState)
    ensures !r.listening && r.sessionList == map[] && r.sessionPool == []
    ensures r.sessionTimeout == DefaultSessionTimeoutMS && r.lastError == Success
    ensures !r.onConnected && !r.onDisconnected && !r.onPacketReceived
  {
    ServerState(false, map[], [], DefaultSessionTimeoutMS, 0, Success, ResetCounters(), [], [], [], [], false, false, false)
  }

  /** Assigning OnConnected, OnDisconnected and OnPacketReceived (null detaches). */
  function SetHandlersState(st: ServerState, onConnected: bool, onDisconnected: bool, onPacketReceived: bool)
    : (r: ServerState)
    ensures r.onConnected == onConnected && r.onDisconnected == onDisconnected && r.onPacketReceived == onPacketReceived
    ensures r == st.(onConnected := r.onConnected, onDisconnected := r.onDisconnected,
                     onPacketReceived := r.onPacketReceived)
  {
    st.(onConnected := onConnected, onDisconnected := onDisconnected, onPacketReceived := onPacketReceived)
  }

  /** A new session: the constructor ends with Reset. */
  function NewSession(now: int): SessionState {
    SessionState(Null, 0, "", false, false, false, [], [], now, [])
  }

  /** `count` new sessions. */
  function NewSessions(count: nat, now: int): (r: seq<SessionState>)
    ensures |r| == count && forall i :: 0 <= i < count ==> r[i] == NewSession(now)
  {
    if count == 0 then [] else NewSessions(count - 1, now) + [NewSession(now)]
  }

  /** An idle session: no socket, no index, no handlers, nothing queued, nothing buffered. */
  predicate Pooled(s: SessionState) {
    && s.socket.Null? && s.index == 0 && s.ip == ""
    && !s.sendCallback && !s.sendAllCallback && !s.processCallback
    && s.queue == [] && s.pending == [] && Sane(s)
  }

  /** A live session sits at its own index, which the counter has handed out. */
  predicate Live(s: SessionState, key: int, counter: int) {
    s.index == key && 1 <= key <= counter && Sane(s)
  }

  /**
   * The server invariant. While listening, every session started is either
   * pooled or live (`capacity` in all), the open-connection counter is the
   * number of live sessions and the accepted-connection counter is the index
   * counter. Without a listener nothing is pooled or live.
   */
  predicate Inv(st: ServerState, capacity: int) {
    && AllLive(st.sessionList, st.sessionIndexCounter)
    && AllPooled(st.sessionPool)
    && st.disconnectList == []
    && Ordered(st.statistics)
    && (st.listening ==>
          && |st.sessionPool| + |st.sessionList| == capacity
          && st.statistics.currentConnection == |st.sessionList|
          && st.statistics.totalConnection == st.sessionIndexCounter)
    && (!st.listening ==> st.sessionList == map[] && st.sessionPool == [])
  }

  predicate AllLive(t: map<int, SessionState>, counter: int) {
    forall k :: k in t ==> Live(t[k], k, counter)
  }

  predicate AllPooled(pool: seq<SessionState>) {
    forall i :: 0 <= i < |pool| ==> Pooled(pool[i])
  }

  lemma LiveSane(t: map<int, SessionState>, counter: int)
    requires AllLive(t, counter)
    ensures SaneSessions(t)
  {
    forall k | k in t
      ensures Sane(t[k])
    {
      LiveAt(t, counter, k);
    }
  }

  lemma LiveAt(t: map<int, SessionState>, counter: int, k: int)
    requires AllLive(t, counter) && k in t
    ensures Live(t[k], k, counter)
  {
  }

  /** A session taking the next index joins a table of live sessions; no live session had that index. */
  lemma LiveAdd(t: map<int, SessionState>, counter: int, v: SessionState)
    requires AllLive(t, counter) && Live(v, counter + 1, counter + 1)
    ensures counter + 1 !in t && AllLive(t[counter + 1 := v], counter + 1)
  {
    if counter + 1 in t {
      LiveAt(t, counter, counter + 1);
    }
  }

  lemma LiveRemove(t: map<int, SessionState>, counter: int, k: int)
    requires AllLive(t, counter)
    ensures AllLive(t - {k}, counter)
  {
  }

  lemma LiveReplace(t: map<int, SessionState>, counter: int, k: int, v: SessionState)
    requires AllLive(t, counter) && k in t && Live(v, k, counter)
    ensures AllLive(t[k := v], counter)
  {
  }

  lemma PooledTail(pool: seq<SessionState>)
    requires AllPooled(pool) && pool != []
    ensures Pooled(pool[0]) && AllPooled(pool[1..])
  {
    assert forall i :: 0 <= i < |pool| - 1 ==> pool[1..][i] == pool[i + 1];
  }

  lemma PooledAppend(pool: seq<SessionState>, s: SessionState)
    requires AllPooled(pool) && Pooled(s)
    ensures AllPooled(pool + [s])
  {
    assert forall i :: 0 <= i < |pool| ==> (pool + [s])[i] == pool[i];
  }

  /** Every live session's queue is well formed, as SendPacket and OnReceive need. */
  predicate SaneSessions(t: map<int, SessionState>) {
    forall k :: k in t ==> Sane(t[k])
  }

  lemma InitialInv()
    ensures Inv(InitialState(), 0)
  {
  }

  // ------------------------------------------------------------- listening

  /**
   * ListenerSocket.Listen on a new listener: ports 1..65534 are accepted (the
   * upper test is `>=`, so 65535 is refused); a bind or listen failure
   * reports Listener_SocketListenFail.
   */
  function ListenResult(port: int, bindOk: bool): (r: ENetError)
    ensures r == Success <==> 0 < port < 65535 && bindOk
    ensures !(0 < port < 65535) ==> r == Listener_InvalidPortRange
    ensures 0 < port < 65535 && !bindOk ==> r == Listener_SocketListenFail
  {
    if port <= 0 || port >= 65535 then Listener_InvalidPortRange
    else if !bindOk then Listener_SocketListenFail
    else Success
  }

  /** The server refuses port 65535, which both clients accept as a destination. */
  lemma ListenRefusesTopPort(bindOk: bool)
    ensures ListenResult(0xFFFF, bindOk) == Listener_InvalidPortRange && ValidClientPort(0xFFFF)
  {
  }

  /** The number of sessions StartServer creates. */
  function PoolSize(maxConnectionCount: int): (n: nat)
    ensures maxConnectionCount <= 0 ==> n == DefaultSessionCount
    ensures maxConnectionCount > 0 ==> n == maxConnectionCount
  {
    if maxConnectionCount <= 0 then DefaultSessionCount else maxConnectionCount
  }

  /** Destroy: every session is dropped and the listener is gone. */
  function Destroyed(st: ServerState): ServerState {
    st.(sessionList := map[], sessionPool := [], listening := false)
  }

  /**
   * StartServer. With a listener already there nothing changes. Otherwise
   * the pool gains the sessions, statistics and counter are reset, the
   * listener's answer is stored as the last error and returned, and a failed
   * listen is followed by Destroy.
   */
  function StartServerState(st: ServerState, port: int, maxConnectionCount: int, bindOk: bool, now: int)
    : (ENetError, ServerState)
  {
    if st.listening then (Server_ListenSocketAlreadyListening, st)
    else ListenState(PreparedState(st, maxConnectionCount, now), port, bindOk)
  }

  /** StartServer before the listener: the new sessions queued, statistics and index counter reset. */
  function PreparedState(st: ServerState, maxConnectionCount: int, now: int): ServerState {
    st.(sessionPool := st.sessionPool + NewSessions(PoolSize(maxConnectionCount), now),
        statistics := ResetCounters(), sessionIndexCounter := 0)
  }

  /** StartServer's listener: its answer is stored and returned, and a failure is followed by Destroy. */
  function ListenState(st: ServerState, port: int, bindOk: bool): (ENetError, ServerState) {
    var err := ListenResult(port, bindOk);
    var started := st.(listening := true, lastError := err);
    (err, if err == Success then started else Destroyed(started))
  }

  /**
   * StartServer refuses a second listener; otherwise it resets statistics and
   * counter, reports the listener's answer, and either keeps the old pool as a
   * prefix of the grown one (on Success) or is left with nothing (after Destroy).
   */
  lemma StartServerSpec(st: ServerState, port: int, maxConnectionCount: int, bindOk: bool, now: int)
    ensures var r := StartServerState(st, port, maxConnectionCount, bindOk, now);
      && (st.listening ==> r == (Server_ListenSocketAlreadyListening, st))
      && (!st.listening ==> r.0 == ListenResult(port, bindOk) && r.1.lastError == r.0)
      && (!st.listening ==> r.1.statistics == ResetCounters() && r.1.sessionIndexCounter == 0)
      && (!st.listening && r.0 == Success ==>
            && r.1.listening && r.1.sessionList == st.sessionList
            && |r.1.sessionPool| == |st.sessionPool| + PoolSize(maxConnectionCount)
            && r.1.sessionPool[..|st.sessionPool|] == st.sessionPool)
      && (!st.listening && r.0 != Success ==> !r.1.listening && r.1.sessionList == map[] && r.1.sessionPool == [])
  {
    var added := NewSessions(PoolSize(maxConnectionCount), now);
    assert (st.sessionPool + added)[..|st.sessionPool|] == st.sessionPool;
  }

  /** Starting a server that is down makes the invariant hold for the new pool size. */
  lemma StartServerInv(st: ServerState, port: int, maxConnectionCount: int, bindOk: bool, now: int, capacity: int)
    requires Inv(st, capacity)
    ensures Inv(StartServerState(st, port, maxConnectionCount, bindOk, now).1,
                if st.listening then capacity else PoolSize(maxConnectionCount))
  {
    if !st.listening {
      var r := StartServerState(st, port, maxConnectionCount, bindOk, now).1;
      if r.listening {
        assert r.sessionPool == NewSessions(PoolSize(maxConnectionCount), now);
      }
    }
  }

  // ----------------------------------------------------- configuration

  /** SetSessionTimeout: never below the 10-second minimum. */
  function SetSessionTimeoutState(st: ServerState, timeMS: int): (r: ServerState)
    ensures r.sessionTimeout >= MinSessionTimeoutMS && r.sessionTimeout >= timeMS
    ensures r.sessionTimeout == timeMS || r.sessionTimeout == MinSessionTimeoutMS
    ensures r == st.(sessionTimeout := r.sessionTimeout)
  {
    st.(sessionTimeout := Max(timeMS, MinSessionTimeoutMS))
  }

  /** _SetLastError: stores the code and answers whether it is Success. */
  function SetLastErrorState(st: ServerState, err: ENetError): (r: (bool, ServerState))
    ensures r.1 == st.(lastError := err) && (r.0 <==> err == Success)
  {
    (err == Success, st.(lastError := err))
  }

  /** ClearLastError. */
  function ClearLastErrorState(st: ServerState): (r: ServerState)
    ensures r == st.(lastError := Success)
  {
    st.(lastError := Success)
  }

  lemma HandlersInv(st: ServerState, c: bool, d: bool, p: bool, capacity: int)
    requires Inv(st, capacity)
    ensures Inv(SetHandlersState(st, c, d, p), capacity)
  {
  }

  lemma ConfigurationInv(st: ServerState, timeMS: int, err: ENetError, capacity: int)
    requires Inv(st, capacity)
    ensures Inv(SetSessionTimeoutState(st, timeMS), capacity)
    ensures Inv(SetLastErrorState(st, err).1, capacity) && Inv(ClearLastErrorState(st), capacity)
  {
  }

  // ------------------------------------------------------------ admission

  /**
   * _OnSessionConnected. A missing socket is ignored. With the pool empty the
   * last error becomes Server_SessionIsFull and the socket is closed. Otherwise
   * the pool's first session gets the next index, the server's handlers and
   * the socket, joins the table under its index, and OnConnected is raised
   * when attached.
   */
  function AcceptState(st: ServerState, cs: Nullable<Socket>, now: int): (r: ServerState)
    requires cs.NonNull? && st.sessionPool != [] ==> Sane(st.sessionPool[0])
    ensures cs.Null? ==> r == st
    ensures cs.NonNull? && st.sessionPool == [] ==> r == st.(lastError := Server_SessionIsFull)
  {
    if cs.Null? then st
    else if st.sessionPool == [] then st.(lastError := Server_SessionIsFull)
    else
      var admitted := AdmittedState(st, cs, now);
      var index := admitted.sessionIndexCounter;
      ConnectedState(admitted, index, admitted.sessionList[index].ip)
  }

  /** The pool's first session takes the next index, the server's handlers and the socket, and joins the table. */
  function AdmittedState(st: ServerState, cs: Nullable<Socket>, now: int): (r: ServerState)
    requires cs.NonNull? && st.sessionPool != []
    ensures r.sessionIndexCounter in r.sessionList
  {
    var index := st.sessionIndexCounter + 1;
    var client := SetClientSocketState(
      st.sessionPool[0].(index := index, sendCallback := true, sendAllCallback := true, processCallback := true),
      cs, now);
    st.(sessionPool := st.sessionPool[1..], statistics := ConnectCounters(st.statistics),
        sessionIndexCounter := index, sessionList := st.sessionList[index := client])
  }

  /** OnConnected?.Invoke: an attached handler is given the index and address. */
  function ConnectedState(st: ServerState, index: int, ip: string): ServerState {
    st.(connected := if st.onConnected then st.connected + [Notice(index, ip)] else st.connected)
  }

  /**
   * An accept with a session to spare: the pool shrinks by its first session,
   * which goes live under the next index (an index no live session has), with
   * all three handlers, the socket and its peer address, the clock set, and
   * an attached OnConnected is given that index and address. The rest is unchanged.
   */
  lemma AcceptSpec(st: ServerState, cs: Nullable<Socket>, now: int, capacity: int)
    requires Inv(st, capacity) && cs.NonNull? && st.sessionPool != []
    ensures var r, index := AcceptState(st, cs, now), st.sessionIndexCounter + 1;
      && index !in st.sessionList && index >= 1
      && r.sessionIndexCounter == index
      && r.sessionPool == st.sessionPool[1..]
      && r.sessionList.Keys == st.sessionList.Keys + {index}
      && (forall k :: k in st.sessionList ==> r.sessionList[k] == st.sessionList[k])
      && r.sessionList[index] == st.sessionPool[0].(
           index := index, sendCallback := true, sendAllCallback := true, processCallback := true,
           socket := cs, ip := cs.value.remoteEndPoint, lastRecvTime := now)
      && r.connected == st.connected + (if st.onConnected then [Notice(index, cs.value.remoteEndPoint)] else [])
      && r.statistics == ConnectCounters(st.statistics)
      && r.lastError == st.lastError && r.disconnected == st.disconnected && r.received == st.received
      && Handlers(r) == Handlers(st)
  {
  }

  lemma AcceptInv(st: ServerState, cs: Nullable<Socket>, now: int, capacity: int)
    requires Inv(st, capacity)
    ensures Inv(AcceptState(st, cs, now), capacity)
  {
    if cs.NonNull? && st.sessionPool != [] {
      AdmittedInv(st, cs, now, capacity);
    }
  }

  lemma AdmittedInv(st: ServerState, cs: Nullable<Socket>, now: int, capacity: int)
    requires Inv(st, capacity) && cs.NonNull? && st.sessionPool != []
    ensures Inv(AdmittedState(st, cs, now), capacity)
    ensures forall index, ip :: Inv(ConnectedState(AdmittedState(st, cs, now), index, ip), capacity)
  {
    var r, index := AdmittedState(st, cs, now), st.sessionIndexCounter + 1;
    PooledTail(st.sessionPool);
    assert Live(r.sessionList[index], index, index);
    LiveAdd(st.sessionList, st.sessionIndexCounter, r.sessionList[index]);
    StepOrdered(st.statistics, Opened);
  }

  // ------------------------------------------------------------ disconnect

  /**
   * A session leaving the table: Disconnect, then OnDisconnected, both a
   * Reset, with the resolver started over as well (the recycling the pool
   * needs; the code as written leaves the resolver's bytes in place).
   */
  function Recycled(s: SessionState, now: int): (r: SessionState)
    ensures Sane(s) ==> Pooled(r)
    ensures r.lastRecvTime == now && r.sent == s.sent
  {
    RecycleState(ResetState(s, now), now)
  }

  /** The two Resets of _ClientDisconnect as written: the resolver keeps what it held. */
  function RecycledAsWritten(s: SessionState, now: int): (r: SessionState)
    ensures r.pending == s.pending
    ensures r == Recycled(s, now).(pending := s.pending)
  {
    ResetState(ResetState(s, now), now)
  }

  /** The corrected recycling differs from the code exactly when the resolver held bytes. */
  lemma RecyclingDiffers(s: SessionState, now: int)
    ensures Recycled(s, now) == RecycledAsWritten(s, now) <==> s.pending == []
    ensures s.pending != [] ==> !Pooled(RecycledAsWritten(s, now))
  {
    if s.pending != [] {
      assert Recycled(s, now).pending != RecycledAsWritten(s, now).pending;
    }
  }

  /**
   * _ClientDisconnect of a session whose (index, address) are given.
   * An attached OnDisconnected is called first in every case. Only when the index is in
   * the table is the session removed, re-pooled and counted out; otherwise
   * (a repeated call) nothing else changes. The session is re-pooled as
   * `Recycled`, the corrected recycling; the code's is `RecycledAsWritten`.
   */
  function ClientDisconnectState(st: ServerState, index: int, ip: string, now: int): (r: ServerState)
    ensures r.disconnected == st.disconnected + (if st.onDisconnected then [Notice(index, ip)] else [])
    ensures index !in st.sessionList ==> r == st.(disconnected := r.disconnected)
    ensures index in st.sessionList ==>
      && r.sessionList == st.sessionList - {index}
      && r.sessionPool == st.sessionPool + [Recycled(st.sessionList[index], now)]
      && r.statistics == DisconnectCounters(st.statistics)
      && r == st.(sessionList := r.sessionList, sessionPool := r.sessionPool, statistics := r.statistics,
                  disconnected := r.disconnected)
  {
    UnregisteredState(NotifiedState(st, index, ip), index, now)
  }

  /** OnDisconnected?.Invoke: an attached handler is given the index and address. */
  function NotifiedState(st: ServerState, index: int, ip: string): ServerState {
    st.(disconnected := if st.onDisconnected then st.disconnected + [Notice(index, ip)] else st.disconnected)
  }

  /** The rest of _ClientDisconnect: a live index is removed, its session re-pooled and counted out. */
  function UnregisteredState(st: ServerState, index: int, now: int): ServerState {
    if index !in st.sessionList then st
    else
      st.(sessionList := st.sessionList - {index},
          sessionPool := st.sessionPool + [Recycled(st.sessionList[index], now)],
          statistics := DisconnectCounters(st.statistics))
  }

  /** Removing a present key takes one entry away. */
  lemma RemoveCard<K, V>(m: map<K, V>, k: K)
    requires k in m
    ensures |m - {k}| == |m| - 1
  {
    var rest := m - {k};
    assert m.Keys == rest.Keys + {k};
    assert |m.Keys| == |rest.Keys| + 1;
  }

  lemma ClientDisconnectInv(st: ServerState, index: int, ip: string, now: int, capacity: int)
    requires Inv(st, capacity)
    ensures Inv(NotifiedState(st, index, ip), capacity)
    ensures Inv(ClientDisconnectState(st, index, ip, now), capacity)
  {
    UnregisteredInv(NotifiedState(st, index, ip), index, now, capacity);
  }

  lemma UnregisteredInv(st: ServerState, index: int, now: int, capacity: int)
    requires Inv(st, capacity)
    ensures Inv(UnregisteredState(st, index, now), capacity)
  {
    if index in st.sessionList {
      LiveAt(st.sessionList, st.sessionIndexCounter, index);
      LiveRemove(st.sessionList, st.sessionIndexCounter, index);
      RemoveCard(st.sessionList, index);
      PooledAppend(st.sessionPool, Recycled(st.sessionList[index], now));
      StepOrdered(st.statistics, Closed);
    }
  }

  /**
   * The duplicate guard: once a session has been disconnected its index
   * and address are cleared, and a second _ClientDisconnect of it gives an
   * attached OnDisconnected (0, "") and changes nothing else.
   */
  lemma RepeatDisconnect(st: ServerState, index: int, now: int, capacity: int)
    requires Inv(st, capacity) && index in st.sessionList
    ensures var once := ClientDisconnectState(st, index, st.sessionList[index].ip, now);
      var gone := once.sessionPool[|once.sessionPool| - 1];
      && gone.index == 0 && gone.ip == ""
      && ClientDisconnectState(once, gone.index, gone.ip, now)
         == once.(disconnected := once.disconnected + (if st.onDisconnected then [Notice(0, "")] else []))
  {
    var once := ClientDisconnectState(st, index, st.sessionList[index].ip, now);
    ClientDisconnectInv(st, index, st.sessionList[index].ip, now, capacity);
    if 0 in once.sessionList {
      LiveAt(once.sessionList, once.sessionIndexCounter, 0);
    }
  }

  /** DisconnectClient: an unknown index sets Server_SessionNotExists and changes nothing else. */
  function DisconnectClientState(st: ServerState, index: int, now: int): (r: ServerState)
    ensures index !in st.sessionList ==> r == st.(lastError := Server_SessionNotExists)
    ensures index in st.sessionList ==> r == ClientDisconnectState(st, index, st.sessionList[index].ip, now)
  {
    if index !in st.sessionList then st.(lastError := Server_SessionNotExists)
    else ClientDisconnectState(st, index, st.sessionList[index].ip, now)
  }

  lemma DisconnectClientInv(st: ServerState, index: int, now: int, capacity: int)
    requires Inv(st, capacity)
    ensures Inv(DisconnectClientState(st, index, now), capacity)
  {
    if index in st.sessionList {
      ClientDisconnectInv(st, index, st.sessionList[index].ip, now, capacity);
    }
  }

  // ------------------------------------------------------------ idle sweep

  /** A session idle for strictly longer than the timeout. */
  predicate Idle(s: SessionState, timeout: int, now: int) {
    LastRecvTimePassed(s, now) > timeout
  }

  predicate Distinct(xs: seq<int>) {
    forall i, j :: 0 <= i < j < |xs| ==> xs[i] != xs[j]
  }

  /** `order` lists every key of `t` once: the order in which the dictionary yields them. */
  ghost predicate Enumerates(order: seq<int>, t: map<int, SessionState>) {
    && (forall k :: k in t <==> k in order)
    && (forall i :: 0 <= i < |order| ==> order[i] in t)
    && Distinct(order)
  }

  /** ArrangeClients' first loop: the indices of the idle sessions, in table order. */
  function IdleList(t: map<int, SessionState>, order: seq<int>, timeout: int, now: int): seq<int>
    requires forall i :: 0 <= i < |order| ==> order[i] in t
    decreases |order|
  {
    if order == [] then []
    else
      var s := t[order[0]];
      (if Idle(s, timeout, now) then [s.index] else []) + IdleList(t, order[1..], timeout, now)
  }

  lemma DistinctTail(xs: seq<int>)
    requires Distinct(xs) && xs != []
    ensures Distinct(xs[1..]) && xs[0] !in xs[1..]
  {
    var rest := xs[1..];
    assert forall i :: 0 <= i < |rest| ==> rest[i] == xs[i + 1];
  }

  lemma DistinctCons(x: int, xs: seq<int>)
    requires Distinct(xs) && x !in xs
    ensures Distinct([x] + xs)
  {
    var l := [x] + xs;
    assert forall i :: 1 <= i < |l| ==> l[i] == xs[i - 1];
  }

  /** With every session at its own index, the list holds exactly the idle keys, all of them in the table. */
  lemma IdleListMembers(t: map<int, SessionState>, order: seq<int>, timeout: int, now: int)
    requires forall i :: 0 <= i < |order| ==> order[i] in t
    requires forall k :: k in t ==> t[k].index == k
    ensures var l := IdleList(t, order, timeout, now);
      && (forall i :: 0 <= i < |l| ==> l[i] in t)
      && forall k :: k in l <==> k in order && Idle(t[k], timeout, now)
  {
    IdleListInTable(t, order, timeout, now);
    IdleListIdle(t, order, timeout, now);
  }

  /** Every index the idle list holds is a key of the table. */
  lemma {:induction false} IdleListInTable(t: map<int, SessionState>, order: seq<int>, timeout: int, now: int)
    requires forall i :: 0 <= i < |order| ==> order[i] in t
    requires forall k :: k in t ==> t[k].index == k
    ensures forall i :: 0 <= i < |IdleList(t, order, timeout, now)| ==> IdleList(t, order, timeout, now)[i] in t
    decreases |order|
  {
    if order != [] {
      var k0, rest := order[0], order[1..];
      assert forall i :: 0 <= i < |rest| ==> rest[i] == order[i + 1];
      IdleListInTable(t, rest, timeout, now);
      var tail := IdleList(t, rest, timeout, now);
      if Idle(t[k0], timeout, now) {
        assert k0 in t && t[k0].index == k0;
        var l := [k0] + tail;
        assert IdleList(t, order, timeout, now) == l;
        assert forall i :: 1 <= i < |l| ==> l[i] == tail[i - 1];
      } else {
        assert IdleList(t, order, timeout, now) == tail;
        assert forall i :: 0 <= i < |tail| ==> tail[i] in t;
      }
    }
  }

  /** An index is in the idle list exactly when it is enumerated and its session is idle. */
  lemma {:induction false} IdleListIdle(t: map<int, SessionState>, order: seq<int>, timeout: int, now: int)
    requires forall i :: 0 <= i < |order| ==> order[i] in t
    requires forall k :: k in t ==> t[k].index == k
    ensures var l := IdleList(t, order, timeout, now); forall k :: k in l <==> k in order && Idle(t[k], timeout, now)
    decreases |order|
  {
    if order != [] {
      var k0, rest := order[0], order[1..];
      assert forall i :: 0 <= i < |rest| ==> rest[i] == order[i + 1];
      IdleListIdle(t, rest, timeout, now);
      var tail := IdleList(t, rest, timeout, now);
      assert forall k :: k in order <==> k == k0 || k in rest;
      if Idle(t[k0], timeout, now) {
        assert IdleList(t, order, timeout, now) == [k0] + tail;
      } else {
        assert IdleList(t, order, timeout, now) == tail;
      }
    }
  }

  /** Distinct keys give distinct idle indices. */
  lemma {:induction false} IdleListDistinct(t: map<int, SessionState>, order: seq<int>, timeout: int, now: int)
    requires forall i :: 0 <= i < |order| ==> order[i] in t
    requires Distinct(order) && forall k :: k in t ==> t[k].index == k
    ensures Distinct(IdleList(t, order, timeout, now))
    decreases |order|
  {
    if order != [] {
      var k0, rest := order[0], order[1..];
      DistinctTail(order);
      assert forall i :: 0 <= i < |rest| ==> rest[i] == order[i + 1];
      IdleListDistinct(t, rest, timeout, now);
      IdleListMembers(t, rest, timeout, now);
      var tail := IdleList(t, rest, timeout, now);
      if Idle(t[k0], timeout, now) {
        DistinctCons(k0, tail);
        assert IdleList(t, order, timeout, now) == [k0] + tail;
      } else {
        assert IdleList(t, order, timeout, now) == tail;
      }
    }
  }

  /** With every session at its own index, the list holds each idle key once and nothing else. */
  lemma IdleListSpec(t: map<int, SessionState>, order: seq<int>, timeout: int, now: int)
    requires forall i :: 0 <= i < |order| ==> order[i] in t
    requires Distinct(order) && forall k :: k in t ==> t[k].index == k
    ensures var l := IdleList(t, order, timeout, now);
      && Distinct(l) && (forall i :: 0 <= i < |l| ==> l[i] in t)
      && forall k :: k in l <==> k in order && Idle(t[k], timeout, now)
  {
    IdleListMembers(t, order, timeout, now);
    IdleListDistinct(t, order, timeout, now);
  }

  /** What DisconnectClient leaves of a table for `list` in turn: each key still in it is removed. */
  function Without<V>(t: map<int, V>, list: seq<int>): map<int, V>
    decreases |list|
  {
    if list == [] then t
    else if list[0] in t then Without(t - {list[0]}, list[1..])
    else Without(t, list[1..])
  }

  /** Removing the keys of `list` keeps exactly the other entries, unchanged. */
  lemma {:induction false} WithoutSpec<V>(t: map<int, V>, list: seq<int>)
    ensures forall k :: k in Without(t, list) <==> k in t && k !in list
    ensures forall k :: k in Without(t, list) ==> Without(t, list)[k] == t[k]
    decreases |list|
  {
    if list != [] {
      var t' := if list[0] in t then t - {list[0]} else t;
      WithoutSpec(t', list[1..]);
      assert forall k :: k in list <==> k == list[0] || k in list[1..];
    }
  }

  /** The OnDisconnected calls DisconnectClient makes for `list` in turn: one per key still in the table. */
  function Notices(t: map<int, SessionState>, list: seq<int>): seq<Notice>
    decreases |list|
  {
    if list == [] then []
    else if list[0] in t then [Notice(list[0], t[list[0]].ip)] + Notices(t - {list[0]}, list[1..])
    else Notices(t, list[1..])
  }

  /** The three handler flags. */
  function Handlers(st: ServerState): (bool, bool, bool) {
    (st.onConnected, st.onDisconnected, st.onPacketReceived)
  }

  /** The parts of the server that disconnecting leaves alone. */
  function Untouched(st: ServerState): (int, int, bool, seq<Notice>, seq<PacketImage>, (bool, bool, bool)) {
    (st.sessionTimeout, st.sessionIndexCounter, st.listening, st.connected, st.received, Handlers(st))
  }

  /** ArrangeClients' second loop: DisconnectClient for each index of the batch. */
  function DisconnectEach(st: ServerState, list: seq<int>, now: int): ServerState
    decreases |list|
  {
    if list == [] then st else DisconnectEach(DisconnectClientState(st, list[0], now), list[1..], now)
  }

  /** Disconnecting the indices of a batch in turn keeps the invariant. */
  lemma {:induction false} DisconnectEachInv(st: ServerState, list: seq<int>, now: int, capacity: int)
    requires Inv(st, capacity)
    ensures Inv(DisconnectEach(st, list, now), capacity)
    decreases |list|
  {
    if list != [] {
      DisconnectClientInv(st, list[0], now, capacity);
      DisconnectEachInv(DisconnectClientState(st, list[0], now), list[1..], now, capacity);
    }
  }

  /**
   * Disconnecting the indices of a batch in turn removes them from the table
   * and gives an attached OnDisconnected one call per index that was live, in batch order.
   */
  lemma {:induction false} DisconnectEachShape(st: ServerState, list: seq<int>, now: int)
    ensures var r := DisconnectEach(st, list, now);
      && r.sessionList == Without(st.sessionList, list)
      && r.disconnected == st.disconnected + (if st.onDisconnected then Notices(st.sessionList, list) else [])
      && Untouched(r) == Untouched(st)
    decreases |list|
  {
    if list != [] {
      var k := list[0];
      var st1 := DisconnectClientState(st, k, now);
      DisconnectEachShape(st1, list[1..], now);
      if k in st.sessionList && st.onDisconnected {
        AppendAssoc(st.disconnected, [Notice(k, st.sessionList[k].ip)], Notices(st.sessionList - {k}, list[1..]));
      }
    }
  }

  /** An index already gone sets Server_SessionNotExists; a batch of distinct live indices leaves the register alone. */
  lemma {:induction false} DisconnectEachError(st: ServerState, list: seq<int>, now: int)
    requires forall i :: 0 <= i < |list| ==> list[i] in st.sessionList
    requires Distinct(list)
    ensures DisconnectEach(st, list, now).lastError == st.lastError
    decreases |list|
  {
    if list != [] {
      var k, rest := list[0], list[1..];
      var st1 := DisconnectClientState(st, k, now);
      assert forall i :: 0 <= i < |rest| ==> rest[i] == list[i + 1] && rest[i] != k;
      assert forall i, j :: 0 <= i < j < |rest| ==> rest[i] == list[i + 1] && rest[j] == list[j + 1];
      DisconnectEachError(st1, rest, now);
    }
  }

  /**
   * ArrangeClients: the idle sessions' indices are collected, each is
   * disconnected, and the batch list is emptied again.
   */
  function ArrangeState(st: ServerState, order: seq<int>, now: int): ServerState
    requires forall i :: 0 <= i < |order| ==> order[i] in st.sessionList
  {
    var batch := st.disconnectList + IdleList(st.sessionList, order, st.sessionTimeout, now);
    DisconnectEach(st, batch, now).(disconnectList := [])
  }

  /**
   * The sweep disconnects exactly the sessions idle for longer than the
   * timeout, one call of an attached OnDisconnected each, keeps every other session as it was,
   * and keeps the invariant (so the batch list ends empty).
   */
  lemma ArrangeSpec(st: ServerState, order: seq<int>, now: int, capacity: int)
    requires Inv(st, capacity) && Enumerates(order, st.sessionList)
    ensures var idle := IdleList(st.sessionList, order, st.sessionTimeout, now);
      forall k :: k in idle <==> k in st.sessionList && Idle(st.sessionList[k], st.sessionTimeout, now)
    ensures var r, idle := ArrangeState(st, order, now), IdleList(st.sessionList, order, st.sessionTimeout, now);
      && Inv(r, capacity)
      && (forall k :: k in r.sessionList <==> k in st.sessionList && !Idle(st.sessionList[k], st.sessionTimeout, now))
      && (forall k :: k in r.sessionList ==> r.sessionList[k] == st.sessionList[k])
      && r.disconnected == st.disconnected + (if st.onDisconnected then Notices(st.sessionList, idle) else [])
      && Untouched(r) == Untouched(st) && r.lastError == st.lastError
  {
    var idle := IdleList(st.sessionList, order, st.sessionTimeout, now);
    IdleKeys(st, order, now, capacity);
    assert st.disconnectList + idle == idle;
    DisconnectEachInv(st, idle, now, capacity);
    DisconnectEachShape(st, idle, now);
    DisconnectEachError(st, idle, now);
    WithoutSpec(st.sessionList, idle);
  }

  /** The idle list of a server keeping its invariant: distinct live indices, exactly the idle ones. */
  lemma IdleKeys(st: ServerState, order: seq<int>, now: int, capacity: int)
    requires Inv(st, capacity) && Enumerates(order, st.sessionList)
    ensures var t, idle := st.sessionList, IdleList(st.sessionList, order, st.sessionTimeout, now);
      && Distinct(idle) && (forall i :: 0 <= i < |idle| ==> idle[i] in t)
      && (forall k :: k in idle <==> k in t && Idle(t[k], st.sessionTimeout, now))
  {
    var t := st.sessionList;
    forall k | k in t
      ensures t[k].index == k
    {
      LiveAt(t, st.sessionIndexCounter, k);
    }
    IdleListSpec(t, order, st.sessionTimeout, now);
  }

  // --------------------------------------------------------------- sending

  /** Statistics.Send(n) called `times` times. */
  function SentTimes(c: Counters, n: int, times: nat): (r: Counters)
    ensures r.totalSendCount == c.totalSendCount + times && r.checkSendCount == c.checkSendCount + times
    ensures r.totalSendBytes == c.totalSendBytes + n * times && r.checkSendBytes == c.checkSendBytes + n * times
    ensures Connections(r) == Connections(c) && RecvCounters(r) == RecvCounters(c)
    decreases times
  {
    if times == 0 then c else SendCounted(SentTimes(c, n, times - 1), n)
  }

  /**
   * SendToAll: a missing packet sets Server_SendPacketIsNull and answers
   * false. Otherwise every live session gets the packet (SendPacket succeeds
   * for each), each success is counted, and the answer is whether there was
   * at least one; the error register is left alone.
   */
  function SendToAllState(st: ServerState, msg: Nullable<seq<byte>>): (r: (bool, ServerState))
    requires SaneSessions(st.sessionList) && (msg.NonNull? ==> Queueable(msg.value))
    ensures msg.Null? ==> r == (false, st.(lastError := Server_SendPacketIsNull))
    ensures msg.NonNull? ==> (r.0 <==> st.sessionList != map[]) && r.1.lastError == st.lastError
    ensures msg.NonNull? ==> r.1.sessionList.Keys == st.sessionList.Keys
  {
    if msg.Null? then (false, st.(lastError := Server_SendPacketIsNull))
    else
      var sessions := map k | k in st.sessionList :: EnqueueState(st.sessionList[k], msg.value);
      assert st.sessionList != map[] <==> |st.sessionList| > 0;
      (|st.sessionList| > 0,
       st.(sessionList := sessions, statistics := SentTimes(st.statistics, SizeOf(msg.value), |st.sessionList|)))
  }

  lemma SendToAllInv(st: ServerState, msg: Nullable<seq<byte>>, capacity: int)
    requires Inv(st, capacity) && (msg.NonNull? ==> Queueable(msg.value))
    ensures SaneSessions(st.sessionList)
    ensures Inv(SendToAllState(st, msg).1, capacity)
  {
    LiveSane(st.sessionList, st.sessionIndexCounter);
    if msg.NonNull? {
      var r := SendToAllState(st, msg).1;
      forall k | k in r.sessionList
        ensures Live(r.sessionList[k], k, r.sessionIndexCounter)
      {
        LiveAt(st.sessionList, st.sessionIndexCounter, k);
        EnqueueSane(st.sessionList[k], msg.value);
      }
      assert r.sessionList.Keys == st.sessionList.Keys;
    }
  }

  /**
   * SendToClient: a missing packet or an unknown index sets the matching
   * error and answers false. Otherwise the session's SendPacket answer is
   * stored as the last error; on Success the send is counted and the answer is true.
   */
  function SendToClientState(st: ServerState, index: int, msg: Nullable<seq<byte>>): (r: (bool, ServerState))
    requires SaneSessions(st.sessionList) && (msg.NonNull? ==> Queueable(msg.value))
    ensures msg.Null? ==> r == (false, st.(lastError := Server_SendPacketIsNull))
    ensures msg.NonNull? && index !in st.sessionList ==> r == (false, st.(lastError := Server_SessionNotExists))
    ensures msg.NonNull? && index in st.sessionList ==>
      && r.0 && r.1.lastError == Success
      && r.1.sessionList == st.sessionList[index := EnqueueState(st.sessionList[index], msg.value)]
      && r.1.statistics == SendCounted(st.statistics, SizeOf(msg.value))
  {
    if msg.Null? then (false, st.(lastError := Server_SendPacketIsNull))
    else if index !in st.sessionList then (false, st.(lastError := Server_SessionNotExists))
    else
      var sent := SendPacketState(st.sessionList[index], msg);
      var st1 := st.(lastError := sent.0, sessionList := st.sessionList[index := sent.1]);
      if sent.0 != Success then (false, st1)
      else (true, st1.(statistics := SendCounted(st.statistics, SizeOf(msg.value))))
  }

  lemma SendToClientInv(st: ServerState, index: int, msg: Nullable<seq<byte>>, capacity: int)
    requires Inv(st, capacity) && (msg.NonNull? ==> Queueable(msg.value))
    ensures SaneSessions(st.sessionList)
    ensures Inv(SendToClientState(st, index, msg).1, capacity)
  {
    LiveSane(st.sessionList, st.sessionIndexCounter);
    if msg.NonNull? && index in st.sessionList {
      LiveAt(st.sessionList, st.sessionIndexCounter, index);
      EnqueueSane(st.sessionList[index], msg.value);
      LiveReplace(st.sessionList, st.sessionIndexCounter, index, EnqueueState(st.sessionList[index], msg.value));
    }
  }

  /** _SendCompleted: the completion goes to its session's SendProcess. */
  function SendCompletedState(st: ServerState, index: int, bytes: int, socketOk: bool): (r: ServerState)
    requires SaneSessions(st.sessionList)
    ensures index !in st.sessionList ==> r == st
    ensures index in st.sessionList ==>
      r == st.(sessionList := st.sessionList[index := SendProcessState(st.sessionList[index], bytes, socketOk)])
  {
    if index !in st.sessionList then st
    else st.(sessionList := st.sessionList[index := SendProcessState(st.sessionList[index], bytes, socketOk)])
  }

  lemma SendCompletedInv(st: ServerState, index: int, bytes: int, socketOk: bool, capacity: int)
    requires Inv(st, capacity)
    ensures SaneSessions(st.sessionList)
    ensures Inv(SendCompletedState(st, index, bytes, socketOk), capacity)
  {
    LiveSane(st.sessionList, st.sessionIndexCounter);
    if index in st.sessionList {
      LiveAt(st.sessionList, st.sessionIndexCounter, index);
      SendProcessSane(st.sessionList[index], bytes, socketOk);
      LiveReplace(st.sessionList, st.sessionIndexCounter, index,
                  SendProcessState(st.sessionList[index], bytes, socketOk));
    }
  }

  // ------------------------------------------------------------- receiving

  /** _RecvPacket: a missing packet answers false; otherwise it is counted and handed to OnPacketReceived when attached. */
  function RecvPacketState(st: ServerState, msg: Nullable<PacketImage>): (r: (bool, ServerState))
    requires msg.NonNull? ==> IsBinary(msg.value.binary)
    ensures msg.Null? ==> r == (false, st)
    ensures msg.NonNull? ==> r.0 && r.1 == st.(statistics := RecvCounted(st.statistics, SizeOf(msg.value.binary)),
                                                received := r.1.received)
    ensures msg.NonNull? ==> r.1.received == st.received + (if st.onPacketReceived then [msg.value] else [])
  {
    if msg.Null? then (false, st)
    else (true, st.(statistics := RecvCounted(st.statistics, SizeOf(msg.value.binary)),
                    received := if st.onPacketReceived then st.received + [msg.value] else st.received))
  }

  /** _RecvPacket for each delivered packet, in order. */
  function RecvAll(st: ServerState, images: seq<PacketImage>): (r: ServerState)
    requires forall i :: 0 <= i < |images| ==> IsBinary(images[i].binary)
    ensures r.received == st.received + (if st.onPacketReceived then images else [])
    ensures r == st.(statistics := r.statistics, received := r.received)
    ensures Connections(r.statistics) == Connections(st.statistics)
    ensures r.statistics.totalRecvCount == st.statistics.totalRecvCount + |images|
    decreases |images|
  {
    if images == [] then st
    else RecvAll(RecvPacketState(st, NonNull(images[0])).1, images[1..])
  }

  /** Every packet a session delivers has a whole Binary. */
  lemma DeliveredBinary(s: SessionState, chunk: seq<byte>, now: int)
    requires WellFormed(s.pending + chunk)
    ensures forall i :: 0 <= i < |ReceiveState(s, chunk, now).1| ==> IsBinary(ReceiveState(s, chunk, now).1[i].binary)
  {
    ReceiveStateSpec(s, chunk, now);
  }

  /**
   * The data path of _RecvProcess: the session's OnReceive, with every
   * completed packet passed to _RecvPacket.
   */
  function ReceivedState(st: ServerState, index: int, chunk: seq<byte>, now: int): ServerState
    requires index in st.sessionList && WellFormed(st.sessionList[index].pending + chunk)
  {
    var s := st.sessionList[index];
    var rcv := ReceiveState(s, chunk, now);
    DeliveredBinary(s, chunk, now);
    RecvAll(st.(sessionList := st.sessionList[index := rcv.0]), rcv.1)
  }

  /**
   * Receiving keeps the invariant, hands to an attached OnPacketReceived exactly
   * the packets the session's OnReceive completes, in order, keeps the session
   * live at its index and address, and leaves every other session alone.
   */
  lemma ReceivedSpec(st: ServerState, index: int, chunk: seq<byte>, now: int, capacity: int)
    requires Inv(st, capacity) && index in st.sessionList && WellFormed(st.sessionList[index].pending + chunk)
    ensures var r, s := ReceivedState(st, index, chunk, now), st.sessionList[index];
      && Inv(r, capacity)
      && r.received == st.received + (if st.onPacketReceived then ReceiveState(s, chunk, now).1 else [])
      && r.disconnected == st.disconnected && Handlers(r) == Handlers(st)
      && r.sessionList.Keys == st.sessionList.Keys
      && r.sessionList[index].index == index && r.sessionList[index].ip == s.ip
      && (forall k :: k in st.sessionList && k != index ==> r.sessionList[k] == st.sessionList[k])
  {
    var s := st.sessionList[index];
    LiveAt(st.sessionList, st.sessionIndexCounter, index);
    var rcv := ReceiveState(s, chunk, now);
    ReceiveSane(s, chunk, now);
    ReceiveStateSpec(s, chunk, now);
    var st0 := st.(sessionList := st.sessionList[index := rcv.0]);
    assert Live(rcv.0, index, st.sessionIndexCounter);
    LiveReplace(st.sessionList, st.sessionIndexCounter, index, rcv.0);
    assert st0.sessionList.Keys == st.sessionList.Keys;
    assert Inv(st0, capacity);
  }

  /**
   * _RecvProcess for a live session, with the received bytes as `chunk` and
   * the outcome of re-arming the receive as `rearm`. No bytes or a socket
   * error disconnects the session. Otherwise its resolver takes the bytes,
   * every completed packet goes through _RecvPacket, and a receive that
   * cannot be re-armed for a reason other than a closed socket disconnects it.
   * The completion of a session that DisconnectClient or ArrangeClients has
   * already pooled reaches _ClientDisconnect with index 0 and address "";
   * RepeatDisconnect states what that call does.
   */
  function RecvProcessState(st: ServerState, index: int, chunk: seq<byte>, socketOk: bool, rearm: RearmOutcome, now: int)
    : (r: ServerState)
    requires index in st.sessionList && WellFormed(st.sessionList[index].pending + chunk)
  {
    var s := st.sessionList[index];
    if |chunk| <= 0 || !socketOk then ClientDisconnectState(st, s.index, s.ip, now)
    else
      var st1 := ReceivedState(st, index, chunk, now);
      if rearm.Faulted? then ClientDisconnectState(st1, s.index, s.ip, now) else st1
  }

  /**
   * What a receive completion does to the server: a failed one disconnects
   * the session (removed from the table, with its index and address given to
   * an attached OnDisconnected); a successful one hands exactly the packets the
   * session's OnReceive completes to an attached OnPacketReceived, leaves the other sessions alone,
   * and keeps the session live unless the re-arm faults.
   */
  lemma RecvProcessSpec(st: ServerState, index: int, chunk: seq<byte>, socketOk: bool, rearm: RearmOutcome, now: int, capacity: int)
    requires Inv(st, capacity) && index in st.sessionList && WellFormed(st.sessionList[index].pending + chunk)
    ensures var r, s := RecvProcessState(st, index, chunk, socketOk, rearm, now), st.sessionList[index];
      && Inv(r, capacity)
      && (|chunk| == 0 || !socketOk ==>
            r.disconnected == st.disconnected + (if st.onDisconnected then [Notice(index, s.ip)] else [])
            && r.sessionList == st.sessionList - {index}
            && r.received == st.received)
      && (|chunk| > 0 && socketOk ==>
            && r.received == st.received + (if st.onPacketReceived then ReceiveState(s, chunk, now).1 else [])
            && (rearm.Faulted? <==> index !in r.sessionList)
            && (forall k :: k in st.sessionList && k != index ==> k in r.sessionList && r.sessionList[k] == st.sessionList[k]))
  {
    var s := st.sessionList[index];
    LiveAt(st.sessionList, st.sessionIndexCounter, index);
    if |chunk| <= 0 || !socketOk {
      ClientDisconnectInv(st, index, s.ip, now, capacity);
    } else {
      ReceivedSpec(st, index, chunk, now, capacity);
      var st1 := ReceivedState(st, index, chunk, now);
      if rearm.Faulted? {
        ClientDisconnectInv(st1, index, s.ip, now, capacity);
        RemoveKeeps(st1.sessionList, index);
      }
    }
  }

  /** Removing one key keeps every other entry. */
  lemma RemoveKeeps<V>(m: map<int, V>, x: int)
    ensures x !in m - {x}
    ensures forall k :: k in m && k != x ==> k in m - {x} && (m - {x})[k] == m[k]
  {
  }

  /** A dictionary enumeration visits as many keys as the table has. */
  lemma {:induction false} EnumeratesCard(order: seq<int>, t: map<int, SessionState>)
    requires Enumerates(order, t)
    ensures |order| == |t|
    decreases |order|
  {
    if order == [] {
      assert forall k :: k in t.Keys ==> k in order;
      assert t.Keys == {};
    } else {
      var k, rest := order[0], order[1..];
      assert forall i :: 0 <= i < |rest| ==> rest[i] == order[i + 1] && rest[i] != k;
      assert forall i, j :: 0 <= i < j < |rest| ==> rest[i] == order[i + 1] && rest[j] == order[j + 1];
      assert forall x :: x in order <==> x == k || x in rest;
      EnumeratesCard(rest, t - {k});
      RemoveCard(t, k);
    }
  }

  /** Every session's send queue holds only packets SendPacket accepts. */
  predicate QueuesOk(t: map<int, SessionState>) {
    forall k :: k in t ==> AllQueueable(t[k].queue)
  }

  lemma QueuesAt(t: map<int, SessionState>, k: int)
    requires QueuesOk(t) && k in t
    ensures AllQueueable(t[k].queue)
  {
  }

  /** SendToAll's loop: SendPacket to the sessions at `keys`, in turn. */
  function SendEach(t: map<int, SessionState>, keys: seq<int>, p: seq<byte>): map<int, SessionState>
    requires QueuesOk(t) && Queueable(p)
    decreases |keys|
  {
    if keys == [] then t
    else if keys[0] in t then
      QueuesAt(t, keys[0]);
      var s := EnqueueState(t[keys[0]], p);
      assert QueuesOk(t[keys[0] := s]) by {
        assert forall k :: k in t[keys[0] := s] ==> k == keys[0] || t[keys[0] := s][k] == t[k];
      }
      SendEach(t[keys[0] := s], keys[1..], p)
    else SendEach(t, keys[1..], p)
  }

  /** Sending to distinct keys in turn queues the packet once on each of them and touches nothing else. */
  lemma {:induction false} SendEachSpec(t: map<int, SessionState>, keys: seq<int>, p: seq<byte>)
    requires QueuesOk(t) && Queueable(p) && Distinct(keys)
    ensures SendEach(t, keys, p).Keys == t.Keys
    ensures forall k :: k in t ==> SendEach(t, keys, p)[k] == if k in keys then EnqueueState(t[k], p) else t[k]
    decreases |keys|
  {
    if keys != [] {
      var k0, rest := keys[0], keys[1..];
      assert forall i :: 0 <= i < |rest| ==> rest[i] == keys[i + 1] && rest[i] != k0;
      assert forall i, j :: 0 <= i < j < |rest| ==> rest[i] == keys[i + 1] && rest[j] == keys[j + 1];
      assert forall x :: x in keys <==> x == k0 || x in rest;
      var t' := if k0 in t then t[k0 := EnqueueState(t[k0], p)] else t;
      SendEachSpec(t', rest, p);
    }
  }

  /** In whatever order the table is enumerated, the loop sends to every session once. */
  lemma BroadcastAll(t: map<int, SessionState>, order: seq<int>, p: seq<byte>)
    requires QueuesOk(t) && Queueable(p) && Enumerates(order, t)
    ensures SendEach(t, order, p) == map k | k in t :: EnqueueState(t[k], p)
  {
    SendEachSpec(t, order, p);
    var sent, m := SendEach(t, order, p), map k | k in t :: EnqueueState(t[k], p);
    assert sent.Keys == m.Keys;
    forall k | k in m
      ensures sent[k] == m[k]
    {
      assert k in order;
    }
  }

  /** The batch list is not read by DisconnectClient. */
  lemma {:induction false} DisconnectEachBatch(st: ServerState, list: seq<int>, now: int, d: seq<int>)
    ensures DisconnectEach(st.(disconnectList := d), list, now) == DisconnectEach(st, list, now).(disconnectList := d)
    decreases |list|
  {
    if list != [] {
      assert DisconnectClientState(st.(disconnectList := d), list[0], now)
          == DisconnectClientState(st, list[0], now).(disconnectList := d);
      DisconnectEachBatch(DisconnectClientState(st, list[0], now), list[1..], now, d);
    }
  }

  /** StartServer's loop: `count` new sessions queued on the pool. */
  method CreateSessions(pool: seq<SessionState>, count: int, now: int) returns (r: seq<SessionState>)
    requires count >= 0
    ensures r == pool + NewSessions(count, now)
  {
    r := pool;
    for i := 0 to count
      invariant r == pool + NewSessions(i, now)
    {
      AppendAssoc(pool, NewSessions(i, now), [NewSession(now)]);
      r := r + [NewSession(now)];
    }
  }

  /** ArrangeClients' first loop, over the table in its enumeration order. */
  method CollectIdle(t: map<int, SessionState>, order: seq<int>, timeout: int, now: int) returns (list: seq<int>)
    requires forall i :: 0 <= i < |order| ==> order[i] in t
    ensures list == IdleList(t, order, timeout, now)
  {
    list := [];
    var i := 0;
    while i < |order|
      invariant 0 <= i <= |order|
      invariant list + IdleList(t, order[i..], timeout, now) == IdleList(t, order, timeout, now)
    {
      var session := t[order[i]];
      var checkTime := LastRecvTimePassed(session, now);
      assert order[i..][1..] == order[i + 1..];
      if checkTime > timeout {
        AppendAssoc(list, [session.index], IdleList(t, order[i + 1..], timeout, now));
        list := list + [session.index];
      }
      i := i + 1;
    }
    assert order[i..] == [];
  }

  /** SendToAll's loop: SendPacket to each session in enumeration order, counting each success. */
  method SendEachLoop(t: map<int, SessionState>, order: seq<int>, msg: Nullable<seq<byte>>, statistics: NetworkStatistic)
    returns (sessions: map<int, SessionState>, successCount: int)
    requires msg.NonNull? && Queueable(msg.value) && QueuesOk(t)
    requires forall i :: 0 <= i < |order| ==> order[i] in t
    modifies statistics
    ensures sessions == SendEach(t, order, msg.value) && successCount == |order|
    ensures statistics.Value() == SentTimes(old(statistics.Value()), SizeOf(msg.value), |order|)
  {
    var p := msg.value;
    sessions := t;
    successCount := 0;
    var i := 0;
    while i < |order|
      invariant 0 <= i <= |order| && successCount == i
      invariant QueuesOk(sessions) && sessions.Keys == t.Keys
      invariant SendEach(sessions, order[i..], p) == SendEach(t, order, p)
      invariant statistics.Value() == SentTimes(old(statistics.Value()), SizeOf(p), i)
    {
      var k := order[i];
      var sent := SendPacketState(sessions[k], msg);
      sessions := sessions[k := sent.1];
      if sent.0 == Success {
        statistics.Send(SizeOf(p));
        successCount := successCount + 1;
      }
      assert order[i..][1..] == order[i + 1..];
      i := i + 1;
    }
    assert order[i..] == [];
  }

  // -------------------------------------------------------------- the class

  /**
   * The server object. Each method performs one operation in place and is
   * tied to the function on `ServerState` above; `capacity` is the number
   * of sessions the last successful StartServer created.
   */
  class ServerSocket {
    var listening: bool
    var sessionList: map<int, SessionState>
    var sessionPool: seq<SessionState>
    var sessionTimeout: int
    var sessionIndexCounter: int
    var lastError: ENetError
    var disconnectList: seq<int>
    var connected: seq<Notice>
    var disconnected: seq<Notice>
    var received: seq<PacketImage>
    var onConnected: bool
    var onDisconnected: bool
    var onPacketReceived: bool
    const statistics: NetworkStatistic
    ghost var capacity: int

    /** The server as a value. */
    function State(): ServerState
      reads this, statistics
    {
      ServerState(listening, sessionList, sessionPool, sessionTimeout, sessionIndexCounter, lastError,
                  statistics.Value(), disconnectList, connected, disconnected, received,
                  onConnected, onDisconnected, onPacketReceived)
    }

    ghost predicate Valid()
      reads this, statistics
    {
      Inv(State(), capacity)
    }

    constructor ()
      ensures Valid() && State() == InitialState() && capacity == 0
    {
      listening := false;
      sessionList := map[];
      sessionPool := [];
      sessionTimeout := DefaultSessionTimeoutMS;
      sessionIndexCounter := 0;
      lastError := Success;
      disconnectList := [];
      connected, disconnected, received := [], [], [];
      onConnected, onDisconnected, onPacketReceived := false, false, false;
      statistics := new NetworkStatistic();
      capacity := 0;
      InitialInv();
    }

    method StartServer(port: int, maxConnectionCount: int, bindOk: bool, now: int) returns (err: ENetError)
      requires Valid()
      modifies this, statistics
      ensures Valid() && capacity == if old(listening) then old(capacity) else PoolSize(maxConnectionCount)
      ensures (err, State()) == StartServerState(old(State()), port, maxConnectionCount, bindOk, now)
    {
      ghost var st0 := State();
      StartServerInv(st0, port, maxConnectionCount, bindOk, now, capacity);
      if listening {
        return Server_ListenSocketAlreadyListening;
      }
      var count := Prepare(maxConnectionCount, now);
      capacity := count;
      err := Listen(port, bindOk);
    }

    /** StartServer before the listener: the new sessions, statistics reset, the index counter back to 0. */
    method Prepare(maxConnectionCount: int, now: int) returns (count: int)
      modifies this, statistics
      ensures State() == PreparedState(old(State()), maxConnectionCount, now)
      ensures capacity == old(capacity) && count == PoolSize(maxConnectionCount)
    {
      count := maxConnectionCount;
      if count <= 0 {
        count := DefaultSessionCount;
      }
      sessionPool := CreateSessions(sessionPool, count, now);
      statistics.Reset();
      sessionIndexCounter := 0;
    }

    /** The listener part of StartServer. */
    method Listen(port: int, bindOk: bool) returns (err: ENetError)
      modifies this
      ensures (err, State()) == ListenState(old(State()), port, bindOk) && capacity == old(capacity)
    {
      listening := true;
      lastError := ListenResult(port, bindOk);
      if lastError != Success {
        Destroy();
      }
      err := lastError;
    }

    /** Destroy: every session and the listener are dropped. */
    method Destroy()
      modifies this
      ensures State() == Destroyed(old(State())) && capacity == old(capacity)
      ensures old(Valid()) ==> Valid()
    {
      sessionList := map[];
      sessionPool := [];
      listening := false;
    }

    method SetSessionTimeout(timeMS: int)
      requires Valid()
      modifies this
      ensures Valid() && capacity == old(capacity)
      ensures State() == SetSessionTimeoutState(old(State()), timeMS)
    {
      ConfigurationInv(State(), timeMS, Success, capacity);
      sessionTimeout := Max(timeMS, MinSessionTimeoutMS);
    }

    /** DisconnectClient; ArrangeClients calls it with its batch list still filled. */
    method DisconnectClient(index: int, now: int)
      modifies this, statistics
      ensures State() == DisconnectClientState(old(State()), index, now)
      ensures capacity == old(capacity) && disconnectList == old(disconnectList)
      ensures old(Valid()) ==> Valid()
    {
      if Valid() {
        DisconnectClientInv(State(), index, now, capacity);
      }
      if index !in sessionList {
        var _ := SetLastError(Server_SessionNotExists);
        return;
      }
      ClientDisconnect(index, sessionList[index].ip, now);
    }

    /** The idle sweep over the table in its enumeration order `order`. */
    method ArrangeClients(order: seq<int>, now: int)
      requires Valid() && Enumerates(order, sessionList)
      modifies this, statistics
      ensures Valid() && capacity == old(capacity)
      ensures State() == ArrangeState(old(State()), order, now)
    {
      ghost var st0 := State();
      var idle := CollectIdle(sessionList, order, sessionTimeout, now);
      disconnectList := disconnectList + idle;
      ghost var mid := State();
      ghost var list := disconnectList;
      var i := 0;
      while i < |disconnectList|
        invariant 0 <= i <= |list| && disconnectList == list && capacity == old(capacity)
        invariant DisconnectEach(State(), list[i..], now) == DisconnectEach(mid, list, now)
      {
        assert list[i..][1..] == list[i + 1..];
        DisconnectClient(disconnectList[i], now);
        i := i + 1;
      }
      assert list[i..] == [];
      disconnectList := [];
      DisconnectEachBatch(st0, list, now, list);
      ghost var r := ArrangeState(st0, order, now);
      assert State() == r;
      ArrangeSpec(st0, order, now, capacity);
      assert Inv(r, capacity);
    }

    /** SendToAll over the table in its enumeration order `order`. */
    method SendToAll(order: seq<int>, msg: Nullable<seq<byte>>) returns (ok: bool)
      requires Valid() && Enumerates(order, sessionList) && (msg.NonNull? ==> Queueable(msg.value))
      modifies this, statistics
      ensures Valid() && capacity == old(capacity)
      ensures SaneSessions(old(sessionList))
      ensures (ok, State()) == SendToAllState(old(State()), msg)
    {
      ghost var st0 := State();
      LiveSane(sessionList, sessionIndexCounter);
      if msg.Null? {
        ok := SetLastError(Server_SendPacketIsNull);
        SendToAllInv(st0, msg, capacity);
        return;
      }
      var sessions, successCount := SendEachLoop(sessionList, order, msg, statistics);
      sessionList := sessions;
      ok := successCount > 0;
      BroadcastAll(st0.sessionList, order, msg.value);
      EnumeratesCard(order, st0.sessionList);
      ghost var r := SendToAllState(st0, msg);
      assert (ok, State()) == r;
      SendToAllInv(st0, msg, capacity);
      assert Inv(r.1, capacity);
    }

    method SendToClient(index: int, msg: Nullable<seq<byte>>) returns (ok: bool)
      requires Valid() && (msg.NonNull? ==> Queueable(msg.value))
      modifies this, statistics
      ensures Valid() && capacity == old(capacity)
      ensures SaneSessions(old(sessionList))
      ensures (ok, State()) == SendToClientState(old(State()), index, msg)
    {
      ghost var st0 := State();
      ghost var r := SendToClientState(st0, index, msg);
      SendToClientInv(st0, index, msg, capacity);
      if msg.Null? {
        ok := SetLastError(Server_SendPacketIsNull);
      } else if index !in sessionList {
        ok := SetLastError(Server_SessionNotExists);
      } else {
        var sent := SendPacketState(sessionList[index], msg);
        sessionList := sessionList[index := sent.1];
        ok := SetLastError(sent.0);
        if ok {
          statistics.Send(SizeOf(msg.value));
        }
      }
      assert (ok, State()) == r;
    }

    function GetLastError(): (err: ENetError)
      reads this
      ensures err == State().lastError
    {
      lastError
    }

    method ClearLastError()
      requires Valid()
      modifies this
      ensures Valid() && capacity == old(capacity)
      ensures State() == ClearLastErrorState(old(State()))
    {
      ConfigurationInv(State(), 0, Success, capacity);
      lastError := Success;
    }

    method SendCompleted(index: int, bytes: int, socketOk: bool)
      requires Valid()
      modifies this
      ensures Valid() && capacity == old(capacity)
      ensures SaneSessions(old(sessionList))
      ensures State() == SendCompletedState(old(State()), index, bytes, socketOk)
    {
      SendCompletedInv(State(), index, bytes, socketOk, capacity);
      if index in sessionList {
        sessionList := sessionList[index := SendProcessState(sessionList[index], bytes, socketOk)];
      }
    }

    method OnSessionConnected(cs: Nullable<Socket>, now: int)
      requires Valid()
      modifies this, statistics
      ensures Valid() && capacity == old(capacity)
      ensures State() == AcceptState(old(State()), cs, now)
    {
      if cs.Null? {
        return;
      }
      if |sessionPool| == 0 {
        var _ := SetLastError(Server_SessionIsFull);
        return;
      }
      Admit(cs, now);
      Announce(sessionIndexCounter, sessionList[sessionIndexCounter].ip);
    }

    /** The pool's first session is set up for the socket and joins the table. */
    method Admit(cs: Nullable<Socket>, now: int)
      requires Valid() && cs.NonNull? && sessionPool != []
      modifies this, statistics
      ensures Valid() && capacity == old(capacity)
      ensures State() == AdmittedState(old(State()), cs, now)
    {
      AdmittedInv(State(), cs, now, capacity);
      var client := sessionPool[0];
      sessionPool := sessionPool[1..];
      statistics.Connect();
      sessionIndexCounter := sessionIndexCounter + 1;
      client := client.(index := sessionIndexCounter, sendCallback := true, sendAllCallback := true,
                        processCallback := true);
      client := SetClientSocketState(client, cs, now);
      sessionList := sessionList[client.index := client];
    }

    /** OnConnected?.Invoke with the new session's index and address. */
    method Announce(index: int, ip: string)
      modifies this
      ensures State() == ConnectedState(old(State()), index, ip) && capacity == old(capacity)
      ensures old(Valid()) ==> Valid()
    {
      if onConnected {
        connected := connected + [Notice(index, ip)];
      }
    }

    method RecvPacket(msg: Nullable<PacketImage>) returns (ok: bool)
      requires msg.NonNull? ==> IsBinary(msg.value.binary)
      modifies this, statistics
      ensures capacity == old(capacity)
      ensures (ok, State()) == RecvPacketState(old(State()), msg)
    {
      if msg.Null? {
        return false;
      }
      statistics.Recv(SizeOf(msg.value.binary));
      received := if onPacketReceived then received + [msg.value] else received;
      ok := true;
    }

    /** A receive completion for the session at `index`. */
    method RecvProcess(index: int, chunk: seq<byte>, socketOk: bool, rearm: RearmOutcome, now: int)
      requires Valid() && index in sessionList && WellFormed(sessionList[index].pending + chunk)
      modifies this, statistics
      ensures Valid() && capacity == old(capacity)
      ensures State() == RecvProcessState(old(State()), index, chunk, socketOk, rearm, now)
    {
      ghost var st0 := State();
      var session := sessionList[index];
      if |chunk| <= 0 || !socketOk {
        ClientDisconnect(session.index, session.ip, now);
      } else {
        SessionReceive(index, chunk, now);
        if rearm.Faulted? {
          ClientDisconnect(session.index, session.ip, now);
        }
      }
      ghost var r := RecvProcessState(st0, index, chunk, socketOk, rearm, now);
      assert State() == r;
      RecvProcessSpec(st0, index, chunk, socketOk, rearm, now, capacity);
      assert Inv(r, capacity);
    }

    /** The session's OnReceive, its completed packets passed to _RecvPacket. */
    method SessionReceive(index: int, chunk: seq<byte>, now: int)
      requires index in sessionList && WellFormed(sessionList[index].pending + chunk)
      modifies this, statistics
      ensures State() == ReceivedState(old(State()), index, chunk, now) && capacity == old(capacity)
    {
      var session := sessionList[index];
      DeliveredBinary(session, chunk, now);
      var rcv := ReceiveState(session, chunk, now);
      sessionList := sessionList[index := rcv.0];
      RecvPackets(rcv.1);
    }

    /** The session's resolver hands each completed packet to _RecvPacket, in order. */
    method RecvPackets(images: seq<PacketImage>)
      requires forall i :: 0 <= i < |images| ==> IsBinary(images[i].binary)
      modifies this, statistics
      ensures State() == RecvAll(old(State()), images) && capacity == old(capacity)
    {
      ghost var st1 := State();
      var j := 0;
      while j < |images|
        invariant 0 <= j <= |images| && capacity == old(capacity)
        invariant RecvAll(State(), images[j..]) == RecvAll(st1, images)
      {
        assert images[j..][1..] == images[j + 1..];
        var _ := RecvPacket(NonNull(images[j]));
        j := j + 1;
      }
      assert images[j..] == [];
    }

    /** _ClientDisconnect of the session holding (`index`, `ip`). */
    method ClientDisconnect(index: int, ip: string, now: int)
      modifies this, statistics
      ensures State() == ClientDisconnectState(old(State()), index, ip, now)
      ensures capacity == old(capacity) && disconnectList == old(disconnectList)
      ensures old(Valid()) ==> Valid()
    {
      Notify(index, ip);
      Unregister(index, now);
    }

    /** OnDisconnected?.Invoke with the session's index and address. */
    method Notify(index: int, ip: string)
      modifies this
      ensures State() == NotifiedState(old(State()), index, ip)
      ensures capacity == old(capacity) && disconnectList == old(disconnectList)
      ensures old(Valid()) ==> Valid()
    {
      if Valid() {
        ClientDisconnectInv(State(), index, ip, 0, capacity);
      }
      if onDisconnected {
        disconnected := disconnected + [Notice(index, ip)];
      }
    }

    /** The duplicate guard, then Reset, re-pooling and the open-connection count. */
    method Unregister(index: int, now: int)
      modifies this, statistics
      ensures State() == UnregisteredState(old(State()), index, now)
      ensures capacity == old(capacity) && disconnectList == old(disconnectList)
      ensures old(Valid()) ==> Valid()
    {
      if Valid() {
        UnregisteredInv(State(), index, now, capacity);
      }
      if index !in sessionList {
        return;
      }
      var session := sessionList[index];
      sessionList := sessionList - {index};
      sessionPool := sessionPool + [Recycled(session, now)];
      statistics.Disconnect();
    }

    /** Assigning the three handler properties. */
    method SetHandlers(connectedHandler: bool, disconnectedHandler: bool, packetHandler: bool)
      requires Valid()
      modifies this
      ensures Valid() && capacity == old(capacity)
      ensures State() == SetHandlersState(old(State()), connectedHandler, disconnectedHandler, packetHandler)
    {
      HandlersInv(State(), connectedHandler, disconnectedHandler, packetHandler, capacity);
      onConnected, onDisconnected, onPacketReceived := connectedHandler, disconnectedHandler, packetHandler;
    }

    method SetLastError(err: ENetError) returns (ok: bool)
      modifies this
      ensures capacity == old(capacity)
      ensures (ok, State()) == SetLastErrorState(old(State()), err)
      ensures old(Valid()) ==> Valid()
    {
      lastError := err;
      ok := lastError == Success;
    }
  }
}
