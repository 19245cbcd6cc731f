/** Constants, error codes and the small value types shared by the BassNet model. */
module NetDefine {

  /** One octet of a packet or socket buffer. */
  type byte = b: int | 0 <= b < 256

  /** The C# `int` range, used where the source stores a 32-bit value. */
  type int32 = x: int | -0x8000_0000 <= x < 0x8000_0000

  // Header layout: [ protocol 4 bytes ][ option 2 bytes ][ size 2 bytes ][ data ... ]
  const PacketProtocolOffset: nat := 0
  const PacketProtocolLength: nat := 4
  const PacketOptionOffset: nat := 4
  const PacketOptionLength: nat := 2
  const PacketSizeOffset: nat := 6
  const PacketSizeLength: nat := 2
  const PacketHeaderLength: nat := 8
  const PacketDataOffset: nat := 8

  /** Capacity of a packet's Binary, header included. */
  const MaxPacketBinaryLength: nat := 1440
  /** Largest payload: capacity minus header. */
  const MaxPacketDataBinaryLength: nat := MaxPacketBinaryLength - PacketHeaderLength

  /** Send and receive buffers of sockets hold two packets. */
  const SocketBufferSize: nat := MaxPacketBinaryLength * 2

  // Server configuration
  const DefaultSessionCount: nat := 2000
  const DefaultSessionTimeoutMS: int := 60000
  const MinSessionTimeoutMS: int := 10000

  /** Packets handed out by one poll of the Unity client. */
  const RecvPacketAtOnce: nat := 200

  /** Library error codes, in declaration order. */
  datatype ENetError =
    | Success
    | Packet_InvalidDataSize
    | Packet_DataSizeIsTooLarge
    | Packet_DataIsNull
    | Listener_AlreadyLietening
    | Listener_InvalidPortRange
    | Listener_SocketListenFail
    | Session_SendPacketIsNull
    | Server_ListenSocketAlreadyListening
    | Server_SendPacketIsNull
    | Server_SessionNotExists
    | Server_SessionIsFull
    | Client_SocketAlreadyUsed
    | Client_InvalidPortRange
    | Client_InvalidHost

  /** A C# reference that may be null. */
  datatype Nullable<T> = Null | NonNull(value: T)

  /** Connection state of the polling client. */
  datatype ClientSocketState = None | Connecting | ConnectFailed | Connected | Disconnected

  /** A connected operating-system socket, known to the model only by its peer address. */
  datatype Socket = Socket(remoteEndPoint: string)

  /** Outcome of a host-name lookup: the lookup throws, or yields a (possibly empty) address list. */
  datatype DnsResult = DnsThrows | Addresses(addresses: seq<string>)

  /** Outcome of re-arming a receive after a completion was processed. */
  datatype RearmOutcome =
    | Pending          // ReceiveAsync accepted the request
    | AlreadyDisposed  // the socket was closed meanwhile (ObjectDisposedException, ignored)
    | Faulted          // any other exception: the connection is dropped

  /** A packet as the host receives it: its sender tag and its whole Binary. */
  datatype PacketImage = PacketImage(senderIndex: int, binary: seq<byte>)

  /** The port test shared by both clients: 1..65535 are accepted. */
  predicate ValidClientPort(port: int) {
    0 < port <= 0xFFFF
  }

  function Min(a: int, b: int): int {
    if a < b then a else b
  }

  function Max(a: int, b: int): int {
    if a < b then b else a
  }

  /** `n` zero bytes. */
  function Zeros(n: nat): (z: seq<byte>)
    ensures |z| == n && forall i :: 0 <= i < n ==> z[i] == 0
  {
    seq(n, _ => 0)
  }
}
