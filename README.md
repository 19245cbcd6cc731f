# BassNet TCP layer in Dafny

This project models the core of BassNet, a small C# TCP library, and proves properties of that model.
BassNet frames messages as fixed-capacity packets. A packet has an 8-byte header: a 4-byte protocol number at offset 0, 2 option bytes at offset 4, and a 2-byte total size at offset 6. The payload follows, up to 1440 bytes in all.

The model covers:

- the packet itself (`Packets`, with the byte codecs in `ByteOrder`);
- the receive-side reassembler that rebuilds packets from a TCP byte stream (`Resolver`);
- the per-connection session of the server, with its FIFO send queue (`Sessions`, `SendQueues`);
- the server: the session pool, the table of live sessions, idle eviction, broadcast and the last-error register (`Server`);
- the server's connection and traffic counters (`NetworkStatistics`);
- the two clients: the state-machine client meant for Unity (`UnityClient`) and the callback client (`Client`);
- the chat server's user table (`Users`).

Each entity the source updates in place is a Dafny `class` with the same fields.
A Binary is an `array<byte>`, queues and tables are `seq` and `map` fields, and counters are `int` fields.
Every state-changing method is proved against a function on values: `State() == F(old(State()), ...)`.
The properties are then proved about those functions as lemmas.

Operating-system calls are replaced by parameters:

- what a socket operation reports;
- a DNS lookup's outcome;
- whether a listener could bind;
- the current time in milliseconds;
- the order in which a `Dictionary` enumerates its keys.

A host handler (OnConnected, OnDisconnected, OnPacketReceived, SendPacketCallback ...) is a boolean saying whether it is attached. This holds for the server, the sessions, both clients and the user table. Calls of an attached handler are appended to a log: packets received, notices, client events and send calls. A detached handler, invoked through `?.Invoke`, logs nothing.

Points the code leaves open, and what the model takes:

- The header layout is taken from the comment at `Source/BassNet/Net/Packet.cs:8`: protocol, then option, then size. Every field is little-endian, as `BitConverter` reads and writes it on the platforms the library targets.
- `Define.PacketHeaderLength`, `Define.PacketDataOffset`, `Define.MaxPacketBinaryLength` and `Define.MaxPacketDataBinaryLength` are used (`Packet.cs:32`, `127-128`, `149`, `157`), but no file of the repository defines them; `Source/BassNet/Net/Define.cs:1-21` holds only the buffer size and the server settings. The model takes the header length and the data offset as 8, the sum of the field widths in the layout comment. It takes the capacity as 1440 bytes, a packet that fits under a typical path MTU; the repository fixes no value. The largest payload is then 1440 - 8 = 1432.
- `Define.SocketBufferSize` is written in terms of `Packet.MAX_PACKET_BINARY_SIZE`, which the repository does not define either. The model takes it as twice the packet capacity, 2880 bytes.
- The error names keep the source's spelling, `Listener_AlreadyLietening` included.

## Model

| member | source | states |
|---|---|---|
| ByteOrder.UInt16Bytes | Source/BassNet/Net/Packet.cs:77-81 | the option field written as two little-endian bytes reads back as the value written |
| ByteOrder.UInt16BytesOf | Source/BassNet/Net/Packet.cs:77-81 | decoding two bytes and encoding the value again gives the same two bytes |
| ByteOrder.Int16Of | Source/BassNet/Net/Packet.cs:46-48 | the size field is read as a signed 16-bit number, negative exactly when the high byte's top bit is set |
| ByteOrder.Int16Bytes | Source/BassNet/Net/Packet.cs:55-56 | a signed 16-bit size written as two bytes reads back as itself |
| ByteOrder.Int32Bytes | Source/BassNet/Net/Packet.cs:37-41 | a protocol number written as four bytes reads back as itself |
| ByteOrder.Int32BytesOf | Source/BassNet/Net/Packet.cs:37-41 | decoding four bytes and encoding the protocol again gives the same four bytes |
| Packets.WithBytes | Source/BassNet/Net/Packet.cs:134 | a BlockCopy places the copied bytes at the offset and leaves every other byte of the Binary as it was |
| Packets.DataSizeOf | Source/BassNet/Net/Packet.cs:63-73 | DataSize is Size minus the header length when Size lies between the header length and the capacity, and 0 otherwise |
| Packets.StoreProtocol | Source/BassNet/Net/Packet.cs:37-41 | the Protocol setter changes only bytes 0..4, and the getter then reads the new value |
| Packets.StoreSize | Source/BassNet/Net/Packet.cs:46-58 | the Size setter ignores values not strictly between 0 and 1440; otherwise Size reads the value back; bytes outside the size field never change |
| Packets.StoreOption | Source/BassNet/Net/Packet.cs:77-81 | the Option setter changes only bytes 4..6, and the getter then reads the new value |
| Packets.WithOption | Source/BassNet/Net/Packet.cs:200-211 | after `_SetOption(o, b)`, `_GetOption(o)` is `b` and every other flag reads as before; the option value changes exactly when the flag changes |
| Packets.FlagsOfBytes | Source/BassNet/Net/Packet.cs:11-18 | LZ4Compressed, XORApplied and IsSystemPacket are bit 0 and bit 1 of the low byte and bit 7 of the high byte |
| Packets.FlagUpdate | Source/BassNet/Net/Packet.cs:200-206 | setting or clearing one flag keeps the option a 16-bit value and leaves the other flags alone |
| Packets.SetDataBytes | Source/BassNet/Net/Packet.cs:144-163 | the checks in the code's order: a negative size, then a size above 1432, then missing data; an error leaves the Binary untouched; success copies exactly the n payload bytes and sets Size to 8 + n below the full payload |
| Packets.SetProtocolDataSpec | Source/BassNet/Net/Packet.cs:137-142 | the two-step SetData always writes the protocol and answers the error SetData(data, n) gives; a failure leaves a header-only size; a success puts the payload behind the header, with DataSize n below the full payload and 0 at it |
| Packets.SetDataRoundTrip | Source/BassNet/Net/Packet.cs:137-163 | setting a protocol and any legal payload and reading them back gives the same protocol and payload bytes |
| Packets.FullPayloadLosesSize | Source/BassNet/Net/Packet.cs:49-53 | a full 1432-byte payload is reported as a success but Size stays at the header length, so DataSize reads 0 |
| Packets.CopyRecvBytes | Source/BassNet/Net/Packet.cs:171-185 | missing data, then a size below the header, then a size above 1440 are refused in that order with the Binary untouched; success copies exactly the first n bytes and leaves the rest |
| Packets.EmptyBinaryIsSetData | Source/BassNet/Net/Packet.cs:117 | the default constructor's SetData on a zeroed Binary gives the empty packet |
| Packets.EmptyBinaryFields | Source/BassNet/Net/Packet.cs:117 | the empty packet has protocol 0, no options, size 8, DataSize 0 and a zero payload area |
| Packets.HeaderOnlyFields | Source/BassNet/Net/Packet.cs:119 | `Packet(protocol)` holds that protocol, size 8 and no payload |
| Packets.RecvBinarySpec | Source/BassNet/Net/Packet.cs:123-135 | the receive constructor copies the first n bytes onto zeros, and builds the empty packet for missing, undersized or oversized input |
| Packets.ResetBytes | Source/BassNet/Net/Packet.cs:190-194 | Reset zeroes the header bytes only; the payload bytes are kept and every header field reads 0 |
| Packets.ProtocolRoundTrip | Source/BassNet/Net/Packet.cs:37-41 | Protocol read after being set is the value set, and the option and size fields do not change |
| Packets.SameProtocol | Source/BassNet/Net/Packet.cs:37-41 | writing the protocol a packet already holds changes nothing |
| Packets.Packet.SetData | Source/BassNet/Net/Packet.cs:144-163 | the in-place SetData returns the error and leaves the Binary that `SetDataBytes` states |
| Packets.Packet.SetProtocolData | Source/BassNet/Net/Packet.cs:137-142 | the in-place two-step SetData is `SetProtocolDataBytes` on the Binary |
| Packets.Packet.CopyRecvData | Source/BassNet/Net/Packet.cs:171-185 | the in-place CopyRecvData is `CopyRecvBytes` on the Binary |
| Packets.Packet.Reset | Source/BassNet/Net/Packet.cs:190-194 | SenderIndex becomes 0 and the Binary becomes `ResetBytes` of what it was |
| Packets.Packet.SetOption | Source/BassNet/Net/Packet.cs:200-206 | the in-place `_SetOption` is `WithOption` on the Binary |
| Packets.Packet.FromRecv | Source/BassNet/Net/Packet.cs:123-135 | the receive constructor builds a fresh Binary equal to `RecvBinary` |
| Packets.Packet.Empty | Source/BassNet/Net/Packet.cs:117 | `Packet()` allocates a fresh Binary that is the empty packet: protocol 0, size 8, no payload, sender 0 |
| Packets.Packet.WithProtocol | Source/BassNet/Net/Packet.cs:119 | `Packet(protocol)` allocates a fresh header-only Binary: Protocol reads the value given and Size reads 8 |
| Packets.Packet.WithData | Source/BassNet/Net/Packet.cs:121 | `Packet(protocol, data, dataSize)` allocates a fresh Binary that is the two-step SetData on zeros; its error code is dropped, as in the source |
| Packets.Packet.Protocol | Source/BassNet/Net/Packet.cs:37-41 | the getter reads the 32-bit value `SetProtocol` stores (`ProtocolRoundTrip`) |
| Packets.Packet.Size | Source/BassNet/Net/Packet.cs:46-48 | the getter is a signed 16-bit read, so it lies in -32768..32767 |
| Packets.Packet.DataSize | Source/BassNet/Net/Packet.cs:63-73 | DataSize is Size minus 8 exactly when Size lies in 8..1440, and 0 otherwise; it never exceeds 1432 |
| Packets.Packet.Option | Source/BassNet/Net/Packet.cs:77-81 | the getter is an unsigned 16-bit read, so it lies in 0..65535 |
| Packets.Packet.GetOption | Source/BassNet/Net/Packet.cs:207-211 | `_GetOption` reads the flag's bit of Option, the bit `SetOption` writes (`WithOption`) |
| Packets.Packet.SetProtocol | Source/BassNet/Net/Packet.cs:37-41 | the in-place Protocol setter is `StoreProtocol` on the Binary |
| Packets.Packet.SetSize | Source/BassNet/Net/Packet.cs:46-58 | the in-place Size setter is `StoreSize` on the Binary, including its ignored out-of-range values |
| Resolver.FramesSpec | Source/BassNet/Net/Internal/PacketResolver.cs:24-49 | the reassembled packets followed by the unfinished tail give back the stream; each packet is as long as its own size field says; the tail is shorter than a packet |
| Resolver.FramesAppend | Source/BassNet/Net/Internal/PacketResolver.cs:9-11 | reassembling a stream in two parts gives the packets of the first part, then those of its tail followed by the second part |
| Resolver.SplitIndependence | Source/BassNet/Net/Internal/PacketResolver.cs:24-49 | feeding a stream in any split into chunks yields the same packets and the same buffered tail as feeding it whole |
| Resolver.HeaderOnlyPacket | Source/BassNet/Net/Internal/PacketResolver.cs:41-46 | a packet whose size field says 8 completes as soon as its header has been read |
| Resolver.FramesOfFrame | Source/BassNet/Net/Internal/PacketResolver.cs:41-46 | a complete packet at the front of the stream is delivered first, followed by what the rest of the stream yields |
| Resolver.Chunk | Source/BassNet/Net/Internal/PacketResolver.cs:24-28 | the bytes a call sees are the `transfered` bytes from `offset`, or none when `transfered` is not positive |
| Resolver.CopySize | Source/BassNet/Net/Internal/PacketResolver.cs:54-82 | one copy never exceeds the bytes still to read for the packet or the bytes remaining in the chunk, and copies nothing when either is used up |
| Resolver.LoopTurnAsWritten | Source/BassNet/Net/Internal/PacketResolver.cs:28-46 | one turn of the loop as written once a header is in: the copy is `CopySize`, and a packet comes out when it is header-only or its announced size is reached; the bytes left never grow |
| Resolver.ShortSizeStalls | Source/BassNet/Net/Internal/PacketResolver.cs:28-46 | as written, a header announcing fewer than 8 bytes makes a turn copy nothing and hand nothing out while bytes remain, so the loop never ends |
| Resolver.ShortSizeExample | Source/BassNet/Net/Internal/PacketResolver.cs:30-38 | the nine bytes `[1,0,0,0,0,0,0,0,9]` hold a complete header announcing size 0, a stream that is not well-formed |
| Resolver.CheckedFrames | Source/BassNet/Net/Internal/PacketResolver.cs:24-49 | no contract of its own: the corrected reassembly that stops at the first header outside 8..1440; `Resolver.CheckedFramesSpec` states what it does |
| Resolver.CheckedFramesSpec | Source/BassNet/Net/Internal/PacketResolver.cs:24-49 | the corrected reassembly refuses exactly the streams that are not well-formed, and on a well-formed stream gives the packets and tail of `Frames` |
| Resolver.PacketResolver.ResolveProcess | Source/BassNet/Net/Internal/PacketResolver.cs:24-49 | the completed packets and the buffered tail after the call are the reassembly of the old tail followed by the new chunk; the remaining count ends at 0 |
| Resolver.PacketResolver.ReadUntil | Source/BassNet/Net/Internal/PacketResolver.cs:54-82 | the source position, the buffer position and the remaining count move by the same copy size, and the copied bytes extend the buffered tail |
| Resolver.PacketResolver.Round | Source/BassNet/Net/Internal/PacketResolver.cs:28-48 | one turn of the loop consumes at least one byte of the chunk and keeps the reassembly invariant |
| Resolver.PacketResolver.TakePacket | Source/BassNet/Net/Internal/PacketResolver.cs:41-46 | a completed packet is exactly the buffered bytes, after which the buffer is empty |
| Resolver.PacketResolver.ClearBuffer | Source/BassNet/Net/Internal/PacketResolver.cs:85-90 | after `_ClearBuffer` the scratch Binary is all zero and the position is 0 |
| SendQueues.Enqueue | Source/BassNet/Net/Server/Internal/Session.cs:86-94 | a packet joins the tail, and a send is due exactly when the queue was empty |
| SendQueues.Complete | Source/BassNet/Net/Server/Internal/Session.cs:187-213 | a send completion removes exactly the head when it reports no error and the head's full size, and leaves the queue as it was otherwise |
| SendQueues.ZeroSizeStalls | Source/BassNet/Net/Server/Internal/Session.cs:192-206 | a head whose size field is 0 is never retired, whatever the completion reports |
| SendQueues.PartialSendStalls | Source/BassNet/Net/Server/Internal/Session.cs:204-206 | a completion shorter than the head's size leaves the queue unchanged |
| SendQueues.SendBytes | Source/BassNet/Net/Server/Internal/Session.cs:154-160 | what goes to the socket is the packet's first Size bytes |
| SendQueues.CopyToSendBuffer | Source/BassNet/Net/Server/Internal/Session.cs:154-160 | the send buffer starts with the packet's first Size bytes after the copy |
| SendQueues.ClientStartSend | Source/BassNet/Net/Client/ClientSocket.cs:146-168 | a client send starts only with a socket and a non-empty queue, and then sends exactly the head's bytes |
| SendQueues.ClientEnqueue | Source/BassNet/Net/Client/ClientSocket.cs:129-142 | the packet joins the tail, and its bytes are sent at once only when the queue was empty and a socket exists |
| SendQueues.ClientComplete | Source/BassNet/Net/Client/ClientSocket.cs:243-262 | a client completion retires the head only on an error-free full send, then sends the next head if any |
| SendQueues.ClientFifo | Source/BassNet/Net/Client/ClientSocket.cs:243-262 | when every client send completes fully, the head and then the sends the completions issue are the queue's packets in the order they were queued |
| Sessions.StartSend | Source/BassNet/Net/Server/Internal/Session.cs:144-185 | heads whose copy into the send buffer throws are dropped, and the first head that copies is sent with exactly its Size bytes |
| Sessions.CompleteSend | Source/BassNet/Net/Server/Internal/Session.cs:187-213 | a completion that retires the head is followed by the send of the next sendable head; any other completion sends nothing and keeps the queue |
| Sessions.StartSendOrder | Source/BassNet/Net/Server/Internal/Session.cs:144-185 | dropping unsendable heads does not change which sends are due, nor their order |
| Sessions.FifoOrder | Source/BassNet/Net/Server/Internal/Session.cs:187-213 | with every send completing fully, the sends issued are exactly the sendable packets of the queue, in the order they were queued |
| Sessions.ResetState | Source/BassNet/Net/Server/Internal/Session.cs:50-65 | Reset empties the queue, detaches the handlers, clears socket, address and index, and restarts the clock; the resolver's buffered bytes stay |
| Sessions.RecycleState | Source/BassNet/Net/Server/Internal/Session.cs:50-65 | Reset with the resolver also emptied keeps the session invariant |
| Sessions.SetClientSocketState | Source/BassNet/Net/Server/Internal/Session.cs:68-79 | a missing socket changes nothing; otherwise socket, peer address and receive clock are set |
| Sessions.SendPacketState | Source/BassNet/Net/Server/Internal/Session.cs:81-95 | a missing packet answers Session_SendPacketIsNull and changes nothing; otherwise the answer is Success and the packet is queued |
| Sessions.EnqueueState | Source/BassNet/Net/Server/Internal/Session.cs:86-94 | the packet joins the tail; a send starts only if the queue was empty, and a packet whose copy fails is dropped again |
| Sessions.SendProcessState | Source/BassNet/Net/Server/Internal/Session.cs:187-213 | a completion that does not retire the head changes nothing; one that does retires exactly the head and starts the next send |
| Sessions.ImageSpec | Source/BassNet/Net/Server/Internal/Session.cs:227-239 | a completed packet is rebuilt with the session's index as sender, its bytes at the front and its size field equal to its length |
| Sessions.ReceiveStateSpec | Source/BassNet/Net/Server/Internal/Session.cs:220-239 | OnReceive keeps the unfinished tail; with PacketProcessCallback attached every completed packet is handed on in stream order and the clock is refreshed; without it nothing is delivered and the clock stays |
| Sessions.LastRecvTimePassed | Source/BassNet/Net/Server/Internal/Session.cs:215-218 | the idle time added to the last receive time gives the current time |
| Sessions.EnqueueSane | Source/BassNet/Net/Server/Internal/Session.cs:81-95 | SendPacket keeps the session invariant: only sendable-sized packets queued and the head in flight |
| Sessions.SendProcessSane | Source/BassNet/Net/Server/Internal/Session.cs:187-213 | SendProcess keeps the session invariant |
| Sessions.ReceiveSane | Source/BassNet/Net/Server/Internal/Session.cs:220-239 | receiving keeps the session invariant |
| Sessions.ResetSane | Source/BassNet/Net/Server/Internal/Session.cs:50-65 | Reset keeps the session invariant |
| Sessions.StaleTailMisframes | Source/BassNet/Net/Server/Internal/Session.cs:50-65 | six bytes left by a client that dropped mid-packet survive Reset, and the next client's first packet is read behind them as a bogus packet |
| Sessions.RecycledReceivesAlone | Source/BassNet/Net/Server/Internal/Session.cs:50-65 | with the resolver emptied on recycling, a new client's stream is framed on its own |
| Sessions.Session.SendPacket | Source/BassNet/Net/Server/Internal/Session.cs:81-95 | the in-place SendPacket is `SendPacketState` on a copy of the packet's Binary |
| Sessions.Session.StartSendAsync | Source/BassNet/Net/Server/Internal/Session.cs:144-185 | the in-place queue step is `StartSend`, and the send buffer holds the head's Size bytes |
| Sessions.Session.SendProcess | Source/BassNet/Net/Server/Internal/Session.cs:187-213 | the in-place completion is `SendProcessState` |
| Sessions.Session.Reset | Source/BassNet/Net/Server/Internal/Session.cs:50-65 | the in-place Reset is `ResetState` |
| Sessions.Session.Disconnect | Source/BassNet/Net/Server/Internal/Session.cs:103-124 | Disconnect ends in the state `ResetState` describes |
| Sessions.Session.SetClientSocket | Source/BassNet/Net/Server/Internal/Session.cs:68-79 | the in-place SetClientSocket is `SetClientSocketState` |
| Sessions.Session.OnReceive | Source/BassNet/Net/Server/Internal/Session.cs:220-223 | the in-place OnReceive is `ReceiveState` on the received bytes |
| Sessions.Session.MessageResolveComplete | Source/BassNet/Net/Server/Internal/Session.cs:227-239 | each completed packet goes to PacketProcessCallback tagged with the session's index and refreshes the clock, or is dropped without a handler |
| Sessions.Session.GetLastRecvTimePassed | Source/BassNet/Net/Server/Internal/Session.cs:215-218 | the idle time added to the last receive time gives the current time |
| NetworkStatistics.ConnectCounters | Source/BassNet/Net/Server/NetworkStatistic.cs:41-46 | Connect adds one accepted and one open connection and raises the peak to the open count when exceeded; traffic counters are untouched |
| NetworkStatistics.DisconnectCounters | Source/BassNet/Net/Server/NetworkStatistic.cs:51-54 | Disconnect lowers only the open count |
| NetworkStatistics.SendCounted | Source/BassNet/Net/Server/NetworkStatistic.cs:60-66 | Send(n) adds one packet and n bytes to both send tallies and changes nothing else |
| NetworkStatistics.RecvCounted | Source/BassNet/Net/Server/NetworkStatistic.cs:72-78 | Recv(n) adds one packet and n bytes to both receive tallies and changes nothing else |
| NetworkStatistics.ResetCounters | Source/BassNet/Net/Server/NetworkStatistic.cs:83-107 | Reset zeroes every counter |
| NetworkStatistics.ReplayOrdered | Source/BassNet/Net/Server/NetworkStatistic.cs:41-54 | any run of connects and disconnects keeps accepted >= peak >= open |
| NetworkStatistics.FromResetOrdered | Source/BassNet/Net/Server/NetworkStatistic.cs:41-54 | starting from Reset, any run of connects and disconnects keeps accepted >= peak >= open |
| NetworkStatistics.ReplayCurrent | Source/BassNet/Net/Server/NetworkStatistic.cs:41-54 | the open count is the number of connects minus the number of disconnects, and the accepted count grows by the connects |
| NetworkStatistics.NetworkStatistic.Connect | Source/BassNet/Net/Server/NetworkStatistic.cs:41-46 | the in-place Connect is `ConnectCounters` |
| NetworkStatistics.NetworkStatistic.Disconnect | Source/BassNet/Net/Server/NetworkStatistic.cs:51-54 | the in-place Disconnect is `DisconnectCounters` |
| NetworkStatistics.NetworkStatistic.Send | Source/BassNet/Net/Server/NetworkStatistic.cs:60-66 | the in-place Send is `SendCounted` |
| NetworkStatistics.NetworkStatistic.Recv | Source/BassNet/Net/Server/NetworkStatistic.cs:72-78 | the in-place Recv is `RecvCounted` |
| NetworkStatistics.NetworkStatistic.Reset | Source/BassNet/Net/Server/NetworkStatistic.cs:83-107 | the in-place Reset zeroes every counter |
| Server.InitialState | Source/BassNet/Net/Server/ServerSocket.cs:31-58 | a new server has no listener, no sessions, the default timeout, no error and no handler attached |
| Server.SetHandlersState | Source/BassNet/Net/Server/ServerSocket.cs:13-26 | assigning OnConnected, OnDisconnected and OnPacketReceived changes only the three handler flags |
| Server.ListenResult | Source/BassNet/Net/Server/Internal/ListenerSocket.cs:36-38 | the listener accepts exactly the ports strictly between 0 and 65535 that it can bind; the port error is reported first |
| Server.ListenRefusesTopPort | Source/BassNet/Net/Server/Internal/ListenerSocket.cs:36-38 | port 65535, which both clients accept as a destination, is refused by the listener |
| Server.PoolSize | Source/BassNet/Net/Server/ServerSocket.cs:68-99 | a non-positive session count becomes 2000; otherwise that many sessions are created |
| Server.StartServerSpec | Source/BassNet/Net/Server/ServerSocket.cs:68-99 | with a listener running StartServer answers Server_ListenSocketAlreadyListening and changes nothing; otherwise the pool gains exactly the requested sessions, statistics and counter are reset, and the listener's answer is returned and stored |
| Server.StartServerInv | Source/BassNet/Net/Server/ServerSocket.cs:68-99 | starting a stopped server establishes the invariant: pool plus table equals the capacity, live sessions at their own distinct indices |
| Server.StartServerState | Source/BassNet/Net/Server/ServerSocket.cs:68-99 | no contract of its own; `Server.StartServerSpec` and `Server.StartServerInv` state what it does |
| Server.SetSessionTimeoutState | Source/BassNet/Net/Server/ServerSocket.cs:127-130 | the stored timeout is the larger of the request and 10000 ms, and nothing else changes |
| Server.SetLastErrorState | Source/BassNet/Net/Server/ServerSocket.cs:352-356 | the code is stored and the answer is whether it is Success |
| Server.ClearLastErrorState | Source/BassNet/Net/Server/ServerSocket.cs:218-221 | the register reads Success and nothing else changes |
| Server.AcceptState | Source/BassNet/Net/Server/ServerSocket.cs:238-269 | a missing socket changes nothing, and an empty pool sets Server_SessionIsFull and changes nothing else |
| Server.AcceptSpec | Source/BassNet/Net/Server/ServerSocket.cs:253-268 | an accept takes one session from the pool, gives it the next index, adds it to the table under that index and counts the connection; an attached OnConnected is called once with that index and address, a detached one not at all; the handler flags stay |
| Server.AdmittedState | Source/BassNet/Net/Server/ServerSocket.cs:253-265 | the session taken from the pool ends up in the table under the new index |
| Server.AdmittedInv | Source/BassNet/Net/Server/ServerSocket.cs:253-268 | admitting a session, and then calling OnConnected, keeps the invariant |
| Server.AcceptInv | Source/BassNet/Net/Server/ServerSocket.cs:238-269 | accepting keeps pool plus table equal to the capacity, and indices positive and unique |
| Server.Recycled | Source/BassNet/Net/Server/ServerSocket.cs:342-347 | the corrected recycling of the Session.cs finding: a session returned to the pool is idle and clean, its resolver emptied |
| Server.RecycledAsWritten | Source/BassNet/Net/Server/ServerSocket.cs:338-347 | the code's two Resets keep the resolver's bytes: the result is the corrected recycling with those bytes put back |
| Server.RecyclingDiffers | Source/BassNet/Net/Server/ServerSocket.cs:342-347 | the code's recycling differs from a clean one exactly when the resolver held bytes, and then the pooled session is not clean |
| Server.ClientDisconnectState | Source/BassNet/Net/Server/ServerSocket.cs:329-350 | an attached OnDisconnected is called in every case; only a live index is removed, re-pooled as the corrected `Recycled` session (resolver emptied) and uncounted |
| Server.ClientDisconnectInv | Source/BassNet/Net/Server/ServerSocket.cs:329-350 | calling OnDisconnected, and then disconnecting, keeps pool plus table equal to the capacity |
| Server.UnregisteredInv | Source/BassNet/Net/Server/ServerSocket.cs:338-349 | the removal and re-pooling after OnDisconnected keeps the invariant |
| Server.RepeatDisconnect | Source/BassNet/Net/Server/ServerSocket.cs:329-350 | a second disconnect of the same index only gives an attached OnDisconnected (0, "") again and changes nothing else |
| Server.DisconnectClientState | Source/BassNet/Net/Server/ServerSocket.cs:136-144 | an unknown index sets Server_SessionNotExists and changes nothing else; a live one is disconnected |
| Server.DisconnectClientInv | Source/BassNet/Net/Server/ServerSocket.cs:136-144 | DisconnectClient keeps the invariant |
| Server.IdleListSpec | Source/BassNet/Net/Server/ServerSocket.cs:152-159 | the batch ArrangeClients collects holds exactly the live sessions idle for strictly longer than the timeout, each once |
| Server.ArrangeSpec | Source/BassNet/Net/Server/ServerSocket.cs:150-165 | ArrangeClients removes exactly the idle sessions, calls an attached OnDisconnected once for each, keeps the others and empties its batch list |
| Server.ArrangeState | Source/BassNet/Net/Server/ServerSocket.cs:150-165 | no contract of its own; `Server.ArrangeSpec` states what it does |
| Server.DisconnectEachShape | Source/BassNet/Net/Server/ServerSocket.cs:161-162 | disconnecting a batch in turn removes exactly its keys and calls an attached OnDisconnected once per key that was live, in batch order |
| Server.DisconnectEachInv | Source/BassNet/Net/Server/ServerSocket.cs:161-162 | disconnecting a batch keeps the invariant |
| Server.DisconnectEach | Source/BassNet/Net/Server/ServerSocket.cs:161-162 | no contract of its own; `Server.DisconnectEachShape` and `Server.DisconnectEachInv` state what it does |
| Server.SentTimes | Source/BassNet/Net/Server/ServerSocket.cs:172-193 | counting the same send a number of times adds that many packets and bytes to both send tallies |
| Server.SendToAllState | Source/BassNet/Net/Server/ServerSocket.cs:172-193 | a missing packet sets Server_SendPacketIsNull and answers false; otherwise the answer is whether any session exists and the register is left alone |
| Server.BroadcastAll | Source/BassNet/Net/Server/ServerSocket.cs:172-193 | in whatever order the table is enumerated, SendToAll queues the packet once on every session |
| Server.SendToAllInv | Source/BassNet/Net/Server/ServerSocket.cs:172-193 | SendToAll keeps the invariant |
| Server.SendToClientState | Source/BassNet/Net/Server/ServerSocket.cs:201-214 | a missing packet or an unknown index sets the matching error and answers false; a success queues the packet on that session alone, sets Success and answers true |
| Server.SendToClientInv | Source/BassNet/Net/Server/ServerSocket.cs:201-214 | SendToClient keeps the invariant |
| Server.SendCompletedState | Source/BassNet/Net/Server/ServerSocket.cs:226-230 | a send completion goes to its own session's SendProcess and touches nothing else |
| Server.SendCompletedInv | Source/BassNet/Net/Server/ServerSocket.cs:226-230 | a send completion keeps the invariant |
| Server.RecvPacketState | Source/BassNet/Net/Server/ServerSocket.cs:271-279 | a missing packet answers false; otherwise it is counted by its size either way and handed to OnPacketReceived only when attached |
| Server.RecvAll | Source/BassNet/Net/Server/ServerSocket.cs:271-279 | every delivered packet is counted once and, with OnPacketReceived attached, logged in order |
| Server.ReceivedSpec | Source/BassNet/Net/Server/ServerSocket.cs:288-327 | a good receive hands the session's completed packets in stream order to an attached OnPacketReceived, counts them, and keeps the invariant |
| Server.RecvProcessSpec | Source/BassNet/Net/Server/ServerSocket.cs:288-327 | no bytes or a socket error disconnect the session; otherwise its packets are delivered, and a failed re-arm disconnects it afterwards |
| Server.RecvProcessState | Source/BassNet/Net/Server/ServerSocket.cs:288-327 | no contract of its own; `Server.RecvProcessSpec` states what it does, for a session still in the table |
| Server.CreateSessions | Source/BassNet/Net/Server/ServerSocket.cs:78-84 | the loop queues exactly `count` new sessions on the pool |
| Server.CollectIdle | Source/BassNet/Net/Server/ServerSocket.cs:152-159 | the loop collects `IdleList` in enumeration order |
| Server.SendEachLoop | Source/BassNet/Net/Server/ServerSocket.cs:179-190 | the loop queues the packet on each session in turn and counts one send per session |
| Server.ServerSocket.StartServer | Source/BassNet/Net/Server/ServerSocket.cs:68-99 | the in-place StartServer is `StartServerState`, and the capacity becomes the new pool size |
| Server.ServerSocket.Prepare | Source/BassNet/Net/Server/ServerSocket.cs:73-88 | the in-place session creation and resets before the listener are `PreparedState`, and the count is the pool size |
| Server.ServerSocket.Listen | Source/BassNet/Net/Server/ServerSocket.cs:90-98 | the listener's answer on the port is stored as the last error and returned; a failure destroys the server, as `ListenState` states |
| Server.ServerSocket.Destroy | Source/BassNet/Net/Server/ServerSocket.cs:104-121 | every session in the table and the pool is dropped and the listener is gone; the invariant is kept |
| Server.ServerSocket.ArrangeClients | Source/BassNet/Net/Server/ServerSocket.cs:150-165 | the in-place ArrangeClients is `ArrangeState` and keeps the invariant |
| Server.ServerSocket.SendToAll | Source/BassNet/Net/Server/ServerSocket.cs:172-193 | the in-place SendToAll is `SendToAllState` and keeps the invariant |
| Server.ServerSocket.SendToClient | Source/BassNet/Net/Server/ServerSocket.cs:201-214 | the in-place SendToClient is `SendToClientState` and keeps the invariant |
| Server.ServerSocket.OnSessionConnected | Source/BassNet/Net/Server/ServerSocket.cs:238-269 | the in-place accept is `AcceptState` and keeps the invariant |
| Server.ServerSocket.Admit | Source/BassNet/Net/Server/ServerSocket.cs:253-265 | the in-place set-up of the pooled session is `AdmittedState` and keeps the invariant |
| Server.ServerSocket.Announce | Source/BassNet/Net/Server/ServerSocket.cs:266 | the in-place `OnConnected?.Invoke` is `ConnectedState`: logged only when attached, and the invariant is kept |
| Server.ServerSocket.ClientDisconnect | Source/BassNet/Net/Server/ServerSocket.cs:329-350 | the in-place `_ClientDisconnect` is `ClientDisconnectState`, re-pooling the corrected `Recycled` session, and keeps the invariant |
| Server.ServerSocket.Notify | Source/BassNet/Net/Server/ServerSocket.cs:336 | the in-place `OnDisconnected?.Invoke` is `NotifiedState`: logged only when attached, and the invariant is kept |
| Server.ServerSocket.Unregister | Source/BassNet/Net/Server/ServerSocket.cs:338-349 | the in-place removal, re-pooling and uncounting is `UnregisteredState` and keeps the invariant |
| Server.ServerSocket.DisconnectClient | Source/BassNet/Net/Server/ServerSocket.cs:136-144 | the in-place DisconnectClient is `DisconnectClientState` and keeps the invariant |
| Server.ServerSocket.RecvProcess | Source/BassNet/Net/Server/ServerSocket.cs:288-327 | the in-place receive completion is `RecvProcessState` and keeps the invariant |
| Server.ServerSocket.RecvPacket | Source/BassNet/Net/Server/ServerSocket.cs:271-279 | the in-place `_RecvPacket` is `RecvPacketState` |
| Server.ServerSocket.SetSessionTimeout | Source/BassNet/Net/Server/ServerSocket.cs:127-130 | the in-place SetSessionTimeout is `SetSessionTimeoutState` |
| Server.ServerSocket.GetLastError | Source/BassNet/Net/Server/ServerSocket.cs:216 | the answer is the stored error code |
| Server.ServerSocket.ClearLastError | Source/BassNet/Net/Server/ServerSocket.cs:218-221 | the in-place ClearLastError is `ClearLastErrorState` |
| Server.ServerSocket.SetLastError | Source/BassNet/Net/Server/ServerSocket.cs:352-356 | the in-place `_SetLastError` is `SetLastErrorState` |
| Server.ServerSocket.SendCompleted | Source/BassNet/Net/Server/ServerSocket.cs:226-230 | the in-place `_SendCompleted` is `SendCompletedState` |
| Server.ServerSocket.SetHandlers | Source/BassNet/Net/Server/ServerSocket.cs:13-26 | the in-place assignment of the three handler properties is `SetHandlersState` and keeps the invariant |
| UnityClient.ConnectState | Source/BassNet/Net/Client/UnityClientSocket.cs:63-113 | while Connecting or Connected the answer is Client_SocketAlreadyUsed with nothing changed; a bad port or an empty or failing DNS lookup sets ConnectFailed with its own error; Success exactly when the port is valid and DNS gives an address, and then the client is Connecting with a socket to the first address |
| UnityClient.DisconnectState | Source/BassNet/Net/Client/UnityClientSocket.cs:118-144 | both queues are emptied and the socket dropped; the state becomes Disconnected only when a socket existed and notification was asked for |
| UnityClient.ConnectCompletedState | Source/BassNet/Net/Client/UnityClientSocket.cs:194-214 | the client is Connected exactly when the connect reports no error with a socket, and then the receive flag is cleared; otherwise it is ConnectFailed |
| UnityClient.SendPacketState | Source/BassNet/Net/Client/UnityClientSocket.cs:150-166 | a missing packet or a client that is not Connected changes nothing; otherwise the packet joins the tail and is sent at once only when the queue was empty |
| UnityClient.SendProcessState | Source/BassNet/Net/Client/UnityClientSocket.cs:272-291 | a completion retires the head only on an error-free full send, and then sends the next head |
| UnityClient.StartReceiveState | Source/BassNet/Net/Client/UnityClientSocket.cs:295-308 | refused, with nothing changed, exactly when not Connected or already started; otherwise the flag is set; the receive is armed exactly when a socket exists, and without one the call throws with the flag left set |
| UnityClient.RecvProcessSpec | Source/BassNet/Net/Client/UnityClientSocket.cs:223-267 | no bytes or a socket error disconnect with notification; otherwise every completed packet joins the receive queue in stream order with sender 0, and a failed re-arm disconnects afterwards |
| UnityClient.GetReceivePacketsState | Source/BassNet/Net/Client/UnityClientSocket.cs:310-332 | null exactly when not Connected or nothing is waiting; otherwise the oldest min(count, 200) packets leave the queue in arrival order and the rest stay |
| UnityClient.ResetState | Source/BassNet/Net/Client/UnityClientSocket.cs:336-340 | Reset is a silent Disconnect ending in state None |
| UnityClient.UpdateState | Source/BassNet/Net/Client/UnityClientSocket.cs:349-371 | a Connected client whose socket is gone or down becomes Disconnected; every other state is kept |
| UnityClient.InitialState | Source/BassNet/Net/Client/UnityClientSocket.cs:16-44 | a new client is in state None with no socket and empty queues, so Connect is not refused as busy, StartReceive is refused and a poll returns null |
| UnityClient.DisconnectIdempotent | Source/BassNet/Net/Client/UnityClientSocket.cs:118-144 | a second Disconnect finds no socket and changes nothing |
| UnityClient.ResetForgetsState | Source/BassNet/Net/Client/UnityClientSocket.cs:336-340 | Reset ends in the same state whatever connection state it started from |
| UnityClient.StartReceiveOnce | Source/BassNet/Net/Client/UnityClientSocket.cs:295-308 | a second StartReceive is refused and changes nothing, whether the first one armed the receive or threw |
| UnityClient.SilentDisconnectStrandsReceive | Source/BassNet/Net/Client/UnityClientSocket.cs:118-144 | after Disconnect(false), StartReceive throws with the flag set; sends, polls and disconnects leave every later StartReceive refused, and only a completed reconnect arms a receive again |
| UnityClient.PollReturnsArrivals | Source/BassNet/Net/Client/UnityClientSocket.cs:254-332 | after a receive completing at most 200 packets on an empty queue, the next poll returns exactly those packets in stream order |
| UnityClient.PollsContinue | Source/BassNet/Net/Client/UnityClientSocket.cs:310-332 | two polls in a row return the oldest packets in order, the second batch starting where the first stopped |
| UnityClient.SilentDisconnectStallsQueue | Source/BassNet/Net/Client/UnityClientSocket.cs:118-166 | a silent Disconnect keeps the client Connected without a socket; a packet sent then is queued but never sent, and after a reconnect it still blocks later packets |
| UnityClient.UnityClientSocket.IsConnected | Source/BassNet/Net/Client/UnityClientSocket.cs:50-53 | connected exactly when a socket exists and reports itself connected |
| UnityClient.UnityClientSocket.Connect | Source/BassNet/Net/Client/UnityClientSocket.cs:63-113 | the in-place Connect is `ConnectState` |
| UnityClient.UnityClientSocket.Disconnect | Source/BassNet/Net/Client/UnityClientSocket.cs:118-144 | the in-place Disconnect is `DisconnectState` |
| UnityClient.UnityClientSocket.ConnectCompleted | Source/BassNet/Net/Client/UnityClientSocket.cs:194-214 | the in-place connect completion is `ConnectCompletedState` |
| UnityClient.UnityClientSocket.SendPacket | Source/BassNet/Net/Client/UnityClientSocket.cs:150-166 | the in-place SendPacket is `SendPacketState` on a copy of the packet's Binary |
| UnityClient.UnityClientSocket.StartSendAsync | Source/BassNet/Net/Client/UnityClientSocket.cs:170-192 | the head's bytes are copied into the send buffer and sent, when a socket exists |
| UnityClient.UnityClientSocket.SendProcess | Source/BassNet/Net/Client/UnityClientSocket.cs:272-291 | the in-place send completion is `SendProcessState` |
| UnityClient.UnityClientSocket.StartReceive | Source/BassNet/Net/Client/UnityClientSocket.cs:295-308 | the in-place StartReceive is `StartReceiveState`, for every state, with the exception as an outcome |
| UnityClient.UnityClientSocket.RecvProcess | Source/BassNet/Net/Client/UnityClientSocket.cs:223-252 | the in-place receive completion is `RecvProcessState` |
| UnityClient.UnityClientSocket.MessageResolveComplete | Source/BassNet/Net/Client/UnityClientSocket.cs:259-267 | a completed packet joins the receive queue with sender 0 |
| UnityClient.UnityClientSocket.GetReceivePackets | Source/BassNet/Net/Client/UnityClientSocket.cs:310-332 | the dequeue loop computes `GetReceivePacketsState` |
| UnityClient.UnityClientSocket.Reset | Source/BassNet/Net/Client/UnityClientSocket.cs:336-340 | the in-place Reset is `ResetState` |
| UnityClient.UnityClientSocket.Update | Source/BassNet/Net/Client/UnityClientSocket.cs:342-371 | the in-place Update is `UpdateState` |
| Client.ConnectState | Source/BassNet/Net/Client/ClientSocket.cs:56-95 | an existing socket answers Client_SocketAlreadyUsed, a bad port Client_InvalidPortRange, an empty or failing DNS lookup Client_InvalidHost, each with nothing changed; Success exactly when none applies, with a socket to the first address |
| Client.InitialState | Source/BassNet/Net/Client/ClientSocket.cs:15-39 | a new client has no socket, no handlers and empty queues, so Connect never answers Client_SocketAlreadyUsed |
| Client.DisconnectState | Source/BassNet/Net/Client/ClientSocket.cs:100-123 | the queue is emptied and the socket dropped; OnDisconnected runs only when a socket existed and the handler is attached |
| Client.DisconnectFiresOnce | Source/BassNet/Net/Client/ClientSocket.cs:100-123 | a second Disconnect runs no handler and changes nothing |
| Client.ConnectCompletedState | Source/BassNet/Net/Client/ClientSocket.cs:170-185 | a failed connect is a Disconnect; a good one runs OnConnected when attached |
| Client.SendPacketState | Source/BassNet/Net/Client/ClientSocket.cs:129-142 | a missing packet is ignored; otherwise it joins the tail and is sent at once only when the queue was empty and a socket exists |
| Client.SendProcessState | Source/BassNet/Net/Client/ClientSocket.cs:243-262 | a completion retires the head only on an error-free full send, and then sends the next head |
| Client.EarlySendStalls | Source/BassNet/Net/Client/ClientSocket.cs:129-168 | a packet sent before Connect is queued without a send and holds up every later packet after the connection is made |
| Client.PacketEvents | Source/BassNet/Net/Client/ClientSocket.cs:230-238 | with OnPacketReceived attached each completed packet is handed on once, in order, with sender 0; without it nothing is |
| Client.RecvProcessAsWritten | Source/BassNet/Net/Client/ClientSocket.cs:194-223 | see `Client.AsWrittenDropsGoodReceives` |
| Client.AsWrittenDropsGoodReceives | Source/BassNet/Net/Client/ClientSocket.cs:196-197 | as written, every error-free receive with bytes disconnects the client and delivers nothing |
| Client.InvertedRecvTest | Source/BassNet/Net/Client/ClientSocket.cs:196-197 | on a header-only packet the code as written disconnects, while the corrected test delivers the packet |
| Client.RecvProcessDelivers | Source/BassNet/Net/Client/ClientSocket.cs:194-238 | with the corrected test a good receive keeps the unfinished tail and hands every completed packet to OnPacketReceived in stream order |
| Client.RecvProcessState | Source/BassNet/Net/Client/ClientSocket.cs:194-223 | no contract of its own: the receive completion with the corrected test, which disconnects on no bytes, a socket error or a faulted re-arm; `Client.RecvProcessDelivers` states what a good receive delivers |
| Client.ClientSocket.IsConnected | Source/BassNet/Net/Client/ClientSocket.cs:45-48 | connected exactly when a socket exists and reports itself connected |
| Client.ClientSocket.SetCallbacks | Source/BassNet/Net/Client/ClientSocket.cs:15-17 | attaching or detaching the three handlers changes only the handler flags |
| Client.ClientSocket.Connect | Source/BassNet/Net/Client/ClientSocket.cs:56-95 | the in-place Connect is `ConnectState` |
| Client.ClientSocket.Disconnect | Source/BassNet/Net/Client/ClientSocket.cs:100-123 | the in-place Disconnect is `DisconnectState` |
| Client.ClientSocket.ConnectCompleted | Source/BassNet/Net/Client/ClientSocket.cs:170-185 | the in-place connect completion is `ConnectCompletedState` |
| Client.ClientSocket.SendPacket | Source/BassNet/Net/Client/ClientSocket.cs:129-142 | the in-place SendPacket is `SendPacketState` on a copy of the packet's Binary |
| Client.ClientSocket.StartSendAsync | Source/BassNet/Net/Client/ClientSocket.cs:146-168 | the head's bytes are copied into the send buffer and sent, when a socket exists |
| Client.ClientSocket.SendProcess | Source/BassNet/Net/Client/ClientSocket.cs:243-262 | the in-place send completion is `SendProcessState` |
| Client.ClientSocket.RecvProcess | Source/BassNet/Net/Client/ClientSocket.cs:194-223 | the in-place receive completion is the corrected `RecvProcessState` |
| Client.ClientSocket.MessageResolveComplete | Source/BassNet/Net/Client/ClientSocket.cs:230-238 | a completed packet goes to OnPacketReceived with sender 0 when attached |
| Users.AddUserState | Source/SimpleChatServer/User/UserManager.cs:24-31 | an index already present is refused and the table kept; a new one maps to a user with that nickname and every other entry stays |
| Users.RemoveUserState | Source/SimpleChatServer/User/UserManager.cs:33-36 | the index is gone afterwards, every other entry stays, and an absent index changes nothing |
| Users.NicknameOf | Source/SimpleChatServer/User/UserManager.cs:38-44 | the stored nickname, or the empty string for an index nobody holds |
| Users.SendAllCalls | Source/SimpleChatServer/User/UserManager.cs:46-55 | one handler call per enumerated key, in order, with the same packet |
| Users.AddThenGet | Source/SimpleChatServer/User/UserManager.cs:24-44 | a successful AddUser is seen by GetNickname, and other indices keep their nicknames |
| Users.AddRemoveRoundTrip | Source/SimpleChatServer/User/UserManager.cs:24-36 | adding a new user and removing it again gives back the table |
| Users.RemoveFreesIndex | Source/SimpleChatServer/User/UserManager.cs:24-44 | after RemoveUser the index reads as nobody's and can be taken again |
| Users.CallsPerKey | Source/SimpleChatServer/User/UserManager.cs:46-55 | over a list of distinct keys, calls go once to each listed key and never elsewhere |
| Users.BroadcastOncePerUser | Source/SimpleChatServer/User/UserManager.cs:46-55 | a broadcast calls the handler exactly once for every registered index and never for anyone else, always with the same packet |
| Users.UserManager.IsConnectedUser | Source/SimpleChatServer/User/UserManager.cs:22 | true exactly when the index is in the table |
| Users.UserManager.SetSendPacketCallback | Source/SimpleChatServer/User/UserManager.cs:13 | setting SendPacketCallback changes only the handler flag; the table and the call log stay |
| Users.UserManager.AddUser | Source/SimpleChatServer/User/UserManager.cs:24-31 | the in-place AddUser is `AddUserState` |
| Users.UserManager.RemoveUser | Source/SimpleChatServer/User/UserManager.cs:33-36 | the in-place RemoveUser is `RemoveUserState` |
| Users.UserManager.GetNickname | Source/SimpleChatServer/User/UserManager.cs:38-44 | the answer is `NicknameOf` the table |
| Users.UserManager.SendPacketAll | Source/SimpleChatServer/User/UserManager.cs:46-55 | with the handler attached the loop makes `SendAllCalls` in enumeration order; without it nothing is called |

## Left out

- Socket calls (ConnectAsync, SendAsync, ReceiveAsync, Shutdown, Close, RemoteEndPoint) and Dns.GetHostAddresses: these are foreign calls. Their outcomes are parameters. The host string is replaced by the lookup's outcome.
- Completion callbacks: a completion that the socket reports synchronously (ConnectAsync or ReceiveAsync returning false) is modelled as the caller invoking the completion method next. The `pendingFalseCount` recursion guard is left out with it.
- Locks, `Interlocked.Increment` and concurrent completions: everything is modelled sequentially.
- `Packet` references in the send queues: a queue holds a copy of the packet's Binary taken at SendPacket. Aliasing, where the host changes a packet after handing it over, is not modelled.
- `NetworkStatistic.Update`: it computes per-second rates with `double` and `DateTime`. `DateTime.Now` elsewhere is an integer millisecond clock.
- `Session.Dispose` and `ServerSocket.Destroy` resource teardown: Destroy is modelled only as dropping sessions and listener.
- ListenerSocket: its accept thread, event gate and OS bind are left out. Only the port guard is modelled (`Server.ListenResult`), with the bind outcome as a parameter. The backlog check and the already-listening check are left out; StartServer makes the latter unreachable.
- Session.IsConnected, Session.SendToClient and Session.SendToAll: they only forward to the socket or to a handler, and nothing in the modelled core calls them.
- UserManager.GetInstance: the singleton is an ordinary object.
- Compression and XOR: only the option flag bits exist in the source, and they are modelled as flags.
- 32-bit integer wrap-around of counters, byte totals and the session index counter: integers are unbounded, so an overflow after about two billion connections or packets is not modelled.
- `ClientSocket.Connect` binding the receive and send buffers to the event arguments (ClientSocket.cs:88-89): this has no effect on the modelled state.
- The resolver is not reset on a client's Disconnect or Connect, exactly as in the code. A tail buffered on one connection is therefore read in front of the next connection's bytes. No lemma states this for the clients.
- `null == buffer` in the clients' `_MessageResolveComplete`: the resolver never passes null, so that branch is not modelled.
- Host handlers: a handler that throws or re-enters the object is not modelled. An attached handler is a flag, and its calls are a log.
- Server.ClientDisconnectState: re-pools the corrected `Recycled` session, whose resolver is emptied, where ServerSocket.cs:338-347 pools the session after Session.Reset with the resolver's bytes kept (`Server.RecycledAsWritten`; see Findings). Every path that disconnects a session inherits this: `Server.DisconnectClientState`, `Server.DisconnectEach`, `Server.ArrangeState`, `Server.RecvProcessState` and the class methods `ClientDisconnect`, `Unregister`, `DisconnectClient`, `ArrangeClients` and `RecvProcess`. `Server.RecyclingDiffers` states exactly when the two differ.
- Server.RecvProcessState: it requires the session to be in the table. When DisconnectClient or ArrangeClients has already pooled a session, its outstanding receive still completes and ServerSocket.cs:304-307 passes it to `_ClientDisconnect` again. That call is modelled one level down: `Server.RepeatDisconnect` proves it only gives an attached OnDisconnected (0, "") and changes nothing else.
- Resolver.PacketResolver.ResolveProcess: the declared size of every packet in the stream must lie between 8 and 1440 (`WellFormed`). The code does not check this. A smaller size stops the loop from making progress (see Findings), and a larger one overruns the scratch buffer, where BlockCopy throws.
- Sessions.SendPacketState: SetBuffer throws for a size field outside 0..2880, before the guarded copy, so a queued packet's size must lie in that range. A size between 1441 and 2880 makes the copy fail, and the model drops that head as the code does.
- Sessions.Session.SendPacket: the same 0..2880 size requirement as `Sessions.SendPacketState`.
- Client.SendPacketState: a packet whose size field is negative or exceeds 1440 makes the clients' SetBuffer or BlockCopy from the 1440-byte Binary throw when its turn comes. The model requires queued client packets to have a size in 0..1440 (`Sendable`), and does not model that exception.
- Client.ClientSocket.SendPacket: the same size requirement as `Client.SendPacketState`.
- UnityClient.SendPacketState: the same size requirement as `Client.SendPacketState`.
- UnityClient.UnityClientSocket.SendPacket: the same size requirement as `Client.SendPacketState`.
- Packets.SetDataBytes: Buffer.BlockCopy throws when the data holds fewer than `dataSize` bytes on the path that reaches the copy (data present, size 1..1432). The model requires enough bytes there (`CopyableData`) and does not model that exception; every size or null check before the copy is modelled for any data.
- Packets.SetProtocolDataSpec: the same `CopyableData` requirement as `Packets.SetDataBytes`.
- Packets.Packet.SetData: the same `CopyableData` requirement as `Packets.SetDataBytes`.
- Packets.Packet.SetProtocolData: the same `CopyableData` requirement as `Packets.SetDataBytes`.
- Packets.Packet.WithData: the same `CopyableData` requirement as `Packets.SetDataBytes`.
- Packets.CopyRecvBytes: Buffer.BlockCopy throws when the buffer holds fewer than `dataSize` bytes on the path that reaches the copy (buffer present, size 8..1440). The model requires enough bytes there (`CopyableRecv`) and does not model that exception; the null, undersize and oversize answers are modelled for any buffer.
- Packets.Packet.CopyRecvData: the same `CopyableRecv` requirement as `Packets.CopyRecvBytes`.
- Packets.RecvBinarySpec: the receive constructor's BlockCopy needs the same bytes; the model requires them (`CopyableRecv`) and does not model that exception.
- Packets.Packet.FromRecv: the same `CopyableRecv` requirement as `Packets.RecvBinarySpec`.
- SimpleChatServer.cs, frmMain.cs and ExceptionLogger.cs are not part of this model: they are application, UI and logging code.

## Findings

| source | as written | input that shows it | evidently intended | confidence | as-written member | corrected member |
|---|---|---|---|---|---|---|
| Source/BassNet/Net/Server/Internal/Session.cs:50-65 | Reset, used when a session goes back to the pool, leaves the packet resolver's buffered bytes in place | a client that disconnects after six bytes of a packet, then a new client on the recycled session whose first packet is the header-only `[8,0,0,0,0,0,8,0]`: the new client's packet is read behind the six stale bytes | a recycled session starts with an empty resolver | not executed | Sessions.StaleTailMisframes, Server.RecycledAsWritten, Server.RecyclingDiffers | Sessions.RecycleState, Sessions.RecycledReceivesAlone, Server.Recycled |
| Source/BassNet/Net/Client/ClientSocket.cs:196-197 | the receive completion disconnects when no bytes arrived or when the socket reports *success* | an error-free receive of the header-only packet `[1,0,0,0,0,0,8,0]`: the client disconnects and the packet is never delivered | disconnect on no bytes or on a socket *error*, as UnityClientSocket.cs:225-226 does | not executed | Client.RecvProcessAsWritten, Client.AsWrittenDropsGoodReceives, Client.InvertedRecvTest | Client.RecvProcessState, Client.RecvProcessDelivers, Client.ClientSocket.RecvProcess |
| Source/BassNet/Net/Internal/PacketResolver.cs:30-46 | once a header is in, the loop reads towards the size it announces; a size below 8 makes `_ReadUntil` copy nothing and answer false, the packet is not handed out, and `mRemainSize` stays positive, so the loop turns forever | a peer that sends `[1,0,0,0,0,0,0,0,9]`: a complete header announcing size 0, then one more byte; the receive completion never returns | a header whose size lies outside 8..1440 ends reassembly as malformed, so the connection can be dropped; on every well-formed stream this gives exactly `Frames`, which the resolver class computes under its `WellFormed` precondition | not executed | Resolver.LoopTurnAsWritten, Resolver.ShortSizeStalls, Resolver.ShortSizeExample | Resolver.CheckedFrames, Resolver.CheckedFramesSpec |
