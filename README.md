# LANShare NetStream and TcpSrv in Dafny

This project models two parts of LANShare's `TcpUtils` layer and proves
properties of the model.

- **NetStream** is a typed stream over one connected socket. It sends and
  receives these types:
  - fixed-width unsigned integers in network byte order;
  - native `short`/`int`/`long`, dispatched by their byte width;
  - raw `char`s;
  - NUL-terminated narrow strings;
  - wide strings terminated by a zero unit.

  Its raw `Write`/`Read` loops move a buffer through partial transfers. A
  registry shared by all streams stops two live streams from owning the same
  descriptor.
- **TcpSrv** is the bookkeeping of a listening server with a bounded number
  of clients. It keeps:
  - a map from client descriptor to peer address;
  - the descriptor set watched by `select()`;
  - the largest accepted descriptor, the capacity and a ready flag.

  Its operations are accepting clients, retrying sends and receives (with
  eviction), broadcasting, removing clients, and selecting the clients that
  have data.

Modules:

- `Wrappers`: `Option`, `Result`, and `Outcome` (success, or failure with an error).
- `ByteOrder`: the host memory layout (little-endian), network byte order,
  `htons`/`htonl` as a byte reversal of the host image, and the 64-bit union
  that splits a value into two 32-bit words.
- `NetStreamCodec`: the pure wire formats, the width dispatch of native
  integers, the string and wide-string formats, and the stream's error kinds.
- `NetStream`: the socket as a `Channel` object, the descriptor `Registry`, and
  the `NetStream` class, whose `Write`/`Read` and string operations are loops.
- `TcpSrv`: the `TcpSrv` class. Its system calls are parameters.

**Host assumptions.** The code targets Linux on LP64, little-endian:

- `short` is 2 bytes, `int` 4, `long` 8 and `wchar_t` 4 (a signed 32-bit unit).
- The 64-bit union puts the high word first on the wire only on a
  little-endian host. `NetStreamCodec.U64IsBigEndian` proves that, on this
  host, the union encoding equals the 8-byte big-endian image.

**The socket seen by a stream.** A `Channel` holds two byte sequences:

- `sent`: what the peer has received;
- `pending`: what the peer sent that has not yet been read.

`write()` and `read()` are nondeterministic: they move between 1 and the
requested number of bytes, or fail with -1. Every contract therefore holds for
every way the kernel may split a transfer.

**System calls of the server.** Each `TcpSrv` operation receives the results
of its system calls as parameters. The retry loops receive a function from
attempt number to result.

## Model

| member | source | states |
|---|---|---|
| ByteOrder.Reverse | NetStream.cpp:49 | the byte image is reversed position by position: byte i of the result is byte n-1-i of the input |
| ByteOrder.HostBytesRoundTrip | NetStream.cpp:49 | reading back the little-endian memory image of a value gives the value |
| ByteOrder.FromHostBytesRoundTrip | NetStream.cpp:56-58 | every byte image is the memory image of the value it holds |
| ByteOrder.FromHostBytesAppend | NetStream.cpp:79-83 | the value of a concatenated image is the low part plus 256^len times the high part |
| ByteOrder.NetworkBytesRoundTrip | NetStream.cpp:47-75 | the big-endian (network order) bytes of a value read back as that value |
| ByteOrder.FromNetworkBytesRoundTrip | NetStream.cpp:53-75 | every byte sequence is the network encoding of its big-endian value |
| ByteOrder.NetworkBytesAreReversedHostBytes | NetStream.cpp:49 | network order is the host memory image reversed (little-endian host) |
| ByteOrder.FromReversedHostBytes | NetStream.cpp:58 | the host value of a reversed image is the network value of the original |
| ByteOrder.HostToNetwork | NetStream.cpp:49 | htonl/htons keep a value within its width |
| ByteOrder.HostToNetworkImage | NetStream.cpp:49-50 | the memory image of htonl(x) is exactly the network-order bytes of x, so writing it sends x most significant byte first |
| ByteOrder.NetworkToHostValue | NetStream.cpp:56-58 | ntohl applied to the integer read from the wire gives the big-endian value of those bytes |
| ByteOrder.UnionWords | NetStream.cpp:79-84 | the two 32-bit words of the union are each below 2^32 |
| ByteOrder.UnionWordsValue | NetStream.cpp:79-84 | on a little-endian host `low_high[0]` is the low word and `low_high[1]` the high word |
| ByteOrder.UnionJoin | NetStream.cpp:88-93 | joining two words through the union yields a 64-bit value |
| ByteOrder.UnionJoinValue | NetStream.cpp:88-93 | the joined value is word0 + 2^32 * word1 |
| NetStreamCodec.GetErrorType | NetStream.h:34-38 | an error built with a kind returns that kind; a message-only error has no kind to return |
| NetStreamCodec.EncodeU16 | NetStream.cpp:61-67 | a uint16_t goes out as 2 bytes in network order |
| NetStreamCodec.DecodeU16 | NetStream.cpp:68-75 | 2 received bytes decode to their big-endian value |
| NetStreamCodec.U16RoundTrip | NetStream.cpp:61-75 | decoding the encoding of a uint16_t gives it back |
| NetStreamCodec.U16Onto | NetStream.cpp:61-75 | every 2-byte sequence is the encoding of what it decodes to |
| NetStreamCodec.EncodeU32 | NetStream.cpp:47-52 | a uint32_t goes out as 4 bytes in network order |
| NetStreamCodec.DecodeU32 | NetStream.cpp:53-60 | 4 received bytes decode to their big-endian value |
| NetStreamCodec.U32RoundTrip | NetStream.cpp:47-60 | decoding the encoding of a uint32_t gives it back |
| NetStreamCodec.U32Onto | NetStream.cpp:47-60 | every 4-byte sequence is the encoding of what it decodes to |
| NetStreamCodec.EncodeU64 | NetStream.cpp:76-85 | a uint64_t goes out as 8 bytes |
| NetStreamCodec.DecodeU64 | NetStream.cpp:86-95 | the first word read becomes the high word and the second the low word, so the value is the big-endian value of the 8 bytes |
| NetStreamCodec.U64HighWordFirst | NetStream.cpp:76-85 | the 8 bytes are the 4-byte encoding of the high 32 bits followed by that of the low 32 bits |
| NetStreamCodec.U64IsBigEndian | NetStream.cpp:76-85 | on this host the union trick produces the plain 8-byte big-endian image |
| NetStreamCodec.U64RoundTrip | NetStream.cpp:76-95 | decoding the encoding of every 64-bit value gives it back |
| NetStreamCodec.U64Onto | NetStream.cpp:86-95 | every 8-byte sequence is the encoding of what it decodes to |
| NetStreamCodec.Unsigned | NetStream.cpp:219-229 | reinterpreting a signed value's bytes as unsigned is the value modulo 256^size |
| NetStreamCodec.Signed | NetStream.cpp:245-253 | reinterpreting unsigned bytes as signed lands in the two's-complement range and reinterprets back to the same bytes |
| NetStreamCodec.SignedRoundTrip | NetStream.cpp:213-261 | signed to unsigned to signed is the identity on the two's-complement range |
| NetStreamCodec.NativeEncoding | NetStream.cpp:213-238 | castBySizeOut succeeds exactly for widths 2, 4 and 8, sending the network-order bytes of the reinterpreted value; any other width is a CastError |
| NetStreamCodec.NativeDecoding | NetStream.cpp:239-261 | castBySizeIn of 2, 4 or 8 bytes gives a value in the signed range of that width |
| NetStreamCodec.NativeRoundTrip | NetStream.cpp:23-46 | every short/int/long sent with `<<` is received unchanged by `>>` |
| NetStreamCodec.EncodeString | NetStream.cpp:96-100 | a string goes out as its bytes and one 0 byte (length+1 bytes) |
| NetStreamCodec.DecodeString | NetStream.cpp:101-111 | decoding yields the prefix of the input up to and including its first 0; no result when there is no 0 |
| NetStreamCodec.DecodeStringPrefix | NetStream.cpp:101-111 | whatever follows the first 0 is not consumed |
| NetStreamCodec.StringRoundTrip | NetStream.cpp:96-111 | a string without embedded 0 decodes as itself plus the terminator, whatever follows on the wire |
| NetStreamCodec.CString | NetStream.cpp:143-146 | `string(c_str)` is the 0-free prefix of a terminated C string |
| NetStreamCodec.EncodeUnit | NetStream.cpp:127-128 | a wide unit goes out as a 4-byte int: its two's-complement big-endian bytes |
| NetStreamCodec.DecodeUnit | NetStream.cpp:138 | a wide unit is read as a 4-byte int |
| NetStreamCodec.UnitRoundTrip | NetStream.cpp:123-142 | every wide unit reads back as itself |
| NetStreamCodec.UnitOnto | NetStream.cpp:132-142 | every 4 bytes are the encoding of the unit they decode to |
| NetStreamCodec.EncodeUnits | NetStream.cpp:125-129 | a sequence of units takes 4 bytes per unit |
| NetStreamCodec.EncodeUnitsAppend | NetStream.cpp:125-129 | encoding one more unit appends its 4 bytes |
| NetStreamCodec.EncodeUnitsSplit | NetStream.cpp:125-129 | the encoding of a sequence is the encoding of any prefix followed by that of the rest |
| NetStreamCodec.EncodeWString | NetStream.cpp:123-131 | a wide string takes 4 bytes per unit plus 4 for the zero unit |
| NetStreamCodec.DecodeWString | NetStream.cpp:132-142 | a decoded wide string ends at its first zero unit, which it keeps |
| NetStreamCodec.DecodeWStringConsumes | NetStream.cpp:132-142 | decoding consumes exactly the encoding of the units it returns |
| NetStreamCodec.DecodeWStringPrefix | NetStream.cpp:132-142 | units ending at their first zero decode back from their encoding, whatever follows |
| NetStreamCodec.WStringRoundTrip | NetStream.cpp:123-142 | a wide string without zero units decodes as itself plus the zero unit |
| NetStreamCodec.EncodeUnitsStep | NetStream.cpp:125-129 | after i units the loop has sent a prefix of the full encoding, and one more unit extends it |
| NetStreamCodec.WCString | NetStream.cpp:147-155 | a terminated wide C string is read up to its first zero unit |
| NetStreamCodec.WCStringScan | NetStream.cpp:149 | scanning a wide C string stops exactly at the first zero unit |
| NetStream.Channel.WriteSome | NetStream.cpp:189 | write() sends a non-empty prefix of the request or fails with -1, leaving input alone |
| NetStream.Channel.ReadSome | NetStream.cpp:205 | read() takes a non-empty prefix of the pending bytes into the buffer at the offset, or fails with -1 and changes nothing |
| NetStream.Channel.CloseFd | NetStream.cpp:168 | close() reports 0 or -1 |
| NetStream.RemoveFirst | NetStream.cpp:20-21 | erasing the found position removes exactly one occurrence |
| NetStream.NoDuplicatesTail | NetStream.h:89 | the tail of a duplicate-free registry is duplicate-free and lacks the head |
| NetStream.NoDuplicatesCons | NetStream.cpp:15 | prepending a new descriptor keeps the registry duplicate-free |
| NetStream.RemoveFirstDistinct | NetStream.cpp:18-22 | removing a descriptor from a duplicate-free registry removes it completely |
| NetStream.EraseAsWritten | NetStream.cpp:18-22 | the destructor's erase is defined only when the descriptor is registered |
| NetStream.UnregisteredDestroyIsUndefined | NetStream.cpp:17-22 | destroying a default-constructed stream erases `end()` |
| NetStream.EraseOwned | NetStream.cpp:18-22 | the guarded erase removes the first occurrence when present, leaves the registry alone otherwise, and agrees with the unguarded one wherever that is defined |
| NetStream.Registry.constructor | NetStream.cpp:6 | the static registry starts empty |
| NetStream.NetStream.constructor | NetStream.cpp:17 | a default stream is unbound (`sockset{false}`, NetStream.h:83) |
| NetStream.NetStream.Open | NetStream.cpp:8-16 | an already-owned descriptor is refused with the message-only error and nothing changes; otherwise the stream is bound and the descriptor appended, keeping the registry duplicate-free |
| NetStream.NetStream.Destroy | NetStream.cpp:18-22 | the stream's descriptor leaves the registry, which stays duplicate-free; a descriptor not in the registry leaves it unchanged |
| NetStream.NetStream.SetSocket | NetStream.cpp:156-160 | binds the descriptor without touching the registry |
| NetStream.NetStream.SocketSet | NetStream.cpp:161-164 | reports the bound flag: true exactly when the socket check passes |
| NetStream.NetStream.CheckSockSet | NetStream.cpp:174-180 | fails with NoSocketError exactly when unbound |
| NetStream.NetStream.Close | NetStream.cpp:165-173 | unbound: NoSocketError; bound: either success and unbound, or CloseError with the flag still set; registry unchanged |
| NetStream.NetStream.Write | NetStream.cpp:181-196 | unbound: NoSocketError and nothing sent; otherwise the whole buffer in order, or WriteError after a proper prefix |
| NetStream.NetStream.Read | NetStream.cpp:197-212 | unbound: NoSocketError; otherwise exactly len bytes come off the front of the input into the buffer in order, or ReadError after fewer; the count never exceeds len |
| NetStream.NetStream.PutU16 | NetStream.cpp:61-67 | sends the 2-byte network encoding |
| NetStream.NetStream.GetU16 | NetStream.cpp:68-75 | consumes 2 bytes and returns their big-endian value |
| NetStream.NetStream.PutU32 | NetStream.cpp:47-52 | sends the 4-byte network encoding |
| NetStream.NetStream.GetU32 | NetStream.cpp:53-60 | consumes 4 bytes and returns their big-endian value |
| NetStream.NetStream.PutU64 | NetStream.cpp:76-85 | sends the high word then the low word |
| NetStream.NetStream.GetU64 | NetStream.cpp:86-95 | consumes 8 bytes and returns the 64-bit value they encode |
| NetStream.NetStream.CastBySizeOut | NetStream.cpp:213-238 | widths 2, 4, 8 send the reinterpreted value; any other width is CastError with nothing sent |
| NetStream.NetStream.CastBySizeIn | NetStream.cpp:239-261 | widths 2, 4, 8 consume that many bytes and reinterpret them as signed; any other width is CastError with nothing read |
| NetStream.NetStream.PutShort | NetStream.cpp:39-42 | a short goes out as 2 bytes |
| NetStream.NetStream.GetShort | NetStream.cpp:43-46 | a short comes in from 2 bytes |
| NetStream.NetStream.PutInt | NetStream.cpp:23-26 | an int goes out as 4 bytes |
| NetStream.NetStream.GetInt | NetStream.cpp:27-30 | an int comes in from 4 bytes |
| NetStream.NetStream.PutLong | NetStream.cpp:31-34 | a long goes out as 8 bytes |
| NetStream.NetStream.GetLong | NetStream.cpp:35-38 | a long comes in from 8 bytes |
| NetStream.NetStream.PutChar | NetStream.cpp:112-116 | a char goes out as its one byte |
| NetStream.NetStream.GetChar | NetStream.cpp:118-122 | a char is the next byte |
| NetStream.NetStream.PutString | NetStream.cpp:96-100 | sends the string and its terminator |
| NetStream.NetStream.PutCString | NetStream.cpp:143-146 | sends a C string up to and including its first 0 |
| NetStream.NetStream.GetString | NetStream.cpp:101-111 | resets the target, then consumes bytes up to and including the first 0; the result is what was consumed and equals the decoding of the input; a failure leaves a 0-free partial result |
| NetStream.NetStream.PutWString | NetStream.cpp:123-131 | sends every unit and then the zero unit, in order |
| NetStream.NetStream.PutWCString | NetStream.cpp:147-155 | sends the units before the first zero unit, then the zero unit |
| NetStream.NetStream.PutUnit | NetStream.cpp:127-128 | one unit extends the bytes sent so far by its encoding, or fails within the whole message |
| NetStream.NetStream.GetUnit | NetStream.cpp:138 | one unit consumes its 4-byte encoding |
| NetStream.NetStream.GetWString | NetStream.cpp:132-142 | does not reset the target: it appends units up to and including the first zero unit, and what it appended is the decoding of the input |
| NetStream.WStringConsumed | NetStream.cpp:136-141 | once a zero unit has been read, the units read are the decoding of the input and the rest stays pending |
| NetStream.ZeroUnitStep | NetStream.cpp:136 | the loop stops exactly at the first zero unit |
| NetStream.FailedWithin | NetStream.cpp:190-193 | a failure partway through one unit leaves a proper prefix of the whole message sent |
| TcpSrv.ClampCapacity | TcpSrv.cpp:25-26 | the intended capacity: at most FD_SETSIZE, exactly the argument within range, never negative |
| TcpSrv.CapacityAsWritten | TcpSrv.cpp:26 | the stored capacity as written: agrees with the clamp for non-negative arguments and wraps a negative one to 2^32 + c |
| TcpSrv.NegativeCapacityEscapesClamp | TcpSrv.cpp:26 | capacity -1 is stored as 4294967295, above FD_SETSIZE |
| TcpSrv.Digits | TcpSrv.cpp:60 | the decimal digits of a natural number, without a leading zero |
| TcpSrv.DecimalString | TcpSrv.cpp:60 | an int is printed with a minus sign exactly when negative |
| TcpSrv.DigitsRoundTrip | TcpSrv.cpp:60 | the printed digits read back as the number |
| TcpSrv.DecimalRoundTrip | TcpSrv.cpp:58-61 | the printed int reads back as the int |
| TcpSrv.BindFailed | TcpSrv.cpp:55-63 | the bind error has the fixed prefix and suffix, and the text between them reads back as the port |
| TcpSrv.FirstSuccess | TcpSrv.cpp:114-125 | the first of the allowed attempts that does not fail, with every earlier one failing; none when all fail |
| TcpSrv.FirstSuccessAt | TcpSrv.cpp:114-125 | an attempt that succeeds after only failures is the first success |
| TcpSrv.HasLeast | TcpSrv.cpp:102-103 | a non-empty set of descriptors has a least one, which a std::map visits first |
| TcpSrv.AppendLeast | TcpSrv.cpp:209-211 | visiting the least remaining descriptor keeps the visited ones ascending |
| TcpSrv.SurvivorsStep | TcpSrv.cpp:165-169 | each Send of a broadcast keeps its client or drops exactly it |
| TcpSrv.TcpSrv.constructor | TcpSrv.cpp:16 | no clients and not ready (`ready{false}`, TcpSrv.h:58) |
| TcpSrv.TcpSrv.Setup | TcpSrv.cpp:23-72 | stores the clamped capacity; ready only after socket, setsockopt, bind on the port and listen with the backlog all succeed; the first failure gives its own message with ready unchanged; the descriptor set is emptied once a socket exists |
| TcpSrv.TcpSrv.Create | TcpSrv.cpp:18-21 | a fresh server with no clients, then Setup: listening exactly when socket, setsockopt, bind on the port and listen with the backlog succeed |
| TcpSrv.TcpSrv.CreateWithBacklog | TcpSrv.h:31 | capacity 20, with the given backlog passed to listen |
| TcpSrv.TcpSrv.CreateOnPort | TcpSrv.h:32 | capacity 20, and listen is called with backlog 5 |
| TcpSrv.TcpSrv.IsReady | TcpSrv.h:34 | reports the ready flag without side effects |
| TcpSrv.TcpSrv.GetCapacity | TcpSrv.cpp:183-186 | reads the capacity without side effects |
| TcpSrv.TcpSrv.GetNumClients | TcpSrv.cpp:188-191 | the number of tracked clients, never above the capacity |
| TcpSrv.TcpSrv.GetClients | TcpSrv.h:43 | a copy of the client map: same descriptors, same addresses |
| TcpSrv.TcpSrv.Accept | TcpSrv.cpp:78-98 | at capacity: -1 and no change; accept failure: error and no change; otherwise maps the new descriptor, adds it to the set, raises maxFd to it if larger and returns it; the capacity bound is kept and maxFd never decreases |
| TcpSrv.TcpSrv.Send | TcpSrv.cpp:110-130 | untracked: -2 and no change; otherwise 0 exactly when one of the first numTries writes (5 by default, TcpSrv.h:36) does not fail, else -1 with the client erased from the map only (it stays in the descriptor set) |
| TcpSrv.TcpSrv.SendString | TcpSrv.cpp:132-135 | Send of the message followed by its 0 terminator (5 tries by default, TcpSrv.h:37): 0 when a write of those bytes gets through, else -1 with the client erased from the map; server descriptor and ready flag unchanged |
| TcpSrv.TcpSrv.Recv | TcpSrv.cpp:137-161 | untracked: -2; otherwise the result of the first non-failing read among numTries (5 by default, TcpSrv.h:38): a positive count leaves the state alone, 0 removes the client at once; all attempts failing removes it and gives -1 |
| TcpSrv.TcpSrv.Broadcast | TcpSrv.cpp:163-170 | sends to every client in ascending descriptor order; afterwards exactly the clients some default-tries write reached remain |
| TcpSrv.TcpSrv.BroadcastString | TcpSrv.cpp:172-175 | Broadcast of the message followed by its 0 terminator: exactly the clients those bytes reach remain; server descriptor and ready flag unchanged |
| TcpSrv.TcpSrv.RemoveClient | TcpSrv.cpp:177-181 | the descriptor leaves both the map and the descriptor set; removing twice is the same as once |
| TcpSrv.TcpSrv.Listening | TcpSrv.cpp:195-201 | select() on a copy of the descriptor set with nfds = maxFd + 1 can report only descriptors of that set below nfds |
| TcpSrv.TcpSrv.GetUnprocessedClients | TcpSrv.cpp:193-221 | no clients: empty, no select; select -1: error; otherwise ascending tracked descriptors that select marks, at most nready of them, and every marked client left out comes after them all once nready were taken; state unchanged |
| TcpSrv.TcpSrv.Destroy | TcpSrv.cpp:100-108 | closes every client descriptor in ascending order, then the server descriptor |

## Left out

- TcpClnt (TcpClnt.cpp, TcpClnt.h) is not part of this model. It is a thin
  connect wrapper.
- System calls: `socket`, `setsockopt`, `bind`, `listen`, `accept`, `select`,
  `read`, `write` and `close` are oracles or parameters. Their effect on the
  kernel is not modelled.
- `sockaddr_in` is an opaque value (`TcpSrv.SockAddr`). Setup's heap-allocated
  address, which is never freed, is not modelled.
- The two-second sleeps between retries and the `cout` logging are left out:
  they are timing and console output only.
- NetStream.NetStream.Read: a `read()` of 0 bytes (the peer closed the
  connection) makes the source loop forever. The model's chunk oracle returns
  at least 1 byte or -1, so with nothing pending a read can only fail. The
  endless loop is therefore not represented.
- TcpSrv.TcpSrv.Recv: what lands in the caller's buffer is not modelled, only
  the count returned and the state change.
- TcpSrv.TcpSrv.Broadcast: the source iterates the client map while `Send` may
  erase the current entry. That is undefined behaviour in C++. The model visits
  the descriptors present when the broadcast starts, in ascending order.
- TcpSrv.TcpSrv.GetUnprocessedClients: the fd_set limit of FD_SETSIZE
  descriptors is not enforced on the descriptors themselves. The kernel's marks
  are a set parameter, and `nready` is not tied to its size.
- TcpSrv.TcpSrv.constructor and NetStream.NetStream.constructor: fields the
  source leaves uninitialised take arbitrary values. This covers `max_fd`,
  `capacity`, `serverfd` and the descriptor set of a default server, and
  `sockfd` of a default stream.
- Deleted copy construction and assignment (NetStream.h:78-79, TcpSrv.h:48-49)
  need no model. Dafny objects are only ever shared by reference, so no
  operation copies a stream or a server.
- The single static `sockfds` list is an assumption of the model: the
  constructors take a `Registry` object, and the model relies on every stream
  of a program being given the same one. Nothing in the model enforces it.
- NetStream.NetStream.Destroy: like the source, it does not record which
  stream registered a descriptor. A stream bound to a registered descriptor
  with SetSocket alone removes that descriptor on destruction, although
  another stream registered it.
- Thread safety of the shared registry is out of scope.
- TcpSrv.cpp:23 defines `TcpSrv::Setup` without a return type, which is not
  valid C++ as written. The model follows the declaration in TcpSrv.h:33,
  which returns `void`.
- Other platforms are out of scope. The widths and the byte order are fixed
  for LP64 Linux on a little-endian host.

## Findings

| source | as written | input that shows it | evidently intended | confidence | as-written member | corrected member |
|---|---|---|---|---|---|---|
| TcpSrv.cpp:26 | `capacity > FD_SETSIZE ? FD_SETSIZE : capacity` compares signed ints, then stores the result in an `unsigned int`; a negative argument passes the clamp and wraps around | `Setup(port, backlog, -1)` stores 4294967295, far above FD_SETSIZE, so Accept never refuses a client on capacity | the capacity stays within 0..FD_SETSIZE, as the comment on the line says ("Set max to FD_SETSIZE for select") | not executed | TcpSrv.CapacityAsWritten, TcpSrv.NegativeCapacityEscapesClamp | TcpSrv.ClampCapacity (used by TcpSrv.TcpSrv.Setup) |
| NetStream.cpp:18-22 | the destructor erases the iterator `find` returns without checking it against `end()` | destroying a default-constructed stream, or one bound only with SetSocket, when its descriptor is not registered: `sockfds.erase(sockfds.end())` is undefined behaviour | destroying a stream whose descriptor is not in the registry leaves the registry as it is | not executed | NetStream.EraseAsWritten, NetStream.UnregisteredDestroyIsUndefined | NetStream.EraseOwned (used by NetStream.NetStream.Destroy) |
