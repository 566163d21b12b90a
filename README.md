# robot: a Dafny model of the load-generation client's core

`robot` is a load generator. It starts one thread per configured client. Each
thread connects to the group's peer and runs the group's actions `loop_count`
times. An action sends a set of protobuf requests in a fixed binary frame,
waits until every expected response type has arrived or a timeout passes, then
optionally sleeps out a minimum duration. This project models the sequential
core of that program and proves what it promises:

- **Frame codec** (`Codec`, `Bytes`): `Client::encode` / `Client::decode` over the
  layout `[total_len:u32][head_len:u32][head][body][checksum:u32]?`. All fields
  are in network byte order, and signed 32-bit reads are modelled explicitly.
- **Transport** (`Transport`): the `Buffer` struct and `Client` class with their
  growable send and receive buffers, the connection descriptor, `send_msg`,
  `recv_msg`, and the non-blocking `net_tcp_recv` / `net_tcp_send` loops. The
  socket `read` / `write` answers are event scripts.
- **Peer address parsing** (`SockAddr`): the splitting and port rules of
  `parse_sockaddr`, and `tcp_connect`. `inet_pton` and the socket calls are
  oracles.
- **Action engine** (`Robot`): `calc_timeout_responses`,
  `is_action_compleated`, `RunGroupOnce` and the loop of `RobotClientWorker`.
  The client calls the engine makes and `time(0)` are answered by scripts
  (`Env`).
- **Frame-header schema loader** (`FrameConfig`): the datatypes of
  `frame_config_types.h` and the loader of `frame_config_loader.cc`. The loader
  runs over an abstract YAML node tree.
- **Run-configuration checks** (`RunConfig`, `RobotConfig`):
  `CollectConfigInfos`, `ValidationRobotConfigs` and `cleanup_robot_config`
  over the process-wide `uniq_name_map`.
- **Path walk** (`FileUtils`): `is_absolute_path`, `path_skip_root` and
  `mkdir_with_parents`. The latter walks a NUL-terminated copy of the path over
  an abstract filesystem.

The protobuf library (`PB_MASTER`: `create_message`, reflection,
`ParseFromArray`, `AppendToString`, text-format loading) is the oracle value
`MessageRegistry.Registry`. Loops that change state in the source are `while`
loops in methods. Each method is proved equal to a specification function, and
the lemmas state the properties of those functions.

Three behaviours of the code that are easy to misread:

- `decode` bounds `head_len` by `total_len - 4` (`total_len - 8` with a
  checksum), as the comment at client.cc:155-157 says. Only the total-length
  word (and the checksum) is subtracted, not the head-length word.
- `parse_sockaddr` accepts the IPv6 forms its comment lists (client.cc:235-241).
  But `tcp_connect` passes a 16-byte `sockaddr_in`, so an IPv6 peer address
  never connects (`SockAddr.TcpConnectNeverIpv6`).
- Pacing measures the wait in whole seconds of `time(0)` (robot.cc:132-137).
  A wait that ends in the second it started counts as 0 ms, so an action with
  `min_duration` 500 then sleeps the full 500 ms. A wait that crosses a second
  boundary counts as at least 1000 ms, and the action is not padded at all.

## Model

| member | source | states |
|---|---|---|
| Bytes.BeU32 | client.cc:95-104 | the four bytes `htonl` lays out for a 32-bit value |
| Bytes.ReadBeU32 | client.cc:143-144 | reading four bytes with `ntohl` yields a value in `[0, 2^32)` |
| Bytes.AsInt32 | client.cc:143-144 | the `uint32_t` to `int32_t` conversion lies in the signed range and agrees with the input modulo 2^32 |
| Bytes.ReadBeI32 | client.cc:143-144 | the signed `ntohl` read lies in the `int32_t` range, agrees with the unsigned read modulo 2^32, and is negative exactly when the top bit of the first byte is set |
| Bytes.WrapU32 | client.cc:95-100 | the conversion of a length to `uint32_t` is within `[0, 2^32)` |
| Bytes.ReadBeU32OfBeU32 | client.cc:95-104 | reading back a value written in network order gives the value |
| Bytes.BeU32OfReadBeU32 | client.cc:143-144 | four bytes are determined by the value they encode |
| Bytes.ReadBeI32OfBeU32 | client.cc:143-144 | a non-negative `int32_t` length survives `htonl` then signed `ntohl`, whatever bytes follow |
| MessageRegistry.CreateMessage | config.cc:85-86 | `create_message` gives an empty message of the type exactly when the type is known, else null |
| MessageRegistry.SetStringField | robot.cc:72 | `set_msg_type_name` sets that field, keeps the type and every other field |
| Codec.Frame | client.cc:95-120 | the frame is `8 + head + body (+4)` bytes long |
| Codec.CalcChecksum | client-inl.h:21-23 | the checksum stub, which is always 0 (`Codec.FrameSlices` proves that the trailer is four zero bytes) |
| Codec.WellFramed | client.cc:133-164 | the framing checks of `decode`: at least the minimum length, the total-length word equal to the size, and the head length within 4 and the code's bound (`Codec.EncodeLayout` and `Codec.DecodeFramingErrors` state it) |
| Codec.Encode | client.cc:92-127 | `encode` succeeds exactly when head and body both serialize, and then has the frame length |
| Codec.Decode | client.cc:129-228 | a decoded frame passed every framing check; the head has the head type, and the body's type is the head's `msg_type_name` and can be created |
| Codec.FivePartSlices | client.cc:182-216 | where head, body and trailer lie behind two 4-byte fields |
| Codec.FrameParts | client.cc:95-120 | for lengths that fit `int32_t`, the frame is total length, head length, head, body, and a zero checksum when enabled |
| Codec.FrameLayout | client.cc:95-120 | read the way `decode` reads it, `total_len` is the frame length, `head_len` is 4 + head size, head and body lie where `decode` slices, and the frame is well framed |
| Codec.FrameLengths | client.cc:95-104 | both length fields read back as written |
| Codec.TwoLengthFields | client.cc:143-144 | two big-endian fields in front of any bytes read back as themselves |
| Codec.FrameSlices | client-inl.h:21-23 | head and body bytes sit at offsets 8 and 8 + head size; the checksum trailer is four zero bytes, because `calc_checksum` is 0 for all input |
| Codec.EncodeLayout | client.cc:92-120 | a frame `encode` builds from messages has that layout and passes `decode`'s framing checks |
| Codec.DecodeEncode | client.cc:92-228 | round trip: decoding an encoded frame with the same checksum flag returns the head (as the head type) and the body |
| Codec.DecodeFramingErrors | client.cc:133-164 | `decode` rejects, in order: too short (8 or 12), `total_len` mismatch, `head_len` < 4, `head_len` > `total_len`-4 (-8); any other failure is a registry refusal |
| SockAddr.IndexOf | client.cc:243 | `strchr`: the first occurrence, and None exactly when the character is absent |
| SockAddr.IndexOfFirst | client.cc:243 | the first occurrence is at `i` when `i` holds it and nothing before does |
| SockAddr.Decimal | client.cc:283 | the positional value of a digit string, read from its last digit; the reference that `SockAddr.DigitsValue` and `SockAddr.Atoi` are proved to compute |
| SockAddr.DecimalFront | client.cc:283 | the leading digit of a digit string is worth its place value |
| SockAddr.DecimalString | client.cc:283 | the decimal text of a natural number is a non-empty digit string whose value is the number |
| SockAddr.DigitsValue | client.cc:283 | the leading digits accumulated onto `acc`; for a digit string it is `acc` shifted by the digit count plus the decimal value of the digits |
| SockAddr.DigitsValueStops | client.cc:283 | digits after the first non-digit are never read |
| SockAddr.Atoi | client.cc:283 | `atoi` of a digit string is its decimal value |
| SockAddr.SplitAddress | client.cc:243-278 | an IPv4 address part is the whole text or fits the 128-byte buffer; unbracketed text without a port is its own address |
| SockAddr.PortOf | client.cc:280-287 | 0 when no port is given; a given port is accepted only within 1..65535 |
| SockAddr.PortOfDecimal | client.cc:280-287 | a decimal port text within 1..65535 is accepted as exactly that port |
| SockAddr.ParseSockaddr | client.cc:230-325 | success exactly when the text splits, the port is accepted, `inet_pton` accepts the address and the family's structure fits `outlen`; then the result carries the split family, address and port and that structure's size |
| SockAddr.CStr | client.cc:331 | the NUL-free prefix before the first NUL: the whole text when it holds no NUL, otherwise followed by a NUL in the text |
| SockAddr.TcpConnect | client.cc:327-358 | a descriptor exactly when the address parses into a `sockaddr_in` and the socket calls succeed, and then it is the socket's descriptor; -1 otherwise |
| SockAddr.UnclosedBracketFails | client.cc:244-248 | `[` without `]` fails |
| SockAddr.BracketedWithPort | client.cc:244-260 | `[addr]:port` is IPv6 with the address in brackets and the port after `]:` |
| SockAddr.BracketedNoPort | client.cc:256-260 | `[addr]` is IPv6 without a port |
| SockAddr.BracketedTooLongFails | client.cc:249-252 | a bracketed address of 128 or more chars fails |
| SockAddr.TwoColonsIsIpv6 | client.cc:261-264 | two or more colons (no bracket) is IPv6, the whole text, without a port |
| SockAddr.OneColonIsHostPort | client.cc:265-273 | exactly one colon is IPv4 `host:port` |
| SockAddr.HostPortParses | client.cc:265-325 | `host:port` with a decimal port in range and an address `inet_pton` accepts yields that IPv4 address and port and a 16-byte length |
| SockAddr.HostTooLongFails | client.cc:267-269 | a host of 128 or more chars before the only colon fails |
| SockAddr.NoColonIsBareIpv4 | client.cc:274-278 | no colon and no bracket is IPv4 without a port |
| SockAddr.PortOutOfRangeFails | client.cc:282-286 | a given port outside 1..65535 fails whatever `inet_pton` says |
| SockAddr.TcpConnectNeverIpv6 | client.cc:328-331 | through `tcp_connect`'s 16-byte `outlen` only IPv4 parses succeed |
| Transport.CalcBufferSize | client-inl.h:44-46 | `calc_buffer_size`, rounding up by integer division (its meaning is the next row) |
| Transport.CalcBufferSizeIsLeastBlockMultiple | client-inl.h:44-46 | `calc_buffer_size(n)` is the least multiple of 4096 that is at least `n` |
| Transport.CalcBufferSizeAddsOneBlock | client.cc:383 | a buffer of whole blocks grows by exactly one block on receive |
| Transport.SendCapacity | client.cc:51-55 | the send buffer's size after an append: unchanged while 128 bytes stay free, else `calc_buffer_size` of the old size plus the append (`Transport.SendCapacityKeepsHeadroom` states its meaning) |
| Transport.RecvCapacity | client.cc:381-386 | the receive buffer's size after a read: one more block when fewer than 128 bytes stay free (`Transport.RecvCapacityKeepsHeadroom` states its meaning) |
| Transport.SendCapacityKeepsHeadroom | client.cc:51-55 | after the growth check the send buffer is whole blocks, never shrinks, and keeps 128 bytes free |
| Transport.RecvCapacityKeepsHeadroom | client.cc:381-386 | after each read the receive buffer is whole blocks, never shrinks, and keeps 128 bytes free |
| Transport.Buffer.constructor | client.h:13-18 | both buffers empty, each one block of 4096 |
| Transport.Buffer.AppendReceived | client.cc:381-386 | the read bytes are appended, the size is grown as `net_tcp_recv` grows it, and the send side is untouched |
| Transport.Buffer.Clear | client.h:20-22 | both lengths become 0 and both allocations are kept |
| Transport.SendPackage | client.cc:33-49 | `send_msg` accepts exactly when connected, the frame encodes and it fits `max_pkg_len`; then it queues exactly the encoded frame; not connected is `NotConnected` |
| Transport.RecvSpec | client.cc:62-90 | a frame is taken only when its length word is in 8..`max_pkg_len`, all of it has arrived and it decodes; then exactly that many bytes are consumed |
| Transport.RecvSpecIncomplete | client.cc:64-76 | `recv_msg` reports incomplete exactly when fewer than 4 bytes, or fewer than the announced in-range length, are buffered |
| Transport.ReadBeI32Prefix | client.cc:68 | the length word depends only on the first four bytes |
| Transport.SentFrameIsReceived | client.cc:33-90 | what `send_msg` queues, arriving at the peer in front of any other bytes, is returned whole by `recv_msg`, which consumes exactly its bytes |
| Transport.PartialFrameIsIncomplete | client.cc:64-76 | any strict prefix of a queued frame leaves `recv_msg` waiting |
| Transport.AfterRead | client.cc:363-364 | a short read leaves the chunk's unread tail queued; the byte stream is unchanged and the script shrinks |
| Transport.ReadCount | client.cc:363-364 | the count one `read` returns: the chunk, cut to the free room (`Transport.PumpChunk` and `Transport.PumpConservesChunk` state what that read does) |
| Transport.Pump | client.cc:360-389 | `net_tcp_recv` returns 0 or -1, only appends to the live bytes, and keeps the buffer whole blocks with headroom |
| Transport.PumpChunk | client.cc:363-386 | one read appends at most the free room of the next chunk and continues |
| Transport.PumpConservesBytes | client.cc:360-389 | no byte is lost, duplicated or reordered: read bytes plus still-queued bytes are exactly what was offered |
| Transport.PumpConservesChunk | client.cc:363-386 | the same conservation, for a read that returns bytes |
| Transport.SplitRead | client.cc:363-364 | taking `n` bytes of a chunk and leaving the rest keeps the order |
| Transport.PumpDrainsData | client.cc:360-389 | while the socket only delivers data or EINTR, one call reads all of it and returns 0 |
| Transport.PumpStopsAtFailure | client.cc:365-380 | EOF or a read error returns -1 and consumes nothing after it |
| Transport.Flush | client.cc:391-414 | `net_tcp_send` returns 0 or -1 and writes no more than was queued |
| Transport.FlushWritesAccepted | client.cc:395-414 | while writes succeed or are retried, the bytes written are the accepted counts, capped at what was queued, with status 0 |
| Transport.FlushStopsAtFailure | client.cc:397-410 | a write error or a zero count while bytes are still queued ends the call with -1 after what the earlier writes took, consuming nothing after it |
| Transport.Client.constructor | client.cc:28-31 | not connected, the configured limit and checksum flag, empty one-block buffers |
| Transport.Client.IsConnected | client-inl.h:5-7 | connected while the descriptor is non-negative; `TryConnectToPeer` and `CloseConnection` state their effect through it |
| Transport.Client.TryConnectToPeer | client-inl.h:9-13 | already connected: true and the descriptor is kept; otherwise the result of `tcp_connect` is stored, and the method returns true exactly when connected |
| Transport.Client.CloseConnection | client-inl.h:15-19 | afterwards disconnected; a no-op when already disconnected |
| Transport.Client.ClearBuffer | client.h:43 | `Buffer::Clear` on the client's buffer |
| Transport.Client.SendMsg | client.cc:33-60 | on refusal the send buffer is unchanged; on acceptance it is the old bytes plus the frame, grown only when within 128 bytes of full |
| Transport.Client.RecvMsg | client.cc:62-90 | returns `RecvSpec` of the buffered bytes and removes exactly the consumed frame from the front |
| Transport.Client.NetTcpRecv | client.cc:360-389 | the buffer, size, status and unread events are those of `Pump`; -1 closes the connection (`connfd_` = -1) |
| Transport.Client.ReadChunk | client.cc:363-386 | one read step preserves the `Pump` outcome and shrinks the script |
| Transport.Client.NetTcpSend | client.cc:391-422 | status is that of `Flush`; on 0 the buffer holds exactly the unsent suffix; on -1 it is unchanged and the connection is closed |
| Robot.MissingCount | robot.cc:6-23 | a name is missing as often as it is expected when it never arrived, and never when it did |
| Robot.MissingEmptyIff | robot.cc:25-30 | nothing is missing exactly when every expected name was received, regardless of order or duplicates |
| Robot.CalcTimeoutResponses | robot.cc:6-23 | appends to the output, in configured order, exactly the expected names not received |
| Robot.IsActionCompleated | robot.cc:25-30 | true exactly when every expected name occurs among the received |
| Robot.SendOne | robot.cc:62-83 | a sent request reports its body's type name; sending touches no clock, poll, sleep or completion |
| Robot.SendSpec | robot.cc:61-85 | on success one type name per request; a failure is never a timeout; other scripts are untouched |
| Robot.WaitSpec | robot.cc:87-130 | completion means all expected names arrived; a timeout needs `timeout` > 0 and elapsed > timeout and lists what is missing; errors are send, recv or `recv_msg` errors |
| Robot.PaceSleep | robot.cc:132-137 | a sleep happens exactly when `min_duration` > 0 and elapsed×1000 < it, and then pads to exactly `min_duration` ms |
| Robot.RunActionSpec | robot.cc:47-151 | an action that returns true recorded a completion holding all expected responses; false records none; a timeout needs `timeout` > 0 |
| Robot.AfterWait | robot.cc:132-151 | the tail of an action after the wait: one clock read, the pacing sleep, then the timeout failure or the next action (`Robot.FinishAction` is proved equal to it) |
| Robot.RunGroupSpec | robot.cc:32-154 | one pass over the group's actions in order, skipping as the source does and stopping at the first failure (`Robot.PassCompletesEveryAction`, `Robot.SkippedActionsHaveNoEffect` and `Robot.RunGroupKeepsHeads` state its promises) |
| Robot.Skipped | robot.cc:54-57 | the skip test: `stop_loop_count` set and reached on this pass (`Robot.SkippedActionsHaveNoEffect` proves that skipped actions leave the pass unchanged) |
| Robot.NamesResolvedTail | robot.cc:47-63 | resolved request names stay resolved for the remaining actions |
| Robot.Active | robot.cc:54-57 | a pass runs no more actions than the group configures |
| Robot.ActiveResolved | robot.cc:54-63 | the actions that run have resolved request names |
| Robot.SkippedActionsHaveNoEffect | robot.cc:54-57 | a pass behaves exactly as if only the non-skipped actions were configured |
| Robot.SendOneKeepsHeads | robot.cc:71-73 | every head handed to `send_msg` names its body's type and keeps the worker's head fields |
| Robot.SendSpecKeepsHeads | robot.cc:61-84 | the same, across a send phase |
| Robot.RunActionKeepsHeads | robot.cc:47-151 | the same, across one action |
| Robot.RunGroupKeepsHeads | robot.cc:32-154 | the same, across a group pass |
| Robot.ConsCompletion | robot.cc:47-153 | completion records compose action by action |
| Robot.PassCompletesEveryAction | robot.cc:153 | a pass returns true only when every non-skipped action completed, in order, each with all expected responses |
| Robot.TimeoutNeedsPositiveTimeout | robot.cc:92-96 | a timeout failure comes from a run action whose `timeout` > 0; `timeout` = 0 never times out |
| Robot.SingleResponseCompletes | tests/test_robot_run_group_once.cc:95-147 | one request with one matching response returns true |
| Robot.PrependTwice | robot.cc:61-84 | names sent so far accumulate in order |
| Robot.SendSpecAt | robot.cc:61-84 | the send phase from request `r` is that request, then the rest |
| Robot.SendRequest | robot.cc:62-83 | one request step equals `SendOne` |
| Robot.SendRequests | robot.cc:61-85 | the send loop equals `SendSpec` |
| Robot.WaitForResponses | robot.cc:87-130 | the wait loop equals `WaitSpec` from no responses |
| Robot.Pace | robot.cc:133-137 | reads one clock value and sleeps exactly `PaceSleep`; with no clock value it changes nothing |
| Robot.RunAction | robot.cc:47-151 | one action equals `RunActionSpec` |
| Robot.FinishAction | robot.cc:132-151 | the end of an action equals `AfterWait` |
| Robot.RunGroupOnce | robot.cc:32-154 | the method equals `RunGroupSpec` |
| Robot.RunGroupSpecAt | robot.cc:47-57 | the pass from action `i` is that action (unless skipped), then the rest |
| Robot.WorkerLoop | robot.cc:177-186 | no failure means exactly `loop_count` passes ran; a failure stops before `loop_count` |
| Robot.WorkerLoopKeepsHeads | robot.cc:177-186 | every request of the loop carries a sound head |
| Robot.WorkerOutcome | robot.cc:156-189 | no connection means nothing is sent and no pass runs; connected, it runs `loop_count` passes unless one fails; every request carries the client's `uid`/`role_tm` and names its body's type |
| Robot.RobotClientWorker | robot.cc:156-189 | the worker equals `WorkerSpec` |
| Robot.RunLoops | robot.cc:177-186 | passes `count` = 0, 1, … in order until `loop_count` or the first failure, equal to `WorkerLoop` |
| Robot.WorkerSpec | robot.cc:156-189 | the worker: connect once, then `loop_count` passes unless one fails (`Robot.WorkerOutcome` states its promises) |
| Robot.InitialHead | robot.cc:172-175 | the head a worker starts from: the client's uid and role time, with `ret` 0 (`Robot.WorkerOutcome` proves every head sent keeps these fields) |
| FrameConfig.StringToDataType | frame_config_loader.cc:9-27 | a recognised name is the spelling of the type it returns |
| FrameConfig.DataTypeName | frame_config_loader.cc:9-27 | the spelling of each data type (`FrameConfig.StringToDataTypeInvertsName` proves that the parser inverts it) |
| FrameConfig.StringToDataTypeInvertsName | frame_config_loader.cc:9-27 | every one of the 15 spellings maps to its type, and every other string is rejected |
| FrameConfig.SizeMatchesTypeName | frame_config_loader.cc:30-56 | a numeric size is accepted exactly when it is the type name's bit width / 8; a fixed string needs size > 0 |
| FrameConfig.CheckSizeConsistency | frame_config_loader.cc:29-55 | `check_size_consistency` as a match over the type (`FrameConfig.SizeMatchesTypeName` ties it to the type's name) |
| FrameConfig.NameBits16 | frame_config_loader.cc:35-39 | the 16-bit type names carry the width 16 |
| FrameConfig.NameBits32 | frame_config_loader.cc:41-45 | the 32-bit type names carry the width 32 |
| FrameConfig.NameBits64 | frame_config_loader.cc:46-50 | the 64-bit type names carry the width 64 |
| FrameConfig.AppendChar | frame_config_loader.cc:12-24 | appending a digit to a type name extends its width by that digit; any other char leaves it |
| FrameConfig.NoDigitsValue | frame_config_loader.cc:25 | a digit-free name has digit value 0 |
| FrameConfig.NoDigitsSuffix | frame_config_loader.cc:12-24 | a digit-free suffix does not change the digit value |
| FrameConfig.OneDigitName | frame_config_loader.cc:10-11 | "uint8"/"int8" carry the width 8 |
| FrameConfig.TwoDigitName | frame_config_loader.cc:12-24 | "uint16_le" and the like carry their two-digit width |
| FrameConfig.Lookup | frame_config_loader.cc:156 | a key is found exactly in a mapping that has it |
| FrameConfig.AsString | frame_config_loader.cc:159 | only scalars and null convert to strings |
| FrameConfig.AsInteger | frame_config_loader.cc:160 | an integer conversion succeeds exactly for a scalar whose number fits the range |
| FrameConfig.ParseValueRule | frame_config_loader.cc:64-97 | a missing value is an error; the two keywords give the computed rules and leave the field alone; anything else is a literal, int64 for numeric types (a non-number is `InvalidLiteral`) or the raw text for a fixed string |
| FrameConfig.Utf8Length | frame_config_loader.cc:112 | `std::string::length()` of the UTF-8 text: at least one and at most four bytes per char, and exactly one per ASCII char |
| FrameConfig.ValidateFieldDef | frame_config_loader.cc:99-132 | valid needs a consistent size; a literal fixed string must be a string whose UTF-8 byte length does not exceed the field; a numeric literal must not be a string; computed rules check no literal |
| FrameConfig.CalcRulesIgnoreLiteral | frame_config_loader.cc:107-129 | under a computed rule the literal value does not affect validation |
| FrameConfig.ParsedLiteralHasRightVariant | frame_config_types.h:44-47 | a parsed literal always has the variant its type needs, so validation reduces to the size and the string's byte length |
| FrameConfig.ParseField | frame_config_loader.cc:155-168 | one field entry: the four keys, the conversions, the value rule and validation in source order (`FrameConfig.ParseFieldOutcome` states its promises) |
| FrameConfig.ParseFieldOutcome | frame_config_loader.cc:154-168 | a missing one of the four keys is `IncompleteField`; a parsed field validates and has the entry's name, size and type |
| FrameConfig.LoadFields | frame_config_loader.cc:154-170 | the field loop: every entry parsed in order, stopping at the first failure (`FrameConfig.LoadFieldsOutcome` states its promises) |
| FrameConfig.LoadFieldsOutcome | frame_config_loader.cc:154-170 | loading succeeds exactly when every entry parses, giving one def per entry in order; otherwise the error is that of the first failing entry |
| FrameConfig.LoadSpec | frame_config_loader.cc:134-172 | success needs an existing, parsable document |
| FrameConfig.LoadSpecShape | frame_config_loader.cc:145-171 | a missing `frame_header`/`fields` and a non-sequence `fields` are errors; on success one valid def per entry, in entry order |
| FrameConfig.DefaultHeaderLoads | tests/test_frame_config_loader.cc:35-67 | the default two-field header loads as two big-endian 32-bit computed lengths |
| FrameConfig.LongFixedStringRefused | tests/test_frame_config_loader.cc:223-235 | a fixed-string literal longer than its field is refused |
| FrameConfig.MultiByteLiteralRefused | frame_config_loader.cc:112-115 | two three-byte chars do not fit a four-byte fixed string: the limit counts bytes, not chars |
| FrameConfig.LoadConfig | frame_config_loader.cc:134-172 | the loading loop equals `LoadSpec` |
| FrameConfig.LoadFieldsAllParsed | frame_config_loader.cc:154-170 | when every entry parses, the result is exactly the parsed entries |
| FrameConfig.LoadFieldsFirstFailure | frame_config_loader.cc:154-170 | the loop fails with the error of the first entry that fails |
| RunConfig.Key | config.cc:34-35 | the 64-bit key fits in 64 unsigned bits |
| RunConfig.SplitUnique | config.cc:34-35 | the high and low halves of a key are determined by the key |
| RunConfig.KeysClashIff | config.cc:34-36 | two clients clash exactly when their uids and their role times agree in their low 32 bits |
| RunConfig.KeyInjectiveOn32Bits | config.cc:34-36 | for identities that fit 32 unsigned bits, only the same client clashes |
| RunConfig.KeysOfMembers | config.cc:41 | a key is recorded exactly when some client has it |
| RunConfig.AllClientsSnoc | config.cc:19-21 | one more group adds its clients and its `client_count` |
| RunConfig.AllClientsPrefix | config.cc:19-32 | the clients seen so far are a prefix of all clients |
| RunConfig.KeysOfSnoc | config.cc:41 | inserting a key adds exactly it |
| RunConfig.DistinctSnoc | config.cc:36-41 | a new key keeps the clients distinct |
| RunConfig.DuplicateBreaksDistinct | config.cc:36-40 | a key seen before breaks distinctness of the whole run |
| RunConfig.ClashExtends | config.cc:32-42 | a clash among the first clients is a clash of the run |
| RunConfig.InsertClientKeys | config.cc:32-42 | the client loop succeeds exactly when all keys so far are distinct, and then records exactly their keys |
| RunConfig.ValidRobotConfig | config.cc:14-66 | what validation accepts: every group has enough clients and resolved names, all client keys are distinct, and the total stays within the limit (`RunConfig.ConfigTables.ValidationRobotConfigs` is proved to return it) |
| RunConfig.ConfigTables.constructor | config.cc:7 | the table starts empty |
| RunConfig.ConfigTables.ValidationRobotConfigs | config.cc:14-66 | true exactly when every group lists enough clients and names only known bodies, no two clients of the run share a key, and total `client_count` ≤ 10000 |
| RunConfig.ConfigTables.CheckGroup | config.cc:20-55 | a group passes exactly when it has enough clients, its keys are new and distinct, and its request names resolve |
| RunConfig.ConfigTables.RequestNamesResolved | config.cc:45-55 | true exactly when every request name of every action is in the table |
| RunConfig.ConfigTables.CollectConfigInfos | config.cc:75-96 | the outcome and the new table are those of `CollectSpec` |
| RunConfig.ConfigTables.CleanupRobotConfig | config.cc:68-73 | the table is empty afterwards |
| RunConfig.NamesOf | config.cc:79 | exactly the bodies' unique names |
| RunConfig.CollectSpec | config.cc:75-96 | collection only adds entries and keeps every earlier one |
| RunConfig.CollectSucceedsIff | config.cc:79-90 | collection succeeds exactly when the unique names are new and pairwise distinct and every type can be created |
| RunConfig.CollectEntries | config.cc:92 | on success there is one entry per body, keyed by its unique name, holding it and an empty message of its type, and nothing else is added |
| RunConfig.ValidConfigResolvesGroups | config.cc:110-115 | a configuration that collects and validates gives every group resolved request names and enough clients |
| FileUtils.IsAbsolutePath | fileutils.cc:70-72 | 1 exactly when the first char is a separator, else 0 |
| FileUtils.PathSkipRoot | fileutils.cc:81-92 | null exactly for a relative path; else the offset just past all leading separators |
| FileUtils.SkipRootLeavesRelative | fileutils.cc:26-30 | what follows the root is relative |
| FileUtils.PrefixesFrom | fileutils.cc:32-58 | each prefix the walk tests before the end is a proper prefix at or after the start |
| FileUtils.PrefixesFromCuts | fileutils.cc:32-58 | the prefixes tested are exactly those ending just before a separator run, strictly increasing in length |
| FileUtils.PrefixesFromSound | fileutils.cc:33-39 | every listed prefix ends at a separator |
| FileUtils.PrefixesFromComplete | fileutils.cc:33-58 | no separator run is skipped |
| FileUtils.PrefixesFromIncreasing | fileutils.cc:32-58 | shortest first |
| FileUtils.Prefixes | fileutils.cc:32-58 | the whole path is the last prefix tested |
| FileUtils.NoCutsBetween | fileutils.cc:56 | skipping a separator run skips no prefix |
| FileUtils.PrefixesStep | fileutils.cc:33-57 | one round of the walk tests one prefix and advances to the next component |
| FileUtils.Mkdir | fileutils.cc:42 | a successful `mkdir` adds exactly that directory |
| FileUtils.Step | fileutils.cc:41-52 | a prefix passes by existing as a directory, being created, or `EEXIST`; a file gives `ENOTDIR`; other `mkdir` errors fail |
| FileUtils.RunTests | fileutils.cc:32-62 | the walk over the prefixes: status 0 or -1, and 0 exactly when no errno is reported (`FileUtils.RunTestsOutcome` states the rest) |
| FileUtils.RunTestsOutcome | fileutils.cc:32-62 | 0 with no errno or -1 with the errno of a refusing prefix; only the tested prefixes become directories; on 0 every one is available |
| FileUtils.CString | fileutils.cc:38 | the C string is the NUL-free text before the first NUL |
| FileUtils.CStringBeforeNul | fileutils.cc:38 | writing a NUL after a NUL-free prefix leaves that prefix as the C string |
| FileUtils.Strdup | fileutils.cc:24 | a fresh NUL-terminated copy of the path |
| FileUtils.SkipComponent | fileutils.cc:33 | advances to the next separator or the end |
| FileUtils.SkipSeparators | fileutils.cc:56 | advances past a run of separators |
| FileUtils.TestPrefix | fileutils.cc:35-55 | tests exactly the prefix before the cut and restores the copy |
| FileUtils.MkdirWithParents | fileutils.cc:16-63 | the method equals `MkdirSpec` |
| FileUtils.MkdirSpec | fileutils.cc:16-63 | `EINVAL` for no path, else the walk: status 0 or -1, and 0 exactly when no errno is reported (`FileUtils.MkdirOutcome` states the rest) |
| FileUtils.MkdirOutcome | fileutils.cc:16-63 | no path gives -1/`EINVAL` unchanged; 0 means the path and every prefix before a cut are available; -1 names a refusing prefix; only those prefixes can be created |
| FileUtils.CreatesEveryLevel | fileutils.cc:32-62 | `/a/b` on an empty filesystem creates `/a` then `/a/b` and returns 0 |
| FileUtils.FileInTheWay | fileutils.cc:48-51 | a file at `log` stops `log/run` with `ENOTDIR` and nothing is created |

## Left out

- Socket syscalls (`socket`, `connect`, `set_fd_nonblock`, `set_tcp_nodelay`, `close`, raw `read`/`write`) and `inet_pton` are oracles: `SocketOutcome`, event scripts and `pton`.
- The protobuf library (`pb_master.cc`) is the `Registry` oracle; serialized sizes are the lengths of the bytes it returns.
- Thread pools (`RobotGroupWorker`, `RunRobots`, `CreateThreadsPool`) are left out, because their point is concurrency. The workers are modelled one at a time.
- `time(0)` and `usleep` are scripts and a recorded list of sleeps. `Env` is finite, so a run whose script runs out ends with `ScriptEnded`, which the real program never reports; the real program would keep waiting.
- The engine sees the client through the interface of `tests/mock_client.h`. Poll results are script entries, not calls into `Transport`.
- `LOG`/`VLOG` output and the text of error streams are left out; errors are datatypes.
- The destructor, `free`/`delete`, and `realloc` failure are not modelled.
- `peer_addr_` is never set by the source and is not modelled.
- The `buffer()` accessor is the class's public `buffer` field.
- Transport.SendPackage: lengths, `max_pkg_len` and frame sizes are unbounded integers. The `int32_t` overflow of `sendlen + size + 128` and of `total_len` for frames over 2^31 bytes is not modelled; the round-trip lemmas require frames under 2^31.
- Robot.PaceSleep: `int32_t` overflow of `dur` and `usleepdur` is not modelled.
- RunConfig.ConfigTables.ValidationRobotConfigs: the `int` overflow of `total_client` is not modelled. The width of `uid` is unspecified, so `Key` keeps its low 32 bits as `uint64_t << 32` would.
- SockAddr.PortOf: `atoi` on values beyond `int` is undefined in C and is modelled as the unbounded value.
- Codec.Decode requires the head type `ISeer20CSProto.cs_msg_head_t` to be creatable, because the source dereferences `create_message`'s result unchecked. The receive path inherits that precondition: `Transport.RecvSpec`, `Transport.RecvSpecIncomplete`, `Transport.SentFrameIsReceived`, `Transport.PartialFrameIsIncomplete` and `Transport.Client.RecvMsg` all require it.
- Robot.RunGroupOnce: an action with no request names is run with an empty send phase. The source logs `request_uniq_name(0)` of every action before the skip test (robot.cc:50-52), which is undefined for an empty list, and `ValidationRobotConfigs` does not refuse such an action. That crash is not modelled.
- Robot.RunGroupOnce requires every request name to be in `uniq_name_map`. The source dereferences a null entry otherwise; `ValidationRobotConfigs` guarantees it (`RunConfig.ValidConfigResolvesGroups`). `client_index = data - 1` is the precondition on `clientIndex`.
- After an error, request bytes already queued stay in the send buffer. Stale bytes beyond the live lengths are not modelled: buffers hold the live bytes only.
- FrameConfig: integer syntax of yaml-cpp (hex, octal) is the `readInt` oracle, and keys are strings. A subscript on a scalar, which yaml-cpp rejects with `BadSubscript`, is modelled as a missing key. File existence and YAML syntax errors are `Document.NotFound`/`Malformed`. The uninitialised `value_rule` of a fresh `FrameFieldDef` is modelled as `Literal`. `global_frame_header_config` is never used and is not modelled.
- `init_robot_config` (file loading and `import_path`) is start-up glue and is not modelled. The config-reading gap is covered by `RunConfig.ValidConfigResolvesGroups`. Deleting `UniqRequest` objects in `cleanup_robot_config` is not modelled.
- FileUtils: `file_test`, `stat`, `access` and `mkdir` are the abstract `Fs`. There is no path normalization, and `errno` on success is not modelled.
- FileUtils.MkdirOutcome: `EINVAL` is stated one way only (no path ⇒ `EINVAL`), because `mkdir` itself may also report `EINVAL`.
- Checksum verification is compiled out in the source (`#if 0`) and is not modelled.
